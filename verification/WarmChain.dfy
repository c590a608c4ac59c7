/**
 The chain solver over whole runs with its warm start on: every frame carries the block ends of both
 projections into the next one.  After the first frame the carried ends are harmless, for ever, exactly
 when one condition on that frame holds; then the warm run is the cold run, frame by frame.  Otherwise
 blocks are counted twice in the second frame, and its answer can be wrong.
 */
module WarmChain {
  import opened BlockEnds
  import opened ChainChecks
  import opened ChainSolver
  import opened CountedTwice
  import opened Isotonic
  import opened WideInteger
  import opened Wrappers

  // ---- frames ----

  /** A recognised chain along x with the block ends carried from its last frame, or a range error. */
  datatype Frame =
    | Running(bodies: seq<Body>, velocityEnds: Option<seq<nat>>, positionEnds: Option<seq<nat>>)
    | Stopped

  function Carried(ends: Option<seq<nat>>, warm: bool): Option<seq<nat>> {
    if warm then ends else None
  }

  function ShiftedPredictions(bodies: seq<Body>): (r: seq<int>)
    ensures |r| == |bodies|
  {
    Shifted(PredictedPositions(bodies))
  }

  /** What the frame reads fits the 64-bit representation. */
  ghost predicate InputsFit(bodies: seq<Body>) {
    AllRep(Velocities(bodies)) && AllRep(PredictedPositions(bodies)) && AllRep(ShiftedPredictions(bodies))
  }

  /** The impulses recorded between neighbours and the total rounding error fit it too. */
  ghost predicate ImpulsesFit(v: seq<int>, u: seq<int>)
    requires |v| == |u|
  {
    && (forall k :: 0 < k < |v| ==> Residual(v, u, k) <= MAX_REP)
    && IsRep(-Residual(v, u, |v|))
  }

  lemma {:induction false} WritingKeepsLength(n: nat, blocks: seq<Block>)
    ensures WriteAll(n, blocks).Projected? ==> |WriteAll(n, blocks).projected| == n
  {
    if blocks != [] {
      WritingKeepsLength(n, blocks[..|blocks| - 1]);
    }
  }

  ghost function Step(frame: Frame, warm: bool): Frame {
    match frame
    case Stopped => Stopped
    case Running(bodies, velocityEnds, positionEnds) =>
      if !InputsFit(bodies) then Stopped
      else
        var v := Velocities(bodies);
        var velocities := Project(v, Carried(velocityEnds, warm));
        var positions := Project(ShiftedPredictions(bodies), Carried(positionEnds, warm));
        if velocities.Failed? || positions.Failed? then Stopped
        else
          ProjectKeepsLength(v, Carried(velocityEnds, warm));
          ProjectKeepsLength(ShiftedPredictions(bodies), Carried(positionEnds, warm));
          var next := Rebuild(bodies, velocities.projected, positions.projected);
          if AllRep(Positions(next)) && ImpulsesFit(v, velocities.projected)
          then Running(next, Some(velocities.blockEnds), Some(positions.blockEnds))
          else Stopped
  }

  lemma ProjectKeepsLength(x: seq<int>, warm: Option<seq<nat>>)
    ensures Project(x, warm).Projected? ==> |Project(x, warm).projected| == |x|
  {
    WritingKeepsLength(|x|, PoolAll(Count, StartBlocks(x, warm)));
  }

  ghost function RunFor(bodies: seq<Body>, warm: bool, frames: nat): Frame {
    if frames == 0 then Running(bodies, None, None) else Step(RunFor(bodies, warm, frames - 1), warm)
  }

  /** Both runs failed, or both have the same bodies. */
  ghost predicate SameOutcome(f: Frame, g: Frame) {
    (f.Stopped? && g.Stopped?) || (f.Running? && g.Running? && f.bodies == g.bodies)
  }

  /** The velocities and shifted predictions a frame reads, unless one does not fit. */
  method ReadChain(bodies: seq<Body>) returns (fits: bool, velocityValues: seq<int>, positionValues: seq<int>)
    ensures fits <==> InputsFit(bodies)
    ensures fits ==> velocityValues == Velocities(bodies) && positionValues == ShiftedPredictions(bodies)
  {
    velocityValues, positionValues := [], [];
    for i := 0 to |bodies|
      invariant velocityValues == Velocities(bodies)[..i] && positionValues == ShiftedPredictions(bodies)[..i]
      invariant AllRep(velocityValues) && AllRep(positionValues) && AllRep(PredictedPositions(bodies)[..i])
    {
      var (velocity, predicted) := (bodies[i].vx, Predicted(bodies[i]));
      var position := predicted - i * DIAMETER;
      if !IsRep(velocity) || !IsRep(predicted) || !IsRep(position) {
        assert velocity == Velocities(bodies)[i] && predicted == PredictedPositions(bodies)[i];
        assert position == ShiftedPredictions(bodies)[i];
        return false, velocityValues, positionValues;
      }
      velocityValues := velocityValues + [velocity];
      positionValues := positionValues + [position];
    }
    return true, velocityValues, positionValues;
  }

  /** The bodies with the projected values, unless a position does not fit. */
  method WriteChain(bodies: seq<Body>, u: seq<int>, q: seq<int>) returns (fits: bool, solved: seq<Body>)
    requires |u| == |q| == |bodies|
    ensures fits <==> AllRep(Positions(Rebuild(bodies, u, q)))
    ensures fits ==> solved == Rebuild(bodies, u, q)
  {
    solved := [];
    ghost var all := Rebuild(bodies, u, q);
    for i := 0 to |bodies|
      invariant solved == all[..i] && AllRep(Positions(all)[..i])
    {
      var position := q[i] + i * DIAMETER;
      assert position == Positions(all)[i];
      if !IsRep(position) { return false, solved; }
      solved := solved + [Body(position, bodies[i].py, u[i])];
    }
    return true, solved;
  }

  /** The impulse between each body and the next, and what rounding lost in all. */
  method RecordImpulses(v: seq<int>, u: seq<int>) returns (fits: bool)
    requires |v| == |u|
    ensures fits <==> ImpulsesFit(v, u)
  {
    var prefix := 0;
    for i := 0 to |v|
      invariant prefix == Residual(v, u, i)
      invariant forall k :: 0 < k <= i && k < |v| ==> Residual(v, u, k) <= MAX_REP
    {
      prefix := prefix + v[i] - u[i];
      assert prefix == Residual(v, u, i + 1);
      if i + 1 < |v| && !IsRep(if prefix > 0 then prefix else 0) { return false; }
    }
    return IsRep(-prefix);
  }

  /** One frame of the solver with the ends carried from the last one. */
  method SolveChainFrame(bodies: seq<Body>, velocityEnds: Option<seq<nat>>, positionEnds: Option<seq<nat>>, warm: bool)
    returns (next: Frame)
    ensures next == Step(Running(bodies, velocityEnds, positionEnds), warm)
  {
    hide InputsFit;
    hide ImpulsesFit;
    var fits, v, p := ReadChain(bodies);
    if !fits { return Stopped; }
    var velocities, _, _ := IsotonicFloorProjection(v, Carried(velocityEnds, warm));
    var positions, _, _ := IsotonicFloorProjection(p, Carried(positionEnds, warm));
    if velocities.Failed? || positions.Failed? { return Stopped; }
    ProjectKeepsLength(v, Carried(velocityEnds, warm));
    ProjectKeepsLength(p, Carried(positionEnds, warm));
    var solved;
    fits, solved := WriteChain(bodies, velocities.projected, positions.projected);
    if !fits { return Stopped; }
    fits := RecordImpulses(v, velocities.projected);
    if !fits { return Stopped; }
    next := Running(solved, Some(velocities.blockEnds), Some(positions.blockEnds));
  }

  // ---- the run without warm start ----

  /** Without the warm start a frame is the solved frame, unless a range error ends the run. */
  lemma ColdStep(frame: Frame)
    requires frame.Running? && frame.bodies != [] && Step(frame, false).Running?
    ensures Step(frame, false).bodies == SolveFrame(frame.bodies)
  {
    hide FloorProjection;
    hide ImpulsesFit;
    hide Project;
    ColdProject(Velocities(frame.bodies));
    ColdProject(ShiftedPredictions(frame.bodies));
  }

  /** A value of 64 bits. */
  predicate Fits64(x: int) {
    -0x8000_0000_0000_0000 <= x <= 0x7FFF_FFFF_FFFF_FFFF
  }

  lemma ReadsFit(bodies: seq<Body>)
    ensures InputsFit(bodies) <==>
      forall i :: 0 <= i < |bodies| ==>
        && Fits64(bodies[i].vx) && Fits64(Predicted(bodies[i]))
        && Fits64(Predicted(bodies[i]) - i * 0x1_0000_0000)
  {
    var (v, q, p) := (Velocities(bodies), PredictedPositions(bodies), ShiftedPredictions(bodies));
    assert forall i :: 0 <= i < |bodies| ==>
      v[i] == bodies[i].vx && q[i] == Predicted(bodies[i]) && p[i] == Predicted(bodies[i]) - i * 0x1_0000_0000;
  }

  /** Without carried ends the frame of an ordered chain ends the run exactly when a number it reads is too wide. */
  lemma OrderedFrameRunsIff(bodies: seq<Body>, velocityEnds: Option<seq<nat>>, positionEnds: Option<seq<nat>>)
    requires bodies != [] && Ordered(bodies)
    ensures Step(Running(bodies, velocityEnds, positionEnds), false).Running? <==>
      forall i :: 0 <= i < |bodies| ==>
        && Fits64(bodies[i].vx) && Fits64(Predicted(bodies[i]))
        && Fits64(Predicted(bodies[i]) - i * 0x1_0000_0000)
  {
    ReadsFit(bodies);
    hide Predicted;
    hide Ordered;
    hide Fits64;
    if InputsFit(bodies) {
      OrderedFrameRuns(bodies, velocityEnds, positionEnds);
    }
  }

  lemma OrderedFrameRuns(bodies: seq<Body>, velocityEnds: Option<seq<nat>>, positionEnds: Option<seq<nat>>)
    requires bodies != [] && Ordered(bodies) && InputsFit(bodies)
    ensures Step(Running(bodies, velocityEnds, positionEnds), false).Running?
  {
    hide FloorProjection;
    hide Step;
    hide Ordered;
    hide ImpulsesFit;
    var v := Velocities(bodies);
    PredictionsAreOrdered(bodies);
    ProjectionOfOrderedIsItself(v);
    ImpulsesOfSelf(v);
    AcceptedChainFliesFreely(bodies);
    hide SolveFrame;
    assert Positions(Fly(bodies, FixedStep())) == PredictedPositions(bodies);
    ColdStepGoesOn(Running(bodies, velocityEnds, positionEnds));
  }

  /** A frame that goes on leaves positions, impulses and rounding error within 64 bits. */
  lemma RunningFrameFits(bodies: seq<Body>, velocityEnds: Option<seq<nat>>, positionEnds: Option<seq<nat>>, warm: bool)
    requires Step(Running(bodies, velocityEnds, positionEnds), warm).Running?
    ensures var next := Step(Running(bodies, velocityEnds, positionEnds), warm).bodies;
      && |next| == |bodies| && (forall i :: 0 <= i < |next| ==> Fits64(next[i].px))
      && (forall k :: 0 < k < |bodies| ==> Residual(Velocities(bodies), Velocities(next), k) <= 0x7FFF_FFFF_FFFF_FFFF)
      && Fits64(-Residual(Velocities(bodies), Velocities(next), |bodies|))
  {
    hide Project;
    var (v, p) := (Velocities(bodies), ShiftedPredictions(bodies));
    var velocities := Project(v, Carried(velocityEnds, warm));
    var positions := Project(p, Carried(positionEnds, warm));
    ProjectKeepsLength(v, Carried(velocityEnds, warm));
    ProjectKeepsLength(p, Carried(positionEnds, warm));
    var next := Rebuild(bodies, velocities.projected, positions.projected);
    RebuiltParts(bodies, velocities.projected, positions.projected);
    assert forall i :: 0 <= i < |next| ==> next[i].px == Positions(next)[i];
  }

  /** Two bodies that meet at the extreme velocities: all they read fits, but the impulse between them is one too large. */
  lemma ImpulseOverflows(velocityEnds: Option<seq<nat>>, positionEnds: Option<seq<nat>>)
    ensures var pair := [Body(0, 0, 0x7FFF_FFFF_FFFF_FFFF), Body(0x1_0000_0000, 0, -0x8000_0000_0000_0000)];
      InputsFit(pair) && Step(Running(pair, velocityEnds, positionEnds), false).Stopped?
  {
    var pair := [Body(0, 0, 0x7FFF_FFFF_FFFF_FFFF), Body(0x1_0000_0000, 0, -0x8000_0000_0000_0000)];
    ReadsFit(pair);
    hide Step;
    hide FloorProjection;
    var (v, frame) := (Velocities(pair), Running(pair, velocityEnds, positionEnds));
    assert v == [0x7FFF_FFFF_FFFF_FFFF, -0x8000_0000_0000_0000];
    FallingPairProjects(v[0], v[1]);
    assert Residual(v, [-1, -1], 1) == 0x8000_0000_0000_0000 by {
      assert Residual(v, [-1, -1], 0) == 0;
    }
    if Step(frame, false).Running? {
      ColdStep(frame);
      RunningFrameFits(pair, velocityEnds, positionEnds, false);
      hide SolveFrame;
      SolvedVelocities(pair);
      assert false;
    }
  }

  lemma SolvedVelocities(bodies: seq<Body>)
    ensures Velocities(SolveFrame(bodies)) == FloorProjection(Velocities(bodies))
  {
    hide FloorProjection;
    RebuiltParts(bodies, FloorProjection(Velocities(bodies)), FloorProjection(ShiftedPredictions(bodies)));
  }

  lemma {:induction false} ColdRunIsSolveFor(bodies: seq<Body>, frames: nat)
    requires bodies != [] && RunFor(bodies, false, frames).Running?
    ensures RunFor(bodies, false, frames).bodies == SolveFor(bodies, frames)
  {
    hide Step;
    hide SolveFrame;
    if frames > 0 {
      StoppedStays(RunFor(bodies, false, frames - 1), false);
      ColdRunIsSolveFor(bodies, frames - 1);
      ColdStep(RunFor(bodies, false, frames - 1));
    }
  }

  lemma StoppedStays(frame: Frame, warm: bool)
    ensures frame.Stopped? ==> Step(frame, warm).Stopped?
  {
  }

  // ---- cruising: ordered bodies and harmless ends ----

  ghost predicate HarmlessEnds(x: seq<int>, ends: Option<seq<nat>>) {
    ends.Some? && Plausible(x, ends.value) && Steady(x, ends.value)
  }

  ghost predicate Cruising(frame: Frame) {
    && frame.Running? && frame.bodies != [] && Ordered(frame.bodies)
    && HarmlessEnds(Velocities(frame.bodies), frame.velocityEnds)
    && HarmlessEnds(ShiftedPredictions(frame.bodies), frame.positionEnds)
  }

  lemma FlightKeepsSteps(bodies: seq<Body>)
    requires Ordered(bodies)
    ensures var next := Fly(bodies, FixedStep());
      && Ordered(next) && Velocities(next) == Velocities(bodies)
      && SameSteps(ShiftedPredictions(bodies), ShiftedPredictions(next))
  {
    DisplacementIsMonotone();
    FlightKeepsChain(bodies, FixedStep(), 1);
    FlightKeepsVelocities(bodies, FixedStep(), 1);
    assert FlyFor(bodies, FixedStep(), 1) == Fly(FlyFor(bodies, FixedStep(), 0), FixedStep());
    var next := Fly(bodies, FixedStep());
    var (x, y) := (ShiftedPredictions(bodies), ShiftedPredictions(next));
    forall i | 0 < i < |bodies| ensures x[i - 1] == x[i] <==> y[i - 1] == y[i] {
      assert FixedStep()(bodies[i - 1].vx) <= FixedStep()(bodies[i].vx);
      assert next[i].vx == bodies[i].vx && next[i - 1].vx == bodies[i - 1].vx;
    }
  }

  /** Warm or cold, the projections of a cruising frame answer what they are given. */
  lemma CruiseProjects(frame: Frame)
    requires Cruising(frame) && InputsFit(frame.bodies)
    ensures var (v, p) := (Velocities(frame.bodies), ShiftedPredictions(frame.bodies));
      && Project(v, frame.velocityEnds) == Projected(v, NextEnds(v, frame.velocityEnds.value))
      && Project(p, frame.positionEnds) == Projected(p, NextEnds(p, frame.positionEnds.value))
      && Project(v, None).Projected? && Project(v, None).projected == v
      && Project(p, None).Projected? && Project(p, None).projected == p
  {
    hide Plausible;
    hide Steady;
    hide FloorProjection;
    hide Project;
    hide NextEnds;
    var (v, p) := (Velocities(frame.bodies), ShiftedPredictions(frame.bodies));
    PredictionsAreOrdered(frame.bodies);
    SteadyStart(v, frame.velocityEnds.value);
    SteadyStart(p, frame.positionEnds.value);
    ColdProject(v);
    ColdProject(p);
    ProjectionOfOrderedIsItself(v);
    ProjectionOfOrderedIsItself(p);
  }

  lemma CruiseIsInherited(frame: Frame)
    requires Cruising(frame)
    ensures var (v, p) := (Velocities(frame.bodies), ShiftedPredictions(frame.bodies));
      Cruising(Running(Fly(frame.bodies, FixedStep()),
        Some(NextEnds(v, frame.velocityEnds.value)), Some(NextEnds(p, frame.positionEnds.value))))
  {
    hide Plausible;
    hide Steady;
    hide NextEnds;
    var (v, p) := (Velocities(frame.bodies), ShiftedPredictions(frame.bodies));
    FlightKeepsSteps(frame.bodies);
    SteadyIsInherited(v, v, frame.velocityEnds.value);
    SteadyIsInherited(p, ShiftedPredictions(Fly(frame.bodies, FixedStep())), frame.positionEnds.value);
  }

  /** A cruising frame flies freely and cruises on, and a frame without warm start does the same to its bodies. */
  lemma CruiseStep(frame: Frame, cold: Frame)
    requires Cruising(frame) && cold.Running? && cold.bodies == frame.bodies
    ensures SameOutcome(Step(frame, true), Step(cold, false))
    ensures Step(frame, true).Running? ==>
      Cruising(Step(frame, true)) && Step(frame, true).bodies == Fly(frame.bodies, FixedStep())
  {
    hide HarmlessEnds;
    hide Project;
    hide NextEnds;
    hide ImpulsesFit;
    if InputsFit(frame.bodies) {
      CruiseProjects(frame);
      RebuiltAsPredicted(frame.bodies);
      CruiseIsInherited(frame);
    }
  }

  // ---- the condition on the first frame ----

  /**
   Positions q after the first frame, displacements d, position block ends: the displacements are equal
   within every block, or not within the first, or everything up to the last block of the leading ones
   they are equal within moves as one and stands as one.
   */
  ghost predicate Safe(q: seq<int>, d: seq<int>, ends: seq<nat>) {
    var j := FlatParts(d, ends, 0);
    j == |ends| || j == 0 || (Flat(q, 0, ends[j - 1]) && Flat(d, 0, ends[j - 1]))
  }

  ghost predicate IsSum(x: seq<int>, q: seq<int>, d: seq<int>) {
    |x| == |q| == |d| && forall i :: 0 <= i < |x| ==> x[i] == q[i] + d[i]
  }

  lemma FlatSum(x: seq<int>, q: seq<int>, d: seq<int>, lo: nat, hi: nat)
    requires IsSum(x, q, d) && Nondecreasing(q) && Nondecreasing(d)
    ensures Flat(x, lo, hi) <==> Flat(q, lo, hi) && Flat(d, lo, hi)
  {
    if hi <= |x| {
      forall i | lo < i < hi ensures x[i - 1] == x[i] <==> q[i - 1] == q[i] && d[i - 1] == d[i] {
        assert q[i - 1] <= q[i] && d[i - 1] <= d[i];
      }
    }
  }

  lemma {:induction false} SumParts(x: seq<int>, q: seq<int>, d: seq<int>, ends: seq<nat>, begin: nat)
    requires IsSum(x, q, d) && Nondecreasing(q) && Nondecreasing(d)
    requires FlatParts(q, ends, begin) == |ends|
    ensures FlatParts(x, ends, begin) == FlatParts(d, ends, begin)
    decreases |ends|
  {
    hide Flat;
    hide IsSum;
    hide Nondecreasing;
    if ends != [] {
      FlatSum(x, q, d, begin, ends[0]);
      SumParts(x, q, d, ends[1..], ends[0]);
    }
  }

  lemma SafeIffSteady(x: seq<int>, q: seq<int>, d: seq<int>, ends: seq<nat>)
    requires IsSum(x, q, d) && Nondecreasing(q) && Nondecreasing(d)
    requires FlatParts(q, ends, 0) == |ends|
    ensures Safe(q, d, ends) <==> Steady(x, ends)
  {
    hide Flat;
    hide IsSum;
    hide Nondecreasing;
    SumParts(x, q, d, ends, 0);
    var j := FlatParts(d, ends, 0);
    if j > 0 {
      FlatSum(x, q, d, 0, ends[j - 1]);
    }
  }

  // ---- runs with the warm start on ----

  function Displacements(bodies: seq<Body>): seq<int> {
    seq(|bodies|, i requires 0 <= i < |bodies| => Displacement(bodies[i].vx))
  }

  /** The condition, read off the frame the first step leaves. */
  ghost predicate SafeAfter(first: Frame) {
    first.Running? && first.positionEnds.Some? ==>
      Safe(Shifted(Positions(first.bodies)), Displacements(first.bodies), first.positionEnds.value)
  }

  ghost predicate SafeStart(bodies: seq<Body>) {
    SafeAfter(RunFor(bodies, true, 1))
  }

  lemma PredictionsAreSums(bodies: seq<Body>)
    requires Ordered(bodies)
    ensures var (q, d) := (Shifted(Positions(bodies)), Displacements(bodies));
      IsSum(ShiftedPredictions(bodies), q, d) && Nondecreasing(q) && Nondecreasing(d)
  {
    DisplacementIsMonotone();
    var (q, d) := (Shifted(Positions(bodies)), Displacements(bodies));
    forall i, j | 0 <= i <= j < |bodies| ensures q[i] <= q[j] && d[i] <= d[j] {
      SeparationAccumulates(bodies, i, j);
      assert FixedStep()(bodies[i].vx) <= FixedStep()(bodies[j].vx);
    }
  }

  /** What one step from a start without ends leaves, if it does not fail. */
  ghost predicate FirstFrame(bodies: seq<Body>, first: Frame) {
    && first.Running? && first.bodies == SolveFrame(bodies) && Ordered(first.bodies)
    && first.velocityEnds.Some? && first.positionEnds.Some?
    && HarmlessEnds(Velocities(first.bodies), first.velocityEnds)
    && Plausible(ShiftedPredictions(first.bodies), first.positionEnds.value)
    && FlatParts(Shifted(Positions(first.bodies)), first.positionEnds.value, 0) == |first.positionEnds.value|
  }

  lemma PartsAreHarmless(z: seq<int>, x: seq<int>, ends: seq<nat>)
    requires |x| == |z| && Plausible(z, ends) && FlatParts(z, ends, 0) == |ends|
    ensures HarmlessEnds(z, Some(ends)) && Plausible(x, ends)
  {
    hide FlatParts;
  }

  lemma FirstFrameShape(bodies: seq<Body>)
    requires bodies != [] && AllRep(Velocities(bodies)) && AllRep(ShiftedPredictions(bodies))
    ensures FirstFrame(bodies, Running(SolveFrame(bodies), Some(EndsOf(ColdBlocks(Velocities(bodies)))),
      Some(EndsOf(ColdBlocks(ShiftedPredictions(bodies))))))
  {
    hide FloorProjection;
    hide FlatParts;
    hide ColdBlocks;
    hide HarmlessEnds;
    hide Plausible;
    var (v, p) := (Velocities(bodies), ShiftedPredictions(bodies));
    ColdProject(v);
    ColdProject(p);
    RebuiltParts(bodies, FloorProjection(v), FloorProjection(p));
    SolvedFrameIsAccepted(bodies);
    PartsAreHarmless(FloorProjection(v), v, EndsOf(ColdBlocks(v)));
    PartsAreHarmless(FloorProjection(p), ShiftedPredictions(SolveFrame(bodies)), EndsOf(ColdBlocks(p)));
  }

  lemma FirstStep(bodies: seq<Body>, warm: bool)
    requires bodies != []
    ensures RunFor(bodies, warm, 1) == Step(Running(bodies, None, None), warm) == RunFor(bodies, !warm, 1)
    ensures RunFor(bodies, warm, 1).Running? ==> FirstFrame(bodies, RunFor(bodies, warm, 1))
  {
    hide FloorProjection;
    hide FirstFrame;
    hide ColdBlocks;
    hide Project;
    hide ImpulsesFit;
    assert RunFor(bodies, warm, 0) == RunFor(bodies, !warm, 0) == Running(bodies, None, None);
    if RunFor(bodies, warm, 1).Running? {
      ColdProject(Velocities(bodies));
      ColdProject(ShiftedPredictions(bodies));
      FirstFrameShape(bodies);
    }
  }

  lemma FirstFrameCruises(bodies: seq<Body>, first: Frame)
    requires bodies != [] && FirstFrame(bodies, first)
    ensures Cruising(first) <==> SafeAfter(first)
    ensures Cruising(first) <==> Idle(ShiftedPredictions(first.bodies), first.positionEnds)
    ensures Idle(Velocities(first.bodies), first.velocityEnds)
  {
    hide Steady;
    hide FlatParts;
    hide Safe;
    hide SolveFrame;
    PredictionsAreSums(first.bodies);
    PredictionsAreOrdered(first.bodies);
    SafeIffSteady(ShiftedPredictions(first.bodies), Shifted(Positions(first.bodies)), Displacements(first.bodies),
      first.positionEnds.value);
    IdleIffSteady(ShiftedPredictions(first.bodies), first.positionEnds.value);
    IdleIffSteady(Velocities(first.bodies), first.velocityEnds.value);
  }

  lemma {:induction false} SafeRunCruises(bodies: seq<Body>, frames: nat)
    requires bodies != [] && SafeStart(bodies)
    ensures SameOutcome(RunFor(bodies, true, frames), RunFor(bodies, false, frames))
    ensures frames > 0 && RunFor(bodies, true, frames).Running? ==> Cruising(RunFor(bodies, true, frames))
  {
    hide Step;
    hide Cruising;
    hide FirstFrame;
    hide SafeAfter;
    if frames == 1 {
      FirstStep(bodies, true);
      if RunFor(bodies, true, 1).Running? {
        FirstFrameCruises(bodies, RunFor(bodies, true, 1));
      }
    } else if frames > 1 {
      var (f, g) := (RunFor(bodies, true, frames - 1), RunFor(bodies, false, frames - 1));
      SafeRunCruises(bodies, frames - 1);
      StoppedStays(f, true);
      StoppedStays(g, false);
      if f.Running? {
        CruiseStep(f, g);
      }
    }
  }

  /** From a safe first frame the carried block ends never show: the warm run is the cold run, frame by frame. */
  lemma WarmRunIsColdRun(bodies: seq<Body>, frames: nat)
    requires bodies != [] && SafeStart(bodies)
    ensures SameOutcome(RunFor(bodies, true, frames), RunFor(bodies, false, frames))
    ensures RunFor(bodies, true, frames).Running? ==> RunFor(bodies, true, frames).bodies == SolveFor(bodies, frames)
  {
    hide RunFor;
    SafeRunCruises(bodies, frames);
    if RunFor(bodies, true, frames).Running? {
      ColdRunIsSolveFor(bodies, frames);
    }
  }

  /** Every warm frame from a safe start passes the fuzzer's checks, and the momentum bound holds for the whole run. */
  lemma WarmFramesPass(bodies: seq<Body>, frames: nat)
    requires bodies != [] && SafeStart(bodies) && RunFor(bodies, true, frames + 1).Running?
    ensures var (before, after) := (RunFor(bodies, true, frames), RunFor(bodies, true, frames + 1));
      && before.Running? && KktAccepts(before.bodies, after.bodies) && Ordered(after.bodies)
      && (Level(bodies) ==> ChainOk(after.bodies))
      && 0 <= Momentum(bodies) - Momentum(after.bodies) < |bodies|
  {
    hide Step;
    hide SolveFrame;
    hide KktAccepts;
    hide Momentum;
    StoppedStays(RunFor(bodies, true, frames), true);
    WarmRunIsColdRun(bodies, frames);
    WarmRunIsColdRun(bodies, frames + 1);
    SolvedFrameIsAccepted(SolveFor(bodies, frames));
    SolverSettlesInOneFrame(bodies, frames);
    MomentumBoundForever(bodies, frames + 1);
  }

  /** Neither projection of the frame pools anything. */
  ghost predicate PoolsNothing(frame: Frame) {
    frame.Running? ==>
      && Idle(Velocities(frame.bodies), frame.velocityEnds)
      && Idle(ShiftedPredictions(frame.bodies), frame.positionEnds)
  }

  /** After the first frame no projection ever pools, as an ordered chain demands, exactly from a safe start. */
  lemma PoolingIsIdleIffSafe(bodies: seq<Body>)
    requires bodies != []
    ensures (forall k :: k > 0 ==> PoolsNothing(RunFor(bodies, true, k))) <==> SafeStart(bodies)
    ensures PoolsNothing(RunFor(bodies, true, 1)) <==> SafeStart(bodies)
  {
    hide FirstFrame;
    hide RunFor;
    hide Safe;
    hide Idle;
    FirstStep(bodies, true);
    var first := RunFor(bodies, true, 1);
    if first.Running? {
      FirstFrameCruises(bodies, first);
    }
    if SafeStart(bodies) {
      forall k | k > 0 ensures PoolsNothing(RunFor(bodies, true, k)) {
        SafeRunCruises(bodies, k);
        CruisingPoolsNothing(RunFor(bodies, true, k));
      }
    }
  }

  /** What the second frame answers if the first was not safe and its values are close: not what it is given. */
  lemma UnsafeSecondDiffers(first: Frame)
    requires first.Running? && first.bodies != [] && Ordered(first.bodies) && first.positionEnds.Some?
    requires Close(ShiftedPredictions(first.bodies)) && InputsFit(first.bodies)
    requires Plausible(ShiftedPredictions(first.bodies), first.positionEnds.value)
    requires !Steady(ShiftedPredictions(first.bodies), first.positionEnds.value)
    requires Step(first, false).Running?
    ensures !SameOutcome(Step(first, true), Step(first, false))
  {
    hide Project;
    hide FloorProjection;
    hide Steady;
    hide Close;
    hide ImpulsesFit;
    var (v, x) := (Velocities(first.bodies), ShiftedPredictions(first.bodies));
    PredictionsAreOrdered(first.bodies);
    AnswerIffSteady(x, first.positionEnds.value);
    ColdStep(first);
    ColdProject(v);
    ColdProject(x);
    ProjectionOfOrderedIsItself(x);
    RebuiltParts(first.bodies, FloorProjection(v), x);
    if Step(first, true).Running? {
      var (u, q) := (Project(v, first.velocityEnds), Project(x, first.positionEnds));
      ProjectKeepsLength(v, first.velocityEnds);
      ProjectKeepsLength(x, first.positionEnds);
      RebuiltParts(first.bodies, u.projected, q.projected);
    }
  }

  /**
   If the second frame reads close values that fit, and passes without warm start, then the warm run is the
   cold run for every number of frames exactly from a safe start.
   */
  lemma CloseRunsAgreeIffSafe(bodies: seq<Body>)
    requires bodies != [] && RunFor(bodies, false, 2).Running?
    requires Close(ShiftedPredictions(SolveFrame(bodies)))
    ensures (forall k :: SameOutcome(RunFor(bodies, true, k), RunFor(bodies, false, k))) <==> SafeStart(bodies)
    ensures SameOutcome(RunFor(bodies, true, 2), RunFor(bodies, false, 2)) <==> SafeStart(bodies)
  {
    hide Step;
    hide Close;
    hide Safe;
    hide Steady;
    hide SolveFrame;
    hide FlatParts;
    FirstStep(bodies, true);
    var first := RunFor(bodies, true, 1);
    StoppedStays(first, false);
    assert RunFor(bodies, true, 2) == Step(first, true) && RunFor(bodies, false, 2) == Step(first, false);
    if SafeStart(bodies) {
      forall k: nat ensures SameOutcome(RunFor(bodies, true, k), RunFor(bodies, false, k)) {
        SafeRunCruises(bodies, k);
      }
    } else {
      PredictionsAreSums(first.bodies);
      SafeIffSteady(ShiftedPredictions(first.bodies), Shifted(Positions(first.bodies)), Displacements(first.bodies),
        first.positionEnds.value);
      RunningFits(first, false);
      UnsafeSecondDiffers(first);
    }
  }

  lemma RunningFits(frame: Frame, warm: bool)
    requires frame.Running? && Step(frame, warm).Running?
    ensures InputsFit(frame.bodies)
  {
  }

  lemma CruisingPoolsNothing(frame: Frame)
    requires frame.Running? ==> Cruising(frame)
    ensures PoolsNothing(frame)
  {
    hide Steady;
    hide Idle;
    if frame.Running? {
      PredictionsAreOrdered(frame.bodies);
      IdleIffSteady(Velocities(frame.bodies), frame.velocityEnds.value);
      IdleIffSteady(ShiftedPredictions(frame.bodies), frame.positionEnds.value);
    }
  }

  // ---- the fuzzer's chains ----

  ghost predicate Falling(x: seq<int>) {
    forall i :: 0 < i < |x| ==> x[i - 1] > x[i]
  }

  /** Values that fall all the way weigh more, up to any place, than that place's value repeated. */
  lemma {:induction false} FallingMoment(x: seq<int>, k: nat, low: int)
    requires Falling(x) && k <= |x|
    requires k > 0 ==> low < x[k - 1]
    ensures Moment(x, Ones(|x|), 0, k) >= (low + 1) * k
  {
    if k > 0 {
      FallingMoment(x, k - 1, low);
      assert (low + 1) * k == (low + 1) * (k - 1) + low + 1;
    }
  }

  lemma FallingIsOut(m: int, k: nat, v: int)
    requires k > 0 && m >= (v + 1) * k
    ensures MeanGreater(Count, Block(0, k, m), Block(k, k + 1, v))
  {
    assert (v + 1) * k == v * k + k;
  }

  lemma FallingJoins(x: seq<int>, k: nat)
    requires Falling(x) && 0 < k < |x|
    ensures var m := Moment(x, Ones(|x|), 0, k);
      Settle(Count, [Block(0, k, m), Block(k, k + 1, x[k])]) == [Block(0, k + 1, m + x[k])]
  {
    hide MeanGreater;
    hide Settle;
    hide Moment;
    var m := Moment(x, Ones(|x|), 0, k);
    assert x[k] < x[k - 1];
    hide Falling;
    FallingMoment(x, k, x[k]);
    FallingIsOut(m, k, x[k]);
    PairJoins(Block(0, k, m), Block(k, k + 1, x[k]));
  }

  lemma FirstSingleton(x: seq<int>)
    requires x != []
    ensures PoolAll(Count, Singletons(x, Ones(|x|))[..1]) == [Block(0, 1, Moment(x, Ones(|x|), 0, 1))]
  {
    OrderedBlocksStay(Count, [Block(0, 1, x[0])]);
    hide PoolAll;
    SingletonFloor(x, 0);
    var singles := Singletons(x, Ones(|x|));
    assert |singles| == |x|;
    hide Singletons;
    assert singles[..1] == [singles[0]];
    assert Moment(x, Ones(|x|), 0, 1) == Moment(x, Ones(|x|), 0, 0) + x[0] && Moment(x, Ones(|x|), 0, 0) == 0;
  }

  lemma {:induction false} FallingPoolsToOne(x: seq<int>, k: nat)
    requires Falling(x) && 0 < k <= |x|
    ensures PoolAll(Count, Singletons(x, Ones(|x|))[..k]) == [Block(0, k, Moment(x, Ones(|x|), 0, k))]
  {
    hide Settle;
    hide Falling;
    hide MeanGreater;
    if k == 1 {
      FirstSingleton(x);
    } else {
      var (w, singles) := (Ones(|x|), Singletons(x, Ones(|x|)));
      var last := singles[k - 1];
      assert last == Block(k - 1, k, x[k - 1]);
      FallingPoolsToOne(x, k - 1);
      FallingJoins(x, k - 1);
      assert singles[..k] == singles[..k - 1] + [last];
      hide Singletons;
      PoolPush(singles[..k - 1], last);
      assert [Block(0, k - 1, Moment(x, w, 0, k - 1))] + [last] == [Block(0, k - 1, Moment(x, w, 0, k - 1)), last];
    }
  }

  /** Two bodies at rest that overlap are parted to one diameter about their middle, rounded down. */
  lemma RestingPairParts(a: int, b: int)
    requires b - a < 0x1_0000_0000
    ensures var r := SolveFrame([Body(a, 0, 0), Body(b, 0, 0)]);
      && r[1].px - r[0].px == 0x1_0000_0000 && 0 <= (a + b) - (r[0].px + r[1].px) <= 1
      && r[0].vx == 0 == r[1].vx
  {
    hide FloorProjection;
    var bodies := [Body(a, 0, 0), Body(b, 0, 0)];
    var (x, q) := ([a, b - 0x1_0000_0000], FloorDiv(a + b - 0x1_0000_0000, 2));
    assert ShiftedPredictions(bodies) == x && Velocities(bodies) == [0, 0];
    FallingPairProjects(a, b - 0x1_0000_0000);
    ProjectionOfOrderedIsItself([0, 0]);
  }

  lemma FallingPairProjects(a: int, b: int)
    requires b < a
    ensures FloorProjection([a, b]) == [FloorDiv(a + b, 2), FloorDiv(a + b, 2)]
  {
    hide Irreducible;
    var x := [a, b];
    FallingPoolsToOne(x, 2);
    assert Singletons(x, Ones(2))[..2] == Singletons(x, Ones(2));
    ColdTiling(x);
    assert Moment(x, Ones(2), 0, 2) == a + b by {
      assert Moment(x, Ones(2), 0, 1) == Moment(x, Ones(2), 0, 0) + a && Moment(x, Ones(2), 0, 0) == 0;
    }
    assert ColdBlocks(x)[0] == Block(0, 2, a + b);
    PaintTakesValues(x, Ones(2), ColdBlocks(x), 2, FlooredMean());
    assert PaintedOn(FloorProjection(x), FlooredMean()(Block(0, 2, a + b)), 0, 2);
  }

  /** If the first frame pools the positions into one block, whatever follows is safe. */
  lemma OneBlockIsSafe(bodies: seq<Body>)
    requires bodies != [] && |ColdBlocks(ShiftedPredictions(bodies))| == 1
    ensures SafeStart(bodies)
  {
    hide ColdBlocks;
    hide FloorProjection;
    hide FlatParts;
    hide ImpulsesFit;
    hide Project;
    FirstStep(bodies, true);
    if RunFor(bodies, true, 1).Running? {
      ColdProject(ShiftedPredictions(bodies));
      ColdProject(Velocities(bodies));
    }
  }

  /** The fuzzer's random chain: bodies one diameter apart, speeds falling by a sixty-fourth from base / 64. */
  function FuzzerChain(n: nat, base: nat): (r: seq<Body>)
    ensures |r| == n
  {
    seq(n, i => Body(i * DIAMETER, 0, (base - i) * (SCALE / 64)))
  }

  /** In raw units: places 2^32 apart, speeds falling by 2^26 from base * 2^26. */
  lemma FuzzerChainIs(n: nat, base: nat, i: nat)
    requires i < n
    ensures FuzzerChain(n, base)[i] == Body(i * 0x1_0000_0000, 0, base * 0x400_0000 - i * 0x400_0000)
  {
  }

  lemma FasterFalls(v: nat)
    ensures Displacement(v) < Displacement(v + SCALE / 64)
  {
    assert (v * STEP + SCALE) / SCALE == v * STEP / SCALE + 1;
    QuotientMonotone(v * STEP + SCALE, (v + SCALE / 64) * STEP, SCALE);
  }

  lemma FuzzerPrediction(n: nat, base: nat, i: nat)
    requires i < n < base
    ensures ShiftedPredictions(FuzzerChain(n, base))[i] == Displacement((base - i) * (SCALE / 64))
  {
    hide Displacement;
  }

  lemma FuzzerChainFalls(n: nat, base: nat)
    requires n < base
    ensures Falling(ShiftedPredictions(FuzzerChain(n, base)))
  {
    hide FuzzerChain;
    hide Displacement;
    hide ShiftedPredictions;
    var p := ShiftedPredictions(FuzzerChain(n, base));
    forall i | 0 < i < n ensures p[i - 1] > p[i] {
      FuzzerPrediction(n, base, i);
      FuzzerPrediction(n, base, i - 1);
      FasterFalls((base - i) * (SCALE / 64));
    }
  }

  // ---- no range error ----

  /** 2^33, above every speed the fuzzer draws for up to 64 bodies. */
  const FAST := 0x2_0000_0000
  const FAR := 0x1000_0000_0000_0000

  ghost predicate Within(x: seq<int>, most: int) {
    forall i :: 0 <= i < |x| ==> 0 <= x[i] <= most
  }

  ghost predicate Bounded(bodies: seq<Body>, most: int) {
    |bodies| <= 64 && Within(Velocities(bodies), FAST) && Within(Shifted(Positions(bodies)), most)
  }

  lemma {:induction false} ResidualAtMost(v: seq<int>, u: seq<int>, k: nat)
    requires |v| == |u| && k <= |v| && Within(v, FAST) && Within(u, FAST)
    ensures 0 - k * FAST <= Residual(v, u, k) <= k * FAST
  {
    if k > 0 {
      ResidualAtMost(v, u, k - 1);
    }
  }

  lemma BoundedImpulsesFit(v: seq<int>, u: seq<int>)
    requires |v| == |u| <= 64 && Within(v, FAST) && Within(u, FAST)
    ensures ImpulsesFit(v, u)
  {
    hide Within;
    forall k | 0 <= k <= |v| ensures 0 - k * FAST <= Residual(v, u, k) <= k * FAST {
      ResidualAtMost(v, u, k);
    }
  }

  lemma DisplacementBetween(v: int)
    requires 0 <= v <= FAST
    ensures 0 <= Displacement(v) <= FAST
  {
    assert v * STEP <= FAST * STEP;
  }

  lemma BoundedPredictions(bodies: seq<Body>, most: int)
    requires Bounded(bodies, most)
    ensures Within(ShiftedPredictions(bodies), most + FAST)
  {
    hide Displacement;
    var x := ShiftedPredictions(bodies);
    forall i | 0 <= i < |bodies| ensures 0 <= x[i] <= most + FAST {
      DisplacementBetween(Velocities(bodies)[i]);
      assert x[i] == Shifted(Positions(bodies))[i] + Displacement(Velocities(bodies)[i]);
    }
  }

  lemma BoundedInputsFit(bodies: seq<Body>, most: int)
    requires Bounded(bodies, most) && most + FAST <= FAR
    ensures InputsFit(bodies)
  {
    BoundedPredictions(bodies, most);
    hide Predicted;
    var (p, x) := (PredictedPositions(bodies), ShiftedPredictions(bodies));
    forall i | 0 <= i < |bodies| ensures IsRep(p[i]) {
      assert p[i] == x[i] + i * DIAMETER;
    }
  }

  lemma BoundedProjections(bodies: seq<Body>, most: int)
    requires Bounded(bodies, most) && most + FAST <= FAR
    ensures InputsFit(bodies) && Within(FloorProjection(Velocities(bodies)), FAST)
    ensures Within(FloorProjection(ShiftedPredictions(bodies)), most + FAST)
    ensures ImpulsesFit(Velocities(bodies), FloorProjection(Velocities(bodies)))
  {
    hide FloorProjection;
    hide ImpulsesFit;
    var (v, p) := (Velocities(bodies), ShiftedPredictions(bodies));
    BoundedPredictions(bodies, most);
    BoundedInputsFit(bodies, most);
    ProjectionBetween(v, 0, FAST);
    ProjectionBetween(p, 0, most + FAST);
    BoundedImpulsesFit(v, FloorProjection(v));
  }

  lemma ColdStepGoesOn(frame: Frame)
    requires frame.Running? && frame.bodies != [] && InputsFit(frame.bodies)
    requires ImpulsesFit(Velocities(frame.bodies), FloorProjection(Velocities(frame.bodies)))
    requires AllRep(Positions(SolveFrame(frame.bodies)))
    ensures Step(frame, false).Running? && Step(frame, false).bodies == SolveFrame(frame.bodies)
  {
    hide FloorProjection;
    hide Project;
    hide ImpulsesFit;
    ColdProject(Velocities(frame.bodies));
    ColdProject(ShiftedPredictions(frame.bodies));
  }

  /** Bounded chains stay bounded, a little further out, and nothing overflows. */
  lemma BoundedStep(frame: Frame, most: int)
    requires frame.Running? && frame.bodies != [] && Bounded(frame.bodies, most) && most + FAST <= FAR
    ensures Step(frame, false).Running? && Bounded(Step(frame, false).bodies, most + FAST)
    ensures |Step(frame, false).bodies| == |frame.bodies|
  {
    hide FloorProjection;
    hide ImpulsesFit;
    hide Within;
    hide Step;
    hide InputsFit;
    hide AllRep;
    var (v, p) := (Velocities(frame.bodies), ShiftedPredictions(frame.bodies));
    BoundedProjections(frame.bodies, most);
    RebuiltParts(frame.bodies, FloorProjection(v), FloorProjection(p));
    BoundedPositionsFit(SolveFrame(frame.bodies), most + FAST);
    ColdStepGoesOn(frame);
  }

  lemma BoundedPositionsFit(bodies: seq<Body>, most: int)
    requires |bodies| <= 64 && Within(Shifted(Positions(bodies)), most) && most <= FAR
    ensures AllRep(Positions(bodies))
  {
    forall i | 0 <= i < |bodies| ensures IsRep(Positions(bodies)[i]) {
      assert Shifted(Positions(bodies))[i] == Positions(bodies)[i] - i * DIAMETER;
    }
  }

  /** How far out a chain can be after some frames. */
  function Reach(most: int, frames: nat): int {
    most + frames * FAST
  }

  lemma ReachNext(most: int, frames: nat)
    ensures Reach(most, frames + 1) == Reach(most, frames) + FAST && Reach(most, 0) == most
  {
  }

  lemma {:induction false} BoundedRunGoesOn(bodies: seq<Body>, most: int, frames: nat)
    requires bodies != [] && Bounded(bodies, most) && Reach(most, frames) <= FAR
    ensures RunFor(bodies, false, frames).Running?
    ensures RunFor(bodies, false, frames).bodies != []
    ensures Bounded(RunFor(bodies, false, frames).bodies, Reach(most, frames))
  {
    hide Step;
    hide Bounded;
    hide Reach;
    if frames > 0 {
      ReachNext(most, frames - 1);
      BoundedRunGoesOn(bodies, most, frames - 1);
      BoundedStep(RunFor(bodies, false, frames - 1), Reach(most, frames - 1));
    } else {
      ReachNext(most, 0);
    }
  }

  /** No run of the fuzzer's sizes overflows, not in its eight frames and not in many more. */
  lemma FuzzerRunGoesOn(n: nat, base: nat, frames: nat)
    requires 0 < n <= 64 && n < base <= n + 64 && frames <= 0x100_0000
    ensures RunFor(FuzzerChain(n, base), true, frames).Running?
  {
    hide RunFor;
    hide SafeStart;
    FuzzerChainBounded(n, base);
    BoundedRunGoesOn(FuzzerChain(n, base), 0, frames);
    FuzzerGateHolds(n, base, frames);
  }

  lemma FuzzerChainBounded(n: nat, base: nat)
    requires 0 < n <= 64 && n < base <= n + 64
    ensures Bounded(FuzzerChain(n, base), 0)
  {
  }

  lemma FuzzerStartIsSafe(n: nat, base: nat)
    requires 0 < n < base
    ensures SafeStart(FuzzerChain(n, base)) && Level(FuzzerChain(n, base))
  {
    hide ColdBlocks;
    hide SafeStart;
    hide Falling;
    var chain := FuzzerChain(n, base);
    FuzzerChainFalls(n, base);
    FallingColdBlocks(ShiftedPredictions(chain));
    OneBlockIsSafe(chain);
  }

  /** On the fuzzer's chains warm and cold agree, and every warm frame passes, over any number of frames. */
  lemma FuzzerGateHolds(n: nat, base: nat, frames: nat)
    requires 0 < n < base
    ensures SafeStart(FuzzerChain(n, base))
    ensures var warm := RunFor(FuzzerChain(n, base), true, frames);
      var cold := RunFor(FuzzerChain(n, base), false, frames);
      && SameOutcome(warm, cold)
      && (frames > 0 && warm.Running? ==>
        && RunFor(FuzzerChain(n, base), true, frames - 1).Running?
        && KktAccepts(RunFor(FuzzerChain(n, base), true, frames - 1).bodies, warm.bodies)
        && ChainOk(warm.bodies)
        && 0 <= Momentum(FuzzerChain(n, base)) - Momentum(warm.bodies) < n)
  {
    hide ColdBlocks;
    hide SafeStart;
    hide RunFor;
    hide SolveFor;
    hide KktAccepts;
    hide ChainOk;
    hide Momentum;
    hide FuzzerChain;
    hide SameOutcome;
    hide Level;
    hide Ordered;
    var chain := FuzzerChain(n, base);
    FuzzerStartIsSafe(n, base);
    WarmRunIsColdRun(chain, frames);
    if frames > 0 && RunFor(chain, true, frames).Running? {
      WarmFramesPass(chain, frames - 1);
    }
  }

  lemma FallingColdBlocks(x: seq<int>)
    requires x != [] && Falling(x)
    ensures |ColdBlocks(x)| == 1
  {
    FallingPoolsToOne(x, |x|);
    assert Singletons(x, Ones(|x|))[..|x|] == Singletons(x, Ones(|x|));
  }

  // ---- two unsafe runs ----

  /** Two level bodies, then one ahead of its place by one and one behind by one, all near c. */
  function Stagger(c: int): seq<int> {
    [c, c, c + 1, c - 1]
  }

  lemma StaggerBlocks(c: int)
    ensures ColdBlocks(Stagger(c)) == [Block(0, 1, c), Block(1, 2, c), Block(2, 4, 2 * c)]
  {
    hide Settle;
    var x := Stagger(c);
    var (b0, b1, b2, b3) := (Block(0, 1, c), Block(1, 2, c), Block(2, 3, c + 1), Block(3, 4, c - 1));
    assert Singletons(x, Ones(4)) == [b0, b1, b2] + [b3];
    OrderedBlocksStay(Count, [b0, b1, b2]);
    hide PoolAll;
    assert [b0] + [b1, b2] == [b0, b1, b2];
    PushJoins([b0, b1, b2], b3, [b0], b1, b2);
  }

  lemma StaggerProjects(c: int)
    ensures FloorProjection(Stagger(c)) == [c, c, c, c] && EndsOf(ColdBlocks(Stagger(c))) == [1, 2, 4]
  {
    hide Irreducible;
    var (x, blocks) := (Stagger(c), ColdBlocks(Stagger(c)));
    ColdTiling(x);
    StaggerBlocks(c);
    PaintTakesValues(x, Ones(4), blocks, 4, FlooredMean());
    FloorIs(c, 1, c);
    FloorIs(2 * c, 2, c);
    forall j | 0 <= j < 3 ensures PaintedOn(FloorProjection(x), c, blocks[j].begin, blocks[j].end) {
    }
    assert PaintedOn(FloorProjection(x), c, 0, 1) && PaintedOn(FloorProjection(x), c, 1, 2);
    assert PaintedOn(FloorProjection(x), c, 2, 4);
  }

  lemma StaggerKept(a: int, b: int, c: int, d: int)
    requires a <= b <= c < d
    ensures FlatParts([a, b, c, d], [1, 2, 4], 0) == 2
  {
    var (x, ends) := ([a, b, c, d], [1, 2, 4]);
    assert ends[1..] == [2, 4] && ends[1..][1..] == [4];
    assert Flat(x, 0, 1) && Flat(x, 1, 2);
    assert !Flat(x, 2, 4) by {
      assert x[3 - 1] != x[3];
    }
    assert FlatParts(x, [4], 2) == 0;
    assert FlatParts(x, [2, 4], 1) == 1;
  }

  /** Four values in order, the last two apart, with the ends a stagger leaves: two blocks are counted twice. */
  lemma StaggerStart(a: int, b: int, c: int, d: int)
    requires a <= b <= c < d
    ensures StartBlocks([a, b, c, d], Some([1, 2, 4])) ==
      [Block(0, 1, a), Block(1, 2, b), Block(0, 1, a), Block(1, 2, b), Block(2, 3, c), Block(3, 4, d)]
  {
    hide Keepable;
    hide FlatParts;
    hide KeptEnds;
    hide BlocksOf;
    hide Flat;
    var (x, ends) := ([a, b, c, d], [1, 2, 4]);
    StaggerKept(a, b, c, d);
    KeptAreFlat(x, ends, 0);
    KeptAreLevel(x, ends);
    var kept := BlocksOf(x, ends, 0);
    assert LevelBlock(x, kept[0]) && LevelBlock(x, kept[1]);
    assert kept == [Block(0, 1, a), Block(1, 2, b)];
    assert Singletons(x, Ones(4)) == [Block(0, 1, a), Block(1, 2, b), Block(2, 3, c), Block(3, 4, d)];
  }

  lemma PoolDiverging()
    ensures PoolAll(Count, [Block(0, 1, 4), Block(1, 2, 5), Block(0, 1, 4), Block(1, 2, 5), Block(2, 3, 7), Block(3, 4, 8)])
      == [Block(0, 1, 4), Block(1, 4, 29)]
  {
    hide Settle;
    var (p, q, r, s) := (Block(0, 1, 4), Block(1, 2, 5), Block(2, 3, 7), Block(3, 4, 8));
    OrderedBlocksStay(Count, [p, q]);
    hide PoolAll;
    PairJoinsOn([p, q], p, p, q);
    PairJoinsOn([p, q] + [p], q, p, Block(1, 1, 9));
    PairJoinsOn([p, q] + [p] + [q], r, p, Block(1, 2, 14));
    PairJoinsOn([p, q] + [p] + [q] + [r], s, p, Block(1, 3, 21));
    assert [p, q, p, q, r, s] == [p, q] + [p] + [q] + [r] + [s];
  }

  /** The same with the values [0, 1, 1, 2]. */
  lemma PoolAgreeing()
    ensures PoolAll(Count, [Block(0, 1, 0), Block(1, 2, 1), Block(0, 1, 0), Block(1, 2, 1), Block(2, 3, 1), Block(3, 4, 2)])
      == [Block(0, 1, 0), Block(1, 3, 3), Block(3, 4, 2)]
  {
    hide Settle;
    var (p, q, r, s) := (Block(0, 1, 0), Block(1, 2, 1), Block(2, 3, 1), Block(3, 4, 2));
    OrderedBlocksStay(Count, [p, q]);
    hide PoolAll;
    PairJoinsOn([p, q], p, p, q);
    PairJoinsOn([p, q] + [p], q, p, Block(1, 1, 1));
    PairJoinsOn([p, q] + [p] + [q], r, p, Block(1, 2, 2));
    PushStays([p, q] + [p] + [q] + [r], s, [p], Block(1, 3, 3));
    assert [p, q, p, q, r, s] == [p, q] + [p] + [q] + [r] + [s];
  }

  lemma {:induction false} ResidualOfSelf(x: seq<int>, k: nat)
    requires k <= |x|
    ensures Residual(x, x, k) == 0
  {
    if k > 0 {
      ResidualOfSelf(x, k - 1);
    }
  }

  lemma ImpulsesOfSelf(v: seq<int>)
    ensures ImpulsesFit(v, v)
  {
    forall k | 0 <= k <= |v| ensures Residual(v, v, k) == 0 {
      ResidualOfSelf(v, k);
    }
  }

  /** Neighbours within a diameter of each other, as the recognition of the next frame's chain asks. */
  ghost predicate Touching(bodies: seq<Body>) {
    forall i :: 0 < i < |bodies| ==> -DIAMETER <= bodies[i].px - bodies[i - 1].px <= DIAMETER
  }

  /** Raw values far from the limits of the representation. */
  ghost predicate Small(x: seq<int>) {
    forall i :: 0 <= i < |x| ==> -0x1000 <= x[i] <= 0x1000
  }

  ghost predicate SmallChain(bodies: seq<Body>) {
    |bodies| == 4 && Small(Velocities(bodies)) && Small(ShiftedPredictions(bodies))
  }

  lemma SmallChainFits(bodies: seq<Body>)
    requires SmallChain(bodies)
    ensures InputsFit(bodies)
  {
    var (p, s) := (PredictedPositions(bodies), ShiftedPredictions(bodies));
    forall i | 0 <= i < 4 ensures IsRep(p[i]) {
      assert s[i] == p[i] - i * DIAMETER;
    }
  }

  /** A small frame with its velocities in order goes through, with the positions its projection answers. */
  lemma SmallStep(frame: Frame, warm: bool)
    requires frame.Running? && SmallChain(frame.bodies) && Nondecreasing(Velocities(frame.bodies))
    requires frame.velocityEnds == None || HarmlessEnds(Velocities(frame.bodies), frame.velocityEnds)
    requires var q := Project(ShiftedPredictions(frame.bodies), Carried(frame.positionEnds, warm));
      q.Projected? && |q.projected| == 4 && Small(q.projected)
    ensures var q := Project(ShiftedPredictions(frame.bodies), Carried(frame.positionEnds, warm));
      && Step(frame, warm).Running?
      && Step(frame, warm).bodies == Rebuild(frame.bodies, Velocities(frame.bodies), q.projected)
      && Step(frame, warm).positionEnds == Some(q.blockEnds)
  {
    hide Project;
    hide FloorProjection;
    hide Plausible;
    hide Steady;
    hide ImpulsesFit;
    var v := Velocities(frame.bodies);
    var q := Project(ShiftedPredictions(frame.bodies), Carried(frame.positionEnds, warm));
    SmallChainFits(frame.bodies);
    ImpulsesOfSelf(v);
    OrderedVelocitiesStay(v, Carried(frame.velocityEnds, warm));
    var next := Rebuild(frame.bodies, v, q.projected);
    forall i | 0 <= i < 4 ensures IsRep(Positions(next)[i]) {
    }
  }

  lemma OrderedVelocitiesStay(v: seq<int>, ends: Option<seq<nat>>)
    requires v != [] && AllRep(v) && Nondecreasing(v) && (ends == None || HarmlessEnds(v, ends))
    ensures Project(v, ends).Projected? && Project(v, ends).projected == v
  {
    hide Project;
    hide FloorProjection;
    hide Steady;
    if ends == None {
      ColdProject(v);
      ProjectionOfOrderedIsItself(v);
    } else {
      SteadyStart(v, ends.value);
    }
  }

  const DIVERGING := [
    Body(4, 0, 0), Body(DIAMETER + 3, 0, 100), Body(2 * DIAMETER + 2, 0, 200), Body(3 * DIAMETER - 1, 0, 300)
  ]

  const AGREEING := [
    Body(0, 0, 0), Body(DIAMETER - 1, 0, 100), Body(2 * DIAMETER, 0, 100), Body(3 * DIAMETER - 3, 0, 150)
  ]

  /** The first frame of a small staggered chain levels the positions and hands on the ends [1, 2, 4]. */
  lemma StaggeredFirst(bodies: seq<Body>, c: int, warm: bool)
    requires SmallChain(bodies) && ShiftedPredictions(bodies) == Stagger(c) && Nondecreasing(Velocities(bodies))
    ensures var first := RunFor(bodies, warm, 1);
      && FirstFrame(bodies, first) && RunFor(bodies, !warm, 1) == first
      && first.bodies == Rebuild(bodies, Velocities(bodies), [c, c, c, c])
      && first.positionEnds == Some([1, 2, 4])
      && SameMotion(bodies, first.bodies) && Shifted(Positions(first.bodies)) == [c, c, c, c]
  {
    hide FirstFrame;
    hide Project;
    hide FloorProjection;
    hide Step;
    hide ColdBlocks;
    var start := Running(bodies, None, None);
    FirstStep(bodies, warm);
    StaggerProjects(c);
    SmallChainFits(bodies);
    ColdProject(Stagger(c));
    assert Small(Stagger(c)) && Stagger(c)[0] == c;
    SmallStep(start, warm);
    RebuiltParts(bodies, Velocities(bodies), [c, c, c, c]);
    RebuiltDisplacements(bodies, [c, c, c, c]);
  }

  ghost predicate SameMotion(bodies: seq<Body>, other: seq<Body>) {
    Velocities(bodies) == Velocities(other) && Displacements(bodies) == Displacements(other)
  }

  lemma RebuiltDisplacements(bodies: seq<Body>, p: seq<int>)
    requires |p| == |bodies|
    ensures SameMotion(bodies, Rebuild(bodies, Velocities(bodies), p))
  {
  }

  lemma FourInputs(a: Body, b: Body, c: Body, d: Body)
    ensures Velocities([a, b, c, d]) == [a.vx, b.vx, c.vx, d.vx]
    ensures Displacements([a, b, c, d]) == [Displacement(a.vx), Displacement(b.vx), Displacement(c.vx), Displacement(d.vx)]
    ensures ShiftedPredictions([a, b, c, d])
      == [Predicted(a), Predicted(b) - DIAMETER, Predicted(c) - 2 * DIAMETER, Predicted(d) - 3 * DIAMETER]
  {
    hide Displacement;
    hide Predicted;
  }

  lemma SmallDisplacements()
    ensures Displacement(0) == 0 && Displacement(100) == 1 && Displacement(150) == 2
    ensures Displacement(200) == 3 && Displacement(300) == 4
  {
  }

  lemma DivergingInputs()
    ensures Velocities(DIVERGING) == [0, 100, 200, 300] && Displacements(DIVERGING) == [0, 1, 3, 4]
    ensures ShiftedPredictions(DIVERGING) == Stagger(4)
  {
    SmallDisplacements();
    hide Displacement;
    hide ShiftedPredictions;
    hide Displacements;
    hide Velocities;
    FourInputs(DIVERGING[0], DIVERGING[1], DIVERGING[2], DIVERGING[3]);
    assert DIVERGING == [DIVERGING[0], DIVERGING[1], DIVERGING[2], DIVERGING[3]];
  }

  lemma AgreeingInputs()
    ensures Velocities(AGREEING) == [0, 100, 100, 150] && Displacements(AGREEING) == [0, 1, 1, 2]
    ensures ShiftedPredictions(AGREEING) == Stagger(0)
  {
    SmallDisplacements();
    hide Displacement;
    hide ShiftedPredictions;
    hide Displacements;
    hide Velocities;
    FourInputs(AGREEING[0], AGREEING[1], AGREEING[2], AGREEING[3]);
    assert AGREEING == [AGREEING[0], AGREEING[1], AGREEING[2], AGREEING[3]];
  }

  /** The next inputs of a levelled chain are its level plus its displacements. */
  lemma LevelledInputs(bodies: seq<Body>, c: int, d: seq<int>)
    requires |bodies| == |d| == 4 && Ordered(bodies)
    requires Shifted(Positions(bodies)) == [c, c, c, c] && Displacements(bodies) == d
    ensures ShiftedPredictions(bodies) == [c + d[0], c + d[1], c + d[2], c + d[3]]
  {
    PredictionsAreSums(bodies);
  }

  lemma LevelledTouches(bodies: seq<Body>, c: int)
    requires |bodies| == 4 && Shifted(Positions(bodies)) == [c, c, c, c]
    ensures Touching(bodies)
  {
    forall i | 0 < i < |bodies| ensures bodies[i].px - bodies[i - 1].px == DIAMETER {
      assert Shifted(Positions(bodies))[i] == c && Shifted(Positions(bodies))[i - 1] == c;
    }
  }

  lemma StaggerIsUnsafe(q: seq<int>, a: int, b: int, c: int, d: int)
    requires a < b <= c < d
    ensures !Safe(q, [a, b, c, d], [1, 2, 4])
  {
    StaggerKept(a, b, c, d);
    assert !Flat([a, b, c, d], 0, 2) by {
      assert [a, b, c, d][1 - 1] != [a, b, c, d][1];
    }
    hide FlatParts;
    hide Flat;
  }

  lemma WriteDiverging()
    ensures Project([4, 5, 7, 8], Some([1, 2, 4])) == Projected([4, 9, 9, 9], [1, 4])
  {
    hide StartBlocks;
    hide PoolAll;
    StaggerStart(4, 5, 7, 8);
    PoolDiverging();
    var (p, m) := (Block(0, 1, 4), Block(1, 4, 29));
    FloorIs(4, 1, 4);
    FloorIs(29, 3, 9);
    WritePush(4, [], p);
    WritePush(4, [p], m);
    hide WriteAll;
    hide FloorDiv;
    assert [] + [p] == [p] && [p] + [m] == [p, m];
    assert WriteAll(4, [p]) == Projected([4, 0, 0, 0], [1]);
  }

  lemma WriteAgreeing()
    ensures Project([0, 1, 1, 2], Some([1, 2, 4])) == Projected([0, 1, 1, 2], [1, 3, 4])
  {
    hide StartBlocks;
    hide PoolAll;
    StaggerStart(0, 1, 1, 2);
    PoolAgreeing();
    var (p, m, s) := (Block(0, 1, 0), Block(1, 3, 3), Block(3, 4, 2));
    FloorIs(0, 1, 0);
    FloorIs(3, 2, 1);
    FloorIs(2, 1, 2);
    WritePush(4, [], p);
    WritePush(4, [p], m);
    WritePush(4, [p] + [m], s);
    hide WriteAll;
    hide FloorDiv;
    assert [] + [p] == [p] && [p] + [m] + [s] == [p, m, s];
    assert WriteAll(4, [p]) == Projected([0, 0, 0, 0], [1]);
    assert WriteAll(4, [p] + [m]) == Projected([0, 1, 1, 0], [1, 3]);
  }

  lemma ColdOrdered(x: seq<int>)
    requires x != [] && AllRep(x) && Nondecreasing(x)
    ensures Project(x, None).Projected? && Project(x, None).projected == x
  {
    hide Project;
    hide FloorProjection;
    ColdProject(x);
    ProjectionOfOrderedIsItself(x);
  }

  /** The second frame of a levelled small chain, warm and cold: x is what both read. */
  lemma SecondFrames(first: Frame, x: seq<int>, warm: Projection)
    requires first.Running? && SmallChain(first.bodies) && Ordered(first.bodies)
    requires HarmlessEnds(Velocities(first.bodies), first.velocityEnds)
    requires ShiftedPredictions(first.bodies) == x && Nondecreasing(x)
    requires warm == Project(x, first.positionEnds) && warm.Projected? && |warm.projected| == 4 && Small(warm.projected)
    ensures var (hot, cold) := (Step(first, true), Step(first, false));
      && hot.Running? && hot.bodies == Rebuild(first.bodies, Velocities(first.bodies), warm.projected)
      && cold.Running? && cold.bodies == Rebuild(first.bodies, Velocities(first.bodies), x)
  {
    hide Step;
    hide Project;
    hide Small;
    PredictionsAreOrdered(first.bodies);
    SmallIsRep(x);
    ColdOrdered(x);
    SmallStep(first, true);
    SmallStep(first, false);
  }

  lemma SmallIsRep(x: seq<int>)
    requires Small(x)
    ensures AllRep(x)
  {
  }

  /** The first two frames of a small staggered chain whose displacements rise, warm and cold. */
  lemma StaggeredRun(bodies: seq<Body>, c: int, d: seq<int>, x: seq<int>, warm: Projection)
    requires SmallChain(bodies) && ShiftedPredictions(bodies) == Stagger(c) && Nondecreasing(Velocities(bodies))
    requires |d| == 4 && Displacements(bodies) == d && d[0] < d[1] <= d[2] < d[3]
    requires x == [c + d[0], c + d[1], c + d[2], c + d[3]] && Small(x)
    requires warm == Project(x, Some([1, 2, 4])) && warm.Projected? && |warm.projected| == 4 && Small(warm.projected)
    ensures !SafeStart(bodies)
    ensures var (first, hot, cold) := (RunFor(bodies, true, 1), RunFor(bodies, true, 2), RunFor(bodies, false, 2));
      && first.Running? && |first.bodies| == 4 && Touching(first.bodies) && ShiftedPredictions(first.bodies) == x
      && hot.Running? && hot.bodies == Rebuild(first.bodies, Velocities(first.bodies), warm.projected)
      && cold.Running? && cold.bodies == Rebuild(first.bodies, Velocities(first.bodies), x)
  {
    hide Step;
    hide Project;
    hide Safe;
    hide HarmlessEnds;
    hide Displacements;
    hide ShiftedPredictions;
    StaggeredFirst(bodies, c, true);
    var first := RunFor(bodies, true, 1);
    assert RunFor(bodies, true, 2) == Step(first, true) && RunFor(bodies, false, 2) == Step(first, false);
    hide RunFor;
    LevelledInputs(first.bodies, c, d);
    LevelledTouches(first.bodies, c);
    StaggerIsUnsafe([c, c, c, c], d[0], d[1], d[2], d[3]);
    assert d == [d[0], d[1], d[2], d[3]];
    SecondFrames(first, x, warm);
  }

  /**
   Four bodies on one level, touching after their first frame.  The second frame counts two blocks twice:
   the warm run parts from the cold one and fails the fuzzer's residual check.
   */
  lemma UnsafeRunDiverges()
    ensures Level(DIVERGING) && !SafeStart(DIVERGING)
    ensures var (first, warm) := (RunFor(DIVERGING, true, 1), RunFor(DIVERGING, true, 2));
      var cold := RunFor(DIVERGING, false, 2);
      && first.Running? && Touching(first.bodies) && warm.Running? && cold.Running?
      && Shifted(Positions(cold.bodies)) == [4, 5, 7, 8] && Shifted(Positions(warm.bodies)) == [4, 9, 9, 9]
      && !KktAccepts(first.bodies, warm.bodies)
  {
    hide Project;
    hide RunFor;
    hide SafeStart;
    hide Touching;
    DivergingInputs();
    hide Displacements;
    hide ShiftedPredictions;
    WriteDiverging();
    StaggeredRun(DIVERGING, 4, [0, 1, 3, 4], [4, 5, 7, 8], Projected([4, 9, 9, 9], [1, 4]));
    var first := RunFor(DIVERGING, true, 1);
    RebuiltParts(first.bodies, Velocities(first.bodies), [4, 9, 9, 9]);
    RebuiltParts(first.bodies, Velocities(first.bodies), [4, 5, 7, 8]);
    FailsAtTwo(first.bodies, RunFor(DIVERGING, true, 2).bodies);
  }

  lemma FailsAtTwo(before: seq<Body>, after: seq<Body>)
    requires ShiftedPredictions(before) == [4, 5, 7, 8] && Shifted(Positions(after)) == [4, 9, 9, 9]
    ensures !KktAccepts(before, after)
  {
    assert Residual([4, 5, 7, 8], [4, 9, 9, 9], 2) == -4;
  }

  /** Unsafe is about the blocks, not about every answer: here the pooled blocks floor to the values themselves. */
  lemma UnsafeRunMayAgree()
    ensures !SafeStart(AGREEING)
    ensures RunFor(AGREEING, true, 2).Running? && SameOutcome(RunFor(AGREEING, true, 2), RunFor(AGREEING, false, 2))
  {
    hide Project;
    hide RunFor;
    hide SafeStart;
    AgreeingInputs();
    hide Displacements;
    hide ShiftedPredictions;
    WriteAgreeing();
    StaggeredRun(AGREEING, 0, [0, 1, 1, 2], [0, 1, 1, 2], Projected([0, 1, 1, 2], [1, 3, 4]));
  }
}
