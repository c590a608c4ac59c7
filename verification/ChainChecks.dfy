/**
 The gates of the chain fuzzer (separation and velocity order; prefix residuals of the
 isotonic projection) and the chain solver's frame without warm start, run for any number of frames.
 */
module ChainChecks {
  import opened WideInteger
  import opened Isotonic
  import opened ChainSolver

  const SCALE := 0x1_0000_0000
  /** One unit of length. */
  const DIAMETER := SCALE
  /** round(2^32 / 60) */
  const STEP := 71_582_788

  /** The raw components the chain checks look at. */
  datatype Body = Body(px: int, py: int, vx: int)

  /** Fixed-point displacement in one step: the product truncated toward zero. */
  function Displacement(vx: int): int {
    TruncatedQuotient(vx * STEP, SCALE)
  }

  function FixedStep(): int -> int {
    v => Displacement(v)
  }

  function Predicted(b: Body): int {
    b.px + Displacement(b.vx)
  }

  function Velocities(bodies: seq<Body>): (r: seq<int>)
    ensures |r| == |bodies|
  {
    seq(|bodies|, i requires 0 <= i < |bodies| => bodies[i].vx)
  }

  /** Positions with the chain's rest spacing taken out. */
  function Shifted(p: seq<int>): (r: seq<int>)
    ensures |r| == |p|
  {
    seq(|p|, i requires 0 <= i < |p| => p[i] - i * DIAMETER)
  }

  function Positions(bodies: seq<Body>): (r: seq<int>)
    ensures |r| == |bodies|
  {
    seq(|bodies|, i requires 0 <= i < |bodies| => bodies[i].px)
  }

  function PredictedPositions(bodies: seq<Body>): (r: seq<int>)
    ensures |r| == |bodies|
  {
    seq(|bodies|, i requires 0 <= i < |bodies| => Predicted(bodies[i]))
  }

  // ---- chain_invariants ----

  ghost predicate Separated(bodies: seq<Body>) {
    forall i :: 0 < i < |bodies| ==> bodies[i].px - bodies[i - 1].px >= DIAMETER
  }

  ghost predicate VelocityOrdered(bodies: seq<Body>) {
    forall i :: 0 < i < |bodies| ==> bodies[i - 1].vx <= bodies[i].vx
  }

  ghost predicate Level(bodies: seq<Body>) {
    forall i :: 0 < i < |bodies| ==> bodies[i - 1].py == bodies[i].py
  }

  ghost predicate Ordered(bodies: seq<Body>) {
    Separated(bodies) && VelocityOrdered(bodies)
  }

  ghost predicate ChainOk(bodies: seq<Body>) {
    Ordered(bodies) && Level(bodies)
  }

  method ChainInvariants(bodies: seq<Body>) returns (ok: bool)
    ensures ok <==> ChainOk(bodies)
  {
    var index := 1;
    while index < |bodies|
      invariant 1 <= index
      invariant forall i :: 0 < i < index && i < |bodies| ==> bodies[i].px - bodies[i - 1].px >= DIAMETER
      invariant forall i :: 0 < i < index && i < |bodies| ==> bodies[i - 1].vx <= bodies[i].vx
      invariant forall i :: 0 < i < index && i < |bodies| ==> bodies[i - 1].py == bodies[i].py
    {
      var (previous, current) := (bodies[index - 1], bodies[index]);
      if current.px - previous.px < DIAMETER { return false; }
      if previous.vx > current.vx { return false; }
      if previous.py != current.py { return false; }
      index := index + 1;
    }
    return true;
  }

  /** Adjacent checks reach across the chain: j - i diameters between bodies i and j. */
  lemma {:induction false} SeparationAccumulates(bodies: seq<Body>, i: nat, j: nat)
    requires Ordered(bodies) && i <= j < |bodies|
    ensures bodies[j].px - bodies[i].px >= (j - i) * DIAMETER
    ensures bodies[i].vx <= bodies[j].vx && (Level(bodies) ==> bodies[i].py == bodies[j].py)
    decreases j
  {
    if i < j {
      SeparationAccumulates(bodies, i, j - 1);
    }
  }

  // ---- free flight ----

  ghost predicate Monotone(round: int -> int) {
    forall a, b :: a <= b ==> round(a) <= round(b)
  }

  /** Every body moves by its rounded velocity. */
  function Fly(bodies: seq<Body>, round: int -> int): seq<Body> {
    seq(|bodies|, i requires 0 <= i < |bodies| => bodies[i].(px := bodies[i].px + round(bodies[i].vx)))
  }

  function FlyFor(bodies: seq<Body>, round: int -> int, frames: nat): seq<Body> {
    if frames == 0 then bodies else Fly(FlyFor(bodies, round, frames - 1), round)
  }

  /** Under any monotone rounding, an ordered chain stays ordered, and level, for as long as it flies freely. */
  lemma {:induction false} FlightKeepsChain(bodies: seq<Body>, round: int -> int, frames: nat)
    requires Ordered(bodies) && Monotone(round)
    ensures Ordered(FlyFor(bodies, round, frames))
    ensures Level(bodies) ==> Level(FlyFor(bodies, round, frames))
  {
    if frames > 0 {
      FlightKeepsChain(bodies, round, frames - 1);
      var at := FlyFor(bodies, round, frames - 1);
      forall i | 0 < i < |at| ensures Fly(at, round)[i].px - Fly(at, round)[i - 1].px >= DIAMETER {
        assert round(at[i - 1].vx) <= round(at[i].vx);
      }
    }
  }

  lemma QuotientMonotone(a: int, b: int, d: int)
    requires d > 0 && a <= b
    ensures a / d <= b / d
  {
    var (q, r) := (a / d, b / d);
    assert q * d <= a && b < r * d + d;
    StrictProducts(r, q, d);
  }

  /** Truncating fixed-point multiplication by the step is such a rounding. */
  lemma DisplacementIsMonotone()
    ensures Monotone(FixedStep())
  {
    forall a, b | a <= b ensures Displacement(a) <= Displacement(b) {
      if a >= 0 {
        QuotientMonotone(a * STEP, b * STEP, SCALE);
      } else if b < 0 {
        QuotientMonotone(-(b * STEP), -(a * STEP), SCALE);
      }
    }
  }

  // ---- what a body moves in one frame ----

  /** d is v times a sixtieth of a second, give or take the step's own rounding, cut off toward zero. */
  ghost predicate MovesBy(v: int, d: int) {
    if v >= 0 then d * 0x1_0000_0000 <= v * 71_582_788 < (d + 1) * 0x1_0000_0000
    else -d * 0x1_0000_0000 <= -v * 71_582_788 < (-d + 1) * 0x1_0000_0000
  }

  lemma MovesByOneWay(v: int, d: int, e: int)
    requires MovesBy(v, d) && MovesBy(v, e)
    ensures d == e
  {
  }

  /** The step is a sixtieth of a unit, rounded to the nearest. */
  lemma StepIsSixtieth()
    ensures 60 * STEP == SCALE - 16 && -30 < 60 * STEP - SCALE < 30
  {
  }

  /** Displacements are cut off toward zero, so going left mirrors going right. */
  lemma DisplacementTruncates(v: int)
    ensures MovesBy(v, Displacement(v))
    ensures Displacement(-v) == -Displacement(v)
    ensures v < 0 ==> Displacement(v) <= 0
    ensures v >= 0 ==> Displacement(v) >= 0
  {
    assert (-v) * STEP == -(v * STEP);
  }

  /** Sixty frames carry a body no further than its velocity, short of it by less than sixty raw units and the step's error. */
  lemma SixtyFramesOfFlight(v: int)
    requires v >= 0
    ensures 60 * Displacement(v) <= v
    ensures (v - 60 * Displacement(v)) * SCALE < 60 * SCALE + 16 * v
  {
    DisplacementTruncates(v);
  }

  /** Every prediction a frame or the check reads moves its body by just that. */
  lemma PredictionsMove(bodies: seq<Body>, i: nat)
    requires i < |bodies|
    ensures MovesBy(bodies[i].vx, PredictedPositions(bodies)[i] - bodies[i].px)
  {
    DisplacementTruncates(bodies[i].vx);
  }

  /** The chain seen in a mirror, last body first. */
  function Mirrored(bodies: seq<Body>): (r: seq<Body>)
    ensures |r| == |bodies|
  {
    seq(|bodies|, i requires 0 <= i < |bodies| =>
      var b := bodies[|bodies| - 1 - i];
      Body(-b.px, b.py, -b.vx))
  }

  lemma {:induction false} MirrorFlies(bodies: seq<Body>, frames: nat)
    ensures FlyFor(Mirrored(bodies), FixedStep(), frames) == Mirrored(FlyFor(bodies, FixedStep(), frames))
    ensures |FlyFor(bodies, FixedStep(), frames)| == |bodies|
  {
    if frames > 0 {
      MirrorFlies(bodies, frames - 1);
      MirrorFliesOnce(FlyFor(bodies, FixedStep(), frames - 1));
    }
  }

  lemma MirrorFliesOnce(at: seq<Body>)
    ensures Fly(Mirrored(at), FixedStep()) == Mirrored(Fly(at, FixedStep()))
  {
    hide Displacement;
    forall i | 0 <= i < |at| ensures Fly(Mirrored(at), FixedStep())[i] == Mirrored(Fly(at, FixedStep()))[i] {
      DisplacementTruncates(at[|at| - 1 - i].vx);
    }
  }

  lemma MirrorIsOrdered(bodies: seq<Body>)
    requires Ordered(bodies)
    ensures Ordered(Mirrored(bodies))
  {
    var m := Mirrored(bodies);
    forall i | 0 < i < |m| ensures m[i].px - m[i - 1].px >= DIAMETER && m[i - 1].vx <= m[i].vx {
      var k := |bodies| - i;
      assert bodies[k].px - bodies[k - 1].px >= DIAMETER && bodies[k - 1].vx <= bodies[k].vx;
    }
  }

  // ---- projection_kkt ----

  /** Outputs rise, every prefix of the inputs outweighs them, and less than one unit per body is lost. */
  ghost predicate ProjectionAccepts(x: seq<int>, z: seq<int>) {
    && |x| == |z| && Nondecreasing(z)
    && (forall k :: 0 <= k <= |x| ==> Residual(x, z, k) >= 0)
    && Residual(x, z, |x|) < |x|
  }

  ghost predicate KktAccepts(before: seq<Body>, after: seq<Body>) {
    && |before| == |after|
    && ProjectionAccepts(Velocities(before), Velocities(after))
    && ProjectionAccepts(Shifted(PredictedPositions(before)), Shifted(Positions(after)))
  }

  /** A wide value cast to 64 bits wraps around. */
  function Narrowed(v: int): (r: int)
    ensures -0x8000_0000_0000_0000 <= r < 0x8000_0000_0000_0000 && (r - v) % 0x1_0000_0000_0000_0000 == 0
    ensures IsRep(r) && (IsRep(v) ==> r == v)
  {
    (v - MIN_REP) % SIZE_RANGE + MIN_REP
  }

  function AllNarrowed(x: seq<int>): (r: seq<int>)
    ensures |r| == |x| && AllRep(r)
  {
    seq(|x|, i requires 0 <= i < |x| => Narrowed(x[i]))
  }

  /** What the fuzzer compares: the same, with shifted positions cast to 64 bits. */
  ghost predicate KktAcceptsNarrowed(before: seq<Body>, after: seq<Body>) {
    && |before| == |after|
    && ProjectionAccepts(Velocities(before), Velocities(after))
    && ProjectionAccepts(AllNarrowed(Shifted(PredictedPositions(before))), AllNarrowed(Shifted(Positions(after))))
  }

  /** Shifted positions that fit are compared as they are. */
  lemma NarrowingIsInvisible(before: seq<Body>, after: seq<Body>)
    requires AllRep(Shifted(PredictedPositions(before))) && AllRep(Shifted(Positions(after)))
    ensures KktAcceptsNarrowed(before, after) <==> KktAccepts(before, after)
  {
    NarrowingKeeps(Shifted(PredictedPositions(before)));
    NarrowingKeeps(Shifted(Positions(after)));
  }

  lemma NarrowingKeeps(x: seq<int>)
    requires AllRep(x)
    ensures AllNarrowed(x) == x
  {
  }

  /** One of the two prefix scans inside the check. */
  ghost predicate ScannedTo(x: seq<int>, z: seq<int>, k: nat, prefix: int, previous: int)
    requires k <= |x| == |z|
  {
    && prefix == Residual(x, z, k)
    && (forall i, j :: 0 <= i <= j < k ==> z[i] <= z[j])
    && (forall i :: 0 <= i <= k ==> Residual(x, z, i) >= 0)
    && previous == if k == 0 then MIN_REP else z[k - 1]
  }

  lemma ScanStep(x: seq<int>, z: seq<int>, k: nat, prefix: int, previous: int)
    requires k < |x| == |z| && AllRep(z) && ScannedTo(x, z, k, prefix, previous)
    ensures prefix + x[k] - z[k] < 0 || z[k] < previous ==> !ProjectionAccepts(x, z)
    ensures prefix + x[k] - z[k] >= 0 && z[k] >= previous ==>
      ScannedTo(x, z, k + 1, prefix + x[k] - z[k], z[k])
  {
    assert Residual(x, z, k + 1) == prefix + x[k] - z[k];
  }

  /** How a comparison ends: the chain fails, a prediction overflows, or the next index is up. */
  datatype Verdict = Rejected | Overflowed | Passed

  /** The four sequences the check compares. */
  ghost predicate Compared(before: seq<Body>, after: seq<Body>, v: seq<int>, u: seq<int>, p: seq<int>, q: seq<int>) {
    && |before| == |after| == |v| == |u| == |p| == |q|
    && v == Velocities(before) && u == Velocities(after)
    && p == AllNarrowed(Shifted(PredictedPositions(before))) && q == AllNarrowed(Shifted(Positions(after)))
  }

  /** What the check reads at an index. */
  lemma ReadAt(before: seq<Body>, after: seq<Body>, v: seq<int>, u: seq<int>, p: seq<int>, q: seq<int>, i: nat)
    requires Compared(before, after, v, u, p, q) && i < |before|
    ensures v[i] == before[i].vx && u[i] == after[i].vx && AllRep(q)
    ensures !IsRep(Predicted(before[i])) ==> !AllRep(PredictedPositions(before))
    ensures p[i] == Narrowed(Predicted(before[i]) - i * DIAMETER) && q[i] == Narrowed(after[i].px - i * DIAMETER)
  {
    hide Narrowed;
    hide Predicted;
    assert PredictedPositions(before)[i] == Predicted(before[i]);
  }

  lemma ComparedAccepts(before: seq<Body>, after: seq<Body>, v: seq<int>, u: seq<int>, p: seq<int>, q: seq<int>)
    requires Compared(before, after, v, u, p, q)
    ensures KktAcceptsNarrowed(before, after) <==> ProjectionAccepts(v, u) && ProjectionAccepts(p, q)
  {
    hide ProjectionAccepts;
  }

  /** What one index decides, all sums and comparisons spelled out. */
  lemma CompareStep(before: seq<Body>, after: seq<Body>, v: seq<int>, u: seq<int>, p: seq<int>, q: seq<int>,
      index: nat, velocityPrefix: int, positionPrefix: int, previousVelocity: int, previousShifted: int)
    requires |before| == |after| == |v| == |u| == |p| == |q| && Compared(before, after, v, u, p, q)
    requires index < |before| && AllRep(u)
    requires ScannedTo(v, u, index, velocityPrefix, previousVelocity)
    requires ScannedTo(p, q, index, positionPrefix, previousShifted)
    ensures !IsRep(Predicted(before[index])) ==> !AllRep(PredictedPositions(before))
    ensures var (out, next) := (after[index].vx, velocityPrefix + before[index].vx - after[index].vx);
      if next < 0 || out < previousVelocity then !ProjectionAccepts(v, u) else ScannedTo(v, u, index + 1, next, out)
    ensures var out := Narrowed(after[index].px - index * DIAMETER);
      var next := positionPrefix + Narrowed(Predicted(before[index]) - index * DIAMETER) - out;
      if next < 0 || out < previousShifted then !ProjectionAccepts(p, q) else ScannedTo(p, q, index + 1, next, out)
  {
    ReadAt(before, after, v, u, p, q, index);
    ScanStep(v, u, index, velocityPrefix, previousVelocity);
    ScanStep(p, q, index, positionPrefix, previousShifted);
    hide ProjectionAccepts;
    hide ScannedTo;
    hide Narrowed;
    hide Predicted;
    hide Compared;
    hide AllRep;
  }

  /** One index of the check, which moves both running sums and both last values on. */
  method CompareAt(before: seq<Body>, after: seq<Body>, ghost v: seq<int>, ghost u: seq<int>, ghost p: seq<int>,
      ghost q: seq<int>, index: nat, velocityPrefix: int, positionPrefix: int,
      previousVelocity: int, previousShifted: int)
    returns (verdict: Verdict, nextVelocity: int, nextPosition: int, outputVelocity: int, outputShifted: int)
    requires |before| == |after| == |v| == |u| == |p| == |q| && Compared(before, after, v, u, p, q)
    requires index < |before| && AllRep(u)
    requires ScannedTo(v, u, index, velocityPrefix, previousVelocity)
    requires ScannedTo(p, q, index, positionPrefix, previousShifted)
    ensures verdict.Rejected? ==> !ProjectionAccepts(v, u) || !ProjectionAccepts(p, q)
    ensures verdict.Overflowed? ==> !AllRep(PredictedPositions(before))
    ensures verdict.Passed? ==> ScannedTo(v, u, index + 1, nextVelocity, outputVelocity)
    ensures verdict.Passed? ==> ScannedTo(p, q, index + 1, nextPosition, outputShifted)
  {
    hide ProjectionAccepts;
    hide ScannedTo;
    hide Narrowed;
    hide Predicted;
    hide Compared;
    hide AllRep;
    hide IsRep;
    CompareStep(before, after, v, u, p, q, index, velocityPrefix, positionPrefix, previousVelocity, previousShifted);
    nextPosition, outputShifted := positionPrefix, previousShifted;
    outputVelocity := after[index].vx;
    nextVelocity := velocityPrefix + before[index].vx - outputVelocity;
    verdict := Rejected;
    if nextVelocity < 0 || outputVelocity < previousVelocity { return; }
    var predicted := Predicted(before[index]);
    verdict := Overflowed;
    if !IsRep(predicted) { return; }
    var offset := index * DIAMETER;
    outputShifted := Narrowed(after[index].px - offset);
    nextPosition := positionPrefix + Narrowed(predicted - offset) - outputShifted;
    verdict := if nextPosition < 0 || outputShifted < previousShifted then Rejected else Passed;
  }

  /** The check, or the overflow of a prediction. */
  method ProjectionKkt(before: seq<Body>, after: seq<Body>) returns (ok: bool, overflow: bool)
    requires AllRep(Velocities(after))
    ensures overflow ==> !AllRep(PredictedPositions(before))
    ensures !overflow ==> (ok <==> KktAcceptsNarrowed(before, after))
  {
    if |before| != |after| { return false, false; }
    ghost var (v, u) := (Velocities(before), Velocities(after));
    ghost var (p, q) := (AllNarrowed(Shifted(PredictedPositions(before))), AllNarrowed(Shifted(Positions(after))));
    var (velocityPrefix, positionPrefix) := (0, 0);
    var (previousVelocity, previousShifted) := (MIN_REP, MIN_REP);
    NothingScanned(v, u);
    NothingScanned(p, q);
    ComparedAccepts(before, after, v, u, p, q);
    hide ScannedTo;
    hide ProjectionAccepts;
    hide Narrowed;
    hide KktAcceptsNarrowed;
    for index := 0 to |before|
      invariant ScannedTo(v, u, index, velocityPrefix, previousVelocity)
      invariant ScannedTo(p, q, index, positionPrefix, previousShifted)
    {
      var verdict;
      verdict, velocityPrefix, positionPrefix, previousVelocity, previousShifted :=
        CompareAt(before, after, v, u, p, q, index, velocityPrefix, positionPrefix, previousVelocity, previousShifted);
      if !verdict.Passed? { return false, verdict.Overflowed?; }
    }
    AllScanned(v, u, velocityPrefix, previousVelocity);
    AllScanned(p, q, positionPrefix, previousShifted);
    return 0 <= velocityPrefix < |before| && 0 <= positionPrefix < |before|, false;
  }

  lemma NothingScanned(x: seq<int>, z: seq<int>)
    requires |x| == |z|
    ensures ScannedTo(x, z, 0, 0, MIN_REP)
  {
  }

  lemma AllScanned(x: seq<int>, z: seq<int>, prefix: int, previous: int)
    requires |x| == |z| && ScannedTo(x, z, |x|, prefix, previous)
    ensures ProjectionAccepts(x, z) <==> 0 <= prefix < |x|
  {
  }

  /** An accepted frame is separated and velocity-ordered. */
  lemma KktImpliesOrder(before: seq<Body>, after: seq<Body>)
    requires KktAccepts(before, after)
    ensures Separated(after) && VelocityOrdered(after)
  {
    var (u, q) := (Velocities(after), Shifted(Positions(after)));
    forall i | 0 < i < |after|
      ensures after[i].px - after[i - 1].px >= DIAMETER && after[i - 1].vx <= after[i].vx
    {
      assert q[i - 1] <= q[i] && u[i - 1] <= u[i];
    }
  }

  /** Sum of the residual against a test vector. */
  function ResidualAgainst(x: seq<int>, z: seq<int>, y: seq<int>, k: nat): int
    requires k <= |x| == |z| == |y|
  {
    if k == 0 then 0 else ResidualAgainst(x, z, y, k - 1) + (x[k - 1] - z[k - 1]) * y[k - 1]
  }

  /** Against every nondecreasing vector the residual sums to at most the total residual times the last entry. */
  lemma {:induction false} ResidualBound(x: seq<int>, z: seq<int>, y: seq<int>, k: nat)
    requires 0 < k <= |x| == |z| == |y| && Nondecreasing(y)
    requires forall i :: 0 <= i <= |x| ==> Residual(x, z, i) >= 0
    ensures ResidualAgainst(x, z, y, k) <= Residual(x, z, k) * y[k - 1]
  {
    if k > 1 {
      ResidualBound(x, z, y, k - 1);
    } else {
      assert Residual(x, z, 0) == 0 && ResidualAgainst(x, z, y, 0) == 0;
    }
  }

  // ---- momentum over accepted runs ----

  function Sum(x: seq<int>, k: nat): int
    requires k <= |x|
  {
    if k == 0 then 0 else Sum(x, k - 1) + x[k - 1]
  }

  method SumVelocityX(bodies: seq<Body>) returns (sum: int)
    ensures sum == Sum(Velocities(bodies), |bodies|)
  {
    sum := 0;
    for i := 0 to |bodies|
      invariant sum == Sum(Velocities(bodies), i)
    {
      sum := sum + bodies[i].vx;
    }
  }

  function Momentum(bodies: seq<Body>): int {
    Sum(Velocities(bodies), |bodies|)
  }

  lemma {:induction false} ResidualIsSumDifference(x: seq<int>, z: seq<int>, k: nat)
    requires k <= |x| && k <= |z|
    ensures Residual(x, z, k) == Sum(x, k) - Sum(z, k)
  {
    if k > 0 {
      ResidualIsSumDifference(x, z, k - 1);
    }
  }

  lemma MomentumOverAcceptedStep(before: seq<Body>, after: seq<Body>)
    requires KktAccepts(before, after)
    ensures |after| == |before| && 0 <= Momentum(before) - Momentum(after) <= |before| - 1
  {
    ResidualIsSumDifference(Velocities(before), Velocities(after), |after|);
  }

  /** Over frames - 1 accepted steps the momentum never rises and drops by at most bodies - 1 per step. */
  lemma {:induction false} MomentumOverAcceptedRun(run: seq<seq<Body>>)
    requires |run| > 0
    requires forall f :: 0 < f < |run| ==> KktAccepts(run[f - 1], run[f])
    ensures |run[|run| - 1]| == |run[0]|
    ensures 0 <= Momentum(run[0]) - Momentum(run[|run| - 1]) <= (|run| - 1) * (|run[0]| - 1)
    decreases |run|
  {
    if |run| > 1 {
      var f := |run| - 1;
      hide KktAccepts;
      hide Momentum;
      var before := run[..f];
      MomentumOverAcceptedRun(before);
      MomentumOverAcceptedStep(run[f - 1], run[f]);
      assert before[0] == run[0] && before[|before| - 1] == run[f - 1];
    }
  }

  // ---- the solver's own frames ----

  /** Bodies with new velocities and new shifted positions. */
  function Rebuild(bodies: seq<Body>, v: seq<int>, p: seq<int>): (r: seq<Body>)
    requires |v| == |p| == |bodies|
    ensures |r| == |bodies|
  {
    seq(|bodies|, i requires 0 <= i < |bodies| => Body(p[i] + i * DIAMETER, bodies[i].py, v[i]))
  }

  lemma RebuiltParts(bodies: seq<Body>, v: seq<int>, p: seq<int>)
    requires |v| == |p| == |bodies|
    ensures Velocities(Rebuild(bodies, v, p)) == v && Shifted(Positions(Rebuild(bodies, v, p))) == p
    ensures Level(bodies) ==> Level(Rebuild(bodies, v, p))
  {
    var r := Rebuild(bodies, v, p);
    assert forall i :: 0 <= i < |r| ==> r[i].py == bodies[i].py;
  }

  lemma RebuiltAsPredicted(bodies: seq<Body>)
    ensures Rebuild(bodies, Velocities(bodies), Shifted(PredictedPositions(bodies))) == Fly(bodies, FixedStep())
  {
    var (r, f) := (Rebuild(bodies, Velocities(bodies), Shifted(PredictedPositions(bodies))), Fly(bodies, FixedStep()));
    forall i | 0 <= i < |bodies| ensures r[i] == f[i] {
      assert r[i].px == Predicted(bodies[i]) - i * DIAMETER + i * DIAMETER;
    }
  }

  /**
   One frame of a recognised chain along x, solved without block ends from an earlier frame: the
   velocities and the shifted predictions are projected.
   */
  ghost function SolveFrame(bodies: seq<Body>): (r: seq<Body>)
    ensures |r| == |bodies|
  {
    Rebuild(bodies, FloorProjection(Velocities(bodies)), FloorProjection(Shifted(PredictedPositions(bodies))))
  }

  ghost function SolveFor(bodies: seq<Body>, frames: nat): (r: seq<Body>)
    ensures |r| == |bodies|
  {
    if frames == 0 then bodies else SolveFrame(SolveFor(bodies, frames - 1))
  }

  /** Every frame of a non-empty chain solved without carried block ends passes the fuzzer's checks. */
  lemma SolvedFrameIsAccepted(bodies: seq<Body>)
    requires bodies != []
    ensures KktAccepts(bodies, SolveFrame(bodies)) && Ordered(SolveFrame(bodies))
    ensures Level(bodies) ==> ChainOk(SolveFrame(bodies))
  {
    var (v, p) := (Velocities(bodies), Shifted(PredictedPositions(bodies)));
    RebuiltParts(bodies, FloorProjection(v), FloorProjection(p));
    ProjectionRises(v);
    ProjectionResiduals(v);
    ProjectionRises(p);
    ProjectionResiduals(p);
    KktImpliesOrder(bodies, SolveFrame(bodies));
  }

  lemma PredictionsAreOrdered(bodies: seq<Body>)
    requires Ordered(bodies)
    ensures Nondecreasing(Velocities(bodies)) && Nondecreasing(Shifted(PredictedPositions(bodies)))
  {
    DisplacementIsMonotone();
    forall i, j | 0 <= i <= j < |bodies|
      ensures Velocities(bodies)[i] <= Velocities(bodies)[j]
      ensures Shifted(PredictedPositions(bodies))[i] <= Shifted(PredictedPositions(bodies))[j]
    {
      SeparationAccumulates(bodies, i, j);
      assert FixedStep()(bodies[i].vx) <= FixedStep()(bodies[j].vx);
    }
  }

  /** A chain that is already in order flies freely: the projections have nothing left to do. */
  lemma AcceptedChainFliesFreely(bodies: seq<Body>)
    requires Ordered(bodies)
    ensures SolveFrame(bodies) == Fly(bodies, FixedStep())
  {
    PredictionsAreOrdered(bodies);
    ProjectionOfOrderedIsItself(Velocities(bodies));
    ProjectionOfOrderedIsItself(Shifted(PredictedPositions(bodies)));
    RebuiltAsPredicted(bodies);
  }

  lemma {:induction false} FlightKeepsVelocities(bodies: seq<Body>, round: int -> int, frames: nat)
    ensures Velocities(FlyFor(bodies, round, frames)) == Velocities(bodies)
  {
    if frames > 0 {
      FlightKeepsVelocities(bodies, round, frames - 1);
    }
  }

  lemma {:induction false} AcceptedChainRunsFreely(bodies: seq<Body>, frames: nat)
    requires Ordered(bodies)
    ensures SolveFor(bodies, frames) == FlyFor(bodies, FixedStep(), frames)
  {
    if frames > 0 {
      AcceptedChainRunsFreely(bodies, frames - 1);
      DisplacementIsMonotone();
      FlightKeepsChain(bodies, FixedStep(), frames - 1);
      AcceptedChainFliesFreely(SolveFor(bodies, frames - 1));
    }
  }

  /** On an ordered chain the solver moves every body by its displacement. */
  lemma SolvedFrameMoves(bodies: seq<Body>, i: nat)
    requires Ordered(bodies) && i < |bodies|
    ensures MovesBy(bodies[i].vx, SolveFrame(bodies)[i].px - bodies[i].px)
    ensures SolveFrame(bodies)[i].vx == bodies[i].vx && SolveFrame(bodies)[i].py == bodies[i].py
  {
    AcceptedChainFliesFreely(bodies);
    DisplacementTruncates(bodies[i].vx);
    assert Fly(bodies, FixedStep())[i] == bodies[i].(px := bodies[i].px + FixedStep()(bodies[i].vx));
  }

  /** Solved frames of an ordered chain and of its mirror image mirror each other, however long they run. */
  lemma MirrorIsSolvedAlike(bodies: seq<Body>, frames: nat)
    requires Ordered(bodies)
    ensures SolveFor(Mirrored(bodies), frames) == Mirrored(SolveFor(bodies, frames))
  {
    MirrorIsOrdered(bodies);
    AcceptedChainRunsFreely(bodies, frames);
    AcceptedChainRunsFreely(Mirrored(bodies), frames);
    MirrorFlies(bodies, frames);
  }

  /** Two bodies side by side going left by less than two raw units a frame move by one. */
  lemma LeftwardPair()
    ensures SolveFrame([Body(0, 0, -100), Body(0x1_0000_0000, 0, -100)]) == [Body(-1, 0, -100), Body(0xFFFF_FFFF, 0, -100)]
  {
    hide SolveFrame;
    hide MovesBy;
    var pair := [Body(0, 0, -100), Body(0x1_0000_0000, 0, -100)];
    SolvedFrameMoves(pair, 0);
    SolvedFrameMoves(pair, 1);
    LeftByOne(SolveFrame(pair)[0].px - pair[0].px);
    LeftByOne(SolveFrame(pair)[1].px - pair[1].px);
    assert SolveFrame(pair) == [SolveFrame(pair)[0], SolveFrame(pair)[1]];
  }

  lemma LeftByOne(d: int)
    requires MovesBy(-100, d)
    ensures d == -1
  {
    MovesByOneWay(-100, d, -1);
  }

  lemma {:induction false} FirstFrameFirst(bodies: seq<Body>, frames: nat)
    ensures SolveFor(bodies, frames + 1) == SolveFor(SolveFrame(bodies), frames)
  {
    hide SolveFrame;
    if frames > 0 {
      FirstFrameFirst(bodies, frames - 1);
    }
  }

  /** After the first solved frame the chain only flies, however long it runs. */
  lemma SolverSettlesInOneFrame(bodies: seq<Body>, frames: nat)
    requires bodies != []
    ensures SolveFor(bodies, frames + 1) == FlyFor(SolveFrame(bodies), FixedStep(), frames)
    ensures Ordered(SolveFor(bodies, frames + 1))
    ensures Level(bodies) ==> ChainOk(SolveFor(bodies, frames + 1))
  {
    var first := SolveFrame(bodies);
    SolvedFrameIsAccepted(bodies);
    FirstFrameFirst(bodies, frames);
    AcceptedChainRunsFreely(first, frames);
    DisplacementIsMonotone();
    FlightKeepsChain(first, FixedStep(), frames);
  }

  /** The fuzzer's momentum bound holds over any number of frames, not only over one. */
  lemma MomentumBoundForever(bodies: seq<Body>, frames: nat)
    requires bodies != []
    ensures 0 <= Momentum(bodies) - Momentum(SolveFor(bodies, frames)) < |bodies|
  {
    hide SolveFrame;
    if frames > 0 {
      var first := SolveFrame(bodies);
      SolvedFrameIsAccepted(bodies);
      FlightKeepsVelocities(first, FixedStep(), frames - 1);
      AcceptedMomentum(bodies, first, FlyFor(first, FixedStep(), frames - 1));
      SolverSettlesInOneFrame(bodies, frames - 1);
    }
  }

  lemma AcceptedMomentum(before: seq<Body>, after: seq<Body>, later: seq<Body>)
    requires KktAccepts(before, after) && Velocities(later) == Velocities(after)
    ensures 0 <= Momentum(before) - Momentum(later) < |before|
  {
    assert |later| == |Velocities(later)| == |before|;
    ResidualIsSumDifference(Velocities(before), Velocities(after), |before|);
  }
}
