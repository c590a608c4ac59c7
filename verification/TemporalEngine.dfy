/**
 The temporal engine with its two modulo-indexed rings, tagged inputs and tagged snapshots, and the
 rollback benchmark that compares a corrected replay with a clean run.  The physics step is open:
 any function of the state and the frame's input.
 */
module TemporalEngine {
  import opened FrameRing
  import opened Wrappers

  type Ring<T> = seq<Option<Slot<T>>>

  /** What a tagged ring holds for a frame; an overwritten frame is gone. */
  function Find<T>(ring: Ring<T>, frame: nat): Option<T>
    requires ring != []
  {
    var slot := ring[SlotIndex(frame, |ring|)];
    if slot.Some? && slot.value.frame == frame then Some(slot.value.value) else None
  }

  function Put<T>(ring: Ring<T>, frame: nat, value: T): (r: Ring<T>)
    requires ring != []
    ensures |r| == |ring|
  {
    ring[SlotIndex(frame, |ring|) := Some(Slot(frame, value))]
  }

  lemma FindAfterPut<T>(ring: Ring<T>, frame: nat, value: T, other: nat)
    requires ring != []
    ensures Find(Put(ring, frame, value), frame) == Some(value)
    ensures other != frame && other < frame + |ring| && frame < other + |ring| ==>
      Find(Put(ring, frame, value), other) == Find(ring, other)
    ensures other != frame && Find(Put(ring, frame, value), other).Some? ==>
      Find(Put(ring, frame, value), other) == Find(ring, other)
  {
    if SlotIndex(other, |ring|) == SlotIndex(frame, |ring|) {
      if frame <= other < frame + |ring| {
        SlotsDiffer(frame, other, |ring|);
      } else if other <= frame < other + |ring| {
        SlotsDiffer(other, frame, |ring|);
      }
    }
  }

  lemma OverwrittenIsGone<T>(ring: Ring<T>, frame: nat, value: T)
    requires ring != []
    ensures Find(Put(ring, frame + |ring|, value), frame) == None
  {
    SlotRepeats(frame, |ring|);
  }

  /** A run from an initial state over a list of inputs. */
  ghost function Play<S, I>(step: (S, I) -> S, initial: S, inputs: seq<I>): S {
    if inputs == [] then initial
    else step(Play(step, initial, inputs[..|inputs| - 1]), inputs[|inputs| - 1])
  }

  lemma PlayOneMore<S, I>(step: (S, I) -> S, initial: S, inputs: seq<I>, input: I)
    ensures Play(step, initial, inputs + [input]) == step(Play(step, initial, inputs), input)
  {
    assert (inputs + [input])[..|inputs|] == inputs;
  }

  /** Snapshots at or before the present come from the run's own past, and the recent ones are all there. */
  ghost predicate Faithful<S, I>(ring: Ring<S>, step: (S, I) -> S, initial: S, inputs: seq<I>, oldest: nat) {
    && oldest <= |inputs| < oldest + |ring|
    && (forall g: nat :: oldest <= g <= |inputs| ==> Find(ring, g).Some?)
    && (forall g: nat :: g <= |inputs| && Find(ring, g).Some? ==>
      oldest <= g && Find(ring, g).value == Play(step, initial, inputs[..g]))
  }

  function OldestKept(oldest: nat, frame: nat, capacity: nat): nat {
    if frame < oldest + capacity then oldest else oldest + 1
  }

  lemma FaithfulStep<S, I>(ring: Ring<S>, step: (S, I) -> S, initial: S, inputs: seq<I>, oldest: nat, input: I)
    requires Faithful(ring, step, initial, inputs, oldest)
    ensures var (frame, longer) := (|inputs| + 1, inputs + [input]);
      Faithful(Put(ring, frame, Play(step, initial, longer)), step, initial, longer, OldestKept(oldest, frame, |ring|))
  {
    var (frame, longer) := (|inputs| + 1, inputs + [input]);
    var state := Play(step, initial, longer);
    var now := Put(ring, frame, state);
    FindAfterPut(ring, frame, state, frame);
    assert longer[..frame] == longer;
    if frame == oldest + |ring| {
      OverwrittenIsGone(ring, oldest, state);
    }
    hide Put;
    hide Find;
    forall g: nat | g < frame
      ensures Find(now, g).Some? ==> Find(now, g) == Find(ring, g) && longer[..g] == inputs[..g]
      ensures frame < g + |ring| ==> Find(now, g) == Find(ring, g)
    {
      FindAfterPut(ring, frame, state, g);
    }
  }

  lemma RunStep<S, I>(ring: Ring<S>, step: (S, I) -> S, initial: S, inputs: seq<I>, oldest: nat, input: I)
    requires Faithful(ring, step, initial, inputs, oldest)
    ensures var (frame, state) := (|inputs| + 1, step(Play(step, initial, inputs), input));
      && state == Play(step, initial, inputs + [input])
      && Faithful(Put(ring, frame, state), step, initial, inputs + [input], OldestKept(oldest, frame, |ring|))
  {
    FaithfulStep(ring, step, initial, inputs, oldest, input);
    PlayOneMore(step, initial, inputs, input);
  }

  lemma FaithfulPast<S, I>(ring: Ring<S>, step: (S, I) -> S, initial: S, inputs: seq<I>, oldest: nat, frame: nat)
    requires Faithful(ring, step, initial, inputs, oldest) && oldest <= frame <= |inputs|
    ensures Faithful(ring, step, initial, inputs[..frame], oldest)
  {
    hide Find;
    forall g: nat | g <= frame ensures inputs[..frame][..g] == inputs[..g] {
    }
  }

  /** The ring without the snapshots after a frame. */
  function Dropped<S>(ring: Ring<S>, frame: nat): (r: Ring<S>)
    ensures |r| == |ring|
  {
    seq(|ring|, i requires 0 <= i < |ring| =>
      if ring[i].Some? && ring[i].value.frame > frame then None else ring[i])
  }

  lemma FaithfulDropped<S, I>(ring: Ring<S>, step: (S, I) -> S, initial: S, inputs: seq<I>, oldest: nat, frame: nat)
    requires Faithful(ring, step, initial, inputs, oldest) && |inputs| <= frame
    ensures Faithful(Dropped(ring, frame), step, initial, inputs, oldest)
  {
    forall g: nat | g <= |inputs| ensures Find(Dropped(ring, frame), g) == Find(ring, g) {
    }
  }

  /** Dropping forgets every later snapshot and no other. */
  lemma DroppedFinds<S>(ring: Ring<S>, frame: nat, g: nat)
    requires ring != []
    ensures Find(Dropped(ring, frame), g) == if g > frame then None else Find(ring, g)
  {
  }

  /** No snapshot after a frame is left. */
  ghost predicate EndsAt<S>(ring: Ring<S>, frame: nat)
    requires ring != []
  {
    forall g: nat :: g > frame ==> Find(ring, g).None?
  }

  lemma DroppedEnds<S>(ring: Ring<S>, frame: nat)
    requires ring != []
    ensures EndsAt(Dropped(ring, frame), frame)
  {
    hide Find;
    hide Dropped;
    forall g: nat | g > frame ensures Find(Dropped(ring, frame), g).None? {
      DroppedFinds(ring, frame, g);
    }
  }

  lemma EndsAfterPut<S>(ring: Ring<S>, frame: nat, value: S)
    requires ring != [] && EndsAt(ring, frame)
    ensures EndsAt(Put(ring, frame + 1, value), frame + 1)
  {
    hide Find;
    hide Put;
    var (next, now) := (frame + 1, Put(ring, frame + 1, value));
    forall g: nat | g > next ensures Find(now, g).None? {
      FindAfterPut(ring, next, value, g);
    }
  }

  /** The input a frame is stepped with: what the ring holds for it, or a blank one. */
  ghost function Given<I>(ring: Ring<I>, blank: I, f: nat): I
    requires ring != []
  {
    var found := Find(ring, f);
    if found.Some? then found.value else blank
  }

  /** The inputs of the frames after one frame, up to another. */
  ghost function Coming<I>(ring: Ring<I>, blank: I, from: nat, target: nat): (r: seq<I>)
    requires ring != [] && from <= target
    ensures |r| == target - from
  {
    seq(target - from, k requires 0 <= k < target - from => Given(ring, blank, from + 1 + k))
  }

  /** A run of inputs continued by those the ring gives. */
  ghost function Continued<I>(past: seq<I>, ring: Ring<I>, blank: I, target: nat): seq<I>
    requires ring != [] && |past| <= target
  {
    past + Coming(ring, blank, |past|, target)
  }

  lemma ContinuedNext<I>(past: seq<I>, ring: Ring<I>, blank: I, target: nat)
    requires ring != [] && |past| <= target
    ensures Continued(past, ring, blank, |past|) == past
    ensures Continued(past, ring, blank, target + 1)
      == Continued(past, ring, blank, target) + [Given(ring, blank, target + 1)]
  {
    hide Given;
  }

  lemma LaterNext(first: nat, oldest: nat, frame: nat, capacity: nat)
    requires frame < oldest + capacity && oldest == Later(first, frame - capacity + 1)
    ensures frame + 1 < OldestKept(oldest, frame + 1, capacity) + capacity
    ensures OldestKept(oldest, frame + 1, capacity) == Later(first, frame + 1 - capacity + 1)
  {
  }

  /** Inputs that continue a past with those the ring gives, over a window that forgot no more than it had to. */
  ghost predicate RunsOn<I>(applied: seq<I>, oldest: nat, frame: nat, past: seq<I>, first: nat, ring: Ring<I>, blank: I,
      capacity: nat)
    requires ring != []
  {
    && |past| <= frame && applied == Continued(past, ring, blank, frame)
    && frame < oldest + capacity && oldest == Later(first, frame - capacity + 1)
  }

  lemma RunsOnNext<I>(applied: seq<I>, oldest: nat, frame: nat, past: seq<I>, first: nat, ring: Ring<I>, blank: I,
      capacity: nat)
    requires ring != [] && RunsOn(applied, oldest, frame, past, first, ring, blank, capacity)
    ensures RunsOn(applied + [Given(ring, blank, frame + 1)], OldestKept(oldest, frame + 1, capacity), frame + 1, past,
      first, ring, blank, capacity)
  {
    ContinuedNext(past, ring, blank, frame);
    LaterNext(first, oldest, frame, capacity);
  }

  lemma PlayedOn<S, I>(step: (S, I) -> S, start: S, ring: Ring<I>, blank: I, from: nat, at: nat)
    requires ring != [] && from <= at
    ensures step(Play(step, start, Coming(ring, blank, from, at)), Given(ring, blank, at + 1))
      == Play(step, start, Coming(ring, blank, from, at + 1))
  {
    PlayOneMore(step, start, Coming(ring, blank, from, at), Given(ring, blank, at + 1));
    ComingNext(ring, blank, from, at);
  }

  lemma LaterNow(oldest: nat, frame: nat, capacity: nat)
    ensures frame < oldest + capacity ==> oldest == Later(oldest, frame - capacity + 1)
  {
  }

  lemma ComingNext<I>(ring: Ring<I>, blank: I, from: nat, target: nat)
    requires ring != [] && from <= target
    ensures Coming(ring, blank, from, target + 1) == Coming(ring, blank, from, target) + [Given(ring, blank, target + 1)]
  {
    hide Given;
  }

  /** What a restore looks up and what a step is given, told apart from whether they belong to one run. */
  class Engine<S(0), I(0)> {
    const step: (S, I) -> S
    /** Whether an input stays within the configured capacity. */
    const fits: I -> bool
    const blank: I
    const inputs: array<Option<Slot<I>>>
    const history: array<Option<Slot<S>>>
    var frame: nat
    var state: S
    ghost const initial: S
    ghost var applied: seq<I>
    ghost var oldest: nat

    ghost predicate Shaped() {
      inputs.Length == history.Length >= 2 && inputs as object != history
    }

    /** The state and the snapshots up to it are those of one run from the initial state. */
    ghost predicate Valid()
      reads this, inputs, history
    {
      && Shaped()
      && |applied| == frame && state == Play(step, initial, applied)
      && Faithful(history[..], step, initial, applied, oldest)
    }

    /** The input a frame would be stepped with. */
    ghost function Effective(f: nat): I
      reads inputs
      requires inputs.Length > 0
    {
      Given(inputs[..], blank, f)
    }

    /** The snapshot the ring holds for a frame, of whatever run. */
    ghost function Snapshot(f: nat): Option<S>
      reads history
      requires history.Length > 0
    {
      Find(history[..], f)
    }

    constructor (step: (S, I) -> S, fits: I -> bool, initial: S, blank: I, capacity: nat)
      requires capacity >= 2
      ensures Valid() && fresh(inputs) && fresh(history) && history.Length == capacity
      ensures this.step == step && this.fits == fits && this.initial == initial && this.blank == blank
      ensures applied == [] && oldest == 0
      ensures inputs[..] == seq(capacity, _ => None)
    {
      this.step, this.fits, this.blank, this.initial := step, fits, blank, initial;
      frame, state, applied, oldest := 0, initial, [], 0;
      inputs := new Option<Slot<I>>[capacity](_ => None);
      history := new Option<Slot<S>>[capacity](_ => None);
      new;
      history[SlotIndex(0, capacity)] := Some(Slot(0, state));
    }

    /** Refused beyond the configured capacity; otherwise the frame's slot is overwritten. */
    method SetInput(f: nat, input: I) returns (ok: bool)
      requires Shaped()
      modifies inputs
      ensures old(Valid()) ==> Valid()
      ensures ok == fits(input)
      ensures inputs[..] == if ok then Put(old(inputs[..]), f, input) else old(inputs[..])
    {
      hide Faithful;
      if !fits(input) {
        return false;
      }
      inputs[SlotIndex(f, inputs.Length)] := Some(Slot(f, input));
      ok := true;
    }

    method StepOne()
      requires Shaped()
      modifies this, history
      ensures inputs[..] == old(inputs[..])
      ensures frame == old(frame) + 1 && state == step(old(state), Given(inputs[..], blank, frame))
      ensures history[..] == Put(old(history[..]), frame, state)
      ensures old(Valid()) ==> Valid() && applied == old(applied) + [Given(inputs[..], blank, frame)]
      ensures old(Valid()) ==> oldest == OldestKept(old(oldest), frame, history.Length)
      ensures old(EndsAt(history[..], frame)) ==> EndsAt(history[..], frame)
    {
      ghost var (ring, was) := (inputs[..], history[..]);
      var next := frame + 1;
      var slot := inputs[SlotIndex(next, inputs.Length)];
      var input := if slot.Some? && slot.value.frame == next then slot.value.value else blank;
      assert input == Given(ring, blank, next);
      hide Given;
      hide Find;
      if Valid() {
        RunStep(was, step, initial, applied, oldest, input);
      }
      if EndsAt(was, frame) {
        EndsAfterPut(was, frame, step(state, input));
      }
      hide EndsAt;
      hide Faithful;
      hide Play;
      hide OldestKept;
      applied := applied + [input];
      state := step(state, input);
      frame := next;
      history[SlotIndex(next, history.Length)] := Some(Slot(next, state));
      assert history[..] == Put(was, next, state) && inputs[..] == ring;
      hide Put;
      oldest := OldestKept(oldest, next, history.Length);
    }

    /** The state is a start state played on with the inputs the ring gives, and still the newest if it was. */
    ghost predicate Since(start: S, from: nat, newest: bool)
      reads this, inputs, history
      requires Shaped()
    {
      && from <= frame && state == Play(step, start, Coming(inputs[..], blank, from, frame))
      && (newest ==> EndsAt(history[..], frame))
    }

    /** The run continues a past with these inputs, and has lost no snapshot it had to keep. */
    ghost predicate Continues(past: seq<I>, first: nat)
      reads this, inputs, history
      requires Shaped()
    {
      Valid() && RunsOn(applied, oldest, frame, past, first, inputs[..], blank, history.Length)
    }

    /** One frame, seen from where a simulation started. */
    method StepAlong(ghost start: S, ghost from: nat, ghost newest: bool, ghost past: seq<I>, ghost first: nat)
      requires Shaped() && Since(start, from, newest)
      modifies this, history
      ensures frame == old(frame) + 1 && inputs[..] == old(inputs[..]) && Since(start, from, newest)
      ensures old(Continues(past, first)) ==> Continues(past, first)
    {
      ghost var (ring, at) := (inputs[..], frame);
      PlayedOn(step, start, ring, blank, from, at);
      if Continues(past, first) {
        RunsOnNext(applied, oldest, at, past, first, ring, blank, history.Length);
      }
      hide Faithful;
      hide Play;
      hide Coming;
      hide RunsOn;
      hide Given;
      hide Put;
      hide EndsAt;
      hide OldestKept;
      hide Valid;
      StepOne();
      assert inputs[..] == ring && frame == at + 1;
    }

    /** Refused when the target lies behind; otherwise every frame up to it is stepped with its input. */
    method SimulateTo(target: nat) returns (ok: bool)
      requires Shaped()
      modifies this, history
      ensures ok <==> target >= old(frame)
      ensures !ok ==> frame == old(frame) && state == old(state) && applied == old(applied) && oldest == old(oldest)
      ensures !ok ==> history[..] == old(history[..])
      ensures ok ==> frame == target && state == Play(step, old(state), Coming(inputs[..], blank, old(frame), target))
      ensures old(Valid()) ==> Valid()
      ensures old(Valid()) && ok ==> applied == Continued(old(applied), inputs[..], blank, target)
      ensures old(Valid()) && ok ==> oldest == Later(old(oldest), target - history.Length + 1)
      ensures ok && old(EndsAt(history[..], frame)) ==> EndsAt(history[..], target)
    {
      hide EndsAt;
      if target < frame {
        return false;
      }
      ghost var newest := EndsAt(history[..], frame);
      NothingYet();
      hide Continues;
      hide Since;
      while frame < target
        invariant old(frame) <= frame <= target && Since(old(state), old(frame), newest)
        invariant old(Valid()) ==> Continues(old(applied), old(oldest))
      {
        StepAlong(old(state), old(frame), newest, old(applied), old(oldest));
      }
      Arrived(old(state), old(frame), newest, old(applied), old(oldest));
      ok := true;
    }

    lemma NothingYet()
      requires Shaped()
      ensures Since(state, frame, EndsAt(history[..], frame))
      ensures Valid() ==> Continues(applied, oldest)
    {
      assert Coming(inputs[..], blank, frame, frame) == [];
      if Valid() {
        assert |applied| == frame < oldest + history.Length;
        ContinuedNext(applied, inputs[..], blank, frame);
        LaterNow(oldest, frame, history.Length);
      }
    }

    lemma Arrived(start: S, from: nat, newest: bool, past: seq<I>, first: nat)
      requires Shaped() && Since(start, from, newest)
      ensures newest ==> EndsAt(history[..], frame)
      ensures from <= frame && state == Play(step, start, Coming(inputs[..], blank, from, frame))
      ensures Continues(past, first) ==>
        && Valid() && |past| <= frame && applied == Continued(past, inputs[..], blank, frame)
        && oldest == Later(first, frame - history.Length + 1)
    {
    }

    /**
     Goes back, or forward, to a snapshot, or refuses a frame whose snapshot is gone.  Up to the present the
     snapshot is the run's own past; after it, it can only be left over from an abandoned run.
     */
    method Restore(f: nat) returns (ok: bool)
      requires Shaped()
      modifies this
      ensures ok <==> old(Snapshot(f)).Some?
      ensures ok ==> frame == f && state == Snapshot(f).value
      ensures !ok ==> frame == old(frame) && state == old(state) && applied == old(applied) && oldest == old(oldest)
      ensures old(Valid()) ==> (Valid() <==> f <= old(frame) || old(Snapshot(f)).None?) && oldest == old(oldest)
      ensures old(Valid()) && f <= old(frame) ==> (ok <==> f >= oldest) && (ok ==> applied == old(applied)[..f])
    {
      var slot := history[SlotIndex(f, history.Length)];
      assert Snapshot(f) == if slot.Some? && slot.value.frame == f then Some(slot.value.value) else None;
      if slot.None? || slot.value.frame != f {
        return false;
      }
      if Valid() && f <= frame {
        FaithfulPast(history[..], step, initial, applied, oldest, f);
        assert state == Play(step, initial, applied);
      }
      hide Faithful;
      hide Play;
      state := slot.value.value;
      frame := f;
      applied := if f <= |applied| then applied[..f] else applied;
      ok := true;
    }

    method TruncateAfter(f: nat)
      requires Shaped()
      modifies history
      ensures history[..] == Dropped(old(history[..]), f)
      ensures forall g: nat :: Snapshot(g) == if g > f then None else old(Snapshot(g))
      ensures EndsAt(history[..], f)
      ensures old(Valid()) && frame <= f ==> Valid()
    {
      ghost var was := history[..];
      forall g: nat ensures Find(Dropped(was, f), g) == if g > f then None else Find(was, g) {
        DroppedFinds(was, f, g);
      }
      DroppedEnds(was, f);
      hide Find;
      hide EndsAt;
      if Valid() && frame <= f {
        FaithfulDropped(was, step, initial, applied, oldest, f);
      }
      hide Faithful;
      for i := 0 to history.Length
        invariant forall j :: 0 <= j < i ==> history[j] == Dropped(was, f)[j]
        invariant forall j :: i <= j < history.Length ==> history[j] == was[j]
      {
        if history[i].Some? && history[i].value.frame > f {
          history[i] := None;
        }
      }
      assert history[..] == Dropped(was, f);
    }

    /**
     The engine's own correction.  The corrected input is stored before the snapshot is looked up, so
     it stays stored even when the correction is refused because the snapshot is gone.
     */
    method CorrectAndResimulate(f: nat, corrected: I, target: nat) returns (r: Correction)
      requires Shaped()
      modifies this, inputs, history
      ensures r.InvalidRange? <==> f == 0 || target < f
      ensures r.TooLarge? <==> 0 < f <= target && !fits(corrected)
      ensures r.SnapshotLost? <==> 0 < f <= target && fits(corrected) && old(Snapshot(f - 1)).None?
      ensures inputs[..] == if r.Done? || r.SnapshotLost? then Put(old(inputs[..]), f, corrected) else old(inputs[..])
      ensures !r.Done? ==> frame == old(frame) && state == old(state) && applied == old(applied)
      ensures r.Done? ==> Effective(f) == corrected
      ensures r.Done? ==>
        frame == target && state == Play(step, old(Snapshot(f - 1)).value, Coming(inputs[..], blank, f - 1, target))
      ensures r.Done? ==> EndsAt(history[..], target)
      ensures old(Valid()) && (f <= old(frame) + 1 || !r.Done?) ==> Valid()
      ensures old(Valid()) && 0 < f <= old(frame) + 1 ==> (r.SnapshotLost? <==>
        f <= target && fits(corrected) && f - 1 < old(oldest))
      ensures old(Valid()) && f <= old(frame) + 1 && r.Done? ==>
        applied == Continued(old(applied)[..f - 1], inputs[..], blank, target)
    {
      hide Faithful;
      hide EndsAt;
      hide Play;
      if f == 0 || target < f {
        return InvalidRange;
      }
      FindAfterPut(inputs[..], f, corrected, f);
      var ok := SetInput(f, corrected);
      if !ok {
        return TooLarge;
      }
      assert Effective(f) == corrected;
      hide Find;
      hide Put;
      ok := Restore(f - 1);
      if !ok {
        return SnapshotLost;
      }
      TruncateAfter(f - 1);
      hide Dropped;
      ok := SimulateTo(target);
      r := Done;
    }
  }

  datatype Correction = Done | InvalidRange | TooLarge | SnapshotLost

  /** A step keeps the snapshots less than a capacity away, and adds its own. */
  method StepKeeping<S(0), I(0)>(engine: Engine<S, I>, kept: nat)
    requires engine.Shaped() && kept != engine.frame + 1
    requires kept < engine.frame + 1 + engine.history.Length && engine.frame + 1 < kept + engine.history.Length
    modifies engine, engine.history
    ensures engine.frame == old(engine.frame) + 1
    ensures engine.state == engine.step(old(engine.state), engine.Effective(engine.frame))
    ensures engine.Snapshot(engine.frame) == Some(engine.state) && engine.Snapshot(kept) == old(engine.Snapshot(kept))
  {
    hide Find;
    hide Given;
    ghost var was := engine.history[..];
    engine.StepOne();
    FindAfterPut(was, engine.frame, engine.state, engine.frame);
    FindAfterPut(was, engine.frame, engine.state, kept);
  }

  /** Two frames, and back to the start without truncating. */
  method Abandon<S(0), I(0)>(step: (S, I) -> S, fits: I -> bool, initial: S, blank: I, first: I, capacity: nat)
    returns (engine: Engine<S, I>)
    requires capacity >= 3 && fits(first)
    ensures fresh(engine) && fresh(engine.inputs) && fresh(engine.history) && engine.Shaped()
    ensures engine.history.Length == capacity && engine.step == step && engine.fits == fits && engine.blank == blank
    ensures engine.frame == 0 && engine.state == initial
    ensures engine.Snapshot(2) == Some(step(step(initial, first), blank))
  {
    engine := new Engine(step, fits, initial, blank, capacity);
    FaithfulNow(engine.history[..], step, initial, [], 0);
    hide Faithful;
    hide Play;
    GivenAlone(engine.inputs[..], first, blank);
    hide Find;
    var ok := engine.SetInput(1, first);
    hide Put;
    hide Given;
    StepKeeping(engine, 0);
    StepKeeping(engine, 0);
    ok := engine.Restore(0);
  }

  /**
   Then one frame with another input: the snapshot of the second frame is still the abandoned run's, and a
   restore returns it.
   */
  method RestoreAbandoned<S(0), I(0)>(step: (S, I) -> S, fits: I -> bool, initial: S, blank: I, first: I, second: I,
      capacity: nat)
    returns (present: S, ok: bool, found: S)
    requires capacity >= 3 && fits(first) && fits(second)
    ensures present == step(initial, second)
    ensures ok && found == step(step(initial, first), blank)
  {
    hide Faithful;
    hide Play;
    var engine := Abandon(step, fits, initial, blank, first, capacity);
    FindAfterPut(engine.inputs[..], 1, second, 1);
    ok := engine.SetInput(1, second);
    assert engine.Effective(1) == second;
    hide Put;
    hide Given;
    hide Find;
    StepKeeping(engine, 2);
    present := engine.state;
    ok := engine.Restore(2);
    found := engine.state;
  }

  /** One stored input is given to its frame, and to the next none. */
  lemma GivenAlone<I>(ring: Ring<I>, input: I, blank: I)
    requires |ring| >= 2 && forall i :: 0 <= i < |ring| ==> ring[i].None?
    ensures Given(Put(ring, 1, input), blank, 1) == input && Given(Put(ring, 1, input), blank, 2) == blank
  {
    FindAfterPut(ring, 1, input, 1);
    FindAfterPut(ring, 1, input, 2);
  }

  lemma FaithfulNow<S, I>(ring: Ring<S>, step: (S, I) -> S, initial: S, inputs: seq<I>, oldest: nat)
    requires Faithful(ring, step, initial, inputs, oldest)
    ensures Find(ring, |inputs|) == Some(Play(step, initial, inputs))
  {
    assert inputs[..|inputs|] == inputs;
  }

  function Later(a: int, b: int): int {
    if a < b then b else a
  }

  // ---- the rollback benchmark ----

  /** The inputs a run of n frames is stepped with after all n were stored up front: the ring keeps the newest. */
  ghost function Heard<I>(all: seq<I>, capacity: nat, blank: I): (heard: seq<I>)
    ensures |heard| == |all|
  {
    seq(|all|, i requires 0 <= i < |all| => if i + 1 + capacity > |all| then all[i] else blank)
  }

  /** Of the first m inputs the ring keeps the newest. */
  ghost function Newest<I>(all: seq<I>, m: nat, capacity: nat, f: nat): Option<I>
    requires 1 <= f <= m <= |all|
  {
    if f + capacity > m then Some(all[f - 1]) else None
  }

  ghost predicate KeepsNewest<I>(ring: Ring<I>, all: seq<I>, m: nat)
    requires ring != [] && m <= |all|
  {
    forall f: nat :: 1 <= f <= m ==> Find(ring, f) == Newest(all, m, |ring|, f)
  }

  lemma KeepsNewestNext<I>(ring: Ring<I>, all: seq<I>, m: nat)
    requires ring != [] && m < |all| && KeepsNewest(ring, all, m)
    ensures KeepsNewest(Put(ring, m + 1, all[m]), all, m + 1)
  {
    var next := Put(ring, m + 1, all[m]);
    forall f: nat | 1 <= f <= m + 1 ensures Find(next, f) == Newest(all, m + 1, |ring|, f) {
      FindAfterPut(ring, m + 1, all[m], f);
      if f + |ring| == m + 1 {
        OverwrittenIsGone(ring, f, all[m]);
      }
    }
  }

  method StoreInputs<S(0), I(0)>(engine: Engine<S, I>, all: seq<I>)
    requires engine.Valid() && engine.applied == []
    requires forall i :: 0 <= i < |all| ==> engine.fits(all[i])
    requires engine.inputs[..] == seq(engine.inputs.Length, _ => None)
    modifies engine.inputs
    ensures engine.Valid() && KeepsNewest(engine.inputs[..], all, |all|)
  {
    for m := 0 to |all|
      invariant engine.Valid() && KeepsNewest(engine.inputs[..], all, m)
    {
      hide Put;
      hide Find;
      KeepsNewestNext(engine.inputs[..], all, m);
      var ok := engine.SetInput(m + 1, all[m]);
    }
  }

  /** The captured pairs are those of the run's own states at every retained frame, up to the present. */
  ghost predicate PairsFollow<S, I, P>(w: Window<P>, pairsOf: S -> P, step: (S, I) -> S, initial: S, inputs: seq<I>) {
    && w.states != [] && w.Last() == |inputs|
    && forall f: nat :: w.Has(f) ==> w.At(f) == pairsOf(Play(step, initial, inputs[..f]))
  }

  lemma PairsFollowStep<S, I, P>(w: Window<P>, pairsOf: S -> P, step: (S, I) -> S, initial: S, inputs: seq<I>, input: I,
      capacity: nat)
    requires PairsFollow(w, pairsOf, step, initial, inputs) && |w.states| <= capacity
    ensures PairsFollow(w.Slide(|inputs| + 1, pairsOf(Play(step, initial, inputs + [input])), capacity),
      pairsOf, step, initial, inputs + [input])
  {
    var (longer, next) := (inputs + [input], |inputs| + 1);
    hide Play;
    var slid := w.Slide(next, pairsOf(Play(step, initial, longer)), capacity);
    assert longer[..next] == longer;
    forall f: nat | slid.Has(f) ensures slid.At(f) == pairsOf(Play(step, initial, longer[..f])) {
      if f < next {
        assert w.Has(f) && slid.At(f) == w.At(f) && longer[..f] == inputs[..f];
      }
    }
  }

  lemma PairsFollowCut<S, I, P>(w: Window<P>, pairsOf: S -> P, step: (S, I) -> S, initial: S, inputs: seq<I>,
      frame: nat)
    requires PairsFollow(w, pairsOf, step, initial, inputs) && w.Has(frame)
    ensures PairsFollow(w.Cut(frame), pairsOf, step, initial, inputs[..frame])
  {
    var cut := w.Cut(frame);
    forall f: nat | cut.Has(f) ensures cut.At(f) == pairsOf(Play(step, initial, inputs[..frame][..f])) {
      assert w.Has(f) && inputs[..frame][..f] == inputs[..f];
    }
  }

  /** Engine and pair history side by side: the pairs are those of the engine's own run. */
  ghost predicate Paired<S(0), I(0), P(0)>(engine: Engine<S, I>, pairs: IndexedFrameRing<P>, pairsOf: S -> P)
    reads engine, engine.inputs, engine.history, pairs, pairs.slots
  {
    && engine.Valid() && pairs.Valid()
    && pairs.slots as object != engine.inputs && pairs.slots as object != engine.history
    && pairs.slots.Length == engine.history.Length
    && PairsFollow(pairs.Retained(), pairsOf, engine.step, engine.initial, engine.applied)
    && engine.oldest <= engine.frame < engine.oldest + engine.history.Length
    && pairs.Retained().first == engine.oldest
  }

  method RunOne<S(0), I(0), P(0)>(engine: Engine<S, I>, pairs: IndexedFrameRing<P>, pairsOf: S -> P)
    requires Paired(engine, pairs, pairsOf) && engine.frame + 1 < MAX_FRAME
    modifies engine, engine.history, pairs, pairs.slots
    ensures Paired(engine, pairs, pairsOf) && engine.frame == old(engine.frame) + 1
    ensures engine.applied == old(engine.applied) + [engine.Effective(engine.frame)]
    ensures engine.oldest == OldestKept(old(engine.oldest), engine.frame, engine.history.Length)
  {
    hide Faithful;
    hide Find;
    hide PairsFollow;
    hide Occupied;
    ghost var before := engine.applied;
    PairsShape(pairs.Retained(), pairsOf, engine.step, engine.initial, before);
    ComingNext(engine.inputs[..], engine.blank, engine.frame, engine.frame);
    assert Coming(engine.inputs[..], engine.blank, engine.frame, engine.frame) == [];
    var ok := engine.SimulateTo(engine.frame + 1);
    ghost var input := engine.Effective(engine.frame);
    assert engine.applied == before + [input];
    PairsFollowStep(pairs.Retained(), pairsOf, engine.step, engine.initial, before, input, pairs.slots.Length);
    var e := pairs.Capture(engine.frame, pairsOf(engine.state));
  }

  lemma PairsShape<S, I, P>(w: Window<P>, pairsOf: S -> P, step: (S, I) -> S, initial: S, inputs: seq<I>)
    requires PairsFollow(w, pairsOf, step, initial, inputs)
    ensures w.states != [] && w.Last() == |inputs|
  {
  }

  /** Simulates frame by frame and captures the pairs of each state. */
  method RunFrames<S(0), I(0), P(0)>(engine: Engine<S, I>, pairs: IndexedFrameRing<P>, pairsOf: S -> P, target: nat)
    requires Paired(engine, pairs, pairsOf) && engine.frame <= target < MAX_FRAME
    modifies engine, engine.history, pairs, pairs.slots
    ensures Paired(engine, pairs, pairsOf) && engine.frame == target
    ensures engine.applied[..old(engine.frame)] == old(engine.applied)
    ensures forall f :: old(engine.frame) < f <= target ==> engine.applied[f - 1] == engine.Effective(f)
    ensures engine.oldest == Later(old(engine.oldest), target - engine.history.Length + 1)
  {
    hide Faithful;
    hide Find;
    hide PairsFollow;
    hide Occupied;
    while engine.frame < target
      invariant Paired(engine, pairs, pairsOf) && old(engine.frame) <= engine.frame <= target
      invariant engine.applied[..old(engine.frame)] == old(engine.applied)
      invariant forall f :: old(engine.frame) < f <= engine.frame ==> engine.applied[f - 1] == engine.Effective(f)
      invariant engine.oldest == Later(old(engine.oldest), engine.frame - engine.history.Length + 1)
    {
      RunOne(engine, pairs, pairsOf);
    }
  }

  /** A fresh engine and pair history with all inputs stored. */
  method Prepare<S(0), I(0), P(0)>(step: (S, I) -> S, fits: I -> bool, pairsOf: S -> P, initial: S, blank: I,
      all: seq<I>, capacity: nat)
    returns (engine: Engine<S, I>, pairs: IndexedFrameRing<P>)
    requires capacity >= 2 && forall i :: 0 <= i < |all| ==> fits(all[i])
    ensures fresh(engine) && fresh(engine.inputs) && fresh(engine.history) && fresh(pairs) && fresh(pairs.slots)
    ensures Paired(engine, pairs, pairsOf) && engine.step == step && engine.fits == fits
    ensures engine.initial == initial && engine.blank == blank
    ensures engine.frame == 0 && engine.oldest == 0 && engine.history.Length == capacity
    ensures KeepsNewest(engine.inputs[..], all, |all|)
  {
    engine := new Engine(step, fits, initial, blank, capacity);
    StoreInputs(engine, all);
    pairs := new IndexedFrameRing(capacity);
    var e := pairs.Capture(0, pairsOf(engine.state));
    assert engine.applied[..0] == [];
  }

  /** With the newest inputs found in the ring, the frames are stepped with what the run can still hear. */
  lemma EffectiveIsHeard<S(0), I(0)>(engine: Engine<S, I>, all: seq<I>, from: nat, heard: seq<I>)
    requires engine.Valid() && KeepsNewest(engine.inputs[..], all, |all|) && from <= |all| == engine.frame
    requires heard == Heard(all, engine.inputs.Length, engine.blank)
    requires engine.applied[..from] == heard[..from]
    requires forall f :: from < f <= |all| ==> engine.applied[f - 1] == engine.Effective(f)
    ensures engine.applied == heard
  {
    hide Faithful;
    hide Find;
    forall i: nat | i < |all| ensures engine.applied[i] == heard[i] {
      if i < from {
        assert engine.applied[..from][i] == heard[..from][i];
      } else {
        assert engine.applied[i + 1 - 1] == engine.Effective(i + 1);
        assert Find(engine.inputs[..], i + 1) == Newest(all, |all|, engine.inputs.Length, i + 1);
      }
    }
  }

  /**
   The benchmark's two paths: a clean run with the corrected input, and a run with the original
   inputs that stores the correction, restores the frame before it, truncates both histories and
   simulates again.  The second path is refused exactly when the snapshot left the ring; otherwise
   it ends in the clean run's state and with the clean run's pairs at every retained frame.
   */
  method MeasureIntegrated<S(0), I(0), P(0)>(step: (S, I) -> S, fits: I -> bool, pairsOf: S -> P, initial: S, blank: I,
      original: seq<I>, k: nat, corrected: I, capacity: nat)
    returns (rolledBack: bool, final: S, expected: S, pairs: IndexedFrameRing<P>)
    requires capacity >= 2 && 1 <= k <= |original| < MAX_FRAME
    requires fits(corrected) && forall i :: 0 <= i < |original| ==> fits(original[i])
    ensures rolledBack <==> |original| < k - 1 + capacity
    ensures expected == Play(step, initial, Heard(original[k - 1 := corrected], capacity, blank))
    ensures rolledBack ==> final == expected
    ensures rolledBack ==> pairs.Valid()
    ensures rolledBack ==>
      PairsFollow(pairs.Retained(), pairsOf, step, initial, Heard(original[k - 1 := corrected], capacity, blank))
  {
    hide Faithful;
    hide PairsFollow;
    hide Occupied;
    hide Find;
    var (n, all) := (|original|, original[k - 1 := corrected]);
    var clean, cleanPairs := Prepare(step, fits, pairsOf, initial, blank, all, capacity);
    RunFrames(clean, cleanPairs, pairsOf, n);
    EffectiveIsHeard(clean, all, 0, Heard(all, capacity, blank));
    expected := clean.state;
    var engine, enginePairs := Prepare(step, fits, pairsOf, initial, blank, original, capacity);
    pairs := enginePairs;
    RunFrames(engine, pairs, pairsOf, n);
    EffectiveIsHeard(engine, original, 0, Heard(original, capacity, blank));
    rolledBack := Replay(engine, pairs, pairsOf, original, k, corrected);
    final := engine.state;
  }

  /** The correction stored over a ring that holds the original inputs, when its slot is still live. */
  lemma KeepsNewestCorrected<I>(ring: Ring<I>, original: seq<I>, k: nat, corrected: I)
    requires ring != [] && 1 <= k <= |original| < k + |ring| && KeepsNewest(ring, original, |original|)
    ensures KeepsNewest(Put(ring, k, corrected), original[k - 1 := corrected], |original|)
  {
    var (now, all) := (Put(ring, k, corrected), original[k - 1 := corrected]);
    forall f: nat | 1 <= f <= |original| ensures Find(now, f) == Newest(all, |all|, |ring|, f) {
      FindAfterPut(ring, k, corrected, f);
      assert Find(ring, f) == Newest(original, |original|, |ring|, f);
    }
  }

  /** Truncates both histories at the present, after a restore. */
  method TruncateBoth<S(0), I(0), P(0)>(engine: Engine<S, I>, pairs: IndexedFrameRing<P>, pairsOf: S -> P, f: nat)
    requires engine.Valid() && pairs.Valid() && engine.frame == f < MAX_FRAME
    requires pairs.slots as object != engine.inputs && pairs.slots as object != engine.history
    requires pairs.slots.Length == engine.history.Length
    requires pairs.Retained().first == engine.oldest <= f < engine.oldest + engine.history.Length
    requires pairs.Retained().Has(f) && pairs.latest != Some(MAX_FRAME)
    requires PairsFollow(pairs.Retained().Cut(f), pairsOf, engine.step, engine.initial, engine.applied)
    modifies engine.history, pairs, pairs.slots
    ensures Paired(engine, pairs, pairsOf)
  {
    hide Faithful;
    hide Find;
    hide Occupied;
    hide Play;
    hide PairsFollow;
    hide Dropped;
    engine.TruncateAfter(f);
    var e := pairs.TruncateAfter(f);
  }

  /** Store the correction, restore the frame before it and truncate both histories there. */
  method GoBack<S(0), I(0), P(0)>(engine: Engine<S, I>, pairs: IndexedFrameRing<P>, pairsOf: S -> P, k: nat,
      corrected: I)
    returns (ok: bool)
    requires Paired(engine, pairs, pairsOf) && 1 <= k <= engine.frame < MAX_FRAME && engine.fits(corrected)
    modifies engine, engine.inputs, engine.history, pairs, pairs.slots
    ensures ok <==> k - 1 >= old(engine.oldest)
    ensures engine.inputs[..] == Put(old(engine.inputs[..]), k, corrected)
    ensures ok ==> Paired(engine, pairs, pairsOf) && engine.frame == k - 1
    ensures ok ==> engine.applied == old(engine.applied)[..k - 1] && engine.oldest == old(engine.oldest)
  {
    hide Faithful;
    hide Find;
    hide Put;
    hide Occupied;
    hide Play;
    PairsShape(pairs.Retained(), pairsOf, engine.step, engine.initial, engine.applied);
    ok := engine.SetInput(k, corrected);
    ok := engine.Restore(k - 1);
    if ok {
      PairsFollowCut(pairs.Retained(), pairsOf, engine.step, engine.initial, old(engine.applied), k - 1);
      hide PairsFollow;
      TruncateBoth(engine, pairs, pairsOf, k - 1);
    }
  }

  method Replay<S(0), I(0), P(0)>(engine: Engine<S, I>, pairs: IndexedFrameRing<P>, pairsOf: S -> P, original: seq<I>,
      k: nat, corrected: I) returns (rolledBack: bool)
    requires Paired(engine, pairs, pairsOf) && KeepsNewest(engine.inputs[..], original, |original|)
    requires 1 <= k <= |original| == engine.frame < MAX_FRAME && engine.fits(corrected)
    requires engine.applied == Heard(original, engine.history.Length, engine.blank)
    requires engine.oldest == Later(0, |original| - engine.history.Length + 1)
    modifies engine, engine.inputs, engine.history, pairs, pairs.slots
    ensures rolledBack <==> |original| < k - 1 + engine.history.Length
    ensures rolledBack ==> Paired(engine, pairs, pairsOf)
    ensures rolledBack ==>
      engine.applied == Heard(original[k - 1 := corrected], engine.history.Length, engine.blank)
  {
    hide Faithful;
    hide PairsFollow;
    hide Occupied;
    var n := |original|;
    ghost var (all, capacity) := (original[k - 1 := corrected], engine.history.Length);
    if n < k + capacity {
      KeepsNewestCorrected(engine.inputs[..], original, k, corrected);
    }
    hide KeepsNewest;
    hide Put;
    rolledBack := GoBack(engine, pairs, pairsOf, k, corrected);
    if rolledBack {
      assert engine.applied == Heard(all, capacity, engine.blank)[..k - 1];
      RunFrames(engine, pairs, pairsOf, n);
      EffectiveIsHeard(engine, all, k - 1, Heard(all, capacity, engine.blank));
    }
  }
}
