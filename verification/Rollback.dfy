/**
 Rollback by restore, truncate and resimulate.  The step function is left open: any deterministic
 step whose dirty report misses nothing.  The specification is a clean run over an input log, and
 every operation is stated by what it does to that log.
 */
module Rollback {
  import opened FrameRing
  import opened DeltaLog
  import opened SnapshotStore
  import opened Wrappers

  type Stepper<!B, !C> = (World<B>, seq<C>) -> (World<B>, Dirty)

  /** The step advances one frame, keeps the bodies and reports every change. */
  ghost predicate Honest<B(!new), C(!new)>(step: Stepper<B, C>) {
    forall w, commands :: HonestAt(step, w, commands)
  }

  ghost predicate HonestAt<B, C>(step: Stepper<B, C>, w: World<B>, commands: seq<C>) {
    var (next, dirty) := step(w, commands);
    && next.frame == w.frame + 1 && |next.bodies| == |w.bodies|
    && Marks(dirty) && dirty.count == |next.bodies| && Covers(w.bodies, next.bodies, dirty.marked)
  }

  /** A run without rollback over a log of command lists. */
  ghost function Clean<B(!new), C(!new)>(step: Stepper<B, C>, initial: World<B>, log: seq<seq<C>>): (w: World<B>)
    requires Honest(step)
    ensures w.frame == initial.frame + |log| && |w.bodies| == |initial.bodies|
  {
    if log == [] then initial
    else
      var before := Clean(step, initial, log[..|log| - 1]);
      assert HonestAt(step, before, log[|log| - 1]);
      step(before, log[|log| - 1]).0
  }

  /** The window ends at the log's state and shows the clean run at every retained frame. */
  ghost predicate Tracks<B(!new), C(!new)>(step: Stepper<B, C>, initial: World<B>, log: seq<seq<C>>,
      w: Window<World<B>>)
    requires Honest(step)
  {
    && w.states != [] && initial.frame <= w.first && w.Last() == initial.frame + |log|
    && forall f: nat :: w.Has(f) ==> w.At(f) == Clean(step, initial, log[..f - initial.frame])
  }

  lemma TracksLast<B(!new), C(!new)>(step: Stepper<B, C>, initial: World<B>, log: seq<seq<C>>, w: Window<World<B>>)
    requires Honest(step) && Tracks(step, initial, log, w)
    ensures w.At(w.Last()) == Clean(step, initial, log)
  {
    assert log[..|log|] == log;
  }

  lemma TracksStep<B(!new), C(!new)>(step: Stepper<B, C>, initial: World<B>, log: seq<seq<C>>, w: Window<World<B>>,
      commands: seq<C>, capacity: nat)
    requires Honest(step) && Tracks(step, initial, log, w) && |w.states| <= capacity
    ensures var next := Clean(step, initial, log + [commands]);
      next == step(Clean(step, initial, log), commands).0
      && Tracks(step, initial, log + [commands], w.Slide(next.frame, next, capacity))
  {
    var longer := log + [commands];
    assert longer[..|log|] == log && longer[..|longer|] == longer;
    var next := Clean(step, initial, longer);
    var slid := w.Slide(next.frame, next, capacity);
    forall f: nat | slid.Has(f) ensures slid.At(f) == Clean(step, initial, longer[..f - initial.frame]) {
      if f < next.frame {
        assert w.Has(f) && slid.At(f) == w.At(f);
        assert longer[..f - initial.frame] == log[..f - initial.frame];
      }
    }
  }

  lemma TracksCut<B(!new), C(!new)>(step: Stepper<B, C>, initial: World<B>, log: seq<seq<C>>, w: Window<World<B>>,
      frame: nat)
    requires Honest(step) && Tracks(step, initial, log, w) && w.Has(frame)
    ensures Tracks(step, initial, log[..frame - initial.frame], w.Cut(frame))
  {
    var (shorter, cut) := (log[..frame - initial.frame], w.Cut(frame));
    forall f: nat | cut.Has(f) ensures cut.At(f) == Clean(step, initial, shorter[..f - initial.frame]) {
      assert w.Has(f) && shorter[..f - initial.frame] == log[..f - initial.frame];
    }
  }

  /** The kept commands are exactly those of the retained frames before the current one. */
  ghost predicate Remembers<C>(inputs: map<nat, seq<C>>, log: seq<seq<C>>, start: nat, first: nat) {
    && start <= first <= start + |log|
    && (forall f: nat :: f in inputs <==> first <= f < start + |log|)
    && (forall f: nat :: f in inputs ==> inputs[f] == log[f - start])
  }

  lemma RemembersNext<C>(inputs: map<nat, seq<C>>, log: seq<seq<C>>, start: nat, first: nat, commands: seq<C>)
    requires Remembers(inputs, log, start, first)
    ensures Remembers(inputs[start + |log| := commands], log + [commands], start, first)
  {
  }

  function Earlier<C>(inputs: map<nat, seq<C>>, frame: nat): map<nat, seq<C>> {
    map f | f in inputs && f < frame :: inputs[f]
  }

  lemma RemembersCut<C>(inputs: map<nat, seq<C>>, log: seq<seq<C>>, start: nat, first: nat, frame: nat)
    requires Remembers(inputs, log, start, first) && first <= frame <= start + |log|
    ensures Remembers(Earlier(inputs, frame), log[..frame - start], start, first)
  {
  }

  lemma RemembersCorrected<C>(inputs: map<nat, seq<C>>, log: seq<seq<C>>, start: nat, first: nat, frame: nat,
      commands: seq<C>)
    requires Remembers(inputs, log, start, first) && first <= frame < start + |log|
    ensures Remembers(inputs[frame := commands], log[frame - start := commands], start, first)
  {
  }

  lemma {:induction false} LeastExists(keys: set<nat>, k: nat)
    requires k in keys
    ensures exists least: nat :: least in keys && forall j: nat :: j in keys ==> least <= j
  {
    if smaller: nat :| smaller in keys && smaller < k {
      LeastExists(keys, smaller);
    }
  }

  lemma Recalled<C>(inputs: map<nat, seq<C>>, log: seq<seq<C>>, start: nat, first: nat, frame: nat)
    requires Remembers(inputs, log, start, first) && first <= frame < start + |log|
    ensures frame in inputs && inputs[frame] == log[frame - start]
  {
  }

  lemma OldestIsFirst<C>(inputs: map<nat, seq<C>>, log: seq<seq<C>>, start: nat, first: nat, oldest: nat)
    requires Remembers(inputs, log, start, first)
    requires oldest in inputs && forall j: nat :: j in inputs ==> oldest <= j
    ensures oldest == first < start + |log| && Remembers(inputs - {oldest}, log, start, first + 1)
  {
    assert first in inputs;
  }

  lemma NothingRemembered<C>(inputs: map<nat, seq<C>>, log: seq<seq<C>>, start: nat, first: nat)
    requires Remembers(inputs, log, start, first) && |inputs| == 0
    ensures first == start + |log|
  {
    assert first !in inputs;
  }

  /** Commands of frames that left the window are dropped from the oldest on. */
  method Prune<B(==), C>(store: DeltaCheckpointStore<B>, inputs: map<nat, seq<C>>, ghost log: seq<seq<C>>,
      ghost start: nat,
      ghost low: nat) returns (kept: map<nat, seq<C>>)
    requires store.Valid() && store.entries != [] && store.Retained().Last() == start + |log|
    requires Remembers(inputs, log, start, low) && low <= store.Retained().first
    ensures Remembers(kept, log, start, store.Retained().first)
  {
    kept := inputs;
    ghost var at: nat := low;
    ghost var w := store.Retained();
    hide Remembers;
    hide Shown;
    hide Log;
    while |kept| > 0
      invariant Remembers(kept, log, start, at) && at <= w.first
      decreases |kept|
    {
      var keys := set f: nat | f in kept;
      assert keys == kept.Keys;
      var some: nat :| some in keys;
      LeastExists(keys, some);
      var oldest: nat :| oldest in keys && forall j: nat :: j in keys ==> oldest <= j;
      OldestIsFirst(kept, log, start, at, oldest);
      if store.Contains(oldest) {
        return;
      }
      kept := kept - {oldest};
      at := at + 1;
    }
    NothingRemembered(kept, log, start, at);
  }

  datatype Correction = Done(resimulated: nat) | NotInThePast | SnapshotLost

  class RollbackEngine<B(==,!new), C(!new)> {
    const step: Stepper<B, C>
    const snapshots: DeltaCheckpointStore<B>
    var current: World<B>
    var inputs: map<nat, seq<C>>
    ghost const initial: World<B>
    ghost var log: seq<seq<C>>

    /** The engine stands where the clean run over its log stands, and so does every retained snapshot. */
    ghost predicate Valid()
      reads this, snapshots
    {
      && Honest(step) && snapshots.Valid() && snapshots.entries != []
      && |snapshots.latest.bodies| == |initial.bodies| <= 0x1_0000_0000
      && current == Clean(step, initial, log)
      && Tracks(step, initial, log, snapshots.Retained())
      && Remembers(inputs, log, initial.frame, snapshots.Retained().first)
    }

    constructor (initial: World<B>, step: Stepper<B, C>, capacity: nat, interval: nat)
      requires Honest(step) && 0 < capacity && 0 < interval && |initial.bodies| <= 0x1_0000_0000
      ensures Valid() && fresh(snapshots) && snapshots.capacity == capacity
      ensures this.initial == initial && this.step == step && log == [] && current == initial
      ensures snapshots.Retained() == Window(initial.frame, [initial])
    {
      this.step, this.initial, this.log := step, initial, [];
      current := initial;
      inputs := map[];
      snapshots := new DeltaCheckpointStore(capacity, interval, initial);
      new;
      assert snapshots.Retained().states == [];
      var e := snapshots.Capture(initial, Some(Dirty(|initial.bodies|, seq(|initial.bodies|, i => i))));
    }

    /** One more frame: the log grows by the commands. */
    method Advance(commands: seq<C>)
      requires Valid()
      modifies this, snapshots
      ensures Valid()
      ensures log == old(log) + [commands]
      ensures snapshots.Retained() == old(snapshots.Retained()).Slide(current.frame, current, snapshots.capacity)
    {
      hide Log;
      hide Shown;
      hide Tracks;
      hide Remembers;
      ghost var (before, low) := (log, snapshots.Retained().first);
      RemembersNext(inputs, log, initial.frame, low, commands);
      assert current.frame == initial.frame + |log|;
      inputs := inputs[current.frame := commands];
      var next := StepAndCapture(snapshots, step, initial, before, commands, current);
      current := next;
      log := before + [commands];
      var kept := Prune(snapshots, inputs, log, initial.frame, low);
      inputs := kept;
    }

    /** Go back to a retained frame: the log is cut there. */
    method RestoreCheckpoint(frame: nat) returns (ok: bool)
      requires Valid()
      modifies this, snapshots
      ensures Valid()
      ensures ok <==> old(snapshots.Retained()).Has(frame)
      ensures ok ==> log == old(log)[..frame - initial.frame] && current == old(snapshots.Retained()).At(frame)
      ensures ok ==> snapshots.Retained() == old(snapshots.Retained()).Cut(frame)
      ensures !ok ==> log == old(log) && snapshots.Retained() == old(snapshots.Retained())
    {
      hide Log;
      hide Shown;
      hide Clean;
      hide Remembers;
      if !snapshots.Contains(frame) {
        return false;
      }
      TracksCut(step, initial, log, snapshots.Retained(), frame);
      RemembersCut(inputs, log, initial.frame, snapshots.Retained().first, frame);
      TracksLast(step, initial, log[..frame - initial.frame], snapshots.Retained().Cut(frame));
      hide Tracks;
      hide Earlier;
      hide Honest;
      var restored := snapshots.Restore(frame);
      current := restored.value;
      snapshots.TruncateAfter(frame);
      inputs := Earlier(inputs, frame);
      log := log[..frame - initial.frame];
      ok := true;
    }

    /**
     Replace the commands of a past frame and run again to the present: the log differs in that one
     entry, so state and snapshots are those of a clean run that had the correction from the start.
     */
    method CorrectInputAndResimulate(frame: nat, corrected: seq<C>) returns (r: Correction)
      requires Valid()
      modifies this, snapshots
      ensures Valid() && current.frame == old(current.frame)
      ensures r.NotInThePast? <==> frame >= old(current.frame)
      ensures r.SnapshotLost? <==> frame < old(snapshots.Retained()).first
      ensures !r.Done? ==> log == old(log) && snapshots.Retained() == old(snapshots.Retained())
      ensures r.Done? ==> r.resimulated == current.frame - frame
      ensures r.Done? ==> log == old(log)[frame - initial.frame := corrected]
      ensures r.Done? ==> snapshots.Retained().first == old(snapshots.Retained()).first
    {
      hide Log;
      hide Shown;
      hide Clean;
      hide Remembers;
      var target := current.frame;
      if frame >= target {
        return NotInThePast;
      }
      if !snapshots.Contains(frame) {
        return SnapshotLost;
      }
      ghost var (start, w) := (initial.frame, snapshots.Retained());
      ghost var replaced := log[frame - start := corrected];
      RemembersCorrected(inputs, log, start, w.first, frame, corrected);
      TracksCut(step, initial, log, w, frame);
      TracksLast(step, initial, log[..frame - start], w.Cut(frame));
      hide Tracks;
      assert log[..frame - start] == replaced[..frame - start];
      var restored := snapshots.Restore(frame);
      inputs := inputs[frame := corrected];
      snapshots.TruncateAfter(frame);
      var state, resimulated := Resimulate(snapshots, step, initial, replaced, inputs, restored.value, target);
      current := state;
      log := replaced;
      r := Done(resimulated);
    }
  }

  /** Runs from a restored state to the target with the remembered commands. */
  method Resimulate<B(==,!new), C(!new)>(store: DeltaCheckpointStore<B>, step: Stepper<B, C>, ghost initial: World<B>,
      ghost log: seq<seq<C>>, inputs: map<nat, seq<C>>, restored: World<B>, target: nat)
    returns (state: World<B>, resimulated: nat)
    requires Honest(step) && store.Valid() && store.entries != []
    requires |store.latest.bodies| == |initial.bodies| <= 0x1_0000_0000
    requires initial.frame <= restored.frame <= target == initial.frame + |log|
    requires restored == Clean(step, initial, log[..restored.frame - initial.frame])
    requires Tracks(step, initial, log[..restored.frame - initial.frame], store.Retained())
    requires target < store.Retained().first + store.capacity
    requires Remembers(inputs, log, initial.frame, store.Retained().first)
    modifies store
    ensures store.Valid() && store.entries != [] && |store.latest.bodies| == |initial.bodies|
    ensures state == Clean(step, initial, log) && Tracks(step, initial, log, store.Retained())
    ensures resimulated == target - restored.frame
    ensures store.Retained().first == old(store.Retained()).first
  {
    hide Log;
    hide Shown;
    hide Honest;
    hide Remembers;
    hide Clean;
    ghost var (start, first) := (initial.frame, store.Retained().first);
    state, resimulated := restored, 0;
    while state.frame < target
      invariant restored.frame <= state.frame <= target && resimulated == state.frame - restored.frame
      invariant store.Valid() && store.entries != [] && |store.latest.bodies| == |initial.bodies|
      invariant state == Clean(step, initial, log[..state.frame - start])
      invariant Tracks(step, initial, log[..state.frame - start], store.Retained())
      invariant store.Retained().first == first
      decreases target - state.frame
    {
      Recalled(inputs, log, start, first, state.frame);
      var commands := if state.frame in inputs then inputs[state.frame] else [];
      ghost var done := log[..state.frame - start];
      assert log[..state.frame + 1 - start] == done + [commands];
      state := StepAndCapture(store, step, initial, done, commands, state);
      resimulated := resimulated + 1;
    }
    assert log[..target - start] == log;
  }

  /** A step from the window's last state is captured exactly, so the window follows the log. */
  method StepAndCapture<B(==,!new), C(!new)>(store: DeltaCheckpointStore<B>, step: Stepper<B, C>,
      ghost initial: World<B>,
      ghost log: seq<seq<C>>, commands: seq<C>, state: World<B>) returns (next: World<B>)
    requires Honest(step) && store.Valid() && store.entries != []
    requires |store.latest.bodies| == |initial.bodies| <= 0x1_0000_0000
    requires Tracks(step, initial, log, store.Retained()) && state == Clean(step, initial, log)
    modifies store
    ensures store.Valid() && store.entries != [] && |store.latest.bodies| == |initial.bodies|
    ensures next == Clean(step, initial, log + [commands]) && Tracks(step, initial, log + [commands], store.Retained())
    ensures store.Retained() == old(store.Retained()).Slide(next.frame, next, store.capacity)
  {
    assert HonestAt(step, state, commands);
    TracksLast(step, initial, log, store.Retained());
    TracksStep(step, initial, log, store.Retained(), commands, store.capacity);
    var (after, dirty) := step(state, commands);
    CoveredIsRecorded(store, after, dirty);
    var e := store.Capture(after, Some(dirty));
    next := after;
  }
}
