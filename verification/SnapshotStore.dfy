/**
 The delta store of the snapshot layer: a full state every few frames, patches in between, eviction
 with promotion.  Every operation is stated on the sliding window of the states it can restore.
 */
module SnapshotStore {
  import opened FrameRing
  import opened DeltaLog
  import opened Wrappers

  /** A dirty report: how many bodies it speaks of and which it marks. */
  datatype Dirty = Dirty(count: nat, marked: seq<nat>)

  datatype StoreError = Taken | OutOfOrder | UnstableBodyCount | DirtyMismatch | IndexTooWide

  const MAX_PATCH_INDEX: nat := 0xFFFF_FFFF

  ghost predicate Marks(dirty: Dirty) {
    forall k :: 0 <= k < |dirty.marked| ==> dirty.marked[k] < dirty.count
  }

  /** Of the first k bodies, those that differ. */
  ghost function Differing<B>(previous: seq<B>, bodies: seq<B>, k: nat): (indices: seq<nat>)
    requires k <= |bodies| == |previous|
    ensures forall i :: 0 <= i < |indices| ==> indices[i] < k
    ensures forall j: nat :: j < k ==> (j in indices <==> previous[j] != bodies[j])
  {
    if k == 0 then []
    else Differing(previous, bodies, k - 1) + if previous[k - 1] != bodies[k - 1] then [k - 1] else []
  }

  method FindDiffering<B(==)>(previous: seq<B>, bodies: seq<B>) returns (indices: seq<nat>)
    requires |previous| == |bodies|
    ensures indices == Differing(previous, bodies, |bodies|)
  {
    indices := [];
    for i := 0 to |bodies|
      invariant indices == Differing(previous, bodies, i)
    {
      if bodies[i] != previous[i] {
        indices := indices + [i];
      }
    }
  }

  /** The bodies a capture copies: the reported ones, or all that differ when nothing is reported. */
  ghost function Reported<B>(latest: seq<B>, bodies: seq<B>, dirty: Option<Dirty>): (indices: seq<nat>)
    requires |latest| == |bodies| && (dirty.Some? ==> Marks(dirty.value) && dirty.value.count == |bodies|)
    ensures forall i :: 0 <= i < |indices| ==> indices[i] < |bodies|
  {
    if dirty.Some? then dirty.value.marked else Differing(latest, bodies, |bodies|)
  }

  /** Some index does not fit the 32 bits a patch stores. */
  predicate TooWide(indices: seq<nat>)
    ensures TooWide(indices) <==> exists k :: 0 <= k < |indices| && indices[k] >= 0x1_0000_0000
  {
    exists k :: 0 <= k < |indices| && indices[k] > MAX_PATCH_INDEX
  }

  // ---- the cadence of checkpoints ----

  /** Behind the oldest entry, checkpoints lie exactly on the multiples of the interval. */
  ghost predicate Paced<B>(entries: seq<Entry<B>>, interval: nat)
    requires 0 < interval
  {
    forall i :: 0 < i < |entries| ==> (entries[i].Checkpoint? <==> entries[i].Frame() % interval == 0)
  }

  /** Where a restore of entry i starts. */
  ghost function BaseOf<B>(entries: seq<Entry<B>>, i: nat): (b: nat)
    requires i < |entries|
    ensures b <= i
  {
    if i == 0 || entries[i].Checkpoint? then i else BaseOf(entries, i - 1)
  }

  lemma RemainderSteps(frame: nat, interval: nat)
    requires 0 < interval && 0 < frame
    ensures frame % interval != 0 ==> (frame - 1) % interval == frame % interval - 1
  {
    var (q, r) := (frame / interval, frame % interval);
    if r != 0 {
      assert frame - 1 == q * interval + (r - 1);
      Remainder(q, interval, r - 1, frame - 1);
    }
  }

  /** A restore replays as many deltas as frames have passed since the last multiple of the interval, or since the oldest. */
  lemma {:induction false} RestoreIsShort<B>(entries: seq<Entry<B>>, count: nat, interval: nat, i: nat)
    requires 0 < interval && Log(entries, count) && Paced(entries, interval) && i < |entries|
    ensures i - BaseOf(entries, i) == if entries[i].Frame() % interval < i then entries[i].Frame() % interval else i
  {
    if i > 0 && entries[i].Delta? {
      RestoreIsShort(entries, count, interval, i - 1);
      assert entries[i - 1].Frame() == entries[i].Frame() - 1;
      RemainderSteps(entries[i].Frame(), interval);
    }
  }

  lemma CutKeepsPace<B>(entries: seq<Entry<B>>, interval: nat, k: nat)
    requires 0 < interval && Paced(entries, interval) && k <= |entries|
    ensures Paced(entries[..k], interval)
  {
  }

  lemma EvictionKeepsPace<B>(entries: seq<Entry<B>>, count: nat, interval: nat)
    requires 0 < interval && Log(entries, count) && |entries| >= 2 && Paced(entries, interval)
    ensures Paced(Evicted(entries, count), interval)
  {
    var now := Evicted(entries, count);
    forall i | 0 < i < |now| ensures now[i].Checkpoint? <==> now[i].Frame() % interval == 0 {
      assert now[i] == entries[i + 1];
    }
  }

  class DeltaCheckpointStore<B(==)> {
    const capacity: nat
    const interval: nat
    var entries: seq<Entry<B>>
    var latest: World<B>

    ghost predicate Sound()
      reads this
    {
      0 < capacity && 0 < interval && Log(entries, |latest.bodies|) && Paced(entries, interval)
    }

    /** The state captured last is the one that can be restored last. */
    ghost predicate Current()
      reads this
      requires Sound()
    {
      entries != [] ==> latest == Retained().At(Retained().Last())
    }

    ghost predicate Valid()
      reads this
    {
      Sound() && |entries| <= capacity
    }

    /** The states this store can give back. */
    ghost function Retained(): (w: Window<World<B>>)
      reads this
      requires Sound()
      ensures |w.states| == |entries|
      ensures entries != [] ==> w.first == entries[0].Frame() && w.Last() == entries[|entries| - 1].Frame()
      ensures forall f: nat :: w.Has(f) ==> w.At(f).frame == f && |w.At(f).bodies| == |latest.bodies|
    {
      Shown(entries, |latest.bodies|)
    }

    /** The outcome of a capture, and the state it makes restorable. */
    ghost function Verdict(state: World<B>, dirty: Option<Dirty>): StoreError
      reads this
      requires Sound() && (dirty.Some? ==> Marks(dirty.value))
    {
      if entries == [] then Taken
      else if state.frame != Retained().Last() + 1 then OutOfOrder
      else if |latest.bodies| != |state.bodies| then UnstableBodyCount
      else if dirty.Some? && dirty.value.count != |state.bodies| then DirtyMismatch
      else if state.frame % interval != 0 && TooWide(Reported(latest.bodies, state.bodies, dirty)) then IndexTooWide
      else Taken
    }

    ghost function Recorded(state: World<B>, dirty: Option<Dirty>): World<B>
      reads this
      requires Sound() && (dirty.Some? ==> Marks(dirty.value)) && Verdict(state, dirty).Taken?
    {
      if entries == [] || state.frame % interval == 0 then state
      else
        var w := Retained();
        World(state.frame, Patched(w.At(w.Last()).bodies,
          PatchesFrom(state.bodies, Reported(latest.bodies, state.bodies, dirty))))
    }

    /** A capture can be restored exactly unless a delta was written from a report that misses a change. */
    lemma RecordedIsExactIff(state: World<B>, dirty: Option<Dirty>)
      requires Sound() && entries != [] && (dirty.Some? ==> Marks(dirty.value)) && Verdict(state, dirty).Taken?
      ensures Recorded(state, dirty) == state <==>
        state.frame % interval == 0
        || Covers(Retained().At(Retained().Last()).bodies, state.bodies, Reported(latest.bodies, state.bodies, dirty))
    {
      var w := Retained();
      PatchedIsExactIff(w.At(w.Last()).bodies, state.bodies, Reported(latest.bodies, state.bodies, dirty));
    }

    /** Without a report every change is found: whatever is accepted is recorded as it is. */
    lemma UnreportedIsExact(state: World<B>)
      requires Sound() && Current() && Verdict(state, None).Taken?
      ensures Recorded(state, None) == state
    {
      if entries != [] {
        RecordedIsExactIff(state, None);
      }
    }

    constructor (capacity: nat, interval: nat, blank: World<B>)
      requires 0 < capacity && 0 < interval
      ensures Valid() && entries == [] && this.capacity == capacity && this.interval == interval
    {
      this.capacity, this.interval := capacity, interval;
      entries := [];
      latest := blank;
    }

    /** Null for a zero capacity or a zero interval, which the source refuses. */
    static method Make(capacity: nat, interval: nat, blank: World<B>) returns (store: DeltaCheckpointStore?<B>)
      ensures store == null <==> capacity == 0 || interval == 0
      ensures store != null ==> fresh(store) && store.Valid() && store.entries == []
      ensures store != null ==> store.capacity == capacity && store.interval == interval
    {
      if capacity == 0 || interval == 0 {
        return null;
      }
      store := new DeltaCheckpointStore(capacity, interval, blank);
    }

    predicate Contains(frame: nat)
      reads this
      requires Sound()
      ensures Contains(frame) <==> Retained().Has(frame)
    {
      assert entries != [] ==> entries[|entries| - 1].Frame() == entries[0].Frame() + |entries| - 1;
      entries != [] && entries[0].Frame() <= frame <= entries[|entries| - 1].Frame()
    }

    /** Walks forward from the last checkpoint at or before the frame. */
    method Restore(frame: nat) returns (r: Option<World<B>>)
      requires Sound()
      ensures r == if Retained().Has(frame) then Some(Retained().At(frame)) else None
    {
      if !Contains(frame) {
        return None;
      }
      ghost var count := |latest.bodies|;
      ghost var target := frame - entries[0].Frame();
      var checkpoint := 0;
      var index := 0;
      while index < |entries| && entries[index].Frame() <= frame
        invariant index <= target + 1 && checkpoint <= index && checkpoint < |entries| && checkpoint <= target
        invariant entries[checkpoint].Checkpoint?
        invariant index < |entries| || index == target + 1
        decreases |entries| - index
      {
        if entries[index].Checkpoint? {
          checkpoint := index;
        }
        index := index + 1;
      }
      var restored := entries[checkpoint].state;
      index := checkpoint + 1;
      while index < |entries| && entries[index].Frame() <= frame
        invariant checkpoint < index <= target + 1
        invariant restored == Replay(entries, count, index - 1)
        decreases |entries| - index
      {
        assert EntryFits(entries[index], count);
        match entries[index] {
          case Checkpoint(state) =>
            restored := state;
          case Delta(at, patches) =>
            var bodies := ApplyPatches(restored.bodies, patches);
            restored := World(at, bodies);
        }
        index := index + 1;
      }
      r := Some(restored);
    }

    /** Evicts the oldest entry; a delta that becomes the oldest is promoted to a checkpoint first. */
    method EvictOldest()
      requires Sound() && |entries| >= 2
      modifies this`entries
      ensures Sound() && |entries| == |old(entries)| - 1
      ensures Retained() == Window(old(Retained()).first + 1, old(Retained()).states[1..])
    {
      ghost var count := |latest.bodies|;
      EvictionDropsOldest(entries, count);
      EvictionKeepsPace(entries, count, interval);
      hide Log;
      hide Paced;
      ghost var evicted := Evicted(entries, count);
      if entries[1].Delta? {
        var promoted := Restore(entries[1].Frame());
        entries := entries[1 := Checkpoint(promoted.value)];
      }
      entries := entries[1..];
      assert entries == evicted;
    }

    method EnforceCapacity()
      requires Sound()
      modifies this`entries
      ensures Valid()
      ensures |old(entries)| <= capacity ==> entries == old(entries)
      ensures |old(entries)| == capacity + 1 ==>
        Retained() == Window(old(Retained()).first + 1, old(Retained()).states[1..])
    {
      while |entries| > capacity
        invariant Sound() && (|entries| <= capacity ==> |entries| == capacity || entries == old(entries))
        invariant |entries| <= |old(entries)|
        invariant |entries| == |old(entries)| ==> entries == old(entries)
        invariant |old(entries)| == capacity + 1 && |entries| == capacity ==>
          Retained() == Window(old(Retained()).first + 1, old(Retained()).states[1..])
        decreases |entries|
      {
        hide Log;
        hide Paced;
        hide Shown;
        EvictOldest();
      }
    }

    method Append(entry: Entry<B>)
      requires Valid() && (entry.Checkpoint? <==> entry.Frame() % interval == 0)
      requires Valid() && entries != [] && EntryFits(entry, |latest.bodies|) && entry.Frame() == Retained().Last() + 1
      modifies this`entries
      ensures Valid()
      ensures Retained()
        == old(Retained()).Slide(entry.Frame(), old(Meaning(entries, |latest.bodies|, entry)), capacity)
    {
      AppendExtends(entries, |latest.bodies|, entry);
      entries := entries + [entry];
      EnforceCapacity();
    }

    method Capture(state: World<B>, dirty: Option<Dirty>) returns (e: StoreError)
      requires Valid() && (dirty.Some? ==> Marks(dirty.value))
      modifies this
      ensures Valid()
      ensures e == old(Verdict(state, dirty))
      ensures !e.Taken? ==> entries == old(entries) && latest == old(latest)
      ensures e.Taken? ==> latest == state
      ensures e.Taken? ==> Retained() == old(Retained()).Slide(state.frame, old(Recorded(state, dirty)), capacity)
    {
      ghost var (was, count) := (entries, |latest.bodies|);
      if entries != [] && state.frame != entries[|entries| - 1].Frame() + 1 {
        return OutOfOrder;
      }
      if entries == [] {
        latest := state;
        entries := [Checkpoint(state)];
        assert Retained().states == [state];
        return Taken;
      }
      hide Log;
      hide Shown;
      hide Patched;
      hide Fits;
      if |latest.bodies| != |state.bodies| {
        return UnstableBodyCount;
      }
      var indices: seq<nat>;
      if dirty.Some? {
        if dirty.value.count != |state.bodies| {
          return DirtyMismatch;
        }
        indices := dirty.value.marked;
      } else {
        indices := FindDiffering(latest.bodies, state.bodies);
      }
      var entry: Entry<B>;
      if state.frame % interval == 0 {
        entry := Checkpoint(state);
      } else {
        if TooWide(indices) {
          return IndexTooWide;
        }
        entry := Delta(state.frame, PatchesFrom(state.bodies, indices));
      }
      assert Meaning(entries, count, entry) == Recorded(state, dirty);
      latest := state;
      Append(entry);
      e := Taken;
    }

    /** Forgets every frame after the given one; the comparison base becomes what is still restorable. */
    method TruncateAfter(frame: nat)
      requires Valid()
      modifies this
      ensures Valid() && |latest.bodies| == old(|latest.bodies|)
      ensures old(Retained()).Has(frame) ==> Retained() == old(Retained()).Cut(frame)
      ensures old(entries) != [] && frame < old(Retained()).first ==> entries == []
      ensures old(entries) != [] && frame > old(Retained()).Last() ==> Retained() == old(Retained())
      ensures Current()
      ensures entries == [] ==> latest == old(latest)
    {
      ghost var (was, count) := (entries, |latest.bodies|);
      while entries != [] && entries[|entries| - 1].Frame() > frame
        invariant |entries| <= |was| && entries == was[..|entries|] && latest == old(latest)
        invariant |entries| < |was| ==> was[|entries|].Frame() > frame
        decreases |entries|
      {
        entries := entries[..|entries| - 1];
      }
      if entries != [] {
        CutKeepsReplay(was, count, |entries|);
        CutKeepsPace(was, interval, |entries|);
        hide Paced;
        hide Log;
        var kept := Restore(entries[|entries| - 1].Frame());
        latest := kept.value;
      }
    }
  }

  // ---- the model-based fuzz run ----

  /** One operation: what the random numbers decide, and whether the capture comes with a report. */
  datatype Draw<B> = Draw(truncate: bool, keep: nat, changes: seq<Patch<B>>, report: bool, probe: nat)

  function Marked<B>(changes: seq<Patch<B>>): seq<nat> {
    seq(|changes|, k requires 0 <= k < |changes| => changes[k].index)
  }

  /** Mutating bodies and marking each of them gives a report that misses nothing. */
  lemma {:induction false} MutationIsCovered<B>(bodies: seq<B>, changes: seq<Patch<B>>)
    requires Fits(|bodies|, changes)
    ensures Covers(bodies, Patched(bodies, changes), Marked(changes))
  {
    if changes != [] {
      var (before, last) := (changes[..|changes| - 1], changes[|changes| - 1]);
      MutationIsCovered(bodies, before);
      forall j: nat | j < |bodies| && j !in Marked(changes) ensures Patched(bodies, changes)[j] == bodies[j] {
        assert j !in Marked(before) by {
          assert Marked(before) == Marked(changes)[..|before|];
        }
        assert j != last.index by {
          assert Marked(changes)[|before|] == last.index;
        }
      }
    }
  }

  /** Captured with a report that misses nothing, a state is restored as it was. */
  lemma CoveredIsRecorded<B>(store: DeltaCheckpointStore<B>, state: World<B>, dirty: Dirty)
    requires store.Sound() && store.entries != [] && Marks(dirty)
    requires state.frame == store.Retained().Last() + 1 && |state.bodies| == |store.latest.bodies| == dirty.count
    requires dirty.count <= 0x1_0000_0000
    requires Covers(store.Retained().At(store.Retained().Last()).bodies, state.bodies, dirty.marked)
    ensures store.Verdict(state, Some(dirty)).Taken? && store.Recorded(state, Some(dirty)) == state
  {
    store.RecordedIsExactIff(state, Some(dirty));
  }

  /** The vector model holds exactly what the store can restore, and is never empty. */
  ghost predicate Mirrors<B>(store: DeltaCheckpointStore<B>, history: seq<World<B>>, count: nat)
    reads store
  {
    store.Valid() && history != [] && store.Retained().states == history && |store.latest.bodies| == count
    && store.Current()
  }

  /** Without a report an accepted state is restored as it was, too. */
  lemma UnreportedIsRecorded<B>(store: DeltaCheckpointStore<B>, state: World<B>)
    requires store.Sound() && store.entries != [] && store.Current()
    requires state.frame == store.Retained().Last() + 1 && |state.bodies| == |store.latest.bodies| <= 0x1_0000_0000
    ensures store.Verdict(state, None).Taken? && store.Recorded(state, None) == state
  {
    store.UnreportedIsExact(state);
  }

  method FuzzTruncate<B(==)>(store: DeltaCheckpointStore<B>, history: seq<World<B>>, keep: nat, ghost count: nat)
    returns (kept: seq<World<B>>)
    requires Mirrors(store, history, count) && keep < |history|
    modifies store
    ensures Mirrors(store, kept, count)
    ensures kept == history[..keep + 1]
  {
    ghost var w := store.Retained();
    assert history[keep] == w.At(w.first + keep);
    store.TruncateAfter(history[keep].frame);
    kept := history[..keep + 1];
  }

  method FuzzCapture<B(==)>(store: DeltaCheckpointStore<B>, history: seq<World<B>>, changes: seq<Patch<B>>,
      report: bool, ghost count: nat)
    returns (now: seq<World<B>>)
    requires Mirrors(store, history, count) && Fits(count, changes) && count <= 0x1_0000_0000
    modifies store
    ensures Mirrors(store, now, count)
  {
    hide Log;
    hide Shown;
    var current := history[|history| - 1];
    ghost var w := store.Retained();
    assert current == w.At(w.Last());
    var bodies := ApplyPatches(current.bodies, changes);
    MutationIsCovered(current.bodies, changes);
    var dirty := Dirty(|bodies|, Marked(changes));
    current := World(current.frame + 1, bodies);
    CoveredIsRecorded(store, current, dirty);
    UnreportedIsRecorded(store, current);
    var e := store.Capture(current, if report then Some(dirty) else None);
    now := history + [current];
    if |now| > store.capacity {
      now := now[1..];
    }
  }

  method FuzzProbe<B(==)>(store: DeltaCheckpointStore<B>, history: seq<World<B>>, probe: nat, ghost count: nat)
    returns (agrees: bool)
    requires Mirrors(store, history, count)
    ensures agrees
  {
    var expected := history[probe % |history|];
    assert expected == store.Retained().At(store.Retained().first + probe % |history|);
    var restored := store.Restore(expected.frame);
    agrees := restored == Some(expected);
  }

  /**
   The fuzz run against the delta store, for every sequence of draws: the vector model and the
   store never disagree, whatever is mutated, truncated and probed.
   */
  method RunConfig<B(==)>(capacity: nat, interval: nat, initial: World<B>, draws: seq<Draw<B>>) returns (mismatch: bool)
    requires 0 < capacity && 0 < interval && |initial.bodies| <= 0x1_0000_0000
    requires forall i :: 0 <= i < |draws| ==> Fits(|initial.bodies|, draws[i].changes)
    ensures !mismatch
  {
    hide Log;
    hide Shown;
    ghost var count := |initial.bodies|;
    var store := new DeltaCheckpointStore(capacity, interval, initial);
    assert store.Retained().states == [];
    var e := store.Capture(initial, Some(Dirty(|initial.bodies|, seq(|initial.bodies|, i => i))));
    var history := [initial];
    mismatch := false;
    for i := 0 to |draws|
      invariant fresh(store) && Mirrors(store, history, count) && !mismatch
    {
      if |history| > 4 && draws[i].truncate {
        history := FuzzTruncate(store, history, draws[i].keep % (|history| - 1), count);
      } else {
        history := FuzzCapture(store, history, draws[i].changes, draws[i].report, count);
      }
      var agrees := FuzzProbe(store, history, draws[i].probe, count);
      mismatch := mismatch || !agrees;
    }
  }
}
