/**
 The persistent checkpoint history: the same log as the delta store, with a checkpoint policy and a
 bound on delta runs.  Besides restoring what was captured, no restore ever replays more than the
 configured number of deltas, through every capture, eviction and truncation.
 */
module PersistentCheckpoint {
  import opened FrameRing
  import opened DeltaLog
  import opened SnapshotStore
  import opened Wrappers

  datatype Policy = Fixed | Geometric | Adaptive

  datatype Config = Config(capacity: nat, maxDepth: nat, policy: Policy, densityPpm: nat)

  const MILLION: nat := 1_000_000

  predicate Accepted(config: Config) {
    0 < config.capacity && 0 < config.maxDepth && config.densityPpm <= MILLION
  }

  predicate SingleBit(n: nat) {
    n == 1 || (n > 1 && n % 2 == 0 && SingleBit(n / 2))
  }

  function TwoTo(k: nat): nat {
    if k == 0 then 1 else 2 * TwoTo(k - 1)
  }

  /** One bit is set exactly in the powers of two. */
  lemma {:induction false} SingleBitIsPower(n: nat)
    ensures SingleBit(n) <==> exists k :: TwoTo(k) == n
  {
    if n > 1 && n % 2 == 0 {
      SingleBitIsPower(n / 2);
      if SingleBit(n) {
        var k: nat :| TwoTo(k) == n / 2;
        assert TwoTo(k + 1) == n;
      }
      if k: nat :| TwoTo(k) == n {
        assert TwoTo(k - 1) == n / 2;
      }
    } else if n == 1 {
      assert TwoTo(0) == 1;
    } else if k: nat :| TwoTo(k) == n {
      PowersAreEven(k);
    }
  }

  lemma PowersAreEven(k: nat)
    ensures TwoTo(k) >= 1 && (k > 0 ==> TwoTo(k) % 2 == 0 && TwoTo(k) > 1)
  {
    if k > 0 {
      PowersAreEven(k - 1);
    }
  }

  lemma QuotientReaches(a: nat, n: nat, d: nat)
    requires n > 0
    ensures a / n >= d <==> a >= d * n
  {
    var q := a / n;
    assert q * n <= a < q * n + n;
    if q >= d {
      assert q * n >= d * n;
    } else {
      assert (q + 1) * n <= d * n;
    }
  }

  /** Deltas a restore of entry i replays. */
  ghost function RunLength<B>(entries: seq<Entry<B>>, i: nat): (n: nat)
    requires i < |entries|
    ensures n <= i + 1
  {
    if entries[i].Checkpoint? then 0 else if i == 0 then 1 else 1 + RunLength(entries, i - 1)
  }

  ghost predicate RunsWithin<B>(entries: seq<Entry<B>>, bound: nat) {
    forall i :: 0 <= i < |entries| ==> RunLength(entries, i) <= bound
  }

  lemma {:induction false} SamePrefixSameRun<B>(entries: seq<Entry<B>>, other: seq<Entry<B>>, i: nat)
    requires i < |entries| && i < |other| && forall j :: 0 <= j <= i ==> entries[j] == other[j]
    ensures RunLength(entries, i) == RunLength(other, i)
  {
    if entries[i].Delta? && i > 0 {
      SamePrefixSameRun(entries, other, i - 1);
    }
  }

  lemma CutKeepsRuns<B>(entries: seq<Entry<B>>, k: nat, bound: nat)
    requires RunsWithin(entries, bound) && 0 < k <= |entries|
    ensures RunsWithin(entries[..k], bound)
    ensures RunLength(entries[..k], k - 1) == RunLength(entries, k - 1)
  {
    hide RunLength;
    forall i: nat | i < k ensures RunLength(entries[..k], i) == RunLength(entries, i) {
      SamePrefixSameRun(entries[..k], entries, i);
    }
  }

  lemma {:induction false} EvictionShortensRuns<B>(entries: seq<Entry<B>>, count: nat, i: nat)
    requires Log(entries, count) && 1 <= i < |entries|
    ensures RunLength(Evicted(entries, count), i - 1) <= RunLength(entries, i)
  {
    if i > 1 && entries[i].Delta? {
      EvictionShortensRuns(entries, count, i - 1);
    }
  }

  lemma EvictionKeepsRuns<B>(entries: seq<Entry<B>>, count: nat, bound: nat)
    requires Log(entries, count) && |entries| >= 2 && RunsWithin(entries, bound)
    ensures RunsWithin(Evicted(entries, count), bound)
    ensures RunLength(Evicted(entries, count), |entries| - 2) <= RunLength(entries, |entries| - 1)
  {
    hide RunLength;
    forall i: nat | i < |entries| - 1 ensures RunLength(Evicted(entries, count), i) <= RunLength(entries, i + 1) {
      EvictionShortensRuns(entries, count, i + 1);
    }
  }

  lemma AppendedRun<B>(entries: seq<Entry<B>>, e: Entry<B>, bound: nat)
    requires RunsWithin(entries, bound)
    requires e.Delta? ==> entries != [] && RunLength(entries, |entries| - 1) < bound
    ensures RunsWithin(entries + [e], bound)
    ensures RunLength(entries + [e], |entries|) == if e.Checkpoint? then 0 else 1 + RunLength(entries, |entries| - 1)
  {
    var now := entries + [e];
    forall i: nat | i < |entries| ensures RunLength(now, i) == RunLength(entries, i) {
      SamePrefixSameRun(now, entries, i);
    }
  }

  class PersistentCheckpointHistory<B> {
    const config: Config
    var entries: seq<Entry<B>>
    var deltaDepth: nat
    ghost const count: nat

    /** The depth counter never undercounts the run it guards, so every run stays within the bound. */
    ghost predicate Sound()
      reads this
    {
      && Accepted(config) && Log(entries, count) && RunsWithin(entries, config.maxDepth)
      && deltaDepth <= config.maxDepth
      && (entries != [] ==> RunLength(entries, |entries| - 1) <= deltaDepth)
    }

    ghost predicate Valid()
      reads this
    {
      Sound() && |entries| <= config.capacity
    }

    ghost function Retained(): (w: Window<World<B>>)
      reads this
      requires Sound()
      ensures |w.states| == |entries|
      ensures entries != [] ==> w.first == entries[0].Frame() && w.Last() == entries[|entries| - 1].Frame()
      ensures forall f: nat :: w.Has(f) ==> w.At(f).frame == f && |w.At(f).bodies| == count
    {
      Shown(entries, count)
    }

    constructor (config: Config, ghost bodies: nat)
      requires Accepted(config)
      ensures Valid() && entries == [] && this.config == config && this.count == bodies
    {
      this.config := config;
      entries, deltaDepth, count := [], 0, bodies;
    }

    /** Null for a zero capacity, a zero depth or a density beyond a million parts, which the source refuses. */
    static method Make(config: Config, ghost bodies: nat) returns (history: PersistentCheckpointHistory?<B>)
      ensures history == null <==> config.capacity == 0 || config.maxDepth == 0 || config.densityPpm > 1_000_000
      ensures history != null ==> fresh(history) && history.Valid() && history.config == config
      ensures history != null ==> history.entries == [] && history.count == bodies
    {
      if !Accepted(config) {
        return null;
      }
      history := new PersistentCheckpointHistory(config, bodies);
    }

    predicate ShouldCheckpoint(state: World<B>, dirty: Dirty)
      reads this
      requires Accepted(config)
    {
      if entries == [] || deltaDepth >= config.maxDepth then true
      else
        match config.policy
        case Fixed => state.frame % config.maxDepth == 0
        case Geometric => SingleBit(state.frame) || state.frame % config.maxDepth == 0
        case Adaptive =>
          (if |state.bodies| == 0 then 0 else |dirty.marked| * MILLION / |state.bodies|) >= config.densityPpm
    }

    /**
     When a capture is a full state: first of all, after as many deltas as allowed, and as the policy says, on
     multiples of the depth, on these and the powers of two, or when so many millionths of the bodies changed.
     */
    lemma CheckpointIff(state: World<B>, dirty: Dirty)
      requires Accepted(config)
      ensures ShouldCheckpoint(state, dirty) <==>
        || entries == [] || deltaDepth >= config.maxDepth
        || (config.policy == Fixed && state.frame % config.maxDepth == 0)
        || (config.policy == Geometric && (state.frame % config.maxDepth == 0 || exists k :: TwoTo(k) == state.frame))
        || (config.policy == Adaptive && if state.bodies == [] then config.densityPpm == 0
            else |dirty.marked| * 1_000_000 >= config.densityPpm * |state.bodies|)
    {
      SingleBitIsPower(state.frame);
      hide SingleBit;
      if state.bodies != [] {
        QuotientReaches(|dirty.marked| * 1_000_000, |state.bodies|, config.densityPpm);
      }
    }

    /** The open delta run after a capture. */
    ghost function DepthAfter(state: World<B>, dirty: Dirty): nat
      reads this
      requires Accepted(config)
    {
      if ShouldCheckpoint(state, dirty) then 0 else deltaDepth + 1
    }

    /** Under the fixed policy the open run counts the frames since the last multiple of the depth, once it does. */
    lemma FixedCadence(state: World<B>, dirty: Dirty)
      requires Sound() && config.policy == Fixed && entries != [] && state.frame == Retained().Last() + 1
      requires deltaDepth == Retained().Last() % config.maxDepth
      ensures DepthAfter(state, dirty) == state.frame % config.maxDepth
    {
      RemainderSteps(state.frame, config.maxDepth);
    }

    /** The entry of a frame, if it is retained. */
    method EntryIndex(frame: nat) returns (target: nat)
      requires Sound()
      ensures target <= |entries| && (target < |entries| <==> Retained().Has(frame))
      ensures target < |entries| ==> entries[target].Frame() == frame == entries[0].Frame() + target
    {
      if Retained().Has(frame) {
        assert entries[frame - entries[0].Frame()].Frame() == frame;
      }
      target := 0;
      while target < |entries| && entries[target].Frame() != frame
        invariant target <= |entries| && forall i :: 0 <= i < target ==> entries[i].Frame() != frame
      {
        target := target + 1;
      }
    }

    /** Replays the deltas of an entry's run, however long that is. */
    method Restore(frame: nat) returns (r: Option<World<B>>, deltas: nat)
      requires Sound()
      ensures r == if Retained().Has(frame) then Some(Retained().At(frame)) else None
      ensures Retained().Has(frame) ==> deltas == RunLength(entries, frame - entries[0].Frame())
      ensures deltas <= config.maxDepth
    {
      var target := EntryIndex(frame);
      if target == |entries| {
        return None, 0;
      }
      var state;
      state, deltas := ReplayTo(target);
      r := Some(state);
    }

    method ReplayTo(target: nat) returns (state: World<B>, deltas: nat)
      requires Log(entries, count) && target < |entries|
      ensures state == Replay(entries, count, target) && deltas == RunLength(entries, target)
    {
      var checkpoint: nat := target;
      while checkpoint > 0 && entries[checkpoint].Delta?
        invariant checkpoint <= target
        invariant RunLength(entries, target) == target - checkpoint + RunLength(entries, checkpoint)
        invariant forall i :: checkpoint < i <= target ==> entries[i].Delta?
      {
        checkpoint := checkpoint - 1;
      }
      assert entries[checkpoint].Checkpoint?;
      state := entries[checkpoint].state;
      deltas := 0;
      for index := checkpoint + 1 to target + 1
        invariant state == Replay(entries, count, index - 1) && deltas == index - 1 - checkpoint
      {
        assert EntryFits(entries[index], count);
        match entries[index] {
          case Checkpoint(full) =>
            state := full;
          case Delta(at, patches) =>
            var bodies := ApplyPatches(state.bodies, patches);
            state := World(at, bodies);
            deltas := deltas + 1;
        }
      }
    }

    method EvictOldest()
      requires Sound() && |entries| >= 2
      modifies this`entries
      ensures Sound() && |entries| == |old(entries)| - 1
      ensures Retained() == Window(old(Retained()).first + 1, old(Retained()).states[1..])
    {
      EvictionDropsOldest(entries, count);
      EvictionKeepsRuns(entries, count, config.maxDepth);
      hide Log;
      hide RunLength;
      ghost var evicted := Evicted(entries, count);
      if entries[1].Delta? {
        var promoted, _ := Restore(entries[1].Frame());
        entries := entries[1 := Checkpoint(promoted.value)];
      }
      entries := entries[1..];
      assert entries == evicted;
    }

    method EnforceCapacity()
      requires Sound() && |entries| <= config.capacity + 1
      modifies this`entries
      ensures Valid()
      ensures |old(entries)| <= config.capacity ==> entries == old(entries)
      ensures |old(entries)| == config.capacity + 1 ==>
        Retained() == Window(old(Retained()).first + 1, old(Retained()).states[1..])
    {
      while |entries| > config.capacity
        invariant Sound() && |entries| <= config.capacity + 1
        invariant |entries| == config.capacity + 1 || |old(entries)| <= config.capacity ==> entries == old(entries)
        invariant |entries| <= config.capacity < |old(entries)| ==>
          Retained() == Window(old(Retained()).first + 1, old(Retained()).states[1..])
        decreases |entries|
      {
        hide Log;
        hide RunsWithin;
        EvictOldest();
      }
    }

    ghost function Verdict(state: World<B>, dirty: Dirty): StoreError
      reads this
      requires Sound()
    {
      if dirty.count != |state.bodies| then DirtyMismatch
      else if entries != [] && state.frame != Retained().Last() + 1 then OutOfOrder
      else Taken
    }

    /** What a capture makes restorable: the state itself, or the previous one overlaid with the marked bodies. */
    ghost function Recorded(state: World<B>, dirty: Dirty): World<B>
      reads this
      requires Sound() && Marks(dirty) && dirty.count == |state.bodies| == count
    {
      if ShouldCheckpoint(state, dirty) then state
      else
        var w := Retained();
        World(state.frame, Patched(w.At(w.Last()).bodies, PatchesFrom(state.bodies, dirty.marked)))
    }

    lemma RecordedIsExactIff(state: World<B>, dirty: Dirty)
      requires Sound() && entries != [] && Marks(dirty) && dirty.count == |state.bodies| == count
      ensures Recorded(state, dirty) == state <==>
        ShouldCheckpoint(state, dirty) || Covers(Retained().At(Retained().Last()).bodies, state.bodies, dirty.marked)
    {
      var w := Retained();
      PatchedIsExactIff(w.At(w.Last()).bodies, state.bodies, dirty.marked);
    }

    /** The depth counter counts the new entry before the log holds it. */
    method Append(entry: Entry<B>)
      requires Valid() && EntryFits(entry, count)
      requires entries != [] ==> entry.Frame() == Retained().Last() + 1
      requires entry.Delta? ==> entries != [] && deltaDepth < config.maxDepth
      modifies this
      ensures Valid() && deltaDepth == if entry.Checkpoint? then 0 else old(deltaDepth) + 1
      ensures old(entries) == [] ==> Retained() == Window(entry.Frame(), [entry.state])
      ensures old(entries) != [] ==>
        Retained() == old(Retained()).Slide(entry.Frame(), old(Meaning(entries, count, entry)), config.capacity)
    {
      AppendedRun(entries, entry, config.maxDepth);
      deltaDepth := if entry.Checkpoint? then 0 else deltaDepth + 1;
      if entries == [] {
        assert Shown([entry], count).states == [entry.state];
      } else {
        AppendExtends(entries, count, entry);
      }
      entries := entries + [entry];
      EnforceCapacity();
    }

    method Capture(state: World<B>, dirty: Dirty) returns (e: StoreError)
      requires Valid() && Marks(dirty) && |state.bodies| == count
      modifies this
      ensures Valid()
      ensures e == old(Verdict(state, dirty))
      ensures !e.Taken? ==> entries == old(entries) && deltaDepth == old(deltaDepth)
      ensures e.Taken? ==> Retained() == old(Retained()).Slide(state.frame, old(Recorded(state, dirty)), config.capacity)
      ensures e.Taken? ==> deltaDepth == old(DepthAfter(state, dirty))
    {
      if dirty.count != |state.bodies| {
        return DirtyMismatch;
      }
      if entries != [] && state.frame != entries[|entries| - 1].Frame() + 1 {
        return OutOfOrder;
      }
      hide Log;
      hide Shown;
      hide RunLength;
      hide Patched;
      hide Fits;
      var entry: Entry<B>;
      if ShouldCheckpoint(state, dirty) {
        entry := Checkpoint(state);
      } else {
        entry := Delta(state.frame, PatchesFrom(state.bodies, dirty.marked));
      }
      assert entries != [] ==> Meaning(entries, count, entry) == Recorded(state, dirty);
      Append(entry);
      e := Taken;
    }

    /** Truncation recounts the open delta run from the back. */
    method TruncateAfter(frame: nat)
      requires Valid()
      modifies this
      ensures Valid()
      ensures old(Retained()).Has(frame) ==> Retained() == old(Retained()).Cut(frame)
      ensures old(entries) != [] && frame < old(Retained()).first ==> entries == []
      ensures old(entries) != [] && frame > old(Retained()).Last() ==> Retained() == old(Retained())
      ensures deltaDepth == if entries == [] then 0 else RunLength(entries, |entries| - 1)
    {
      ghost var was := entries;
      while entries != [] && entries[|entries| - 1].Frame() > frame
        invariant |entries| <= |was| && entries == was[..|entries|]
        invariant |entries| < |was| ==> was[|entries|].Frame() > frame
        decreases |entries|
      {
        entries := entries[..|entries| - 1];
      }
      if entries != [] {
        CutKeepsReplay(was, count, |entries|);
        CutKeepsRuns(was, |entries|, config.maxDepth);
      }
      deltaDepth := CountOpenRun();
    }

    method CountOpenRun() returns (depth: nat)
      ensures depth == if entries == [] then 0 else RunLength(entries, |entries| - 1)
    {
      depth := 0;
      var i := |entries|;
      while i > 0 && entries[i - 1].Delta?
        invariant 0 <= i <= |entries|
        invariant i > 0 ==> RunLength(entries, |entries| - 1) == depth + RunLength(entries, i - 1)
        invariant i == 0 ==> depth == if entries == [] then 0 else RunLength(entries, |entries| - 1)
      {
        depth := depth + 1;
        i := i - 1;
      }
    }
  }
}
