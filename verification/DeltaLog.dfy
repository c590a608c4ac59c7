/**
 Checkpoint-and-delta histories: full states at some frames, body patches in between.  Replaying
 the patches is the meaning of an entry; appending, truncating and evicting with promotion of the
 next delta to a checkpoint are proved to leave the meaning of every retained frame alone.
 */
module DeltaLog {
  import opened FrameRing

  datatype World<B> = World(frame: nat, bodies: seq<B>)

  datatype Patch<B> = Patch(index: nat, body: B)

  datatype Entry<B> = Checkpoint(state: World<B>) | Delta(at: nat, patches: seq<Patch<B>>) {
    function Frame(): nat {
      if Checkpoint? then state.frame else at
    }
  }

  // ---- patches ----

  ghost predicate Fits<B>(count: nat, patches: seq<Patch<B>>) {
    forall k :: 0 <= k < |patches| ==> patches[k].index < count
  }

  /** The bodies after the patches, later patches winning. */
  ghost function Patched<B>(bodies: seq<B>, patches: seq<Patch<B>>): (r: seq<B>)
    requires Fits(|bodies|, patches)
    ensures |r| == |bodies|
  {
    if patches == [] then bodies
    else
      var last := patches[|patches| - 1];
      Patched(bodies, patches[..|patches| - 1])[last.index := last.body]
  }

  method ApplyPatches<B>(bodies: seq<B>, patches: seq<Patch<B>>) returns (r: seq<B>)
    requires Fits(|bodies|, patches)
    ensures r == Patched(bodies, patches)
  {
    r := bodies;
    for k := 0 to |patches|
      invariant Fits(|bodies|, patches[..k]) && r == Patched(bodies, patches[..k])
    {
      assert patches[..k + 1][..k] == patches[..k];
      r := r[patches[k].index := patches[k].body];
    }
    assert patches[..|patches|] == patches;
  }

  /** The patches that copy the named bodies of a state. */
  function PatchesFrom<B>(bodies: seq<B>, indices: seq<nat>): (r: seq<Patch<B>>)
    requires forall k :: 0 <= k < |indices| ==> indices[k] < |bodies|
    ensures Fits(|bodies|, r)
  {
    seq(|indices|, k requires 0 <= k < |indices| => Patch(indices[k], bodies[indices[k]]))
  }

  lemma {:induction false} PatchedAt<B>(base: seq<B>, bodies: seq<B>, indices: seq<nat>, j: nat)
    requires |base| == |bodies| && j < |bodies| && forall k :: 0 <= k < |indices| ==> indices[k] < |bodies|
    ensures Patched(base, PatchesFrom(bodies, indices))[j] == if j in indices then bodies[j] else base[j]
  {
    if indices != [] {
      var last := |indices| - 1;
      PatchedAt(base, bodies, indices[..last], j);
      assert PatchesFrom(bodies, indices)[..last] == PatchesFrom(bodies, indices[..last]);
      assert indices == indices[..last] + [indices[last]];
    }
  }

  /** The report names every body that changed. */
  ghost predicate Covers<B>(base: seq<B>, bodies: seq<B>, indices: seq<nat>) {
    |base| == |bodies| && forall j :: 0 <= j < |bodies| && j !in indices ==> base[j] == bodies[j]
  }

  /** Patching reproduces the state exactly when the report under-reports nothing. */
  lemma PatchedIsExactIff<B>(base: seq<B>, bodies: seq<B>, indices: seq<nat>)
    requires |base| == |bodies| && forall k :: 0 <= k < |indices| ==> indices[k] < |bodies|
    ensures Patched(base, PatchesFrom(bodies, indices)) == bodies <==> Covers(base, bodies, indices)
  {
    forall j: nat | j < |bodies|
      ensures Patched(base, PatchesFrom(bodies, indices))[j] == if j in indices then bodies[j] else base[j]
    {
      PatchedAt(base, bodies, indices, j);
    }
  }

  // ---- logs ----

  ghost predicate EntryFits<B>(e: Entry<B>, count: nat) {
    match e
    case Checkpoint(state) => |state.bodies| == count
    case Delta(_, patches) => Fits(count, patches)
  }

  /** Consecutive frames over a stable number of bodies, starting at a checkpoint. */
  ghost predicate Log<B>(entries: seq<Entry<B>>, count: nat) {
    && (entries != [] ==> entries[0].Checkpoint?)
    && (forall i :: 0 <= i < |entries| ==> EntryFits(entries[i], count))
    && (forall i :: 0 <= i < |entries| ==> entries[i].Frame() == entries[0].Frame() + i)
  }

  ghost function Replay<B>(entries: seq<Entry<B>>, count: nat, i: nat): (w: World<B>)
    requires Log(entries, count) && i < |entries|
    ensures |w.bodies| == count && w.frame == entries[i].Frame()
    decreases i
  {
    match entries[i]
    case Checkpoint(state) => state
    case Delta(at, patches) => World(at, Patched(Replay(entries, count, i - 1).bodies, patches))
  }

  /** What a log stands for: the sliding window of its replayed states. */
  ghost function Shown<B>(entries: seq<Entry<B>>, count: nat): (w: Window<World<B>>)
    requires Log(entries, count)
    ensures |w.states| == |entries|
    ensures entries != [] ==> w.first == entries[0].Frame()
    ensures forall f: nat :: w.Has(f) ==> w.At(f).frame == f
  {
    if entries == [] then Window(0, [])
    else Window(entries[0].Frame(), seq(|entries|, i requires 0 <= i < |entries| => Replay(entries, count, i)))
  }

  lemma {:induction false} SamePrefixSameReplay<B>(entries: seq<Entry<B>>, other: seq<Entry<B>>, count: nat, i: nat)
    requires Log(entries, count) && Log(other, count) && i < |entries| && i < |other|
    requires forall j :: 0 <= j <= i ==> entries[j] == other[j]
    ensures Replay(entries, count, i) == Replay(other, count, i)
  {
    if entries[i].Delta? {
      SamePrefixSameReplay(entries, other, count, i - 1);
    }
  }

  /** Dropping the newest entries leaves the meaning of the others. */
  lemma CutKeepsReplay<B>(entries: seq<Entry<B>>, count: nat, k: nat)
    requires Log(entries, count) && 0 < k <= |entries|
    ensures Log(entries[..k], count)
    ensures Shown(entries[..k], count) == Shown(entries, count).Cut(entries[0].Frame() + k - 1)
  {
    forall i: nat | i < k ensures Replay(entries[..k], count, i) == Replay(entries, count, i) {
      SamePrefixSameReplay(entries[..k], entries, count, i);
    }
    assert Shown(entries[..k], count).states == Shown(entries, count).states[..k];
  }

  /** The state a new entry would replay to at the end of a log. */
  ghost function Meaning<B>(entries: seq<Entry<B>>, count: nat, e: Entry<B>): (w: World<B>)
    requires Log(entries, count) && entries != [] && EntryFits(e, count)
  {
    match e
    case Checkpoint(state) => state
    case Delta(at, patches) => World(at, Patched(Replay(entries, count, |entries| - 1).bodies, patches))
  }

  /** Appending an entry extends the window by the state the entry replays to. */
  lemma AppendExtends<B>(entries: seq<Entry<B>>, count: nat, e: Entry<B>)
    requires Log(entries, count) && entries != [] && EntryFits(e, count)
    requires e.Frame() == entries[0].Frame() + |entries|
    ensures Log(entries + [e], count)
    ensures Shown(entries + [e], count).first == Shown(entries, count).first
    ensures Shown(entries + [e], count).states
      == Shown(entries, count).states + [Meaning(entries, count, e)]
  {
    var now := entries + [e];
    forall i: nat | i < |entries| ensures Replay(now, count, i) == Replay(entries, count, i) {
      SamePrefixSameReplay(now, entries, count, i);
    }
  }

  /** Evicting the oldest entry after promoting its successor to a checkpoint. */
  ghost function Evicted<B>(entries: seq<Entry<B>>, count: nat): seq<Entry<B>>
    requires Log(entries, count) && |entries| >= 2
  {
    [Checkpoint(Replay(entries, count, 1))] + entries[2..]
  }

  lemma {:induction false} EvictionKeepsReplay<B>(entries: seq<Entry<B>>, count: nat, i: nat)
    requires Log(entries, count) && 1 <= i < |entries|
    ensures Log(Evicted(entries, count), count)
    ensures Replay(Evicted(entries, count), count, i - 1) == Replay(entries, count, i)
  {
    var now := Evicted(entries, count);
    forall j | 0 <= j < |now| ensures EntryFits(now[j], count) && now[j].Frame() == now[0].Frame() + j {
      assert j > 0 ==> now[j] == entries[j + 1];
    }
    if i > 1 {
      assert now[i - 1] == entries[i];
      if entries[i].Delta? {
        EvictionKeepsReplay(entries, count, i - 1);
      }
    }
  }

  lemma EvictionDropsOldest<B>(entries: seq<Entry<B>>, count: nat)
    requires Log(entries, count) && |entries| >= 2
    ensures Log(Evicted(entries, count), count)
    ensures Shown(Evicted(entries, count), count)
      == Window(Shown(entries, count).first + 1, Shown(entries, count).states[1..])
  {
    EvictionKeepsReplay(entries, count, 1);
    var now := Evicted(entries, count);
    forall i: nat | i < |now| ensures Replay(now, count, i) == Replay(entries, count, i + 1) {
      EvictionKeepsReplay(entries, count, i + 1);
    }
    assert Shown(now, count).states == Shown(entries, count).states[1..];
  }

}
