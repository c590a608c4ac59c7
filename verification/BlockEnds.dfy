/**
 Block ends as warm start for values that are already in order: which ends make the projection pool
 nothing, what it then answers, and which ends it hands on.
 */
module BlockEnds {
  import opened ChainSolver
  import opened Isotonic
  import opened WideInteger
  import opened Wrappers

  // ---- flat ranges ----

  ghost predicate Flat(x: seq<int>, lo: nat, hi: nat) {
    hi <= |x| && forall i :: lo < i < hi ==> x[i - 1] == x[i]
  }

  lemma {:induction false} FlatIsConstant(x: seq<int>, lo: nat, hi: nat, i: nat)
    requires Flat(x, lo, hi) && lo <= i < hi
    ensures x[i] == x[lo]
    decreases i
  {
    if lo < i {
      FlatIsConstant(x, lo, hi, i - 1);
    }
  }

  lemma FlatByEnds(x: seq<int>, lo: nat, hi: nat)
    requires Nondecreasing(x) && lo < hi <= |x|
    ensures Flat(x, lo, hi) <==> x[lo] == x[hi - 1]
  {
    if Flat(x, lo, hi) {
      FlatIsConstant(x, lo, hi, hi - 1);
    }
    if x[lo] == x[hi - 1] {
      forall i | lo < i < hi ensures x[i - 1] == x[i] {
        assert x[lo] <= x[i - 1] <= x[i] <= x[hi - 1];
      }
    }
  }

  lemma {:induction false} FlatMoment(x: seq<int>, lo: nat, hi: nat)
    requires Flat(x, lo, hi) && lo < hi
    ensures Moment(x, Ones(|x|), lo, hi) == x[lo] * (hi - lo)
    decreases hi
  {
    if lo < hi - 1 {
      FlatMoment(x, lo, hi - 1);
      FlatIsConstant(x, lo, hi, hi - 1);
      assert x[lo] * (hi - lo) == x[lo] * (hi - 1 - lo) + x[lo];
    } else {
      assert Moment(x, Ones(|x|), lo, lo) == 0;
    }
  }

  lemma {:induction false} MomentAtMost(x: seq<int>, lo: nat, hi: nat, top: int)
    requires lo <= hi <= |x|
    requires forall i :: lo <= i < hi ==> x[i] <= top
    ensures Moment(x, Ones(|x|), lo, hi) <= top * (hi - lo)
    decreases hi
  {
    if lo < hi {
      MomentAtMost(x, lo, hi - 1, top);
      assert top * (hi - lo) == top * (hi - 1 - lo) + top;
    }
  }

  lemma Commuted(v: int, a: int, b: int)
    ensures (v * a) * b == (v * b) * a
  {
  }

  lemma FlatIsKeepable(x: seq<int>, lo: nat, hi: nat)
    requires lo < hi && Flat(x, lo, hi)
    ensures Keepable(x, lo, hi)
  {
    var w := Ones(|x|);
    FlatMoment(x, lo, hi);
    MassOfOnes(|x|, lo, hi);
    forall k | lo <= k <= hi ensures Moment(x, w, lo, k) * Mass(w, lo, hi) >= Moment(x, w, lo, hi) * Mass(w, lo, k) {
      MassOfOnes(|x|, lo, k);
      if lo < k {
        FlatMoment(x, lo, k);
        Commuted(x[lo], k - lo, hi - lo);
      }
    }
  }

  /** The average of all but the last value reaches the average of all: then it reaches the last value. */
  lemma PrefixReachesLast(s: int, last: int, n: int)
    requires s * n >= (s + last) * (n - 1)
    ensures s >= last * (n - 1)
  {
    assert (s + last) * (n - 1) == s * n - s + last * (n - 1);
  }

  lemma KeepableIsFlat(x: seq<int>, lo: nat, hi: nat)
    requires Nondecreasing(x) && Keepable(x, lo, hi)
    ensures Flat(x, lo, hi)
  {
    if lo + 1 < hi {
      var (w, top) := (Ones(|x|), x[hi - 1]);
      MassOfOnes(|x|, lo, hi);
      MassOfOnes(|x|, lo, hi - 1);
      var s := Moment(x, w, lo, hi - 1);
      assert s * Mass(w, lo, hi) >= Moment(x, w, lo, hi) * Mass(w, lo, hi - 1);
      PrefixReachesLast(s, top, hi - lo);
      FirstReachesTop(x, lo, hi);
      FlatByEnds(x, lo, hi);
    }
  }

  lemma FirstReachesTop(x: seq<int>, lo: nat, hi: nat)
    requires Nondecreasing(x) && lo + 1 < hi <= |x|
    requires Moment(x, Ones(|x|), lo, hi - 1) >= x[hi - 1] * (hi - lo - 1)
    ensures x[lo] == x[hi - 1]
  {
    var (w, top) := (Ones(|x|), x[hi - 1]);
    SumsSplit(x, w, lo, lo + 1, hi - 1);
    assert Moment(x, w, lo, lo + 1) == Moment(x, w, lo, lo) + x[lo] && Moment(x, w, lo, lo) == 0;
    MomentAtMost(x, lo + 1, hi - 1, top);
    assert top * (hi - lo - 1) == top * (hi - 1 - (lo + 1)) + top;
  }

  /** On values in order, the ranges a warm start may keep are the flat ones. */
  lemma KeepableIffFlat(x: seq<int>, lo: nat, hi: nat)
    requires Nondecreasing(x)
    ensures Keepable(x, lo, hi) <==> lo < hi && Flat(x, lo, hi)
  {
    hide Irreducible;
    hide Flat;
    if lo < hi && Flat(x, lo, hi) {
      FlatIsKeepable(x, lo, hi);
    }
    if Keepable(x, lo, hi) {
      KeepableIsFlat(x, lo, hi);
    }
  }

  // ---- harmless block ends ----

  /** How many leading parts, each from one end to the next, the values are flat on. */
  ghost function FlatParts(x: seq<int>, ends: seq<nat>, begin: nat): (r: nat)
    ensures r <= |ends|
    ensures r > 0 ==> begin < ends[r - 1] <= |x|
    decreases |ends|
  {
    if ends != [] && begin < ends[0] && Flat(x, begin, ends[0]) then 1 + FlatParts(x, ends[1..], ends[0]) else 0
  }

  lemma {:induction false} KeptAreFlat(x: seq<int>, ends: seq<nat>, begin: nat)
    requires Nondecreasing(x)
    ensures KeptEnds(x, ends, begin) == FlatParts(x, ends, begin)
    decreases |ends|
  {
    hide Keepable;
    hide Flat;
    if ends != [] {
      KeepableIffFlat(x, begin, ends[0]);
      KeptAreFlat(x, ends[1..], ends[0]);
    }
  }

  /** All parts are flat, or the first is not, or everything up to the last flat part is one flat range. */
  ghost predicate Steady(x: seq<int>, ends: seq<nat>) {
    var j := FlatParts(x, ends, 0);
    j == |ends| || j == 0 || Flat(x, 0, ends[j - 1])
  }

  ghost predicate LevelBlock(x: seq<int>, b: Block) {
    b.begin < b.end && Flat(x, b.begin, b.end) && b.sum == x[b.begin] * (b.end - b.begin)
  }

  lemma CrossMeans(a: int, b: int, m: int, n: int)
    requires m > 0 && n > 0
    ensures (a * m) * n > (b * n) * m <==> a > b
  {
    Commuted(b, n, m);
    assert (a * m) * n == a * (m * n) && (b * m) * n == b * (m * n);
    if a > b {
      assert (a - b) * (m * n) > 0;
    } else {
      assert (b - a) * (m * n) >= 0;
    }
  }

  lemma LevelEnds(x: seq<int>, b: Block)
    requires LevelBlock(x, b)
    ensures b.begin < b.end <= |x| && x[b.begin] == x[b.end - 1]
  {
    FlatIsConstant(x, b.begin, b.end, b.end - 1);
  }

  lemma LevelMeans(x: seq<int>, l: Block, r: Block)
    requires LevelBlock(x, l) && LevelBlock(x, r)
    ensures l.begin < |x| && r.begin < |x|
    ensures MeanGreater(Count, l, r) <==> x[l.begin] > x[r.begin]
  {
    assert l.end <= |x| && r.end <= |x|;
    hide Flat;
    CrossMeans(x[l.begin], x[r.begin], l.end - l.begin, r.end - r.begin);
  }

  lemma GoodIsLevel(x: seq<int>, b: Block)
    requires Nondecreasing(x) && GoodBlock(x, Ones(|x|), b)
    ensures LevelBlock(x, b)
  {
    hide Irreducible;
    hide Flat;
    KeepableIffFlat(x, b.begin, b.end);
    FlatMoment(x, b.begin, b.end);
  }

  ghost predicate AllLevel(x: seq<int>, blocks: seq<Block>) {
    forall k :: 0 <= k < |blocks| ==> LevelBlock(x, blocks[k])
  }

  lemma KeptAreLevel(x: seq<int>, ends: seq<nat>)
    requires Nondecreasing(x)
    ensures var r := BlocksOf(x, ends, 0);
      && |r| == FlatParts(x, ends, 0)
      && AllLevel(x, r)
      && (forall k :: 0 <= k < |r| ==> r[k].end == ends[k])
      && (forall k :: 0 < k < |r| ==> r[k].begin == r[k - 1].end)
      && (r != [] ==> r[0].begin == 0)
  {
    hide Irreducible;
    hide LevelBlock;
    hide Keepable;
    KeptAreFlat(x, ends, 0);
    KeptBlocksAreGood(x, ends, 0);
    var r := BlocksOf(x, ends, 0);
    forall k | 0 <= k < |r| ensures LevelBlock(x, r[k]) {
      GoodIsLevel(x, r[k]);
    }
  }

  lemma SinglesAreLevel(x: seq<int>)
    ensures AllLevel(x, Singletons(x, Ones(|x|)))
  {
  }

  /** Ordered values, level blocks: the blocks of a list that begin at rising places are in order. */
  lemma RisingBlocksAscend(x: seq<int>, blocks: seq<Block>)
    requires Nondecreasing(x) && AllLevel(x, blocks)
    requires forall k :: 0 < k < |blocks| ==> blocks[k - 1].begin <= blocks[k].begin
    ensures Ascending(Count, blocks)
  {
    forall k | 0 < k < |blocks| ensures !MeanGreater(Count, blocks[k - 1], blocks[k]) {
      LevelMeans(x, blocks[k - 1], blocks[k]);
    }
  }

  /** Nothing is pooled: the start list is in order already. */
  ghost predicate Idle(x: seq<int>, warm: Option<seq<nat>>) {
    Ascending(Count, StartBlocks(x, warm))
  }

  lemma AscendingConcat(l: seq<Block>, r: seq<Block>)
    requires l != [] && r != [] && Ascending(Count, l) && Ascending(Count, r)
    ensures Ascending(Count, l + r) <==> !MeanGreater(Count, l[|l| - 1], r[0])
  {
    hide MeanGreater;
    var both := l + r;
    assert both[|l| - 1] == l[|l| - 1] && both[|l|] == r[0];
    forall k | 0 < k < |both| && k != |l| ensures !MeanGreater(Count, both[k - 1], both[k]) {
      if k > |l| {
        assert both[k - 1] == r[k - 1 - |l|] && both[k] == r[k - |l|];
      }
    }
  }

  lemma KeptAndSinglesAscend(x: seq<int>, ends: seq<nat>)
    requires Nondecreasing(x)
    ensures Ascending(Count, BlocksOf(x, ends, 0)) && Ascending(Count, Singletons(x, Ones(|x|)))
  {
    hide LevelBlock;
    hide FlatParts;
    hide BlocksOf;
    var kept := BlocksOf(x, ends, 0);
    KeptAreLevel(x, ends);
    SinglesAreLevel(x);
    forall k | 0 < k < |kept| ensures kept[k - 1].begin <= kept[k].begin {
      LevelEnds(x, kept[k - 1]);
    }
    RisingBlocksAscend(x, kept);
    RisingBlocksAscend(x, Singletons(x, Ones(|x|)));
  }

  /** After kept blocks the list starts over in order exactly if everything kept is one flat range. */
  lemma StartingOver(x: seq<int>, ends: seq<nat>)
    requires Nondecreasing(x) && x != [] && FlatParts(x, ends, 0) > 0
    ensures var (kept, j) := (BlocksOf(x, ends, 0), FlatParts(x, ends, 0));
      && |kept| == j
      && (!MeanGreater(Count, kept[j - 1], Singletons(x, Ones(|x|))[0]) <==> Flat(x, 0, ends[j - 1]))
  {
    hide FlatParts;
    hide BlocksOf;
    var (kept, j) := (BlocksOf(x, ends, 0), FlatParts(x, ends, 0));
    KeptAreLevel(x, ends);
    SinglesAreLevel(x);
    SingletonFloor(x, 0);
    LevelMeans(x, kept[j - 1], Singletons(x, Ones(|x|))[0]);
    LevelEnds(x, kept[j - 1]);
    hide LevelBlock;
    FlatByEnds(x, 0, ends[j - 1]);
  }

  /** Block ends cause no pooling on ordered values exactly when they are steady for them. */
  lemma IdleIffSteady(x: seq<int>, ends: seq<nat>)
    requires Nondecreasing(x) && Plausible(x, ends)
    ensures Idle(x, Some(ends)) <==> Steady(x, ends)
  {
    hide Flat;
    hide FlatParts;
    hide BlocksOf;
    hide Ascending;
    hide Nondecreasing;
    var (kept, singles, j) := (BlocksOf(x, ends, 0), Singletons(x, Ones(|x|)), FlatParts(x, ends, 0));
    KeptAreFlat(x, ends, 0);
    KeptAndSinglesAscend(x, ends);
    if j == 0 {
      assert kept + singles == singles;
    } else if j < |ends| {
      StartingOver(x, ends);
      AscendingConcat(kept, singles);
    }
  }

  // ---- what a steady start writes ----

  /** One call of the projection: no values, no blocks. */
  ghost function Project(x: seq<int>, warm: Option<seq<nat>>): Projection {
    if x == [] then Projected([], []) else WriteAll(|x|, PoolAll(Count, StartBlocks(x, warm)))
  }

  ghost predicate ShowsBlock(x: seq<int>, z: seq<int>, b: Block) {
    b.end <= |z| == |x| && forall i :: b.begin <= i < b.end ==> z[i] == x[i]
  }

  ghost predicate ShowsOn(x: seq<int>, z: seq<int>, blocks: seq<Block>) {
    |z| == |x| && forall j :: 0 <= j < |blocks| ==> ShowsBlock(x, z, blocks[j])
  }

  lemma LevelFloor(x: seq<int>, b: Block)
    requires LevelBlock(x, b)
    ensures b.end <= |x| && Count(b) == b.end - b.begin
    ensures FloorDiv(b.sum, Count(b)) == x[b.begin]
    ensures forall i :: b.begin <= i < b.end ==> x[i] == x[b.begin]
  {
    FloorIs(b.sum, b.end - b.begin, x[b.begin]);
    forall i | b.begin <= i < b.end ensures x[i] == x[b.begin] {
      FlatIsConstant(x, b.begin, b.end, i);
    }
  }

  function Spliced(z: seq<int>, lo: nat, hi: nat, v: int): seq<int>
    requires lo <= hi <= |z|
  {
    z[..lo] + seq(hi - lo, _ => v) + z[hi..]
  }

  lemma SplicedAt(z: seq<int>, lo: nat, hi: nat, v: int, i: nat)
    requires lo <= hi <= |z| && i < |z|
    ensures |Spliced(z, lo, hi, v)| == |z|
    ensures Spliced(z, lo, hi, v)[i] == if lo <= i < hi then v else z[i]
  {
  }

  lemma SplicingShows(x: seq<int>, z: seq<int>, b: Block, other: Block)
    requires b.begin <= b.end <= |z| && (ShowsBlock(x, z, other) || other == b)
    requires |z| == |x| && forall i :: b.begin <= i < b.end ==> x[i] == x[b.begin]
    requires b.begin < |x|
    ensures ShowsBlock(x, Spliced(z, b.begin, b.end, x[b.begin]), other)
  {
    hide Spliced;
    SplicedAt(z, b.begin, b.end, x[b.begin], 0);
    forall i | other.begin <= i < other.end ensures Spliced(z, b.begin, b.end, x[b.begin])[i] == x[i] {
      SplicedAt(z, b.begin, b.end, x[b.begin], i);
    }
  }

  lemma SplicingShowsAll(x: seq<int>, z: seq<int>, blocks: seq<Block>)
    requires blocks != [] && LevelBlock(x, blocks[|blocks| - 1])
    requires ShowsOn(x, z, blocks[..|blocks| - 1])
    ensures var b := blocks[|blocks| - 1];
      b.begin <= b.end <= |z| && b.begin < |x| && ShowsOn(x, Spliced(z, b.begin, b.end, x[b.begin]), blocks)
  {
    hide LevelBlock;
    hide ShowsBlock;
    hide Spliced;
    var (last, b) := (|blocks| - 1, blocks[|blocks| - 1]);
    LevelFloor(x, b);
    LevelEnds(x, b);
    SplicedAt(z, b.begin, b.end, x[b.begin], b.begin);
    forall j | 0 <= j <= last ensures ShowsBlock(x, Spliced(z, b.begin, b.end, x[b.begin]), blocks[j]) {
      assert j < last ==> blocks[..last][j] == blocks[j];
      SplicingShows(x, z, b, blocks[j]);
    }
  }

  lemma WriteLevelBlock(x: seq<int>, so: Projection, b: Block)
    requires AllRep(x) && LevelBlock(x, b) && so.Projected? && |so.projected| == |x|
    ensures b.begin < b.end <= |x|
    ensures WriteBlock(so, |x|, b) == Projected(Spliced(so.projected, b.begin, b.end, x[b.begin]), so.blockEnds + [b.end])
  {
    hide LevelBlock;
    LevelFloor(x, b);
    LevelEnds(x, b);
  }

  /** Level blocks write the values they lie on, however they overlap. */
  lemma {:induction false} WritingLevelBlocks(x: seq<int>, blocks: seq<Block>)
    requires AllRep(x) && AllLevel(x, blocks)
    ensures WriteAll(|x|, blocks).Projected?
    ensures WriteAll(|x|, blocks).blockEnds == EndsOf(blocks)
    ensures ShowsOn(x, WriteAll(|x|, blocks).projected, blocks)
  {
    hide LevelBlock;
    hide ShowsBlock;
    hide Spliced;
    hide WriteBlock;
    if blocks != [] {
      var last := |blocks| - 1;
      WritingLevelBlocks(x, blocks[..last]);
      WriteLevelBlock(x, WriteAll(|x|, blocks[..last]), blocks[last]);
      SplicingShowsAll(x, WriteAll(|x|, blocks[..last]).projected, blocks);
      assert EndsOf(blocks) == EndsOf(blocks[..last]) + [blocks[last].end];
    }
  }

  /** The block ends a steady frame hands on: the same ones, or those kept and then one per value. */
  ghost function NextEnds(x: seq<int>, ends: seq<nat>): seq<nat> {
    var j := FlatParts(x, ends, 0);
    if j == |ends| then ends else ends[..j] + SingleEnds(|x|, 0)
  }

  /** One end per value from the given index on. */
  ghost function SingleEnds(n: nat, begin: nat): (r: seq<nat>)
    requires begin <= n
    ensures |r| == n - begin
  {
    seq(n - begin, k => begin + k + 1)
  }

  lemma StartEnds(x: seq<int>, ends: seq<nat>)
    requires Nondecreasing(x) && Plausible(x, ends)
    ensures AllLevel(x, StartBlocks(x, Some(ends))) && EndsOf(StartBlocks(x, Some(ends))) == NextEnds(x, ends)
  {
    hide LevelBlock;
    hide FlatParts;
    hide BlocksOf;
    KeptAreFlat(x, ends, 0);
    KeptAreLevel(x, ends);
    SinglesAreLevel(x);
    var (kept, singles) := (BlocksOf(x, ends, 0), Singletons(x, Ones(|x|)));
    assert EndsOf(singles) == SingleEnds(|x|, 0);
    assert EndsOf(kept + singles) == EndsOf(kept) + EndsOf(singles);
    assert EndsOf(kept) == ends[..|kept|];
  }

  /** Every value lies in some block of the start list. */
  lemma StartCovers(x: seq<int>, warm: Option<seq<nat>>, i: nat) returns (j: nat)
    requires i < |x|
    ensures var blocks := StartBlocks(x, warm); j < |blocks| && blocks[j].begin <= i < blocks[j].end
  {
    var w := Ones(|x|);
    SingletonFloor(x, i);
    hide Singletons;
    hide GoodBlock;
    hide LeftBehind;
    hide Accepts;
    if warm.Some? && Accepts(x, warm.value) {
      AcceptedTiles(x, warm.value);
      j := BlockOf(x, w, LeftBehind(x, warm.value), |x|, i);
    } else if warm.Some? {
      j := |LeftBehind(x, warm.value)| + i;
      assert StartBlocks(x, warm)[j] == Singletons(x, w)[i];
    } else {
      j := i;
    }
  }

  /** On ordered values a steady start pools nothing, answers the values and hands on its own ends. */
  lemma SteadyStart(x: seq<int>, ends: seq<nat>)
    requires Nondecreasing(x) && AllRep(x) && Plausible(x, ends) && Steady(x, ends)
    ensures Project(x, Some(ends)) == Projected(x, NextEnds(x, ends))
  {
    hide LevelBlock;
    hide StartBlocks;
    hide Steady;
    hide NextEnds;
    var blocks := StartBlocks(x, Some(ends));
    IdleIffSteady(x, ends);
    OrderedBlocksStay(Count, blocks);
    StartEnds(x, ends);
    WritingLevelBlocks(x, blocks);
    var z := WriteAll(|x|, blocks).projected;
    forall i | 0 <= i < |x| ensures z[i] == x[i] {
      var j := StartCovers(x, Some(ends), i);
      assert ShowsBlock(x, z, blocks[j]);
    }
  }

  // ---- steadiness is inherited ----

  /** The same neighbours are equal. */
  ghost predicate SameSteps(x: seq<int>, y: seq<int>) {
    |x| == |y| && forall i :: 0 < i < |x| ==> (x[i - 1] == x[i] <==> y[i - 1] == y[i])
  }

  lemma SameLength(x: seq<int>, y: seq<int>)
    requires SameSteps(x, y)
    ensures |x| == |y|
  {
  }

  lemma SameFlats(x: seq<int>, y: seq<int>, lo: nat, hi: nat)
    requires SameSteps(x, y)
    ensures Flat(x, lo, hi) <==> Flat(y, lo, hi)
  {
  }

  lemma {:induction false} SameParts(x: seq<int>, y: seq<int>, ends: seq<nat>, begin: nat)
    requires SameSteps(x, y)
    ensures FlatParts(x, ends, begin) == FlatParts(y, ends, begin)
    decreases |ends|
  {
    hide Flat;
    hide SameSteps;
    if ends != [] {
      SameFlats(x, y, begin, ends[0]);
      SameParts(x, y, ends[1..], ends[0]);
    }
  }

  lemma {:induction false} SinglePartsAreFlat(x: seq<int>, begin: nat)
    requires begin <= |x|
    ensures FlatParts(x, SingleEnds(|x|, begin), begin) == |x| - begin
    decreases |x| - begin
  {
    if begin < |x| {
      SinglePartsAreFlat(x, begin + 1);
      assert SingleEnds(|x|, begin)[1..] == SingleEnds(|x|, begin + 1);
    }
  }

  /** The parts kept once are kept again, and the ends appended behind them start over. */
  lemma {:induction false} KeptAgain(x: seq<int>, ends: seq<nat>, tail: seq<nat>, begin: nat)
    requires tail != []
    requires var j := FlatParts(x, ends, begin); tail[0] <= if j == 0 then begin else ends[j - 1]
    ensures var j := FlatParts(x, ends, begin); FlatParts(x, ends[..j] + tail, begin) == j
    decreases |ends|
  {
    hide Flat;
    var j := FlatParts(x, ends, begin);
    if j == 0 {
      assert ends[..j] + tail == tail;
    } else {
      KeptAgain(x, ends[1..], tail, ends[0]);
      assert (ends[..j] + tail)[1..] == ends[1..][..j - 1] + tail;
    }
  }

  /** Block ends steady for one vector hand on block ends steady for the next, if it has the same steps. */
  lemma SteadyIsInherited(x: seq<int>, y: seq<int>, ends: seq<nat>)
    requires Plausible(x, ends) && Steady(x, ends) && SameSteps(x, y)
    ensures Plausible(y, NextEnds(x, ends)) && Steady(y, NextEnds(x, ends))
  {
    hide Flat;
    hide FlatParts;
    hide SameSteps;
    var j := FlatParts(x, ends, 0);
    SameLength(x, y);
    SameParts(x, y, ends, 0);
    if j == 0 {
      SinglePartsAreFlat(y, 0);
      assert ends[..j] + SingleEnds(|x|, 0) == SingleEnds(|x|, 0);
    } else if j < |ends| {
      SameFlats(x, y, 0, ends[j - 1]);
      KeptAgain(y, ends, SingleEnds(|x|, 0), 0);
    }
  }

  // ---- the ends a cold start hands on ----

  lemma {:induction false} PaintedParts(z: seq<int>, blocks: seq<Block>, k: nat)
    requires k <= |blocks|
    requires forall j :: 0 <= j < |blocks| ==> blocks[j].begin < blocks[j].end && Flat(z, blocks[j].begin, blocks[j].end)
    requires forall j :: 0 < j < |blocks| ==> blocks[j].begin == blocks[j - 1].end
    ensures k < |blocks| ==> FlatParts(z, EndsOf(blocks)[k..], blocks[k].begin) == |blocks| - k
    decreases |blocks| - k
  {
    hide Flat;
    if k < |blocks| {
      PaintedParts(z, blocks, k + 1);
      assert EndsOf(blocks)[k..][1..] == EndsOf(blocks)[k + 1..];
    }
  }

  lemma AllPartsFlat(z: seq<int>, blocks: seq<Block>)
    requires blocks != [] && blocks[0].begin == 0
    requires forall j :: 0 <= j < |blocks| ==> blocks[j].begin < blocks[j].end && Flat(z, blocks[j].begin, blocks[j].end)
    requires forall j :: 0 < j < |blocks| ==> blocks[j].begin == blocks[j - 1].end
    ensures FlatParts(z, EndsOf(blocks), 0) == |blocks|
  {
    hide Flat;
    PaintedParts(z, blocks, 0);
    assert EndsOf(blocks)[0..] == EndsOf(blocks);
  }

  lemma TilingShape(x: seq<int>, blocks: seq<Block>)
    requires x != [] && Tiles(x, Ones(|x|), blocks, |x|)
    ensures forall j :: 0 <= j < |blocks| ==> blocks[j].begin < blocks[j].end <= |x|
    ensures forall j :: 0 < j < |blocks| ==> blocks[j].begin == blocks[j - 1].end
    ensures blocks != [] && blocks[0].begin == 0 && EndsOf(blocks)[|EndsOf(blocks)| - 1] == |x|
  {
    hide Irreducible;
    assert forall j :: 0 <= j < |blocks| ==> InBounds(Ones(|x|), blocks[j]);
  }

  lemma PaintedIsFlat(z: seq<int>, v: int, lo: nat, hi: nat)
    requires PaintedOn(z, v, lo, hi)
    ensures Flat(z, lo, hi)
  {
  }

  /** Painting a tiling leaves a vector that is flat on every part. */
  lemma PaintIsFlat(x: seq<int>, blocks: seq<Block>, value: Block -> int)
    requires x != [] && Tiles(x, Ones(|x|), blocks, |x|)
    requires forall j :: 0 <= j < |blocks| ==> blocks[j].begin <= blocks[j].end
    ensures FlatParts(Paint(blocks, value), EndsOf(blocks), 0) == |blocks|
    ensures |Paint(blocks, value)| == |x| && Plausible(Paint(blocks, value), EndsOf(blocks))
  {
    hide Irreducible;
    hide FlatParts;
    hide Paint;
    hide Flat;
    hide PaintedOn;
    TilingShape(x, blocks);
    PaintTakesValues(x, Ones(|x|), blocks, |x|, value);
    hide Tiles;
    var z := Paint(blocks, value);
    forall j | 0 <= j < |blocks| ensures Flat(z, blocks[j].begin, blocks[j].end) {
      PaintedIsFlat(z, value(blocks[j]), blocks[j].begin, blocks[j].end);
    }
    AllPartsFlat(z, blocks);
  }

  /** The solver's answer without carried ends, and the ends it hands on: the answer is flat on every part. */
  lemma ColdProject(x: seq<int>)
    requires x != [] && AllRep(x)
    ensures Project(x, None) == Projected(FloorProjection(x), EndsOf(ColdBlocks(x)))
    ensures Plausible(FloorProjection(x), EndsOf(ColdBlocks(x)))
    ensures FlatParts(FloorProjection(x), EndsOf(ColdBlocks(x)), 0) == |ColdBlocks(x)|
  {
    hide Irreducible;
    hide FlatParts;
    hide Plausible;
    var blocks := ColdBlocks(x);
    ColdTiling(x);
    WritingATiling(x, blocks, |x|);
    PaintIsFlat(x, blocks, FlooredMean());
  }

  lemma ColdTiling(x: seq<int>)
    ensures Tiles(x, Ones(|x|), ColdBlocks(x), |x|)
    ensures forall j :: 0 <= j < |ColdBlocks(x)| ==> ColdBlocks(x)[j].begin <= ColdBlocks(x)[j].end
    ensures FloorProjection(x) == Paint(ColdBlocks(x), FlooredMean())
  {
    hide Irreducible;
    assert forall j :: 0 <= j < |ColdBlocks(x)| ==> InBounds(Ones(|x|), ColdBlocks(x)[j]);
  }
}
