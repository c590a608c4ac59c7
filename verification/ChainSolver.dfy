/**
 The chain solver's isotonic floor projection: unit masses, floored block means, and an optional
 warm start from the block ends of an earlier frame.  An accepted warm start never changes the
 projected values.  A rejected one is harmless only if it was rejected before any block was kept:
 kept blocks stay in the list the cold start is appended to.
 */
module ChainSolver {
  import opened Isotonic
  import opened RealFit
  import opened WideInteger
  import opened Wrappers

  const MIN_REP := -0x8000_0000_0000_0000
  const MAX_REP := 0x7fff_ffff_ffff_ffff
  const SIZE_RANGE := 0x1_0000_0000_0000_0000

  predicate IsRep(v: int) {
    MIN_REP <= v <= MAX_REP
  }

  ghost predicate AllRep(x: seq<int>) {
    forall i :: 0 <= i < |x| ==> IsRep(x[i])
  }

  ghost function Ones(n: nat): seq<int> {
    seq(n, _ => 1)
  }

  /** end - begin in unsigned 64-bit arithmetic. */
  function Count(b: Block): int {
    if b.begin <= b.end then b.end - b.begin else b.end - b.begin + SIZE_RANGE
  }

  lemma {:induction false} MassOfOnes(n: nat, lo: nat, hi: nat)
    requires lo <= hi <= n
    ensures Mass(Ones(n), lo, hi) == hi - lo
    decreases hi
  {
    if lo < hi {
      MassOfOnes(n, lo, hi - 1);
    }
  }

  lemma CountWeighs(n: nat)
    ensures Weighs(Count, Ones(n)) && Positive(Ones(n))
  {
    forall b | InBounds(Ones(n), b) ensures Count(b) == Mass(Ones(n), b.begin, b.end) {
      MassOfOnes(n, b.begin, b.end);
    }
  }

  // ---- the warm start ----

  ghost predicate Keepable(x: seq<int>, lo: nat, hi: nat) {
    lo < hi <= |x| && Irreducible(x, Ones(|x|), lo, hi)
  }

  method BlockIsIrreducible(values: seq<int>, begin: nat, end: nat, total: int) returns (ok: bool)
    requires begin < end <= |values| ==> total == Moment(values, Ones(|values|), begin, end)
    ensures ok <==> Keepable(values, begin, end)
  {
    if begin >= end || end > |values| { return false; }
    ghost var w := Ones(|values|);
    var count := end - begin;
    var prefix := 0;
    MassOfOnes(|values|, begin, end);
    MassOfOnes(|values|, begin, begin);
    for index := begin to end - 1
      invariant prefix == Moment(values, w, begin, index)
      invariant forall k :: begin <= k <= index ==>
        Moment(values, w, begin, k) * Mass(w, begin, end) >= total * Mass(w, begin, k)
    {
      prefix := prefix + values[index];
      MassOfOnes(|values|, begin, index + 1);
      var prefixCount := index - begin + 1;
      if prefix * count < total * prefixCount {
        return false;
      }
    }
    return true;
  }

  /** How many of the given ends describe keepable blocks, counted from the left. */
  ghost function KeptEnds(x: seq<int>, ends: seq<nat>, begin: nat): nat
    decreases |ends|
  {
    if ends != [] && Keepable(x, begin, ends[0]) then 1 + KeptEnds(x, ends[1..], ends[0]) else 0
  }

  ghost function BlocksOf(x: seq<int>, ends: seq<nat>, begin: nat): (r: seq<Block>)
    ensures |r| == KeptEnds(x, ends, begin)
    decreases |ends|
  {
    if ends != [] && Keepable(x, begin, ends[0]) then
      [Block(begin, ends[0], Moment(x, Ones(|x|), begin, ends[0]))] + BlocksOf(x, ends[1..], ends[0])
    else []
  }

  /** The ends name the right total length; nothing else has been looked at yet. */
  predicate Plausible(x: seq<int>, ends: seq<nat>) {
    x != [] && ends != [] && ends[|ends| - 1] == |x|
  }

  ghost predicate Accepts(x: seq<int>, ends: seq<nat>) {
    Plausible(x, ends) && KeptEnds(x, ends, 0) == |ends|
  }

  /** What `WarmPartition` leaves in the block list, accepted or not. */
  ghost function LeftBehind(x: seq<int>, ends: seq<nat>): seq<Block> {
    if Plausible(x, ends) then BlocksOf(x, ends, 0) else []
  }

  method RangeSum(values: seq<int>, begin: nat, end: nat) returns (sum: int)
    requires begin <= end <= |values|
    ensures sum == Moment(values, Ones(|values|), begin, end)
  {
    sum := 0;
    for index := begin to end
      invariant sum == Moment(values, Ones(|values|), begin, index)
    {
      sum := sum + values[index];
    }
  }

  /** One range of the warm partition: rejected, or turned into a block. */
  method KeepRange(values: seq<int>, begin: nat, end: nat) returns (kept: bool, block: Block)
    ensures kept <==> Keepable(values, begin, end)
    ensures kept ==> block == Block(begin, end, Moment(values, Ones(|values|), begin, end))
  {
    block := Block(begin, end, 0);
    if end <= begin || end > |values| { return false, block; }
    var sum := RangeSum(values, begin, end);
    kept := BlockIsIrreducible(values, begin, end, sum);
    block := Block(begin, end, sum);
  }

  method WarmPartition(values: seq<int>, ends: seq<nat>) returns (accepted: bool, blocks: seq<Block>)
    ensures accepted == Accepts(values, ends)
    ensures blocks == LeftBehind(values, ends)
  {
    hide Keepable;
    blocks := [];
    if |values| == 0 || |ends| == 0 || ends[|ends| - 1] != |values| { return false, blocks; }
    var begin: nat := 0;
    for i := 0 to |ends|
      invariant |blocks| == i
      invariant blocks + BlocksOf(values, ends[i..], begin) == BlocksOf(values, ends, 0)
    {
      var kept, block := KeepRange(values, begin, ends[i]);
      if !kept { return false, blocks; }
      blocks := blocks + [block];
      begin := ends[i];
    }
    return true, blocks;
  }

  lemma {:induction false} KeptBlocksAreGood(x: seq<int>, ends: seq<nat>, begin: nat)
    ensures var r := BlocksOf(x, ends, begin);
      && |r| <= |ends|
      && (forall j :: 0 <= j < |r| ==> GoodBlock(x, Ones(|x|), r[j]))
      && (forall j :: 0 <= j < |r| ==> r[j].end == ends[j])
      && (forall j :: 0 < j < |r| ==> r[j].begin == r[j - 1].end)
      && (r != [] ==> r[0].begin == begin)
    decreases |ends|
  {
    if ends != [] && Keepable(x, begin, ends[0]) {
      KeptBlocksAreGood(x, ends[1..], ends[0]);
      var (r, rest) := (BlocksOf(x, ends, begin), BlocksOf(x, ends[1..], ends[0]));
      assert r[1..] == rest;
      forall j | 0 <= j < |r| ensures GoodBlock(x, Ones(|x|), r[j]) && r[j].end == ends[j] {
        if j > 0 {
          assert r[j] == rest[j - 1];
        }
      }
      forall j | 0 < j < |r| ensures r[j].begin == r[j - 1].end {
        assert r[j] == rest[j - 1] && (j > 1 ==> r[j - 1] == rest[j - 2]);
      }
    }
  }

  // ---- the list handed to the pooling loop ----

  ghost function StartBlocks(x: seq<int>, warm: Option<seq<nat>>): seq<Block> {
    match warm
    case None => Singletons(x, Ones(|x|))
    case Some(ends) =>
      if Accepts(x, ends) then LeftBehind(x, ends) else LeftBehind(x, ends) + Singletons(x, Ones(|x|))
  }

  /** Accepted, or rejected with nothing kept. */
  ghost predicate CleanStart(x: seq<int>, warm: Option<seq<nat>>) {
    warm.None? || Accepts(x, warm.value) || LeftBehind(x, warm.value) == []
  }

  lemma AcceptedTiles(x: seq<int>, ends: seq<nat>)
    requires Accepts(x, ends)
    ensures Tiles(x, Ones(|x|), LeftBehind(x, ends), |x|)
  {
    hide Irreducible;
    KeptBlocksAreGood(x, ends, 0);
  }

  /** Two coverings of the same values one after the other are not a tiling. */
  lemma DoubledStartDoesNotTile(x: seq<int>, w: seq<int>, left: seq<Block>, right: seq<Block>, upto: nat)
    requires |x| == |w| && left != [] && right != []
    requires left[|left| - 1].end > 0 && right[0].begin == 0
    ensures !Tiles(x, w, left + right, upto)
  {
    var both := left + right;
    assert both[|left|] == right[0] && both[|left| - 1] == left[|left| - 1];
  }

  /** The pooling loop starts from a tiling of the values exactly when the start is clean. */
  lemma StartTilesIffClean(x: seq<int>, warm: Option<seq<nat>>)
    ensures Tiles(x, Ones(|x|), StartBlocks(x, warm), |x|) <==> x == [] || CleanStart(x, warm)
  {
    hide Irreducible;
    var w := Ones(|x|);
    SingletonsTile(x, w);
    if warm.Some? {
      var left := LeftBehind(x, warm.value);
      if Accepts(x, warm.value) {
        AcceptedTiles(x, warm.value);
      } else if left == [] {
        assert left + Singletons(x, w) == Singletons(x, w);
      } else {
        KeptBlocksAreGood(x, warm.value, 0);
        assert GoodBlock(x, w, left[|left| - 1]);
        DoubledStartDoesNotTile(x, w, left, Singletons(x, w), |x|);
      }
    }
  }

  // ---- the projection ----

  ghost function FlooredMean(): Block -> int {
    (b: Block) => if b.begin < b.end then FloorDiv(b.sum, b.end - b.begin) else 0
  }

  ghost function ColdBlocks(x: seq<int>): (r: seq<Block>)
    ensures Tiles(x, Ones(|x|), r, |x|)
  {
    CountWeighs(|x|);
    SingletonsTile(x, Ones(|x|));
    PoolingTiles(x, Ones(|x|), Count, Singletons(x, Ones(|x|)), |x|);
    PoolAll(Count, Singletons(x, Ones(|x|)))
  }

  /** The values the solver is meant to produce. */
  ghost function FloorProjection(x: seq<int>): (z: seq<int>)
    ensures |z| == |x|
  {
    PaintTakesValues(x, Ones(|x|), ColdBlocks(x), |x|, FlooredMean());
    assert forall j :: 0 <= j < |ColdBlocks(x)| ==> InBounds(Ones(|x|), ColdBlocks(x)[j]);
    Paint(ColdBlocks(x), FlooredMean())
  }

  lemma FloorOfMean(x: seq<int>, b: Block)
    requires InBounds(Ones(|x|), b) && Positive(Ones(|x|))
    ensures 0.0 <= Mean(x, Ones(|x|), b) - FlooredMean()(b) as real < 1.0
  {
    MassOfOnes(|x|, b.begin, b.end);
    WithinOne(b.sum, b.end - b.begin, FloorDiv(b.sum, b.end - b.begin));
  }

  /** On any tiling, the painted value at i is the floor of the fit at i. */
  lemma PaintedIsFlooredFit(x: seq<int>, blocks: seq<Block>, i: nat)
    requires Tiles(x, Ones(|x|), blocks, |x|) && Positive(Ones(|x|)) && i < |x|
    requires forall j :: 0 <= j < |blocks| ==> blocks[j].begin <= blocks[j].end
    requires FitOf(x, Ones(|x|), blocks, Fit(x, Ones(|x|), blocks))
    ensures |Paint(blocks, FlooredMean())| == |x|
    ensures 0.0 <= Fit(x, Ones(|x|), blocks)[i] - Paint(blocks, FlooredMean())[i] as real < 1.0
  {
    hide Irreducible;
    var w := Ones(|x|);
    PaintTakesValues(x, w, blocks, |x|, FlooredMean());
    var j := BlockOf(x, w, blocks, |x|, i);
    var b := blocks[j];
    FloorOfMean(x, b);
    assert ConstantOn(Fit(x, w, blocks), Mean(x, w, b), b.begin, b.end);
    assert PaintedOn(Paint(blocks, FlooredMean()), FlooredMean()(b), b.begin, b.end);
  }

  /** What pooling a tiling leaves, packaged for painting. */
  ghost predicate FittedBlocks(x: seq<int>, blocks: seq<Block>) {
    && Tiles(x, Ones(|x|), blocks, |x|)
    && Positive(Ones(|x|))
    && (forall j :: 0 <= j < |blocks| ==> blocks[j].begin <= blocks[j].end)
    && (forall j :: 0 <= j < |blocks| ==> InBounds(Ones(|x|), blocks[j]))
    && FitOf(x, Ones(|x|), blocks, Fit(x, Ones(|x|), blocks))
    && Rising(Fit(x, Ones(|x|), blocks))
  }

  lemma PooledIsFitted(x: seq<int>, start: seq<Block>)
    requires Tiles(x, Ones(|x|), start, |x|)
    ensures FittedBlocks(x, PoolAll(Count, start))
  {
    hide Irreducible;
    CountWeighs(|x|);
    PoolingFits(x, Ones(|x|), Count, start);
    var pooled := PoolAll(Count, start);
    assert forall j :: 0 <= j < |pooled| ==> InBounds(Ones(|x|), pooled[j]);
  }

  lemma SameFitSamePaint(x: seq<int>, blocks: seq<Block>, other: seq<Block>)
    requires FittedBlocks(x, blocks) && FittedBlocks(x, other)
    ensures Paint(blocks, FlooredMean()) == Paint(other, FlooredMean())
  {
    hide Irreducible;
    var w := Ones(|x|);
    FitIsUnique(x, w, blocks, Fit(x, w, blocks), other, Fit(x, w, other));
    PaintTakesValues(x, w, blocks, |x|, FlooredMean());
    PaintTakesValues(x, w, other, |x|, FlooredMean());
    forall i | 0 <= i < |x| ensures Paint(blocks, FlooredMean())[i] == Paint(other, FlooredMean())[i] {
      PaintedIsFlooredFit(x, blocks, i);
      PaintedIsFlooredFit(x, other, i);
    }
  }

  /** Starting the pooling from any tiling by irreducible blocks gives the cold projection. */
  lemma AnyTilingProjectsAlike(x: seq<int>, start: seq<Block>)
    requires Tiles(x, Ones(|x|), start, |x|)
    ensures FittedBlocks(x, PoolAll(Count, start))
    ensures Paint(PoolAll(Count, start), FlooredMean()) == FloorProjection(x)
  {
    hide Irreducible;
    SingletonsTile(x, Ones(|x|));
    PooledIsFitted(x, start);
    PooledIsFitted(x, Singletons(x, Ones(|x|)));
    SameFitSamePaint(x, PoolAll(Count, start), ColdBlocks(x));
  }

  // ---- the solver method ----

  datatype Failure = ZeroWeight | RangeOverflow | OutsideValues

  datatype Projection =
    | Projected(projected: seq<int>, blockEnds: seq<nat>)
    | Failed(reason: Failure)

  /** Writes one pooled block: its floored mean over its range. */
  function WriteBlock(so: Projection, n: nat, b: Block): Projection {
    match so
    case Failed(_) => so
    case Projected(z, ends) =>
      if Count(b) <= 0 then Failed(ZeroWeight)
      else
        var value := FloorDiv(b.sum, Count(b));
        if !IsRep(value) then Failed(RangeOverflow)
        else if b.begin > b.end || b.end > n || |z| != n then Failed(OutsideValues)
        else Projected(z[..b.begin] + seq(b.end - b.begin, _ => value) + z[b.end..], ends + [b.end])
  }

  ghost function WriteAll(n: nat, blocks: seq<Block>): Projection {
    if blocks == [] then Projected(seq(n, _ => 0), [])
    else WriteBlock(WriteAll(n, blocks[..|blocks| - 1]), n, blocks[|blocks| - 1])
  }

  ghost function EndsOf(blocks: seq<Block>): seq<nat> {
    seq(|blocks|, j requires 0 <= j < |blocks| => blocks[j].end)
  }

  method SettleTop(stack: seq<Block>) returns (pooled: seq<Block>)
    ensures pooled == Settle(Count, stack)
  {
    pooled := stack;
    while |pooled| >= 2 && MeanGreater(Count, pooled[|pooled| - 2], pooled[|pooled| - 1])
      invariant Settle(Count, pooled) == Settle(Count, stack)
      decreases |pooled|
    {
      ghost var (before, n) := (pooled, |pooled|);
      var right := pooled[|pooled| - 1];
      pooled := pooled[..|pooled| - 1];
      var left := pooled[|pooled| - 1];
      pooled := pooled[..|pooled| - 1] + [Join(left, right)];
      assert pooled == before[..n - 2] + [Join(before[n - 2], before[n - 1])];
    }
  }

  method AppendSingletons(kept: seq<Block>, values: seq<int>) returns (blocks: seq<Block>)
    ensures blocks == kept + Singletons(values, Ones(|values|))
  {
    blocks := kept;
    ghost var singles := Singletons(values, Ones(|values|));
    for index := 0 to |values|
      invariant blocks == kept + singles[..index]
    {
      blocks := blocks + [Block(index, index + 1, values[index])];
    }
    assert singles[..|values|] == singles;
  }

  method PoolBlocks(blocks: seq<Block>) returns (pooled: seq<Block>)
    ensures pooled == PoolAll(Count, blocks)
  {
    pooled := [];
    for i := 0 to |blocks|
      invariant pooled == PoolAll(Count, blocks[..i])
    {
      assert blocks[..i + 1][..i] == blocks[..i];
      pooled := SettleTop(pooled + [blocks[i]]);
    }
    assert blocks[..|blocks|] == blocks;
  }

  method WriteBlocks(n: nat, pooled: seq<Block>) returns (result: Projection)
    ensures result == WriteAll(n, pooled)
  {
    result := Projected(seq(n, _ => 0), []);
    for i := 0 to |pooled|
      invariant result == WriteAll(n, pooled[..i])
    {
      assert pooled[..i + 1][..i] == pooled[..i];
      result := WriteBlock(result, n, pooled[i]);
    }
    assert pooled[..|pooled|] == pooled;
  }

  method IsotonicFloorProjection(values: seq<int>, warm: Option<seq<nat>>)
    returns (result: Projection, attempted: bool, accepted: bool)
    ensures values == [] ==> result == Projected([], []) && !attempted && !accepted
    ensures values != [] ==>
      && attempted == warm.Some?
      && accepted == (warm.Some? && Accepts(values, warm.value))
      && result == WriteAll(|values|, PoolAll(Count, StartBlocks(values, warm)))
    ensures AllRep(values) && CleanStart(values, warm) ==>
      result.Projected? && result.projected == FloorProjection(values)
  {
    result, attempted, accepted := Projected([], []), false, false;
    if |values| == 0 { return; }
    var blocks: seq<Block> := [];
    if warm.Some? {
      attempted := true;
      accepted, blocks := WarmPartition(values, warm.value);
    }
    if !accepted {
      ghost var left := blocks;
      blocks := AppendSingletons(blocks, values);
      assert left == [] ==> blocks == Singletons(values, Ones(|values|));
    }
    var pooled := PoolBlocks(blocks);
    result := WriteBlocks(|values|, pooled);
    if CleanStart(values, warm) && AllRep(values) {
      CleanStartProjects(values, warm);
    }
  }

  lemma WritePush(n: nat, blocks: seq<Block>, b: Block)
    ensures WriteAll(n, blocks + [b]) == WriteBlock(WriteAll(n, blocks), n, b)
  {
    assert (blocks + [b])[..|blocks|] == blocks;
  }

  // ---- what a clean start computes ----

  /** A floored mean lies within the data, so narrowing it to a raw value cannot overflow. */
  lemma FlooredMeanBetween(x: seq<int>, b: Block, least: int, most: int)
    requires GoodBlock(x, Ones(|x|), b)
    requires forall i :: 0 <= i < |x| ==> least <= x[i] <= most
    ensures least <= FlooredMean()(b) <= most
  {
    MassOfOnes(|x|, b.begin, b.end);
    CountWeighs(|x|);
    MomentBetween(x, Ones(|x|), b.begin, b.end, least, most);
    var (s, m, q) := (b.sum, b.end - b.begin, FlooredMean()(b));
    StrictProducts(q, least, m);
    StrictProducts(most, q, m);
  }

  /** Writing out a tiling succeeds and yields its painted values and its block ends. */
  lemma {:induction false} WritingATiling(x: seq<int>, blocks: seq<Block>, upto: nat)
    requires Tiles(x, Ones(|x|), blocks, upto) && upto <= |x| && AllRep(x)
    requires forall j :: 0 <= j < |blocks| ==> blocks[j].begin <= blocks[j].end
    ensures WriteAll(|x|, blocks).Projected?
    ensures WriteAll(|x|, blocks).projected == Paint(blocks, FlooredMean()) + seq(|x| - upto, _ => 0)
    ensures WriteAll(|x|, blocks).blockEnds == EndsOf(blocks)
  {
    hide Irreducible;
    if blocks != [] {
      var last := |blocks| - 1;
      var b := blocks[last];
      WritingATiling(x, blocks[..last], b.begin);
      PaintTakesValues(x, Ones(|x|), blocks[..last], b.begin, FlooredMean());
      assert GoodBlock(x, Ones(|x|), b);
      FlooredMeanBetween(x, b, MIN_REP, MAX_REP);
      assert EndsOf(blocks) == EndsOf(blocks[..last]) + [b.end];
    }
  }

  /** From a clean start the solver yields the cold projection: a warm start never shows. */
  lemma CleanStartProjects(x: seq<int>, warm: Option<seq<nat>>)
    requires x != [] && AllRep(x) && CleanStart(x, warm)
    ensures WriteAll(|x|, PoolAll(Count, StartBlocks(x, warm))).Projected?
    ensures WriteAll(|x|, PoolAll(Count, StartBlocks(x, warm))).projected == FloorProjection(x)
  {
    hide Irreducible;
    hide GoodBlock;
    hide StartBlocks;
    hide PoolAll;
    hide Paint;
    hide FloorProjection;
    hide WriteAll;
    StartTilesIffClean(x, warm);
    var pooled := PoolAll(Count, StartBlocks(x, warm));
    AnyTilingProjectsAlike(x, StartBlocks(x, warm));
    WritingATiling(x, pooled, |x|);
  }

  // ---- properties of the projection ----

  /** Projected values stay within the bounds of the data. */
  lemma ProjectionBetween(x: seq<int>, least: int, most: int)
    requires forall i :: 0 <= i < |x| ==> least <= x[i] <= most
    ensures forall i :: 0 <= i < |x| ==> least <= FloorProjection(x)[i] <= most
  {
    hide Irreducible;
    var (w, blocks) := (Ones(|x|), ColdBlocks(x));
    PaintTakesValues(x, w, blocks, |x|, FlooredMean());
    forall i | 0 <= i < |x| ensures least <= FloorProjection(x)[i] <= most {
      var j := BlockOf(x, w, blocks, |x|, i);
      FlooredMeanBetween(x, blocks[j], least, most);
      assert PaintedOn(FloorProjection(x), FlooredMean()(blocks[j]), blocks[j].begin, blocks[j].end);
    }
  }

  lemma ProjectionRises(x: seq<int>)
    ensures Nondecreasing(FloorProjection(x))
  {
    hide Irreducible;
    var (w, blocks) := (Ones(|x|), ColdBlocks(x));
    CountWeighs(|x|);
    SingletonsTile(x, w);
    PoolingFits(x, w, Count, Singletons(x, w));
    var (g, z) := (Fit(x, w, blocks), FloorProjection(x));
    assert forall j :: 0 <= j < |blocks| ==> InBounds(w, blocks[j]);
    forall i, j | 0 <= i <= j < |z| ensures z[i] <= z[j] {
      PaintedIsFlooredFit(x, blocks, i);
      PaintedIsFlooredFit(x, blocks, j);
      assert g[i] <= g[j];
    }
  }

  /** What the first k outputs lose against the first k inputs. */
  function Residual(x: seq<int>, z: seq<int>, k: nat): int
    requires k <= |x| && k <= |z|
  {
    if k == 0 then 0 else Residual(x, z, k - 1) + x[k - 1] - z[k - 1]
  }

  lemma {:induction false} ResidualOnBlock(x: seq<int>, z: seq<int>, q: int, lo: nat, k: nat)
    requires lo <= k <= |x| && PaintedOn(z, q, lo, k)
    ensures Residual(x, z, k) == Residual(x, z, lo) + Moment(x, Ones(|x|), lo, k) - q * (k - lo)
    decreases k
  {
    if lo < k {
      ResidualOnBlock(x, z, q, lo, k - 1);
      assert q * (k - lo) == q * (k - 1 - lo) + q;
    }
  }

  /** p averages at least s / n on c values, q is the floor of s / n: then p is at least q on each of the c. */
  lemma FloorBelowPrefix(p: int, c: int, s: int, n: int, q: int)
    requires n > 0 && c >= 0 && q * n <= s && p * n >= s * c
    ensures p - q * c >= 0
  {
    assert s * c >= (q * n) * c;
    assert (q * n) * c == (q * c) * n;
    assert (p - q * c) * n >= 0;
  }

  lemma BlockResidual(x: seq<int>, z: seq<int>, b: Block, k: nat)
    requires GoodBlock(x, Ones(|x|), b) && b.begin <= k <= b.end
    requires PaintedOn(z, FlooredMean()(b), b.begin, b.end)
    ensures Residual(x, z, k) >= Residual(x, z, b.begin)
    ensures Residual(x, z, b.end) <= Residual(x, z, b.begin) + b.end - b.begin - 1
  {
    var q := FlooredMean()(b);
    ResidualOnBlock(x, z, q, b.begin, k);
    ResidualOnBlock(x, z, q, b.begin, b.end);
    MassOfOnes(|x|, b.begin, b.end);
    MassOfOnes(|x|, b.begin, k);
    FloorBelowPrefix(Moment(x, Ones(|x|), b.begin, k), k - b.begin, b.sum, b.end - b.begin, q);
  }

  /** Every prefix of the inputs outweighs its outputs, and in all less than one unit per value is lost. */
  lemma {:induction false} ResidualOfTiling(x: seq<int>, z: seq<int>, blocks: seq<Block>, upto: nat)
    requires Tiles(x, Ones(|x|), blocks, upto) && upto <= |x| == |z|
    requires forall j :: 0 <= j < |blocks| ==>
      PaintedOn(z, FlooredMean()(blocks[j]), blocks[j].begin, blocks[j].end)
    ensures forall k :: 0 <= k <= upto ==> Residual(x, z, k) >= 0
    ensures Residual(x, z, upto) <= upto - |blocks|
  {
    hide Irreducible;
    if blocks != [] {
      var last := |blocks| - 1;
      var b := blocks[last];
      ResidualOfTiling(x, z, blocks[..last], b.begin);
      assert GoodBlock(x, Ones(|x|), b);
      BlockResidual(x, z, b, b.end);
      forall k | 0 <= k <= upto ensures Residual(x, z, k) >= 0 {
        if k > b.begin {
          BlockResidual(x, z, b, k);
        }
      }
    }
  }

  lemma ProjectionResiduals(x: seq<int>)
    ensures forall k :: 0 <= k <= |x| ==> Residual(x, FloorProjection(x), k) >= 0
    ensures x != [] ==> Residual(x, FloorProjection(x), |x|) < |x|
  {
    hide Irreducible;
    PaintTakesValues(x, Ones(|x|), ColdBlocks(x), |x|, FlooredMean());
    ResidualOfTiling(x, FloorProjection(x), ColdBlocks(x), |x|);
  }

  /** A vector that is already in order is left alone. */
  lemma ProjectionOfOrderedIsItself(x: seq<int>)
    requires Nondecreasing(x)
    ensures FloorProjection(x) == x
  {
    hide Irreducible;
    var (w, singles) := (Ones(|x|), Singletons(x, Ones(|x|)));
    SingletonsTile(x, w);
    SortedSingletonsStay(x);
    PaintTakesValues(x, w, singles, |x|, FlooredMean());
    forall i | 0 <= i < |x| ensures FloorProjection(x)[i] == x[i] {
      SingletonFloor(x, i);
      assert PaintedOn(FloorProjection(x), FlooredMean()(singles[i]), singles[i].begin, singles[i].end);
    }
  }

  lemma SingletonFloor(x: seq<int>, i: nat)
    requires i < |x|
    ensures Singletons(x, Ones(|x|))[i] == Block(i, i + 1, x[i]) && FlooredMean()(Block(i, i + 1, x[i])) == x[i]
  {
    FloorIs(x[i], 1, x[i]);
  }

  /** Blocks whose means are already in order are not pooled. */
  lemma {:induction false} OrderedBlocksStay(wt: Scale, blocks: seq<Block>)
    requires Ascending(wt, blocks)
    ensures PoolAll(wt, blocks) == blocks
  {
    hide MeanGreater;
    if blocks != [] {
      var (before, last) := (blocks[..|blocks| - 1], blocks[|blocks| - 1]);
      OrderedBlocksStay(wt, before);
      assert before + [last] == blocks;
    }
  }

  lemma SortedSingletonsStay(x: seq<int>)
    requires Nondecreasing(x)
    ensures PoolAll(Count, Singletons(x, Ones(|x|))) == Singletons(x, Ones(|x|))
  {
    OrderedBlocksStay(Count, Singletons(x, Ones(|x|)));
  }

  /** Projecting twice changes nothing more. */
  lemma ProjectionIsIdempotent(x: seq<int>)
    ensures FloorProjection(FloorProjection(x)) == FloorProjection(x)
  {
    ProjectionRises(x);
    ProjectionOfOrderedIsItself(FloorProjection(x));
  }

  // ---- a rejected warm start that kept a block ----

  lemma SettleOnce(l: Block, r: Block, stack: seq<Block>)
    requires MeanGreater(Count, l, r)
    ensures Settle(Count, stack + [l, r]) == Settle(Count, stack + [Join(l, r)])
  {
    var s := stack + [l, r];
    assert s[..|s| - 2] == stack;
  }

  lemma PoolPush(blocks: seq<Block>, b: Block)
    ensures PoolAll(Count, blocks + [b]) == Settle(Count, PoolAll(Count, blocks) + [b])
  {
    assert (blocks + [b])[..|blocks|] == blocks;
  }

  /** A pushed block joins the top of the stack, and the joined block stays there. */
  lemma PushJoins(blocks: seq<Block>, b: Block, stack: seq<Block>, under: Block, top: Block)
    requires PoolAll(Count, blocks) == stack + [under, top]
    requires MeanGreater(Count, top, b) && !MeanGreater(Count, under, Join(top, b))
    ensures PoolAll(Count, blocks + [b]) == stack + [under, Join(top, b)]
  {
    hide MeanGreater;
    PoolPush(blocks, b);
    assert stack + [under, top] + [b] == (stack + [under]) + [top, b];
    SettleOnce(top, b, stack + [under]);
    assert stack + [under] + [Join(top, b)] == stack + [under, Join(top, b)];
  }

  lemma PairJoinsOn(blocks: seq<Block>, b: Block, under: Block, top: Block)
    requires PoolAll(Count, blocks) == [under, top]
    requires MeanGreater(Count, top, b) && !MeanGreater(Count, under, Join(top, b))
    ensures PoolAll(Count, blocks + [b]) == [under, Join(top, b)]
  {
    hide MeanGreater;
    hide PoolAll;
    hide Settle;
    PushJoins(blocks, b, [], under, top);
  }

  lemma PushStays(blocks: seq<Block>, b: Block, stack: seq<Block>, top: Block)
    requires PoolAll(Count, blocks) == stack + [top] && !MeanGreater(Count, top, b)
    ensures PoolAll(Count, blocks + [b]) == stack + [top, b]
  {
    PoolPush(blocks, b);
    assert stack + [top] + [b] == stack + [top, b];
  }

  lemma PairJoins(l: Block, r: Block)
    requires MeanGreater(Count, l, r)
    ensures Settle(Count, [l, r]) == [Join(l, r)]
  {
    hide MeanGreater;
    SettleOnce(l, r, []);
    assert [] + [l, r] == [l, r] && [] + [Join(l, r)] == [Join(l, r)];
  }

  /** A pushed block joins the only block of the stack. */
  lemma OnlyJoins(blocks: seq<Block>, b: Block, top: Block)
    requires PoolAll(Count, blocks) == [top] && MeanGreater(Count, top, b)
    ensures PoolAll(Count, blocks + [b]) == [Join(top, b)]
  {
    hide MeanGreater;
    PoolPush(blocks, b);
    PairJoins(top, b);
    assert [top] + [b] == [top, b];
  }

  /** A pushed block joins both blocks of the stack. */
  lemma BothJoin(blocks: seq<Block>, b: Block, under: Block, top: Block)
    requires PoolAll(Count, blocks) == [under, top]
    requires MeanGreater(Count, top, b) && MeanGreater(Count, under, Join(top, b))
    ensures PoolAll(Count, blocks + [b]) == [Join(under, Join(top, b))]
  {
    hide MeanGreater;
    PoolPush(blocks, b);
    SettleOnce(top, b, [under]);
    PairJoins(under, Join(top, b));
    assert [under, top] + [b] == [under] + [top, b] && [under] + [Join(top, b)] == [under, Join(top, b)];
  }

  /**
   Values [10, 0, 3] with warm ends [1, 3]: the block [0, 1) is kept, the range [1, 3) is rejected,
   and the block kept is counted a second time.  The solver answers [7, 7, 7]; the projection is
   [4, 4, 4].
   */
  lemma RejectedWarmStartDiverges()
    ensures var (x, warm) := ([10, 0, 3], Some([1, 3]));
      && !CleanStart(x, warm) && StartBlocks(x, warm) == [Block(0, 1, 10), Block(0, 1, 10), Block(1, 2, 0), Block(2, 3, 3)]
      && WriteAll(3, PoolAll(Count, StartBlocks(x, warm))) == Projected([7, 7, 7], [3])
      && FloorProjection(x) == [4, 4, 4]
  {
    StaleBlocks();
    PoolStale();
    ColdAnswer();
    hide StartBlocks;
    hide PoolAll;
    hide FloorProjection;
    FloorIs(23, 3, 7);
  }

  lemma ColdAnswer()
    ensures FloorProjection([10, 0, 3]) == [4, 4, 4]
  {
    hide Irreducible;
    var x := [10, 0, 3];
    StaleBlocks();
    PoolCold();
    PaintTakesValues(x, Ones(3), ColdBlocks(x), 3, FlooredMean());
    assert ColdBlocks(x)[0] == Block(0, 3, 13);
    FloorIs(13, 3, 4);
    assert FlooredMean()(Block(0, 3, 13)) == 4;
    assert PaintedOn(FloorProjection(x), 4, 0, 3);
  }

  lemma FloorIs(s: int, m: int, q: int)
    requires m > 0 && 0 <= s - q * m < m
    ensures FloorDiv(s, m) == q
  {
    StrictProducts(FloorDiv(s, m), q, m);
    StrictProducts(q, FloorDiv(s, m), m);
  }

  lemma StaleBlocks()
    ensures var (x, ends) := ([10, 0, 3], [1, 3]);
      && !Accepts(x, ends) && LeftBehind(x, ends) == [Block(0, 1, 10)]
      && Singletons(x, Ones(3)) == [Block(0, 1, 10), Block(1, 2, 0), Block(2, 3, 3)]
      && StartBlocks(x, Some(ends)) == [Block(0, 1, 10), Block(0, 1, 10), Block(1, 2, 0), Block(2, 3, 3)]
  {
    var (x, ends, w) := ([10, 0, 3], [1, 3], Ones(3));
    assert Keepable(x, 0, 1);
    assert ends[1..] == [3];
    assert !Keepable(x, 1, 3) by {
      assert Moment(x, w, 1, 2) * Mass(w, 1, 3) < Moment(x, w, 1, 3) * Mass(w, 1, 2);
    }
    assert BlocksOf(x, [3], 1) == [];
  }

  lemma PoolStale()
    ensures PoolAll(Count, [Block(0, 1, 10), Block(0, 1, 10), Block(1, 2, 0), Block(2, 3, 3)]) == [Block(0, 3, 23)]
  {
    hide Settle;
    var (k, b, c) := (Block(0, 1, 10), Block(1, 2, 0), Block(2, 3, 3));
    OrderedBlocksStay(Count, [k, k]);
    hide PoolAll;
    BothJoin([k, k], b, k, k);
    OnlyJoins([k, k] + [b], c, Block(0, 2, 20));
    assert [k, k, b, c] == [k, k] + [b] + [c];
  }

  lemma PoolCold()
    ensures PoolAll(Count, [Block(0, 1, 10), Block(1, 2, 0), Block(2, 3, 3)]) == [Block(0, 3, 13)]
  {
    hide Settle;
    var (a, b, c) := (Block(0, 1, 10), Block(1, 2, 0), Block(2, 3, 3));
    OrderedBlocksStay(Count, [a]);
    hide PoolAll;
    OnlyJoins([a], b, a);
    OnlyJoins([a] + [b], c, Block(0, 2, 10));
    assert [a, b, c] == [a] + [b] + [c];
  }

  /**
   Being clean is what makes the block list right, not what makes every answer right: on [0, -3, 0]
   with the same warm ends the kept block weighs nothing, and the solver pools to the cold blocks.
   */
  lemma RejectedWarmStartMayAgree()
    ensures var (x, warm) := ([0, -3, 0], Some([1, 3]));
      && !CleanStart(x, warm)
      && PoolAll(Count, StartBlocks(x, warm)) == PoolAll(Count, Singletons(x, Ones(3)))
  {
    WeightlessBlocks();
    PoolWeightless();
    PoolUnkept();
  }

  lemma WeightlessBlocks()
    ensures var (x, ends) := ([0, -3, 0], [1, 3]);
      && !Accepts(x, ends) && LeftBehind(x, ends) == [Block(0, 1, 0)]
      && Singletons(x, Ones(3)) == [Block(0, 1, 0), Block(1, 2, -3), Block(2, 3, 0)]
      && StartBlocks(x, Some(ends)) == [Block(0, 1, 0), Block(0, 1, 0), Block(1, 2, -3), Block(2, 3, 0)]
  {
    var (x, ends, w) := ([0, -3, 0], [1, 3], Ones(3));
    assert Keepable(x, 0, 1);
    assert ends[1..] == [3];
    assert !Keepable(x, 1, 3) by {
      assert Moment(x, w, 1, 2) * Mass(w, 1, 3) < Moment(x, w, 1, 3) * Mass(w, 1, 2);
    }
    assert BlocksOf(x, [3], 1) == [];
  }

  lemma PoolWeightless()
    ensures PoolAll(Count, [Block(0, 1, 0), Block(0, 1, 0), Block(1, 2, -3), Block(2, 3, 0)])
      == [Block(0, 2, -3), Block(2, 3, 0)]
  {
    hide Settle;
    var (k, b, c) := (Block(0, 1, 0), Block(1, 2, -3), Block(2, 3, 0));
    OrderedBlocksStay(Count, [k, k]);
    hide PoolAll;
    BothJoin([k, k], b, k, k);
    PushStays([k, k] + [b], c, [], Block(0, 2, -3));
    assert [k, k, b, c] == [k, k] + [b] + [c];
  }

  lemma PoolUnkept()
    ensures PoolAll(Count, [Block(0, 1, 0), Block(1, 2, -3), Block(2, 3, 0)]) == [Block(0, 2, -3), Block(2, 3, 0)]
  {
    hide Settle;
    var (a, b, c) := (Block(0, 1, 0), Block(1, 2, -3), Block(2, 3, 0));
    OrderedBlocksStay(Count, [a]);
    hide PoolAll;
    OnlyJoins([a], b, a);
    PushStays([a] + [b], c, [], Block(0, 2, -3));
    assert [a, b, c] == [a] + [b] + [c];
  }
}
