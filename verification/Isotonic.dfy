/**
 Pool-adjacent-violators, as the chain solver (unit masses, floored means, optional warm start)
 and the weighted contact projection (integer masses, rounded means) run it.  This module holds
 the specification shared by both: what a block is, what pooling does to a list of blocks, and
 the order/irreducibility facts that every pooled list enjoys.
 */
module Isotonic {

  // ---- sums over index ranges ----

  function Mass(w: seq<int>, lo: nat, hi: nat): int
    requires lo <= hi <= |w|
  {
    if lo == hi then 0 else Mass(w, lo, hi - 1) + w[hi - 1]
  }

  function Moment(x: seq<int>, w: seq<int>, lo: nat, hi: nat): int
    requires lo <= hi <= |x| == |w|
  {
    if lo == hi then 0 else Moment(x, w, lo, hi - 1) + w[hi - 1] * x[hi - 1]
  }

  ghost predicate Positive(w: seq<int>) {
    forall i :: 0 <= i < |w| ==> w[i] > 0
  }

  ghost predicate Nondecreasing(y: seq<int>) {
    forall i, j :: 0 <= i <= j < |y| ==> y[i] <= y[j]
  }

  lemma {:induction false} SumsSplit(x: seq<int>, w: seq<int>, lo: nat, mid: nat, hi: nat)
    requires lo <= mid <= hi <= |x| == |w|
    ensures Mass(w, lo, hi) == Mass(w, lo, mid) + Mass(w, mid, hi)
    ensures Moment(x, w, lo, hi) == Moment(x, w, lo, mid) + Moment(x, w, mid, hi)
    decreases hi
  {
    if mid < hi {
      SumsSplit(x, w, lo, mid, hi - 1);
    }
  }

  lemma {:induction false} MassIsPositive(w: seq<int>, lo: nat, hi: nat)
    requires Positive(w) && lo <= hi <= |w|
    ensures Mass(w, lo, hi) >= 0 && (lo < hi ==> Mass(w, lo, hi) > 0)
    decreases hi
  {
    if lo < hi {
      MassIsPositive(w, lo, hi - 1);
    }
  }

  // ---- blocks ----

  datatype Block = Block(begin: nat, end: nat, sum: int)

  predicate InBounds(w: seq<int>, b: Block) {
    b.begin < b.end <= |w|
  }

  /** How much a block weighs: its body count in the chain solver, its total mass in the weighted one. */
  type Scale = Block -> int

  ghost predicate Weighs(wt: Scale, w: seq<int>) {
    forall b :: InBounds(w, b) ==> wt(b) == Mass(w, b.begin, b.end)
  }

  /** Cross-multiplied comparison of two block means. */
  predicate MeanGreater(wt: Scale, l: Block, r: Block) {
    l.sum * wt(r) > r.sum * wt(l)
  }

  /** No prefix of the range averages below the whole range. */
  ghost predicate Irreducible(x: seq<int>, w: seq<int>, lo: nat, hi: nat)
    requires lo <= hi <= |x| == |w|
  {
    forall k :: lo <= k <= hi ==>
      Moment(x, w, lo, k) * Mass(w, lo, hi) >= Moment(x, w, lo, hi) * Mass(w, lo, k)
  }

  ghost predicate GoodBlock(x: seq<int>, w: seq<int>, b: Block)
    requires |x| == |w|
  {
    InBounds(w, b) && b.sum == Moment(x, w, b.begin, b.end) && Irreducible(x, w, b.begin, b.end)
  }

  /** Irreducible blocks with true sums that cover [0, upto) without gap or overlap. */
  ghost predicate Tiles(x: seq<int>, w: seq<int>, blocks: seq<Block>, upto: nat)
    requires |x| == |w|
  {
    && (forall j :: 0 <= j < |blocks| ==> GoodBlock(x, w, blocks[j]))
    && (forall j :: 0 < j < |blocks| ==> blocks[j].begin == blocks[j - 1].end)
    && (if |blocks| == 0 then upto == 0 else blocks[0].begin == 0 && blocks[|blocks| - 1].end == upto)
  }

  ghost predicate Ascending(wt: Scale, blocks: seq<Block>) {
    forall j :: 0 < j < |blocks| ==> !MeanGreater(wt, blocks[j - 1], blocks[j])
  }

  // ---- pooling ----

  function Join(l: Block, r: Block): Block {
    Block(l.begin, r.end, l.sum + r.sum)
  }

  /** Pops and joins while the last two means are out of order. */
  ghost function Settle(wt: Scale, stack: seq<Block>): seq<Block>
    decreases |stack|
  {
    var n := |stack|;
    if n >= 2 && MeanGreater(wt, stack[n - 2], stack[n - 1]) then
      Settle(wt, stack[..n - 2] + [Join(stack[n - 2], stack[n - 1])])
    else stack
  }

  /** Pushes the blocks one at a time, settling after every push. */
  ghost function PoolAll(wt: Scale, blocks: seq<Block>): seq<Block> {
    if blocks == [] then []
    else Settle(wt, PoolAll(wt, blocks[..|blocks| - 1]) + [blocks[|blocks| - 1]])
  }

  lemma ComplementRatio(p: int, q: int, s: int, m: int)
    requires (s - p) * m >= s * (m - q)
    ensures -p * m >= -s * q
  {
    assert (s - p) * m == s * m - p * m && s * (m - q) == s * m - s * q;
  }

  lemma SuffixOfIrreducible(x: seq<int>, w: seq<int>, lo: nat, k: nat, hi: nat)
    requires lo <= k <= hi <= |x| == |w| && Irreducible(x, w, lo, hi)
    ensures -Moment(x, w, k, hi) * Mass(w, lo, hi) >= -Moment(x, w, lo, hi) * Mass(w, k, hi)
  {
    assert Moment(x, w, lo, k) * Mass(w, lo, hi) >= Moment(x, w, lo, hi) * Mass(w, lo, k);
    SuffixFromPrefix(x, w, lo, k, hi);
  }

  lemma SuffixFromPrefix(x: seq<int>, w: seq<int>, lo: nat, k: nat, hi: nat)
    requires lo <= k <= hi <= |x| == |w|
    requires Moment(x, w, lo, k) * Mass(w, lo, hi) >= Moment(x, w, lo, hi) * Mass(w, lo, k)
    ensures -Moment(x, w, k, hi) * Mass(w, lo, hi) >= -Moment(x, w, lo, hi) * Mass(w, k, hi)
  {
    SumsSplit(x, w, lo, k, hi);
    ComplementRatio(Moment(x, w, k, hi), Mass(w, k, hi), Moment(x, w, lo, hi), Mass(w, lo, hi));
  }

  /** Joining two irreducible neighbours whose means are out of order gives an irreducible block. */
  lemma JoinIsIrreducible(x: seq<int>, w: seq<int>, lo: nat, mid: nat, hi: nat)
    requires lo < mid < hi <= |x| == |w| && Positive(w)
    requires Irreducible(x, w, lo, mid) && Irreducible(x, w, mid, hi)
    requires Moment(x, w, lo, mid) * Mass(w, mid, hi) >= Moment(x, w, mid, hi) * Mass(w, lo, mid)
    ensures Irreducible(x, w, lo, hi)
  {
    forall k | lo <= k <= hi
      ensures Moment(x, w, lo, k) * Mass(w, lo, hi) >= Moment(x, w, lo, hi) * Mass(w, lo, k)
    {
      JoinedPrefix(x, w, lo, mid, hi, k);
    }
  }

  lemma JoinedPrefix(x: seq<int>, w: seq<int>, lo: nat, mid: nat, hi: nat, k: nat)
    requires lo < mid < hi <= |x| == |w| && Positive(w) && lo <= k <= hi
    requires Irreducible(x, w, lo, mid) && Irreducible(x, w, mid, hi)
    requires Moment(x, w, lo, mid) * Mass(w, mid, hi) >= Moment(x, w, mid, hi) * Mass(w, lo, mid)
    ensures Moment(x, w, lo, k) * Mass(w, lo, hi) >= Moment(x, w, lo, hi) * Mass(w, lo, k)
  {
    if k <= mid {
      JoinedHead(x, w, lo, mid, hi, k);
    } else {
      SuffixOfIrreducible(x, w, mid, k, hi);
      JoinedSuffix(x, w, lo, mid, hi, k);
    }
  }

  lemma JoinedHead(x: seq<int>, w: seq<int>, lo: nat, mid: nat, hi: nat, k: nat)
    requires lo <= k <= mid < hi <= |x| == |w| && Positive(w) && lo < mid
    requires Moment(x, w, lo, k) * Mass(w, lo, mid) >= Moment(x, w, lo, mid) * Mass(w, lo, k)
    requires Moment(x, w, lo, mid) * Mass(w, mid, hi) >= Moment(x, w, mid, hi) * Mass(w, lo, mid)
    ensures Moment(x, w, lo, k) * Mass(w, lo, hi) >= Moment(x, w, lo, hi) * Mass(w, lo, k)
  {
    MassIsPositive(w, lo, mid);
    MassIsPositive(w, mid, hi);
    MassIsPositive(w, lo, k);
    LeftPart(Moment(x, w, lo, k), Mass(w, lo, k),
             Moment(x, w, lo, mid), Mass(w, lo, mid), Moment(x, w, mid, hi), Mass(w, mid, hi));
    SumsSplit(x, w, lo, mid, hi);
  }

  lemma JoinedSuffix(x: seq<int>, w: seq<int>, lo: nat, mid: nat, hi: nat, k: nat)
    requires lo < mid < k <= hi <= |x| == |w| && Positive(w)
    requires -Moment(x, w, k, hi) * Mass(w, mid, hi) >= -Moment(x, w, mid, hi) * Mass(w, k, hi)
    requires Moment(x, w, lo, mid) * Mass(w, mid, hi) >= Moment(x, w, mid, hi) * Mass(w, lo, mid)
    ensures Moment(x, w, lo, k) * Mass(w, lo, hi) >= Moment(x, w, lo, hi) * Mass(w, lo, k)
  {
    MassIsPositive(w, lo, mid);
    MassIsPositive(w, mid, hi);
    MassIsPositive(w, k, hi);
    RightPart(Moment(x, w, k, hi), Mass(w, k, hi),
              Moment(x, w, lo, mid), Mass(w, lo, mid), Moment(x, w, mid, hi), Mass(w, mid, hi));
    SumsSplit(x, w, lo, mid, hi);
    SumsSplit(x, w, lo, k, hi);
  }

  lemma LeftPart(p: int, q: int, sl: int, wl: int, sr: int, wr: int)
    requires wl > 0 && wr > 0 && q >= 0 && sl * wr >= sr * wl
    requires p * wl >= sl * q
    ensures p * (wl + wr) >= (sl + sr) * q
  {
  }

  lemma RightPart(p: int, q: int, sl: int, wl: int, sr: int, wr: int)
    requires wl > 0 && wr > 0 && q >= 0 && sl * wr >= sr * wl
    requires -p * wr >= -sr * q
    ensures (sl + sr - p) * (wl + wr) >= (sl + sr) * (wl + wr - q)
  {
  }

  lemma JoinKeepsTiling(x: seq<int>, w: seq<int>, wt: Scale, stack: seq<Block>, upto: nat)
    requires |x| == |w| && Positive(w) && Weighs(wt, w)
    requires Tiles(x, w, stack, upto) && |stack| >= 2
    requires MeanGreater(wt, stack[|stack| - 2], stack[|stack| - 1])
    ensures Tiles(x, w, stack[..|stack| - 2] + [Join(stack[|stack| - 2], stack[|stack| - 1])], upto)
  {
    hide Irreducible;
    var n := |stack|;
    var (l, r) := (stack[n - 2], stack[n - 1]);
    assert GoodBlock(x, w, l) && GoodBlock(x, w, r) && r.begin == l.end;
    JoinIsIrreducible(x, w, l.begin, l.end, r.end);
    SumsSplit(x, w, l.begin, l.end, r.end);
    assert GoodBlock(x, w, Join(l, r));
  }

  /** Settling keeps the tiling and restores the order of the means. */
  lemma {:induction false} SettleKeepsTiling(x: seq<int>, w: seq<int>, wt: Scale, stack: seq<Block>, upto: nat)
    requires |x| == |w| && Positive(w) && Weighs(wt, w)
    requires Tiles(x, w, stack, upto) && |stack| > 0
    requires Ascending(wt, stack[..|stack| - 1])
    ensures Tiles(x, w, Settle(wt, stack), upto) && Ascending(wt, Settle(wt, stack))
    decreases |stack|
  {
    hide Irreducible;
    var n := |stack|;
    if n >= 2 && MeanGreater(wt, stack[n - 2], stack[n - 1]) {
      var next := stack[..n - 2] + [Join(stack[n - 2], stack[n - 1])];
      JoinKeepsTiling(x, w, wt, stack, upto);
      assert next[..|next| - 1] == stack[..n - 1][..n - 2];
      SettleKeepsTiling(x, w, wt, next, upto);
    } else {
      forall j | 0 < j < n ensures !MeanGreater(wt, stack[j - 1], stack[j]) {
        if j < n - 1 {
          assert !MeanGreater(wt, stack[..n - 1][j - 1], stack[..n - 1][j]);
        }
      }
    }
  }

  /** Pooling any tiling yields a tiling by irreducible blocks with nondecreasing means. */
  lemma {:induction false} PoolingTiles(x: seq<int>, w: seq<int>, wt: Scale, blocks: seq<Block>, upto: nat)
    requires |x| == |w| && Positive(w) && Weighs(wt, w)
    requires Tiles(x, w, blocks, upto)
    ensures Tiles(x, w, PoolAll(wt, blocks), upto) && Ascending(wt, PoolAll(wt, blocks))
  {
    hide Irreducible;
    if blocks != [] {
      var last := |blocks| - 1;
      PoolingTiles(x, w, wt, blocks[..last], blocks[last].begin);
      var pooled := PoolAll(wt, blocks[..last]);
      assert (pooled + [blocks[last]])[..|pooled|] == pooled;
      SettleKeepsTiling(x, w, wt, pooled + [blocks[last]], upto);
    }
  }

  /** One block per value. */
  ghost function Singletons(x: seq<int>, w: seq<int>): seq<Block>
    requires |x| == |w|
  {
    seq(|x|, i requires 0 <= i < |x| => Block(i, i + 1, w[i] * x[i]))
  }

  lemma SingletonsTile(x: seq<int>, w: seq<int>)
    requires |x| == |w|
    ensures Tiles(x, w, Singletons(x, w), |x|)
  {
    forall i | 0 <= i < |x| ensures GoodBlock(x, w, Singletons(x, w)[i]) {
      assert Moment(x, w, i, i + 1) == Moment(x, w, i, i) + w[i] * x[i];
      assert Mass(w, i, i) == 0 && Moment(x, w, i, i) == 0;
    }
  }

  // ---- writing block values back ----

  /** Every position of a block receives the block's value. */
  ghost function Paint(blocks: seq<Block>, value: Block -> int): seq<int>
    requires forall j :: 0 <= j < |blocks| ==> blocks[j].begin <= blocks[j].end
  {
    if blocks == [] then []
    else
      var b := blocks[|blocks| - 1];
      assert b.begin <= b.end;
      Paint(blocks[..|blocks| - 1], value) + seq(b.end - b.begin, _ => value(b))
  }

  ghost predicate PaintedOn(z: seq<int>, v: int, lo: nat, hi: nat) {
    hi <= |z| && forall i :: lo <= i < hi ==> z[i] == v
  }

  lemma {:induction false} PaintTakesValues(x: seq<int>, w: seq<int>, blocks: seq<Block>, upto: nat,
      value: Block -> int)
    requires |x| == |w| && Tiles(x, w, blocks, upto)
    ensures |Paint(blocks, value)| == upto
    ensures forall j :: 0 <= j < |blocks| ==>
      PaintedOn(Paint(blocks, value), value(blocks[j]), blocks[j].begin, blocks[j].end)
  {
    hide Irreducible;
    if blocks != [] {
      var last := |blocks| - 1;
      var b := blocks[last];
      PaintTakesValues(x, w, blocks[..last], b.begin, value);
      var (head, whole) := (Paint(blocks[..last], value), Paint(blocks, value));
      forall j | 0 <= j < |blocks|
        ensures PaintedOn(whole, value(blocks[j]), blocks[j].begin, blocks[j].end)
      {
        if j < last {
          assert blocks[..last][j] == blocks[j];
          assert PaintedOn(head, value(blocks[j]), blocks[j].begin, blocks[j].end);
        }
      }
    }
  }

  /** Every position lies in a block. */
  lemma {:induction false} BlockOf(x: seq<int>, w: seq<int>, blocks: seq<Block>, upto: nat, i: nat) returns (j: nat)
    requires |x| == |w| && Tiles(x, w, blocks, upto) && i < upto
    ensures j < |blocks| && blocks[j].begin <= i < blocks[j].end
  {
    hide Irreducible;
    j := |blocks| - 1;
    while i < blocks[j].begin
      invariant j < |blocks| && i < blocks[j].end
    {
      j := j - 1;
    }
  }

  lemma WeighedBetween(least: int, most: int, m: int, v: int, mass: int, moment: int)
    requires m > 0 && least <= v <= most && least * mass <= moment <= most * mass
    ensures least * (mass + m) <= moment + m * v <= most * (mass + m)
  {
    assert least * m <= m * v <= most * m;
    assert least * (mass + m) == least * mass + least * m && most * (mass + m) == most * mass + most * m;
  }

  lemma {:induction false} MomentBetween(x: seq<int>, w: seq<int>, lo: nat, hi: nat, least: int, most: int)
    requires lo <= hi <= |x| == |w| && Positive(w)
    requires forall i :: 0 <= i < |x| ==> least <= x[i] <= most
    ensures least * Mass(w, lo, hi) <= Moment(x, w, lo, hi) <= most * Mass(w, lo, hi)
    decreases hi
  {
    if lo < hi {
      MomentBetween(x, w, lo, hi - 1, least, most);
      WeighedBetween(least, most, w[hi - 1], x[hi - 1], Mass(w, lo, hi - 1), Moment(x, w, lo, hi - 1));
    }
  }
}
