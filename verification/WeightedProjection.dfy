/**
 The total-order reduction of the weighted contact projection: pool adjacent violators over
 integer masses in preallocated scratch arrays, then round every block mean.  Proved to be the
 exact integer optimum that the fuzzers' oracles search for.
 */
module WeightedProjection {
  import opened Isotonic
  import opened RealFit
  import opened WideInteger

  ghost function MassScale(w: seq<int>): Scale {
    b => if InBounds(w, b) then Mass(w, b.begin, b.end) else 0
  }

  ghost function RoundedMean(w: seq<int>): Block -> int {
    b => if InBounds(w, b) && Mass(w, b.begin, b.end) > 0 then RoundedDiv(b.sum, Mass(w, b.begin, b.end)) else 0
  }

  ghost function PooledBlocks(x: seq<int>, w: seq<int>): (r: seq<Block>)
    requires |x| == |w| && Positive(w)
    ensures Tiles(x, w, r, |x|)
  {
    SingletonsTile(x, w);
    PoolingTiles(x, w, MassScale(w), Singletons(x, w), |x|);
    PoolAll(MassScale(w), Singletons(x, w))
  }

  /** The projection of integer values x with masses w. */
  ghost function PavProjection(x: seq<int>, w: seq<int>): (z: seq<int>)
    requires |x| == |w| && Positive(w)
    ensures |z| == |x|
  {
    PaintTakesValues(x, w, PooledBlocks(x, w), |x|, RoundedMean(w));
    assert forall j :: 0 <= j < |PooledBlocks(x, w)| ==> InBounds(w, PooledBlocks(x, w)[j]);
    Paint(PooledBlocks(x, w), RoundedMean(w))
  }

  lemma PavIsNearFit(x: seq<int>, w: seq<int>)
    requires |x| == |w| && Positive(w)
    ensures FitOf(x, w, PooledBlocks(x, w), Fit(x, w, PooledBlocks(x, w)))
    ensures Rising(Fit(x, w, PooledBlocks(x, w)))
    ensures forall i :: 0 <= i < |x| ==>
      -0.5 < Fit(x, w, PooledBlocks(x, w))[i] - PavProjection(x, w)[i] as real <= 0.5
  {
    hide Irreducible;
    SingletonsTile(x, w);
    PoolingFits(x, w, MassScale(w), Singletons(x, w));
    var blocks := PooledBlocks(x, w);
    var (g, z) := (Fit(x, w, blocks), PavProjection(x, w));
    PaintTakesValues(x, w, blocks, |x|, RoundedMean(w));
    forall i | 0 <= i < |x| ensures -0.5 < g[i] - z[i] as real <= 0.5 {
      var j := BlockOf(x, w, blocks, |x|, i);
      var b := blocks[j];
      MassIsPositive(w, b.begin, b.end);
      WithinHalf(b.sum, Mass(w, b.begin, b.end), RoundedDiv(b.sum, Mass(w, b.begin, b.end)));
      assert ConstantOn(g, Mean(x, w, b), b.begin, b.end);
      assert PaintedOn(z, RoundedMean(w)(b), b.begin, b.end);
    }
  }

  /** The projection is feasible and no nondecreasing integer vector is cheaper. */
  lemma PavIsOptimal(x: seq<int>, w: seq<int>)
    requires |x| == |w| && Positive(w)
    ensures Nondecreasing(PavProjection(x, w))
    ensures forall y: seq<int> :: |y| == |x| && Nondecreasing(y) ==>
      Cost(x, w, PavProjection(x, w)) <= Cost(x, w, y)
  {
    hide Irreducible;
    PavIsNearFit(x, w);
    var blocks := PooledBlocks(x, w);
    var (g, z) := (Fit(x, w, blocks), PavProjection(x, w));
    forall i, j | 0 <= i <= j < |z| ensures z[i] <= z[j] {
      assert g[i] <= g[j];
    }
    PaintTakesValues(x, w, blocks, |x|, RoundedMean(w));
    forall j | 0 <= j < |blocks|
      ensures PaintedOn(z, z[blocks[j].begin], blocks[j].begin, blocks[j].end)
    {
      assert PaintedOn(z, RoundedMean(w)(blocks[j]), blocks[j].begin, blocks[j].end);
    }
    forall y: seq<int> | |y| == |x| && Nondecreasing(y) ensures Cost(x, w, z) <= Cost(x, w, y) {
      RoundedFitIsOptimal(x, w, blocks, g, z, y);
    }
  }

  lemma RoundedBetween(s: int, m: int, q: int, least: int, most: int)
    requires m > 0 && -m < 2 * (s - q * m) <= m
    requires least * m <= s <= most * m
    ensures least <= q <= most
  {
    StrictProducts(q, least, m);
    StrictProducts(most, q, m);
  }

  /** Projected values never leave the range of the input, so narrowing them back cannot overflow. */
  lemma PavStaysInRange(x: seq<int>, w: seq<int>, least: int, most: int)
    requires |x| == |w| && Positive(w)
    requires forall i :: 0 <= i < |x| ==> least <= x[i] <= most
    ensures forall i :: 0 <= i < |x| ==> least <= PavProjection(x, w)[i] <= most
  {
    hide Irreducible;
    var (blocks, z) := (PooledBlocks(x, w), PavProjection(x, w));
    PaintTakesValues(x, w, blocks, |x|, RoundedMean(w));
    forall i | 0 <= i < |x| ensures least <= z[i] <= most {
      var j := BlockOf(x, w, blocks, |x|, i);
      var b := blocks[j];
      assert PaintedOn(z, RoundedMean(w)(b), b.begin, b.end);
      MassIsPositive(w, b.begin, b.end);
      MomentBetween(x, w, b.begin, b.end, least, most);
      RoundedBetween(b.sum, Mass(w, b.begin, b.end), RoundedDiv(b.sum, Mass(w, b.begin, b.end)), least, most);
    }
  }

  // ---- the in-place solver ----

  /** Preallocated block stack: four parallel arrays. */
  class PavScratch {
    const begin: array<nat>
    const end: array<nat>
    const weight: array<int>
    const sum: array<int>

    constructor (capacity: nat)
      ensures Sized(capacity) && fresh(begin) && fresh(end) && fresh(weight) && fresh(sum)
    {
      begin, end := new nat[capacity], new nat[capacity];
      weight, sum := new int[capacity], new int[capacity];
    }

    ghost predicate Sized(capacity: nat) {
      begin.Length == end.Length == weight.Length == sum.Length == capacity
      && begin != end && weight != sum
    }

    /** The first entries hold exactly the given blocks, with their true masses. */
    ghost predicate Holds(w: seq<int>, stack: seq<Block>)
      reads begin, end, weight, sum
    {
      && Sized(begin.Length) && |stack| <= begin.Length
      && (forall j :: 0 <= j < |stack| ==> InBounds(w, stack[j]))
      && (forall j :: 0 <= j < |stack| ==> begin[j] == stack[j].begin)
      && (forall j :: 0 <= j < |stack| ==> end[j] == stack[j].end)
      && (forall j :: 0 <= j < |stack| ==> sum[j] == stack[j].sum)
      && (forall j :: 0 <= j < |stack| ==> weight[j] == Mass(w, stack[j].begin, stack[j].end))
    }

    method Place(blocks: nat, local: nat, mass: int, value: int, ghost x: seq<int>, ghost w: seq<int>,
        ghost stack: seq<Block>)
      requires Holds(w, stack) && blocks == |stack| < begin.Length
      requires local < |w| == |x| && mass == w[local] && value == x[local]
      modifies begin, end, weight, sum
      ensures Holds(w, stack + [Singletons(x, w)[local]])
    {
      begin[blocks] := local;
      end[blocks] := local + 1;
      weight[blocks] := mass;
      sum[blocks] := mass * value;
      assert Mass(w, local, local + 1) == Mass(w, local, local) + w[local];
    }

    method JoinTop(blocks: nat, ghost w: seq<int>, ghost stack: seq<Block>)
      requires Holds(w, stack) && blocks == |stack| >= 2
      requires stack[blocks - 2].end == stack[blocks - 1].begin
      modifies begin, end, weight, sum
      ensures Holds(w, stack[..blocks - 2] + [Join(stack[blocks - 2], stack[blocks - 1])])
    {
      end[blocks - 2] := end[blocks - 1];
      sum[blocks - 2] := sum[blocks - 2] + sum[blocks - 1];
      weight[blocks - 2] := weight[blocks - 2] + weight[blocks - 1];
      SumsSplit(w, w, stack[blocks - 2].begin, stack[blocks - 2].end, stack[blocks - 1].end);
    }

    /** Joins from the top until the last two means are in order. */
    method SettleTop(start: nat, ghost x: seq<int>, ghost w: seq<int>, ghost pushed: seq<Block>, ghost upto: nat)
      returns (blocks: nat, ghost stack: seq<Block>)
      requires |x| == |w| && Positive(w) && Holds(w, pushed) && start == |pushed| && Tiles(x, w, pushed, upto)
      modifies begin, end, weight, sum
      ensures stack == Settle(MassScale(w), pushed) && Holds(w, stack) && blocks == |stack|
    {
      blocks, stack := start, pushed;
      while blocks >= 2 && sum[blocks - 2] * weight[blocks - 1] > sum[blocks - 1] * weight[blocks - 2]
        invariant Holds(w, stack) && blocks == |stack| && Tiles(x, w, stack, upto)
        invariant Settle(MassScale(w), stack) == Settle(MassScale(w), pushed)
        decreases blocks
      {
        assert MeanGreater(MassScale(w), stack[blocks - 2], stack[blocks - 1]);
        JoinKeepsTiling(x, w, MassScale(w), stack, upto);
        JoinTop(blocks, w, stack);
        stack := stack[..blocks - 2] + [Join(stack[blocks - 2], stack[blocks - 1])];
        blocks := blocks - 1;
      }
      assert blocks >= 2 ==> !MeanGreater(MassScale(w), stack[blocks - 2], stack[blocks - 1]);
    }

    /** One body joins the pool. */
    method Absorb(blocks: nat, local: nat, mass: int, value: int, ghost x: seq<int>, ghost w: seq<int>)
      returns (next: nat)
      requires |x| == |w| && Positive(w) && local < |w| && mass == w[local] && value == x[local]
      requires Holds(w, PooledPrefix(x, w, local)) && blocks == |PooledPrefix(x, w, local)| < begin.Length
      modifies begin, end, weight, sum
      ensures Holds(w, PooledPrefix(x, w, local + 1)) && next == |PooledPrefix(x, w, local + 1)| <= blocks + 1
    {
      ghost var pushed := PooledPrefix(x, w, local) + [Singletons(x, w)[local]];
      PrefixTiles(x, w, local);
      Place(blocks, local, mass, value, x, w, PooledPrefix(x, w, local));
      ghost var stack;
      next, stack := SettleTop(blocks + 1, x, w, pushed, local + 1);
      SettleShrinks(MassScale(w), pushed);
    }
  }

  /** The block stack once the first `local` bodies have been pooled. */
  ghost function PooledPrefix(x: seq<int>, w: seq<int>, local: nat): seq<Block>
    requires |x| == |w| && local <= |x|
  {
    hide Irreducible;
    PoolAll(MassScale(w), Singletons(x, w)[..local])
  }

  lemma PrefixTiles(x: seq<int>, w: seq<int>, local: nat)
    requires |x| == |w| && Positive(w) && local < |x|
    ensures Tiles(x, w, PooledPrefix(x, w, local) + [Singletons(x, w)[local]], local + 1)
    ensures PooledPrefix(x, w, local + 1)
      == Settle(MassScale(w), PooledPrefix(x, w, local) + [Singletons(x, w)[local]])
  {
    hide Irreducible;
    SingletonsTile(x, w);
    assert Singletons(x, w)[..local + 1][..local] == Singletons(x, w)[..local];
    PoolingTiles(x, w, MassScale(w), Singletons(x, w)[..local], local);
  }

  /** The bodies' values and masses, in the order of the island. */
  ghost function Gather(s: seq<int>, bodies: seq<nat>): seq<int>
    requires forall l :: 0 <= l < |bodies| ==> bodies[l] < |s|
  {
    seq(|bodies|, l requires 0 <= l < |bodies| => s[bodies[l]])
  }

  method PoolInto(original: seq<int>, masses: seq<int>, bodies: seq<nat>, scratch: PavScratch)
    returns (blocks: nat)
    requires |original| == |masses| && forall l :: 0 <= l < |bodies| ==> bodies[l] < |masses|
    requires Positive(Gather(masses, bodies))
    requires scratch.Sized(scratch.begin.Length) && |bodies| <= scratch.begin.Length
    modifies scratch.begin, scratch.end, scratch.weight, scratch.sum
    ensures scratch.Holds(Gather(masses, bodies), PooledBlocks(Gather(original, bodies), Gather(masses, bodies)))
    ensures blocks == |PooledBlocks(Gather(original, bodies), Gather(masses, bodies))|
  {
    hide Irreducible;
    ghost var (x, w) := (Gather(original, bodies), Gather(masses, bodies));
    blocks := 0;
    for local := 0 to |bodies|
      invariant scratch.Holds(w, PooledPrefix(x, w, local)) && blocks == |PooledPrefix(x, w, local)| <= local
    {
      blocks := scratch.Absorb(blocks, local, masses[bodies[local]], original[bodies[local]], x, w);
    }
    assert Singletons(x, w)[..|bodies|] == Singletons(x, w);
  }

  lemma {:induction false} SettleShrinks(wt: Scale, stack: seq<Block>)
    ensures |Settle(wt, stack)| <= |stack|
    decreases |stack|
  {
    var n := |stack|;
    if n >= 2 && MeanGreater(wt, stack[n - 2], stack[n - 1]) {
      SettleShrinks(wt, stack[..n - 2] + [Join(stack[n - 2], stack[n - 1])]);
    }
  }

  method FillBlock(values: array<int>, bodies: seq<nat>, lo: nat, hi: nat, v: int)
    requires lo <= hi <= |bodies| && forall l :: 0 <= l < |bodies| ==> bodies[l] < values.Length
    requires forall l, k :: 0 <= l < k < |bodies| ==> bodies[l] != bodies[k]
    modifies values
    ensures forall l :: lo <= l < hi ==> values[bodies[l]] == v
    ensures forall l :: 0 <= l < |bodies| && !(lo <= l < hi) ==> values[bodies[l]] == old(values[bodies[l]])
    ensures forall b: nat :: b < values.Length && b !in bodies ==> values[b] == old(values[b])
  {
    for local := lo to hi
      invariant forall l :: lo <= l < local ==> values[bodies[l]] == v
      invariant forall l :: 0 <= l < |bodies| && !(lo <= l < local) ==> values[bodies[l]] == old(values[bodies[l]])
      invariant forall b: nat :: b < values.Length && b !in bodies ==> values[b] == old(values[b])
    {
      values[bodies[local]] := v;
    }
  }

  /** Overwrites exactly the island's bodies with the projection of their original values. */
  method WeightedPav(values: array<int>, original: seq<int>, masses: seq<int>, bodies: seq<nat>, scratch: PavScratch)
    requires values.Length == |original| == |masses|
    requires forall l :: 0 <= l < |bodies| ==> bodies[l] < |masses|
    requires forall l, k :: 0 <= l < k < |bodies| ==> bodies[l] != bodies[k]
    requires Positive(Gather(masses, bodies))
    requires scratch.Sized(scratch.begin.Length) && |bodies| <= scratch.begin.Length
    requires values != scratch.weight && values != scratch.sum
    modifies values, scratch.begin, scratch.end, scratch.weight, scratch.sum
    ensures forall l :: 0 <= l < |bodies| ==>
      values[bodies[l]] == PavProjection(Gather(original, bodies), Gather(masses, bodies))[l]
    ensures forall b: nat :: b < values.Length && b !in bodies ==> values[b] == old(values[b])
  {
    hide PavProjection;
    hide PooledBlocks;
    hide Irreducible;
    hide RoundedDiv;
    hide Mass;
    ghost var (x, w) := (Gather(original, bodies), Gather(masses, bodies));
    ghost var stack := PooledBlocks(x, w);
    ghost var z := PavProjection(x, w);
    var blocks := PoolInto(original, masses, bodies, scratch);
    ghost var done: nat := 0;
    for block := 0 to blocks
      invariant scratch.Holds(w, stack)
      invariant done == if block == 0 then 0 else stack[block - 1].end
      invariant done <= |bodies| && (block == blocks ==> done == |bodies|)
      invariant forall l :: 0 <= l < done ==> values[bodies[l]] == z[l]
      invariant forall b: nat :: b < values.Length && b !in bodies ==> values[b] == old(values[b])
    {
      ghost var b := stack[block];
      PaintedBlock(x, w, block);
      var projected := RoundedDiv(scratch.sum[block], scratch.weight[block]);
      FillBlock(values, bodies, scratch.begin[block], scratch.end[block], projected);
      done := b.end;
    }
  }

  lemma PaintedBlock(x: seq<int>, w: seq<int>, j: nat)
    requires |x| == |w| && Positive(w) && j < |PooledBlocks(x, w)|
    ensures var b := PooledBlocks(x, w)[j];
      && InBounds(w, b) && Mass(w, b.begin, b.end) > 0
      && b.begin == (if j == 0 then 0 else PooledBlocks(x, w)[j - 1].end)
      && (j + 1 == |PooledBlocks(x, w)| ==> b.end == |x|)
      && PaintedOn(PavProjection(x, w), RoundedDiv(b.sum, Mass(w, b.begin, b.end)), b.begin, b.end)
  {
    hide Irreducible;
    var b := PooledBlocks(x, w)[j];
    PaintTakesValues(x, w, PooledBlocks(x, w), |x|, RoundedMean(w));
    MassIsPositive(w, b.begin, b.end);
  }
}
