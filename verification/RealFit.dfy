/**
 Why pooling is right: the block means of any pooled tiling are the one and only weighted
 least-squares fit among all nondecreasing real vectors, and rounding them to a nearest integer
 gives a least-squares fit among all nondecreasing integer vectors.
 */
module RealFit {
  import opened Isotonic

  ghost function Reals(x: seq<int>): seq<real> {
    seq(|x|, i requires 0 <= i < |x| => x[i] as real)
  }

  ghost predicate Rising(y: seq<real>) {
    forall i, j :: 0 <= i <= j < |y| ==> y[i] <= y[j]
  }

  ghost function Times(a: real, b: real): real {
    a * b
  }

  ghost function Square(a: real): real {
    Times(a, a)
  }

  ghost function SumOf(s: seq<real>, lo: nat, hi: nat): real
    requires lo <= hi <= |s|
  {
    if lo == hi then 0.0 else SumOf(s, lo, hi - 1) + s[hi - 1]
  }

  ghost function SquareTerms(w: seq<int>, y: seq<real>, z: seq<real>): seq<real>
    requires |w| == |y| == |z|
  {
    seq(|w|, i requires 0 <= i < |w| => w[i] as real * Square(y[i] - z[i]))
  }

  ghost function PullTerms(w: seq<int>, x: seq<real>, g: seq<real>, y: seq<real>): seq<real>
    requires |w| == |x| == |g| == |y|
  {
    seq(|w|, i requires 0 <= i < |w| => w[i] as real * (x[i] - g[i]) * (y[i] - g[i]))
  }

  /** Weighted squared distance on an index range. */
  ghost function Spread(w: seq<int>, y: seq<real>, z: seq<real>, lo: nat, hi: nat): real
    requires lo <= hi <= |w| == |y| == |z|
  {
    SumOf(SquareTerms(w, y, z), lo, hi)
  }

  /** Weighted inner product of the residual x - g with the displacement y - g. */
  ghost function Pull(w: seq<int>, x: seq<real>, g: seq<real>, y: seq<real>, lo: nat, hi: nat): real
    requires lo <= hi <= |w| == |x| == |g| == |y|
  {
    SumOf(PullTerms(w, x, g, y), lo, hi)
  }

  /** Accumulated residual against the constant m. */
  ghost function Drift(x: seq<int>, w: seq<int>, m: real, lo: nat, hi: nat): real
    requires lo <= hi <= |x| == |w|
  {
    Moment(x, w, lo, hi) as real - m * Mass(w, lo, hi) as real
  }

  lemma {:induction false} SumSplit(s: seq<real>, lo: nat, mid: nat, hi: nat)
    requires lo <= mid <= hi <= |s|
    ensures SumOf(s, lo, hi) == SumOf(s, lo, mid) + SumOf(s, mid, hi)
    decreases hi
  {
    if mid < hi {
      SumSplit(s, lo, mid, hi - 1);
    }
  }

  lemma {:induction false} SumsCombine(s: seq<real>, a: seq<real>, b: seq<real>, p: seq<real>, lo: nat, hi: nat)
    requires lo <= hi <= |s| == |a| == |b| == |p|
    requires forall i :: lo <= i < hi ==> s[i] == a[i] + b[i] - 2.0 * p[i]
    ensures SumOf(s, lo, hi) == SumOf(a, lo, hi) + SumOf(b, lo, hi) - 2.0 * SumOf(p, lo, hi)
    decreases hi
  {
    if lo < hi {
      SumsCombine(s, a, b, p, lo, hi - 1);
    }
  }

  lemma SpreadExpands(w: seq<int>, x: seq<real>, g: seq<real>, y: seq<real>, lo: nat, hi: nat)
    requires lo <= hi <= |w| == |x| == |g| == |y|
    ensures Spread(w, y, x, lo, hi)
      == Spread(w, g, x, lo, hi) + Spread(w, y, g, lo, hi) - 2.0 * Pull(w, x, g, y, lo, hi)
  {
    var (s, a, b, p) := (SquareTerms(w, y, x), SquareTerms(w, g, x), SquareTerms(w, y, g), PullTerms(w, x, g, y));
    forall i | lo <= i < hi ensures s[i] == a[i] + b[i] - 2.0 * p[i] {
    }
    SumsCombine(s, a, b, p, lo, hi);
  }

  // ---- one block ----

  ghost predicate ConstantOn(y: seq<real>, m: real, lo: nat, hi: nat)
    requires hi <= |y|
  {
    forall i :: lo <= i < hi ==> y[i] == m
  }

  lemma DriftStep(x: seq<int>, w: seq<int>, m: real, lo: nat, k: nat)
    requires lo <= k < |x| == |w|
    ensures Drift(x, w, m, lo, k + 1) == Drift(x, w, m, lo, k) + w[k] as real * (x[k] as real - m)
  {
    assert (w[k] * x[k]) as real == w[k] as real * x[k] as real;
    assert m * (Mass(w, lo, k) + w[k]) as real == m * Mass(w, lo, k) as real + m * w[k] as real;
  }

  lemma DriftStart(x: seq<int>, w: seq<int>, m: real, lo: nat)
    requires lo <= |x| == |w|
    ensures Drift(x, w, m, lo, lo) == 0.0
  {
  }

  /** On a block whose residual never drifts below zero, the residual pulls against every rising vector. */
  lemma {:induction false} PullAgainstRising(w: seq<int>, x: seq<int>, g: seq<real>, y: seq<real>, m: real,
      lo: nat, k: nat)
    requires lo < k <= |w| == |x| == |g| == |y|
    requires ConstantOn(g, m, lo, k) && Rising(y)
    requires forall j :: lo <= j < k ==> Drift(x, w, m, lo, j) >= 0.0
    ensures Pull(w, Reals(x), g, y, lo, k) <= Drift(x, w, m, lo, k) * (y[k - 1] - m)
    decreases k
  {
    hide Drift;
    DriftStep(x, w, m, lo, k - 1);
    var (pull, d) := (Pull(w, Reals(x), g, y, lo, k - 1), Drift(x, w, m, lo, k - 1));
    var a := w[k - 1] as real * (x[k - 1] as real - m);
    if k - 1 > lo {
      PullAgainstRising(w, x, g, y, m, lo, k - 1);
    } else {
      DriftStart(x, w, m, lo);
    }
  }

  /** On a block where y is constant the pull is exactly the drift. */
  lemma {:induction false} PullAgainstConstant(w: seq<int>, x: seq<int>, g: seq<real>, y: seq<real>, m: real,
      v: real, lo: nat, k: nat)
    requires lo <= k <= |w| == |x| == |g| == |y|
    requires ConstantOn(g, m, lo, k) && ConstantOn(y, v, lo, k)
    ensures Pull(w, Reals(x), g, y, lo, k) == Drift(x, w, m, lo, k) * (v - m)
    decreases k
  {
    hide Drift;
    if lo < k {
      PullAgainstConstant(w, x, g, y, m, v, lo, k - 1);
      DriftStep(x, w, m, lo, k - 1);
    } else {
      DriftStart(x, w, m, lo);
    }
  }

  ghost function Mean(x: seq<int>, w: seq<int>, b: Block): real
    requires |x| == |w| && Positive(w) && InBounds(w, b)
  {
    MassIsPositive(w, b.begin, b.end);
    b.sum as real / Mass(w, b.begin, b.end) as real
  }

  lemma DriftWithinBlock(x: seq<int>, w: seq<int>, b: Block, k: nat)
    requires |x| == |w| && Positive(w) && GoodBlock(x, w, b) && b.begin <= k <= b.end
    ensures Drift(x, w, Mean(x, w, b), b.begin, k) >= 0.0
    ensures Drift(x, w, Mean(x, w, b), b.begin, b.end) == 0.0
  {
    MassIsPositive(w, b.begin, b.end);
  }

  /** On one irreducible block: the Pythagorean inequality, and equality for vectors constant on the block. */
  lemma BlockPythagoras(x: seq<int>, w: seq<int>, b: Block, g: seq<real>, y: seq<real>)
    requires |x| == |w| == |g| == |y| && Positive(w) && GoodBlock(x, w, b)
    requires ConstantOn(g, Mean(x, w, b), b.begin, b.end)
    ensures Rising(y) ==>
      Spread(w, y, Reals(x), b.begin, b.end)
      >= Spread(w, g, Reals(x), b.begin, b.end) + Spread(w, y, g, b.begin, b.end)
    ensures ConstantOn(y, y[b.begin], b.begin, b.end) ==>
      Spread(w, y, Reals(x), b.begin, b.end)
      == Spread(w, g, Reals(x), b.begin, b.end) + Spread(w, y, g, b.begin, b.end)
  {
    var (lo, hi, m) := (b.begin, b.end, Mean(x, w, b));
    forall k | lo <= k <= hi ensures Drift(x, w, m, lo, k) >= 0.0 && Drift(x, w, m, lo, hi) == 0.0 {
      DriftWithinBlock(x, w, b, k);
    }
    SpreadExpands(w, Reals(x), g, y, lo, hi);
    if Rising(y) {
      PullAgainstRising(w, x, g, y, m, lo, hi);
    }
    if ConstantOn(y, y[lo], lo, hi) {
      PullAgainstConstant(w, x, g, y, m, y[lo], lo, hi);
    }
  }

  // ---- all blocks ----

  /** g takes each block's mean on that block. */
  ghost predicate FitOf(x: seq<int>, w: seq<int>, blocks: seq<Block>, g: seq<real>)
    requires |x| == |w| && Positive(w)
  {
    && |g| == |x|
    && (forall j :: 0 <= j < |blocks| ==> InBounds(w, blocks[j]))
    && (forall j :: 0 <= j < |blocks| ==> ConstantOn(g, Mean(x, w, blocks[j]), blocks[j].begin, blocks[j].end))
  }

  ghost predicate ConstantOnBlocks(w: seq<int>, blocks: seq<Block>, y: seq<real>)
    requires |w| == |y|
  {
    && (forall j :: 0 <= j < |blocks| ==> InBounds(w, blocks[j]))
    && (forall j :: 0 <= j < |blocks| ==> ConstantOn(y, y[blocks[j].begin], blocks[j].begin, blocks[j].end))
  }

  /** The fit is the projection: every rising vector is farther from x by at least its distance to the fit. */
  lemma {:induction false} Pythagoras(x: seq<int>, w: seq<int>, blocks: seq<Block>, upto: nat, g: seq<real>,
      y: seq<real>)
    requires |x| == |w| == |y| && Positive(w) && upto <= |x|
    requires Tiles(x, w, blocks, upto) && FitOf(x, w, blocks, g)
    ensures Rising(y) ==>
      Spread(w, y, Reals(x), 0, upto) >= Spread(w, g, Reals(x), 0, upto) + Spread(w, y, g, 0, upto)
    ensures ConstantOnBlocks(w, blocks, y) ==>
      Spread(w, y, Reals(x), 0, upto) == Spread(w, g, Reals(x), 0, upto) + Spread(w, y, g, 0, upto)
    decreases |blocks|
  {
    hide Irreducible;
    if blocks != [] {
      var last := |blocks| - 1;
      var b := blocks[last];
      Pythagoras(x, w, blocks[..last], b.begin, g, y);
      BlockPythagoras(x, w, b, g, y);
      SumSplit(SquareTerms(w, y, Reals(x)), 0, b.begin, b.end);
      SumSplit(SquareTerms(w, g, Reals(x)), 0, b.begin, b.end);
      SumSplit(SquareTerms(w, y, g), 0, b.begin, b.end);
    }
  }

  lemma {:induction false} SpreadIsNonnegative(w: seq<int>, y: seq<real>, z: seq<real>, hi: nat)
    requires hi <= |w| == |y| == |z| && Positive(w)
    ensures Spread(w, y, z, 0, hi) >= 0.0
    ensures Spread(w, y, z, 0, hi) == 0.0 ==> forall i :: 0 <= i < hi ==> y[i] == z[i]
    decreases hi
  {
    if hi > 0 {
      SpreadIsNonnegative(w, y, z, hi - 1);
      PositiveSquare(w[hi - 1] as real, y[hi - 1] - z[hi - 1]);
    }
  }

  lemma ProductIsPositive(a: real, b: real)
    requires a > 0.0 && b > 0.0
    ensures Times(a, b) > 0.0
  {
  }

  lemma PositiveSquare(w: real, a: real)
    requires w > 0.0
    ensures w * Square(a) >= 0.0 && (w * Square(a) == 0.0 ==> a == 0.0)
  {
    if a > 0.0 {
      ProductIsPositive(a, a);
    } else if a < 0.0 {
      ProductIsPositive(-a, -a);
      assert Times(a, a) == Times(-a, -a);
    }
    if a != 0.0 {
      ProductIsPositive(w, Square(a));
    }
  }

  lemma {:induction false} SpreadSymmetric(w: seq<int>, y: seq<real>, z: seq<real>, hi: nat)
    requires hi <= |w| == |y| == |z|
    ensures Spread(w, y, z, 0, hi) == Spread(w, z, y, 0, hi)
    decreases hi
  {
    if hi > 0 {
      SpreadSymmetric(w, y, z, hi - 1);
      assert Square(y[hi - 1] - z[hi - 1]) == Square(z[hi - 1] - y[hi - 1]);
    }
  }

  /** Two pooled tilings of the same values, however different their blocks, have the same fit. */
  lemma FitIsUnique(x: seq<int>, w: seq<int>, blocks: seq<Block>, g: seq<real>, other: seq<Block>, h: seq<real>)
    requires |x| == |w| && Positive(w)
    requires Tiles(x, w, blocks, |x|) && FitOf(x, w, blocks, g) && Rising(g)
    requires Tiles(x, w, other, |x|) && FitOf(x, w, other, h) && Rising(h)
    ensures g == h
  {
    hide Irreducible;
    Pythagoras(x, w, blocks, |x|, g, h);
    Pythagoras(x, w, other, |x|, h, g);
    SpreadSymmetric(w, g, h, |x|);
    SpreadIsNonnegative(w, g, h, |x|);
  }

  // ---- the fit of a tiling ----

  ghost function Fit(x: seq<int>, w: seq<int>, blocks: seq<Block>): seq<real>
    requires |x| == |w| && Positive(w) && forall j :: 0 <= j < |blocks| ==> InBounds(w, blocks[j])
  {
    if blocks == [] then []
    else
      var b := blocks[|blocks| - 1];
      assert InBounds(w, b);
      Fit(x, w, blocks[..|blocks| - 1]) + seq(b.end - b.begin, _ => Mean(x, w, b))
  }

  lemma {:induction false} FitTakesMeans(x: seq<int>, w: seq<int>, blocks: seq<Block>, upto: nat)
    requires |x| == |w| && Positive(w) && Tiles(x, w, blocks, upto) && upto <= |x|
    ensures |Fit(x, w, blocks)| == upto
    ensures forall j :: 0 <= j < |blocks| ==> blocks[j].end <= upto
    ensures forall j :: 0 <= j < |blocks| ==>
      ConstantOn(Fit(x, w, blocks), Mean(x, w, blocks[j]), blocks[j].begin, blocks[j].end)
  {
    hide Irreducible;
    if blocks != [] {
      var last := |blocks| - 1;
      var b := blocks[last];
      FitTakesMeans(x, w, blocks[..last], b.begin);
      var (head, whole) := (Fit(x, w, blocks[..last]), Fit(x, w, blocks));
      forall j | 0 <= j < |blocks|
        ensures blocks[j].end <= upto && ConstantOn(whole, Mean(x, w, blocks[j]), blocks[j].begin, blocks[j].end)
      {
        if j < last {
          assert blocks[..last][j] == blocks[j];
          assert ConstantOn(head, Mean(x, w, blocks[j]), blocks[j].begin, blocks[j].end);
        }
      }
    }
  }

  lemma MeansOrdered(a: int, m: int, b: int, n: int)
    requires m > 0 && n > 0 && a * n <= b * m
    ensures a as real / m as real <= b as real / n as real
  {
    var (r, t) := (a as real / m as real, b as real / n as real);
    assert t * n as real == b as real;
    assert (t - r) * n as real >= 0.0;
    if t < r {
      assert (r - t) * n as real > 0.0;
    }
  }

  lemma {:induction false} FitRises(x: seq<int>, w: seq<int>, wt: Scale, blocks: seq<Block>, upto: nat)
    requires |x| == |w| && Positive(w) && Weighs(wt, w) && upto <= |x|
    requires Tiles(x, w, blocks, upto) && Ascending(wt, blocks)
    ensures |Fit(x, w, blocks)| == upto && Rising(Fit(x, w, blocks))
    ensures blocks != [] ==> upto > 0 && Fit(x, w, blocks)[upto - 1] == Mean(x, w, blocks[|blocks| - 1])
  {
    hide Irreducible;
    FitTakesMeans(x, w, blocks, upto);
    if blocks != [] {
      var last := |blocks| - 1;
      FitRises(x, w, wt, blocks[..last], blocks[last].begin);
      if last > 0 {
        var (a, b) := (blocks[last - 1], blocks[last]);
        assert !MeanGreater(wt, a, b);
        MassIsPositive(w, a.begin, a.end);
        MassIsPositive(w, b.begin, b.end);
        MeansOrdered(a.sum, Mass(w, a.begin, a.end), b.sum, Mass(w, b.begin, b.end));
      }
    }
  }

  /** What pooling computes, whatever valid tiling it starts from: the unique rising least-squares fit. */
  lemma PoolingFits(x: seq<int>, w: seq<int>, wt: Scale, blocks: seq<Block>)
    requires |x| == |w| && Positive(w) && Weighs(wt, w) && Tiles(x, w, blocks, |x|)
    ensures Tiles(x, w, PoolAll(wt, blocks), |x|)
    ensures FitOf(x, w, PoolAll(wt, blocks), Fit(x, w, PoolAll(wt, blocks)))
    ensures Rising(Fit(x, w, PoolAll(wt, blocks)))
  {
    hide Irreducible;
    PoolingTiles(x, w, wt, blocks, |x|);
    FitTakesMeans(x, w, PoolAll(wt, blocks), |x|);
    FitRises(x, w, wt, PoolAll(wt, blocks), |x|);
  }

  // ---- integer vectors ----

  function CostTo(x: seq<int>, w: seq<int>, y: seq<int>, k: nat): int
    requires k <= |x| == |w| == |y|
  {
    if k == 0 then 0 else CostTo(x, w, y, k - 1) + w[k - 1] * (y[k - 1] - x[k - 1]) * (y[k - 1] - x[k - 1])
  }

  /** The weighted objective the oracles minimise. */
  function Cost(x: seq<int>, w: seq<int>, y: seq<int>): int
    requires |x| == |w| == |y|
  {
    CostTo(x, w, y, |x|)
  }

  lemma {:induction false} CostIsSpread(x: seq<int>, w: seq<int>, y: seq<int>, k: nat)
    requires k <= |x| == |w| == |y|
    ensures CostTo(x, w, y, k) as real == Spread(w, Reals(y), Reals(x), 0, k)
  {
    if k > 0 {
      CostIsSpread(x, w, y, k - 1);
      var d := y[k - 1] - x[k - 1];
      assert d as real == Reals(y)[k - 1] - Reals(x)[k - 1];
    }
  }

  /** No integer is nearer to g than z is, once z is within one half. */
  lemma NearestInteger(g: real, z: int, y: int)
    requires -0.5 <= z as real - g <= 0.5
    ensures Square(z as real - g) <= Square(y as real - g)
  {
    var d := (y - z) as real;
    var e := z as real - g;
    assert y as real - g == d + e;
    assert Square(d + e) == Square(e) + Times(d, d + 2.0 * e);
    if y > z {
      assert d >= 1.0 && d + 2.0 * e >= 0.0;
      assert Times(d, d + 2.0 * e) >= 0.0;
    } else if y < z {
      assert d <= -1.0 && d + 2.0 * e <= 0.0;
      assert Times(d, d + 2.0 * e) == Times(-d, -(d + 2.0 * e)) >= 0.0;
    }
  }

  lemma {:induction false} NearestSpread(w: seq<int>, g: seq<real>, z: seq<int>, y: seq<int>, hi: nat)
    requires hi <= |w| == |g| == |z| == |y| && Positive(w)
    requires forall i :: 0 <= i < hi ==> -0.5 <= z[i] as real - g[i] <= 0.5
    ensures Spread(w, Reals(z), g, 0, hi) <= Spread(w, Reals(y), g, 0, hi)
    decreases hi
  {
    if hi > 0 {
      NearestSpread(w, g, z, y, hi - 1);
      NearestInteger(g[hi - 1], z[hi - 1], y[hi - 1]);
    }
  }

  /** Rounding every block mean to a nearest integer costs no more than any nondecreasing integer vector. */
  lemma RoundedFitIsOptimal(x: seq<int>, w: seq<int>, blocks: seq<Block>, g: seq<real>, z: seq<int>, y: seq<int>)
    requires |x| == |w| == |z| == |y| && Positive(w)
    requires Tiles(x, w, blocks, |x|) && FitOf(x, w, blocks, g)
    requires forall j :: 0 <= j < |blocks| ==> InBounds(w, blocks[j])
    requires forall j :: 0 <= j < |blocks| ==>
      PaintedOn(z, z[blocks[j].begin], blocks[j].begin, blocks[j].end)
    requires forall i :: 0 <= i < |z| ==> -0.5 <= z[i] as real - g[i] <= 0.5
    requires Nondecreasing(y)
    ensures Cost(x, w, z) <= Cost(x, w, y)
  {
    hide Irreducible;
    forall j | 0 <= j < |blocks|
      ensures ConstantOn(Reals(z), Reals(z)[blocks[j].begin], blocks[j].begin, blocks[j].end)
    {
      assert PaintedOn(z, z[blocks[j].begin], blocks[j].begin, blocks[j].end);
    }
    assert ConstantOnBlocks(w, blocks, Reals(z));
    assert Rising(Reals(y));
    Pythagoras(x, w, blocks, |x|, g, Reals(z));
    Pythagoras(x, w, blocks, |x|, g, Reals(y));
    NearestSpread(w, g, z, y, |x|);
    CostIsSpread(x, w, z, |x|);
    CostIsSpread(x, w, y, |x|);
  }

  // ---- the two integer readings of a block mean ----

  /** b scaled by e lies in a window exactly when b lies in the window scaled back. */
  lemma ScaledWindow(b: real, e: real, k: real, lo: real, hi: real)
    requires e > 0.0 && b * e == k
    ensures lo * e <= k < hi * e ==> lo <= b < hi
    ensures lo * e < k <= hi * e ==> lo < b <= hi
  {
  }

  lemma WithinHalf(n: int, d: int, q: int)
    requires d > 0 && -d < 2 * (n - q * d) <= d
    ensures -0.5 < n as real / d as real - q as real <= 0.5
  {
    var k := n - q * d;
    assert -0.5 * d as real < k as real <= 0.5 * d as real;
    ScaledWindow(n as real / d as real - q as real, d as real, k as real, -0.5, 0.5);
  }

  lemma WithinOne(n: int, d: int, q: int)
    requires d > 0 && 0 <= n - q * d < d
    ensures 0.0 <= n as real / d as real - q as real < 1.0
  {
    var k := n - q * d;
    assert 0.0 * d as real <= k as real < 1.0 * d as real;
    ScaledWindow(n as real / d as real - q as real, d as real, k as real, 0.0, 1.0);
  }
}
