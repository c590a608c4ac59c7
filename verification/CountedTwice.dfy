/**
 Ordered values whose warm start keeps blocks and is then rejected: the kept blocks and one block per
 value are pooled together, and the kept values count twice.  When the values are positive and lie
 close together, this always shows: the answer is the values themselves exactly when the ends are steady.
 */
module CountedTwice {
  import opened BlockEnds
  import opened ChainSolver
  import opened Isotonic
  import opened WideInteger
  import opened Wrappers

  /** No vector of 64-bit values is longer. */
  const MAX_LENGTH := 0x0fff_ffff_ffff_ffff

  /** Positive values within one part in n of each other, n being how many there are. */
  ghost predicate Close(x: seq<int>) {
    x != [] && |x| <= MAX_LENGTH && x[0] > 0 && |x| * x[|x| - 1] < (|x| + 1) * x[0]
  }

  // ---- the kept blocks ----

  /** Level blocks side by side from the first value on. */
  ghost predicate Kept(x: seq<int>, kept: seq<Block>) {
    && kept != [] && AllLevel(x, kept) && kept[0].begin == 0
    && (forall k :: 0 < k < |kept| ==> kept[k].begin == kept[k - 1].end)
  }

  /** The kept blocks from the i-th on, as one. */
  ghost function From(kept: seq<Block>, i: nat): (r: Block)
    requires i < |kept|
    ensures r.begin == kept[i].begin && r.end == kept[|kept| - 1].end
    decreases |kept| - i
  {
    if i == |kept| - 1 then kept[i] else Join(kept[i], From(kept, i + 1))
  }

  lemma KeptEnd(x: seq<int>, kept: seq<Block>, i: nat)
    requires Kept(x, kept) && i < |kept|
    ensures kept[i].begin < kept[i].end <= |x|
    ensures i > 0 ==> kept[i].begin == kept[i - 1].end
  {
    LevelEnds(x, kept[i]);
  }

  lemma {:induction false} LaterBegins(x: seq<int>, kept: seq<Block>, i: nat)
    requires Kept(x, kept) && i < |kept|
    ensures i > 0 ==> kept[i].begin >= kept[0].end + i - 1
  {
    hide AllLevel;
    if i > 1 {
      LaterBegins(x, kept, i - 1);
      KeptEnd(x, kept, i - 1);
    } else if i == 1 {
      KeptEnd(x, kept, 1);
    }
  }

  lemma BetweenTimes(least: int, v: int, most: int, m: int)
    requires least <= v <= most && m >= 0
    ensures least * m <= v * m <= most * m
  {
  }

  lemma Distributed(v: int, a: int, b: int)
    ensures v * (a + b) == v * a + v * b
  {
  }

  /** The values lie between the first and the last, so sums of them lie between multiples of these. */
  lemma LevelSum(x: seq<int>, b: Block)
    requires Nondecreasing(x) && x != [] && LevelBlock(x, b)
    ensures b.begin < b.end && x[0] * (b.end - b.begin) <= b.sum <= x[|x| - 1] * (b.end - b.begin)
  {
    LevelEnds(x, b);
    BetweenTimes(x[0], x[b.begin], x[|x| - 1], b.end - b.begin);
  }

  lemma {:induction false} FromSum(x: seq<int>, kept: seq<Block>, i: nat)
    requires Nondecreasing(x) && x != [] && Kept(x, kept) && i < |kept|
    ensures var f := From(kept, i);
      f.begin < f.end <= |x| && x[0] * (f.end - f.begin) <= f.sum <= x[|x| - 1] * (f.end - f.begin)
    decreases |kept| - i
  {
    hide LevelBlock;
    hide Nondecreasing;
    KeptEnd(x, kept, i);
    LevelSum(x, kept[i]);
    if i < |kept| - 1 {
      FromSum(x, kept, i + 1);
      KeptEnd(x, kept, i + 1);
      var (l, f) := (kept[i], From(kept, i + 1));
      Distributed(x[0], l.end - l.begin, f.end - f.begin);
      Distributed(x[|x| - 1], l.end - l.begin, f.end - f.begin);
    }
  }

  // ---- the first value pushed on top of them ----

  /** The kept blocks from the i-th on, joined with the first value: it ends at 1, wherever it begins. */
  ghost function Doubled(x: seq<int>, kept: seq<Block>, i: nat): Block
    requires i < |kept| && x != []
  {
    Join(From(kept, i), Block(0, 1, x[0]))
  }

  lemma DoubledBounds(a: int, t: int, m: int, sum: int, n: int)
    requires 0 < a <= t && 1 <= m <= n && a * m <= sum <= t * m
    ensures 2 * a <= sum + a <= (n + 1) * t
  {
    BetweenTimes(1, m, n, a);
    BetweenTimes(1, m, n, t);
    Distributed(t, n, 1);
  }

  lemma DoubledSum(x: seq<int>, kept: seq<Block>, i: nat)
    requires Nondecreasing(x) && Close(x) && Kept(x, kept) && i < |kept|
    ensures var d := Doubled(x, kept, i);
      d.begin == kept[i].begin && d.end == 1 && 2 * x[0] <= d.sum <= (|x| + 1) * x[|x| - 1]
  {
    hide Kept;
    var f := From(kept, i);
    FromSum(x, kept, i);
    DoubledBounds(x[0], x[|x| - 1], f.end - f.begin, f.sum, |x|);
  }

  lemma BelowTwice(v: int, n: int, top: int)
    requires v > 0 && n > 0 && n * top < (n + 1) * v
    ensures top < 2 * v
  {
    Distributed(v, n, 1);
    BetweenTimes(1, n, n, v);
    assert n * (2 * v) == n * v + n * v;
    if top >= 2 * v {
      BetweenTimes(2 * v, top, top, n);
    }
  }

  lemma HeavyWrap(v: int, wrapped: int, sum: int, n: int, top: int)
    requires v > 0 && n > 0 && wrapped > 2 * (n + 1) && sum <= (n + 1) * top && top < 2 * v
    ensures sum < wrapped * v
  {
    BetweenTimes(top, top, 2 * v, n + 1);
    BetweenTimes(2 * (n + 1), 2 * (n + 1), wrapped, v);
    assert (2 * v) * (n + 1) == (2 * (n + 1)) * v;
    assert (2 * (n + 1) + 1) * v <= wrapped * v by { BetweenTimes(2 * (n + 1) + 1, wrapped, wrapped, v); }
    Distributed(v, 2 * (n + 1), 1);
  }

  /** Its wrapped-around count makes the joined block look lighter than any kept block. */
  lemma WrappedIsLight(v: int, m: int, wrapped: int, sum: int, n: int, top: int)
    requires v > 0 && m > 0 && n > 0 && wrapped > 2 * (n + 1) && sum <= (n + 1) * top && n * top < (n + 1) * v
    ensures (v * m) * wrapped > sum * m
  {
    BelowTwice(v, n, top);
    HeavyWrap(v, wrapped, sum, n, top);
    Commuted(v, m, wrapped);
    BetweenTimes(sum + 1, wrapped * v, wrapped * v, m);
    Distributed(m, sum, 1);
  }

  lemma HeavierThanWrapped(l: Block, d: Block, v: int, least: int, n: nat, top: int)
    requires l.begin < l.end && l.sum == v * (l.end - l.begin) && 0 < least <= v
    requires d.end == 1 < d.begin <= n <= MAX_LENGTH && d.sum <= (n + 1) * top && n * top < (n + 1) * least
    ensures MeanGreater(Count, l, d)
  {
    BetweenTimes(least, least, v, n + 1);
    WrappedIsLight(v, l.end - l.begin, Count(d), d.sum, n, top);
  }

  lemma NotHeavierThanCountless(l: Block, d: Block)
    requires l.begin < l.end && d.begin == d.end && d.sum > 0
    ensures !MeanGreater(Count, l, d)
  {
    assert Count(d) == 0 && l.sum * 0 == 0;
    BetweenTimes(1, d.sum, d.sum, Count(l));
  }

  /** A kept block looks heavier than the doubled block behind it, unless that one begins at 0 or 1. */
  lemma DoubledLooksLight(x: seq<int>, kept: seq<Block>, i: nat)
    requires Nondecreasing(x) && Close(x) && Kept(x, kept) && 0 < i < |kept|
    ensures kept[i].begin >= 1
    ensures MeanGreater(Count, kept[i - 1], Doubled(x, kept, i)) <==> kept[i].begin > 1
  {
    hide Doubled;
    hide MeanGreater;
    var (l, d, v) := (kept[i - 1], Doubled(x, kept, i), x[0]);
    DoubledSum(x, kept, i);
    KeptEnd(x, kept, i);
    KeptEnd(x, kept, i - 1);
    assert LevelBlock(x, l);
    hide Kept;
    if kept[i].begin > 1 {
      assert x[0] <= x[l.begin];
      HeavierThanWrapped(l, d, x[l.begin], x[0], |x|, x[|x| - 1]);
    } else {
      NotHeavierThanCountless(l, d);
    }
  }

  /** What is left of the kept blocks when the first value has been pushed: all joined, or all but a first single one. */
  ghost function Base(kept: seq<Block>): (r: seq<Block>)
    requires kept != []
    ensures |r| < |kept|
  {
    if |kept| > 1 && kept[0].end == 1 then [kept[0]] else []
  }

  lemma CascadeStep(x: seq<int>, kept: seq<Block>, i: nat)
    requires Nondecreasing(x) && Close(x) && Kept(x, kept) && 0 < i < |kept|
    ensures var (here, next) := (kept[..i] + [Doubled(x, kept, i)], kept[..i - 1] + [Doubled(x, kept, i - 1)]);
      Settle(Count, here) == if kept[i].begin > 1 then Settle(Count, next) else here
  {
    DoubledLooksLight(x, kept, i);
    hide Kept;
    hide MeanGreater;
    hide Nondecreasing;
    var (under, d, rest) := (kept[i - 1], Doubled(x, kept, i), kept[..i - 1]);
    assert kept[..i] + [d] == rest + [under, d];
    assert Doubled(x, kept, i - 1) == Join(under, d);
    if kept[i].begin > 1 {
      SettleOnce(under, d, rest);
    }
  }

  lemma BeginsBeyondOne(x: seq<int>, kept: seq<Block>, i: nat)
    requires Kept(x, kept) && 0 < i < |kept|
    ensures kept[i].begin <= 1 ==> i == 1 == |Base(kept)|
    ensures kept[i].begin > 1 ==> i > |Base(kept)|
  {
    LaterBegins(x, kept, i);
    KeptEnd(x, kept, 0);
    KeptEnd(x, kept, 1);
    KeptEnd(x, kept, i);
  }

  lemma {:induction false} Cascade(x: seq<int>, kept: seq<Block>, i: nat)
    requires Nondecreasing(x) && Close(x) && Kept(x, kept) && |Base(kept)| <= i < |kept|
    ensures Settle(Count, kept[..i] + [Doubled(x, kept, i)]) == Base(kept) + [Doubled(x, kept, |Base(kept)|)]
  {
    if i == 0 {
      assert kept[..0] + [Doubled(x, kept, 0)] == [Doubled(x, kept, 0)];
    } else {
      BeginsBeyondOne(x, kept, i);
      CascadeStep(x, kept, i);
      assert x != [] && kept[..1] == [kept[0]];
      hide Kept;
      hide Close;
      hide Nondecreasing;
      hide Settle;
      hide Doubled;
      if kept[i].begin > 1 {
        Cascade(x, kept, i - 1);
      }
    }
  }

  // ---- the other values ----

  lemma {:induction false} MomentAtLeast(x: seq<int>, k: nat, least: int)
    requires k <= |x| && forall i :: 0 <= i < k ==> least <= x[i]
    ensures Moment(x, Ones(|x|), 0, k) >= least * k
  {
    if k > 0 {
      MomentAtLeast(x, k - 1, least);
      Distributed(least, k - 1, 1);
    }
  }

  /** The block the first k values end up in: the kept values from the base on, and the k values. */
  ghost function Growing(x: seq<int>, kept: seq<Block>, k: nat): Block
    requires kept != [] && k <= |x|
  {
    Block(|Base(kept)|, k, From(kept, |Base(kept)|).sum + Moment(x, Ones(|x|), 0, k))
  }

  lemma GrowthBound(f: int, m: int, moment: int, k: nat, a: int)
    requires a > 0 && m >= 1 && a * m <= f && moment >= a * k
    ensures f + moment >= (k + 1) * a
  {
    BetweenTimes(1, m, m, a);
    Distributed(a, k, 1);
  }

  lemma GrowingSum(x: seq<int>, kept: seq<Block>, k: nat)
    requires Nondecreasing(x) && Close(x) && Kept(x, kept) && k <= |x|
    ensures Growing(x, kept, k).sum >= (k + 1) * x[0]
  {
    var f := From(kept, |Base(kept)|);
    FromSum(x, kept, |Base(kept)|);
    hide Kept;
    MomentAtLeast(x, k, x[0]);
    GrowthBound(f.sum, f.end - f.begin, Moment(x, Ones(|x|), 0, k), k, x[0]);
  }

  /** Closeness for fewer values than all. */
  lemma CloseForFewer(a: int, v: int, t: int, k: nat, n: nat)
    requires 0 < a <= t && v <= t && k <= n && n * t < (n + 1) * a
    ensures v * k < (k + 1) * a
  {
    BetweenTimes(v, v, t, k);
    Distributed(n, t - a, a);
    Distributed(a, n, 1);
    BetweenTimes(k, k, n, t - a);
    Distributed(k, t - a, a);
    Distributed(a, k, 1);
  }

  lemma HeavyTop(sum: int, b: nat, k: nat, v: int, a: int)
    requires b <= 1 <= k && v > 0 && sum >= (k + 1) * a && v * k < (k + 1) * a
    ensures MeanGreater(Count, Block(b, k, sum), Block(k, k + 1, v))
  {
    BetweenTimes(k - b, k - b, k, v);
  }

  lemma LightUnder(sum: int, k: nat, a: int)
    requires a > 0 && k > 0 && sum >= (k + 2) * a
    ensures !MeanGreater(Count, Block(0, 1, a), Block(1, k + 1, sum))
  {
    Distributed(a, k, 2);
  }

  lemma BaseIsFirst(x: seq<int>, kept: seq<Block>)
    requires Kept(x, kept) && Base(kept) != []
    ensures kept[0] == Block(0, 1, x[0])
  {
    assert LevelBlock(x, kept[0]);
  }

  lemma GrowingIsHeavy(x: seq<int>, kept: seq<Block>, k: nat)
    requires Nondecreasing(x) && Close(x) && Kept(x, kept) && 0 < k < |x|
    ensures MeanGreater(Count, Growing(x, kept, k), Block(k, k + 1, x[k]))
    ensures Base(kept) != [] ==> !MeanGreater(Count, kept[0], Growing(x, kept, k + 1))
  {
    hide MeanGreater;
    hide Kept;
    GrowingSum(x, kept, k);
    GrowingSum(x, kept, k + 1);
    CloseForFewer(x[0], x[k], x[|x| - 1], k, |x|);
    hide From;
    HeavyTop(Growing(x, kept, k).sum, |Base(kept)|, k, x[k], x[0]);
    if Base(kept) != [] {
      BaseIsFirst(x, kept);
      LightUnder(Growing(x, kept, k + 1).sum, k, x[0]);
    }
  }

  /** The kept blocks followed by the last value they would have to be joined with are out of order. */
  ghost predicate Restarts(x: seq<int>, kept: seq<Block>)
    requires x != [] && kept != []
  {
    kept[|kept| - 1].begin < |x| && x[kept[|kept| - 1].begin] > x[0]
  }

  lemma BaseBegins(x: seq<int>, kept: seq<Block>)
    requires Kept(x, kept)
    ensures kept[|Base(kept)|].begin == |Base(kept)|
  {
    hide AllLevel;
  }

  lemma GrowingFromOne(x: seq<int>, kept: seq<Block>)
    requires Kept(x, kept) && x != []
    ensures Growing(x, kept, 1) == Doubled(x, kept, |Base(kept)|)
  {
    BaseBegins(x, kept);
    hide Kept;
    hide From;
    hide Base;
    assert Moment(x, Ones(|x|), 0, 1) == Moment(x, Ones(|x|), 0, 0) + x[0] && Moment(x, Ones(|x|), 0, 0) == 0;
  }

  lemma LastJoinsFirst(x: seq<int>, kept: seq<Block>)
    requires x != [] && Kept(x, kept) && Restarts(x, kept)
    ensures var last := |kept| - 1;
      Settle(Count, kept + [Block(0, 1, x[0])]) == Settle(Count, kept[..last] + [Doubled(x, kept, last)])
  {
    var (last, s) := (|kept| - 1, Block(0, 1, x[0]));
    FirstIsLevel(x);
    LevelMeans(x, kept[last], s);
    hide Kept;
    hide MeanGreater;
    SettleOnce(kept[last], s, kept[..last]);
    assert kept + [s] == kept[..last] + [kept[last], s];
    assert Doubled(x, kept, last) == Join(kept[last], s);
  }

  lemma FirstPush(x: seq<int>, kept: seq<Block>)
    requires Nondecreasing(x) && Close(x) && Kept(x, kept) && Restarts(x, kept)
    ensures PoolAll(Count, kept + [Block(0, 1, x[0])]) == Base(kept) + [Growing(x, kept, 1)]
  {
    KeptAscend(x, kept);
    OrderedBlocksStay(Count, kept);
    PoolPush(kept, Block(0, 1, x[0]));
    hide PoolAll;
    hide Settle;
    LastJoinsFirst(x, kept);
    GrowingFromOne(x, kept);
    Cascade(x, kept, |kept| - 1);
  }

  lemma FirstIsLevel(x: seq<int>)
    requires x != []
    ensures LevelBlock(x, Block(0, 1, x[0]))
  {
  }

  lemma KeptAscend(x: seq<int>, kept: seq<Block>)
    requires Nondecreasing(x) && Kept(x, kept)
    ensures Ascending(Count, kept)
  {
    forall k | 0 < k < |kept| ensures kept[k - 1].begin <= kept[k].begin {
      KeptEnd(x, kept, k);
      KeptEnd(x, kept, k - 1);
    }
    RisingBlocksAscend(x, kept);
  }

  /** Every further value joins the growing block, and the base stays below it. */
  lemma {:induction false} AllPushed(x: seq<int>, kept: seq<Block>, k: nat)
    requires Nondecreasing(x) && Close(x) && Kept(x, kept) && Restarts(x, kept) && 0 < k <= |x|
    ensures PoolAll(Count, kept + Singletons(x, Ones(|x|))[..k]) == Base(kept) + [Growing(x, kept, k)]
  {
    hide MeanGreater;
    hide Nondecreasing;
    hide Close;
    hide Kept;
    hide Restarts;
    var singles := Singletons(x, Ones(|x|));
    SingletonFloor(x, k - 1);
    assert kept + singles[..k] == kept + singles[..k - 1] + [singles[k - 1]];
    if k == 1 {
      FirstPush(x, kept);
      assert kept + singles[..0] == kept;
    } else {
      AllPushed(x, kept, k - 1);
      GrowingIsHeavy(x, kept, k - 1);
      hide PoolAll;
      assert Join(Growing(x, kept, k - 1), singles[k - 1]) == Growing(x, kept, k);
      if Base(kept) == [] {
        OnlyJoins(kept + singles[..k - 1], singles[k - 1], Growing(x, kept, k - 1));
      } else {
        PairJoinsOn(kept + singles[..k - 1], singles[k - 1], kept[0], Growing(x, kept, k - 1));
      }
    }
  }

  // ---- the answer ----

  /** All in one block: the mean is above the last value, so its floor is not below it. */
  lemma WholeIsHigh(sum: int, n: nat, a: int, t: int)
    requires n > 0 && sum >= (n + 1) * a && n * t < (n + 1) * a
    ensures FloorDiv(sum, n) >= t
  {
    StrictProducts(FloorDiv(sum, n), t, n);
  }

  /** All but the first in one block: the mean exceeds the last value by at least one. */
  lemma RestIsHigh(sum: int, n: nat, a: int, t: int)
    requires n > 1 && 0 < a < t && sum >= (n + 1) * a && n * t < (n + 1) * a
    ensures FloorDiv(sum, n - 1) > t
  {
    Distributed(n, t - a, a);
    Distributed(a, n, 1);
    BetweenTimes(1, t - a, t - a, n);
    assert t > n;
    assert n * t == (n - 1) * t + t && (n - 1) * (t + 1) == (n - 1) * t + n - 1;
    assert (n - 1) * (t + 1) < sum;
    StrictProducts(FloorDiv(sum, n - 1), t + 1, n - 1);
  }

  lemma WriteLast(n: nat, before: Projection, b: Block)
    requires b.begin < b.end == n
    ensures var after := WriteBlock(before, n, b);
      after.Projected? ==>
        |after.projected| == n && after.projected[n - 1] == FloorDiv(b.sum, n - b.begin)
        && after.projected[b.begin] == FloorDiv(b.sum, n - b.begin)
  {
  }

  /** Restarting shows: the answer is not the values. */
  lemma RestartShows(x: seq<int>, kept: seq<Block>)
    requires Nondecreasing(x) && Close(x) && Kept(x, kept) && Restarts(x, kept)
    ensures var answer := WriteAll(|x|, PoolAll(Count, kept + Singletons(x, Ones(|x|))));
      !(answer.Projected? && answer.projected == x)
  {
    var (n, b, g) := (|x|, |Base(kept)|, Growing(x, kept, |x|));
    AllPushed(x, kept, n);
    assert Singletons(x, Ones(n))[..n] == Singletons(x, Ones(n));
    GrowingSum(x, kept, n);
    hide Kept;
    hide PoolAll;
    hide From;
    hide Singletons;
    assert x[0] < x[n - 1];
    WritePush(n, Base(kept), g);
    WriteLast(n, WriteAll(n, Base(kept)), g);
    if b == 0 {
      WholeIsHigh(g.sum, n, x[0], x[n - 1]);
    } else {
      RestIsHigh(g.sum, n, x[0], x[n - 1]);
    }
  }

  /** On ordered close values the ends do no harm exactly when they are steady. */
  lemma AnswerIffSteady(x: seq<int>, ends: seq<nat>)
    requires Nondecreasing(x) && AllRep(x) && Close(x) && Plausible(x, ends)
    ensures Project(x, Some(ends)).Projected? && Project(x, Some(ends)).projected == x <==> Steady(x, ends)
  {
    if Steady(x, ends) {
      SteadyStart(x, ends);
    } else {
      UnsteadyRestarts(x, ends);
      RestartShows(x, BlocksOf(x, ends, 0));
    }
  }

  lemma UnsteadyRestarts(x: seq<int>, ends: seq<nat>)
    requires Nondecreasing(x) && x != [] && Plausible(x, ends) && !Steady(x, ends)
    ensures Kept(x, BlocksOf(x, ends, 0)) && Restarts(x, BlocksOf(x, ends, 0))
    ensures StartBlocks(x, Some(ends)) == BlocksOf(x, ends, 0) + Singletons(x, Ones(|x|))
  {
    hide BlocksOf;
    hide FlatParts;
    var (kept, j) := (BlocksOf(x, ends, 0), FlatParts(x, ends, 0));
    KeptAreFlat(x, ends, 0);
    KeptAreLevel(x, ends);
    LevelEnds(x, kept[j - 1]);
    FlatByEnds(x, 0, ends[j - 1]);
  }
}
