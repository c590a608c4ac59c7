/**
 Which bodies the benchmarks change: evenly scattered, clustered and modular index selections, how
 many distinct bodies they name and how many pages or chunks those bodies touch.
 */
module Selection {
  import opened Ordering

  // ---- quotients ----

  lemma DivBounds(a: nat, m: nat)
    requires m > 0
    ensures a / m * m <= a < (a / m + 1) * m
  {
  }

  lemma Scaled(a: int, b: int, m: int)
    requires a <= b && 0 <= m
    ensures a * m <= b * m
  {
    assert b * m - a * m == (b - a) * m;
  }

  lemma LessTimes(p: int, q: int, m: int)
    requires m > 0 && p * m < q * m
    ensures p < q
  {
    if p >= q {
      Scaled(q, p, m);
    }
  }

  lemma SwapFactors(x: int, y: int, z: int)
    ensures x * y * z == x * z * y
  {
  }

  lemma DivIs(a: nat, m: nat, q: nat)
    requires m > 0 && q * m <= a < (q + 1) * m
    ensures a / m == q
  {
    DivBounds(a, m);
    LessTimes(q, a / m + 1, m);
    LessTimes(a / m, q + 1, m);
  }

  lemma DivMonotone(a: nat, b: nat, m: nat)
    requires m > 0 && a <= b
    ensures a / m <= b / m
  {
    DivBounds(a, m);
    DivBounds(b, m);
    LessTimes(a / m, b / m + 1, m);
  }

  lemma DivStep(a: nat, b: nat, m: nat)
    requires m > 0 && a + m <= b
    ensures a / m < b / m
  {
    DivBounds(a, m);
    DivBounds(b, m);
    LessTimes(a / m + 1, b / m + 1, m);
  }

  lemma DivBelow(a: nat, m: nat, q: nat)
    requires m > 0 && a < q * m
    ensures a / m < q
  {
    DivBounds(a, m);
    LessTimes(a / m, q, m);
  }

  lemma DivCancelsLow(a: nat, page: nat, m: nat)
    requires m > 0 && page > 0
    ensures a / m * page <= a * page / m
  {
    var (q, inner) := (a / m, a * page / m);
    DivBounds(a, m);
    DivBounds(a * page, m);
    Scaled(q * m, a, page);
    SwapFactors(q, m, page);
    LessTimes(q * page, inner + 1, m);
  }

  lemma DivCancelsHigh(a: nat, page: nat, m: nat)
    requires m > 0 && page > 0
    ensures a * page / m < (a / m + 1) * page
  {
    var (q, inner) := (a / m, a * page / m);
    DivBounds(a, m);
    DivBounds(a * page, m);
    Scaled(a + 1, (q + 1) * m, page);
    assert (a + 1) * page == a * page + page;
    SwapFactors(q + 1, m, page);
    LessTimes(inner, (q + 1) * page, m);
  }

  /** Dividing by a factor that the numerator carries cancels it, also under a further division. */
  lemma DivCancels(a: nat, page: nat, m: nat)
    requires m > 0 && page > 0
    ensures (a * page / m) / page == a / m
  {
    DivCancelsLow(a, page, m);
    DivCancelsHigh(a, page, m);
    DivIs(a * page / m, page, a / m);
  }

  // ---- scattered and clustered selections ----

  function ScatteredIndex(count: nat, changed: nat, item: nat): nat
    requires changed > 0
  {
    item * count / changed
  }

  function Scattered(count: nat, changed: nat): seq<nat>
    requires changed > 0
  {
    seq(changed, item requires 0 <= item < changed => ScatteredIndex(count, changed, item))
  }

  function Clustered(changed: nat): seq<nat> {
    seq(changed, item requires 0 <= item < changed => item)
  }

  function Changed(count: nat, percent: nat): nat {
    if count * percent / 100 < 1 then 1 else count * percent / 100
  }

  /** So many percent, at least one, rounded down. */
  ghost predicate IsPercent(count: nat, percent: nat, changed: nat) {
    changed >= 1 && (changed == 1 || 100 * changed <= count * percent) && count * percent < 100 * (changed + 1)
  }

  /** Index i lies at i even shares of the bodies, rounded down. */
  ghost predicate EvenlySpread(count: nat, indices: seq<nat>) {
    forall i :: 0 <= i < |indices| ==>
      indices[i] * |indices| <= i * count < (indices[i] + 1) * |indices|
  }

  lemma SelectedSize(count: nat, percent: nat)
    ensures IsPercent(count, percent, Changed(count, percent))
  {
  }

  lemma EvenShare(count: nat, changed: nat, i: nat)
    requires changed > 0
    ensures var x := ScatteredIndex(count, changed, i); x * changed <= i * count < (x + 1) * changed
  {
    DivBounds(i * count, changed);
  }

  lemma ScatteredIsEven(count: nat, changed: nat)
    requires changed > 0
    ensures EvenlySpread(count, Scattered(count, changed))
  {
    hide ScatteredIndex;
    forall i: nat | i < changed
      ensures var x := ScatteredIndex(count, changed, i); x * changed <= i * count < (x + 1) * changed
    {
      EvenShare(count, changed, i);
    }
  }

  method SelectIndices(count: nat, percent: nat, clustered: bool) returns (indices: seq<nat>)
    ensures IsPercent(count, percent, |indices|)
    ensures clustered ==> forall i :: 0 <= i < |indices| ==> indices[i] == i
    ensures !clustered ==> EvenlySpread(count, indices)
    ensures indices == if clustered then Clustered(Changed(count, percent)) else Scattered(count, Changed(count, percent))
  {
    var changed := Changed(count, percent);
    indices := [];
    if clustered {
      for index := 0 to changed
        invariant indices == Clustered(index)
      {
        indices := indices + [index];
      }
    } else {
      for item := 0 to changed
        invariant indices == Scattered(count, changed)[..item]
      {
        indices := indices + [item * count / changed];
      }
      ScatteredIsEven(count, changed);
    }
    SelectedSize(count, percent);
  }

  /** With one more count of bodies than selections, consecutive quotients move by at least one. */
  lemma {:induction false} ScatteredRises(count: nat, changed: nat, i: nat, j: nat)
    requires 0 < changed <= count && i < j
    ensures ScatteredIndex(count, changed, i) < ScatteredIndex(count, changed, j)
    decreases j
  {
    assert j * count == (j - 1) * count + count;
    DivStep((j - 1) * count, j * count, changed);
    if i < j - 1 {
      ScatteredRises(count, changed, i, j - 1);
    }
  }

  lemma ScatteredInRange(count: nat, changed: nat, i: nat)
    requires i < changed && 0 < count
    ensures ScatteredIndex(count, changed, i) < count
  {
    Scaled(i + 1, changed, count);
    assert (i + 1) * count == i * count + count;
    DivBelow(i * count, changed, count);
  }

  lemma CrowdedStart(count: nat, changed: nat)
    requires count < changed
    ensures ScatteredIndex(count, changed, 0) == 0 == ScatteredIndex(count, changed, 1)
  {
    DivIs(0, changed, 0);
    DivIs(count, changed, 0);
  }

  /** Scattered indices are distinct and in order exactly when no more are asked for than there are bodies. */
  lemma ScatteredIsStrictIff(count: nat, changed: nat)
    requires changed > 0
    ensures StrictlyAscending(Scattered(count, changed)) <==> changed <= count || changed == 1
    ensures forall i :: 0 <= i < changed && count > 0 ==> Scattered(count, changed)[i] < count
  {
    hide ScatteredIndex;
    var s := Scattered(count, changed);
    if changed <= count {
      forall i, j | 0 <= i < j < changed ensures s[i] < s[j] {
        ScatteredRises(count, changed, i, j);
      }
    } else if changed > 1 {
      CrowdedStart(count, changed);
      assert s[0] == s[1];
    }
    forall i: nat | i < changed && count > 0 ensures s[i] < count {
      ScatteredInRange(count, changed, i);
    }
  }

  // ---- pages ----

  /** The pages a selection touches. */
  ghost function Pages(indices: seq<nat>, page: nat): set<nat>
    requires page > 0
  {
    set i | 0 <= i < |indices| :: indices[i] / page
  }

  lemma {:induction false} FirstNaturals(n: nat, s: set<nat>)
    requires forall x: nat :: x in s <==> x < n
    ensures |s| == n
  {
    if n > 0 {
      FirstNaturals(n - 1, s - {n - 1});
    } else {
      assert s == {};
    }
  }

  /** A strictly ascending list has as many values as entries. */
  lemma {:induction false} StrictListValues(s: seq<nat>, values: set<nat>)
    requires StrictlyAscending(s) && forall x: nat :: x in values <==> x in s
    ensures |values| == |s|
  {
    if s == [] {
      assert values == {};
    } else {
      var (before, last) := (s[..|s| - 1], s[|s| - 1]);
      assert s == before + [last];
      forall x: nat ensures x in values - {last} <==> x in before {
        if x in before {
          var i :| 0 <= i < |before| && before[i] == x;
          assert s[i] < last;
        }
      }
      StrictListValues(before, values - {last});
    }
  }

  /** The page a scattered index lies on. */
  ghost function PageOf(count: nat, changed: nat, page: nat, item: nat): nat
    requires changed > 0 && page > 0
  {
    ScatteredIndex(count, changed, item) / page
  }

  /** Selections at least a page apart on average are at least a page apart each. */
  lemma WideStep(count: nat, changed: nat, page: nat, item: nat)
    requires page > 0 && changed > 0 && changed * page <= count
    ensures PageOf(count, changed, page, item) < PageOf(count, changed, page, item + 1)
  {
    var (a, b) := (item * count, (item + 1) * count);
    assert b == a + count;
    DivBounds(a, changed);
    DivBounds(b, changed);
    Distribute(a / changed, page, changed);
    SwapFactors(1, page, changed);
    LessTimes(a / changed + page, b / changed + 1, changed);
    DivStep(a / changed, b / changed, page);
  }

  /** Selections less than a page apart on average skip no page. */
  lemma NarrowStep(count: nat, changed: nat, page: nat, item: nat)
    requires page > 0 && changed > 0 && changed * page > count
    ensures PageOf(count, changed, page, item) <= PageOf(count, changed, page, item + 1)
      <= PageOf(count, changed, page, item) + 1
  {
    var (a, b) := (item * count, (item + 1) * count);
    assert b == a + count;
    DivMonotone(a, b, changed);
    DivMonotone(a / changed, b / changed, page);
    DivBounds(a, changed);
    Distribute(a / changed + 1, page, changed);
    SwapFactors(1, page, changed);
    DivBelow(b, changed, a / changed + 1 + page);
    DivMonotone(b / changed, a / changed + page, page);
    DivBounds(a / changed, page);
    Distribute(a / changed / page + 1, 1, page);
    DivBelow(a / changed + page, page, a / changed / page + 2);
  }

  lemma FirstPage(count: nat, changed: nat, page: nat)
    requires page > 0 && changed > 0
    ensures PageOf(count, changed, page, 0) == 0
  {
    DivIs(0, changed, 0);
    DivIs(0, page, 0);
  }

  lemma {:induction false} WidePagesRise(count: nat, changed: nat, page: nat, i: nat, j: nat)
    requires page > 0 && changed > 0 && changed * page <= count && i < j
    ensures PageOf(count, changed, page, i) < PageOf(count, changed, page, j)
    decreases j
  {
    hide PageOf;
    WideStep(count, changed, page, j - 1);
    if i < j - 1 {
      WidePagesRise(count, changed, page, i, j - 1);
    }
  }

  lemma {:induction false} NarrowPagesRise(count: nat, changed: nat, page: nat, i: nat, j: nat)
    requires page > 0 && changed > 0 && changed * page > count && i <= j
    ensures PageOf(count, changed, page, i) <= PageOf(count, changed, page, j)
    decreases j
  {
    hide PageOf;
    if i < j {
      NarrowStep(count, changed, page, j - 1);
      NarrowPagesRise(count, changed, page, i, j - 1);
    }
  }

  /** Without skips every page up to that of an index has an index. */
  lemma {:induction false} PageIsHit(count: nat, changed: nat, page: nat, last: nat, p: nat) returns (item: nat)
    requires page > 0 && changed > 0 && changed * page > count && p <= PageOf(count, changed, page, last)
    ensures item <= last && PageOf(count, changed, page, item) == p
    decreases last
  {
    hide PageOf;
    FirstPage(count, changed, page);
    item := last;
    if p < PageOf(count, changed, page, last) {
      NarrowStep(count, changed, page, last - 1);
      item := PageIsHit(count, changed, page, last - 1, p);
    }
  }

  ghost function PagesOf(count: nat, changed: nat, page: nat): seq<nat>
    requires page > 0 && changed > 0
  {
    seq(changed, item requires 0 <= item < changed => PageOf(count, changed, page, item))
  }

  /** How many pages a scattered selection touches, whatever the sizes. */
  lemma TouchedByScattered(count: nat, changed: nat, page: nat)
    requires page > 0 && changed > 0
    ensures |Pages(Scattered(count, changed), page)|
      == if changed * page <= count then changed else PageOf(count, changed, page, changed - 1) + 1
  {
    hide ScatteredIndex;
    var (touched, ranks) := (Pages(Scattered(count, changed), page), PagesOf(count, changed, page));
    forall x: nat ensures x in touched <==> x in ranks {
      if x in touched {
        var i :| 0 <= i < changed && Scattered(count, changed)[i] / page == x;
        assert ranks[i] == x;
      }
      if x in ranks {
        var i :| 0 <= i < changed && ranks[i] == x;
        assert Scattered(count, changed)[i] / page == x;
      }
    }
    if changed * page <= count {
      forall i, j | 0 <= i < j < changed ensures ranks[i] < ranks[j] {
        WidePagesRise(count, changed, page, i, j);
      }
      StrictListValues(ranks, touched);
    } else {
      NarrowPageSet(count, changed, page);
      FirstNaturals(PageOf(count, changed, page, changed - 1) + 1, touched);
    }
  }

  lemma NarrowPageSet(count: nat, changed: nat, page: nat)
    requires page > 0 && changed > 0 && changed * page > count
    ensures forall x: nat :: x in PagesOf(count, changed, page) <==> x <= PageOf(count, changed, page, changed - 1)
  {
    hide PageOf;
    var ranks := PagesOf(count, changed, page);
    forall x: nat ensures x in ranks <==> x <= PageOf(count, changed, page, changed - 1) {
      if x in ranks {
        var i :| 0 <= i < changed && ranks[i] == x;
        NarrowPagesRise(count, changed, page, i, changed - 1);
      }
      if x <= PageOf(count, changed, page, changed - 1) {
        var item := PageIsHit(count, changed, page, changed - 1, x);
        assert ranks[item] == x;
      }
    }
  }

  /** Pages in all, the last one perhaps not full. */
  function PageCount(count: nat, page: nat): nat
    requires page > 0
  {
    (count + page - 1) / page
  }

  /** The benchmark's formula for the pages a scattered selection touches. */
  function ScatteredFormula(count: nat, changed: nat, page: nat): nat
    requires page > 0
  {
    if changed <= PageCount(count, page) then changed else PageCount(count, page)
  }

  lemma PageCountBounds(count: nat, page: nat)
    requires page > 0
    ensures count <= PageCount(count, page) * page
    ensures count > 0 ==> (PageCount(count, page) - 1) * page < count
  {
    var pages := PageCount(count, page);
    DivBounds(count + page - 1, page);
    Distribute(pages, 1, page);
    Distribute(pages, -1, page);
  }

  /** The formula's minimum is decided by the same comparison. */
  lemma FormulaSide(count: nat, changed: nat, page: nat)
    requires page > 0 && count > 0
    ensures changed * page <= count ==> ScatteredFormula(count, changed, page) == changed
    ensures changed * page > count ==> ScatteredFormula(count, changed, page) == PageCount(count, page)
  {
    hide PageCount;
    PageCountBounds(count, page);
    if changed * page <= count {
      Distribute(PageCount(count, page), 1, page);
      LessTimes(changed, PageCount(count, page) + 1, page);
    } else {
      LessTimes(PageCount(count, page) - 1, changed, page);
    }
  }

  lemma LastPageExists(count: nat, changed: nat, page: nat)
    requires page > 0 && changed > 0 && count > 0
    ensures PageOf(count, changed, page, changed - 1) < PageCount(count, page)
  {
    ScatteredInRange(count, changed, changed - 1);
    PageCountBounds(count, page);
    DivBelow(ScatteredIndex(count, changed, changed - 1), page, PageCount(count, page));
  }

  /**
   The formula is never too small, and it is right exactly when the selections are a page apart on average
   or the last of them lies on the last page.
   */
  lemma ScatteredFormulaIff(count: nat, changed: nat, page: nat)
    requires page > 0 && changed > 0 && count > 0
    ensures |Pages(Scattered(count, changed), page)| <= ScatteredFormula(count, changed, page)
    ensures |Pages(Scattered(count, changed), page)| == ScatteredFormula(count, changed, page)
      <==> changed * page <= count || (changed - 1) * count / changed / page == PageCount(count, page) - 1
  {
    TouchedByScattered(count, changed, page);
    FormulaSide(count, changed, page);
    LastPageExists(count, changed, page);
    hide ScatteredFormula;
    hide PageCount;
    hide Pages;
    hide Scattered;
  }

  lemma Regroup(x: int, y: int, z: int)
    ensures x * (y * z) == x * y * z
  {
  }

  lemma LastOfEvenPages(pages: nat, page: nat, changed: nat)
    requires page > 0 && 0 < pages < changed
    ensures (changed - 1) * (pages * page) / changed / page == pages - 1
  {
    var a := (changed - 1) * pages;
    Regroup(changed - 1, pages, page);
    DivCancels(a, page, changed);
    Distribute(changed, -1, pages);
    Distribute(pages, -1, changed);
    DivIs(a, changed, pages - 1);
  }

  lemma EvenPageCount(pages: nat, page: nat)
    requires page > 0
    ensures PageCount(pages * page, page) == pages
  {
    Distribute(pages, 1, page);
    DivIs(pages * page + page - 1, page, pages);
  }

  /** On pages that divide the bodies evenly the formula is right for every number of selections. */
  lemma ScatteredPageCount(pages: nat, page: nat, changed: nat)
    requires page > 0 && 0 < changed && 0 < pages
    ensures |Pages(Scattered(pages * page, changed), page)| == if changed <= pages then changed else pages
  {
    Scaled(1, pages, page);
    ScatteredFormulaIff(pages * page, changed, page);
    EvenPageCount(pages, page);
    if changed <= pages {
      Scaled(changed, pages, page);
    } else {
      LastOfEvenPages(pages, page, changed);
    }
  }

  /** A clustered selection touches its length in pages, rounded up. */
  lemma ClusteredPageCount(page: nat, changed: nat)
    requires page > 0 && 0 < changed
    ensures |Pages(Clustered(changed), page)| == (changed + page - 1) / page
  {
    var touched := Pages(Clustered(changed), page);
    var last := (changed - 1) / page;
    DivBounds(changed - 1, page);
    assert (last + 2) * page == (last + 1) * page + page;
    DivIs(changed + page - 1, page, last + 1);
    forall x: nat ensures x in touched <==> x <= last {
      if x <= last {
        Scaled(x, last, page);
        DivIs(x * page, page, x);
        assert Clustered(changed)[x * page] / page == x;
      }
      if x in touched {
        var i :| 0 <= i < changed && Clustered(changed)[i] / page == x;
        DivMonotone(i, changed - 1, page);
      }
    }
    FirstNaturals(last + 1, touched);
  }

  /** Nine bodies, three changed, pages of four: the formula says three pages, the selection touches two. */
  lemma UnevenPagesAreOverstated()
    ensures ScatteredFormula(9, 3, 4) == 3 && |Pages(Scattered(9, 3), 4)| == 2
  {
    TouchedByScattered(9, 3, 4);
  }

  // ---- ninety-seven is prime ----

  lemma NoSmallFactor(a: nat, q: nat)
    requires 2 <= a <= 9
    ensures a * q != 97
  {
    if a == 2 {
    } else if a == 3 {
    } else if a == 4 {
    } else if a == 5 {
    } else if a == 6 {
    } else if a == 7 {
    } else if a == 8 {
    }
  }

  lemma TwoLargeFactors(a: nat, q: nat)
    requires 10 <= a && 10 <= q
    ensures a * q >= 100
  {
    Scaled(10, a, q);
  }

  lemma NoFactor(q: nat)
    requires 1 < q < 97
    ensures 97 % q != 0
  {
    var a := 97 / q;
    DivBounds(97, q);
    if 97 % q == 0 {
      assert a * q == 97;
      if q <= 9 {
        NoSmallFactor(q, a);
      } else if a <= 9 {
        NoSmallFactor(a, q);
      } else {
        TwoLargeFactors(a, q);
      }
    }
  }

  lemma Remainders(c: nat, q: nat, t: int, a: nat, r: nat)
    requires c * q == 97 * t && 97 == a * q + r
    ensures c * r == 97 * (c - a * t)
  {
    assert c * 97 == c * (a * q) + c * r;
    assert c * (a * q) == a * (c * q);
    assert a * (97 * t) == 97 * (a * t);
  }

  /** Euclid's descent: what 97 divides after multiplying by less than 97, it divided before. */
  lemma {:induction false} DividesFactor(c: nat, q: nat, t: int)
    requires 0 < q < 97 && c * q == 97 * t
    ensures c % 97 == 0
    decreases q
  {
    if q > 1 {
      NoFactor(q);
      var (a, r) := (97 / q, 97 % q);
      Remainders(c, q, t, a, r);
      DividesFactor(c, r, c - a * t);
    }
  }

  // ---- modular selections ----

  lemma SameRemainder(a: nat, b: nat, m: nat) returns (q: nat)
    requires m > 0 && a <= b && a % m == b % m
    ensures b - a == q * m
  {
    DivMonotone(a, b, m);
    q := b / m - a / m;
    assert b / m * m - a / m * m == q * m;
  }

  lemma RemainderRepeats(a: nat, q: nat, m: nat)
    requires m > 0
    ensures (a + q * m) % m == a % m
  {
    var (b, x) := (a + q * m, a / m);
    DivBounds(a, m);
    Distribute(x, q, m);
    Distribute(x + 1, q, m);
    DivIs(b, m, x + q);
    assert a == x * m + a % m && b == (x + q) * m + b % m;
  }

  lemma Distribute(x: int, y: int, m: int)
    ensures (x + y) * m == x * m + y * m
  {
  }

  function StrideIndex(count: nat, shift: nat, item: nat): nat
    requires count > 0
  {
    (item * 97 + shift) % count
  }

  /** Two items of the stride collide exactly when the count divides 97 times their distance. */
  lemma StridesCollide(count: nat, shift: nat, i: nat, j: nat)
    requires count > 0 && i < j && j - i < count && StrideIndex(count, shift, i) == StrideIndex(count, shift, j)
    ensures count % 97 == 0 && j - i >= count / 97
  {
    var d := j - i;
    var q := SameRemainder(i * 97 + shift, j * 97 + shift, count);
    assert d * 97 == q * count;
    if q <= 0 {
      Scaled(q, 0, count);
    } else if q >= 97 {
      Scaled(97, q, count);
    } else {
      DividesFactor(count, q, d);
      Scaled(1, q, count);
    }
  }

  lemma StridesRepeat(count: nat, shift: nat)
    requires count > 0 && count % 97 == 0
    ensures StrideIndex(count, shift, 0) == StrideIndex(count, shift, count / 97)
  {
    assert count / 97 * 97 + shift == shift + 1 * count;
    RemainderRepeats(shift, 1, count);
  }

  function Strides(count: nat, shift: nat, changed: nat): seq<nat>
    requires count > 0
  {
    seq(changed, item requires 0 <= item < changed => StrideIndex(count, shift, item))
  }

  /** Steps of 97 modulo the count name different bodies exactly when 97 is no factor or few enough are asked for. */
  lemma StridesDistinctIff(count: nat, shift: nat, changed: nat)
    requires 0 < count && changed <= count
    ensures Distinct(Strides(count, shift, changed)) <==> count % 97 != 0 || changed <= count / 97
  {
    hide StrideIndex;
    var s := Strides(count, shift, changed);
    if count % 97 != 0 || changed <= count / 97 {
      forall i, j | 0 <= i < j < changed ensures s[i] != s[j] {
        if s[i] == s[j] {
          StridesCollide(count, shift, i, j);
        }
      }
    } else {
      StridesRepeat(count, shift);
      assert s[0] == s[count / 97];
    }
  }

  // ---- the trace of the snapshot oracle benchmark ----

  function Phase(frame: nat): nat { frame / 24 }

  function TraceChanged(count: nat, frame: nat): nat {
    match Phase(frame)
    case 0 => 2
    case 1 => count / 100
    case 2 => count / 10
    case 3 => count / 10
    case _ => count
  }

  /** The body an item names.  Only the first phase can be asked about an empty world, and there it divides by zero. */
  function TraceIndex(count: nat, frame: nat, item: nat): nat
    requires 0 < count && item < TraceChanged(count, frame)
  {
    match Phase(frame)
    case 0 => (frame * 31 + item) % count
    case 1 => StrideIndex(count, frame * 13, item)
    case 3 => StrideIndex(count, frame * 13, item)
    case _ => frame * 37 % (count - TraceChanged(count, frame) + 1) + item
  }

  function Trace(count: nat, frame: nat): seq<nat>
    requires 0 < count || 24 <= frame
  {
    seq(TraceChanged(count, frame), item requires 0 <= item < TraceChanged(count, frame) => TraceIndex(count, frame, item))
  }

  /** How many bodies each of the 24-frame phases asks for: two, a hundredth, twice a tenth, and then all. */
  ghost predicate AskedFor(count: nat, frame: nat, changed: nat) {
    if frame < 24 then changed == 2
    else if frame < 48 then 100 * changed <= count < 100 * (changed + 1)
    else if frame < 96 then 10 * changed <= count < 10 * (changed + 1)
    else changed == count
  }

  method CountChanged(count: nat, frame: nat) returns (changed: nat)
    ensures changed == TraceChanged(count, frame) && AskedFor(count, frame, changed)
  {
    var phase := frame / 24;
    if phase == 0 {
      changed := 2;
    } else if phase == 1 {
      changed := count / 100;
    } else if phase == 2 || phase == 3 {
      changed := count / 10;
    } else {
      changed := count;
    }
  }

  method MutatedIndices(count: nat, frame: nat) returns (indices: seq<nat>)
    requires 0 < count || 24 <= frame
    ensures indices == SortedUnique(Trace(count, frame))
  {
    hide TraceIndex;
    hide SortedUnique;
    var changed := CountChanged(count, frame);
    if count == 0 {
      assert changed == 0;
    }
    hide TraceChanged;
    indices := [];
    for item := 0 to changed
      invariant indices == Trace(count, frame)[..item]
    {
      var index := PickIndex(count, frame, changed, item);
      indices := indices + [index];
    }
    assert indices == Trace(count, frame);
    indices := SortedUnique(indices);
  }

  method PickIndex(count: nat, frame: nat, changed: nat, item: nat) returns (index: nat)
    requires 0 < count && item < changed == TraceChanged(count, frame)
    ensures index == TraceIndex(count, frame, item)
  {
    var phase := frame / 24;
    if phase == 0 {
      index := (frame * 31 + item) % count;
    } else if phase == 1 || phase == 3 {
      index := (item * 97 + frame * 13) % count;
    } else {
      var start := frame * 37 % (count - changed + 1);
      index := start + item;
    }
  }

  lemma PairRepeatsIff(a: nat, count: nat)
    requires count > 0
    ensures a % count == (a + 1) % count <==> count == 1
  {
    if a % count == (a + 1) % count {
      var q := SameRemainder(a, a + 1, count);
      if count > 1 {
        if q >= 1 {
          Scaled(1, q, count);
        } else {
          Scaled(q, 0, count);
        }
      }
    }
  }

  lemma TraceInRange(count: nat, frame: nat, item: nat)
    requires 0 < count && item < TraceChanged(count, frame)
    ensures TraceIndex(count, frame, item) < count
  {
  }

  lemma AddRemainder(x: nat, y: nat, n: nat)
    requires n > 0
    ensures (x + y) % n == (x % n + y) % n
  {
    assert x == x / n * n + x % n;
    RemainderRepeats(x % n + y, x / n, n);
  }

  /** The next body a frame names: its neighbour in the first, third and last phases, 97 further in the others. */
  lemma TraceNeighbours(count: nat, frame: nat, item: nat)
    requires 0 < count && item + 1 < TraceChanged(count, frame)
    ensures var (here, next) := (TraceIndex(count, frame, item), TraceIndex(count, frame, item + 1));
      if frame < 24 then next == (here + 1) % count
      else if frame < 48 || 72 <= frame < 96 then next == (here + 97) % count
      else next == here + 1
  {
    AddRemainder(frame * 31 + item, 1, count);
    AddRemainder(item * 97 + frame * 13, 97, count);
  }

  /** The next frame of a phase starts 31, 13, 37 or again 13 bodies further on, wrapping round. */
  lemma TraceAdvances(count: nat, frame: nat)
    requires 0 < count && TraceChanged(count, frame) > 0 && (frame + 1) % 24 != 0
    ensures TraceChanged(count, frame + 1) == TraceChanged(count, frame)
    ensures var (here, next) := (TraceIndex(count, frame, 0), TraceIndex(count, frame + 1, 0));
      if frame < 24 then next == (here + 31) % count
      else if frame < 48 || 72 <= frame < 96 then next == (here + 13) % count
      else next == (here + 37) % (count - TraceChanged(count, frame) + 1)
  {
    assert Phase(frame + 1) == Phase(frame);
    hide Phase;
    if frame < 24 {
      AddRemainder(frame * 31, 31, count);
    } else if frame < 48 || 72 <= frame < 96 {
      AddRemainder(frame * 13, 13, count);
    } else {
      AddRemainder(frame * 37, 37, count - TraceChanged(count, frame) + 1);
    }
  }

  /** Where the phases start. */
  lemma TraceStarts(count: nat)
    requires 100 <= count
    ensures TraceIndex(count, 0, 0) == 0
    ensures TraceIndex(count, 24, 0) == 312 % count && TraceIndex(count, 72, 0) == 936 % count
    ensures TraceIndex(count, 48, 0) == 1776 % (count - count / 10 + 1) && TraceIndex(count, 96, 0) == 0
  {
    assert count - TraceChanged(count, 96) + 1 == 1;
  }

  lemma PairTraceDistinctIff(count: nat, frame: nat)
    requires 0 < count && Phase(frame) == 0
    ensures Distinct(Trace(count, frame)) <==> count != 1
  {
    var raw := Trace(count, frame);
    PairRepeatsIff(frame * 31, count);
    assert Distinct(raw) <==> raw[0] != raw[1];
  }

  lemma StrideTraceDistinctIff(count: nat, frame: nat)
    requires 0 < count && (Phase(frame) == 1 || Phase(frame) == 3)
    ensures Distinct(Trace(count, frame)) <==> Phase(frame) == 1 || count % 97 != 0
  {
    hide StrideIndex;
    var changed := TraceChanged(count, frame);
    assert Trace(count, frame) == Strides(count, frame * 13, changed);
    StridesDistinctIff(count, frame * 13, changed);
  }

  lemma SpanTraceIsDistinct(count: nat, frame: nat)
    requires 0 < count && Phase(frame) != 0 && Phase(frame) != 1 && Phase(frame) != 3
    ensures Distinct(Trace(count, frame))
  {
    var raw := Trace(count, frame);
    forall i, j | 0 <= i < j < |raw| ensures raw[i] != raw[j] {
    }
  }

  /**
   A frame of the trace marks exactly as many bodies as its phase asks for, except in a world of one
   body in the first phase and, in the dispersed ten-percent phase, in a world whose size 97 divides.
   */
  lemma TraceMarksAllIff(count: nat, frame: nat)
    requires 0 < count
    ensures |SortedUnique(Trace(count, frame))| == TraceChanged(count, frame)
      <==> !(Phase(frame) == 0 && count == 1) && !(Phase(frame) == 3 && count % 97 == 0)
  {
    var raw := Trace(count, frame);
    assert |raw| == TraceChanged(count, frame);
    hide Trace;
    hide TraceChanged;
    SortedUniqueKeepsAllIff(raw);
    hide SortedUnique;
    if Phase(frame) == 0 {
      PairTraceDistinctIff(count, frame);
    } else if Phase(frame) == 1 || Phase(frame) == 3 {
      StrideTraceDistinctIff(count, frame);
    } else {
      SpanTraceIsDistinct(count, frame);
    }
  }

  // ---- touched chunks ----

  /** One, plus one for every neighbour in another chunk; none for an empty list. */
  function TouchedChunks(indices: seq<nat>, chunk: nat): nat
    requires chunk > 0
  {
    if indices == [] then 0
    else if |indices| == 1 then 1
    else
      var n := |indices|;
      var step := if indices[n - 2] / chunk != indices[n - 1] / chunk then 1 else 0;
      TouchedChunks(indices[..n - 1], chunk) + step
  }

  /** The store's own loop over the same list. */
  method TouchedPageCount(indices: seq<nat>, page: nat) returns (count: nat)
    requires page > 0
    ensures count == TouchedChunks(indices, page)
  {
    if indices == [] {
      return 0;
    }
    count := 1;
    var previous := indices[0] / page;
    for position := 1 to |indices|
      invariant count == TouchedChunks(indices[..position], page) && previous == indices[position - 1] / page
    {
      assert indices[..position + 1][..position] == indices[..position];
      var here := indices[position] / page;
      if here != previous {
        count := count + 1;
        previous := here;
      }
    }
    assert indices[..|indices|] == indices;
  }

  /** On a sorted list counting changes between neighbours counts the distinct chunks. */
  lemma {:induction false} TouchedChunksAreDistinctChunks(indices: seq<nat>, chunk: nat)
    requires chunk > 0 && Ascending(indices)
    ensures TouchedChunks(indices, chunk) == |Pages(indices, chunk)|
  {
    var n := |indices|;
    if n == 0 {
      assert Pages(indices, chunk) == {};
    } else {
      var before := indices[..n - 1];
      TouchedChunksAreDistinctChunks(before, chunk);
      PagesOfOneMore(indices, chunk);
      if n == 1 {
        assert Pages(before, chunk) == {};
      } else {
        LastChunkIsNew(indices, chunk);
      }
    }
  }

  lemma PagesOfOneMore(indices: seq<nat>, chunk: nat)
    requires chunk > 0 && indices != []
    ensures Pages(indices, chunk) == Pages(indices[..|indices| - 1], chunk) + {indices[|indices| - 1] / chunk}
  {
    var n := |indices|;
    var before := indices[..n - 1];
    forall p: nat ensures p in Pages(indices, chunk) <==> p in Pages(before, chunk) + {indices[n - 1] / chunk} {
      if p in Pages(before, chunk) {
        var i :| 0 <= i < n - 1 && before[i] / chunk == p;
        assert indices[i] / chunk == p;
      }
      if p in Pages(indices, chunk) {
        var i :| 0 <= i < n && indices[i] / chunk == p;
        assert i < n - 1 ==> before[i] / chunk == p;
      }
    }
  }

  lemma LastChunkIsNew(indices: seq<nat>, chunk: nat)
    requires chunk > 0 && Ascending(indices) && |indices| >= 2
    ensures indices[|indices| - 1] / chunk in Pages(indices[..|indices| - 1], chunk)
      <==> indices[|indices| - 2] / chunk == indices[|indices| - 1] / chunk
  {
    var n := |indices|;
    var (before, last) := (indices[..n - 1], indices[n - 1] / chunk);
    DivMonotone(indices[n - 2], indices[n - 1], chunk);
    assert before[n - 2] / chunk in Pages(before, chunk);
    if last in Pages(before, chunk) {
      var i :| 0 <= i < |before| && before[i] / chunk == last;
      if i < n - 2 {
        DivMonotone(indices[i], indices[n - 2], chunk);
      }
    }
  }
}
