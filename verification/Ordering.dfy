/** Sorting and duplicate removal as the standard algorithms do it, on sequences of naturals. */
module Ordering {

  predicate Ascending(s: seq<nat>) {
    forall i, j :: 0 <= i < j < |s| ==> s[i] <= s[j]
  }

  predicate StrictlyAscending(s: seq<nat>) {
    forall i, j :: 0 <= i < j < |s| ==> s[i] < s[j]
  }

  predicate Distinct<T(==)>(s: seq<T>) {
    forall i, j :: 0 <= i < j < |s| ==> s[i] != s[j]
  }

  function Insert(s: seq<nat>, x: nat): (r: seq<nat>)
    ensures multiset(r) == multiset(s) + multiset{x}
  {
    if s == [] || x <= s[0] then [x] + s
    else
      assert s == [s[0]] + s[1..];
      [s[0]] + Insert(s[1..], x)
  }

  lemma {:induction false} InsertAddsOne(s: seq<nat>, x: nat, y: nat)
    ensures y in Insert(s, x) <==> y in s || y == x
  {
    if s != [] && x > s[0] {
      InsertAddsOne(s[1..], x, y);
    }
  }

  lemma {:induction false} InsertKeepsOrder(s: seq<nat>, x: nat)
    requires Ascending(s)
    ensures Ascending(Insert(s, x))
  {
    if s != [] && x > s[0] {
      var rest := Insert(s[1..], x);
      InsertKeepsOrder(s[1..], x);
      forall i | 0 <= i < |rest| ensures s[0] <= rest[i] {
        InsertAddsOne(s[1..], x, rest[i]);
      }
    }
  }

  /** The ascending rearrangement of a list. */
  function Sort(s: seq<nat>): (r: seq<nat>)
    ensures multiset(r) == multiset(s)
  {
    if s == [] then []
    else
      assert s == [s[0]] + s[1..];
      Insert(Sort(s[1..]), s[0])
  }

  lemma {:induction false} SortAscends(s: seq<nat>)
    ensures Ascending(Sort(s))
  {
    if s != [] {
      SortAscends(s[1..]);
      InsertKeepsOrder(Sort(s[1..]), s[0]);
    }
  }

  lemma SortKeepsElements(s: seq<nat>)
    ensures |Sort(s)| == |s| && forall x :: x in Sort(s) <==> x in s
    ensures Distinct(s) ==> StrictlyAscending(Sort(s))
  {
    var r := Sort(s);
    SortAscends(s);
    assert |multiset(r)| == |r| && |multiset(s)| == |s|;
    forall x: nat ensures x in r <==> x in s {
      assert x in multiset(r) <==> x in multiset(s);
    }
    if Distinct(s) {
      forall i, j | 0 <= i < j < |r| ensures r[i] < r[j] {
        if r[i] == r[j] {
          TwiceInSorted(r, i, j);
          OnceInDistinct(s, r[i]);
        }
      }
    }
  }

  lemma TwiceInSorted(r: seq<nat>, i: nat, j: nat)
    requires i < j < |r| && r[i] == r[j]
    ensures multiset(r)[r[i]] >= 2
  {
    assert r == r[..i] + [r[i]] + r[i + 1..j] + [r[j]] + r[j + 1..];
  }

  lemma {:induction false} OnceInDistinct<T>(s: seq<T>, x: T)
    requires Distinct(s)
    ensures multiset(s)[x] == if x in s then 1 else 0
  {
    if s != [] {
      assert s == [s[0]] + s[1..];
      OnceInDistinct(s[1..], x);
    }
  }

  // ---- adjacent duplicates ----

  /** Drops every element equal to its predecessor. */
  function Unique(s: seq<nat>): (r: seq<nat>)
    ensures |r| <= |s| && (s != [] ==> r != [] && r[|r| - 1] == s[|s| - 1])
  {
    if |s| <= 1 then s
    else
      var before := Unique(s[..|s| - 1]);
      if s[|s| - 1] == s[|s| - 2] then before else before + [s[|s| - 1]]
  }

  lemma {:induction false} UniqueKeepsElements(s: seq<nat>)
    ensures forall x: nat :: x in Unique(s) <==> x in s
  {
    if |s| > 1 {
      var (before, last) := (s[..|s| - 1], s[|s| - 1]);
      UniqueKeepsElements(before);
      assert s == before + [last];
      assert last == s[|s| - 2] ==> last == before[|before| - 1];
    }
  }

  /** On an ascending list it leaves each value once, in order. */
  lemma {:induction false} UniqueAscends(s: seq<nat>)
    requires Ascending(s)
    ensures StrictlyAscending(Unique(s))
  {
    if |s| > 1 {
      var (before, last) := (s[..|s| - 1], s[|s| - 1]);
      var kept := Unique(before);
      UniqueAscends(before);
      UniqueKeepsElements(before);
      if last != s[|s| - 2] {
        forall i | 0 <= i < |kept| ensures kept[i] < last {
          assert kept[i] in before;
          var j :| 0 <= j < |before| && before[j] == kept[i];
          assert s[j] <= s[|s| - 2] <= last;
        }
      }
    }
  }

  /** Sorting and dropping repeats: the strictly ascending list of the values. */
  function SortedUnique(s: seq<nat>): (r: seq<nat>) {
    Unique(Sort(s))
  }

  lemma SortedUniqueIsSet(s: seq<nat>)
    ensures StrictlyAscending(SortedUnique(s)) && forall x: nat :: x in SortedUnique(s) <==> x in s
  {
    SortAscends(s);
    SortKeepsElements(s);
    UniqueAscends(Sort(s));
    UniqueKeepsElements(Sort(s));
  }

  lemma StrictIsDistinct(s: seq<nat>)
    requires StrictlyAscending(s)
    ensures Distinct(s)
  {
    forall i, j | 0 <= i < j < |s| ensures s[i] != s[j] {
      assert s[i] < s[j];
    }
  }

  /** A rearrangement of a list that ascends strictly shows that the list had no repeats. */
  lemma StrictRearrangement(s: seq<nat>, r: seq<nat>, i: nat, j: nat)
    requires multiset(s) == multiset(r) && StrictlyAscending(r) && i < j < |s|
    ensures s[i] != s[j]
  {
    hide StrictlyAscending;
    hide Distinct;
    StrictIsDistinct(r);
    OnceInDistinct(r, s[i]);
    assert multiset(s)[s[i]] <= 1;
    if s[i] == s[j] {
      TwiceInSorted(s, i, j);
    }
  }

  /** A list without repeats loses nothing, and one with a repeat loses something. */
  lemma SortedUniqueKeepsAllIff(s: seq<nat>)
    ensures |SortedUnique(s)| == |s| <==> Distinct(s)
  {
    SortAscends(s);
    SortKeepsElements(s);
    UniqueKeepsAllIff(Sort(s));
    if StrictlyAscending(Sort(s)) {
      forall i, j | 0 <= i < j < |s| ensures s[i] != s[j] {
        StrictRearrangement(s, Sort(s), i, j);
      }
    }
  }

  lemma {:induction false} UniqueKeepsAllIff(s: seq<nat>)
    requires Ascending(s)
    ensures |Unique(s)| == |s| <==> StrictlyAscending(s)
  {
    if |s| > 1 {
      var before := s[..|s| - 1];
      UniqueKeepsAllIff(before);
      if s[|s| - 1] == s[|s| - 2] {
        assert !(s[|s| - 2] < s[|s| - 1]);
      } else if StrictlyAscending(before) {
        forall i, j | 0 <= i < j < |s| ensures s[i] < s[j] {
          if j < |s| - 1 {
            assert before[i] < before[j];
          } else {
            assert s[i] <= s[|s| - 2];
          }
        }
      } else {
        var i, j :| 0 <= i < j < |before| && before[i] >= before[j];
        assert s[i] >= s[j];
      }
    }
  }
}
