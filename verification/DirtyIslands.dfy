/**
 The merge scenario of the dirty-island benchmarks: bodies paired 2i-2i+1, and for every dirty
 island one bridge that joins two neighbouring pairs.  The builder claims which bodies change
 component, what the sorted pair list is and how many pairs an island holds at most.
 */
module DirtyIslands {
  import opened ContactGraph
  import opened Ordering
  import opened UnionFind

  function BasePair(i: nat): Contact { Contact(2 * i, 2 * i + 1) }

  function Bridge(i: nat): Contact { Contact(4 * i + 1, 4 * i + 2) }

  function SplitContacts(base: nat): seq<Contact> { seq(base, i requires 0 <= i < base => BasePair(i)) }

  function MergedContacts(base: nat, islands: nat): seq<Contact> {
    SplitContacts(base) + seq(islands, i requires 0 <= i < islands => Bridge(i))
  }

  // ---- lexicographic order on pairs ----

  predicate Before(p: Contact, q: Contact) {
    p.first < q.first || (p.first == q.first && p.second < q.second)
  }

  predicate AtMost(p: Contact, q: Contact) {
    !Before(q, p)
  }

  lemma AtMostOrders(p: Contact, q: Contact, r: Contact)
    ensures AtMost(p, q) || AtMost(q, p)
    ensures AtMost(p, q) && AtMost(q, r) ==> AtMost(p, r)
    ensures AtMost(p, q) && AtMost(q, p) ==> p == q
    ensures Before(p, q) ==> AtMost(p, q) && p != q
  {
  }

  predicate PairsAscend(s: seq<Contact>) {
    forall i, j :: 0 <= i < j < |s| ==> AtMost(s[i], s[j])
  }

  function InsertPair(s: seq<Contact>, p: Contact): (r: seq<Contact>)
    ensures multiset(r) == multiset(s) + multiset{p}
  {
    if s == [] || AtMost(p, s[0]) then [p] + s
    else
      assert s == [s[0]] + s[1..];
      [s[0]] + InsertPair(s[1..], p)
  }

  lemma {:induction false} InsertPairAscends(s: seq<Contact>, p: Contact)
    requires PairsAscend(s)
    ensures PairsAscend(InsertPair(s, p))
  {
    hide AtMost;
    if s == [] {
    } else if AtMost(p, s[0]) {
      forall i | 0 <= i < |s| ensures AtMost(p, s[i]) {
        AtMostOrders(p, s[0], s[i]);
      }
    } else {
      var rest := InsertPair(s[1..], p);
      InsertPairAscends(s[1..], p);
      AtMostOrders(p, s[0], p);
      forall i | 0 <= i < |rest| ensures AtMost(s[0], rest[i]) {
        assert rest[i] in multiset(rest);
        assert rest[i] in s[1..] || rest[i] == p;
      }
    }
  }

  function SortPairs(s: seq<Contact>): (r: seq<Contact>)
    ensures multiset(r) == multiset(s)
  {
    if s == [] then []
    else
      assert s == [s[0]] + s[1..];
      InsertPair(SortPairs(s[1..]), s[0])
  }

  lemma {:induction false} SortPairsAscends(s: seq<Contact>)
    ensures PairsAscend(SortPairs(s))
  {
    if s != [] {
      SortPairsAscends(s[1..]);
      InsertPairAscends(SortPairs(s[1..]), s[0]);
    }
  }

  lemma LeastLeads(s: seq<Contact>, p: Contact)
    requires PairsAscend(s) && p in s
    ensures AtMost(s[0], p)
  {
    AtMostOrders(p, p, p);
  }

  /** Whatever algorithm sorts: two ascending arrangements of the same pairs are the same list. */
  lemma {:induction false} SortedIsUnique(s: seq<Contact>, t: seq<Contact>)
    requires PairsAscend(s) && PairsAscend(t) && multiset(s) == multiset(t)
    ensures s == t
  {
    hide AtMost;
    assert |multiset(s)| == |s| && |multiset(t)| == |t|;
    if s != [] {
      assert s[0] in multiset(t) && t[0] in multiset(s);
      LeastLeads(s, t[0]);
      LeastLeads(t, s[0]);
      AtMostOrders(s[0], t[0], s[0]);
      TailElements(s);
      TailElements(t);
      SortedIsUnique(s[1..], t[1..]);
    }
  }

  lemma TailElements(s: seq<Contact>)
    requires s != []
    ensures s == [s[0]] + s[1..] && multiset(s[1..]) == multiset(s) - multiset{s[0]}
  {
    assert s == [s[0]] + s[1..];
  }

  // ---- the builder ----

  datatype Scenario = Rejected | Built(contacts: seq<Contact>, pairs: seq<Contact>, dirty: seq<nat>)

  const BASE_PAIRS: nat := 5000
  const MOST_DIRTY: nat := 1024

  method BuildMerged(base: nat, islands: nat) returns (contacts: seq<Contact>, pairs: seq<Contact>, dirty: seq<nat>)
    ensures contacts == MergedContacts(base, islands)
    ensures PairsAscend(pairs) && multiset(pairs) == multiset(contacts)
    ensures dirty == seq(4 * islands, b requires 0 <= b < 4 * islands => b)
  {
    contacts := [];
    for i := 0 to base
      invariant contacts == SplitContacts(i)
    {
      contacts := contacts + [BasePair(i)];
    }
    dirty := [];
    for i := 0 to islands
      invariant contacts == MergedContacts(base, i)
      invariant dirty == seq(4 * i, b requires 0 <= b < 4 * i => b)
    {
      var pair := i * 2;
      var first := pair * 2 + 1;
      contacts := contacts + [Contact(first, first + 1)];
      for body := pair * 2 to pair * 2 + 4
        invariant dirty == seq(body, b requires 0 <= b < body => b)
      {
        dirty := dirty + [body];
      }
    }
    SortPairsAscends(contacts);
    pairs := SortPairs(contacts);
  }

  /** The later benchmark refuses more islands than its range before it builds anything. */
  method BuildScenario(islands: nat) returns (r: Scenario)
    ensures r.Rejected? <==> islands > 1024
    ensures r.Built? ==> 2 * islands <= BASE_PAIRS && r.contacts == MergedContacts(BASE_PAIRS, islands)
    ensures r.Built? ==> |r.contacts| == 5000 + islands && InRange(10_000, r.contacts)
    ensures r.Built? ==> PairsAscend(r.pairs) && multiset(r.pairs) == multiset(r.contacts)
    ensures r.Built? ==> r.dirty == seq(4 * islands, b requires 0 <= b < 4 * islands => b)
  {
    if islands > MOST_DIRTY {
      return Rejected;
    }
    var contacts, pairs, dirty := BuildMerged(BASE_PAIRS, islands);
    ScenarioInRange(BASE_PAIRS, islands);
    r := Built(contacts, pairs, dirty);
  }

  // ---- keys before and after the merge ----

  /** Bodies come in fours below the last bridge and in twos above it. */
  function MergedKey(islands: nat, b: nat): (k: nat)
    ensures k <= b
  {
    if b < 4 * islands then b - b % 4 else b - b % 2
  }

  lemma ScenarioInRange(base: nat, islands: nat)
    requires 2 * islands <= base
    ensures |MergedContacts(base, islands)| == base + islands
    ensures InRange(2 * base, MergedContacts(base, islands))
    ensures MergedContacts(base, 0) == SplitContacts(base)
  {
  }

  lemma InTwos(q: nat, r: nat)
    requires r < 2
    ensures (2 * q + r) % 2 == r && (2 * q + r) / 2 == q
  {
  }

  lemma InFours(q: nat, r: nat)
    requires r < 4
    ensures (4 * q + r) % 4 == r && (4 * q + r) / 4 == q
  {
  }

  lemma SamePair(i: nat)
    ensures 2 * i % 2 == 0 && (2 * i + 1) % 2 == 1
    ensures 2 * i % 4 == 0 || 2 * i % 4 == 2
    ensures (2 * i + 1) % 4 == 2 * i % 4 + 1
  {
    var q := i / 2;
    InTwos(i, 0);
    InTwos(i, 1);
    var r := 2 * (i % 2);
    InFours(q, r);
    InFours(q, r + 1);
    assert 2 * i == 4 * q + r;
  }

  lemma SameFour(i: nat)
    ensures (4 * i + 1) % 4 == 1 && (4 * i + 2) % 4 == 2
  {
    InFours(i, 1);
    InFours(i, 2);
  }

  lemma ContactKeepsKey(base: nat, islands: nat, i: nat)
    requires i < base + islands
    ensures var c := MergedContacts(base, islands)[i]; MergedKey(islands, c.first) == MergedKey(islands, c.second)
  {
    if i < base {
      assert MergedContacts(base, islands)[i] == BasePair(i);
      SamePair(i);
    } else {
      assert MergedContacts(base, islands)[i] == Bridge(i - base);
      SameFour(i - base);
    }
  }

  /** The four bodies of a bridged group touch in a row. */
  lemma GroupIsChained(base: nat, islands: nat, i: nat)
    requires i < islands && 2 * islands <= base
    ensures Touch(Edges(MergedContacts(base, islands)), 4 * i, 4 * i + 1)
    ensures Touch(Edges(MergedContacts(base, islands)), 4 * i + 1, 4 * i + 2)
    ensures Touch(Edges(MergedContacts(base, islands)), 4 * i + 2, 4 * i + 3)
  {
    var contacts := MergedContacts(base, islands);
    var edges := Edges(contacts);
    PairTouches(base, islands, 2 * i);
    PairTouches(base, islands, 2 * i + 1);
    assert contacts[base + i] == Bridge(i);
    assert Bridge(i) in edges && Joins(Bridge(i), 4 * i + 1, 4 * i + 2);
  }

  lemma PairTouches(base: nat, islands: nat, i: nat)
    requires i < base
    ensures Touch(Edges(MergedContacts(base, islands)), 2 * i, 2 * i + 1)
  {
    var contacts := MergedContacts(base, islands);
    assert contacts[i] == BasePair(i);
    assert BasePair(i) in Edges(contacts) && Joins(BasePair(i), 2 * i, 2 * i + 1);
  }

  lemma MergedKeyReaches(base: nat, islands: nat, b: nat)
    requires 2 * islands <= base && b < 2 * base
    ensures Reaches(Edges(MergedContacts(base, islands)), MergedKey(islands, b), b)
  {
    hide Reaches;
    hide Touch;
    hide MergedContacts;
    var edges := Edges(MergedContacts(base, islands));
    var key := MergedKey(islands, b);
    ReachesSelf(edges, key);
    if b < 4 * islands {
      var i := b / 4;
      GroupIsChained(base, islands, i);
      assert key == 4 * i;
      ReachesTouching(edges, key, key + 1);
      ReachesTouching(edges, key + 1, key + 2);
      ReachesTouching(edges, key + 2, key + 3);
      ReachesTransitive(edges, key, key + 1, key + 2);
      ReachesTransitive(edges, key, key + 2, key + 3);
    } else {
      var i := b / 2;
      PairTouches(base, islands, i);
      assert key == 2 * i;
      ReachesTouching(edges, key, key + 1);
    }
  }

  /** Key by key: 4i for the bodies 4i to 4i+3 of every dirty island i, the split key elsewhere. */
  lemma MergedKeys(base: nat, islands: nat)
    requires 2 * islands <= base
    ensures InRange(2 * base, MergedContacts(base, islands))
    ensures Keys(2 * base, MergedContacts(base, islands))
      == seq(2 * base, b requires 0 <= b < 2 * base => MergedKey(islands, b))
  {
    hide Reaches;
    hide MergedContacts;
    hide MergedKey;
    var contacts := MergedContacts(base, islands);
    var labels := seq(2 * base, b requires 0 <= b < 2 * base => MergedKey(islands, b));
    ScenarioInRange(base, islands);
    forall b: nat | b < 2 * base ensures labels[b] <= b && Reaches(Edges(contacts), labels[b], b) {
      MergedKeyReaches(base, islands, b);
    }
    forall c | c in contacts ensures labels[c.first] == labels[c.second] {
      var i :| 0 <= i < |contacts| && contacts[i] == c;
      ContactKeepsKey(base, islands, i);
    }
    KeysAreUnique(2 * base, contacts, labels);
  }

  // ---- the dirty list ----

  ghost function Component(keys: seq<nat>, b: nat): set<nat>
    requires b < |keys|
  {
    set a: nat | a < |keys| && keys[a] == keys[b]
  }

  lemma GroupsOfFour(islands: nat, a: nat, b: nat)
    requires b >= 4 * islands
    ensures MergedKey(islands, a) == MergedKey(islands, b) <==> MergedKey(0, a) == MergedKey(0, b)
  {
    if a < 4 * islands {
      assert MergedKey(islands, b) >= 4 * islands && MergedKey(0, b) >= 4 * islands;
    }
  }

  /** The same place in the other pair of the body's group of four. */
  lemma OtherPair(islands: nat, b: nat) returns (other: nat)
    requires b < 4 * islands
    ensures other < 4 * islands
    ensures MergedKey(islands, other) == MergedKey(islands, b) && MergedKey(0, other) != MergedKey(0, b)
  {
    var (i, r) := (b / 4, b % 4);
    other := if r < 2 then 4 * i + 2 else 4 * i;
    InFours(i, 2);
    InFours(i, 0);
    InTwos(2 * i + 1, 0);
    InTwos(2 * i, 0);
    InTwos(2 * i + r / 2, r % 2);
    assert b == 2 * (2 * i + r / 2) + r % 2;
  }

  ghost predicate IsMergedKeys(keys: seq<nat>, base: nat, islands: nat) {
    |keys| == 2 * base && forall b :: 0 <= b < 2 * base ==> keys[b] == MergedKey(islands, b)
  }

  lemma ComponentsDiffer(split: seq<nat>, merged: seq<nat>, base: nat, islands: nat, b: nat)
    requires 2 * islands <= base && b < 2 * base
    requires IsMergedKeys(split, base, 0) && IsMergedKeys(merged, base, islands)
    ensures b < 4 * islands <==> Component(split, b) != Component(merged, b)
  {
    hide MergedKey;
    if b < 4 * islands {
      var other := OtherPair(islands, b);
      assert other in Component(merged, b) && other !in Component(split, b);
    } else {
      forall a: nat | a < 2 * base ensures split[a] == split[b] <==> merged[a] == merged[b] {
        GroupsOfFour(islands, a, b);
      }
      assert Component(split, b) == Component(merged, b);
    }
  }

  /** The dirty list names exactly the bodies whose component the bridges changed. */
  lemma DirtyListIsExact(base: nat, islands: nat, b: nat)
    requires 2 * islands <= base && b < 2 * base
    ensures InRange(2 * base, SplitContacts(base)) && InRange(2 * base, MergedContacts(base, islands))
    ensures b < 4 * islands <==>
      Component(Keys(2 * base, SplitContacts(base)), b) != Component(Keys(2 * base, MergedContacts(base, islands)), b)
  {
    hide MergedKey;
    hide Component;
    ScenarioInRange(base, 0);
    MergedKeys(base, 0);
    MergedKeys(base, islands);
    ComponentsDiffer(Keys(2 * base, SplitContacts(base)), Keys(2 * base, MergedContacts(base, islands)), base, islands, b);
  }

  // ---- the sorted pair list ----

  /** Every dirty island contributes its two pairs around its bridge; the other pairs follow. */
  function SortedPair(islands: nat, k: nat): Contact {
    if k < 3 * islands then Contact(4 * (k / 3) + k % 3, 4 * (k / 3) + k % 3 + 1)
    else BasePair(k - islands)
  }

  function SortedPairs(base: nat, islands: nat): seq<Contact> {
    seq(base + islands, k requires 0 <= k < base + islands => SortedPair(islands, k))
  }

  lemma SortedPairsRise(islands: nat, j: nat, k: nat)
    requires j < k
    ensures SortedPair(islands, j).first < SortedPair(islands, k).first
  {
    if k < 3 * islands {
      assert 4 * (j / 3) + j % 3 == j + j / 3 && 4 * (k / 3) + k % 3 == k + k / 3;
    } else if j < 3 * islands {
      assert j / 3 < islands;
    }
  }

  lemma SortedPairIsMerged(base: nat, islands: nat, k: nat)
    requires 2 * islands <= base && k < base + islands
    ensures SortedPair(islands, k) in MergedContacts(base, islands)
  {
    var (contacts, i) := (MergedContacts(base, islands), k / 3);
    if k >= 3 * islands {
      assert contacts[k - islands] == SortedPair(islands, k);
    } else if k % 3 == 1 {
      assert contacts[base + i] == Bridge(i) == SortedPair(islands, k);
    } else {
      var j := 2 * i + k % 3 / 2;
      assert contacts[j] == BasePair(j) == SortedPair(islands, k);
    }
  }

  lemma MergedPairIsSorted(base: nat, islands: nat, m: nat)
    requires 2 * islands <= base && m < base + islands
    ensures MergedContacts(base, islands)[m] in SortedPairs(base, islands)
  {
    var sorted := SortedPairs(base, islands);
    if m >= base {
      var k := 3 * (m - base) + 1;
      assert sorted[k] == SortedPair(islands, k) == Bridge(m - base);
    } else if m >= 2 * islands {
      assert sorted[m + islands] == BasePair(m);
    } else {
      var k := 3 * (m / 2) + 2 * (m % 2);
      assert k / 3 == m / 2 && k % 3 == 2 * (m % 2);
      assert sorted[k] == SortedPair(islands, k) == BasePair(m);
    }
  }

  lemma MergedContactsDiffer(base: nat, islands: nat)
    ensures Distinct(MergedContacts(base, islands))
  {
    var contacts := MergedContacts(base, islands);
    forall i, j | 0 <= i < j < base + islands ensures contacts[i] != contacts[j] {
      if i < base <= j {
        SamePair(i);
        SamePair(2 * (j - base));
      }
    }
  }

  lemma SameElementsOnce<T>(s: seq<T>, t: seq<T>)
    requires Distinct(s) && Distinct(t) && forall x :: x in s <==> x in t
    ensures multiset(s) == multiset(t)
  {
    forall x ensures multiset(s)[x] == multiset(t)[x] {
      OnceInDistinct(s, x);
      OnceInDistinct(t, x);
    }
  }

  /** Sorting the merged pairs gives this list and no other, and it holds no pair twice. */
  lemma SortedPairsAreExact(base: nat, islands: nat, pairs: seq<Contact>)
    requires 2 * islands <= base
    requires PairsAscend(pairs) && multiset(pairs) == multiset(MergedContacts(base, islands))
    ensures pairs == SortedPairs(base, islands)
    ensures Distinct(pairs)
  {
    var (sorted, contacts) := (SortedPairs(base, islands), MergedContacts(base, islands));
    ScenarioInRange(base, islands);
    forall j, k | 0 <= j < k < |sorted| ensures sorted[j] != sorted[k] && AtMost(sorted[j], sorted[k]) {
      SortedPairsRise(islands, j, k);
    }
    forall c ensures c in sorted <==> c in contacts {
      if c in sorted {
        var k :| 0 <= k < |sorted| && sorted[k] == c;
        SortedPairIsMerged(base, islands, k);
      }
      if c in contacts {
        var m :| 0 <= m < |contacts| && contacts[m] == c;
        MergedPairIsSorted(base, islands, m);
      }
    }
    MergedContactsDiffer(base, islands);
    SameElementsOnce(sorted, contacts);
    SortedIsUnique(pairs, sorted);
  }

  // ---- pairs per island ----

  ghost function PairsOf(keys: seq<nat>, pairs: seq<Contact>, key: nat): set<nat>
    requires forall i :: 0 <= i < |pairs| ==> pairs[i].first < |keys|
  {
    set i: nat | i < |pairs| && keys[pairs[i].first] == key
  }

  function KeyAt(islands: nat, k: nat): nat {
    if k < 3 * islands then 4 * (k / 3) else 2 * (k - islands)
  }

  lemma KeyOfSortedPair(islands: nat, k: nat)
    ensures MergedKey(islands, SortedPair(islands, k).first) == KeyAt(islands, k)
  {
    if k < 3 * islands {
      assert SortedPair(islands, k).first / 4 == k / 3;
    } else {
      SamePair(k - islands);
    }
  }

  function PairCount(base: nat, islands: nat, key: nat): nat {
    if key < 4 * islands then if key % 4 == 0 then 3 else 0
    else if key < 2 * base && key % 2 == 0 then 1
    else 0
  }

  /** Thirds: k lies in the q-th group of three. */
  lemma ThirdIs(k: nat, q: nat)
    ensures k / 3 == q <==> 3 * q <= k < 3 * q + 3
  {
  }

  lemma FourfoldIs(q: nat, key: nat)
    ensures 4 * q == key <==> key % 4 == 0 && key / 4 == q
  {
  }

  lemma KeyFibre(islands: nat, key: nat, k: nat)
    ensures KeyAt(islands, k) == key <==>
      if key < 4 * islands then key % 4 == 0 && 3 * (key / 4) <= k < 3 * (key / 4) + 3
      else key % 2 == 0 && k == key / 2 + islands
  {
    if k < 3 * islands {
      FourfoldIs(k / 3, key);
      ThirdIs(k, key / 4);
    } else if key < 4 * islands {
      assert key / 4 < islands;
    }
  }

  lemma CountFibre(base: nat, islands: nat, key: nat, of: set<nat>)
    requires 2 * islands <= base
    requires forall k: nat :: k in of <==> k < base + islands && KeyAt(islands, k) == key
    ensures |of| == PairCount(base, islands, key)
  {
    hide KeyAt;
    forall k: nat ensures KeyAt(islands, k) == key <==>
      if key < 4 * islands then key % 4 == 0 && 3 * (key / 4) <= k < 3 * (key / 4) + 3
      else key % 2 == 0 && k == key / 2 + islands
    {
      KeyFibre(islands, key, k);
    }
    if key < 4 * islands && key % 4 == 0 {
      var k := 3 * (key / 4);
      assert of == {k, k + 1, k + 2};
    } else if 4 * islands <= key < 2 * base && key % 2 == 0 {
      assert of == {key / 2 + islands};
    } else {
      assert of == {};
    }
  }

  lemma PairsOfMergedKeys(keys: seq<nat>, base: nat, islands: nat, key: nat)
    requires 2 * islands <= base && IsMergedKeys(keys, base, islands)
    ensures InRange(2 * base, SortedPairs(base, islands))
    ensures |PairsOf(keys, SortedPairs(base, islands), key)| == PairCount(base, islands, key)
  {
    hide MergedKey;
    hide KeyAt;
    hide SortedPair;
    hide PairCount;
    var pairs := SortedPairs(base, islands);
    forall k: nat | k < |pairs|
      ensures pairs[k].first < 2 * base && pairs[k].second < 2 * base && keys[pairs[k].first] == KeyAt(islands, k)
    {
      FirstInRange(base, islands, k);
      KeyOfSortedPair(islands, k);
    }
    CountFibre(base, islands, key, PairsOf(keys, pairs, key));
  }

  /** Three pairs in every merged island, one in every other, none under any other key. */
  lemma PairsPerIsland(base: nat, islands: nat, key: nat)
    requires 2 * islands <= base
    ensures InRange(2 * base, MergedContacts(base, islands)) && InRange(2 * base, SortedPairs(base, islands))
    ensures |PairsOf(Keys(2 * base, MergedContacts(base, islands)), SortedPairs(base, islands), key)|
      == PairCount(base, islands, key) <= 3
  {
    hide MergedKey;
    hide PairsOf;
    hide SortedPairs;
    MergedKeys(base, islands);
    PairsOfMergedKeys(Keys(2 * base, MergedContacts(base, islands)), base, islands, key);
  }

  lemma FirstInRange(base: nat, islands: nat, k: nat)
    requires 2 * islands <= base && k < base + islands
    ensures SortedPair(islands, k).second < 2 * base && SortedPair(islands, k).first < 2 * base
  {
    if k < 3 * islands {
      assert k / 3 < islands;
    }
  }

  lemma EmptyOrHasMember<T>(s: seq<T>)
    ensures s == [] || exists x :: x in s
  {
    if s != [] {
      assert s[0] in s;
    }
  }

  /** No pair joins two islands, so the segmented history never spills in this scenario. */
  lemma NothingSpills(base: nat, islands: nat)
    requires 2 * islands <= base
    ensures InRange(2 * base, MergedContacts(base, islands))
    ensures Spill(Keys(2 * base, MergedContacts(base, islands)), MergedContacts(base, islands)) == []
  {
    ScenarioInRange(base, islands);
    var contacts := MergedContacts(base, islands);
    var keys := Keys(2 * base, contacts);
    KeysAgreeAcrossContacts(2 * base, contacts);
    SpillAndInsidePartition(keys, contacts);
    forall p ensures p !in Spill(keys, contacts) {
      if p in contacts {
        assert !Crosses(keys, p);
      }
    }
    EmptyOrHasMember(Spill(keys, contacts));
  }
}
