/**
 Smallest-root union-find: the plain model of the history fuzzers, the path-compressing and
 path-halving variants of the engine, the dense island labels, and the random forest generator.
 Every variant is proved against `ContactGraph.Keys`.
 */
module UnionFind {
  import opened ContactGraph

  // ---- parent arrays ----

  /** Parents never exceed children, so climbing terminates. */
  ghost predicate Descending(parent: seq<nat>) {
    forall b :: 0 <= b < |parent| ==> parent[b] <= b
  }

  ghost function Root(parent: seq<nat>, b: nat): (r: nat)
    requires Descending(parent) && b < |parent|
    ensures r <= b && parent[r] == r
  {
    if parent[b] == b then b else Root(parent, parent[b])
  }

  /** The labelling a parent array stands for. */
  ghost function RootMap(parent: seq<nat>): (keys: seq<nat>)
    requires Descending(parent)
    ensures |keys| == |parent| && Canonical(keys)
  {
    seq(|parent|, b requires 0 <= b < |parent| => Root(parent, b))
  }

  /** Hanging root `hi` below root `lo` moves exactly the bodies that had root `hi`. */
  lemma {:induction false} LinkMovesOneTree(parent: seq<nat>, lo: nat, hi: nat, b: nat)
    requires Descending(parent) && lo < hi < |parent| && b < |parent|
    requires parent[lo] == lo && parent[hi] == hi
    ensures Descending(parent[hi := lo])
    ensures Root(parent[hi := lo], b) == if Root(parent, b) == hi then lo else Root(parent, b)
  {
    if parent[b] != b {
      LinkMovesOneTree(parent, lo, hi, parent[b]);
    }
  }

  /** Linking two roots merges their labels. */
  lemma LinkIsMerge(parent: seq<nat>, c: Contact, lo: nat, hi: nat)
    requires Descending(parent) && c.first < |parent| && c.second < |parent|
    requires lo < hi < |parent|
    requires {lo, hi} == {Root(parent, c.first), Root(parent, c.second)}
    ensures Descending(parent[hi := lo])
    ensures RootMap(parent[hi := lo]) == Merge(RootMap(parent), c)
  {
    forall b: nat | b < |parent|
      ensures RootMap(parent[hi := lo])[b] == Merge(RootMap(parent), c)[b]
    {
      LinkMovesOneTree(parent, lo, hi, b);
    }
  }

  /** Rehanging a body on any ancestor of it (its root, its grandparent) keeps every root. */
  lemma {:induction false} ShortcutKeepsRoots(parent: seq<nat>, x: nat, up: nat, b: nat)
    requires Descending(parent) && x < |parent| && b < |parent|
    requires up <= parent[x] && Root(parent, up) == Root(parent, x)
    requires parent[x] == x ==> up == x
    ensures Descending(parent[x := up])
    ensures Root(parent[x := up], b) == Root(parent, b)
  {
    var next := parent[x := up];
    if b == x && up != x {
      ShortcutKeepsRoots(parent, x, up, up);
    } else if parent[b] != b {
      ShortcutKeepsRoots(parent, x, up, parent[b]);
    }
  }

  // ---- the three root searches ----

  method FindRoot(parent: array<nat>, body: nat) returns (r: nat)
    requires Descending(parent[..]) && body < parent.Length
    ensures r == Root(parent[..], body)
  {
    r := body;
    while parent[r] != r
      invariant r < parent.Length && Root(parent[..], r) == Root(parent[..], body)
      decreases r
    {
      r := parent[r];
    }
  }

  /** Two passes: find the root, then hang the whole path below it. */
  method FindCompressing(parent: array<nat>, body: nat) returns (root: nat)
    requires Descending(parent[..]) && body < parent.Length
    modifies parent
    ensures Descending(parent[..]) && RootMap(parent[..]) == RootMap(old(parent[..]))
    ensures root == Root(old(parent[..]), body)
    ensures parent[body] == root
  {
    root := FindRoot(parent, body);
    var at: nat := body;
    while parent[at] != at
      invariant Descending(parent[..]) && at < parent.Length
      invariant RootMap(parent[..]) == RootMap(old(parent[..]))
      invariant root < parent.Length && Root(parent[..], at) == root == Root(parent[..], root)
      invariant parent[body] == root || at == body
      decreases at
    {
      var next := parent[at];
      ghost var before := parent[..];
      assert Root(before, next) == root;
      forall b: nat | b < |before|
        ensures Descending(before[at := root]) && Root(before[at := root], b) == Root(before, b)
      {
        ShortcutKeepsRoots(before, at, root, b);
      }
      parent[at] := root;
      assert parent[..] == before[at := root];
      assert RootMap(parent[..]) == RootMap(before);
      assert RootMap(before)[next] == Root(before, next);
      assert RootMap(parent[..])[next] == Root(parent[..], next);
      assert RootMap(before)[root] == Root(before, root);
      assert RootMap(parent[..])[root] == Root(parent[..], root);
      at := next;
    }
  }

  /** One pass: every visited body is rehung on its grandparent. */
  method FindHalving(parent: array<nat>, body: nat) returns (root: nat)
    requires Descending(parent[..]) && body < parent.Length
    modifies parent
    ensures Descending(parent[..]) && RootMap(parent[..]) == RootMap(old(parent[..]))
    ensures root == Root(old(parent[..]), body)
  {
    root := body;
    while parent[root] != root
      invariant Descending(parent[..]) && root < parent.Length
      invariant RootMap(parent[..]) == RootMap(old(parent[..]))
      invariant Root(parent[..], root) == Root(old(parent[..]), body)
      decreases root
    {
      ghost var before := parent[..];
      var up := parent[parent[root]];
      assert Root(before, root) == Root(before, before[root]) == Root(before, up);
      forall b: nat | b < |before|
        ensures Descending(before[root := up]) && Root(before[root := up], b) == Root(before, b)
      {
        ShortcutKeepsRoots(before, root, up, b);
      }
      parent[root] := up;
      assert parent[..] == before[root := up];
      assert RootMap(parent[..]) == RootMap(before);
      assert RootMap(before)[up] == Root(before, up);
      assert RootMap(parent[..])[up] == Root(parent[..], up);
      root := parent[root];
    }
  }

  /** Union by smaller root, on top of the compressing search. */
  method Unite(parent: array<nat>, c: Contact) returns (merged: bool)
    requires Descending(parent[..]) && c.first < parent.Length && c.second < parent.Length
    modifies parent
    ensures Descending(parent[..])
    ensures RootMap(parent[..]) == Merge(RootMap(old(parent[..])), c)
    ensures merged == (RootMap(old(parent[..]))[c.first] != RootMap(old(parent[..]))[c.second])
  {
    ghost var start := parent[..];
    var first := FindCompressing(parent, c.first);
    ghost var middle := parent[..];
    assert RootMap(middle)[c.second] == RootMap(start)[c.second];
    var second := FindCompressing(parent, c.second);
    ghost var ready := parent[..];
    assert RootMap(ready)[c.first] == RootMap(start)[c.first];
    assert RootMap(ready)[c.second] == RootMap(start)[c.second];
    merged := first != second;
    if !merged {
      assert Merge(RootMap(start), c) == RootMap(start);
      return;
    }
    if second < first { first, second := second, first; }
    LinkIsMerge(ready, c, first, second);
    parent[second] := first;
    assert parent[..] == ready[second := first];
  }

  // ---- the fuzzers' reference models ----

  /** One contact of the reference model: plain searches, larger root hung below the smaller. */
  method Link(parent: array<nat>, c: Contact) returns (merged: bool)
    requires Descending(parent[..]) && c.first < parent.Length && c.second < parent.Length
    modifies parent
    ensures Descending(parent[..])
    ensures RootMap(parent[..]) == Merge(RootMap(old(parent[..])), c)
    ensures merged == (RootMap(old(parent[..]))[c.first] != RootMap(old(parent[..]))[c.second])
  {
    var first := FindRoot(parent, c.first);
    var second := FindRoot(parent, c.second);
    merged := first != second;
    if !merged {
      assert Merge(RootMap(parent[..]), c) == RootMap(parent[..]);
      return;
    }
    if second < first { first, second := second, first; }
    ghost var before := parent[..];
    LinkIsMerge(before, c, first, second);
    parent[second] := first;
    assert parent[..] == before[second := first];
  }

  lemma KeysStep(n: nat, contacts: seq<Contact>, i: nat)
    requires InRange(n, contacts) && i < |contacts|
    ensures InRange(n, contacts[..i]) && InRange(n, contacts[..i + 1])
    ensures Keys(n, contacts[..i + 1]) == Merge(Keys(n, contacts[..i]), contacts[i])
  {
    assert contacts[..i + 1][..i] == contacts[..i];
  }

  method BuildParents(bodies: nat, contacts: seq<Contact>) returns (parent: array<nat>)
    requires InRange(bodies, contacts)
    ensures fresh(parent) && parent.Length == bodies && Descending(parent[..])
    ensures RootMap(parent[..]) == Keys(bodies, contacts)
  {
    parent := new nat[bodies](i => i);
    assert RootMap(parent[..]) == Keys(bodies, []);
    for i := 0 to |contacts|
      invariant Descending(parent[..])
      invariant InRange(bodies, contacts[..i]) && RootMap(parent[..]) == Keys(bodies, contacts[..i])
    {
      KeysStep(bodies, contacts, i);
      var _ := Link(parent, contacts[i]);
    }
    assert contacts[..|contacts|] == contacts;
  }

  method ModelKeys(bodies: nat, contacts: seq<Contact>) returns (keys: array<nat>)
    requires InRange(bodies, contacts)
    ensures fresh(keys) && keys[..] == Keys(bodies, contacts)
  {
    var parent := BuildParents(bodies, contacts);
    ghost var built := parent[..];
    keys := new nat[bodies];
    for body := 0 to bodies
      invariant parent[..] == built
      invariant keys[..body] == RootMap(built)[..body]
    {
      keys[body] := FindRoot(parent, body);
    }
  }

  // ---- dense island labels ----

  /** How many components have their smallest body below `k`. */
  ghost function Rank(keys: seq<nat>, k: nat): nat
    requires k <= |keys|
  {
    if k == 0 then 0 else Rank(keys, k - 1) + if keys[k - 1] == k - 1 then 1 else 0
  }

  /** The position of a body's key among all keys, in ascending order. */
  ghost function DenseLabel(keys: seq<nat>, b: nat): nat
    requires b < |keys| && Canonical(keys)
  {
    Rank(keys, keys[b])
  }

  lemma {:induction false} RankCountsRoots(keys: seq<nat>, k: nat)
    requires k <= |keys|
    ensures Rank(keys, k) == |set r: nat | r in Roots(keys) && r < k|
  {
    var roots := set r: nat | r in Roots(keys) && r < k;
    if k == 0 {
      assert roots == {};
    } else {
      RankCountsRoots(keys, k - 1);
      var fewer := set r: nat | r in Roots(keys) && r < k - 1;
      assert roots == fewer + if keys[k - 1] == k - 1 then {k - 1} else {};
    }
  }

  lemma {:induction false} RankGrows(keys: seq<nat>, j: nat, k: nat)
    requires j <= k <= |keys|
    ensures Rank(keys, j) <= Rank(keys, k)
    ensures j < k && keys[j] == j ==> Rank(keys, j) < Rank(keys, k)
    decreases k
  {
    if j < k {
      RankGrows(keys, j, k - 1);
    }
  }

  /** Dense labels order bodies exactly as their keys do; in particular they agree exactly when the keys do. */
  lemma DenseLabelsFollowKeys(keys: seq<nat>, a: nat, b: nat)
    requires Canonical(keys) && a < |keys| && b < |keys|
    ensures DenseLabel(keys, a) < DenseLabel(keys, b) <==> keys[a] < keys[b]
    ensures DenseLabel(keys, a) == DenseLabel(keys, b) <==> keys[a] == keys[b]
  {
    if keys[a] < keys[b] {
      RankGrows(keys, keys[a], keys[b]);
    } else {
      RankGrows(keys, keys[b], keys[a]);
    }
  }

  /** The labels in use are exactly 0 .. components - 1. */
  lemma {:induction false} DenseLabelsAreGapless(keys: seq<nat>, l: nat)
    requires Canonical(keys)
    ensures l < |Roots(keys)| <==> exists b: nat :: b < |keys| && DenseLabel(keys, b) == l
  {
    RankCountsRoots(keys, |keys|);
    assert (set r: nat | r in Roots(keys) && r < |keys|) == Roots(keys);
    if l < |Roots(keys)| {
      var k: nat := 0;
      while Rank(keys, k + 1) <= l
        invariant k < |keys| && Rank(keys, k) <= l
        decreases |keys| - k
      {
        k := k + 1;
      }
      assert DenseLabel(keys, k) == l;
    }
    if b: nat :| b < |keys| && DenseLabel(keys, b) == l {
      RankGrows(keys, keys[b], |keys|);
    }
  }

  /** State of the scan: roots below `body` are numbered, everything else is unset. */
  ghost predicate Labelled(keys: seq<nat>, rootId: seq<int>, out: seq<nat>, body: nat, count: nat) {
    && Canonical(keys) && |rootId| == |out| == |keys| && body <= |keys|
    && count == Rank(keys, body)
    && (forall r: nat :: r < body && keys[r] == r ==> rootId[r] == Rank(keys, r))
    && (forall r: nat :: body <= r < |keys| ==> rootId[r] == -1)
    && (forall b: nat :: b < body ==> out[b] == DenseLabel(keys, b))
  }

  lemma LabelStep(keys: seq<nat>, rootId: seq<int>, out: seq<nat>, body: nat, count: nat)
    requires Labelled(keys, rootId, out, body, count) && body < |keys|
    ensures var r := keys[body];
      if rootId[r] == -1 then Labelled(keys, rootId[r := count], out[body := count], body + 1, count + 1)
      else rootId[r] >= 0 && Labelled(keys, rootId, out[body := rootId[r]], body + 1, count)
  {
    assert keys[body] <= body && keys[keys[body]] == keys[body];
  }

  lemma NothingLabelled(keys: seq<nat>, rootId: seq<int>, out: seq<nat>)
    requires Canonical(keys) && |rootId| == |out| == |keys| && forall r :: 0 <= r < |keys| ==> rootId[r] == -1
    ensures Labelled(keys, rootId, out, 0, 0)
  {
  }

  lemma AllLabelled(keys: seq<nat>, rootId: seq<int>, out: seq<nat>, count: nat)
    requires Labelled(keys, rootId, out, |keys|, count)
    ensures |out| == |keys| && forall b: nat :: b < |keys| ==> out[b] == DenseLabel(keys, b)
  {
  }

  /** Hands out labels in order of first appearance while scanning bodies upwards. */
  method LabelRoots(parent: array<nat>) returns (out: array<nat>)
    requires Descending(parent[..])
    ensures fresh(out) && out.Length == parent.Length
    ensures forall b: nat :: b < out.Length ==> out[b] == DenseLabel(RootMap(parent[..]), b)
  {
    ghost var before := parent[..];
    ghost var keys := RootMap(before);
    var unset := -1;
    var rootId := new int[parent.Length](_ => unset);
    out := new nat[parent.Length];
    var count: nat := 0;
    NothingLabelled(keys, rootId[..], out[..]);
    hide Labelled;
    for body := 0 to parent.Length
      invariant parent[..] == before
      invariant Labelled(keys, rootId[..], out[..], body, count)
    {
      ghost var (ids, labels) := (rootId[..], out[..]);
      LabelStep(keys, ids, labels, body, count);
      var r := FindRoot(parent, body);
      assert r == keys[body];
      if rootId[r] == unset {
        rootId[r] := count;
        out[body] := count;
        assert rootId[..] == ids[r := count] && out[..] == labels[body := count];
        count := count + 1;
      } else {
        out[body] := rootId[r];
        assert out[..] == labels[body := rootId[r]];
      }
    }
    AllLabelled(keys, rootId[..], out[..], count);
    assert forall b: nat :: b < out.Length ==> out[..][b] == out[b];
  }

  method ModelIslands(bodies: nat, contacts: seq<Contact>) returns (out: array<nat>)
    requires InRange(bodies, contacts)
    ensures fresh(out) && out.Length == bodies
    ensures forall b: nat :: b < bodies ==> out[b] == DenseLabel(Keys(bodies, contacts), b)
  {
    var parent := BuildParents(bodies, contacts);
    out := LabelRoots(parent);
  }

  // ---- spill pairs: broadphase pairs that cross islands ----

  predicate Crosses(labels: seq<nat>, p: Contact) {
    p.first < |labels| && p.second < |labels| && labels[p.first] != labels[p.second]
  }

  function Spill(labels: seq<nat>, pairs: seq<Contact>): seq<Contact> {
    if pairs == [] then []
    else
      var p := pairs[|pairs| - 1];
      Spill(labels, pairs[..|pairs| - 1]) + if Crosses(labels, p) then [p] else []
  }

  function Inside(labels: seq<nat>, pairs: seq<Contact>): seq<Contact> {
    if pairs == [] then []
    else
      var p := pairs[|pairs| - 1];
      Inside(labels, pairs[..|pairs| - 1]) + if Crosses(labels, p) then [] else [p]
  }

  method CountSpill(pairs: seq<Contact>, islands: array<nat>) returns (count: nat)
    requires InRange(islands.Length, pairs)
    ensures count == |Spill(islands[..], pairs)|
  {
    count := 0;
    for i := 0 to |pairs|
      invariant count == |Spill(islands[..], pairs[..i])|
    {
      assert pairs[..i + 1][..i] == pairs[..i];
      if islands[pairs[i].first] != islands[pairs[i].second] { count := count + 1; }
    }
    assert pairs[..|pairs|] == pairs;
  }

  /** Crossing pairs and same-island pairs account for every pair, with multiplicity. */
  lemma {:induction false} SpillAndInsidePartition(labels: seq<nat>, pairs: seq<Contact>)
    ensures multiset(Spill(labels, pairs)) + multiset(Inside(labels, pairs)) == multiset(pairs)
    ensures forall p :: p in Spill(labels, pairs) ==> p in pairs && Crosses(labels, p)
  {
    if pairs != [] {
      var last := |pairs| - 1;
      SpillAndInsidePartition(labels, pairs[..last]);
      assert pairs == pairs[..last] + [pairs[last]];
    }
  }

  lemma {:induction false} SameCrossingSameSpill(labels: seq<nat>, other: seq<nat>, pairs: seq<Contact>)
    requires forall p :: p in pairs ==> Crosses(labels, p) == Crosses(other, p)
    ensures Spill(labels, pairs) == Spill(other, pairs)
    ensures forall p :: p in pairs && Crosses(labels, p) ==> p in Spill(labels, pairs)
  {
    if pairs != [] {
      var last := |pairs| - 1;
      SameCrossingSameSpill(labels, other, pairs[..last]);
      assert pairs == pairs[..last] + [pairs[last]];
    }
  }

  /** Spill counted with dense labels is the spill counted with keys: a pair spills exactly when no walk joins its bodies. */
  lemma SpillByLabelsIsSpillByKeys(n: nat, contacts: seq<Contact>, labels: seq<nat>, pairs: seq<Contact>)
    requires InRange(n, contacts) && InRange(n, pairs) && |labels| == n
    requires forall b: nat :: b < n ==> labels[b] == DenseLabel(Keys(n, contacts), b)
    ensures Spill(labels, pairs) == Spill(Keys(n, contacts), pairs)
    ensures forall p :: p in pairs ==>
      (p in Spill(labels, pairs) <==> !Reaches(Edges(contacts), p.first, p.second))
  {
    var keys := Keys(n, contacts);
    forall p | p in pairs
      ensures Crosses(labels, p) == Crosses(keys, p) == !Reaches(Edges(contacts), p.first, p.second)
    {
      assert p.first < n && p.second < n;
      DenseLabelsFollowKeys(keys, p.first, p.second);
      SameKeyIffReaches(n, contacts, p.first, p.second);
    }
    SameCrossingSameSpill(labels, keys, pairs);
    SpillAndInsidePartition(labels, pairs);
  }

  // ---- the random forest generator ----

  /** The kept contacts span the draws looked at, and each one removed a component. */
  ghost predicate SpansDraws(n: nat, contacts: seq<Contact>, draws: seq<Contact>) {
    && InRange(n, contacts) && InRange(n, draws)
    && (forall c :: c in contacts ==> c in draws)
    && Keys(n, contacts) == Keys(n, draws)
    && |Roots(Keys(n, contacts))| == n - |contacts|
  }

  lemma KeepOrSkipDraw(n: nat, contacts: seq<Contact>, draws: seq<Contact>, used: nat)
    requires used < |draws| && draws[used].first < n && draws[used].second < n
    requires SpansDraws(n, contacts, draws[..used])
    ensures Keys(n, contacts)[draws[used].first] == Keys(n, contacts)[draws[used].second] ==>
      SpansDraws(n, contacts, draws[..used + 1]) && Merge(Keys(n, contacts), draws[used]) == Keys(n, contacts)
    ensures Keys(n, contacts)[draws[used].first] != Keys(n, contacts)[draws[used].second] ==>
      SpansDraws(n, contacts + [draws[used]], draws[..used + 1])
    ensures InRange(n, contacts + [draws[used]])
    ensures Keys(n, contacts + [draws[used]]) == Merge(Keys(n, contacts), draws[used])
  {
    var c := draws[used];
    assert draws[..used + 1] == draws[..used] + [c];
    KeysOfOneMore(n, contacts, c);
    if Keys(n, contacts)[c.first] == Keys(n, contacts)[c.second] {
      SkippedDraw(n, contacts, draws[..used], c);
    } else {
      KeptDraw(n, contacts, draws[..used], c);
    }
    hide SpansDraws;
    hide Keys;
  }

  lemma SkippedDraw(n: nat, contacts: seq<Contact>, draws: seq<Contact>, c: Contact)
    requires SpansDraws(n, contacts, draws) && c.first < n && c.second < n
    requires Keys(n, contacts)[c.first] == Keys(n, contacts)[c.second]
    ensures SpansDraws(n, contacts, draws + [c]) && Merge(Keys(n, contacts), c) == Keys(n, contacts)
  {
    KeysOfOneMore(n, draws, c);
    hide Keys;
    hide Roots;
    assert Merge(Keys(n, contacts), c) == Keys(n, contacts);
  }

  lemma KeptDraw(n: nat, contacts: seq<Contact>, draws: seq<Contact>, c: Contact)
    requires SpansDraws(n, contacts, draws) && c.first < n && c.second < n
    requires Keys(n, contacts)[c.first] != Keys(n, contacts)[c.second]
    ensures SpansDraws(n, contacts + [c], draws + [c])
  {
    KeysOfOneMore(n, contacts, c);
    KeysOfOneMore(n, draws, c);
    MergeDropsAtMostOneRoot(Keys(n, contacts), c);
    hide Keys;
    hide Merge;
    hide Roots;
  }

  lemma KeysOfOneMore(n: nat, contacts: seq<Contact>, c: Contact)
    requires InRange(n, contacts) && c.first < n && c.second < n
    ensures InRange(n, contacts + [c]) && Keys(n, contacts + [c]) == Merge(Keys(n, contacts), c)
  {
    assert (contacts + [c])[..|contacts|] == contacts;
  }

  /**
   Accepts drawn contacts greedily until `desired` have been kept or the draws run out.
   What it emits is a spanning forest of the draws it looked at.
   */
  method MakeTopology(bodies: nat, desired: nat, draws: seq<Contact>) returns (contacts: seq<Contact>, used: nat)
    requires InRange(bodies, draws)
    ensures |contacts| <= desired && used <= |draws| && (|contacts| < desired ==> used == |draws|)
    ensures InRange(bodies, contacts) && forall c :: c in contacts ==> c in draws[..used]
    ensures InRange(bodies, draws[..used]) && Keys(bodies, contacts) == Keys(bodies, draws[..used])
    ensures Acyclic(contacts)
    ensures |Roots(Keys(bodies, contacts))| == bodies - |contacts|
  {
    contacts, used := [], 0;
    var parent := new nat[bodies](i => i);
    assert RootMap(parent[..]) == Keys(bodies, []);
    RootsWithoutContacts(bodies);
    while |contacts| < desired && used < |draws|
      invariant |contacts| <= desired && used <= |draws|
      invariant SpansDraws(bodies, contacts, draws[..used])
      invariant Descending(parent[..]) && RootMap(parent[..]) == Keys(bodies, contacts)
      decreases |draws| - used
    {
      var c := draws[used];
      KeepOrSkipDraw(bodies, contacts, draws, used);
      used := used + 1;
      if c.first == c.second { continue; }
      var merged := Link(parent, c);
      if merged {
        contacts := contacts + [c];
      }
    }
    ForestIffCounts(bodies, contacts);
  }

  /** Shuffling a forest keeps its keys, its component count and its being a forest. */
  lemma ShuffledForest(bodies: nat, contacts: seq<Contact>, shuffled: seq<Contact>)
    requires InRange(bodies, contacts) && Acyclic(contacts) && multiset(contacts) == multiset(shuffled)
    ensures InRange(bodies, shuffled) && Keys(bodies, shuffled) == Keys(bodies, contacts)
    ensures Acyclic(shuffled) && |Roots(Keys(bodies, shuffled))| == bodies - |contacts|
  {
    KeysPermutationInvariant(bodies, contacts, shuffled);
    assert |multiset(contacts)| == |contacts| && |multiset(shuffled)| == |shuffled|;
    ForestIffCounts(bodies, contacts);
    ForestIffCounts(bodies, shuffled);
  }
}
