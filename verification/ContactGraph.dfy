/**
 The contact graph that every union-find, flood fill and classifier of the repository answers
 questions about.  Reachability by walks is the reference notion; `Keys` is the canonical
 labelling (every body carries the smallest body of its component), proved to be exactly that.
 */
module ContactGraph {

  /** An undirected contact between two bodies. */
  datatype Contact = Contact(first: nat, second: nat)

  ghost predicate InRange(n: nat, contacts: seq<Contact>) {
    forall i :: 0 <= i < |contacts| ==> contacts[i].first < n && contacts[i].second < n
  }

  predicate Joins(c: Contact, a: nat, b: nat) {
    (c.first == a && c.second == b) || (c.first == b && c.second == a)
  }

  predicate Incident(c: Contact, b: nat) {
    c.first == b || c.second == b
  }

  ghost function Edges(contacts: seq<Contact>): set<Contact> {
    set c | c in contacts
  }

  ghost predicate Touch(edges: set<Contact>, a: nat, b: nat) {
    exists c :: c in edges && Joins(c, a, b)
  }

  /** A walk: a non-empty list of bodies, each in contact with the next. */
  ghost predicate Walk(edges: set<Contact>, p: seq<nat>) {
    |p| > 0 && forall i :: 0 < i < |p| ==> Touch(edges, p[i - 1], p[i])
  }

  ghost predicate WalkFromTo(edges: set<Contact>, p: seq<nat>, a: nat, b: nat) {
    Walk(edges, p) && p[0] == a && p[|p| - 1] == b
  }

  ghost predicate Reaches(edges: set<Contact>, a: nat, b: nat) {
    exists p :: WalkFromTo(edges, p, a, b)
  }

  // ---- reachability is an equivalence that grows with the contacts ----

  lemma ReachesSelf(edges: set<Contact>, a: nat)
    ensures Reaches(edges, a, a)
  {
    assert WalkFromTo(edges, [a], a, a);
  }

  lemma ReachesTouching(edges: set<Contact>, a: nat, b: nat)
    requires Touch(edges, a, b)
    ensures Reaches(edges, a, b)
  {
    assert WalkFromTo(edges, [a, b], a, b);
  }

  lemma ReachesTransitive(edges: set<Contact>, a: nat, b: nat, c: nat)
    requires Reaches(edges, a, b) && Reaches(edges, b, c)
    ensures Reaches(edges, a, c)
  {
    var p :| WalkFromTo(edges, p, a, b);
    var q :| WalkFromTo(edges, q, b, c);
    var r := p + q[1..];
    forall i | 0 < i < |r| ensures Touch(edges, r[i - 1], r[i]) {
      if i >= |p| {
        assert r[i] == q[i - |p| + 1] && r[i - 1] == q[i - |p|];
      }
    }
    assert WalkFromTo(edges, r, a, c);
  }

  lemma ReachesSymmetric(edges: set<Contact>, a: nat, b: nat)
    requires Reaches(edges, a, b)
    ensures Reaches(edges, b, a)
  {
    var p :| WalkFromTo(edges, p, a, b);
    var r := seq(|p|, i requires 0 <= i < |p| => p[|p| - 1 - i]);
    forall i | 0 < i < |r| ensures Touch(edges, r[i - 1], r[i]) {
      assert Touch(edges, p[|p| - 1 - i], p[|p| - i]);
    }
    assert WalkFromTo(edges, r, b, a);
  }

  lemma ReachesMonotone(fewer: set<Contact>, more: set<Contact>, a: nat, b: nat)
    requires fewer <= more && Reaches(fewer, a, b)
    ensures Reaches(more, a, b)
  {
    var p :| WalkFromTo(fewer, p, a, b);
    assert WalkFromTo(more, p, a, b);
  }

  /** A set of bodies no contact leaves. */
  ghost predicate Closed(edges: set<Contact>, bodies: set<nat>) {
    forall c :: c in edges ==> (c.first in bodies <==> c.second in bodies)
  }

  /** Walks cannot leave a closed set. */
  lemma ReachesStaysInside(edges: set<Contact>, bodies: set<nat>, a: nat, b: nat)
    requires Closed(edges, bodies) && a in bodies && Reaches(edges, a, b)
    ensures b in bodies
  {
    var p :| WalkFromTo(edges, p, a, b);
    for i := 1 to |p|
      invariant forall j :: 0 <= j < i ==> p[j] in bodies
    {
      assert Touch(edges, p[i - 1], p[i]);
    }
  }

  /** Any labelling that agrees across every contact agrees along every walk. */
  lemma LabelConstantOnReach(edges: set<Contact>, labels: seq<nat>, a: nat, b: nat)
    requires forall c :: c in edges ==>
      c.first < |labels| && c.second < |labels| && labels[c.first] == labels[c.second]
    requires a < |labels| && Reaches(edges, a, b)
    ensures b < |labels| && labels[a] == labels[b]
  {
    var p :| WalkFromTo(edges, p, a, b);
    for i := 1 to |p|
      invariant forall j :: 0 <= j < i ==> p[j] < |labels| && labels[p[j]] == labels[a]
    {
      assert Touch(edges, p[i - 1], p[i]);
    }
  }

  // ---- canonical keys ----

  /** Labels that name a representative: it is no larger than its members and represents itself. */
  ghost predicate Canonical(keys: seq<nat>) {
    forall b :: 0 <= b < |keys| ==> keys[b] <= b && keys[keys[b]] == keys[b]
  }

  ghost function Merge(keys: seq<nat>, c: Contact): (r: seq<nat>)
    requires Canonical(keys) && c.first < |keys| && c.second < |keys|
    ensures |r| == |keys| && Canonical(r)
  {
    var (a, b) := (keys[c.first], keys[c.second]);
    var (lo, hi) := if b < a then (b, a) else (a, b);
    seq(|keys|, i requires 0 <= i < |keys| => if keys[i] == hi then lo else keys[i])
  }

  /** The smallest body of every body's component, one contact merged at a time. */
  ghost function Keys(n: nat, contacts: seq<Contact>): (keys: seq<nat>)
    requires InRange(n, contacts)
    ensures |keys| == n && Canonical(keys)
  {
    if contacts == [] then seq(n, i => i)
    else
      var last := |contacts| - 1;
      assert InRange(n, contacts[..last]);
      Merge(Keys(n, contacts[..last]), contacts[last])
  }

  lemma {:induction false} KeysAgreeAcrossContacts(n: nat, contacts: seq<Contact>)
    requires InRange(n, contacts)
    ensures forall c :: c in contacts ==>
      c.first < n && c.second < n && Keys(n, contacts)[c.first] == Keys(n, contacts)[c.second]
  {
    if contacts != [] {
      var last := |contacts| - 1;
      assert InRange(n, contacts[..last]);
      KeysAgreeAcrossContacts(n, contacts[..last]);
      assert contacts == contacts[..last] + [contacts[last]];
    }
  }

  lemma {:induction false} KeyReaches(n: nat, contacts: seq<Contact>, b: nat)
    requires InRange(n, contacts) && b < n
    ensures Reaches(Edges(contacts), Keys(n, contacts)[b], b)
  {
    if contacts == [] {
      ReachesSelf({}, b);
      assert Edges(contacts) == {};
    } else {
      var last := |contacts| - 1;
      var (prefix, c) := (contacts[..last], contacts[last]);
      assert InRange(n, prefix);
      var before := Keys(n, prefix);
      var edges := Edges(contacts);
      assert Edges(prefix) <= edges;
      forall x | x in {b, c.first, c.second} ensures Reaches(edges, before[x], x) {
        KeyReaches(n, prefix, x);
        ReachesMonotone(Edges(prefix), edges, before[x], x);
      }
      if Keys(n, contacts)[b] != before[b] {
        var (x, y) := if before[b] == before[c.second] then (c.first, c.second) else (c.second, c.first);
        assert before[b] == before[y] && Keys(n, contacts)[b] == before[x];
        assert c in edges && Joins(c, x, y);
        ReachesTouching(edges, x, y);
        ReachesTransitive(edges, before[x], x, y);
        ReachesSymmetric(edges, before[y], y);
        ReachesTransitive(edges, before[x], y, before[y]);
        ReachesTransitive(edges, before[x], before[b], b);
      }
    }
  }

  /** Two bodies carry the same key exactly when a walk joins them. */
  lemma SameKeyIffReaches(n: nat, contacts: seq<Contact>, a: nat, b: nat)
    requires InRange(n, contacts) && a < n && b < n
    ensures Keys(n, contacts)[a] == Keys(n, contacts)[b] <==> Reaches(Edges(contacts), a, b)
  {
    var (keys, edges) := (Keys(n, contacts), Edges(contacts));
    if keys[a] == keys[b] {
      KeyReaches(n, contacts, a);
      KeyReaches(n, contacts, b);
      ReachesSymmetric(edges, keys[a], a);
      ReachesTransitive(edges, a, keys[a], b);
    }
    if Reaches(edges, a, b) {
      KeysAgreeAcrossContacts(n, contacts);
      LabelConstantOnReach(edges, keys, a, b);
    }
  }

  /** The key is the least body of the component. */
  lemma KeyIsLeastReachable(n: nat, contacts: seq<Contact>, b: nat)
    requires InRange(n, contacts) && b < n
    ensures Reaches(Edges(contacts), Keys(n, contacts)[b], b)
    ensures forall a: nat :: Reaches(Edges(contacts), b, a) ==> Keys(n, contacts)[b] <= a < n
  {
    KeyReaches(n, contacts, b);
    forall a: nat | Reaches(Edges(contacts), b, a) ensures Keys(n, contacts)[b] <= a < n {
      KeysAgreeAcrossContacts(n, contacts);
      LabelConstantOnReach(Edges(contacts), Keys(n, contacts), b, a);
    }
  }

  /** Any labelling that is constant across contacts, reachable and never above its body is `Keys`. */
  lemma KeysAreUnique(n: nat, contacts: seq<Contact>, labels: seq<nat>)
    requires InRange(n, contacts) && |labels| == n
    requires forall b :: 0 <= b < n ==> labels[b] <= b && Reaches(Edges(contacts), labels[b], b)
    requires forall c :: c in contacts ==> labels[c.first] == labels[c.second]
    ensures Keys(n, contacts) == labels
  {
    var (keys, edges) := (Keys(n, contacts), Edges(contacts));
    forall b | 0 <= b < n ensures keys[b] == labels[b] {
      ReachesSymmetric(edges, labels[b], b);
      KeyIsLeastReachable(n, contacts, b);
      LabelConstantOnReach(edges, labels, keys[b], b);
    }
  }

  /** Order, repeats and orientation of contacts do not matter: only which bodies can reach which. */
  lemma KeysDependOnReachOnly(n: nat, contacts: seq<Contact>, other: seq<Contact>)
    requires InRange(n, contacts) && InRange(n, other)
    requires forall c :: c in contacts ==> Reaches(Edges(other), c.first, c.second)
    requires forall c :: c in other ==> Reaches(Edges(contacts), c.first, c.second)
    ensures Keys(n, contacts) == Keys(n, other)
  {
    var labels := Keys(n, contacts);
    forall c | c in other ensures labels[c.first] == labels[c.second] {
      SameKeyIffReaches(n, contacts, c.first, c.second);
    }
    var back := Keys(n, other);
    forall c | c in contacts ensures back[c.first] == back[c.second] {
      SameKeyIffReaches(n, other, c.first, c.second);
    }
    forall b | 0 <= b < n ensures labels[b] <= b && Reaches(Edges(other), labels[b], b) {
      KeyReaches(n, contacts, b);
      LabelConstantOnReach(Edges(contacts), back, labels[b], b);
      SameKeyIffReaches(n, other, labels[b], b);
    }
    KeysAreUnique(n, other, labels);
  }

  /** Permuting the contacts leaves every key unchanged. */
  lemma KeysPermutationInvariant(n: nat, contacts: seq<Contact>, other: seq<Contact>)
    requires InRange(n, contacts) && multiset(contacts) == multiset(other)
    ensures InRange(n, other) && Keys(n, contacts) == Keys(n, other)
  {
    SameElements(contacts, other);
    SameElements(other, contacts);
    assert forall i :: 0 <= i < |other| ==> other[i] in contacts;
    forall c | c in contacts ensures Reaches(Edges(other), c.first, c.second) {
      assert c in Edges(other) && Joins(c, c.first, c.second);
      ReachesTouching(Edges(other), c.first, c.second);
    }
    forall c | c in other ensures Reaches(Edges(contacts), c.first, c.second) {
      assert c in Edges(contacts) && Joins(c, c.first, c.second);
      ReachesTouching(Edges(contacts), c.first, c.second);
    }
    KeysDependOnReachOnly(n, contacts, other);
  }

  lemma SameElements<T>(s: seq<T>, t: seq<T>)
    requires multiset(s) == multiset(t)
    ensures forall x :: x in s ==> x in t
  {
    forall x | x in s ensures x in t {
      assert x in multiset(s);
    }
  }

  // ---- counting components ----

  ghost function Roots(keys: seq<nat>): set<nat> {
    set b: nat | b < |keys| && keys[b] == b
  }

  lemma MergeDropsAtMostOneRoot(keys: seq<nat>, c: Contact)
    requires Canonical(keys) && c.first < |keys| && c.second < |keys|
    ensures |Roots(Merge(keys, c))| == |Roots(keys)| - (if keys[c.first] == keys[c.second] then 0 else 1)
  {
    var (a, b) := (keys[c.first], keys[c.second]);
    var hi := if b < a then a else b;
    if a == b {
      assert Merge(keys, c) == keys;
    } else {
      assert Roots(Merge(keys, c)) == Roots(keys) - {hi};
    }
  }

  lemma {:induction false} RootsWithoutContacts(n: nat)
    ensures |Roots(Keys(n, []))| == n
  {
    if n == 0 {
      assert Roots(Keys(n, [])) == {};
    } else {
      RootsWithoutContacts(n - 1);
      assert Roots(Keys(n, [])) == Roots(Keys(n - 1, [])) + {n - 1};
    }
  }

  /** With m contacts at least n - m components remain. */
  lemma {:induction false} ComponentsAtLeast(n: nat, contacts: seq<Contact>)
    requires InRange(n, contacts)
    ensures |Roots(Keys(n, contacts))| >= n - |contacts|
  {
    if contacts == [] {
      RootsWithoutContacts(n);
    } else {
      var last := |contacts| - 1;
      assert InRange(n, contacts[..last]);
      ComponentsAtLeast(n, contacts[..last]);
      MergeDropsAtMostOneRoot(Keys(n, contacts[..last]), contacts[last]);
    }
  }

  // ---- forests ----

  function Without<T>(s: seq<T>, i: nat): seq<T>
    requires i < |s|
  {
    s[..i] + s[i + 1..]
  }

  /** A forest: no contact's bodies are joined by the other contacts. */
  ghost predicate Acyclic(contacts: seq<Contact>) {
    forall i :: 0 <= i < |contacts| ==>
      !Reaches(Edges(Without(contacts, i)), contacts[i].first, contacts[i].second)
  }

  lemma PrefixOfForest(contacts: seq<Contact>, k: nat)
    requires Acyclic(contacts) && k <= |contacts|
    ensures Acyclic(contacts[..k])
  {
    var prefix := contacts[..k];
    forall i | 0 <= i < k
      ensures !Reaches(Edges(Without(prefix, i)), prefix[i].first, prefix[i].second)
    {
      if Reaches(Edges(Without(prefix, i)), prefix[i].first, prefix[i].second) {
        assert Without(contacts, i) == Without(prefix, i) + contacts[k..];
        ReachesMonotone(Edges(Without(prefix, i)), Edges(Without(contacts, i)), prefix[i].first, prefix[i].second);
      }
    }
  }

  lemma {:induction false} ForestCounts(n: nat, contacts: seq<Contact>)
    requires InRange(n, contacts) && Acyclic(contacts)
    ensures |Roots(Keys(n, contacts))| == n - |contacts|
  {
    if contacts == [] {
      RootsWithoutContacts(n);
    } else {
      var last := |contacts| - 1;
      var (prefix, c) := (contacts[..last], contacts[last]);
      assert InRange(n, prefix);
      PrefixOfForest(contacts, last);
      ForestCounts(n, prefix);
      assert Without(contacts, last) == prefix;
      SameKeyIffReaches(n, prefix, c.first, c.second);
      MergeDropsAtMostOneRoot(Keys(n, prefix), c);
    }
  }

  /** Dropping a contact whose bodies stay joined changes no key. */
  lemma RedundantContact(n: nat, contacts: seq<Contact>, i: nat)
    requires InRange(n, contacts) && i < |contacts|
    requires Reaches(Edges(Without(contacts, i)), contacts[i].first, contacts[i].second)
    ensures InRange(n, Without(contacts, i)) && Keys(n, contacts) == Keys(n, Without(contacts, i))
  {
    var rest := Without(contacts, i);
    forall c | c in contacts ensures Reaches(Edges(rest), c.first, c.second) {
      var j :| 0 <= j < |contacts| && contacts[j] == c;
      if j != i {
        assert rest[if j < i then j else j - 1] == c;
        assert c in Edges(rest) && Joins(c, c.first, c.second);
        ReachesTouching(Edges(rest), c.first, c.second);
      }
    }
    forall c | c in rest ensures Reaches(Edges(contacts), c.first, c.second) {
      assert c in Edges(contacts) && Joins(c, c.first, c.second);
      ReachesTouching(Edges(contacts), c.first, c.second);
    }
    KeysDependOnReachOnly(n, contacts, rest);
  }

  /** A contact list is a forest exactly when every contact removed one component. */
  lemma ForestIffCounts(n: nat, contacts: seq<Contact>)
    requires InRange(n, contacts)
    ensures Acyclic(contacts) <==> |Roots(Keys(n, contacts))| == n - |contacts|
  {
    if Acyclic(contacts) {
      ForestCounts(n, contacts);
    } else {
      var i :| 0 <= i < |contacts| && Reaches(Edges(Without(contacts, i)), contacts[i].first, contacts[i].second);
      RedundantContact(n, contacts, i);
      ComponentsAtLeast(n, Without(contacts, i));
    }
  }
}
