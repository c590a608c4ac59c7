/**
 The reference topology classifier and the graph theory behind its three comparisons: on a
 connected simple island the numbers of bodies and contacts and the degrees decide exactly whether
 it is a matching, a simple path, another tree, a simple cycle, or anything else.
 */
module Topology {
  import opened ContactGraph
  import opened Ordering
  import Closure

  datatype Shape = Matching | Chain | Tree | Cycle | General

  ghost function Touching(edges: set<Contact>, b: nat): set<Contact> {
    set c | c in edges && Incident(c, b)
  }

  ghost function Degree(edges: set<Contact>, b: nat): nat {
    |Touching(edges, b)|
  }

  // ---- the classifier ----

  /** First position whose entry is not below v. */
  function LowerBound(s: seq<nat>, v: nat): (i: nat)
    ensures i <= |s| && (forall j :: 0 <= j < i ==> s[j] < v) && (i < |s| ==> s[i] >= v)
  {
    if s == [] || s[0] >= v then 0 else
    var i := LowerBound(s[1..], v);
    assert forall j :: 0 < j < i + 1 ==> s[j] == s[1..][j - 1];
    i + 1
  }

  /** Simple contacts between listed bodies. */
  ghost predicate SimpleContacts(bodies: seq<nat>, edges: seq<Contact>) {
    && StrictlyAscending(bodies) && Distinct(edges)
    && (forall c :: c in edges ==> c.first < c.second && c.first in bodies && c.second in bodies)
  }

  method CountDegrees(bodies: seq<nat>, edges: seq<Contact>) returns (degree: array<nat>)
    requires SimpleContacts(bodies, edges)
    ensures fresh(degree) && degree.Length == |bodies|
    ensures forall i :: 0 <= i < |bodies| ==> degree[i] == Degree(Edges(edges), bodies[i])
  {
    hide Degree;
    hide Edges;
    degree := new nat[|bodies|](_ => 0);
    NoDegreesYet(edges);
    for i := 0 to |edges|
      invariant forall k :: 0 <= k < |bodies| ==> degree[k] == Degree(Edges(edges[..i]), bodies[k])
    {
      var c := edges[i];
      assert c in edges;
      var fi := Locate(bodies, c.first);
      var si := Locate(bodies, c.second);
      forall k | 0 <= k < |bodies|
        ensures Degree(Edges(edges[..i + 1]), bodies[k])
          == Degree(Edges(edges[..i]), bodies[k]) + if k == fi || k == si then 1 else 0
      {
        DegreeStep(edges, i, bodies[k]);
      }
      degree[fi] := degree[fi] + 1;
      degree[si] := degree[si] + 1;
    }
    assert edges[..|edges|] == edges;
  }

  lemma NoDegreesYet(edges: seq<Contact>)
    ensures forall b :: Degree(Edges(edges[..0]), b) == 0
  {
    forall b: nat ensures Degree(Edges(edges[..0]), b) == 0 {
      assert Touching(Edges(edges[..0]), b) == {};
    }
  }

  method Locate(bodies: seq<nat>, v: nat) returns (i: nat)
    requires StrictlyAscending(bodies) && v in bodies
    ensures i < |bodies| && bodies[i] == v
  {
    i := LowerBound(bodies, v);
    assert exists k :: 0 <= k < |bodies| && bodies[k] == v;
  }

  lemma DegreeStep(edges: seq<Contact>, i: nat, b: nat)
    requires i < |edges| && Distinct(edges)
    ensures Degree(Edges(edges[..i + 1]), b) == Degree(Edges(edges[..i]), b) + if Incident(edges[i], b) then 1 else 0
  {
    hide Incident;
    var c := edges[i];
    assert c !in edges[..i];
    assert edges[..i + 1] == edges[..i] + [c];
    assert Edges(edges[..i + 1]) == Edges(edges[..i]) + {c};
    TouchingOneMore(Edges(edges[..i]), c, b);
  }

  lemma TouchingOneMore(edges: set<Contact>, c: Contact, b: nat)
    requires c !in edges
    ensures |Touching(edges + {c}, b)| == |Touching(edges, b)| + if Incident(c, b) then 1 else 0
  {
    hide Incident;
    assert Touching(edges + {c}, b) == Touching(edges, b) + if Incident(c, b) then {c} else {};
  }

  ghost predicate AllDegreesAtMostTwo(bodies: seq<nat>, edges: set<Contact>) {
    forall i :: 0 <= i < |bodies| ==> Degree(edges, bodies[i]) <= 2
  }

  ghost predicate AllDegreesTwo(bodies: seq<nat>, edges: set<Contact>) {
    forall i :: 0 <= i < |bodies| ==> Degree(edges, bodies[i]) == 2
  }

  ghost function ShapeByCounts(bodies: seq<nat>, edges: seq<Contact>): Shape {
    if |bodies| == 2 && |edges| == 1 then Matching
    else if bodies == [] then General
    else if |edges| + 1 == |bodies| then
      if AllDegreesAtMostTwo(bodies, Edges(edges)) then Chain else Tree
    else if |edges| == |bodies| && AllDegreesTwo(bodies, Edges(edges)) then Cycle
    else General
  }

  method ReferenceTopology(bodies: seq<nat>, edges: seq<Contact>) returns (shape: Shape)
    requires SimpleContacts(bodies, edges)
    ensures shape == ShapeByCounts(bodies, edges)
  {
    hide Degree;
    if |bodies| == 2 && |edges| == 1 { return Matching; }
    var degree := CountDegrees(bodies, edges);
    if degree.Length == 0 { return General; }
    var maximum, allTwo := degree[0], true;
    for i := 0 to degree.Length
      invariant forall k :: 0 <= k < i ==> degree[k] <= maximum
      invariant exists k :: 0 <= k < degree.Length && degree[k] == maximum
      invariant allTwo <==> forall k :: 0 <= k < i ==> degree[k] == 2
    {
      if degree[i] > maximum { maximum := degree[i]; }
      if degree[i] != 2 { allTwo := false; }
    }
    if |edges| + 1 == |bodies| {
      return if maximum <= 2 then Chain else Tree;
    }
    if |edges| == |bodies| && allTwo { return Cycle; }
    return General;
  }

  // ---- the independent definitions ----

  ghost function Members(s: seq<nat>): set<nat> {
    set b | b in s
  }

  function Between(a: nat, b: nat): Contact {
    if a < b then Contact(a, b) else Contact(b, a)
  }

  /** The contacts along a list of bodies. */
  ghost function PathEdges(p: seq<nat>): set<Contact> {
    if |p| <= 1 then {}
    else PathEdges(p[..|p| - 1]) + {Between(p[|p| - 2], p[|p| - 1])}
  }

  lemma {:induction false} PathEdgeMeaning(p: seq<nat>, c: Contact)
    ensures c in PathEdges(p) <==> exists i :: 0 < i < |p| && c == Between(p[i - 1], p[i])
  {
    if |p| > 1 {
      var q := p[..|p| - 1];
      PathEdgeMeaning(q, c);
      if i :| 0 < i < |q| && c == Between(q[i - 1], q[i]) {
        assert c == Between(p[i - 1], p[i]);
      }
      if i :| 0 < i < |p| && c == Between(p[i - 1], p[i]) {
        assert i < |q| ==> c == Between(q[i - 1], q[i]);
      }
    }
  }

  ghost predicate PathThrough(p: seq<nat>, bodies: set<nat>, edges: set<Contact>) {
    p != [] && Distinct(p) && Members(p) == bodies && edges == PathEdges(p)
  }

  ghost predicate IsSimplePath(bodies: set<nat>, edges: set<Contact>) {
    exists p: seq<nat> :: PathThrough(p, bodies, edges)
  }

  ghost predicate CycleThrough(p: seq<nat>, bodies: set<nat>, edges: set<Contact>) {
    |p| >= 3 && Distinct(p) && Members(p) == bodies && edges == PathEdges(p) + {Between(p[|p| - 1], p[0])}
  }

  ghost predicate IsSimpleCycle(bodies: set<nat>, edges: set<Contact>) {
    exists p: seq<nat> :: CycleThrough(p, bodies, edges)
  }

  /** A connected simple island. */
  ghost predicate ConnectedIsland(bodies: seq<nat>, edges: seq<Contact>) {
    && bodies != [] && SimpleContacts(bodies, edges)
    && (forall a, b :: a in bodies && b in bodies ==> Reaches(Edges(edges), a, b))
  }

  // ---- cardinalities ----

  lemma SubsetOfSameSize<T>(a: set<T>, b: set<T>)
    requires a <= b && |a| == |b|
    ensures a == b
  {
    if x :| x in b && x !in a {
      assert a <= b - {x};
      SubsetIsSmaller(a, b - {x});
    }
  }

  lemma {:induction false} SubsetIsSmaller<T>(a: set<T>, b: set<T>)
    requires a <= b
    ensures |a| <= |b|
  {
    if a != {} {
      var x :| x in a;
      SubsetIsSmaller(a - {x}, b - {x});
    }
  }

  lemma {:induction false} DistinctCardinality<T>(s: seq<T>)
    requires Distinct(s)
    ensures |set x | x in s| == |s|
  {
    if s != [] {
      var last := |s| - 1;
      DistinctCardinality(s[..last]);
      assert (set x | x in s) == (set x | x in s[..last]) + {s[last]};
    }
  }

  lemma {:induction false} PathEdgesCount(p: seq<nat>)
    requires p != [] && Distinct(p)
    ensures |PathEdges(p)| == |p| - 1
  {
    if |p| > 1 {
      var last := |p| - 1;
      PathEdgesCount(p[..last]);
      PathEdgeMeaning(p[..last], Between(p[last - 1], p[last]));
    }
  }

  // ---- counting: trees are exactly the islands with one contact fewer than bodies ----

  lemma OutsidersKeepTheirKey(n: nat, bodies: seq<nat>, edges: seq<Contact>, b: nat)
    requires ConnectedIsland(bodies, edges) && InRange(n, edges) && b < n && b !in bodies
    ensures Keys(n, edges)[b] == b
  {
    KeyReaches(n, edges, b);
    var key := Keys(n, edges)[b];
    ReachesSymmetric(Edges(edges), key, b);
    ReachesStaysInside(Edges(edges), {b}, b, key);
  }

  lemma InsidersShareTheFirstKey(n: nat, bodies: seq<nat>, edges: seq<Contact>, b: nat)
    requires ConnectedIsland(bodies, edges) && InRange(n, edges) && b in bodies && forall a :: a in bodies ==> a < n
    ensures Keys(n, edges)[b] == bodies[0]
  {
    var (all, key) := (Edges(edges), Keys(n, edges)[b]);
    KeyIsLeastReachable(n, edges, b);
    assert bodies[0] in bodies && Reaches(all, b, bodies[0]);
    ReachesSymmetric(all, key, b);
    ReachesStaysInside(all, Members(bodies), b, key);
    var i :| 0 <= i < |bodies| && bodies[i] == key;
  }

  lemma RootsOfNothing(n: nat)
    ensures forall b: nat :: b in Roots(Keys(n, [])) <==> b < n
  {
  }

  lemma IslandHasBodies(bodies: seq<nat>, edges: seq<Contact>)
    requires ConnectedIsland(bodies, edges)
    ensures bodies != [] && Distinct(bodies)
  {
  }

  lemma ComponentsOfIsland(n: nat, bodies: seq<nat>, edges: seq<Contact>)
    requires ConnectedIsland(bodies, edges) && InRange(n, edges) && forall a :: a in bodies ==> a < n
    ensures |Roots(Keys(n, edges))| == n - |bodies| + 1
  {
    hide Reaches;
    hide ConnectedIsland;
    hide Keys;
    IslandHasBodies(bodies, edges);
    var (all, roots) := (Roots(Keys(n, [])), Roots(Keys(n, edges)));
    RootsWithoutContacts(n);
    DistinctCardinality(bodies);
    forall b: nat | b < n ensures b in roots <==> b !in Members(bodies) || b == bodies[0] {
      if b in bodies {
        InsidersShareTheFirstKey(n, bodies, edges, b);
      } else {
        OutsidersKeepTheirKey(n, bodies, edges, b);
      }
    }
    assert bodies[0] in bodies;
    RootsOfNothing(n);
    assert roots == (all - Members(bodies)) + {bodies[0]};
    assert Members(bodies) <= all;
  }

  /** A connected island has at least bodies - 1 contacts, and is a tree exactly at that number. */
  lemma TreeIffOneFewer(bodies: seq<nat>, edges: seq<Contact>)
    requires ConnectedIsland(bodies, edges)
    ensures |edges| + 1 >= |bodies|
    ensures Acyclic(edges) <==> |edges| + 1 == |bodies|
  {
    assert bodies != [];
    hide ConnectedIsland;
    var n := bodies[|bodies| - 1] + 1;
    ComponentsOfIsland(n, bodies, edges);
    ComponentsAtLeast(n, edges);
    ForestIffCounts(n, edges);
  }

  // ---- longest paths ----

  ghost predicate IsPath(p: seq<nat>, bodies: set<nat>, edges: set<Contact>) {
    p != [] && Distinct(p) && Members(p) <= bodies && PathEdges(p) <= edges
  }

  /** Every contact at either end leads back into the path. */
  ghost predicate Maximal(p: seq<nat>, edges: set<Contact>)
    requires p != []
  {
    && (forall c :: c in edges && Incident(c, p[0]) ==> c.first in p && c.second in p)
    && (forall c :: c in edges && Incident(c, p[|p| - 1]) ==> c.first in p && c.second in p)
  }

  lemma PathEdgesOfExtension(p: seq<nat>, b: nat)
    requires p != []
    ensures PathEdges(p + [b]) == PathEdges(p) + {Between(p[|p| - 1], b)}
  {
    assert (p + [b])[..|p|] == p;
  }

  lemma {:induction false} PathEdgesOfPrepend(b: nat, p: seq<nat>)
    requires p != []
    ensures PathEdges([b] + p) == PathEdges(p) + {Between(b, p[0])}
  {
    var q := [b] + p;
    if |p| == 1 {
      assert q[..1] == [b];
    } else {
      assert q[..|q| - 1] == [b] + p[..|p| - 1];
      PathEdgesOfPrepend(b, p[..|p| - 1]);
    }
  }

  lemma OtherEnd(c: Contact, b: nat) returns (a: nat)
    requires Incident(c, b) && c.first < c.second
    ensures c == Between(a, b) == Between(b, a) && a != b && (a == c.first || a == c.second)
  {
    a := if c.first == b then c.second else c.first;
  }

  /** A path that is not maximal grows by one body at one of its ends. */
  lemma LongerPath(p: seq<nat>, bodies: set<nat>, edges: set<Contact>) returns (q: seq<nat>)
    requires IsPath(p, bodies, edges) && !Maximal(p, edges)
    requires forall c :: c in edges ==> c.first < c.second && c.first in bodies && c.second in bodies
    ensures IsPath(q, bodies, edges) && exists b :: b !in Members(p) && Members(q) == Members(p) + {b}
  {
    hide PathEdges;
    if c :| c in edges && Incident(c, p[|p| - 1]) && !(c.first in p && c.second in p) {
      var b := OtherEnd(c, p[|p| - 1]);
      PathEdgesOfExtension(p, b);
      q := p + [b];
      assert b !in Members(p) && Members(q) == Members(p) + {b};
    } else {
      var c :| c in edges && Incident(c, p[0]) && !(c.first in p && c.second in p);
      var b := OtherEnd(c, p[0]);
      PathEdgesOfPrepend(b, p);
      q := [b] + p;
      assert b !in Members(p) && Members(q) == Members(p) + {b};
    }
  }

  lemma {:induction false} MaximalPath(p: seq<nat>, bodies: set<nat>, edges: set<Contact>) returns (q: seq<nat>)
    requires IsPath(p, bodies, edges)
    requires forall c :: c in edges ==> c.first < c.second && c.first in bodies && c.second in bodies
    ensures IsPath(q, bodies, edges) && Maximal(q, edges)
    decreases |bodies| - |Members(p)|
  {
    if Maximal(p, edges) {
      q := p;
    } else {
      var longer := LongerPath(p, bodies, edges);
      hide IsPath;
      hide Maximal;
      hide Members;
      SubsetIsSmaller(Members(longer), bodies);
      q := MaximalPath(longer, bodies, edges);
    }
  }

  // ---- degrees along a path ----

  lemma AtMostTwo(touching: set<Contact>, d: Contact, e: Contact)
    requires d in touching && e in touching && d != e && |touching| <= 2
    ensures touching == {d, e}
  {
    SubsetIsSmaller({d, e}, touching);
    SubsetOfSameSize({d, e}, touching);
  }

  /** An inner body of degree two has only its two path contacts. */
  lemma InnerBody(p: seq<nat>, edges: set<Contact>, i: nat)
    requires 0 < i < |p| - 1 && Distinct(p) && PathEdges(p) <= edges && Degree(edges, p[i]) <= 2
    ensures Touching(edges, p[i]) == {Between(p[i - 1], p[i]), Between(p[i], p[i + 1])}
  {
    var (d, e) := (Between(p[i - 1], p[i]), Between(p[i], p[i + 1]));
    PathEdgeMeaning(p, d);
    PathEdgeMeaning(p, e);
    AtMostTwo(Touching(edges, p[i]), d, e);
  }

  /** With all degrees at most two, no contact leaves a maximal path. */
  lemma MaximalPathIsClosed(p: seq<nat>, bodies: seq<nat>, edges: set<Contact>)
    requires IsPath(p, Members(bodies), edges) && Maximal(p, edges) && AllDegreesAtMostTwo(bodies, edges)
    ensures Closed(edges, Members(p))
  {
    forall c | c in edges ensures c.first in Members(p) <==> c.second in Members(p) {
      if c.first in p || c.second in p {
        var i :| 0 <= i < |p| && Incident(c, p[i]);
        EndsStayInPath(p, bodies, edges, c, i);
      }
    }
  }

  lemma EndsStayInPath(p: seq<nat>, bodies: seq<nat>, edges: set<Contact>, c: Contact, i: nat)
    requires IsPath(p, Members(bodies), edges) && Maximal(p, edges) && AllDegreesAtMostTwo(bodies, edges)
    requires c in edges && i < |p| && Incident(c, p[i])
    ensures c.first in p && c.second in p
  {
    if 0 < i < |p| - 1 {
      assert p[i] in Members(p);
      var k :| 0 <= k < |bodies| && bodies[k] == p[i];
      InnerBody(p, edges, i);
      assert c in Touching(edges, p[i]);
    }
  }

  /** A connected island with degrees at most two has a path through all of its bodies. */
  lemma SpanningPath(bodies: seq<nat>, edges: seq<Contact>) returns (p: seq<nat>)
    requires ConnectedIsland(bodies, edges) && AllDegreesAtMostTwo(bodies, Edges(edges))
    ensures IsPath(p, Members(bodies), Edges(edges)) && Maximal(p, Edges(edges))
    ensures Members(p) == Members(bodies) && |p| == |bodies|
  {
    var all := Edges(edges);
    p := MaximalPath([bodies[0]], Members(bodies), all);
    MaximalPathIsClosed(p, bodies, all);
    forall b | b in bodies ensures b in p {
      assert p[0] in Members(p);
      ReachesStaysInside(all, Members(p), p[0], b);
    }
    DistinctCardinality(p);
    DistinctCardinality(bodies);
  }

  // ---- chains ----

  lemma ChainWhenCounted(bodies: seq<nat>, edges: seq<Contact>)
    requires ConnectedIsland(bodies, edges)
    requires |edges| + 1 == |bodies| && AllDegreesAtMostTwo(bodies, Edges(edges))
    ensures IsSimplePath(Members(bodies), Edges(edges))
  {
    hide Reaches;
    hide Degree;
    var p := SpanningPath(bodies, edges);
    PathEdgesCount(p);
    DistinctCardinality(edges);
    SubsetOfSameSize(PathEdges(p), Edges(edges));
    assert PathThrough(p, Members(bodies), Edges(edges));
  }

  /** Only the neighbouring contacts of a path touch its i-th body. */
  lemma PathContactsAt(p: seq<nat>, i: nat, c: Contact)
    requires i < |p| && Distinct(p) && c in PathEdges(p) && Incident(c, p[i])
    ensures (i > 0 && c == Between(p[i - 1], p[i])) || (i + 1 < |p| && c == Between(p[i], p[i + 1]))
  {
    PathEdgeMeaning(p, c);
    var j :| 0 < j < |p| && c == Between(p[j - 1], p[j]);
  }

  lemma CountedWhenChain(bodies: seq<nat>, edges: seq<Contact>)
    requires ConnectedIsland(bodies, edges) && IsSimplePath(Members(bodies), Edges(edges))
    ensures |edges| + 1 == |bodies| && AllDegreesAtMostTwo(bodies, Edges(edges))
  {
    hide Reaches;
    hide Degree;
    var p: seq<nat> :| PathThrough(p, Members(bodies), Edges(edges));
    PathEdgesCount(p);
    DistinctCardinality(edges);
    DistinctCardinality(bodies);
    DistinctCardinality(p);
    forall k | 0 <= k < |bodies| ensures Degree(Edges(edges), bodies[k]) <= 2 {
      assert bodies[k] in Members(p);
      var i :| 0 <= i < |p| && p[i] == bodies[k];
      PathDegree(p, i);
    }
  }

  lemma PathDegree(p: seq<nat>, i: nat)
    requires i < |p| && Distinct(p)
    ensures Degree(PathEdges(p), p[i]) <= 2
  {
    var touching := Touching(PathEdges(p), p[i]);
    var near := (if i > 0 then {Between(p[i - 1], p[i])} else {}) + (if i + 1 < |p| then {Between(p[i], p[i + 1])} else {});
    forall c | c in touching ensures c in near {
      PathContactsAt(p, i, c);
    }
    SubsetIsSmaller(touching, near);
  }

  // ---- cycles ----

  lemma CycleWhenCounted(bodies: seq<nat>, edges: seq<Contact>)
    requires ConnectedIsland(bodies, edges)
    requires |edges| == |bodies| && AllDegreesTwo(bodies, Edges(edges))
    ensures IsSimpleCycle(Members(bodies), Edges(edges))
  {
    hide Reaches;
    hide Degree;
    var all := Edges(edges);
    var p := SpanningPath(bodies, edges);
    var closing := ClosingContact(p, bodies, all);
    PathEdgesCount(p);
    DistinctCardinality(edges);
    assert |PathEdges(p) + {closing}| == |all|;
    SubsetOfSameSize(PathEdges(p) + {closing}, all);
    assert CycleThrough(p, Members(bodies), all);
  }

  /** The first body's second contact can only lead to the last body. */
  lemma ClosingContact(p: seq<nat>, bodies: seq<nat>, edges: set<Contact>) returns (c: Contact)
    requires IsPath(p, Members(bodies), edges) && Maximal(p, edges) && AllDegreesTwo(bodies, edges)
    requires forall e :: e in edges ==> e.first < e.second
    ensures |p| >= 3 && c in edges && c !in PathEdges(p) && c == Between(p[|p| - 1], p[0])
  {
    assert p[0] in Members(p);
    var k :| 0 <= k < |bodies| && bodies[k] == p[0];
    c := SecondContact(p, edges);
    var b := OtherEnd(c, p[0]);
    assert b in p;
    var i :| 0 <= i < |p| && p[i] == b;
    if i < |p| - 1 {
      assert p[i] in Members(p);
      var l :| 0 <= l < |bodies| && bodies[l] == p[i];
      InnerBody(p, edges, i);
      assert c in Touching(edges, p[i]);
      PathEdgeMeaning(p, c);
    }
    PathEdgeMeaning(p, c);
  }

  /** A contact at the first body that the path does not use. */
  lemma SecondContact(p: seq<nat>, edges: set<Contact>) returns (c: Contact)
    requires p != [] && Distinct(p) && Degree(edges, p[0]) == 2
    ensures c in edges && Incident(c, p[0]) && c !in PathEdges(p)
  {
    var touching := Touching(edges, p[0]);
    var used := if |p| > 1 then {Between(p[0], p[1])} else {};
    if touching <= used {
      SubsetIsSmaller(touching, used);
    }
    c :| c in touching && c !in used;
    if c in PathEdges(p) {
      PathContactsAt(p, 0, c);
    }
  }

  lemma CountedWhenCycle(bodies: seq<nat>, edges: seq<Contact>)
    requires ConnectedIsland(bodies, edges) && IsSimpleCycle(Members(bodies), Edges(edges))
    ensures |edges| == |bodies| && AllDegreesTwo(bodies, Edges(edges))
  {
    hide Degree;
    hide Edges;
    var p: seq<nat> :| CycleThrough(p, Members(bodies), Edges(edges));
    CycleSizes(p, bodies, edges);
    forall k | 0 <= k < |bodies| ensures Degree(Edges(edges), bodies[k]) == 2 {
      assert bodies[k] in Members(p);
      var i :| 0 <= i < |p| && p[i] == bodies[k];
      CycleDegree(p, i);
    }
  }

  lemma CycleSizes(p: seq<nat>, bodies: seq<nat>, edges: seq<Contact>)
    requires Distinct(bodies) && Distinct(edges) && CycleThrough(p, Members(bodies), Edges(edges))
    ensures |edges| == |bodies|
  {
    PathEdgesCount(p);
    ClosingIsNew(p);
    DistinctCardinality(edges);
    DistinctCardinality(bodies);
    DistinctCardinality(p);
  }

  lemma ClosingIsNew(p: seq<nat>)
    requires |p| >= 3 && Distinct(p)
    ensures Between(p[|p| - 1], p[0]) !in PathEdges(p)
  {
    PathEdgeMeaning(p, Between(p[|p| - 1], p[0]));
  }

  lemma CycleDegree(p: seq<nat>, i: nat)
    requires |p| >= 3 && Distinct(p) && i < |p|
    ensures Degree(PathEdges(p) + {Between(p[|p| - 1], p[0])}, p[i]) == 2
  {
    var closing := Between(p[|p| - 1], p[0]);
    var before := if i > 0 then Between(p[i - 1], p[i]) else closing;
    var after := if i + 1 < |p| then Between(p[i], p[i + 1]) else closing;
    var touching := Touching(PathEdges(p) + {closing}, p[i]);
    PathEdgeMeaning(p, before);
    PathEdgeMeaning(p, after);
    hide PathEdges;
    forall c | c in touching ensures c in {before, after} {
      if c in PathEdges(p) {
        PathContactsAt(p, i, c);
      }
    }
    assert touching == {before, after};
    assert before != after;
  }

  // ---- the classifier is exact ----

  /** On every connected simple island each answer means what its name says, and nothing else gives it. */
  lemma ClassifierIsExact(bodies: seq<nat>, edges: seq<Contact>)
    requires ConnectedIsland(bodies, edges)
    ensures var (shape, v, e) := (ShapeByCounts(bodies, edges), Members(bodies), Edges(edges));
      && (shape == Matching <==> |bodies| == 2 && |edges| == 1)
      && (shape == Chain <==> shape != Matching && IsSimplePath(v, e))
      && (shape == Tree <==> Acyclic(edges) && !IsSimplePath(v, e))
      && (shape == Cycle <==> IsSimpleCycle(v, e))
      && (shape == General <==> !Acyclic(edges) && !IsSimpleCycle(v, e))
  {
    hide ConnectedIsland;
    hide Acyclic;
    hide IsSimplePath;
    hide IsSimpleCycle;
    TreeIffOneFewer(bodies, edges);
    PathIffCounts(bodies, edges);
    CycleIffCounts(bodies, edges);
    PairIsPath(bodies, edges);
  }

  lemma PathIffCounts(bodies: seq<nat>, edges: seq<Contact>)
    requires ConnectedIsland(bodies, edges)
    ensures bodies != []
    ensures IsSimplePath(Members(bodies), Edges(edges))
      <==> |edges| + 1 == |bodies| && AllDegreesAtMostTwo(bodies, Edges(edges))
  {
    if IsSimplePath(Members(bodies), Edges(edges)) {
      CountedWhenChain(bodies, edges);
    } else if |edges| + 1 == |bodies| && AllDegreesAtMostTwo(bodies, Edges(edges)) {
      ChainWhenCounted(bodies, edges);
    }
  }

  lemma CycleIffCounts(bodies: seq<nat>, edges: seq<Contact>)
    requires ConnectedIsland(bodies, edges)
    ensures IsSimpleCycle(Members(bodies), Edges(edges))
      <==> |edges| == |bodies| && AllDegreesTwo(bodies, Edges(edges))
  {
    if IsSimpleCycle(Members(bodies), Edges(edges)) {
      CountedWhenCycle(bodies, edges);
    } else if |edges| == |bodies| && AllDegreesTwo(bodies, Edges(edges)) {
      CycleWhenCounted(bodies, edges);
    }
  }

  lemma PairIsPath(bodies: seq<nat>, edges: seq<Contact>)
    requires ConnectedIsland(bodies, edges)
    ensures |edges| == 1 ==> AllDegreesAtMostTwo(bodies, Edges(edges))
  {
    if |edges| == 1 {
      DistinctCardinality(edges);
      forall i | 0 <= i < |bodies| ensures Degree(Edges(edges), bodies[i]) <= 2 {
        SubsetIsSmaller(Touching(Edges(edges), bodies[i]), Edges(edges));
      }
    }
  }

  // ---- the degrees add up ----

  ghost function DegreeSum(bodies: seq<nat>, edges: set<Contact>, k: nat): nat
    requires k <= |bodies|
  {
    if k == 0 then 0 else DegreeSum(bodies, edges, k - 1) + Degree(edges, bodies[k - 1])
  }

  /** One more contact raises the sum by one for each of its bodies seen so far. */
  lemma {:induction false} DegreeSumStep(bodies: seq<nat>, edges: seq<Contact>, i: nat, f: nat, s: nat, k: nat)
    requires i < |edges| && Distinct(edges) && Distinct(bodies) && k <= |bodies|
    requires f < |bodies| && s < |bodies| && f != s && bodies[f] == edges[i].first && bodies[s] == edges[i].second
    ensures DegreeSum(bodies, Edges(edges[..i + 1]), k)
      == DegreeSum(bodies, Edges(edges[..i]), k) + (if f < k then 1 else 0) + (if s < k then 1 else 0)
  {
    hide Degree;
    hide Edges;
    if k > 0 {
      DegreeSumStep(bodies, edges, i, f, s, k - 1);
      DegreeStep(edges, i, bodies[k - 1]);
    }
  }

  /** Degrees sum to twice the number of contacts. */
  lemma {:induction false} Handshake(bodies: seq<nat>, edges: seq<Contact>, i: nat)
    requires SimpleContacts(bodies, edges) && i <= |edges|
    ensures DegreeSum(bodies, Edges(edges[..i]), |bodies|) == 2 * i
  {
    hide Degree;
    if i == 0 {
      NoDegreeSum(bodies, edges, |bodies|);
    } else {
      Handshake(bodies, edges, i - 1);
      var c := edges[i - 1];
      assert c in edges;
      var f :| 0 <= f < |bodies| && bodies[f] == c.first;
      var s :| 0 <= s < |bodies| && bodies[s] == c.second;
      DegreeSumStep(bodies, edges, i - 1, f, s, |bodies|);
    }
  }

  lemma {:induction false} NoDegreeSum(bodies: seq<nat>, edges: seq<Contact>, k: nat)
    requires k <= |bodies|
    ensures DegreeSum(bodies, Edges(edges[..0]), k) == 0
  {
    NoDegreesYet(edges);
    if k > 0 {
      NoDegreeSum(bodies, edges, k - 1);
    }
  }

  // ---- discovered islands are what the classifier expects ----

  lemma {:induction false} WithinIsDistinct(unique: seq<Contact>, bodies: seq<nat>)
    requires Distinct(unique)
    ensures Distinct(Closure.EdgesWithin(unique, bodies))
  {
    if unique != [] {
      var last := |unique| - 1;
      WithinIsDistinct(unique[..last], bodies);
      Closure.WithinMeaning(unique[..last], bodies, unique[last]);
    }
  }

  /** Walks that start in an island use only the island's own contacts. */
  lemma ReachesWithinIsland(n: nat, unique: seq<Contact>, bodies: seq<nat>, root: nat, a: nat, b: nat)
    requires InRange(n, unique) && Closure.IsComponent(n, Edges(unique), bodies, root)
    requires a in bodies && Reaches(Edges(unique), a, b)
    ensures Reaches(Edges(Closure.EdgesWithin(unique, bodies)), a, b)
  {
    var (all, own) := (Edges(unique), Edges(Closure.EdgesWithin(unique, bodies)));
    var p :| WalkFromTo(all, p, a, b);
    for i := 1 to |p|
      invariant forall j :: 0 <= j < i ==> p[j] in bodies
      invariant forall j :: 0 < j < i ==> Touch(own, p[j - 1], p[j])
    {
      StepWithinIsland(n, unique, bodies, root, p[i - 1], p[i]);
    }
    assert WalkFromTo(own, p, a, b);
  }

  lemma StepWithinIsland(n: nat, unique: seq<Contact>, bodies: seq<nat>, root: nat, a: nat, b: nat)
    requires InRange(n, unique) && Closure.IsComponent(n, Edges(unique), bodies, root)
    requires a in bodies && Touch(Edges(unique), a, b)
    ensures b in bodies && Touch(Edges(Closure.EdgesWithin(unique, bodies)), a, b)
  {
    var c :| c in Edges(unique) && Joins(c, a, b);
    ReachesTouching(Edges(unique), a, b);
    ReachesTransitive(Edges(unique), root, a, b);
    assert c.first in bodies;
    Closure.WithinMeaning(unique, bodies, c);
  }

  /** Every island that discovery yields meets the classifier's assumptions, so its answer is exact there. */
  lemma DiscoveredIslandsAreConnected(n: nat, unique: seq<Contact>, islands: seq<Closure.Island>,
      marked: seq<bool>, i: nat)
    requires InRange(n, unique) && Distinct(unique) && forall c :: c in unique ==> c.first < c.second
    requires Closure.Discovered(n, Edges(unique), unique, islands, n, marked) && i < |islands|
    ensures ConnectedIsland(islands[i].bodies, islands[i].edges)
  {
    hide Reaches;
    var (bodies, own, root) := (islands[i].bodies, islands[i].edges, islands[i].bodies[0]);
    assert Closure.IsComponent(n, Edges(unique), bodies, root) && own == Closure.EdgesWithin(unique, bodies);
    WithinIsDistinct(unique, bodies);
    forall c | c in own ensures c.first < c.second && c.first in bodies && c.second in bodies {
      Closure.WithinMeaning(unique, bodies, c);
      Closure.EdgeTouches(Edges(unique), c);
      StepWithinIsland(n, unique, bodies, root, c.first, c.second);
    }
    forall a, b | a in bodies && b in bodies ensures Reaches(Edges(own), a, b) {
      ReachesSymmetric(Edges(unique), root, a);
      ReachesTransitive(Edges(unique), a, root, b);
      ReachesWithinIsland(n, unique, bodies, root, a, b);
    }
  }
}
