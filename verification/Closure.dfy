/**
 Breadth-first search over contact adjacency: the closure of a seed set, and the discovery of
 every contact island.  Both share one flood fill and are proved against reachability.
 */
module Closure {
  import opened ContactGraph
  import opened Ordering

  // ---- adjacency lists ----

  /** Each body's neighbours, both directions of every contact. */
  ghost predicate AdjacencyOf(graph: seq<seq<nat>>, edges: set<Contact>) {
    forall a: nat, b: nat :: a < |graph| ==> (b in graph[a] <==> Touch(edges, a, b))
  }

  method BuildAdjacency(n: nat, contacts: seq<Contact>) returns (graph: seq<seq<nat>>)
    requires InRange(n, contacts)
    ensures |graph| == n && AdjacencyOf(graph, Edges(contacts))
  {
    graph := seq(n, _ => []);
    for i := 0 to |contacts|
      invariant |graph| == n && AdjacencyOf(graph, Edges(contacts[..i]))
    {
      var c := contacts[i];
      ghost var before := graph;
      graph := graph[c.first := graph[c.first] + [c.second]];
      graph := graph[c.second := graph[c.second] + [c.first]];
      AdjacencyGrows(before, graph, contacts, i);
    }
    assert contacts[..|contacts|] == contacts;
  }

  lemma AdjacencyGrows(before: seq<seq<nat>>, after: seq<seq<nat>>, contacts: seq<Contact>, i: nat)
    requires i < |contacts| && contacts[i].first < |before| && contacts[i].second < |before|
    requires AdjacencyOf(before, Edges(contacts[..i]))
    requires var c := contacts[i];
      var middle := before[c.first := before[c.first] + [c.second]];
      after == middle[c.second := middle[c.second] + [c.first]]
    ensures AdjacencyOf(after, Edges(contacts[..i + 1]))
  {
    var c := contacts[i];
    assert Edges(contacts[..i + 1]) == Edges(contacts[..i]) + {c};
    forall a: nat, b: nat | a < |after|
      ensures b in after[a] <==> Touch(Edges(contacts[..i + 1]), a, b)
    {
      assert b in after[a] <==> b in before[a] || Joins(c, a, b);
    }
  }

  // ---- flood fill ----

  ghost predicate EdgesBelow(n: nat, edges: set<Contact>) {
    forall c :: c in edges ==> c.first < n && c.second < n
  }

  /** Every neighbour of a marked body that is not waiting in the queue is marked. */
  ghost predicate Frontier(edges: set<Contact>, marked: seq<bool>, queue: seq<nat>) {
    && (forall b :: b in queue ==> b < |marked| && marked[b])
    && (forall a: nat, b: nat :: a < |marked| && b < |marked| && marked[a] && a !in queue && Touch(edges, a, b) ==> marked[b])
  }

  ghost function Unmarked(marked: seq<bool>): set<nat> {
    set b: nat | b < |marked| && !marked[b]
  }

  /** Reached from some initial mark. */
  ghost predicate Sourced(edges: set<Contact>, start: seq<bool>, b: nat) {
    exists a: nat :: a < |start| && start[a] && Reaches(edges, a, b)
  }

  lemma SourcedStep(edges: set<Contact>, start: seq<bool>, a: nat, b: nat)
    requires Sourced(edges, start, a) && Touch(edges, a, b)
    ensures Sourced(edges, start, b)
  {
    var s: nat :| s < |start| && start[s] && Reaches(edges, s, a);
    ReachesTouching(edges, a, b);
    ReachesTransitive(edges, s, a, b);
  }

  /** Marks are never removed, and every mark is reached from an initial mark. */
  ghost predicate Justified(edges: set<Contact>, before: seq<bool>, marked: seq<bool>) {
    && |before| == |marked|
    && (forall b: nat :: b < |marked| && before[b] ==> marked[b])
    && (forall b: nat :: b < |marked| && marked[b] ==> Sourced(edges, before, b))
  }

  /** Marks one body's unmarked neighbours and appends them to the queue. */
  method Expand(neighbors: seq<nat>, visited: array<bool>) returns (added: seq<nat>)
    requires forall b :: b in neighbors ==> b < visited.Length
    modifies visited
    ensures |added| == |Unmarked(old(visited[..]))| - |Unmarked(visited[..])|
    ensures forall b: nat :: b < visited.Length ==> visited[b] == (old(visited[b]) || b in neighbors)
    ensures forall b: nat :: b in added <==> b < visited.Length && visited[b] && !old(visited[b])
    ensures Distinct(added)
  {
    added := [];
    ghost var before := visited[..];
    for i := 0 to |neighbors|
      invariant |added| == |Unmarked(before)| - |Unmarked(visited[..])|
      invariant forall b: nat :: b < visited.Length ==> visited[b] == (before[b] || b in neighbors[..i])
      invariant forall b: nat :: b in added <==> b < visited.Length && visited[b] && !before[b]
      invariant Distinct(added)
    {
      var neighbor := neighbors[i];
      assert neighbors[..i + 1] == neighbors[..i] + [neighbor];
      assert neighbor in neighbors;
      if !visited[neighbor] {
        ghost var marks := visited[..];
        visited[neighbor] := true;
        assert visited[..] == marks[neighbor := true];
        assert Unmarked(visited[..]) == Unmarked(marks) - {neighbor};
        added := added + [neighbor];
      }
    }
    assert neighbors[..|neighbors|] == neighbors;
  }

  /** Popping a body and marking its neighbours keeps the frontier and the justification of every mark. */
  lemma ExpandKeepsFrontier(edges: set<Contact>, start: seq<bool>, before: seq<bool>, after: seq<bool>,
                            queue: seq<nat>, added: seq<nat>, neighbors: seq<nat>)
    requires queue != [] && Frontier(edges, before, queue) && Justified(edges, start, before)
    requires |after| == |before| && forall b: nat :: b in neighbors <==> Touch(edges, queue[0], b)
    requires forall b: nat :: b < |after| ==> after[b] == (before[b] || b in neighbors)
    requires forall b: nat :: b in added <==> b < |after| && after[b] && !before[b]
    ensures Frontier(edges, after, queue[1..] + added) && Justified(edges, start, after)
  {
    hide Touch;
    hide Sourced;
    var (body, rest) := (queue[0], queue[1..] + added);
    assert body in queue && before[body];
    forall b | b in queue ensures b == body || b in rest {
      if b != body {
        assert b in queue[1..];
      }
    }
    assert forall b :: b in rest ==> b in queue || b in added;
    forall b: nat | b < |after| && after[b] ensures Sourced(edges, start, b) {
      if !before[b] {
        SourcedStep(edges, start, body, b);
      }
    }
  }

  /** Runs the queue dry; returns the bodies in the order they were taken from it. */
  method Flood(graph: seq<seq<nat>>, ghost edges: set<Contact>, visited: array<bool>, start: seq<nat>)
    returns (popped: seq<nat>)
    requires |graph| == visited.Length && EdgesBelow(|graph|, edges) && AdjacencyOf(graph, edges)
    requires Frontier(edges, visited[..], start) && Distinct(start)
    modifies visited
    ensures Frontier(edges, visited[..], []) && Justified(edges, old(visited[..]), visited[..])
    ensures forall b: nat :: b in popped <==> b in start || (b < visited.Length && visited[b] && !old(visited[b]))
    ensures Distinct(popped)
  {
    hide Touch;
    hide Sourced;
    ghost var before := visited[..];
    InitiallyJustified(edges, before);
    var queue := start;
    popped := [];
    while queue != []
      invariant Frontier(edges, visited[..], queue) && Justified(edges, before, visited[..])
      invariant forall b: nat :: b in popped || b in queue <==>
        b in start || (b < visited.Length && visited[b] && !before[b])
      invariant Distinct(popped + queue)
      decreases |Unmarked(visited[..])| + |queue|
    {
      ghost var (marks, line) := (visited[..], queue);
      var body := queue[0];
      assert body in line;
      NeighborsInRange(graph, edges, body);
      queue := queue[1..];
      var added := Expand(graph[body], visited);
      ExpandKeepsFrontier(edges, before, marks, visited[..], line, added, graph[body]);
      PopKeepsDistinct(popped, line, added);
      popped := popped + [body];
      queue := queue + added;
    }
    assert popped + [] == popped;
  }

  lemma InitiallyJustified(edges: set<Contact>, marked: seq<bool>)
    ensures Justified(edges, marked, marked)
  {
    forall b: nat | b < |marked| && marked[b] ensures Sourced(edges, marked, b) {
      ReachesSelf(edges, b);
    }
  }

  lemma NeighborsInRange(graph: seq<seq<nat>>, edges: set<Contact>, body: nat)
    requires EdgesBelow(|graph|, edges) && AdjacencyOf(graph, edges) && body < |graph|
    ensures forall b :: b in graph[body] ==> b < |graph|
  {
  }

  lemma PopKeepsDistinct(popped: seq<nat>, queue: seq<nat>, added: seq<nat>)
    requires queue != [] && Distinct(popped + queue) && Distinct(added)
    requires forall b :: b in added ==> b !in popped && b !in queue
    ensures Distinct(popped + [queue[0]] + (queue[1..] + added))
  {
    var (s, t) := (popped + queue, popped + [queue[0]] + (queue[1..] + added));
    assert t == s + added;
    assert forall b :: b in s ==> b in popped || b in queue;
    forall i, j | 0 <= i < j < |t| ensures t[i] != t[j] {
      if i < |s| <= j {
        assert t[i] == s[i] && t[j] in added;
      }
    }
  }

  // ---- the closure of a seed set ----

  ghost predicate ReachedFrom(edges: set<Contact>, seeds: seq<nat>, b: nat) {
    exists s :: s in seeds && Reaches(edges, s, b)
  }

  /** A marking that is justified by the seeds and closed under contacts marks exactly what the seeds reach. */
  lemma ClosedMarksAreReached(edges: set<Contact>, seeds: seq<nat>, start: seq<bool>, marked: seq<bool>, b: nat)
    requires EdgesBelow(|marked|, edges) && Frontier(edges, marked, []) && Justified(edges, start, marked)
    requires forall a: nat :: a < |start| ==> (start[a] <==> a in seeds)
    requires forall s :: s in seeds ==> s < |start|
    requires b < |marked|
    ensures marked[b] <==> ReachedFrom(edges, seeds, b)
  {
    if marked[b] {
      assert Sourced(edges, start, b);
    }
    if ReachedFrom(edges, seeds, b) {
      var s :| s in seeds && Reaches(edges, s, b);
      MarksSpread(edges, marked, s, b);
    }
  }

  lemma MarksSpread(edges: set<Contact>, marked: seq<bool>, a: nat, b: nat)
    requires EdgesBelow(|marked|, edges) && Frontier(edges, marked, [])
    requires a < |marked| && marked[a] && Reaches(edges, a, b)
    ensures b < |marked| && marked[b]
  {
    var inside := set c: nat | c < |marked| && marked[c];
    forall c | c in edges ensures c.first in inside <==> c.second in inside {
      assert Joins(c, c.first, c.second) && Joins(c, c.second, c.first);
      assert Touch(edges, c.first, c.second) && Touch(edges, c.second, c.first);
    }
    ReachesStaysInside(edges, inside, a, b);
  }

  method BruteClosure(bodyCount: nat, pairs: seq<Contact>, seeds: seq<nat>) returns (result: seq<nat>)
    requires InRange(bodyCount, pairs)
    requires StrictlyAscending(seeds) && forall s :: s in seeds ==> s < bodyCount
    ensures StrictlyAscending(result)
    ensures forall b: nat :: b in result <==> b < bodyCount && ReachedFrom(Edges(pairs), seeds, b)
  {
    hide Touch;
    hide Sourced;
    hide ReachedFrom;
    ghost var edges := Edges(pairs);
    var graph := BuildAdjacency(bodyCount, pairs);
    var visited := new bool[bodyCount](_ => false);
    for i := 0 to |seeds|
      invariant forall b: nat :: b < bodyCount ==> (visited[b] <==> b in seeds[..i])
    {
      assert seeds[i] in seeds && seeds[..i + 1] == seeds[..i] + [seeds[i]];
      visited[seeds[i]] := true;
    }
    assert seeds[..|seeds|] == seeds;
    ghost var start := visited[..];
    assert Frontier(edges, start, seeds);
    var _ := Flood(graph, edges, visited, seeds);
    ghost var final := visited[..];
    result := [];
    for index := 0 to bodyCount
      invariant visited[..] == final
      invariant StrictlyAscending(result) && forall b: nat :: b in result <==> b < index && final[b]
    {
      assert forall i :: 0 <= i < |result| ==> result[i] in result;
      if visited[index] { result := result + [index]; }
    }
    forall b: nat | b < bodyCount ensures final[b] <==> ReachedFrom(edges, seeds, b) {
      ClosedMarksAreReached(edges, seeds, start, final, b);
    }
  }

  /** The closure is the union of the seeds' key classes. */
  lemma ClosureIsUnionOfClasses(n: nat, pairs: seq<Contact>, seeds: seq<nat>, b: nat)
    requires InRange(n, pairs) && b < n && forall s :: s in seeds ==> s < n
    ensures ReachedFrom(Edges(pairs), seeds, b)
      <==> exists s :: s in seeds && Keys(n, pairs)[s] == Keys(n, pairs)[b]
  {
    forall s | s in seeds ensures Reaches(Edges(pairs), s, b) <==> Keys(n, pairs)[s] == Keys(n, pairs)[b] {
      SameKeyIffReaches(n, pairs, s, b);
    }
  }

  /** It is the least set that contains the seeds and is closed under the pairs. */
  lemma ClosureIsLeast(edges: set<Contact>, seeds: seq<nat>, bodies: set<nat>, b: nat)
    requires Closed(edges, bodies) && (forall s :: s in seeds ==> s in bodies) && ReachedFrom(edges, seeds, b)
    ensures b in bodies
  {
    var s :| s in seeds && Reaches(edges, s, b);
    ReachesStaysInside(edges, bodies, s, b);
  }

  /** The pairs kept after filtering by the closure are exactly those with a seed-reached end. */
  lemma ClosureKeepsWholePairs(edges: set<Contact>, seeds: seq<nat>, pair: Contact)
    requires pair in edges
    ensures ReachedFrom(edges, seeds, pair.first) <==> ReachedFrom(edges, seeds, pair.second)
  {
    assert Joins(pair, pair.first, pair.second) && Joins(pair, pair.second, pair.first);
    ReachesTouching(edges, pair.first, pair.second);
    ReachesTouching(edges, pair.second, pair.first);
    if s :| s in seeds && Reaches(edges, s, pair.first) {
      ReachesTransitive(edges, s, pair.first, pair.second);
    }
    if s :| s in seeds && Reaches(edges, s, pair.second) {
      ReachesTransitive(edges, s, pair.second, pair.first);
    }
  }

  // ---- islands ----

  /** Bodies in ascending order, and the unique contacts whose first body is among them. */
  datatype Island = Island(bodies: seq<nat>, edges: seq<Contact>)

  function EdgesWithin(unique: seq<Contact>, bodies: seq<nat>): seq<Contact> {
    if unique == [] then []
    else
      var c := unique[|unique| - 1];
      EdgesWithin(unique[..|unique| - 1], bodies) + if c.first in bodies then [c] else []
  }

  ghost predicate IsComponent(n: nat, edges: set<Contact>, bodies: seq<nat>, root: nat) {
    && StrictlyAscending(bodies)
    && (forall b: nat :: b in bodies <==> b < n && Reaches(edges, root, b))
  }

  ghost predicate Isolated(edges: set<Contact>, b: nat) {
    forall a: nat :: !Touch(edges, b, a)
  }

  /** Each island is the component of its first body, and first bodies ascend. */
  ghost predicate Catalogued(n: nat, edges: set<Contact>, unique: seq<Contact>, islands: seq<Island>, seed: nat) {
    && (forall i :: 0 <= i < |islands| ==>
      islands[i].bodies != [] && IsComponent(n, edges, islands[i].bodies, islands[i].bodies[0])
      && islands[i].edges == EdgesWithin(unique, islands[i].bodies))
    && (forall i :: 0 <= i < |islands| ==> islands[i].bodies[0] < seed && !Isolated(edges, islands[i].bodies[0]))
    && (forall i, j :: 0 <= i < j < |islands| ==> islands[i].bodies[0] < islands[j].bodies[0])
  }

  ghost predicate AllMarked(bodies: seq<nat>, marked: seq<bool>) {
    forall b :: b in bodies ==> b < |marked| && marked[b]
  }

  /** The marked bodies are exactly the islands' bodies. */
  ghost predicate Covers(islands: seq<Island>, marked: seq<bool>) {
    && (forall b: nat :: b < |marked| && marked[b] ==> exists i :: 0 <= i < |islands| && b in islands[i].bodies)
    && (forall i :: 0 <= i < |islands| ==> AllMarked(islands[i].bodies, marked))
  }

  /** After scanning the bodies below `seed`. */
  ghost predicate Discovered(n: nat, edges: set<Contact>, unique: seq<Contact>, islands: seq<Island>, seed: nat,
      marked: seq<bool>) {
    && |marked| == n && Frontier(edges, marked, [])
    && Catalogued(n, edges, unique, islands, seed) && Covers(islands, marked)
    && (forall b: nat :: b < seed && b < n ==> marked[b] || Isolated(edges, b))
  }

  /** From one fresh seed the flood takes exactly the seed's component. */
  lemma FloodTakesComponent(n: nat, edges: set<Contact>, before: seq<bool>, after: seq<bool>, seed: nat,
      popped: seq<nat>)
    requires |before| == n && EdgesBelow(n, edges) && Frontier(edges, before, []) && Frontier(edges, after, [])
    requires seed < n && !before[seed] && Justified(edges, before[seed := true], after)
    requires forall b: nat :: b in popped <==> b == seed || (b < n && after[b] && !before[seed := true][b])
    ensures forall b: nat :: b in popped <==> b < n && Reaches(edges, seed, b)
    ensures forall b: nat :: b < n ==> (after[b] <==> before[b] || b in popped)
  {
    var start := before[seed := true];
    ReachesSelf(edges, seed);
    forall b: nat | b < n ensures after[b] && !before[b] <==> Reaches(edges, seed, b) {
      if after[b] && !before[b] {
        assert Sourced(edges, start, b);
        var a: nat :| a < n && start[a] && Reaches(edges, a, b);
        if a != seed {
          MarksSpread(edges, before, a, b);
        }
      }
      if Reaches(edges, seed, b) {
        MarksSpread(edges, after, seed, b);
        if before[b] {
          ReachesSymmetric(edges, seed, b);
          MarksSpread(edges, before, b, seed);
        }
      }
    }
    assert forall b: nat :: b < n && before[b] ==> start[b];
  }

  lemma IsolatedReachesOnlyItself(edges: set<Contact>, a: nat, b: nat)
    requires Isolated(edges, a) && Reaches(edges, a, b)
    ensures a == b
  {
    forall c | c in edges ensures c.first != a && c.second != a {
      assert Joins(c, c.first, c.second) && Joins(c, c.second, c.first);
      assert Touch(edges, c.first, c.second) && Touch(edges, c.second, c.first);
    }
    ReachesStaysInside(edges, {a}, a, b);
  }

  /** The scan's seed is the least body of the island it starts. */
  lemma SeedIsLeast(n: nat, edges: set<Contact>, marked: seq<bool>, seed: nat, b: nat)
    requires |marked| == n && EdgesBelow(n, edges) && Frontier(edges, marked, []) && seed < n && !marked[seed]
    requires forall c: nat :: c < seed && c < n ==> marked[c] || Isolated(edges, c)
    requires b < n && Reaches(edges, seed, b)
    ensures seed <= b
  {
    ReachesSymmetric(edges, seed, b);
    if b < seed {
      if marked[b] {
        MarksSpread(edges, marked, b, seed);
      } else {
        IsolatedReachesOnlyItself(edges, b, seed);
      }
    }
  }

  lemma NewIsland(n: nat, edges: set<Contact>, before: seq<bool>, seed: nat, popped: seq<nat>)
    requires |before| == n && EdgesBelow(n, edges) && Frontier(edges, before, []) && seed < n && !before[seed]
    requires forall c: nat :: c < seed && c < n ==> before[c] || Isolated(edges, c)
    requires Distinct(popped) && forall b: nat :: b in popped <==> b < n && Reaches(edges, seed, b)
    ensures IsComponent(n, edges, Sort(popped), seed) && Sort(popped) != [] && Sort(popped)[0] == seed
  {
    hide Reaches;
    SortKeepsElements(popped);
    ReachesSelf(edges, seed);
    var bodies := Sort(popped);
    assert seed in bodies && bodies[0] in bodies;
    SeedIsLeast(n, edges, before, seed, bodies[0]);
    var i :| 0 <= i < |bodies| && bodies[i] == seed;
  }

  lemma DiscoverStep(n: nat, edges: set<Contact>, unique: seq<Contact>, islands: seq<Island>, seed: nat,
                     before: seq<bool>, after: seq<bool>, popped: seq<nat>)
    requires EdgesBelow(n, edges) && Discovered(n, edges, unique, islands, seed, before) && seed < n && !before[seed]
    requires |after| == n && Frontier(edges, after, []) && Distinct(popped) && !Isolated(edges, seed)
    requires forall b: nat :: b in popped <==> b < n && Reaches(edges, seed, b)
    requires forall b: nat :: b < n ==> (after[b] <==> before[b] || b in popped)
    ensures Discovered(n, edges, unique,
      islands + [Island(Sort(popped), EdgesWithin(unique, Sort(popped)))], seed + 1, after)
  {
    hide Reaches;
    hide Isolated;
    hide Touch;
    hide Frontier;
    hide Covers;
    hide Catalogued;
    hide IsComponent;
    var island := Island(Sort(popped), EdgesWithin(unique, Sort(popped)));
    NewIsland(n, edges, before, seed, popped);
    SortKeepsElements(popped);
    CatalogueStep(n, edges, unique, islands, seed, island);
    CoverStep(islands, island, before, after);
  }

  lemma CatalogueStep(n: nat, edges: set<Contact>, unique: seq<Contact>, islands: seq<Island>, seed: nat,
      island: Island)
    requires Catalogued(n, edges, unique, islands, seed) && !Isolated(edges, seed)
    requires island.bodies != [] && island.bodies[0] == seed && IsComponent(n, edges, island.bodies, seed)
    requires island.edges == EdgesWithin(unique, island.bodies)
    ensures Catalogued(n, edges, unique, islands + [island], seed + 1)
  {
    hide IsComponent;
    hide Isolated;
  }

  lemma CoverStep(islands: seq<Island>, island: Island, before: seq<bool>, after: seq<bool>)
    requires Covers(islands, before) && |after| == |before|
    requires forall b: nat :: b < |after| ==> (after[b] <==> before[b] || b in island.bodies)
    requires forall b: nat :: b in island.bodies ==> b < |after|
    ensures Covers(islands + [island], after)
  {
    var grown := islands + [island];
    forall b: nat | b < |after| && after[b] ensures exists i :: 0 <= i < |grown| && b in grown[i].bodies {
      if before[b] {
        var i :| 0 <= i < |islands| && b in islands[i].bodies;
        assert grown[i] == islands[i];
      } else {
        assert grown[|islands|] == island;
      }
    }
    forall i | 0 <= i < |grown| ensures AllMarked(grown[i].bodies, after) {
      if i < |islands| {
        assert AllMarked(islands[i].bodies, before);
      }
    }
  }

  lemma NothingDiscovered(n: nat, edges: set<Contact>, unique: seq<Contact>)
    ensures Discovered(n, edges, unique, [], 0, seq(n, _ => false))
  {
  }

  lemma SeedSkipped(n: nat, edges: set<Contact>, unique: seq<Contact>, islands: seq<Island>, seed: nat,
      marked: seq<bool>)
    requires Discovered(n, edges, unique, islands, seed, marked) && seed < n
    requires marked[seed] || Isolated(edges, seed)
    ensures Discovered(n, edges, unique, islands, seed + 1, marked)
  {
    hide Isolated;
    hide Frontier;
    hide IsComponent;
  }

  lemma SeedOpensFrontier(n: nat, edges: set<Contact>, unique: seq<Contact>, islands: seq<Island>, seed: nat,
      marked: seq<bool>)
    requires Discovered(n, edges, unique, islands, seed, marked) && seed < n
    ensures Frontier(edges, marked, []) && Frontier(edges, marked[seed := true], [seed])
  {
    hide Touch;
    hide Catalogued;
    hide Covers;
  }

  method DiscoverIslands(bodyCount: nat, contacts: seq<Contact>, unique: seq<Contact>) returns (islands: seq<Island>)
    requires InRange(bodyCount, contacts) && Edges(contacts) == Edges(unique)
    ensures exists marked :: Discovered(bodyCount, Edges(contacts), unique, islands, bodyCount, marked)
  {
    hide Discovered;
    hide Frontier;
    hide Justified;
    hide Reaches;
    hide Isolated;
    ghost var edges := Edges(contacts);
    var graph := BuildAdjacency(bodyCount, contacts);
    var visited := new bool[bodyCount](_ => false);
    islands := [];
    NothingDiscovered(bodyCount, edges, unique);
    assert visited[..] == seq(bodyCount, _ => false);
    for seed := 0 to bodyCount
      invariant Discovered(bodyCount, edges, unique, islands, seed, visited[..])
    {
      EmptyListIsIsolated(graph, edges, seed);
      ghost var before := visited[..];
      if visited[seed] || graph[seed] == [] {
        SeedSkipped(bodyCount, edges, unique, islands, seed, before);
        continue;
      }
      SeedOpensFrontier(bodyCount, edges, unique, islands, seed, before);
      visited[seed] := true;
      assert visited[..] == before[seed := true];
      var popped := Flood(graph, edges, visited, [seed]);
      FloodTakesComponent(bodyCount, edges, before, visited[..], seed, popped);
      DiscoverStep(bodyCount, edges, unique, islands, seed, before, visited[..], popped);
      var bodies := Sort(popped);
      islands := islands + [Island(bodies, EdgesWithin(unique, bodies))];
    }
  }

  lemma EmptyListIsIsolated(graph: seq<seq<nat>>, edges: set<Contact>, b: nat)
    requires EdgesBelow(|graph|, edges) && AdjacencyOf(graph, edges) && b < |graph|
    ensures graph[b] == [] <==> Isolated(edges, b)
  {
    if graph[b] != [] {
      assert graph[b][0] in graph[b];
    }
  }

  // ---- what the discovered islands are ----

  /** Two islands that share a body are the same island. */
  lemma IslandsAreDisjoint(n: nat, edges: set<Contact>, unique: seq<Contact>, islands: seq<Island>, marked: seq<bool>,
                           i: nat, j: nat, b: nat)
    requires Discovered(n, edges, unique, islands, n, marked)
    requires i < |islands| && j < |islands| && b in islands[i].bodies && b in islands[j].bodies
    ensures i == j
  {
    hide Isolated;
    hide Touch;
    hide Reaches;
    var (r, s) := (islands[i].bodies[0], islands[j].bodies[0]);
    assert r in islands[i].bodies && s in islands[j].bodies;
    ReachesSymmetric(edges, s, b);
    ReachesTransitive(edges, r, b, s);
    ReachesSymmetric(edges, r, s);
    assert s in islands[i].bodies && r in islands[j].bodies;
    assert r <= s by { LeastFirst(islands[i].bodies, s); }
    assert s <= r by { LeastFirst(islands[j].bodies, r); }
  }

  lemma LeastFirst(bodies: seq<nat>, b: nat)
    requires StrictlyAscending(bodies) && b in bodies
    ensures bodies[0] <= b
  {
  }

  /** The islands cover exactly the bodies that touch something, each body once. */
  lemma IslandsCoverInvolvedBodies(n: nat, edges: set<Contact>, unique: seq<Contact>, islands: seq<Island>,
      marked: seq<bool>, b: nat)
    requires Discovered(n, edges, unique, islands, n, marked) && b < n
    ensures !Isolated(edges, b) <==> exists i :: 0 <= i < |islands| && b in islands[i].bodies
  {
    hide Isolated;
    hide Reaches;
    if i :| 0 <= i < |islands| && b in islands[i].bodies {
      var r := islands[i].bodies[0];
      assert !Isolated(edges, r) && Reaches(edges, r, b);
      ReachesSymmetric(edges, r, b);
      if Isolated(edges, b) {
        IsolatedReachesOnlyItself(edges, b, r);
      }
    }
  }

  ghost function EdgeTotal(islands: seq<Island>): nat {
    if islands == [] then 0 else EdgeTotal(islands[..|islands| - 1]) + |islands[|islands| - 1].edges|
  }

  /** In how many islands a contact's first body lies. */
  ghost function Homes(islands: seq<Island>, c: Contact): nat {
    if islands == [] then 0
    else Homes(islands[..|islands| - 1], c) + if c.first in islands[|islands| - 1].bodies then 1 else 0
  }

  ghost function HomesOfAll(islands: seq<Island>, unique: seq<Contact>): nat {
    if unique == [] then 0
    else HomesOfAll(islands, unique[..|unique| - 1]) + Homes(islands, unique[|unique| - 1])
  }

  lemma {:induction false} HomesByIsland(islands: seq<Island>, unique: seq<Contact>)
    requires islands != []
    ensures HomesOfAll(islands, unique)
      == HomesOfAll(islands[..|islands| - 1], unique) + |EdgesWithin(unique, islands[|islands| - 1].bodies)|
  {
    if unique != [] {
      HomesByIsland(islands, unique[..|unique| - 1]);
    }
  }

  /** Counting contacts island by island or home by home gives the same total. */
  lemma {:induction false} EdgeTotalIsHomes(islands: seq<Island>, unique: seq<Contact>)
    requires forall i :: 0 <= i < |islands| ==> islands[i].edges == EdgesWithin(unique, islands[i].bodies)
    ensures EdgeTotal(islands) == HomesOfAll(islands, unique)
  {
    if islands == [] {
      NoHomes(unique);
    } else {
      EdgeTotalIsHomes(islands[..|islands| - 1], unique);
      HomesByIsland(islands, unique);
    }
  }

  lemma {:induction false} NoHomes(unique: seq<Contact>)
    ensures HomesOfAll([], unique) == 0
  {
    if unique != [] {
      NoHomes(unique[..|unique| - 1]);
    }
  }

  lemma {:induction false} OneHome(islands: seq<Island>, c: Contact, i: nat)
    requires i < |islands| && c.first in islands[i].bodies
    requires forall j :: 0 <= j < |islands| && c.first in islands[j].bodies ==> j == i
    ensures Homes(islands, c) == 1
  {
    var last := |islands| - 1;
    if i == last {
      NoHome(islands[..last], c);
    } else {
      OneHome(islands[..last], c, i);
    }
  }

  lemma {:induction false} NoHome(islands: seq<Island>, c: Contact)
    requires forall j :: 0 <= j < |islands| ==> c.first !in islands[j].bodies
    ensures Homes(islands, c) == 0
  {
    if islands != [] {
      NoHome(islands[..|islands| - 1], c);
    }
  }

  lemma {:induction false} EveryContactHasOneHome(islands: seq<Island>, unique: seq<Contact>)
    requires forall c :: c in unique ==> Homes(islands, c) == 1
    ensures HomesOfAll(islands, unique) == |unique|
  {
    if unique != [] {
      EveryContactHasOneHome(islands, unique[..|unique| - 1]);
      assert unique[|unique| - 1] in unique;
    }
  }

  lemma {:induction false} WithinMeaning(unique: seq<Contact>, bodies: seq<nat>, c: Contact)
    ensures c in EdgesWithin(unique, bodies) <==> c in unique && c.first in bodies
  {
    if unique != [] {
      WithinMeaning(unique[..|unique| - 1], bodies, c);
      assert unique == unique[..|unique| - 1] + [unique[|unique| - 1]];
    }
  }

  lemma EdgeTouches(edges: set<Contact>, c: Contact)
    requires c in edges
    ensures Touch(edges, c.first, c.second) && !Isolated(edges, c.first)
  {
    assert Joins(c, c.first, c.second);
  }

  /** Every contact lies in exactly one island, together with both of its bodies. */
  lemma ContactHasOneIsland(n: nat, edges: set<Contact>, unique: seq<Contact>, islands: seq<Island>,
      marked: seq<bool>, c: Contact)
    returns (i: nat)
    requires Discovered(n, edges, unique, islands, n, marked) && EdgesBelow(n, edges)
    requires c in edges && c in unique
    ensures i < |islands| && c in islands[i].edges && c.first in islands[i].bodies && c.second in islands[i].bodies
    ensures forall j :: 0 <= j < |islands| && c.first in islands[j].bodies ==> j == i
    ensures forall j :: 0 <= j < |islands| && c in islands[j].edges ==> j == i
  {
    hide Isolated;
    hide Touch;
    hide Reaches;
    EdgeTouches(edges, c);
    i :| 0 <= i < |islands| && c.first in islands[i].bodies;
    var root := islands[i].bodies[0];
    ReachesTouching(edges, c.first, c.second);
    ReachesTransitive(edges, root, c.first, c.second);
    WithinMeaning(unique, islands[i].bodies, c);
    forall j | 0 <= j < |islands| && c.first in islands[j].bodies ensures j == i {
      IslandsAreDisjoint(n, edges, unique, islands, marked, i, j, c.first);
    }
    forall j | 0 <= j < |islands| && c in islands[j].edges ensures j == i {
      WithinMeaning(unique, islands[j].bodies, c);
    }
  }

  /** The islands' contact counts add up to the number of contacts. */
  lemma EdgeCountsAddUp(n: nat, unique: seq<Contact>, islands: seq<Island>, marked: seq<bool>)
    requires InRange(n, unique) && Discovered(n, Edges(unique), unique, islands, n, marked)
    ensures EdgeTotal(islands) == |unique|
  {
    hide Isolated;
    hide Touch;
    hide Reaches;
    EdgeTotalIsHomes(islands, unique);
    forall c | c in unique ensures Homes(islands, c) == 1 {
      var i := ContactHasOneIsland(n, Edges(unique), unique, islands, marked, c);
      OneHome(islands, c, i);
    }
    EveryContactHasOneHome(islands, unique);
  }

  /** Fronts ascend, so sorting the islands by front afterwards changes nothing; each front is its island's key. */
  lemma FrontsAreKeys(n: nat, unique: seq<Contact>, islands: seq<Island>, marked: seq<bool>, i: nat)
    requires InRange(n, unique) && Discovered(n, Edges(unique), unique, islands, n, marked) && i < |islands|
    ensures forall b :: b in islands[i].bodies ==> b < n && Keys(n, unique)[b] == islands[i].bodies[0]
    ensures forall j :: i < j < |islands| ==> islands[i].bodies[0] < islands[j].bodies[0]
  {
    hide Isolated;
    hide Touch;
    hide Reaches;
    hide Keys;
    var (edges, root) := (Edges(unique), islands[i].bodies[0]);
    assert root in islands[i].bodies;
    KeyIsLeastReachable(n, unique, root);
    var key := Keys(n, unique)[root];
    ReachesSymmetric(edges, key, root);
    LeastFirst(islands[i].bodies, key);
    forall b | b in islands[i].bodies ensures b < n && Keys(n, unique)[b] == root {
      SameKeyIffReaches(n, unique, root, b);
    }
  }
}
