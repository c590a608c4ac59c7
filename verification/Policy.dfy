/**
 The threshold search of the policy benchmark: which pooling policy an ascending scan with an
 epsilon tie rule picks, and how far from the best it can be.  Costs are real numbers.
 */
module Policy {
  import opened Ordering

  /** What the search sees of a scenario: four work units per contact, its islands and its two measured times. */
  datatype Scenario = Scenario(contacts: nat, islands: nat, serial: real, pooled: real) {
    function Work(): nat {
      contacts * 4
    }
  }

  datatype Thresholds = Thresholds(work: nat, islands: nat)

  const EPSILON: real := 0.000000000001
  const NEVER: nat := 0xFFFF_FFFF_FFFF_FFFF
  const ISLAND_THRESHOLDS: seq<nat> := [1, 2, 4, 8, 16, 64, 256]

  predicate ChoosesPool(work: real, islands: nat, s: Scenario) {
    s.Work() as real >= work && s.islands >= islands
  }

  function SelectedCost(work: real, islands: nat, s: Scenario): real {
    if ChoosesPool(work, islands, s) then s.pooled else s.serial
  }

  /** Calibration cost over every other scenario. */
  ghost function Cost(scenarios: seq<Scenario>, work: real, islands: nat, k: nat): real
    requires k <= |scenarios|
  {
    if k == 0 then 0.0
    else
      var here := if (k - 1) % 2 == 0 then SelectedCost(work, islands, scenarios[k - 1]) else 0.0;
      Cost(scenarios, work, islands, k - 1) + here
  }

  ghost function CostOf(scenarios: seq<Scenario>, t: Thresholds): real {
    Cost(scenarios, t.work as real, t.islands, |scenarios|)
  }

  method Calibrate(scenarios: seq<Scenario>, t: Thresholds) returns (total: real)
    ensures total == CostOf(scenarios, t)
  {
    total := 0.0;
    for i := 0 to |scenarios|
      invariant total == Cost(scenarios, t.work as real, t.islands, i)
    {
      if i % 2 == 0 {
        total := total + SelectedCost(t.work as real, t.islands, scenarios[i]);
      }
    }
  }

  // ---- what a policy sees ----

  /** Pooling takes enough islands and enough work, four units a contact; only the time then taken is compared. */
  ghost predicate SeenAlike(work: real, islands: nat, a: Scenario, b: Scenario) {
    && a.contacts == b.contacts && a.islands == b.islands
    && (if a.islands >= islands && 4.0 * a.contacts as real >= work then a.pooled == b.pooled else a.serial == b.serial)
  }

  /** A policy's cost depends on nothing but the times it takes, in every other scenario. */
  lemma {:induction false} CostSeesAlike(these: seq<Scenario>, those: seq<Scenario>, work: real, islands: nat, k: nat)
    requires |these| == |those| && k <= |these|
    requires forall i :: 0 <= i < k && i % 2 == 0 ==> SeenAlike(work, islands, these[i], those[i])
    ensures Cost(these, work, islands, k) == Cost(those, work, islands, k)
  {
    if k > 0 {
      CostSeesAlike(these, those, work, islands, k - 1);
    }
  }

  ghost function Total(times: seq<real>): real {
    if times == [] then 0.0 else Total(times[..|times| - 1]) + times[|times| - 1]
  }

  /** What a scenario adds to the calibration: nothing at odd places, elsewhere the time its thresholds take. */
  ghost predicate Taken(scenarios: seq<Scenario>, work: real, islands: nat, i: nat, time: real)
    requires i < |scenarios|
  {
    var s := scenarios[i];
    if i % 2 == 1 then time == 0.0
    else if s.islands >= islands && 4.0 * s.contacts as real >= work then time == s.pooled
    else time == s.serial
  }

  /** And it is the sum of those times. */
  lemma {:induction false} CostIsTotal(scenarios: seq<Scenario>, work: real, islands: nat, times: seq<real>)
    requires |times| <= |scenarios|
    requires forall i :: 0 <= i < |times| ==> Taken(scenarios, work, islands, i, times[i])
    ensures Cost(scenarios, work, islands, |times|) == Total(times)
  {
    if times != [] {
      CostIsTotal(scenarios, work, islands, times[..|times| - 1]);
    }
  }

  // ---- candidate thresholds ----

  function Works(scenarios: seq<Scenario>): seq<nat> {
    seq(|scenarios|, i requires 0 <= i < |scenarios| => scenarios[i].Work())
  }

  function WorkCandidates(scenarios: seq<Scenario>): (r: seq<nat>) {
    SortedUnique([0, NEVER] + Works(scenarios))
  }

  lemma WorkCandidatesAre(scenarios: seq<Scenario>)
    ensures StrictlyAscending(WorkCandidates(scenarios))
    ensures 0 in WorkCandidates(scenarios) && NEVER in WorkCandidates(scenarios)
    ensures forall s :: s in scenarios ==> s.Work() in WorkCandidates(scenarios)
  {
    var all := [0, NEVER] + Works(scenarios);
    SortedUniqueIsSet(all);
    assert all[0] == 0 && all[1] == NEVER;
    forall s | s in scenarios ensures s.Work() in all {
      var i :| 0 <= i < |scenarios| && scenarios[i] == s;
      assert all[i + 2] == s.Work();
    }
  }

  /** Thresholds that pool the same scenarios cost the same. */
  lemma {:induction false} SamePoolingSameCost(scenarios: seq<Scenario>, t: real, u: nat, v: real, w: nat, k: nat)
    requires k <= |scenarios|
    requires forall s :: s in scenarios ==> (ChoosesPool(t, u, s) <==> ChoosesPool(v, w, s))
    ensures Cost(scenarios, t, u, k) == Cost(scenarios, v, w, k)
  {
    if k > 0 {
      SamePoolingSameCost(scenarios, t, u, v, w, k - 1);
      assert scenarios[k - 1] in scenarios;
    }
  }

  /** The least candidate at or above a threshold, or `NEVER` above them all. */
  lemma {:induction false} NextCandidate(candidates: seq<nat>, t: real) returns (c: nat)
    requires candidates != []
    ensures c in candidates
    ensures forall x: nat :: x in candidates && x as real >= t ==> c <= x
    ensures (exists x: nat :: x in candidates && x as real >= t) ==> c as real >= t
  {
    c := candidates[0];
    for i := 1 to |candidates|
      invariant c in candidates
      invariant forall j :: 0 <= j < i && candidates[j] as real >= t ==> c <= candidates[j] && c as real >= t
    {
      if candidates[i] as real >= t && (candidates[i] < c || (c as real) < t) {
        c := candidates[i];
      }
    }
  }

  /** The candidates cover every real threshold: some candidate pools exactly the same scenarios. */
  lemma CandidatesCoverEveryThreshold(scenarios: seq<Scenario>, t: real, islands: nat) returns (c: nat)
    requires forall s :: s in scenarios ==> s.contacts <= 0x3FFF_FFFF_FFFF_FFFF
    ensures c in WorkCandidates(scenarios)
    ensures forall s :: s in scenarios ==> (s.Work() as real >= t <==> s.Work() >= c)
    ensures Cost(scenarios, t, islands, |scenarios|) == CostOf(scenarios, Thresholds(c, islands))
  {
    var candidates := WorkCandidates(scenarios);
    WorkCandidatesAre(scenarios);
    if exists x: nat :: x in candidates && x as real >= t {
      c := NextCandidate(candidates, t);
    } else {
      c := NEVER;
    }
    forall s | s in scenarios ensures s.Work() as real >= t <==> s.Work() >= c {
    }
    SamePoolingSameCost(scenarios, t, islands, c as real, islands, |scenarios|);
  }

  /** Every island threshold up to 256 splits the scenarios like a candidate one. */
  ghost predicate IslandsCovered(scenarios: seq<Scenario>) {
    forall s :: s in scenarios ==> s.islands > 256 || s.islands in {0, 1, 2, 4, 8, 16, 64, 256}
  }

  /** An island threshold between 1 and 256, or above every scenario. */
  predicate WithinReach(scenarios: seq<Scenario>, u: nat) {
    1 <= u <= 256 || (forall s :: s in scenarios ==> s.islands < u)
  }

  /** The candidate to take in place of an island threshold. */
  lemma NextIslands(scenarios: seq<Scenario>, u: nat) returns (i: nat)
    requires IslandsCovered(scenarios) && 1 <= u <= 256
    ensures i < 7
    ensures forall s :: s in scenarios ==> (s.islands >= u <==> s.islands >= ISLAND_THRESHOLDS[i])
  {
    i := 0;
    while ISLAND_THRESHOLDS[i] < u
      invariant i < 7 && (i > 0 ==> ISLAND_THRESHOLDS[i - 1] < u)
      decreases 7 - i
    {
      i := i + 1;
    }
  }

  /** So together the candidates cover every pair of thresholds; the largest work candidate stands for never pooling. */
  lemma CandidatesCoverEveryPair(scenarios: seq<Scenario>, t: real, u: nat) returns (c: nat, v: nat)
    requires forall s :: s in scenarios ==> s.contacts <= 0x3FFF_FFFF_FFFF_FFFF
    requires IslandsCovered(scenarios) && WithinReach(scenarios, u)
    ensures c in WorkCandidates(scenarios) && v in ISLAND_THRESHOLDS
    ensures Cost(scenarios, t, u, |scenarios|) == CostOf(scenarios, Thresholds(c, v))
  {
    hide WorkCandidates;
    if 1 <= u <= 256 {
      var i := NextIslands(scenarios, u);
      v := ISLAND_THRESHOLDS[i];
      c := CandidatesCoverEveryThreshold(scenarios, t, v);
      SamePoolingSameCost(scenarios, t, u, t, v, |scenarios|);
    } else {
      c, v := NEVER, ISLAND_THRESHOLDS[0];
      WorkCandidatesAre(scenarios);
      SamePoolingSameCost(scenarios, t, u, c as real, v, |scenarios|);
    }
  }

  // ---- the scan ----

  predicate Larger(a: Thresholds, b: Thresholds) {
    a.work > b.work || (a.work == b.work && a.islands > b.islands)
  }

  /** All candidates in scan order. */
  ghost function Scan(works: seq<nat>): seq<Thresholds> {
    seq(7 * |works|, i requires 0 <= i < 7 * |works| => Thresholds(works[i / 7], ISLAND_THRESHOLDS[i % 7]))
  }

  lemma ScanRises(works: seq<nat>, i: nat, j: nat)
    requires StrictlyAscending(works) && i < j < 7 * |works|
    ensures Larger(Scan(works)[j], Scan(works)[i])
  {
    if i / 7 == j / 7 {
      assert i % 7 < j % 7;
    } else {
      assert works[i / 7] < works[j / 7];
    }
  }

  /** The best cost so far; nothing yet is an infinite cost. */
  datatype Best = Nothing | Found(cost: real)

  /** The tolerance of n ties in a row. */
  ghost function Slack(n: int): real {
    n as real * EPSILON
  }

  ghost function Costs(scenarios: seq<Scenario>, scan: seq<Thresholds>): (r: seq<real>)
    ensures |r| == |scan|
  {
    seq(|scan|, i requires 0 <= i < |scan| => CostOf(scenarios, scan[i]))
  }

  /** Which of the first m costs a scan keeps that takes every cost at most an epsilon above the kept one. */
  ghost function Choice(costs: seq<real>, m: nat): (r: nat)
    requires 0 < m <= |costs|
    ensures r < m
  {
    if m == 1 then 0
    else
      var kept := Choice(costs, m - 1);
      if costs[m - 1] <= costs[kept] + EPSILON then m - 1 else kept
  }

  /**
   After m candidates: the kept one lies at `at`, where the scan of the costs alone ends; every candidate
   costs at least as much up to one epsilon for each candidate scanned after it, and every later one costs
   more than an epsilon more.
   */
  ghost predicate Kept(scenarios: seq<Scenario>, scan: seq<Thresholds>, m: nat, at: nat, t: Thresholds, best: Best) {
    && at < m <= |scan| && t == scan[at] && best == Found(CostOf(scenarios, t))
    && at == Choice(Costs(scenarios, scan), m)
    && (forall j :: 0 <= j < m ==> best.cost <= CostOf(scenarios, scan[j]) + Slack(m - 1 - j))
    && (forall j :: at < j < m ==> CostOf(scenarios, scan[j]) > best.cost + EPSILON)
  }

  ghost predicate Scanned(scenarios: seq<Scenario>, scan: seq<Thresholds>, m: nat, at: nat, t: Thresholds, best: Best) {
    if m == 0 then t == Thresholds(0, 0) && best.Nothing? else Kept(scenarios, scan, m, at, t, best)
  }

  lemma KeptNext(scenarios: seq<Scenario>, scan: seq<Thresholds>, m: nat, at: nat, t: Thresholds, best: Best)
    requires Kept(scenarios, scan, m, at, t, best) && m < |scan|
    ensures var total := CostOf(scenarios, scan[m]);
      if total <= best.cost + EPSILON then Kept(scenarios, scan, m + 1, m, scan[m], Found(total))
      else Kept(scenarios, scan, m + 1, at, t, best)
  {
    forall j | 0 <= j < m ensures CostOf(scenarios, scan[j]) + Slack(m - j) >= best.cost + EPSILON {
      assert Slack(m - j) == Slack(m - 1 - j) + EPSILON;
    }
    assert Slack(0) == 0.0;
  }

  function Abs(x: real): real {
    if x < 0.0 then -x else x
  }

  /** One candidate: strictly better, or a tie that prefers the larger thresholds. */
  method Consider(scenarios: seq<Scenario>, ghost scan: seq<Thresholds>, ghost m: nat, ghost at: nat,
      candidate: Thresholds,
      best: Thresholds, found: Best) returns (nextBest: Thresholds, nextFound: Best, ghost nextAt: nat)
    requires m < |scan| && candidate == scan[m] && Scanned(scenarios, scan, m, at, best, found)
    requires forall j :: 0 <= j < m ==> Larger(scan[m], scan[j])
    ensures Scanned(scenarios, scan, m + 1, nextAt, nextBest, nextFound)
  {
    var total := Calibrate(scenarios, candidate);
    if m > 0 {
      KeptNext(scenarios, scan, m, at, best, found);
    }
    var strictlyBetter := found.Nothing? || total < found.cost - EPSILON;
    var conservativeTie := found.Found? && Abs(total - found.cost) <= EPSILON && Larger(candidate, best);
    if strictlyBetter || conservativeTie {
      nextBest, nextFound, nextAt := candidate, Found(total), m;
    } else {
      nextBest, nextFound, nextAt := best, found, at;
    }
    assert m == 0 ==> Slack(0) == 0.0;
  }

  lemma ScanLength(works: seq<nat>)
    ensures |Scan(works)| == 7 * |works|
  {
  }

  /** The candidate the two loops have reached, and that all before it are smaller. */
  lemma LaterIsLarger(works: seq<nat>, w: nat, i: nat)
    requires StrictlyAscending(works) && w < |works| && i < 7
    ensures 7 * w + i < |Scan(works)| && Scan(works)[7 * w + i] == Thresholds(works[w], ISLAND_THRESHOLDS[i])
    ensures forall j :: 0 <= j < 7 * w + i ==> Larger(Scan(works)[7 * w + i], Scan(works)[j])
  {
    var m := 7 * w + i;
    assert m / 7 == w && m % 7 == i;
    forall j: nat | j < m ensures Larger(Scan(works)[m], Scan(works)[j]) {
      ScanRises(works, j, m);
    }
  }

  lemma NothingScanned(scenarios: seq<Scenario>, scan: seq<Thresholds>)
    ensures Scanned(scenarios, scan, 0, 0, Thresholds(0, 0), Nothing)
  {
  }

  method ScanCandidates(scenarios: seq<Scenario>) returns (best: Thresholds, cost: real, ghost at: nat)
    ensures Kept(scenarios, Scan(WorkCandidates(scenarios)), 7 * |WorkCandidates(scenarios)|, at, best, Found(cost))
  {
    hide Kept;
    hide Larger;
    hide Scanned;
    hide Scan;
    hide WorkCandidates;
    var works := WorkCandidates(scenarios);
    ghost var scan := Scan(works);
    WorkCandidatesAre(scenarios);
    ScanLength(works);
    NothingScanned(scenarios, scan);
    best := Thresholds(0, 0);
    var found := Nothing;
    at := 0;
    for w := 0 to |works|
      invariant Scanned(scenarios, scan, 7 * w, at, best, found)
    {
      for i := 0 to 7
        invariant Scanned(scenarios, scan, 7 * w + i, at, best, found)
      {
        ghost var m := 7 * w + i;
        LaterIsLarger(works, w, i);
        best, found, at := Consider(scenarios, scan, m, at, Thresholds(works[w], ISLAND_THRESHOLDS[i]), best, found);
      }
    }
    FoundWhenScanned(scenarios, scan, at, best, found);
    cost := found.cost;
  }

  lemma FoundWhenScanned(scenarios: seq<Scenario>, scan: seq<Thresholds>, at: nat, t: Thresholds, best: Best)
    requires scan != [] && Scanned(scenarios, scan, |scan|, at, t, best)
    ensures best.Found? && Kept(scenarios, scan, |scan|, at, t, best)
  {
  }

  // ---- how good the chosen policy is ----

  lemma InScan(works: seq<nat>, work: nat, islands: nat) returns (j: nat)
    requires work in works && islands in ISLAND_THRESHOLDS
    ensures j < |Scan(works)| && Scan(works)[j] == Thresholds(work, islands)
  {
    var w :| 0 <= w < |works| && works[w] == work;
    var i :| 0 <= i < 7 && ISLAND_THRESHOLDS[i] == islands;
    j := 7 * w + i;
  }

  /** The chosen policy costs at most one epsilon per further candidate more than the best with any real work threshold. */
  lemma ChosenIsNearlyBest(scenarios: seq<Scenario>, at: nat, best: Thresholds, cost: real, t: real, islands: nat)
    requires forall s :: s in scenarios ==> s.contacts <= 0x3FFF_FFFF_FFFF_FFFF
    requires Kept(scenarios, Scan(WorkCandidates(scenarios)), 7 * |WorkCandidates(scenarios)|, at, best, Found(cost))
    requires islands in ISLAND_THRESHOLDS
    ensures cost == CostOf(scenarios, best)
    ensures cost <= Cost(scenarios, t, islands, |scenarios|) + Slack(7 * |WorkCandidates(scenarios)| - 1)
  {
    hide Cost;
    hide Slack;
    hide WorkCandidates;
    hide ChoosesPool;
    hide SelectedCost;
    var works := WorkCandidates(scenarios);
    var scan := Scan(works);
    var c := CandidatesCoverEveryThreshold(scenarios, t, islands);
    var j := InScan(works, c, islands);
    SlackGrows(|scan| - 1 - j, |scan| - 1);
  }

  /** It is conservative: every candidate with larger thresholds costs more than an epsilon more. */
  lemma ChosenIsConservative(scenarios: seq<Scenario>, at: nat, best: Thresholds, cost: real, d: Thresholds)
    requires Kept(scenarios, Scan(WorkCandidates(scenarios)), 7 * |WorkCandidates(scenarios)|, at, best, Found(cost))
    requires d in Scan(WorkCandidates(scenarios)) && Larger(d, best)
    ensures CostOf(scenarios, d) > cost + EPSILON
  {
    hide CostOf;
    hide Larger;
    hide Scan;
    var works := WorkCandidates(scenarios);
    WorkCandidatesAre(scenarios);
    hide WorkCandidates;
    LargerIsLater(works, at, d);
  }

  lemma SlackGrows(m: int, n: int)
    requires m <= n
    ensures Slack(m) <= Slack(n)
  {
  }

  lemma LargerIsLater(works: seq<nat>, at: nat, d: Thresholds)
    requires StrictlyAscending(works) && at < 7 * |works| && d in Scan(works) && Larger(d, Scan(works)[at])
    ensures exists j :: at < j < 7 * |works| && Scan(works)[j] == d
  {
    var i :| 0 <= i < |Scan(works)| && Scan(works)[i] == d;
    if i < at {
      ScanRises(works, i, at);
    }
  }

  // ---- when one epsilon is enough ----

  ghost function Least(costs: seq<real>): (r: real)
    requires costs != []
    ensures r in costs && forall j :: 0 <= j < |costs| ==> r <= costs[j]
  {
    var (before, last) := (costs[..|costs| - 1], costs[|costs| - 1]);
    assert costs == before + [last];
    if before == [] || last < Least(before) then last else Least(before)
  }

  /** The last cost within a bound. */
  ghost function LastWithin(costs: seq<real>, bound: real): (r: nat)
    requires exists j :: 0 <= j < |costs| && costs[j] <= bound
    ensures r < |costs| && costs[r] <= bound && forall j :: r < j < |costs| ==> costs[j] > bound
  {
    var last := |costs| - 1;
    if costs[last] <= bound then last
    else
      assert exists j :: 0 <= j < last && costs[..last][j] <= bound by {
        var j :| 0 <= j < |costs| && costs[j] <= bound;
        assert costs[..last][j] <= bound;
      }
      LastWithin(costs[..last], bound)
  }

  /** The last cost within an epsilon of the least. */
  ghost function LastNear(costs: seq<real>): (r: nat)
    requires costs != []
    ensures r < |costs| && costs[r] <= Least(costs) + EPSILON
    ensures forall j :: r < j < |costs| ==> costs[j] > Least(costs) + EPSILON
  {
    var k :| 0 <= k < |costs| && costs[k] == Least(costs);
    LastWithin(costs, Least(costs) + EPSILON)
  }

  /** No cost behind that one comes within an epsilon of it. */
  ghost predicate Settled(costs: seq<real>)
    requires costs != []
  {
    forall j :: LastNear(costs) < j < |costs| ==> costs[j] > costs[LastNear(costs)] + EPSILON
  }

  /** The scan arrives at the last near cost, and leaves it for a cost behind it if one lies within an epsilon. */
  lemma {:induction false} ChoiceBehind(costs: seq<real>, m: nat)
    requires costs != [] && LastNear(costs) < m <= |costs|
    ensures Choice(costs, m) >= LastNear(costs)
    ensures Choice(costs, m) == LastNear(costs)
      <==> forall j :: LastNear(costs) < j < m ==> costs[j] > costs[LastNear(costs)] + EPSILON
    decreases m
  {
    hide LastNear;
    hide Least;
    if m > 1 && m - 1 > LastNear(costs) {
      ChoiceBehind(costs, m - 1);
    }
  }

  /** One epsilon bounds the loss exactly when the costs are settled behind the last near one. */
  lemma ChoiceWithinIff(costs: seq<real>)
    requires costs != []
    ensures costs[Choice(costs, |costs|)] <= Least(costs) + EPSILON <==> Settled(costs)
  {
    hide LastNear;
    hide Least;
    ChoiceBehind(costs, |costs|);
  }

  /** In particular if no cost lies more than one but at most two epsilons above the least. */
  lemma GapSettles(costs: seq<real>)
    requires costs != []
    requires forall c :: c in costs ==> !(Least(costs) + EPSILON < c <= Least(costs) + 2.0 * EPSILON)
    ensures Settled(costs)
  {
    hide LastNear;
    hide Least;
    forall j | LastNear(costs) < j < |costs| ensures costs[j] > costs[LastNear(costs)] + EPSILON {
      assert costs[j] in costs;
    }
  }

  /** Or if every cost above the least lies more than an epsilon above it; the scan then ends at the least. */
  lemma ApartSettles(costs: seq<real>)
    requires costs != []
    requires forall c :: c in costs ==> !(Least(costs) < c <= Least(costs) + EPSILON)
    ensures Settled(costs) && costs[Choice(costs, |costs|)] == Least(costs)
  {
    hide Least;
    assert costs[LastNear(costs)] in costs;
    ChoiceWithinIff(costs);
    assert costs[Choice(costs, |costs|)] in costs;
  }

  ghost function CandidateCosts(scenarios: seq<Scenario>): (r: seq<real>)
    ensures r != []
  {
    WorkCandidatesAre(scenarios);
    Costs(scenarios, Scan(WorkCandidates(scenarios)))
  }

  /** Within an epsilon of every policy with any real work threshold. */
  ghost predicate WithinEpsilon(scenarios: seq<Scenario>, cost: real) {
    forall t: real, islands: nat :: islands in ISLAND_THRESHOLDS ==>
      cost <= Cost(scenarios, t, islands, |scenarios|) + EPSILON
  }

  /** Every real threshold costs what some candidate costs, so the least candidate is the least of all. */
  lemma WithinEpsilonOfLeast(scenarios: seq<Scenario>, cost: real)
    requires forall s :: s in scenarios ==> s.contacts <= 0x3FFF_FFFF_FFFF_FFFF
    ensures WithinEpsilon(scenarios, cost) <==> cost <= Least(CandidateCosts(scenarios)) + EPSILON
  {
    hide Cost;
    hide WorkCandidates;
    hide Least;
    var (works, costs) := (WorkCandidates(scenarios), CandidateCosts(scenarios));
    var scan := Scan(works);
    if WithinEpsilon(scenarios, cost) {
      var k :| 0 <= k < |costs| && costs[k] == Least(costs);
      LeastIsPolicy(scenarios, works, k);
      assert cost <= Cost(scenarios, scan[k].work as real, scan[k].islands, |scenarios|) + EPSILON;
    } else {
      var t: real, islands: nat :| islands in ISLAND_THRESHOLDS && cost > Cost(scenarios, t, islands, |scenarios|) + EPSILON;
      var c := CandidatesCoverEveryThreshold(scenarios, t, islands);
      var j := InScan(works, c, islands);
      assert costs[j] >= Least(costs);
    }
  }

  lemma LeastIsPolicy(scenarios: seq<Scenario>, works: seq<nat>, k: nat)
    requires k < 7 * |works|
    ensures Scan(works)[k].islands in ISLAND_THRESHOLDS
    ensures Costs(scenarios, Scan(works))[k]
      == Cost(scenarios, Scan(works)[k].work as real, Scan(works)[k].islands, |scenarios|)
  {
    assert ISLAND_THRESHOLDS[k % 7] in ISLAND_THRESHOLDS;
  }

  /** The chosen policy is within one epsilon of every policy exactly when the candidates' costs are settled. */
  lemma ChosenWithinEpsilonIff(scenarios: seq<Scenario>, at: nat, best: Thresholds, cost: real)
    requires forall s :: s in scenarios ==> s.contacts <= 0x3FFF_FFFF_FFFF_FFFF
    requires Kept(scenarios, Scan(WorkCandidates(scenarios)), 7 * |WorkCandidates(scenarios)|, at, best, Found(cost))
    ensures WithinEpsilon(scenarios, cost) <==> Settled(CandidateCosts(scenarios))
    ensures best == Scan(WorkCandidates(scenarios))[Choice(CandidateCosts(scenarios), 7 * |WorkCandidates(scenarios)|)]
  {
    hide Least;
    hide Settled;
    hide CostOf;
    hide WorkCandidates;
    hide WithinEpsilon;
    WithinEpsilonOfLeast(scenarios, cost);
    ChoiceWithinIff(CandidateCosts(scenarios));
  }

  /** Within an epsilon of every policy whose island threshold is within reach. */
  ghost predicate WithinEpsilonOfAll(scenarios: seq<Scenario>, cost: real) {
    forall t: real, u: nat :: WithinReach(scenarios, u) ==> cost <= Cost(scenarios, t, u, |scenarios|) + EPSILON
  }

  /** On covered scenarios the candidate island thresholds stand for all of those. */
  lemma WithinEpsilonOfAllIff(scenarios: seq<Scenario>, cost: real)
    requires forall s :: s in scenarios ==> s.contacts <= 0x3FFF_FFFF_FFFF_FFFF
    requires IslandsCovered(scenarios)
    ensures WithinEpsilonOfAll(scenarios, cost) <==> WithinEpsilon(scenarios, cost)
  {
    hide Cost;
    hide WorkCandidates;
    if WithinEpsilon(scenarios, cost) {
      forall t: real, u: nat | WithinReach(scenarios, u)
        ensures cost <= Cost(scenarios, t, u, |scenarios|) + EPSILON
      {
        var c, v := CandidatesCoverEveryPair(scenarios, t, u);
        assert cost <= Cost(scenarios, c as real, v, |scenarios|) + EPSILON;
      }
    }
    if WithinEpsilonOfAll(scenarios, cost) {
      forall t: real, u: nat | u in ISLAND_THRESHOLDS
        ensures cost <= Cost(scenarios, t, u, |scenarios|) + EPSILON
      {
        assert WithinReach(scenarios, u);
      }
    }
  }

  /** Two lists that agree except in times no candidate takes. */
  ghost predicate DecideAlike(these: seq<Scenario>, those: seq<Scenario>) {
    && |these| == |those|
    && (forall i :: 0 <= i < |these| ==>
      these[i].contacts == those[i].contacts && these[i].islands == those[i].islands)
    && (forall i :: 0 <= i < |these| && i % 2 == 0 ==>
      these[i].serial == those[i].serial && (these[i].islands >= 1 ==> these[i].pooled == those[i].pooled))
  }

  /** Such lists have one outcome: no time of an odd scenario, and no pooled time without islands, can matter. */
  lemma OnlyTakenTimesDecide(these: seq<Scenario>, those: seq<Scenario>)
    requires DecideAlike(these, those)
    ensures WorkCandidates(these) == WorkCandidates(those)
    ensures CandidateCosts(these) == CandidateCosts(those)
  {
    assert Works(these) == Works(those);
    var scan := Scan(WorkCandidates(these));
    hide WorkCandidates;
    forall j | 0 <= j < |scan| ensures CostOf(these, scan[j]) == CostOf(those, scan[j]) {
      CostSeesAlike(these, those, scan[j].work as real, scan[j].islands, |these|);
    }
  }

  /** Within one epsilon per further candidate of every policy with any real work threshold. */
  ghost predicate NearlyBest(scenarios: seq<Scenario>, cost: real) {
    forall t: real, islands: nat :: islands in ISLAND_THRESHOLDS ==>
      cost <= Cost(scenarios, t, islands, |scenarios|) + Slack(7 * |WorkCandidates(scenarios)| - 1)
  }

  /** No candidate with larger thresholds comes within an epsilon. */
  ghost predicate Conservative(scenarios: seq<Scenario>, best: Thresholds, cost: real) {
    forall d :: d in Scan(WorkCandidates(scenarios)) && Larger(d, best) ==> CostOf(scenarios, d) > cost + EPSILON
  }

  method SearchThresholds(scenarios: seq<Scenario>) returns (best: Thresholds, cost: real)
    requires forall s :: s in scenarios ==> s.contacts <= 0x3FFF_FFFF_FFFF_FFFF
    ensures best in Scan(WorkCandidates(scenarios)) && cost == CostOf(scenarios, best)
    ensures best == Scan(WorkCandidates(scenarios))[Choice(CandidateCosts(scenarios), 7 * |WorkCandidates(scenarios)|)]
    ensures NearlyBest(scenarios, cost) && Conservative(scenarios, best, cost)
    ensures WithinEpsilon(scenarios, cost) <==> Settled(CandidateCosts(scenarios))
    ensures IslandsCovered(scenarios) ==> (WithinEpsilonOfAll(scenarios, cost) <==> Settled(CandidateCosts(scenarios)))
  {
    hide Cost;
    hide WorkCandidates;
    hide WithinEpsilon;
    hide WithinEpsilonOfAll;
    hide IslandsCovered;
    hide Settled;
    hide CandidateCosts;
    hide Choice;
    ghost var at;
    best, cost, at := ScanCandidates(scenarios);
    ChosenWithinEpsilonIff(scenarios, at, best, cost);
    if IslandsCovered(scenarios) {
      WithinEpsilonOfAllIff(scenarios, cost);
    }
    forall t: real, islands: nat | islands in ISLAND_THRESHOLDS
      ensures cost <= Cost(scenarios, t, islands, |scenarios|) + Slack(7 * |WorkCandidates(scenarios)| - 1)
    {
      ChosenIsNearlyBest(scenarios, at, best, cost, t, islands);
    }
    forall d | d in Scan(WorkCandidates(scenarios)) && Larger(d, best) ensures CostOf(scenarios, d) > cost + EPSILON {
      ChosenIsConservative(scenarios, at, best, cost, d);
    }
  }

  // ---- ties drift ----

  /** Three scenarios, two of them calibrated, and in those pooling saves the same. */
  ghost function Saving(saving: real): seq<Scenario> {
    [Scenario(1, 256, 1.0 + saving, 1.0), Scenario(0, 1, 0.0, 0.0), Scenario(2, 256, 1.0 + saving, 1.0)]
  }

  lemma SavingCost(saving: real, work: nat, islands: nat)
    requires islands <= 256
    ensures CostOf(Saving(saving), Thresholds(work, islands))
      == 2.0 + (if 4 >= work then 0.0 else saving) + (if 8 >= work then 0.0 else saving)
  {
    var (s, t) := (Saving(saving), work as real);
    assert Cost(s, t, islands, 1) == SelectedCost(t, islands, s[0]);
    assert Cost(s, t, islands, 2) == Cost(s, t, islands, 1);
    assert Cost(s, t, islands, 3) == Cost(s, t, islands, 2) + SelectedCost(t, islands, s[2]);
  }

  lemma KeptIsCandidate(scenarios: seq<Scenario>, at: nat, best: Thresholds, cost: real)
    requires Kept(scenarios, Scan(WorkCandidates(scenarios)), 7 * |WorkCandidates(scenarios)|, at, best, Found(cost))
    ensures best.work in WorkCandidates(scenarios) && best.islands in ISLAND_THRESHOLDS
    ensures cost == CostOf(scenarios, best)
    ensures var costs := CandidateCosts(scenarios); cost == costs[Choice(costs, |costs|)]
  {
    hide WorkCandidates;
    hide CostOf;
  }

  lemma CandidateOrigin(scenarios: seq<Scenario>, w: nat)
    requires w in WorkCandidates(scenarios)
    ensures w == 0 || w == NEVER || exists i :: 0 <= i < |scenarios| && scenarios[i].Work() == w
  {
    var all := [0, NEVER] + Works(scenarios);
    SortedUniqueIsSet(all);
    hide SortedUnique;
    var k :| 0 <= k < |all| && all[k] == w;
    if k >= 2 {
      assert scenarios[k - 2].Work() == w;
    }
  }

  lemma SavingWorks(saving: real)
    ensures forall w: nat :: w in WorkCandidates(Saving(saving)) ==> w in {0, 4, 8, 0xFFFF_FFFF_FFFF_FFFF}
    ensures {0, 4, 8, 0xFFFF_FFFF_FFFF_FFFF} <= set w | w in WorkCandidates(Saving(saving))
  {
    hide WorkCandidates;
    var s := Saving(saving);
    WorkCandidatesAre(s);
    assert s[0] in s && s[0].Work() == 4 && s[2] in s && s[2].Work() == 8;
    forall w: nat | w in WorkCandidates(s) ensures w in {0, 4, 8, 0xFFFF_FFFF_FFFF_FFFF} {
      CandidateOrigin(s, w);
    }
  }

  /** The least cost is that of pooling both; a candidate gives up neither saving, one, or both. */
  lemma SavingLeast(saving: real)
    requires saving > 0.0
    ensures Least(CandidateCosts(Saving(saving))) == 2.0
    ensures forall c :: c in CandidateCosts(Saving(saving)) ==> c in {2.0, 2.0 + saving, 2.0 + 2.0 * saving}
  {
    var s := Saving(saving);
    var (scan, costs) := (Scan(WorkCandidates(s)), CandidateCosts(s));
    SavingWorks(saving);
    assert 0 in set w | w in WorkCandidates(s) by {
      assert 0 in {0, 4, 8, 0xFFFF_FFFF_FFFF_FFFF};
    }
    var works := WorkCandidates(s);
    hide WorkCandidates;
    hide Least;
    forall c | c in costs ensures c in {2.0, 2.0 + saving, 2.0 + 2.0 * saving} {
      var j :| 0 <= j < |costs| && costs[j] == c;
      SavingCost(saving, scan[j].work, scan[j].islands);
    }
    var j := InScan(works, 0, ISLAND_THRESHOLDS[0]);
    SavingCost(saving, 0, 1);
    assert costs[j] == 2.0;
  }

  /** Where a search on these scenarios ends: no larger thresholds come within an epsilon. */
  lemma SavingEnd(saving: real, at: nat, best: Thresholds, cost: real, d: Thresholds)
    requires var s := Saving(saving); Kept(s, Scan(WorkCandidates(s)), 7 * |WorkCandidates(s)|, at, best, Found(cost))
    requires d.work in {0, 4, 8, 0xFFFF_FFFF_FFFF_FFFF} && d.islands in ISLAND_THRESHOLDS && Larger(d, best)
    ensures CostOf(Saving(saving), d) > cost + 0.000000000001
  {
    hide CostOf;
    var s := Saving(saving);
    SavingWorks(saving);
    assert d.work in set w | w in WorkCandidates(s);
    hide WorkCandidates;
    var j := InScan(WorkCandidates(s), d.work, d.islands);
    ChosenIsConservative(s, at, best, cost, d);
  }

  /**
   One epsilon is not a bound: while each saving is at most 10^-12, the search cannot end anywhere but at never
   pooling, and gives up both of them.
   */
  lemma TiesDrift(saving: real, at: nat, best: Thresholds, cost: real)
    requires 0.0 < saving <= 0.000000000001
    requires var s := Saving(saving); Kept(s, Scan(WorkCandidates(s)), 7 * |WorkCandidates(s)|, at, best, Found(cost))
    ensures best == Thresholds(0xFFFF_FFFF_FFFF_FFFF, 256) && cost == 2.0 + 2.0 * saving
    ensures CostOf(Saving(saving), Thresholds(0, 1)) == 2.0
    ensures WithinEpsilon(Saving(saving), cost) <==> 2.0 * saving <= 0.000000000001
  {
    hide CostOf;
    hide WithinEpsilon;
    hide CandidateCosts;
    var s := Saving(saving);
    KeptIsCandidate(s, at, best, cost);
    hide Kept;
    WithinEpsilonOfLeast(s, cost);
    SavingLeast(saving);
    SavingWorks(saving);
    hide Least;
    hide WorkCandidates;
    SavingCost(saving, 0, 1);
    SavingCost(saving, best.work, best.islands);
    var work := if best.work < 8 then 8 else 0xFFFF_FFFF_FFFF_FFFF;
    SavingCost(saving, work, 256);
    assert ISLAND_THRESHOLDS[6] == 256;
    if best != Thresholds(0xFFFF_FFFF_FFFF_FFFF, 256) {
      SavingEnd(saving, at, best, cost, Thresholds(work, 256));
    }
  }

  /** A saving above 10^-12 is never given up. */
  lemma SavingsAreKept(saving: real, at: nat, best: Thresholds, cost: real)
    requires saving > 0.000000000001
    requires var s := Saving(saving); Kept(s, Scan(WorkCandidates(s)), 7 * |WorkCandidates(s)|, at, best, Found(cost))
    ensures best == Thresholds(4, 256) && cost == 2.0
  {
    hide Least;
    hide CostOf;
    hide Settled;
    hide Choice;
    hide WorkCandidates;
    hide CandidateCosts;
    var s := Saving(saving);
    SavingLeast(saving);
    ApartSettles(CandidateCosts(s));
    SavingWorks(saving);
    KeptIsCandidate(s, at, best, cost);
    hide Kept;
    SavingCost(saving, best.work, best.islands);
    SavingCost(saving, 4, 256);
    assert ISLAND_THRESHOLDS[6] == 256;
    if best != Thresholds(4, 256) {
      SavingEnd(saving, at, best, cost, Thresholds(4, 256));
    }
  }

  // ---- islands decide ----

  /** Pooling is dearer on one island and cheaper on sixteen, at the same work. */
  const MIXED: seq<Scenario> := [
    Scenario(100, 1, 1.0, 2.0), Scenario(100, 1, 1.0, 2.0), Scenario(100, 16, 4.0, 1.0)]

  lemma MixedCost(work: nat, islands: nat)
    requires 1 <= islands
    ensures CostOf(MIXED, Thresholds(work, islands)) ==
      if work > 400 || islands > 16 then 5.0 else if islands == 1 then 3.0 else 2.0
  {
    var t := work as real;
    assert Cost(MIXED, t, islands, 1) == SelectedCost(t, islands, MIXED[0]);
    assert Cost(MIXED, t, islands, 2) == Cost(MIXED, t, islands, 1);
    assert Cost(MIXED, t, islands, 3) == Cost(MIXED, t, islands, 2) + SelectedCost(t, islands, MIXED[2]);
  }

  lemma MixedWorks()
    ensures forall w: nat :: w in WorkCandidates(MIXED) ==> w in {0, 400, 0xFFFF_FFFF_FFFF_FFFF}
    ensures 400 in WorkCandidates(MIXED)
  {
    hide WorkCandidates;
    WorkCandidatesAre(MIXED);
    assert MIXED[2] in MIXED && MIXED[2].Work() == 400;
    forall w: nat | w in WorkCandidates(MIXED) ensures w in {0, 400, 0xFFFF_FFFF_FFFF_FFFF} {
      CandidateOrigin(MIXED, w);
    }
  }

  /** Only an island threshold tells them apart, and the search ends at the largest that does. */
  lemma IslandsDecide(at: nat, best: Thresholds, cost: real)
    requires Kept(MIXED, Scan(WorkCandidates(MIXED)), 7 * |WorkCandidates(MIXED)|, at, best, Found(cost))
    ensures best == Thresholds(400, 16) && cost == 2.0
  {
    hide Least;
    hide CostOf;
    hide Settled;
    hide Choice;
    hide WorkCandidates;
    hide CandidateCosts;
    MixedWorks();
    MixedLeast();
    ApartSettles(CandidateCosts(MIXED));
    KeptIsCandidate(MIXED, at, best, cost);
    MixedCost(best.work, best.islands);
    MixedCost(400, 16);
    assert ISLAND_THRESHOLDS[4] == 16;
    if best != Thresholds(400, 16) {
      var j := InScan(WorkCandidates(MIXED), 400, 16);
      ChosenIsConservative(MIXED, at, best, cost, Thresholds(400, 16));
    }
  }

  lemma MixedLeast()
    ensures Least(CandidateCosts(MIXED)) == 2.0
    ensures forall c :: c in CandidateCosts(MIXED) ==> c in {2.0, 3.0, 5.0}
  {
    var (works, costs) := (WorkCandidates(MIXED), CandidateCosts(MIXED));
    MixedWorks();
    hide WorkCandidates;
    hide Least;
    forall c | c in costs ensures c in {2.0, 3.0, 5.0} {
      var j :| 0 <= j < |costs| && costs[j] == c;
      MixedCost(Scan(works)[j].work, Scan(works)[j].islands);
    }
    assert ISLAND_THRESHOLDS[4] == 16;
    var j := InScan(works, 400, 16);
    MixedCost(400, 16);
    assert costs[j] == 2.0;
  }
}
