/**
 The two recursive oracles of the weighted fuzzer, both writing one shared candidate: the monotone
 enumeration prunes to nondecreasing vectors, the filtered enumeration visits the whole box and
 tests the contacts at the leaves.  On a totally ordered chain they agree with each other, with
 the optimum over all integers and with the solver.
 */
module WeightedOracle {
  import opened ContactGraph
  import opened Isotonic
  import opened RealFit
  import opened WeightedProjection
  import opened ExactOracle

  /** 2^120 */
  const SENTINEL := 0x1_000000_000000_000000_000000_000000

  /** Improving `old` by every vector of a family gives `next`. */
  ghost predicate LeastCost(x: seq<int>, w: seq<int>, family: iset<seq<int>>, before: int, next: int)
    requires |x| == |w|
  {
    && next <= before
    && (forall y :: y in family && |y| == |x| ==> next <= Cost(x, w, y))
    && (next == before || exists y :: y in family && |y| == |x| && Cost(x, w, y) == next)
  }

  lemma LeastCostOfUnion(x: seq<int>, w: seq<int>, f: iset<seq<int>>, g: iset<seq<int>>, a: int, b: int, c: int)
    requires |x| == |w| && LeastCost(x, w, f, a, b) && LeastCost(x, w, g, b, c)
    ensures LeastCost(x, w, f + g, a, c)
  {
    hide CostTo;
  }

  // ---- the monotone enumeration ----

  ghost predicate RisesFrom(y: seq<int>, index: nat, least: int, most: int) {
    && (forall i :: index <= i < |y| ==> least <= y[i] <= most)
    && (forall i, j :: index <= i <= j < |y| ==> y[i] <= y[j])
  }

  ghost function RisingFamily(prefix: seq<int>, n: nat, least: int, most: int): iset<seq<int>> {
    iset y: seq<int> | |y| == n && prefix <= y && RisesFrom(y, |prefix|, least, most)
  }

  /** The part of the family whose next entry is below `value`. */
  ghost function RisingBelow(prefix: seq<int>, n: nat, least: int, most: int, value: int): iset<seq<int>>
    requires |prefix| < n
  {
    iset y: seq<int> | y in RisingFamily(prefix, n, least, most) && y[|prefix|] < value
  }

  lemma RisingSplit(prefix: seq<int>, n: nat, least: int, most: int, value: int)
    requires |prefix| < n && least <= value <= most
    ensures RisingBelow(prefix, n, least, most, value + 1)
      == RisingBelow(prefix, n, least, most, value) + RisingFamily(prefix + [value], n, value, most)
  {
    var (all, below, next) := (RisingBelow(prefix, n, least, most, value + 1),
      RisingBelow(prefix, n, least, most, value), RisingFamily(prefix + [value], n, value, most));
    forall y: seq<int> | y in all ensures y in below + next {
      if y[|prefix|] == value {
        assert prefix + [value] <= y;
      }
    }
    forall y: seq<int> | y in next ensures y in all {
      assert y[|prefix|] == value && prefix <= y;
    }
  }

  method EnumerateMonotone(index: nat, minimum: int, maximum: int, candidate: array<int>,
                           input: seq<int>, masses: seq<int>, best: int)
    returns (next: int)
    requires index <= candidate.Length == |input| == |masses|
    modifies candidate
    ensures candidate[..index] == old(candidate[..index])
    ensures LeastCost(input, masses, RisingFamily(old(candidate[..index]), |input|, minimum, maximum), best, next)
    decreases |input| - index
  {
    hide CostTo;
    hide RisesFrom;
    ghost var (n, prefix) := (|input|, candidate[..index]);
    next := best;
    if index == candidate.Length {
      LeafFamily(prefix, minimum, maximum);
      assert candidate[..] == prefix;
      var cost := Objective(input, masses, candidate[..]);
      if cost < next { next := cost; }
      return;
    }
    var value := minimum;
    EmptyBelow(prefix, n, minimum, maximum);
    while value <= maximum
      invariant value >= minimum
      invariant candidate[..index] == prefix
      invariant LeastCost(input, masses, RisingBelow(prefix, n, minimum, maximum, value), best, next)
      decreases maximum - value
    {
      candidate[index] := value;
      assert candidate[..index + 1] == prefix + [value];
      ghost var before := next;
      next := EnumerateMonotone(index + 1, value, maximum, candidate, input, masses, next);
      assert candidate[..index] == candidate[..index + 1][..index];
      RisingSplit(prefix, n, minimum, maximum, value);
      LeastCostOfUnion(input, masses, RisingBelow(prefix, n, minimum, maximum, value),
        RisingFamily(prefix + [value], n, value, maximum), best, before, next);
      value := value + 1;
    }
    AllBelow(prefix, n, minimum, maximum, value);
  }

  lemma LeafFamily(prefix: seq<int>, least: int, most: int)
    ensures RisingFamily(prefix, |prefix|, least, most) == iset{prefix}
  {
    forall y: seq<int> | |y| == |prefix| && prefix <= y ensures y == prefix {
    }
  }

  lemma EmptyBelow(prefix: seq<int>, n: nat, least: int, most: int)
    requires |prefix| < n
    ensures RisingBelow(prefix, n, least, most, least) == iset{}
  {
  }

  lemma AllBelow(prefix: seq<int>, n: nat, least: int, most: int, value: int)
    requires |prefix| < n && value > most
    ensures RisingBelow(prefix, n, least, most, value) == RisingFamily(prefix, n, least, most)
  {
  }

  // ---- the filtered enumeration ----

  /** The leaf test: contacts are taken as stored. */
  ghost predicate FeasibleAsStored(values: seq<int>, contacts: seq<Contact>)
    requires InRange(|values|, contacts)
  {
    forall i :: 0 <= i < |contacts| ==> values[contacts[i].first] <= values[contacts[i].second]
  }

  method IsFeasibleAsStored(values: seq<int>, contacts: seq<Contact>) returns (ok: bool)
    requires InRange(|values|, contacts)
    ensures ok <==> FeasibleAsStored(values, contacts)
  {
    for i := 0 to |contacts|
      invariant forall j :: 0 <= j < i ==> values[contacts[j].first] <= values[contacts[j].second]
    {
      if values[contacts[i].first] > values[contacts[i].second] { return false; }
    }
    return true;
  }

  ghost function BoxFamily(prefix: seq<int>, n: nat, least: int, most: int, contacts: seq<Contact>): iset<seq<int>>
    requires InRange(n, contacts)
  {
    iset y: seq<int> | |y| == n && prefix <= y && InBox(y[|prefix|..], least, most) && FeasibleAsStored(y, contacts)
  }

  ghost function BoxBelow(prefix: seq<int>, n: nat, least: int, most: int, contacts: seq<Contact>,
      value: int): iset<seq<int>>
    requires InRange(n, contacts) && |prefix| < n
  {
    iset y: seq<int> | y in BoxFamily(prefix, n, least, most, contacts) && y[|prefix|] < value
  }

  lemma BoxSplit(prefix: seq<int>, n: nat, least: int, most: int, contacts: seq<Contact>, value: int)
    requires InRange(n, contacts) && |prefix| < n && least <= value <= most
    ensures BoxBelow(prefix, n, least, most, contacts, value + 1)
      == BoxBelow(prefix, n, least, most, contacts, value) + BoxFamily(prefix + [value], n, least, most, contacts)
  {
    hide FeasibleAsStored;
    var (all, below, next) := (BoxBelow(prefix, n, least, most, contacts, value + 1),
      BoxBelow(prefix, n, least, most, contacts, value), BoxFamily(prefix + [value], n, least, most, contacts));
    var k := |prefix|;
    forall y: seq<int> | y in all ensures y in below + next {
      if y[k] == value {
        assert prefix + [value] <= y;
        var (tail, rest) := (y[k + 1..], y[k..]);
        forall i | 0 <= i < |tail| ensures least <= tail[i] <= most {
          assert tail[i] == rest[i + 1];
        }
      }
    }
    forall y: seq<int> | y in next ensures y in all {
      assert y[k] == value && prefix <= y;
      forall i | 0 <= i < |y[k..]| ensures least <= y[k..][i] <= most {
        if i > 0 {
          assert y[k..][i] == y[k + 1..][i - 1];
        }
      }
    }
  }

  method EnumerateFeasible(index: nat, minimum: int, maximum: int, candidate: array<int>,
                           input: seq<int>, masses: seq<int>, contacts: seq<Contact>, best: int)
    returns (next: int)
    requires index <= candidate.Length == |input| == |masses| && InRange(|input|, contacts)
    modifies candidate
    ensures candidate[..index] == old(candidate[..index])
    ensures LeastCost(input, masses,
      BoxFamily(old(candidate[..index]), |input|, minimum, maximum, contacts), best, next)
    decreases |input| - index
  {
    hide CostTo;
    hide InBox;
    ghost var (n, prefix) := (|input|, candidate[..index]);
    next := best;
    if index == candidate.Length {
      assert candidate[..] == prefix;
      BoxLeaf(prefix, minimum, maximum, contacts);
      var ok := IsFeasibleAsStored(candidate[..], contacts);
      if ok {
        var cost := Objective(input, masses, candidate[..]);
        if cost < next { next := cost; }
      }
      return;
    }
    var value := minimum;
    BoxEnds(prefix, n, minimum, maximum, contacts, value);
    while value <= maximum
      invariant value >= minimum
      invariant candidate[..index] == prefix
      invariant LeastCost(input, masses, BoxBelow(prefix, n, minimum, maximum, contacts, value), best, next)
      decreases maximum - value
    {
      candidate[index] := value;
      assert candidate[..index + 1] == prefix + [value];
      ghost var before := next;
      next := EnumerateFeasible(index + 1, minimum, maximum, candidate, input, masses, contacts, next);
      assert candidate[..index] == candidate[..index + 1][..index];
      BoxSplit(prefix, n, minimum, maximum, contacts, value);
      LeastCostOfUnion(input, masses, BoxBelow(prefix, n, minimum, maximum, contacts, value),
        BoxFamily(prefix + [value], n, minimum, maximum, contacts), best, before, next);
      value := value + 1;
    }
    BoxEnds(prefix, n, minimum, maximum, contacts, value);
  }

  lemma BoxLeaf(prefix: seq<int>, least: int, most: int, contacts: seq<Contact>)
    requires InRange(|prefix|, contacts)
    ensures BoxFamily(prefix, |prefix|, least, most, contacts)
      == if FeasibleAsStored(prefix, contacts) then iset{prefix} else iset{}
  {
    forall y: seq<int> | |y| == |prefix| && prefix <= y ensures y == prefix {
    }
  }

  lemma BoxEnds(prefix: seq<int>, n: nat, least: int, most: int, contacts: seq<Contact>, value: int)
    requires |prefix| < n && InRange(n, contacts)
    ensures value <= least ==> BoxBelow(prefix, n, least, most, contacts, value) == iset{}
    ensures value > most ==> BoxBelow(prefix, n, least, most, contacts, value) == BoxFamily(prefix, n, least, most, contacts)
  {
    forall y: seq<int> | y in BoxFamily(prefix, n, least, most, contacts) ensures least <= y[|prefix|] <= most {
      assert y[|prefix|..][0] == y[|prefix|];
    }
  }

  // ---- what the oracles return ----

  function Smaller(a: int, b: int): int { if a < b then a else b }

  ghost predicate Canonicalised(contacts: seq<Contact>) {
    forall i :: 0 <= i < |contacts| ==> contacts[i].first <= contacts[i].second
  }

  /** Contacts stored the smaller body first order the same vectors either way. */
  lemma StoredIsFeasible(y: seq<int>, contacts: seq<Contact>)
    requires InRange(|y|, contacts) && Canonicalised(contacts)
    ensures FeasibleAsStored(y, contacts) <==> Feasible(y, contacts)
  {
    if Feasible(y, contacts) {
      forall i | 0 <= i < |contacts| ensures y[contacts[i].first] <= y[contacts[i].second] {
        assert Respects(y, contacts[i]);
      }
    }
  }

  lemma BoxFamilyIs(y: seq<int>, n: nat, lo: int, hi: int, contacts: seq<Contact>)
    requires InRange(n, contacts) && Canonicalised(contacts)
    ensures y in BoxFamily([], n, lo, hi, contacts) <==> |y| == n && InBox(y, lo, hi) && Feasible(y, contacts)
  {
    assert y[0..] == y;
    if |y| == n {
      StoredIsFeasible(y, contacts);
    }
  }

  /** Any bracket that contains the data makes the filtered oracle exact over all integer vectors. */
  lemma FilteredOracleIsExact(x: seq<int>, w: seq<int>, contacts: seq<Contact>, lo: int, hi: int, best: int,
      optimum: int)
    requires |x| == |w| && Positive(w) && InRange(|x|, contacts) && Canonicalised(contacts)
    requires InBox(x, lo, hi) && lo <= hi && IsOptimum(x, w, contacts, optimum)
    requires LeastCost(x, w, BoxFamily([], |x|, lo, hi, contacts), SENTINEL, best)
    ensures best == Smaller(SENTINEL, optimum)
  {
    hide CostTo;
    hide BoxFamily;
    hide Feasible;
    hide InBox;
    var y :| |y| == |x| && Feasible(y, contacts) && Cost(x, w, y) == optimum;
    ClampIsAsGood(x, w, y, contacts, lo, hi);
    BoxFamilyIs(Clamp(y, lo, hi), |x|, lo, hi, contacts);
    forall v | v in BoxFamily([], |x|, lo, hi, contacts) ensures |v| == |x| && optimum <= Cost(x, w, v) {
      BoxFamilyIs(v, |x|, lo, hi, contacts);
    }
  }

  /** Every adjacent pair, plus the pair of ends. */
  function ChainContacts(n: nat): seq<Contact> {
    seq(if n == 0 then 0 else n - 1, i requires 0 <= i => Contact(i, i + 1)) + if n > 2 then [Contact(0, n - 1)] else []
  }

  lemma ChainContactsOrder(y: seq<int>)
    ensures InRange(|y|, ChainContacts(|y|)) && Canonicalised(ChainContacts(|y|))
    ensures Feasible(y, ChainContacts(|y|)) <==> Nondecreasing(y)
  {
    var contacts := ChainContacts(|y|);
    if Feasible(y, contacts) {
      forall i | 0 < i < |y| ensures y[i - 1] <= y[i] {
        assert contacts[i - 1] == Contact(i - 1, i) && Respects(y, contacts[i - 1]);
      }
      forall i, j | 0 <= i <= j < |y| ensures y[i] <= y[j] {
        AdjacentOrderIsOrder(y, i, j);
      }
    }
  }

  lemma {:induction false} AdjacentOrderIsOrder(y: seq<int>, i: nat, j: nat)
    requires i <= j < |y| && forall k :: 0 < k < |y| ==> y[k - 1] <= y[k]
    ensures y[i] <= y[j]
    decreases j
  {
    if i < j {
      AdjacentOrderIsOrder(y, i, j - 1);
    }
  }

  /** The solver's projection is the optimum of the chain. */
  lemma ProjectionIsChainOptimum(x: seq<int>, w: seq<int>)
    requires |x| == |w| && Positive(w)
    ensures InRange(|x|, ChainContacts(|x|))
    ensures IsOptimum(x, w, ChainContacts(|x|), Cost(x, w, PavProjection(x, w)))
  {
    hide CostTo;
    PavIsOptimal(x, w);
    ChainContactsOrder(PavProjection(x, w));
    forall y: seq<int> | |y| == |x| && Feasible(y, ChainContacts(|x|))
      ensures Cost(x, w, PavProjection(x, w)) <= Cost(x, w, y)
    {
      ChainContactsOrder(y);
    }
  }

  /** The pruned oracle equals the solver's cost, capped by the sentinel. */
  lemma MonotoneOracleIsSolver(x: seq<int>, w: seq<int>, lo: int, hi: int, best: int)
    requires |x| == |w| && Positive(w) && InBox(x, lo, hi)
    requires LeastCost(x, w, RisingFamily([], |x|, lo, hi), SENTINEL, best)
    ensures best == Smaller(SENTINEL, Cost(x, w, PavProjection(x, w)))
  {
    hide CostTo;
    var z := PavProjection(x, w);
    PavIsOptimal(x, w);
    PavStaysInRange(x, w, lo, hi);
    assert z in RisingFamily([], |x|, lo, hi);
    forall y | y in RisingFamily([], |x|, lo, hi) ensures Cost(x, w, z) <= Cost(x, w, y) {
      assert Nondecreasing(y);
    }
  }

  /** On the chain contacts both oracles and the solver agree. */
  lemma OraclesAndSolverAgree(x: seq<int>, w: seq<int>, lo: int, hi: int, pruned: int, filtered: int)
    requires |x| == |w| && Positive(w) && InBox(x, lo, hi) && lo <= hi && InRange(|x|, ChainContacts(|x|))
    requires LeastCost(x, w, RisingFamily([], |x|, lo, hi), SENTINEL, pruned)
    requires LeastCost(x, w, BoxFamily([], |x|, lo, hi, ChainContacts(|x|)), SENTINEL, filtered)
    ensures pruned == filtered == Smaller(SENTINEL, Cost(x, w, PavProjection(x, w)))
  {
    MonotoneOracleIsSolver(x, w, lo, hi, pruned);
    ProjectionIsChainOptimum(x, w);
    ChainContactsOrder(x);
    FilteredOracleIsExact(x, w, ChainContacts(|x|), lo, hi, filtered, Cost(x, w, PavProjection(x, w)));
  }

  /** At most 2^16 bodies with 32-bit masses and values within 2^34 of zero. */
  ghost predicate Ordinary(input: seq<int>, masses: seq<int>) {
    && |input| == |masses| <= 0x1_0000
    && (forall i :: 0 <= i < |masses| ==> 0 < masses[i] <= 0xFFFF_FFFF)
    && forall i :: 0 <= i < |input| ==> -0x4_0000_0000 <= input[i] <= 0x4_0000_0000
  }

  lemma ProductWithin(a: int, b: int, c: int, d: int)
    requires 0 <= a <= c && 0 <= b <= d
    ensures 0 <= a * b <= c * d
  {
    assert a * b <= c * b && c * b <= c * d;
  }

  lemma SquareWithin(delta: int, bound: int)
    requires -bound <= delta <= bound
    ensures 0 <= delta * delta <= bound * bound
  {
    var size := if delta < 0 then -delta else delta;
    ProductWithin(size, size, bound, bound);
    assert delta * delta == size * size;
  }

  lemma TermIsSmall(mass: int, delta: int)
    requires 0 < mass <= 0xFFFF_FFFF && -0x8_0000_0000 <= delta <= 0x8_0000_0000
    ensures 0 <= mass * delta * delta <= 0xFFFF_FFFF * 0x40_0000_0000_0000_0000
  {
    SquareWithin(delta, 0x8_0000_0000);
    ProductWithin(mass, delta * delta, 0xFFFF_FFFF, 0x40_0000_0000_0000_0000);
    assert mass * delta * delta == mass * (delta * delta);
  }

  lemma {:induction false} OrdinaryCostIsSmall(x: seq<int>, w: seq<int>, y: seq<int>, k: nat)
    requires Ordinary(x, w) && Ordinary(y, w) && k <= |x|
    ensures 0 <= CostTo(x, w, y, k) <= k * (0xFFFF_FFFF * 0x40_0000_0000_0000_0000)
  {
    if k > 0 {
      OrdinaryCostIsSmall(x, w, y, k - 1);
      TermIsSmall(w[k - 1], y[k - 1] - x[k - 1]);
    }
  }

  /** On ordinary inputs the sentinel lies beyond the solver's cost, so the cap never shows. */
  lemma OrdinaryIsBelowSentinel(input: seq<int>, masses: seq<int>)
    requires Ordinary(input, masses)
    ensures Cost(input, masses, PavProjection(input, masses)) < SENTINEL
  {
    PavStaysInRange(input, masses, -0x4_0000_0000, 0x4_0000_0000);
    OrdinaryCostIsSmall(input, masses, PavProjection(input, masses), |input|);
  }

  /** The fuzzer's run: a bracket one wider than the data and zero, then the pruned search. */
  method RunMonotoneOracle(input: seq<int>, masses: seq<int>) returns (best: int)
    requires |input| == |masses| && Positive(masses)
    ensures best == Smaller(0x1_000000_000000_000000_000000_000000, Cost(input, masses, PavProjection(input, masses)))
    ensures Ordinary(input, masses) ==> best == Cost(input, masses, PavProjection(input, masses))
  {
    var (minimum, maximum) := (0, 0);
    for i := 0 to |input|
      invariant minimum <= 0 <= maximum && InBox(input[..i], minimum, maximum)
    {
      assert forall j :: 0 <= j < i ==> input[..i + 1][j] == input[..i][j];
      if input[i] < minimum { minimum := input[i]; }
      if maximum < input[i] { maximum := input[i]; }
    }
    assert input[..|input|] == input;
    var candidate := new int[|input|];
    assert candidate[..0] == [];
    best := EnumerateMonotone(0, minimum - 1, maximum + 1, candidate, input, masses, SENTINEL);
    MonotoneOracleIsSolver(input, masses, minimum - 1, maximum + 1, best);
    if Ordinary(input, masses) {
      OrdinaryIsBelowSentinel(input, masses);
    }
  }
}
