/**
 The exact optimisation oracle over a box of integer vectors: an odometer visits every vector once,
 and the least cost among the feasible ones is the optimum over all integer vectors.
 */
module ExactOracle {
  import opened ContactGraph
  import opened Isotonic
  import opened RealFit
  import opened WeightedProjection
  import opened ChainSolver
  import opened WideInteger

  // ---- feasibility ----

  function Least(a: nat, b: nat): nat { if a < b then a else b }

  function Greatest(a: nat, b: nat): nat { if a < b then b else a }

  /** The contact orders its bodies by index, whichever way round it is stored. */
  ghost predicate Respects(values: seq<int>, c: Contact)
    requires c.first < |values| && c.second < |values|
  {
    values[Least(c.first, c.second)] <= values[Greatest(c.first, c.second)]
  }

  ghost predicate Feasible(values: seq<int>, contacts: seq<Contact>)
    requires InRange(|values|, contacts)
  {
    forall i :: 0 <= i < |contacts| ==> Respects(values, contacts[i])
  }

  /** Of two bodies in contact the one with the smaller index is not above the other, however the contact is stored. */
  lemma FeasibleEitherWay(values: seq<int>, contacts: seq<Contact>)
    requires InRange(|values|, contacts)
    ensures Feasible(values, contacts) <==>
      forall i, a: nat, b: nat :: 0 <= i < |contacts| && a < b < |values| && Joins(contacts[i], a, b) ==>
        values[a] <= values[b]
  {
    if Feasible(values, contacts) {
      forall i, a: nat, b: nat | 0 <= i < |contacts| && a < b < |values| && Joins(contacts[i], a, b)
        ensures values[a] <= values[b]
      {
        assert Respects(values, contacts[i]);
      }
    } else {
      var i :| 0 <= i < |contacts| && !Respects(values, contacts[i]);
      var c := contacts[i];
      assert Joins(c, c.first, c.second) && Joins(c, c.second, c.first);
    }
  }

  method IsFeasible(values: seq<int>, contacts: seq<Contact>) returns (ok: bool)
    requires InRange(|values|, contacts)
    ensures ok <==> Feasible(values, contacts)
  {
    for i := 0 to |contacts|
      invariant forall j :: 0 <= j < i ==> Respects(values, contacts[j])
    {
      var first := Least(contacts[i].first, contacts[i].second);
      var second := Greatest(contacts[i].first, contacts[i].second);
      if values[first] > values[second] { return false; }
    }
    return true;
  }

  method Objective(input: seq<int>, masses: seq<int>, output: seq<int>) returns (sum: int)
    requires |input| == |masses| == |output|
    ensures sum == Cost(input, masses, output)
  {
    sum := 0;
    for i := 0 to |input|
      invariant sum == CostTo(input, masses, output, i)
    {
      var delta := output[i] - input[i];
      sum := sum + masses[i] * delta * delta;
    }
  }

  // ---- clamping into the data range ----

  ghost predicate InBox(y: seq<int>, lo: int, hi: int) {
    forall i :: 0 <= i < |y| ==> lo <= y[i] <= hi
  }

  function Clamp(y: seq<int>, lo: int, hi: int): seq<int> {
    seq(|y|, i requires 0 <= i < |y| => if y[i] < lo then lo else if y[i] > hi then hi else y[i])
  }

  lemma SquareGrows(a: int, b: int)
    requires 0 <= a <= b
    ensures a * a <= b * b
  {
    WeakProducts(a, b, a);
    WeakProducts(a, b, b);
  }

  lemma SquareOfOpposite(a: int, b: int)
    requires b == -a
    ensures b * b == a * a
  {
  }

  lemma WeightedSquare(m: int, a: int)
    ensures m * a * a == m * (a * a)
  {
  }

  lemma WeightedGrows(m: int, p: int, q: int)
    requires m > 0 && p <= q
    ensures m * p <= m * q
  {
  }

  lemma NearerCostsLess(m: int, a: int, b: int)
    requires m > 0 && (0 <= a <= b || b <= a <= 0)
    ensures m * a * a <= m * b * b
  {
    if 0 <= a <= b {
      SquareGrows(a, b);
    } else {
      var (c, d) := (-a, -b);
      SquareGrows(c, d);
      SquareOfOpposite(a, c);
      SquareOfOpposite(b, d);
    }
    WeightedGrows(m, a * a, b * b);
    WeightedSquare(m, a);
    WeightedSquare(m, b);
  }

  lemma {:induction false} ClampingCostsNoMore(x: seq<int>, w: seq<int>, y: seq<int>, lo: int, hi: int, k: nat)
    requires |x| == |w| == |y| && Positive(w) && InBox(x, lo, hi) && lo <= hi && k <= |x|
    ensures CostTo(x, w, Clamp(y, lo, hi), k) <= CostTo(x, w, y, k)
  {
    if k > 0 {
      ClampingCostsNoMore(x, w, y, lo, hi, k - 1);
      NearerCostsLess(w[k - 1], Clamp(y, lo, hi)[k - 1] - x[k - 1], y[k - 1] - x[k - 1]);
    }
  }

  /** Pulling a feasible vector into the range of the data keeps it feasible and never raises its cost. */
  lemma ClampIsAsGood(x: seq<int>, w: seq<int>, y: seq<int>, contacts: seq<Contact>, lo: int, hi: int)
    requires |x| == |w| == |y| && Positive(w) && InBox(x, lo, hi) && lo <= hi
    requires InRange(|y|, contacts) && Feasible(y, contacts)
    ensures InBox(Clamp(y, lo, hi), lo, hi) && Feasible(Clamp(y, lo, hi), contacts)
    ensures Cost(x, w, Clamp(y, lo, hi)) <= Cost(x, w, y)
  {
    ClampingCostsNoMore(x, w, y, lo, hi, |x|);
    forall i | 0 <= i < |contacts| ensures Respects(Clamp(y, lo, hi), contacts[i]) {
      assert Respects(y, contacts[i]);
    }
  }

  // ---- the odometer ----

  function Power(base: nat, n: nat): nat {
    if n == 0 then 1 else base * Power(base, n - 1)
  }

  /** The k-th vector of the box, digit 0 turning fastest. */
  ghost function Reading(k: nat, n: nat, lo: int, base: nat): (c: seq<int>)
    requires base > 0
    ensures |c| == n
    decreases n
  {
    if n == 0 then [] else [lo + k % base] + Reading(k / base, n - 1, lo, base)
  }

  /** Which reading a vector is. */
  ghost function Position(c: seq<int>, lo: int, base: nat): int {
    if c == [] then 0 else (c[0] - lo) + base * Position(c[1..], lo, base)
  }

  lemma {:induction false} PositionIsInRange(c: seq<int>, lo: int, base: nat)
    requires base > 0 && InBox(c, lo, lo + base - 1)
    ensures 0 <= Position(c, lo, base) < Power(base, |c|)
  {
    if c != [] {
      PositionIsInRange(c[1..], lo, base);
      StrictProducts(Position(c[1..], lo, base), Power(base, |c| - 1), base);
    }
  }

  lemma DivideReading(d: int, p: int, base: int)
    requires base > 0 && 0 <= d < base && p >= 0
    ensures (d + base * p) / base == p && (d + base * p) % base == d
  {
    var k := d + base * p;
    assert k == base * (k / base) + k % base;
    StrictProducts(k / base, p, base);
    StrictProducts(p, k / base, base);
  }

  /** Reading and Position are inverse: every box vector is visited, and only once. */
  lemma {:induction false} ReadingAtPosition(c: seq<int>, lo: int, base: nat)
    requires base > 0 && InBox(c, lo, lo + base - 1)
    ensures Position(c, lo, base) >= 0 && Reading(Position(c, lo, base), |c|, lo, base) == c
  {
    PositionIsInRange(c, lo, base);
    if c != [] {
      ReadingAtPosition(c[1..], lo, base);
      DivideReading(c[0] - lo, Position(c[1..], lo, base), base);
    }
  }

  lemma {:induction false} PositionOfReading(k: nat, n: nat, lo: int, base: nat)
    requires base > 0 && k < Power(base, n)
    ensures InBox(Reading(k, n, lo, base), lo, lo + base - 1)
    ensures Position(Reading(k, n, lo, base), lo, base) == k
    decreases n
  {
    if n > 0 {
      var (q, c) := (Power(base, n - 1), Reading(k, n, lo, base));
      assert k == base * (k / base) + k % base;
      WeakProducts(q, k / base, base);
      PositionOfReading(k / base, n - 1, lo, base);
      assert c[1..] == Reading(k / base, n - 1, lo, base);
    }
  }

  /** Resetting the digits below `digit`, which are all at the top, and advancing `digit`. */
  function Carry(c: seq<int>, digit: nat, lo: int): seq<int>
    requires digit < |c|
  {
    seq(|c|, i requires 0 <= i < |c| => if i < digit then lo else if i == digit then c[i] + 1 else c[i])
  }

  lemma {:induction false} CarryAddsOne(c: seq<int>, digit: nat, lo: int, base: nat)
    requires digit < |c| && base > 0
    requires forall i :: 0 <= i < digit ==> c[i] == lo + base - 1
    ensures Position(Carry(c, digit, lo), lo, base) == Position(c, lo, base) + 1
    decreases digit
  {
    var next := Carry(c, digit, lo);
    if digit == 0 {
      assert next[1..] == c[1..];
    } else {
      CarryAddsOne(c[1..], digit - 1, lo, base);
      assert next[1..] == Carry(c[1..], digit - 1, lo);
      var p := Position(c[1..], lo, base);
      assert base * (p + 1) == base * p + base;
    }
  }

  lemma {:induction false} LastPosition(c: seq<int>, lo: int, base: nat)
    requires base > 0 && forall i :: 0 <= i < |c| ==> c[i] == lo + base - 1
    ensures Position(c, lo, base) == Power(base, |c|) - 1
  {
    if c != [] {
      LastPosition(c[1..], lo, base);
      assert base * (Power(base, |c| - 1) - 1) == base * Power(base, |c| - 1) - base;
    }
  }

  /** One turn of the odometer. */
  method Advance(candidate: array<int>, lo: int, hi: int) returns (wrapped: bool)
    requires lo <= hi && InBox(candidate[..], lo, hi)
    modifies candidate
    ensures wrapped ==> Position(old(candidate[..]), lo, hi - lo + 1) == Power(hi - lo + 1, candidate.Length) - 1
    ensures !wrapped ==> InBox(candidate[..], lo, hi)
    ensures !wrapped ==>
      Position(candidate[..], lo, hi - lo + 1) == Position(old(candidate[..]), lo, hi - lo + 1) + 1
  {
    ghost var before := candidate[..];
    var digit := 0;
    while digit < candidate.Length
      invariant 0 <= digit <= candidate.Length
      invariant forall i :: 0 <= i < digit ==> before[i] == hi && candidate[i] == lo
      invariant forall i :: digit <= i < candidate.Length ==> candidate[i] == before[i]
    {
      if candidate[digit] < hi {
        candidate[digit] := candidate[digit] + 1;
        assert candidate[..] == Carry(before, digit, lo);
        CarryAddsOne(before, digit, lo, hi - lo + 1);
        return false;
      }
      candidate[digit] := lo;
      digit := digit + 1;
    }
    LastPosition(before, lo, hi - lo + 1);
    return true;
  }

  function MinOf(x: seq<int>): (m: int)
    requires x != []
    ensures m in x && forall i :: 0 <= i < |x| ==> m <= x[i]
  {
    var n := |x| - 1;
    if n == 0 then x[0] else
    var m := MinOf(x[..n]);
    assert forall i :: 0 <= i < n ==> x[..n][i] == x[i];
    if x[n] < m then x[n] else m
  }

  function MaxOf(x: seq<int>): (m: int)
    requires x != []
    ensures m in x && forall i :: 0 <= i < |x| ==> x[i] <= m
  {
    var n := |x| - 1;
    if n == 0 then x[0] else
    var m := MaxOf(x[..n]);
    assert forall i :: 0 <= i < n ==> x[..n][i] == x[i];
    if x[n] > m then x[n] else m
  }

  method UnitObjective(input: seq<int>, output: seq<int>) returns (sum: int)
    requires |input| == |output|
    ensures sum == Cost(input, Ones(|input|), output)
  {
    sum := 0;
    for i := 0 to |input|
      invariant sum == CostTo(input, Ones(|input|), output, i)
    {
      var delta := output[i] - input[i];
      sum := sum + delta * delta;
    }
  }

  lemma {:induction false} CostIsNonnegative(x: seq<int>, w: seq<int>, y: seq<int>, k: nat)
    requires k <= |x| == |w| == |y| && Positive(w)
    ensures CostTo(x, w, y, k) >= 0
  {
    if k > 0 {
      CostIsNonnegative(x, w, y, k - 1);
      NearerCostsLess(w[k - 1], 0, y[k - 1] - x[k - 1]);
    }
  }

  /** `best` is the cost of the cheapest feasible vector visited, or -1 if none was feasible. */
  ghost predicate BestOf(x: seq<int>, contacts: seq<Contact>, visits: seq<seq<int>>, best: int)
    requires InRange(|x|, contacts)
  {
    && (forall j :: 0 <= j < |visits| ==> |visits[j]| == |x|)
    && (forall j :: 0 <= j < |visits| && Feasible(visits[j], contacts) ==>
      0 <= best <= Cost(x, Ones(|x|), visits[j]))
    && (best == -1
      || (exists j :: 0 <= j < |visits| && Feasible(visits[j], contacts) && best == Cost(x, Ones(|x|), visits[j])))
  }

  method Consider(input: seq<int>, contacts: seq<Contact>, candidate: seq<int>, best: int, ghost visits: seq<seq<int>>)
    returns (next: int)
    requires InRange(|input|, contacts) && |candidate| == |input|
    requires BestOf(input, contacts, visits, best)
    ensures BestOf(input, contacts, visits + [candidate], next)
  {
    hide Feasible;
    hide CostTo;
    next := best;
    ghost var after := visits + [candidate];
    assert forall j :: 0 <= j < |visits| ==> after[j] == visits[j];
    var ok := IsFeasible(candidate, contacts);
    if ok {
      var value := UnitObjective(input, candidate);
      CountWeighs(|input|);
      CostIsNonnegative(input, Ones(|input|), candidate, |input|);
      if best < 0 || value < best { next := value; }
      assert after[|visits|] == candidate;
    }
  }

  /** What an oracle may claim: feasible vectors cost at least `best`, and one costs exactly that. */
  ghost predicate IsOptimum(x: seq<int>, w: seq<int>, contacts: seq<Contact>, best: int)
    requires |x| == |w| && InRange(|x|, contacts)
  {
    && (exists y: seq<int> :: |y| == |x| && Feasible(y, contacts) && Cost(x, w, y) == best)
    && (forall y: seq<int> :: |y| == |x| && Feasible(y, contacts) ==> best <= Cost(x, w, y))
  }

  /** The visits are the readings of the odometer, in order. */
  ghost predicate Readings(visits: seq<seq<int>>, n: nat, lo: int, base: nat)
    requires base > 0
  {
    forall k: nat :: k < |visits| ==> visits[k] == Reading(k, n, lo, base)
  }

  lemma VisitsCoverBox(visits: seq<seq<int>>, y: seq<int>, lo: int, hi: int)
    requires lo <= hi && InBox(y, lo, hi)
    requires Readings(visits, |y|, lo, hi - lo + 1) && |visits| == Power(hi - lo + 1, |y|)
    ensures exists j :: 0 <= j < |visits| && visits[j] == y
  {
    PositionIsInRange(y, lo, hi - lo + 1);
    ReadingAtPosition(y, lo, hi - lo + 1);
    assert visits[Position(y, lo, hi - lo + 1)] == y;
  }

  lemma BoxOptimumIsOptimum(x: seq<int>, contacts: seq<Contact>, lo: int, hi: int, visits: seq<seq<int>>, best: int)
    requires InRange(|x|, contacts) && lo <= hi && InBox(x, lo, hi)
    requires Readings(visits, |x|, lo, hi - lo + 1) && |visits| == Power(hi - lo + 1, |x|)
    requires BestOf(x, contacts, visits, best)
    ensures IsOptimum(x, Ones(|x|), contacts, best)
  {
    hide Reading;
    hide CostTo;
    hide Readings;
    var w := Ones(|x|);
    CountWeighs(|x|);
    forall y: seq<int> | |y| == |x| && Feasible(y, contacts) ensures 0 <= best <= Cost(x, w, y) {
      ClampIsAsGood(x, w, y, contacts, lo, hi);
      VisitsCoverBox(visits, Clamp(y, lo, hi), lo, hi);
    }
    var flat := seq(|x|, _ => lo);
    assert Feasible(flat, contacts);
    assert 0 <= best <= Cost(x, w, flat);
  }

  /** The least cost among the feasible vectors of a box, and it is attained there. */
  ghost predicate IsBoxOptimum(x: seq<int>, contacts: seq<Contact>, lo: int, hi: int, best: int)
    requires InRange(|x|, contacts)
  {
    && (exists y :: |y| == |x| && InBox(y, lo, hi) && Feasible(y, contacts) && Cost(x, Ones(|x|), y) == best)
    && (forall y :: |y| == |x| && InBox(y, lo, hi) && Feasible(y, contacts) ==> 0 <= best <= Cost(x, Ones(|x|), y))
  }

  /** Having considered every reading, the search knows the box; constant vectors keep it from being empty. */
  lemma VisitsDecideBox(x: seq<int>, contacts: seq<Contact>, lo: int, hi: int, visits: seq<seq<int>>, best: int)
    requires InRange(|x|, contacts) && lo <= hi
    requires Readings(visits, |x|, lo, hi - lo + 1) && |visits| == Power(hi - lo + 1, |x|)
    requires BestOf(x, contacts, visits, best)
    ensures IsBoxOptimum(x, contacts, lo, hi, best)
  {
    hide Reading;
    hide CostTo;
    hide Readings;
    forall y: seq<int> | |y| == |x| && InBox(y, lo, hi) && Feasible(y, contacts)
      ensures 0 <= best <= Cost(x, Ones(|x|), y)
    {
      VisitsCoverBox(visits, y, lo, hi);
    }
    var flat := seq(|x|, _ => lo);
    assert Feasible(flat, contacts) && InBox(flat, lo, hi);
    assert 0 <= best;
    var j :| 0 <= j < |visits| && Feasible(visits[j], contacts) && best == Cost(x, Ones(|x|), visits[j]);
    VisitIsInBox(visits, |x|, lo, hi, j);
  }

  lemma VisitIsInBox(visits: seq<seq<int>>, n: nat, lo: int, hi: int, j: nat)
    requires lo <= hi && Readings(visits, n, lo, hi - lo + 1) && j < |visits| == Power(hi - lo + 1, n)
    ensures InBox(visits[j], lo, hi)
  {
    PositionOfReading(j, n, lo, hi - lo + 1);
  }

  /** Turns the odometer until it wraps, considering every reading. */
  method SearchBox(input: seq<int>, contacts: seq<Contact>, minimum: int, maximum: int)
    returns (best: int, ghost visits: seq<seq<int>>)
    requires minimum <= maximum && InRange(|input|, contacts)
    ensures IsBoxOptimum(input, contacts, minimum, maximum, best)
    ensures BestOf(input, contacts, visits, best)
    ensures Readings(visits, |input|, minimum, maximum - minimum + 1)
    ensures |visits| == Power(maximum - minimum + 1, |input|)
  {
    hide IsBoxOptimum;
    hide Feasible;
    hide CostTo;
    hide Reading;
    hide Power;
    ghost var (n, base) := (|input|, maximum - minimum + 1);
    var candidate := new int[|input|](_ => minimum);
    best, visits := -1, [];
    FirstReading(candidate[..], minimum, base);
    while true
      invariant InBox(candidate[..], minimum, maximum)
      invariant |visits| == Position(candidate[..], minimum, base) < Power(base, n)
      invariant Readings(visits, n, minimum, base)
      invariant BestOf(input, contacts, visits, best)
      decreases Power(base, n) - |visits|
    {
      ReadingAtPosition(candidate[..], minimum, base);
      best := Consider(input, contacts, candidate[..], best, visits);
      visits := visits + [candidate[..]];
      var wrapped := Advance(candidate, minimum, maximum);
      if wrapped { break; }
      PositionIsInRange(candidate[..], minimum, base);
    }
    VisitsDecideBox(input, contacts, minimum, maximum, visits, best);
  }

  /** Searches the box spanned by the data; the answer is the optimum over all integer vectors. */
  method BruteForce(input: seq<int>, contacts: seq<Contact>) returns (best: int, ghost visits: seq<seq<int>>)
    requires input != [] && InRange(|input|, contacts)
    ensures IsOptimum(input, Ones(|input|), contacts, best)
    ensures Readings(visits, |input|, MinOf(input), MaxOf(input) - MinOf(input) + 1)
    ensures |visits| == Power(MaxOf(input) - MinOf(input) + 1, |input|)
  {
    hide IsBoxOptimum;
    hide BestOf;
    hide IsOptimum;
    hide Readings;
    var (minimum, maximum) := (MinOf(input), MaxOf(input));
    best, visits := SearchBox(input, contacts, minimum, maximum);
    BoxOptimumIsOptimum(input, contacts, minimum, maximum, visits, best);
  }

  lemma {:induction false} FirstReading(c: seq<int>, lo: int, base: nat)
    requires base > 0 && forall i :: 0 <= i < |c| ==> c[i] == lo
    ensures Position(c, lo, base) == 0 < Power(base, |c|)
  {
    PositionIsInRange(c, lo, base);
    if c != [] {
      FirstReading(c[1..], lo, base);
    }
  }

  /** Every vector of the box is visited at exactly one turn. */
  lemma VisitedExactlyOnce(c: seq<int>, lo: int, base: nat)
    requires base > 0 && InBox(c, lo, lo + base - 1)
    ensures exists k: nat :: k < Power(base, |c|) && Reading(k, |c|, lo, base) == c
    ensures forall k: nat :: k < Power(base, |c|) && Reading(k, |c|, lo, base) == c ==> k == Position(c, lo, base)
  {
    PositionIsInRange(c, lo, base);
    ReadingAtPosition(c, lo, base);
    forall k: nat | k < Power(base, |c|) && Reading(k, |c|, lo, base) == c ensures k == Position(c, lo, base) {
      PositionOfReading(k, |c|, lo, base);
    }
  }
}
