/**
 The offline oracle: the cheapest sequence of snapshot encodings under transition costs and a bound
 on delta runs, by dynamic programming over (encoding, run length), with saturating 64-bit costs.
 The specification quantifies over every legal sequence.
 */
module OfflineOracle {

  type Encoding = e: nat | e < 3 witness 0

  const FULL: Encoding := 0
  const DELTA: Encoding := 1

  type Word = n: nat | n < 0x1_0000_0000_0000_0000 witness 0

  const WRAP: nat := 0x1_0000_0000_0000_0000
  const INFINITE: Word := 0x3FFF_FFFF_FFFF_FFFF

  /** One value for each encoding. */
  datatype Three<T> = Three(full: T, delta: T, persistent: T) {
    function At(e: Encoding): T {
      if e == FULL then full else if e == DELTA then delta else persistent
    }
  }

  datatype FrameCost = FrameCost(cost: Three<Word>, allowed: Three<bool>)

  /** Cost of going from one encoding to the next. */
  datatype Transitions = Transitions(fromFull: Three<Word>, fromDelta: Three<Word>, fromPersistent: Three<Word>) {
    function At(e: Encoding): Three<Word> {
      if e == FULL then fromFull else if e == DELTA then fromDelta else fromPersistent
    }
  }

  datatype Config = Config(transition: Transitions, maxDeltaRun: nat)

  // ---- saturating addition ----

  /** As written: the subtraction wraps when the right operand exceeds the saturation value. */
  function AddSaturated(l: Word, r: Word): Word {
    if l >= (WRAP + INFINITE - r) % WRAP then INFINITE else (l + r) % WRAP
  }

  function Capped(n: nat): Word {
    if n < INFINITE then n else INFINITE
  }

  /** It saturates properly exactly when the right operand does, or the left one is beyond the wrapped threshold. */
  lemma AddSaturatedIsCappedIff(l: Word, r: Word)
    ensures AddSaturated(l, r) == Capped(l + r) <==> r <= INFINITE || l + r >= WRAP + INFINITE
  {
    if r <= INFINITE {
      assert (WRAP + INFINITE - r) % WRAP == INFINITE - r;
    } else {
      assert (WRAP + INFINITE - r) % WRAP == WRAP + INFINITE - r;
    }
  }

  lemma AddToNothing(r: Word)
    ensures AddSaturated(0, r) == r
  {
    AddSaturatedIsCappedIff(0, r);
  }

  lemma AddSaturatedMonotone(l: Word, m: Word, r: Word)
    requires l <= m && r <= INFINITE
    ensures AddSaturated(l, r) <= AddSaturated(m, r)
  {
    AddSaturatedIsCappedIff(l, r);
    AddSaturatedIsCappedIff(m, r);
  }

  // ---- sequences ----

  ghost function TrailingRun(s: seq<Encoding>): (n: nat)
    ensures n <= |s|
  {
    if s == [] || s[|s| - 1] != DELTA then 0 else TrailingRun(s[..|s| - 1]) + 1
  }

  /** Only allowed encodings, and no delta run longer than the bound. */
  ghost predicate Legal(frames: seq<FrameCost>, config: Config, s: seq<Encoding>) {
    |s| <= |frames| && (s != [] ==>
      && Legal(frames, config, s[..|s| - 1])
      && frames[|s| - 1].allowed.At(s[|s| - 1]) && TrailingRun(s) <= config.maxDeltaRun)
  }

  ghost predicate DeltasOnly(s: seq<Encoding>, i: nat, j: nat)
    requires i <= j <= |s|
  {
    forall k :: i <= k < j ==> s[k] == 1
  }

  predicate Permits(frame: FrameCost, e: Encoding) {
    match e
    case 0 => frame.allowed.full
    case 1 => frame.allowed.delta
    case _ => frame.allowed.persistent
  }

  lemma {:induction false} TrailingRunIsLongest(s: seq<Encoding>)
    ensures var n := TrailingRun(s);
      DeltasOnly(s, |s| - n, |s|) && (n < |s| ==> s[|s| - n - 1] != 1)
  {
    if s != [] && s[|s| - 1] == DELTA {
      TrailingRunIsLongest(s[..|s| - 1]);
    }
  }

  /** Legal are the sequences of permitted encodings in which no stretch of deltas is longer than the bound. */
  lemma {:induction false} LegalIff(frames: seq<FrameCost>, config: Config, s: seq<Encoding>)
    ensures Legal(frames, config, s) <==>
      && |s| <= |frames| && (forall i :: 0 <= i < |s| ==> Permits(frames[i], s[i]))
      && (forall i, j :: 0 <= i <= j <= |s| && DeltasOnly(s, i, j) ==> j - i <= config.maxDeltaRun)
  {
    if s != [] {
      var (last, n) := (|s| - 1, TrailingRun(s));
      var before := s[..last];
      LegalIff(frames, config, before);
      TrailingRunIsLongest(s);
      forall i, j | 0 <= i <= j <= last ensures DeltasOnly(before, i, j) <==> DeltasOnly(s, i, j) {
        assert forall k :: i <= k < j ==> before[k] == s[k];
      }
      forall i | 0 <= i <= |s| && DeltasOnly(s, i, |s|) ensures |s| - i <= n {
      }
    }
  }

  function StepCost(frame: FrameCost, config: Config, cost: Word, previous: Encoding, e: Encoding): Word {
    AddSaturated(AddSaturated(cost, config.transition.At(previous).At(e)), frame.cost.At(e))
  }

  ghost function Total(frames: seq<FrameCost>, config: Config, s: seq<Encoding>): Word
    requires 0 < |s| <= |frames|
  {
    var last := |s| - 1;
    if last == 0 then frames[0].cost.At(s[0])
    else StepCost(frames[last], config, Total(frames, config, s[..last]), s[last - 1], s[last])
  }

  /** The same sum without any cap. */
  ghost function TrueTotal(frames: seq<FrameCost>, config: Config, s: seq<Encoding>): nat
    requires 0 < |s| <= |frames|
  {
    var last := |s| - 1;
    if last == 0 then frames[0].cost.At(s[0])
    else TrueTotal(frames, config, s[..last]) + config.transition.At(s[last - 1]).At(s[last]) + frames[last].cost.At(s[last])
  }

  ghost predicate Modest(frames: seq<FrameCost>, config: Config) {
    && (forall i, e: Encoding :: 0 <= i < |frames| ==> frames[i].cost.At(e) <= INFINITE)
    && (forall p: Encoding, e: Encoding :: config.transition.At(p).At(e) <= INFINITE)
  }

  /** With operands up to the saturation value, the saturated total is the true one, capped. */
  lemma {:induction false} TotalIsCapped(frames: seq<FrameCost>, config: Config, s: seq<Encoding>)
    requires 0 < |s| <= |frames| && Modest(frames, config)
    ensures Total(frames, config, s) == Capped(TrueTotal(frames, config, s))
  {
    var last := |s| - 1;
    if last > 0 {
      TotalIsCapped(frames, config, s[..last]);
      var t := config.transition.At(s[last - 1]).At(s[last]);
      AddSaturatedIsCappedIff(Total(frames, config, s[..last]), t);
      AddSaturatedIsCappedIff(AddSaturated(Total(frames, config, s[..last]), t), frames[last].cost.At(s[last]));
    }
  }

  /** Costs a trace can have in practice: at most 2^16 frames, every cost at most 2^40, some eighteen minutes in nanoseconds. */
  ghost predicate Ordinary(frames: seq<FrameCost>, config: Config) {
    && |frames| <= 0x1_0000
    && (forall i, e: Encoding :: 0 <= i < |frames| ==> frames[i].cost.At(e) <= 0x100_0000_0000)
    && (forall p: Encoding, e: Encoding :: config.transition.At(p).At(e) <= 0x100_0000_0000)
  }

  lemma OrdinaryIsModest(frames: seq<FrameCost>, config: Config)
    requires Ordinary(frames, config)
    ensures Modest(frames, config) && PointersSuffice(frames, config)
  {
  }

  lemma {:induction false} OrdinaryTotalIsSmall(frames: seq<FrameCost>, config: Config, s: seq<Encoding>)
    requires 0 < |s| <= |frames| && Ordinary(frames, config)
    ensures TrueTotal(frames, config, s) <= 0x200_0000_0000 * |s|
  {
    if |s| > 1 {
      OrdinaryTotalIsSmall(frames, config, s[..|s| - 1]);
    }
  }

  /** Ordinary totals are never cut off. */
  lemma OrdinaryTotalIsTrue(frames: seq<FrameCost>, config: Config, s: seq<Encoding>)
    requires 0 < |s| <= |frames| && Ordinary(frames, config)
    ensures Total(frames, config, s) == TrueTotal(frames, config, s) < INFINITE
  {
    OrdinaryIsModest(frames, config);
    TotalIsCapped(frames, config, s);
    OrdinaryTotalIsSmall(frames, config, s);
  }

  // ---- table rows ----

  datatype State = Unreached | Reached(cost: Word, previousEncoding: Encoding, previousRun: nat)

  type Row = seq<seq<State>>

  ghost predicate Shaped(row: Row, runs: nat) {
    |row| == 3 && forall e :: 0 <= e < 3 ==> |row[e]| == runs
  }

  function RunAfter(previous: Encoding, run: nat, e: Encoding): nat {
    if e != DELTA then 0 else if previous == DELTA then run + 1 else 1
  }

  /** A stored predecessor run is a 16-bit word. */
  function Narrow(run: nat): nat {
    run % 0x1_0000
  }

  /** The transition is open: the predecessor is reached, the encoding allowed and the run within the bound. */
  predicate Open(before: Row, frame: FrameCost, config: Config, p: Encoding, q: nat, e: Encoding)
    requires |before| == 3 && q < |before[p]|
  {
    before[p][q].Reached? && frame.allowed.At(e) && RunAfter(p, q, e) <= config.maxDeltaRun
  }

  /** One innermost iteration: relax the cell the transition leads to. */
  function Relax(before: Row, row: Row, frame: FrameCost, config: Config, p: Encoding, q: nat, e: Encoding): (r: Row)
    requires Shaped(before, config.maxDeltaRun + 1) && Shaped(row, config.maxDeltaRun + 1) && q <= config.maxDeltaRun
    ensures Shaped(r, config.maxDeltaRun + 1)
  {
    if !Open(before, frame, config, p, q, e) then row
    else
      var run := RunAfter(p, q, e);
      var candidate := StepCost(frame, config, before[p][q].cost, p, e);
      if row[e][run].Unreached? || candidate < row[e][run].cost then
        row[e := row[e][run := Reached(candidate, p, Narrow(q))]]
      else row
  }

  /** No transition to the cell that comes before this one in loop order is as cheap. */
  ghost predicate Foremost(before: Row, row: Row, frame: FrameCost, config: Config, e: Encoding, run: nat,
      p: Encoding, q: nat)
    requires Shaped(before, config.maxDeltaRun + 1) && Shaped(row, config.maxDeltaRun + 1) && run <= config.maxDeltaRun
    requires row[e][run].Reached?
  {
    forall a: Encoding, b: nat ::
      && b <= config.maxDeltaRun && (a < p || (a == p && b < q))
      && Open(before, frame, config, a, b, e) && RunAfter(a, b, e) == run
      ==> row[e][run].cost < StepCost(frame, config, before[a][b].cost, a, e)
  }

  /** Every reached cell comes, at its cost, from the predecessor it points to, the first that is so cheap. */
  ghost predicate Backed(before: Row, row: Row, frame: FrameCost, config: Config, e: Encoding, run: nat)
    requires Shaped(before, config.maxDeltaRun + 1) && Shaped(row, config.maxDeltaRun + 1) && run <= config.maxDeltaRun
  {
    row[e][run].Reached? ==>
      var (p, q) := (row[e][run].previousEncoding, row[e][run].previousRun);
      && q <= config.maxDeltaRun && Open(before, frame, config, p, q, e) && RunAfter(p, q, e) == run
      && row[e][run].cost == StepCost(frame, config, before[p][q].cost, p, e)
      && Foremost(before, row, frame, config, e, run, p, q)
  }

  /** The cell a transition leads to is at least as cheap. */
  ghost predicate Relaxed(before: Row, row: Row, frame: FrameCost, config: Config, p: Encoding, q: nat, e: Encoding)
    requires Shaped(before, config.maxDeltaRun + 1) && Shaped(row, config.maxDeltaRun + 1) && q <= config.maxDeltaRun
  {
    Open(before, frame, config, p, q, e) ==>
      var cell := row[e][RunAfter(p, q, e)];
      cell.Reached? && cell.cost <= StepCost(frame, config, before[p][q].cost, p, e)
  }

  /** The transition (p, q, e) comes before (p', q', e') in loop order. */
  predicate Earlier(p: nat, q: nat, e: nat, p': nat, q': nat, e': nat) {
    p < p' || (p == p' && (q < q' || (q == q' && e < e')))
  }

  ghost predicate RelaxedBefore(before: Row, row: Row, frame: FrameCost, config: Config, p': nat, q': nat, e': nat) {
    && Shaped(before, config.maxDeltaRun + 1) && Shaped(row, config.maxDeltaRun + 1)
    && (forall e: Encoding, run: nat :: run <= config.maxDeltaRun ==> Backed(before, row, frame, config, e, run))
    && (forall p: Encoding, q: nat, e: Encoding :: q <= config.maxDeltaRun && Earlier(p, q, e, p', q', e') ==>
      Relaxed(before, row, frame, config, p, q, e))
  }

  /** Every reached run fits a back pointer. */
  ghost predicate RunsFit(row: Row, config: Config)
    requires Shaped(row, config.maxDeltaRun + 1)
  {
    forall e: Encoding, q: nat :: q <= config.maxDeltaRun && row[e][q].Reached? ==> q < 0x1_0000
  }

  lemma RelaxBacks(before: Row, row: Row, frame: FrameCost, config: Config, p: Encoding, q: nat, e: Encoding,
      a: Encoding, b: nat)
    requires RelaxedBefore(before, row, frame, config, p, q, e) && q <= config.maxDeltaRun && RunsFit(before, config)
    requires b <= config.maxDeltaRun
    ensures Backed(before, Relax(before, row, frame, config, p, q, e), frame, config, a, b)
  {
    hide AddSaturated;
    hide StepCost;
    var now: Row := Relax(before, row, frame, config, p, q, e);
    assert Backed(before, row, frame, config, a, b);
    if now != row && a == e && b == RunAfter(p, q, e) {
      forall x: Encoding, y: nat | y <= config.maxDeltaRun && (x < p || (x == p && y < q))
        && Open(before, frame, config, x, y, e) && RunAfter(x, y, e) == b
        ensures now[a][b].cost < StepCost(frame, config, before[x][y].cost, x, e)
      {
        assert Earlier(x, y, e, p, q, e);
        assert Relaxed(before, row, frame, config, x, y, e);
      }
    }
  }

  lemma RelaxOne(before: Row, row: Row, frame: FrameCost, config: Config, p: Encoding, q: nat, e: Encoding)
    requires RelaxedBefore(before, row, frame, config, p, q, e) && q <= config.maxDeltaRun && RunsFit(before, config)
    ensures RelaxedBefore(before, Relax(before, row, frame, config, p, q, e), frame, config, p, q, e + 1)
  {
    var now := Relax(before, row, frame, config, p, q, e);
    forall a: Encoding, b: nat | b <= config.maxDeltaRun ensures Backed(before, now, frame, config, a, b) {
      assert Backed(before, row, frame, config, a, b);
      RelaxBacks(before, row, frame, config, p, q, e, a, b);
    }
    forall a: Encoding, b: nat, c: Encoding | b <= config.maxDeltaRun && Earlier(a, b, c, p, q, e + 1)
      ensures Relaxed(before, now, frame, config, a, b, c)
    {
      if Earlier(a, b, c, p, q, e) {
        assert Relaxed(before, row, frame, config, a, b, c);
      }
    }
  }

  /** A row of the right shape whose back pointers, right or wrong, stay within the table. */
  ghost predicate Linked(row: Row, config: Config) {
    && Shaped(row, config.maxDeltaRun + 1)
    && forall e: Encoding, run: nat :: run <= config.maxDeltaRun && row[e][run].Reached? ==>
      row[e][run].previousRun <= config.maxDeltaRun
  }

  lemma RelaxLinks(before: Row, row: Row, frame: FrameCost, config: Config, p: Encoding, q: nat, e: Encoding)
    requires Shaped(before, config.maxDeltaRun + 1) && Linked(row, config) && q <= config.maxDeltaRun
    ensures Linked(Relax(before, row, frame, config, p, q, e), config)
  {
    assert Narrow(q) <= q;
    hide Open;
    hide StepCost;
    hide Narrow;
  }

  method RelaxRow(before: Row, frame: FrameCost, config: Config) returns (row: Row)
    requires Shaped(before, config.maxDeltaRun + 1)
    ensures Linked(row, config)
    ensures RunsFit(before, config) ==> RelaxedBefore(before, row, frame, config, 3, 0, 0)
  {
    var runs := config.maxDeltaRun + 1;
    row := seq(3, _ => seq(runs, _ => Unreached));
    ghost var fit := RunsFit(before, config);
    NothingRelaxed(before, row, frame, config);
    hide RelaxedBefore;
    hide Linked;
    hide RunsFit;
    for p := 0 to 3
      invariant Linked(row, config) && (fit ==> RelaxedBefore(before, row, frame, config, p, 0, 0))
    {
      for q := 0 to runs
        invariant Linked(row, config) && (fit ==> RelaxedBefore(before, row, frame, config, p, q, 0))
      {
        for e := 0 to 3
          invariant Linked(row, config) && (fit ==> RelaxedBefore(before, row, frame, config, p, q, e))
        {
          LinkedIsShaped(row, config);
          RelaxLinks(before, row, frame, config, p, q, e);
          if fit {
            RelaxOne(before, row, frame, config, p, q, e);
          }
          row := Relax(before, row, frame, config, p, q, e);
        }
        if fit {
          NextRun(before, row, frame, config, p, q);
        }
      }
      if fit {
        NextEncoding(before, row, frame, config, p);
      }
    }
  }

  lemma LinkedIsShaped(row: Row, config: Config)
    requires Linked(row, config)
    ensures Shaped(row, config.maxDeltaRun + 1)
  {
  }

  lemma NothingRelaxed(before: Row, row: Row, frame: FrameCost, config: Config)
    requires Shaped(before, config.maxDeltaRun + 1)
    requires row == seq(3, _ => seq(config.maxDeltaRun + 1, _ => Unreached))
    ensures Linked(row, config) && RelaxedBefore(before, row, frame, config, 0, 0, 0)
  {
  }

  lemma NextRun(before: Row, row: Row, frame: FrameCost, config: Config, p: nat, q: nat)
    requires RelaxedBefore(before, row, frame, config, p, q, 3)
    ensures RelaxedBefore(before, row, frame, config, p, q + 1, 0)
  {
    forall a: Encoding, b: nat, c: Encoding | b <= config.maxDeltaRun && Earlier(a, b, c, p, q + 1, 0)
      ensures Relaxed(before, row, frame, config, a, b, c)
    {
      assert Earlier(a, b, c, p, q, 3);
    }
  }

  lemma NextEncoding(before: Row, row: Row, frame: FrameCost, config: Config, p: nat)
    requires RelaxedBefore(before, row, frame, config, p, config.maxDeltaRun + 1, 0)
    ensures RelaxedBefore(before, row, frame, config, p + 1, 0, 0)
  {
    forall a: Encoding, b: nat, c: Encoding | b <= config.maxDeltaRun && Earlier(a, b, c, p + 1, 0, 0)
      ensures Relaxed(before, row, frame, config, a, b, c)
    {
      assert Earlier(a, b, c, p, config.maxDeltaRun + 1, 0);
    }
  }

  // ---- the table ----

  ghost function FirstState(frame: FrameCost, e: Encoding, run: nat): State {
    if frame.allowed.At(e) && run == RunAfter(FULL, 0, e) then Reached(frame.cost.At(e), FULL, 0) else Unreached
  }

  ghost predicate First(row: Row, frame: FrameCost, config: Config) {
    && Shaped(row, config.maxDeltaRun + 1)
    && forall e: Encoding, run: nat :: run <= config.maxDeltaRun ==> row[e][run] == FirstState(frame, e, run)
  }

  method FirstRow(frame: FrameCost, config: Config) returns (row: Row)
    requires 0 < config.maxDeltaRun
    ensures First(row, frame, config) && Linked(row, config)
  {
    var runs := config.maxDeltaRun + 1;
    row := seq(3, _ => seq(runs, _ => Unreached));
    for e := 0 to 3
      invariant Shaped(row, runs)
      invariant forall a: Encoding, run: nat :: run <= config.maxDeltaRun ==>
        row[a][run] == (if a < e then FirstState(frame, a, run) else Unreached)
    {
      if frame.allowed.At(e) {
        var run := if e == DELTA then 1 else 0;
        row := row[e := row[e][run := Reached(frame.cost.At(e), FULL, 0)]];
      }
    }
  }

  ghost predicate Table(rows: seq<Row>, frames: seq<FrameCost>, config: Config) {
    && |rows| <= |frames|
    && (rows != [] ==> First(rows[0], frames[0], config))
    && (forall i :: 0 <= i < |rows| ==> Shaped(rows[i], config.maxDeltaRun + 1))
    && (forall i :: 0 < i < |rows| ==> RelaxedBefore(rows[i - 1], rows[i], frames[i], config, 3, 0, 0))
  }

  /** Nothing is missed: every legal sequence ends in a reached cell that costs no more than it does. */
  lemma {:induction false} TableIsComplete(rows: seq<Row>, frames: seq<FrameCost>, config: Config, s: seq<Encoding>)
    requires Table(rows, frames, config) && Modest(frames, config)
    requires Legal(frames, config, s) && 0 < |s| <= |rows|
    ensures TrailingRun(s) <= config.maxDeltaRun
    ensures var cell := rows[|s| - 1][s[|s| - 1]][TrailingRun(s)];
      cell.Reached? && cell.cost <= Total(frames, config, s)
  {
    var last := |s| - 1;
    if last == 0 {
      assert s[..0] == [];
    } else {
      var (before, p, e) := (s[..last], s[last - 1], s[last]);
      TableIsComplete(rows, frames, config, before);
      var q := TrailingRun(before);
      assert RunAfter(p, q, e) == TrailingRun(s);
      assert Relaxed(rows[last - 1], rows[last], frames[last], config, p, q, e) by {
        assert Earlier(p, q, e, 3, 0, 0);
      }
      StepCostMonotone(frames, config, last, rows[last - 1][p][q].cost, Total(frames, config, before), p, e);
    }
  }

  lemma StepCostMonotone(frames: seq<FrameCost>, config: Config, i: nat, c: Word, d: Word, p: Encoding, e: Encoding)
    requires Modest(frames, config) && i < |frames| && c <= d
    ensures StepCost(frames[i], config, c, p, e) <= StepCost(frames[i], config, d, p, e)
  {
    var t := config.transition.At(p).At(e);
    AddSaturatedMonotone(c, d, t);
    AddSaturatedMonotone(AddSaturated(c, t), AddSaturated(d, t), frames[i].cost.At(e));
  }

  /** The sequence the back pointers spell. */
  ghost function Path(rows: seq<Row>, frames: seq<FrameCost>, config: Config, i: nat, e: Encoding,
      run: nat): (s: seq<Encoding>)
    requires Table(rows, frames, config) && i < |rows| && run <= config.maxDeltaRun && rows[i][e][run].Reached?
    ensures |s| == i + 1 && s[i] == e
    decreases i
  {
    if i == 0 then [e]
    else
      var cell := rows[i][e][run];
      assert Backed(rows[i - 1], rows[i], frames[i], config, e, run);
      Path(rows, frames, config, i - 1, cell.previousEncoding, cell.previousRun) + [e]
  }

  /** Nothing is invented: a reached cell's path is legal, ends in its run and costs what the cell says. */
  lemma {:induction false} TableIsSound(rows: seq<Row>, frames: seq<FrameCost>, config: Config, i: nat,
      e: Encoding, run: nat)
    requires Table(rows, frames, config) && i < |rows| && run <= config.maxDeltaRun && rows[i][e][run].Reached?
    ensures var s := Path(rows, frames, config, i, e, run);
      Legal(frames, config, s) && TrailingRun(s) == run && Total(frames, config, s) == rows[i][e][run].cost
    decreases i
  {
    var s := Path(rows, frames, config, i, e, run);
    if i == 0 {
      assert s[..0] == [];
    } else {
      assert Backed(rows[i - 1], rows[i], frames[i], config, e, run);
      var (p, q) := (rows[i][e][run].previousEncoding, rows[i][e][run].previousRun);
      TableIsSound(rows, frames, config, i - 1, p, q);
      assert s[..i] == Path(rows, frames, config, i - 1, p, q);
    }
  }

  // ---- which of the cheapest sequences ----

  /** Read from the end, the first difference in encoding or run is in favour of the first sequence. */
  ghost predicate Preferred(s: seq<Encoding>, t: seq<Encoding>)
    requires |s| == |t|
  {
    s == [] ||
      var last := |s| - 1;
      var (q, r) := (TrailingRun(s), TrailingRun(t));
      s[last] < t[last] || (s[last] == t[last] && (q < r || (q == r && Preferred(s[..last], t[..last]))))
  }

  /** Of two different sequences only one is preferred. */
  lemma {:induction false} PreferredIsOrder(s: seq<Encoding>, t: seq<Encoding>)
    requires |s| == |t|
    ensures Preferred(s, t) || Preferred(t, s)
    ensures Preferred(s, t) && Preferred(t, s) ==> s == t
  {
    if s != [] {
      var last := |s| - 1;
      PreferredIsOrder(s[..last], t[..last]);
      assert s == s[..last] + [s[last]] && t == t[..last] + [t[last]];
    }
  }

  lemma AddSaturatedInjective(l: Word, m: Word, r: Word)
    requires AddSaturated(l, r) == AddSaturated(m, r) < INFINITE && r <= INFINITE
    ensures l == m < INFINITE
  {
    AddSaturatedIsCappedIff(l, r);
    AddSaturatedIsCappedIff(m, r);
  }

  lemma StepCostInjective(frames: seq<FrameCost>, config: Config, i: nat, c: Word, d: Word, p: Encoding, e: Encoding)
    requires Modest(frames, config) && i < |frames|
    requires StepCost(frames[i], config, c, p, e) == StepCost(frames[i], config, d, p, e) < INFINITE
    ensures c == d < INFINITE
  {
    var t := config.transition.At(p).At(e);
    AddSaturatedInjective(AddSaturated(c, t), AddSaturated(d, t), frames[i].cost.At(e));
    AddSaturatedInjective(c, d, t);
  }

  /** Of all legal sequences that end in a cell at its cost the back pointers spell the preferred one. */
  lemma {:induction false} PathIsPreferred(rows: seq<Row>, frames: seq<FrameCost>, config: Config, i: nat,
      e: Encoding, run: nat, s: seq<Encoding>)
    requires Table(rows, frames, config) && Modest(frames, config)
    requires i < |rows| && run <= config.maxDeltaRun && rows[i][e][run].Reached?
    requires Legal(frames, config, s) && |s| == i + 1 && s[i] == e && TrailingRun(s) == run
    requires Total(frames, config, s) == rows[i][e][run].cost < INFINITE
    ensures Preferred(Path(rows, frames, config, i, e, run), s)
    decreases i
  {
    hide Backed;
    hide RelaxedBefore;
    hide StepCost;
    hide Legal;
    TableIsSound(rows, frames, config, i, e, run);
    if i > 0 {
      PredecessorIsAsCheap(rows, frames, config, i, e, run, s);
      var (p, q) := (rows[i][e][run].previousEncoding, rows[i][e][run].previousRun);
      var before := s[..i];
      var path := Path(rows, frames, config, i - 1, p, q);
      assert Path(rows, frames, config, i, e, run)[..i] == path;
      TableIsSound(rows, frames, config, i - 1, p, q);
      if before[i - 1] == p && TrailingRun(before) == q {
        StepCostInjective(frames, config, i, rows[i - 1][p][q].cost, Total(frames, config, before), p, e);
        PathIsPreferred(rows, frames, config, i - 1, p, q, before);
      }
    }
  }

  /** The cell before the last of such a sequence is as cheap a predecessor as the one pointed to, and not before it. */
  lemma PredecessorIsAsCheap(rows: seq<Row>, frames: seq<FrameCost>, config: Config, i: nat,
      e: Encoding, run: nat, s: seq<Encoding>)
    requires Table(rows, frames, config) && Modest(frames, config)
    requires 0 < i < |rows| && run <= config.maxDeltaRun && rows[i][e][run].Reached?
    requires Legal(frames, config, s) && |s| == i + 1 && s[i] == e && TrailingRun(s) == run
    requires Total(frames, config, s) == rows[i][e][run].cost < INFINITE
    ensures var (a, b) := (s[i - 1], TrailingRun(s[..i]));
      var (p, q) := (rows[i][e][run].previousEncoding, rows[i][e][run].previousRun);
      && q <= config.maxDeltaRun && rows[i - 1][p][q].Reached? && !(a < p || (a == p && b < q))
      && StepCost(frames[i], config, rows[i - 1][p][q].cost, p, e) == rows[i][e][run].cost
      && rows[i][e][run].cost == StepCost(frames[i], config, Total(frames, config, s[..i]), a, e)
      && Legal(frames, config, s[..i])
  {
    hide AddSaturated;
    hide StepCost;
    var before := s[..i];
    var (a, b) := (before[i - 1], TrailingRun(before));
    TableIsComplete(rows, frames, config, before);
    assert RunAfter(a, b, e) == run;
    assert Backed(rows[i - 1], rows[i], frames[i], config, e, run);
    assert Relaxed(rows[i - 1], rows[i], frames[i], config, a, b, e) by {
      assert Earlier(a, b, e, 3, 0, 0);
    }
    StepCostMonotone(frames, config, i, rows[i - 1][a][b].cost, Total(frames, config, before), a, e);
  }

  // ---- the solver ----

  datatype Outcome = Solved(total: Word, sequence: seq<Encoding>) | InvalidRun | Infeasible

  ghost predicate Cheapest(last: Row, config: Config, best: Word, be: Encoding, br: nat, e': nat, q': nat)
    requires Shaped(last, config.maxDeltaRun + 1)
  {
    && br <= config.maxDeltaRun && best <= INFINITE
    && (best < INFINITE ==> last[be][br].Reached? && last[be][br].cost == best)
    && (forall e: Encoding, q: nat :: q <= config.maxDeltaRun && (e < e' || (e == e' && q < q')) && last[e][q].Reached? ==>
      best <= last[e][q].cost)
    && (forall e: Encoding, q: nat :: q <= config.maxDeltaRun && (e < be || (e == be && q < br)) && last[e][q].Reached? ==>
      best < last[e][q].cost)
    && (be < e' || (be == e' && br < q') || best == INFINITE)
  }

  method PickBest(last: Row, config: Config) returns (best: Word, be: Encoding, br: nat)
    requires Shaped(last, config.maxDeltaRun + 1)
    ensures Cheapest(last, config, best, be, br, 3, 0)
  {
    best, be, br := INFINITE, FULL, 0;
    for e := 0 to 3
      invariant Cheapest(last, config, best, be, br, e, 0)
    {
      for run := 0 to config.maxDeltaRun + 1
        invariant Cheapest(last, config, best, be, br, e, run)
      {
        if last[e][run].Reached? && last[e][run].cost < best {
          best, be, br := last[e][run].cost, e, run;
        }
      }
    }
  }

  ghost predicate AllLinked(rows: seq<Row>, config: Config) {
    forall i :: 0 <= i < |rows| ==> Linked(rows[i], config)
  }

  /** Backtracking has a true path before it and what it emitted behind it. */
  ghost predicate OnPath(rows: seq<Row>, frames: seq<FrameCost>, config: Config, frame: nat, e: Encoding, run: nat,
      be: Encoding, br: nat, tail: seq<Encoding>)
  {
    && Table(rows, frames, config) && frame < |rows| && run <= config.maxDeltaRun && br <= config.maxDeltaRun
    && rows[frame][e][run].Reached? && rows[|rows| - 1][be][br].Reached?
    && Path(rows, frames, config, frame, e, run) + tail == Path(rows, frames, config, |rows| - 1, be, br)
  }

  lemma OnPathBefore(rows: seq<Row>, frames: seq<FrameCost>, config: Config, frame: nat, e: Encoding, run: nat,
      be: Encoding, br: nat, tail: seq<Encoding>)
    requires OnPath(rows, frames, config, frame, e, run, be, br, tail) && frame > 0
    ensures var cell := rows[frame][e][run];
      OnPath(rows, frames, config, frame - 1, cell.previousEncoding, cell.previousRun, be, br, [e] + tail)
  {
    var cell := rows[frame][e][run];
    assert Backed(rows[frame - 1], rows[frame], frames[frame], config, e, run);
    var before := Path(rows, frames, config, frame - 1, cell.previousEncoding, cell.previousRun);
    assert (before + [e]) + tail == before + ([e] + tail);
  }

  /** Follows the back pointers; a cell that was never reached still holds its initial ones. */
  method Backtrack(rows: seq<Row>, ghost frames: seq<FrameCost>, ghost config: Config, be: Encoding, br: nat)
    returns (sequence: seq<Encoding>)
    requires rows != [] && AllLinked(rows, config) && br <= config.maxDeltaRun && rows[|rows| - 1][be][br].Reached?
    ensures |sequence| == |rows|
    ensures Table(rows, frames, config) ==> sequence == Path(rows, frames, config, |rows| - 1, be, br)
  {
    var frame: nat := |rows| - 1;
    var e: Encoding := be;
    var run: nat := br;
    sequence := [e];
    ghost var tail := [];
    while frame > 0
      invariant frame < |rows| && run <= config.maxDeltaRun
      invariant |sequence| == |rows| - frame && sequence == [e] + tail
      invariant Table(rows, frames, config) ==> OnPath(rows, frames, config, frame, e, run, be, br, tail)
    {
      if Table(rows, frames, config) {
        OnPathBefore(rows, frames, config, frame, e, run, be, br, tail);
      }
      assert Linked(rows[frame], config);
      var state := rows[frame][e][run];
      tail := sequence;
      e, run := match state { case Unreached => FULL case Reached(_, p, _) => p },
        match state { case Unreached => 0 case Reached(_, _, q) => q };
      sequence := [e] + sequence;
      frame := frame - 1;
    }
  }

  /** Delta runs are bounded by the configuration or by the trace: one of them must fit a 16-bit word. */
  predicate PointersSuffice(frames: seq<FrameCost>, config: Config) {
    config.maxDeltaRun < 0x1_0000 || |frames| <= 0x1_0000
  }

  lemma RunIsNoLongerThanTrace(rows: seq<Row>, frames: seq<FrameCost>, config: Config, i: nat, e: Encoding, run: nat)
    requires Table(rows, frames, config) && i < |rows| && run <= config.maxDeltaRun && rows[i][e][run].Reached?
    ensures run <= i + 1
  {
    TableIsSound(rows, frames, config, i, e, run);
  }

  method BuildTable(frames: seq<FrameCost>, config: Config) returns (rows: seq<Row>)
    requires frames != [] && 0 < config.maxDeltaRun
    ensures AllLinked(rows, config) && |rows| == |frames|
    ensures PointersSuffice(frames, config) ==> Table(rows, frames, config)
  {
    var first := FirstRow(frames[0], config);
    rows := [first];
    hide RelaxedBefore;
    for i := 1 to |frames|
      invariant AllLinked(rows, config) && |rows| == i
      invariant PointersSuffice(frames, config) ==> Table(rows, frames, config)
    {
      var above: Row := rows[i - 1];
      assert Linked(above, config);
      if PointersSuffice(frames, config) {
        RunsFitUpTo(rows, frames, config, i - 1);
      }
      var row := RelaxRow(above, frames[i], config);
      rows := rows + [row];
    }
  }

  lemma RunsFitUpTo(rows: seq<Row>, frames: seq<FrameCost>, config: Config, i: nat)
    requires Table(rows, frames, config) && i < |rows| && i + 1 < |frames| && PointersSuffice(frames, config)
    ensures RunsFit(rows[i], config)
  {
    forall e: Encoding, q: nat | q <= config.maxDeltaRun && rows[i][e][q].Reached? ensures q < 0x1_0000 {
      RunIsNoLongerThanTrace(rows, frames, config, i, e, q);
    }
  }

  /** No legal sequence over the whole trace has a smaller true cost. */
  ghost predicate NoneCheaper(frames: seq<FrameCost>, config: Config, bound: nat)
    requires frames != []
  {
    forall s :: |s| == |frames| && Legal(frames, config, s) ==> bound <= TrueTotal(frames, config, s)
  }

  /** What the solver promises: a legal sequence that costs what is reported, and if costs are modest the cheapest. */
  ghost predicate Solves(frames: seq<FrameCost>, config: Config, r: Outcome) {
    && (r.Solved? ==> |r.sequence| == |frames| && Legal(frames, config, r.sequence))
    && (r.Solved? && frames != [] ==> r.total == Total(frames, config, r.sequence))
    && (r.Solved? && frames != [] && Modest(frames, config) ==>
      r.total == TrueTotal(frames, config, r.sequence) && NoneCheaper(frames, config, r.total))
    && (Modest(frames, config) ==> (r.Infeasible? <==> frames != [] && NoneCheaper(frames, config, INFINITE)))
  }

  /** And of all cheapest sequences it is the preferred one. */
  ghost predicate TakesFirst(frames: seq<FrameCost>, config: Config, r: Outcome)
    requires r.Solved? && |r.sequence| == |frames| > 0
  {
    forall s :: |s| == |frames| && Legal(frames, config, s) && TrueTotal(frames, config, s) == r.total ==>
      Preferred(r.sequence, s)
  }

  lemma BestIsPreferred(rows: seq<Row>, frames: seq<FrameCost>, config: Config, be: Encoding, br: nat, r: Outcome)
    requires Table(rows, frames, config) && |rows| == |frames| > 0 && Modest(frames, config)
    requires r.Solved? && r.total < INFINITE && Cheapest(rows[|rows| - 1], config, r.total, be, br, 3, 0)
    requires r.sequence == Path(rows, frames, config, |rows| - 1, be, br)
    ensures TakesFirst(frames, config, r)
  {
    hide Table;
    hide Legal;
    hide Cheapest;
    hide Preferred;
    forall s | |s| == |frames| && Legal(frames, config, s) && TrueTotal(frames, config, s) == r.total
      ensures Preferred(r.sequence, s)
    {
      BestIsPreferredTo(rows, frames, config, be, br, r.total, s);
    }
  }

  lemma BestIsPreferredTo(rows: seq<Row>, frames: seq<FrameCost>, config: Config, be: Encoding, br: nat, best: Word,
      s: seq<Encoding>)
    requires Table(rows, frames, config) && |rows| == |frames| > 0 && Modest(frames, config)
    requires best < INFINITE && Cheapest(rows[|rows| - 1], config, best, be, br, 3, 0)
    requires |s| == |frames| && Legal(frames, config, s) && TrueTotal(frames, config, s) == best
    ensures Preferred(Path(rows, frames, config, |rows| - 1, be, br), s)
  {
    hide Legal;
    hide Modest;
    hide RelaxedBefore;
    var last := |frames| - 1;
    CheapestIsReached(rows[last], config, best, be, br);
    TableIsSound(rows, frames, config, last, be, br);
    TotalIsCapped(frames, config, s);
    TableIsComplete(rows, frames, config, s);
    if s[last] == be && TrailingRun(s) == br {
      PathIsPreferred(rows, frames, config, last, be, br, s);
    }
  }

  /** The saturation value is sharp: a frame that costs less is solved. */
  lemma CapIsSharp(cost: Word, config: Config, r: Outcome)
    requires cost <= 0x3FFF_FFFF_FFFF_FFFF && !r.InvalidRun?
    requires forall p: Encoding, e: Encoding :: config.transition.At(p).At(e) == 0
    requires Solves([FrameCost(Three(cost, 0, 0), Three(true, false, false))], config, r)
    ensures r.Infeasible? <==> cost == 0x3FFF_FFFF_FFFF_FFFF
  {
    var frames := [FrameCost(Three(cost, 0, 0), Three(true, false, false))];
    forall s | |s| == 1 && Legal(frames, config, s) ensures TrueTotal(frames, config, s) == cost {
      LegalIff(frames, config, s);
    }
    var only: seq<Encoding> := [FULL];
    assert Legal(frames, config, only[..0]) && frames[0].allowed.At(only[0]);
    assert Legal(frames, config, only);
    assert Modest(frames, config);
  }

  /** What the solver promises on ordinary traces, with nothing capped. */
  ghost predicate SolvesOrdinary(frames: seq<FrameCost>, config: Config, r: Outcome) {
    && (r.Infeasible? <==> forall s :: |s| == |frames| ==> !Legal(frames, config, s))
    && (r.Solved? ==> |r.sequence| == |frames| && Legal(frames, config, r.sequence))
    && (r.Solved? && frames != [] ==>
      r.total == TrueTotal(frames, config, r.sequence) && NoneCheaper(frames, config, r.total))
  }

  lemma OrdinaryIsSolved(frames: seq<FrameCost>, config: Config, r: Outcome)
    requires PointersSuffice(frames, config) ==> Solves(frames, config, r)
    requires !r.InvalidRun? && (frames == [] ==> r.Solved?)
    ensures Ordinary(frames, config) ==> SolvesOrdinary(frames, config, r)
  {
    if !Ordinary(frames, config) { return; }
    OrdinaryIsModest(frames, config);
    forall s | |s| == |frames| && frames != [] && Legal(frames, config, s)
      ensures TrueTotal(frames, config, s) < INFINITE
    {
      OrdinaryTotalIsTrue(frames, config, s);
    }
    assert r.Solved? ==> Legal(frames, config, r.sequence);
  }

  /**
   The result is legal and costs what is reported; with operands up to the saturation value it is the
   cheapest of all legal sequences, and a trace is infeasible exactly when every legal sequence
   saturates.  Back pointers hold 16-bit runs: this is promised where they suffice.
   */
  method Solve(frames: seq<FrameCost>, config: Config) returns (r: Outcome)
    ensures r.InvalidRun? <==> config.maxDeltaRun == 0
    ensures r.Solved? ==> |r.sequence| == |frames| && (frames == [] ==> r.total == 0)
    ensures !r.InvalidRun? && PointersSuffice(frames, config) ==> Solves(frames, config, r)
    ensures !r.InvalidRun? && Ordinary(frames, config) ==> SolvesOrdinary(frames, config, r)
    ensures r.Solved? && frames != [] && PointersSuffice(frames, config) && Modest(frames, config) ==>
      TakesFirst(frames, config, r)
  {
    hide Preferred;
    hide TakesFirst;
    hide Ordinary;
    hide SolvesOrdinary;
    hide Solves;
    hide Table;
    hide Cheapest;
    hide Modest;
    if config.maxDeltaRun == 0 {
      return InvalidRun;
    }
    if frames == [] {
      r := Solved(0, []);
      NothingToSolve(config);
      OrdinaryIsSolved(frames, config, r);
      return;
    }
    var rows := BuildTable(frames, config);
    var last := rows[|rows| - 1];
    assert Linked(last, config);
    var best, be, br := PickBest(last, config);
    if best == INFINITE {
      r := Infeasible;
      if PointersSuffice(frames, config) {
        SaturatedIsSolved(rows, frames, config, be, br);
      }
      OrdinaryIsSolved(frames, config, r);
      return;
    }
    CheapestIsReached(last, config, best, be, br);
    var sequence := Backtrack(rows, frames, config, be, br);
    r := Solved(best, sequence);
    if PointersSuffice(frames, config) {
      BestIsSolved(rows, frames, config, be, br, r);
      if Modest(frames, config) {
        BestIsPreferred(rows, frames, config, be, br, r);
      }
    }
    OrdinaryIsSolved(frames, config, r);
  }

  lemma NothingToSolve(config: Config)
    ensures Solves([], config, Solved(0, []))
  {
  }

  lemma SaturatedIsSolved(rows: seq<Row>, frames: seq<FrameCost>, config: Config, be: Encoding, br: nat)
    requires Table(rows, frames, config) && |rows| == |frames| > 0
    requires Cheapest(rows[|rows| - 1], config, INFINITE, be, br, 3, 0)
    ensures Solves(frames, config, Infeasible)
  {
    hide Table;
    hide Cheapest;
    if Modest(frames, config) {
      BestBeatsAll(rows, frames, config, INFINITE, be, br);
    }
  }

  lemma BestIsSolved(rows: seq<Row>, frames: seq<FrameCost>, config: Config, be: Encoding, br: nat, r: Outcome)
    requires Table(rows, frames, config) && |rows| == |frames| > 0 && r.Solved? && r.total != INFINITE
    requires br <= config.maxDeltaRun && rows[|rows| - 1][be][br].Reached? && rows[|rows| - 1][be][br].cost == r.total
    requires Cheapest(rows[|rows| - 1], config, r.total, be, br, 3, 0)
    requires r.sequence == Path(rows, frames, config, |rows| - 1, be, br)
    ensures r.total < INFINITE && Solves(frames, config, r)
  {
    hide Table;
    hide Legal;
    TableIsSound(rows, frames, config, |rows| - 1, be, br);
    if Modest(frames, config) {
      BestBeatsAll(rows, frames, config, r.total, be, br);
      TotalIsCapped(frames, config, r.sequence);
    }
  }

  lemma CheapestIsReached(last: Row, config: Config, best: Word, be: Encoding, br: nat)
    requires Shaped(last, config.maxDeltaRun + 1) && Cheapest(last, config, best, be, br, 3, 0) && best != INFINITE
    ensures br <= config.maxDeltaRun && last[be][br].Reached? && last[be][br].cost == best
  {
  }

  lemma BestBeatsAll(rows: seq<Row>, frames: seq<FrameCost>, config: Config, best: Word, be: Encoding, br: nat)
    requires Table(rows, frames, config) && |rows| == |frames| > 0 && Modest(frames, config)
    requires Cheapest(rows[|rows| - 1], config, best, be, br, 3, 0)
    ensures NoneCheaper(frames, config, best)
  {
    forall s | |s| == |frames| && Legal(frames, config, s) ensures best <= TrueTotal(frames, config, s) {
      TableIsComplete(rows, frames, config, s);
      TotalIsCapped(frames, config, s);
    }
  }

  datatype Evaluation = Cost(total: Word) | LengthMismatch | Forbidden

  /** The independent evaluator: rejects exactly the illegal sequences and sums the others from zero. */
  method Evaluate(frames: seq<FrameCost>, config: Config, sequence: seq<Encoding>) returns (r: Evaluation)
    ensures r.LengthMismatch? <==> |frames| != |sequence|
    ensures r.Cost? <==> |frames| == |sequence| && Legal(frames, config, sequence)
    ensures r.Cost? ==> r.total == if frames == [] then 0 else Total(frames, config, sequence)
    ensures r.Cost? && frames != [] && Ordinary(frames, config) ==> r.total == TrueTotal(frames, config, sequence)
  {
    hide Summed;
    hide Legal;
    hide Ordinary;
    if |frames| != |sequence| {
      return LengthMismatch;
    }
    var total: Word := 0;
    var run: nat := 0;
    SummedStarts(frames, config, sequence);
    for i := 0 to |frames|
      invariant Summed(frames, config, sequence[..i], run, total)
    {
      var e := sequence[i];
      ghost var before := sequence[..i];
      assert sequence[..i + 1] == before + [e];
      PrefixOfLegal(frames, config, sequence, i + 1);
      SummedNext(frames, config, before, run, total, e);
      if !frames[i].allowed.At(e) {
        return Forbidden;
      }
      run := if e == DELTA then run + 1 else 0;
      if run > config.maxDeltaRun {
        return Forbidden;
      }
      if i != 0 {
        total := AddSaturated(total, config.transition.At(sequence[i - 1]).At(e));
      }
      total := AddSaturated(total, frames[i].cost.At(e));
    }
    assert sequence[..|frames|] == sequence;
    SummedEnds(frames, config, sequence, run, total);
    r := Cost(total);
  }

  /** The evaluator's running state over a legal prefix. */
  ghost predicate Summed(frames: seq<FrameCost>, config: Config, s: seq<Encoding>, run: nat, total: Word) {
    |s| <= |frames| && Legal(frames, config, s) && run == TrailingRun(s)
    && total == if s == [] then 0 else Total(frames, config, s)
  }

  lemma SummedStarts(frames: seq<FrameCost>, config: Config, s: seq<Encoding>)
    ensures Summed(frames, config, s[..0], 0, 0)
  {
  }

  lemma SummedEnds(frames: seq<FrameCost>, config: Config, s: seq<Encoding>, run: nat, total: Word)
    requires |s| == |frames| && Summed(frames, config, s, run, total)
    ensures Legal(frames, config, s) && total == if s == [] then 0 else Total(frames, config, s)
    ensures s != [] && Ordinary(frames, config) ==> total == TrueTotal(frames, config, s)
  {
    if s != [] && Ordinary(frames, config) {
      OrdinaryTotalIsTrue(frames, config, s);
    }
  }

  lemma SummedNext(frames: seq<FrameCost>, config: Config, s: seq<Encoding>, run: nat, total: Word, e: Encoding)
    requires |s| < |frames| && Summed(frames, config, s, run, total)
    ensures var frame := frames[|s|];
      var longer := if e == DELTA then run + 1 else 0;
      var reached := if s == [] then total else AddSaturated(total, config.transition.At(s[|s| - 1]).At(e));
      && (Legal(frames, config, s + [e]) <==> frame.allowed.At(e) && longer <= config.maxDeltaRun)
      && (Legal(frames, config, s + [e]) ==>
        Summed(frames, config, s + [e], longer, AddSaturated(reached, frame.cost.At(e))))
  {
    AddToNothing(frames[|s|].cost.At(e));
    hide AddSaturated;
    assert (s + [e])[..|s|] == s;
  }

  lemma {:induction false} PrefixOfLegal(frames: seq<FrameCost>, config: Config, s: seq<Encoding>, k: nat)
    requires k <= |s|
    ensures Legal(frames, config, s) ==> Legal(frames, config, s[..k])
  {
    if k < |s| {
      PrefixOfLegal(frames, config, s[..|s| - 1], k);
      assert s[..|s| - 1][..k] == s[..k];
    } else {
      assert s[..k] == s;
    }
  }

  // ---- runs beyond a back pointer ----

  function Deltas(n: nat): (r: seq<Encoding>)
    ensures |r| == n
  {
    seq(n, _ => DELTA)
  }

  ghost predicate DeltasAllowed(frames: seq<FrameCost>) {
    forall i :: 0 <= i < |frames| ==> frames[i].allowed.delta
  }

  lemma {:induction false} DeltasAreLegal(frames: seq<FrameCost>, config: Config, n: nat)
    requires DeltasAllowed(frames) && n <= |frames| && n <= config.maxDeltaRun
    ensures Legal(frames, config, Deltas(n)) && TrailingRun(Deltas(n)) == n
  {
    if n > 0 {
      DeltasAreLegal(frames, config, n - 1);
      assert Deltas(n)[..n - 1] == Deltas(n - 1);
    }
  }

  /**
   The bound is tight: where every frame may be a delta, the runs the back pointers of a trace point to all
   fit exactly when the bound on delta runs does or the trace is no longer than that.
   */
  lemma RunsFitIff(rows: seq<Row>, frames: seq<FrameCost>, config: Config)
    requires Table(rows, frames, config) && |rows| + 1 == |frames|
    requires Modest(frames, config) && DeltasAllowed(frames)
    ensures (forall i :: 0 <= i < |rows| ==> RunsFit(rows[i], config)) <==> PointersSuffice(frames, config)
  {
    if PointersSuffice(frames, config) {
      forall i | 0 <= i < |rows| ensures RunsFit(rows[i], config) {
        RunsFitUpTo(rows, frames, config, i);
      }
    } else {
      var n := 0x1_0000;
      DeltasAreLegal(frames, config, n);
      TableIsComplete(rows, frames, config, Deltas(n));
      assert rows[n - 1][DELTA][n].Reached? && !RunsFit(rows[n - 1], config);
    }
  }

  /** The first run too long points back to run zero, which no delta has: the cell is not backed by what it points to. */
  lemma TruncatedPointerMisleads(before: Row, row: Row, frame: FrameCost, config: Config)
    requires 0x1_0000 <= config.maxDeltaRun
    requires Shaped(before, config.maxDeltaRun + 1) && Shaped(row, config.maxDeltaRun + 1)
    requires Open(before, frame, config, DELTA, 0x1_0000, FULL) && row[FULL][0].Unreached? && before[DELTA][0].Unreached?
    ensures var now := Relax(before, row, frame, config, DELTA, 0x1_0000, FULL);
      && now[FULL][0].Reached? && now[FULL][0].previousEncoding == DELTA && now[FULL][0].previousRun == 0
      && !Backed(before, now, frame, config, FULL, 0)
  {
  }

  // ---- costs beyond the saturation value ----

  const NO_COST: Three<Word> := Three(0, 0, 0)
  const HUGE: Word := 0xFFFF_FFFF_FFFF_FFFF

  /** Two frames that only allow full copies, the second at the largest representable cost. */
  const HUGE_TRACE: seq<FrameCost> := [
    FrameCost(Three(1, 0, 0), Three(true, false, false)), FrameCost(Three(HUGE, 0, 0), Three(true, false, false))]
  const FREE_MOVES: Config := Config(Transitions(NO_COST, NO_COST, NO_COST), 1)

  /** The only legal sequence is reported to cost nothing, although it costs more than a word can hold. */
  lemma HugeCostWrapsToZero(s: seq<Encoding>)
    requires |s| == 2 && Legal(HUGE_TRACE, FREE_MOVES, s)
    ensures s == [FULL, FULL]
    ensures Total(HUGE_TRACE, FREE_MOVES, s) == 0 && TrueTotal(HUGE_TRACE, FREE_MOVES, s) == WRAP
  {
    assert s[..1][0] == s[0] && s[..1][..0] == [];
    assert Legal(HUGE_TRACE, FREE_MOVES, s[..1]);
    assert Total(HUGE_TRACE, FREE_MOVES, s[..1]) == 1;
  }
}
