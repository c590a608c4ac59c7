/**
 Edge colours and why they matter: the conflict check, the greedy colouring it polices, and the
 fact that contact updates may be reordered within a colour and interleaved across islands.
 The pair-averaging kernel of the island projection is the instance the engine runs.
 */
module Colouring {
  import opened ContactGraph
  import opened WideInteger

  // ---- the conflict check ----

  predicate Apart(c: Contact, d: Contact) {
    c.first != d.first && c.first != d.second && c.second != d.first && c.second != d.second
  }

  /** Within every colour below the count, contacts join two different bodies and share none. */
  ghost predicate Proper(contacts: seq<Contact>, colours: seq<nat>, count: nat)
    requires |contacts| == |colours|
  {
    && (forall i :: 0 <= i < |contacts| && colours[i] < count ==> contacts[i].first != contacts[i].second)
    && (forall i, j :: 0 <= i < j < |contacts| && colours[i] == colours[j] < count ==> Apart(contacts[i], contacts[j]))
  }

  /** The part of `Proper` that concerns one colour and the first k contacts. */
  ghost predicate ProperUpTo(contacts: seq<Contact>, colours: seq<nat>, colour: nat, k: nat)
    requires k <= |contacts| == |colours|
  {
    && (forall i :: 0 <= i < k && colours[i] == colour ==> contacts[i].first != contacts[i].second)
    && (forall i, j :: 0 <= i < j < k && colours[i] == colours[j] == colour ==> Apart(contacts[i], contacts[j]))
  }

  method ColourIsProper(contacts: seq<Contact>, colours: seq<nat>, colour: nat) returns (ok: bool)
    requires |contacts| == |colours|
    ensures ok <==> ProperUpTo(contacts, colours, colour, |contacts|)
  {
    var used: set<nat> := {};
    for k := 0 to |contacts|
      invariant ProperUpTo(contacts, colours, colour, k)
      invariant forall b: nat :: b in used <==>
        exists i :: 0 <= i < k && colours[i] == colour && Incident(contacts[i], b)
    {
      if colours[k] != colour { continue; }
      var c := contacts[k];
      if c.first in used { return false; }
      used := used + {c.first};
      if c.second in used { return false; }
      used := used + {c.second};
    }
    return true;
  }

  /** The fuzzer's check: every colour of the island in turn. */
  method ColoursAccepted(contacts: seq<Contact>, colours: seq<nat>, count: nat) returns (ok: bool)
    requires |contacts| == |colours|
    ensures ok <==> Proper(contacts, colours, count)
  {
    for colour := 0 to count
      invariant forall k: nat :: k < colour ==> ProperUpTo(contacts, colours, k, |contacts|)
    {
      var fine := ColourIsProper(contacts, colours, colour);
      if !fine {
        return false;
      }
    }
    assert forall i :: 0 <= i < |contacts| && colours[i] < count ==> ProperUpTo(contacts, colours, colours[i], |contacts|);
    return true;
  }

  // ---- greedy colouring ----

  const MASK_COLOURS := 64
  const MAX_COLOUR := 0xFFFF

  /** Smallest colour the mask leaves free, or MASK_COLOURS if none is. */
  function FirstFree(occupied: set<nat>, from: nat): (c: nat)
    requires from <= MASK_COLOURS
    ensures from <= c <= MASK_COLOURS && (c < MASK_COLOURS ==> c !in occupied)
    ensures forall d :: from <= d < c ==> d in occupied
    decreases MASK_COLOURS - from
  {
    if from == MASK_COLOURS || from !in occupied then from else FirstFree(occupied, from + 1)
  }

  /** One of the first k contacts has that colour and meets a body. */
  ghost predicate UsedAt(contacts: seq<Contact>, colours: seq<nat>, k: nat, body: nat, colour: nat)
    requires k <= |contacts| && k <= |colours|
  {
    exists i :: 0 <= i < k && colours[i] == colour && Incident(contacts[i], body)
  }

  /** One of the first k contacts has that colour and meets contact k. */
  ghost predicate Taken(contacts: seq<Contact>, colours: seq<nat>, k: nat, colour: nat)
    requires k < |contacts| && k <= |colours|
  {
    exists i :: 0 <= i < k && colours[i] == colour && !Apart(contacts[i], contacts[k])
  }

  ghost function Overflows(colours: seq<nat>): nat {
    if colours == [] then 0
    else Overflows(colours[..|colours| - 1]) + if colours[|colours| - 1] >= 64 then 1 else 0
  }

  /** Contact k has the least of 64 colours that no earlier contact it meets has, or else a colour of its own. */
  ghost predicate FirstFit(contacts: seq<Contact>, colours: seq<nat>, k: nat)
    requires k < |contacts| && k < |colours|
  {
    && (forall d :: 0 <= d < 64 && d < colours[k] ==> Taken(contacts, colours, k, d))
    && (if colours[k] < 64 then !Taken(contacts, colours, k, colours[k])
        else colours[k] == 64 + Overflows(colours[..k]))
  }

  /** The masks hold the colours below 64 already used at each body. */
  ghost predicate MasksHold(contacts: seq<Contact>, colours: seq<nat>, k: nat, masks: seq<set<nat>>)
    requires k <= |contacts| && k <= |colours|
  {
    forall body: nat, d: nat :: body < |masks| && d < 64 ==> (d in masks[body] <==> UsedAt(contacts, colours, k, body, d))
  }

  /** The colours given so far never clash, and overflow colours are all different. */
  ghost predicate GreedySoFar(contacts: seq<Contact>, colours: seq<nat>, k: nat, next: nat)
    requires k <= |contacts| && k <= |colours|
  {
    && next >= MASK_COLOURS
    && (forall i :: 0 <= i < k ==> colours[i] < next)
    && (forall i, j :: 0 <= i < j < k && colours[i] == colours[j] ==> Apart(contacts[i], contacts[j]))
  }

  ghost predicate Tight(colours: seq<nat>, count: nat) {
    && (forall i :: 0 <= i < |colours| ==> colours[i] < count)
    && (count > 0 ==> count - 1 in colours)
  }

  /** The next contact finds all 64 mask colours taken and the 16-bit colours beyond them used up. */
  ghost predicate OutOfColours(contacts: seq<Contact>, colours: seq<nat>)
    requires |colours| < |contacts|
  {
    64 + Overflows(colours) == 0x1_0000 && forall d :: 0 <= d < 64 ==> Taken(contacts, colours, |colours|, d)
  }

  ghost predicate AllFirstFit(contacts: seq<Contact>, colours: seq<nat>)
    requires |colours| <= |contacts|
  {
    forall k :: 0 <= k < |colours| ==> FirstFit(contacts, colours, k)
  }

  /** The loop's state: masks, overflow counter and count tell the colours given so far, which are first fit. */
  ghost predicate Greedy(contacts: seq<Contact>, colours: seq<nat>, masks: seq<set<nat>>, next: nat, count: nat) {
    && |colours| <= |contacts| && 64 + Overflows(colours) == next <= 0x1_0000
    && MasksHold(contacts, colours, |colours|, masks) && GreedySoFar(contacts, colours, |colours|, next)
    && AllFirstFit(contacts, colours) && Tight(colours, count)
    && (forall i :: 0 <= i < |colours| ==> colours[i] <= 0xFFFF)
  }

  /**
   First-fit colouring with a 64-colour mask per body; once both masks together are full, every
   contact gets a colour of its own.  The result always passes the check, and the count is one more than
   the largest colour.  Colours are 16-bit words: the island is refused at the contact that needs a larger one.
   */
  method GreedyColours(bodies: nat, contacts: seq<Contact>) returns (refused: bool, colours: seq<nat>, count: nat)
    requires InRange(bodies, contacts)
    requires forall i :: 0 <= i < |contacts| ==> contacts[i].first != contacts[i].second
    ensures |colours| <= |contacts| && AllFirstFit(contacts, colours) && Tight(colours, count)
    ensures forall i :: 0 <= i < |colours| ==> colours[i] <= 0xFFFF
    ensures !refused ==> |colours| == |contacts| && Proper(contacts, colours, count)
    ensures refused ==> |colours| < |contacts| && OutOfColours(contacts, colours)
  {
    hide Greedy;
    hide AllFirstFit;
    hide Tight;
    hide Proper;
    hide OutOfColours;
    var masks: seq<set<nat>> := seq(bodies, _ => {});
    var nextOverflow: nat := MASK_COLOURS;
    refused, colours, count := false, [], 0;
    GreedyStarts(contacts, masks);
    for k := 0 to |contacts|
      invariant |colours| == k && |masks| == bodies && Greedy(contacts, colours, masks, nextOverflow, count)
    {
      GreedyPromises(contacts, colours, masks, nextOverflow, count);
      var c := contacts[k];
      var colour := FirstFree(masks[c.first] + masks[c.second], 0);
      if colour < MASK_COLOURS {
        GreedyTakes(contacts, colours, masks, nextOverflow, count, colour);
        masks := masks[c.first := masks[c.first] + {colour}];
        masks := masks[c.second := masks[c.second] + {colour}];
      } else {
        GreedyOverflows(contacts, colours, masks, nextOverflow, count);
        colour := nextOverflow;
        nextOverflow := nextOverflow + 1;
      }
      if colour > MAX_COLOUR {
        return true, colours, count;
      }
      colours := colours + [colour];
      if colour + 1 > count { count := colour + 1; }
    }
    GreedyPromises(contacts, colours, masks, nextOverflow, count);
  }

  lemma GreedyStarts(contacts: seq<Contact>, masks: seq<set<nat>>)
    requires forall i :: 0 <= i < |masks| ==> masks[i] == {}
    ensures Greedy(contacts, [], masks, 64, 0)
  {
  }

  lemma GreedyPromises(contacts: seq<Contact>, colours: seq<nat>, masks: seq<set<nat>>, next: nat, count: nat)
    requires Greedy(contacts, colours, masks, next, count)
    ensures |colours| <= |contacts| && AllFirstFit(contacts, colours) && Tight(colours, count)
    ensures forall i :: 0 <= i < |colours| ==> colours[i] <= 0xFFFF
    ensures |colours| == |contacts| && (forall i :: 0 <= i < |contacts| ==> contacts[i].first != contacts[i].second)
      ==> Proper(contacts, colours, count)
  {
    hide AllFirstFit;
    hide MasksHold;
    hide Tight;
  }

  /** Both masks together hold exactly the colours taken at a contact. */
  lemma MasksTell(contacts: seq<Contact>, colours: seq<nat>, k: nat, masks: seq<set<nat>>)
    requires k < |contacts| && |colours| == k && contacts[k].first < |masks| && contacts[k].second < |masks|
    requires MasksHold(contacts, colours, k, masks)
    ensures forall d: nat :: d < 64 ==>
      (d in masks[contacts[k].first] + masks[contacts[k].second] <==> Taken(contacts, colours, k, d))
  {
    var (a, b) := (contacts[k].first, contacts[k].second);
    forall d: nat | d < 64 ensures d in masks[a] + masks[b] <==> Taken(contacts, colours, k, d) {
      assert d in masks[a] <==> UsedAt(contacts, colours, k, a, d);
      assert d in masks[b] <==> UsedAt(contacts, colours, k, b, d);
    }
  }

  lemma TakenAlike(contacts: seq<Contact>, these: seq<nat>, those: seq<nat>, k: nat, d: nat)
    requires k < |contacts| && k <= |these| && k <= |those| && these[..k] == those[..k]
    ensures Taken(contacts, these, k, d) <==> Taken(contacts, those, k, d)
  {
    assert forall i :: 0 <= i < k ==> these[i] == these[..k][i] && those[i] == those[..k][i];
  }

  lemma FirstFitNext(contacts: seq<Contact>, colours: seq<nat>, colour: nat)
    requires |colours| < |contacts| && AllFirstFit(contacts, colours)
    requires forall d :: 0 <= d < 64 && d < colour ==> Taken(contacts, colours, |colours|, d)
    requires if colour < 64 then !Taken(contacts, colours, |colours|, colour) else colour == 64 + Overflows(colours)
    ensures AllFirstFit(contacts, colours + [colour])
  {
    hide Taken;
    var more := colours + [colour];
    forall k | 0 <= k < |more| ensures FirstFit(contacts, more, k) {
      assert more[..k] == colours[..k];
      assert k < |colours| ==> FirstFit(contacts, colours, k);
      assert k == |colours| ==> colours[..k] == colours;
      forall d: nat ensures Taken(contacts, more, k, d) <==> Taken(contacts, colours, k, d) {
        TakenAlike(contacts, more, colours, k, d);
      }
    }
  }

  /** First fit leaves no choice. */
  lemma {:induction false} FirstFitIsUnique(contacts: seq<Contact>, these: seq<nat>, those: seq<nat>, k: nat)
    requires |these| <= |contacts| && |those| <= |contacts| && k <= |these| && k <= |those|
    requires AllFirstFit(contacts, these) && AllFirstFit(contacts, those)
    ensures these[..k] == those[..k]
  {
    hide Taken;
    if k > 0 {
      FirstFitIsUnique(contacts, these, those, k - 1);
      var (a, b) := (these[k - 1], those[k - 1]);
      assert FirstFit(contacts, these, k - 1) && FirstFit(contacts, those, k - 1);
      TakenAlike(contacts, these, those, k - 1, a);
      TakenAlike(contacts, these, those, k - 1, b);
      assert these[..k] == these[..k - 1] + [a] && those[..k] == those[..k - 1] + [b];
    }
  }

  /** The earlier contacts a contact meets. */
  ghost function Met(contacts: seq<Contact>, k: nat): set<nat>
    requires k < |contacts|
  {
    set i: nat | i < k && !Apart(contacts[i], contacts[k])
  }

  ghost predicate UsedAmong(colours: seq<nat>, met: set<nat>, colour: nat)
    requires forall i :: i in met ==> i < |colours|
  {
    exists i :: i in met && colours[i] == colour
  }

  lemma {:induction false} ColoursNeedContacts(colours: seq<nat>, met: set<nat>, n: nat)
    requires forall i :: i in met ==> i < |colours|
    requires forall d: nat :: d < n ==> UsedAmong(colours, met, d)
    ensures |met| >= n
  {
    if n > 0 {
      assert UsedAmong(colours, met, n - 1);
      var i :| i in met && colours[i] == n - 1;
      forall d: nat | d < n - 1 ensures UsedAmong(colours, met - {i}, d) {
        assert UsedAmong(colours, met, d);
      }
      ColoursNeedContacts(colours, met - {i}, n - 1);
    }
  }

  /** A contact that meets few earlier ones gets a small colour, so only crowded islands overflow or are refused. */
  lemma FewMeetFewColours(contacts: seq<Contact>, colours: seq<nat>, k: nat)
    requires k < |colours| <= |contacts| && FirstFit(contacts, colours, k)
    ensures colours[k] <= |Met(contacts, k)| || |Met(contacts, k)| >= 64
  {
    var n := if colours[k] < 64 then colours[k] else 64;
    forall d: nat | d < n ensures UsedAmong(colours, Met(contacts, k), d) {
      assert Taken(contacts, colours, k, d);
    }
    ColoursNeedContacts(colours, Met(contacts, k), n);
  }

  lemma GreedyStep(contacts: seq<Contact>, colours: seq<nat>, k: nat, next: nat, colour: nat)
    requires k < |contacts| && |colours| == k && GreedySoFar(contacts, colours, k, next)
    requires colour < next ==> !Taken(contacts, colours, k, colour)
    ensures colour < next ==> GreedySoFar(contacts, colours + [colour], k + 1, next)
    ensures GreedySoFar(contacts, colours + [next], k + 1, next + 1)
  {
  }

  lemma MasksStep(contacts: seq<Contact>, colours: seq<nat>, k: nat, next: nat, masks: seq<set<nat>>, colour: nat)
    requires k < |contacts| && |colours| == k && contacts[k].first < |masks| && contacts[k].second < |masks|
    requires MasksHold(contacts, colours, k, masks) && next >= MASK_COLOURS
    ensures MasksHold(contacts, colours + [next], k + 1, masks)
    ensures var (a, b) := (contacts[k].first, contacts[k].second);
      var one := masks[a := masks[a] + {colour}];
      MasksHold(contacts, colours + [colour], k + 1, one[b := one[b] + {colour}])
  {
    forall body: nat, d: nat, x: nat | d < 64
      ensures UsedAt(contacts, colours + [x], k + 1, body, d)
        <==> UsedAt(contacts, colours, k, body, d) || (x == d && Incident(contacts[k], body))
    {
      UsedNext(contacts, colours, body, d, x);
    }
  }

  lemma UsedNext(contacts: seq<Contact>, colours: seq<nat>, body: nat, d: nat, x: nat)
    requires |colours| < |contacts|
    ensures UsedAt(contacts, colours + [x], |colours| + 1, body, d)
      <==> UsedAt(contacts, colours, |colours|, body, d) || (x == d && Incident(contacts[|colours|], body))
  {
    var (more, k) := (colours + [x], |colours|);
    if UsedAt(contacts, colours, k, body, d) {
      var i :| 0 <= i < k && colours[i] == d && Incident(contacts[i], body);
      assert more[i] == d;
    }
    if x == d && Incident(contacts[k], body) {
      assert more[k] == d;
    }
  }

  function Max(a: nat, b: nat): nat {
    if a > b then a else b
  }

  /** What the search over the masks finds. */
  lemma SearchTells(contacts: seq<Contact>, colours: seq<nat>, masks: seq<set<nat>>, colour: nat)
    requires |colours| < |contacts| && MasksHold(contacts, colours, |colours|, masks) && InRange(|masks|, contacts)
    requires var c := contacts[|colours|]; colour == FirstFree(masks[c.first] + masks[c.second], 0)
    ensures forall d :: 0 <= d < colour ==> Taken(contacts, colours, |colours|, d)
    ensures colour < 64 ==> !Taken(contacts, colours, |colours|, colour)
  {
    hide MasksHold;
    hide Taken;
    MasksTell(contacts, colours, |colours|, masks);
  }

  lemma GreedyTakes(contacts: seq<Contact>, colours: seq<nat>, masks: seq<set<nat>>, next: nat, count: nat, colour: nat)
    requires |colours| < |contacts| && Greedy(contacts, colours, masks, next, count) && InRange(|masks|, contacts)
    requires var c := contacts[|colours|]; colour == FirstFree(masks[c.first] + masks[c.second], 0) < 64
    ensures var c := contacts[|colours|];
      var one := masks[c.first := masks[c.first] + {colour}];
      Greedy(contacts, colours + [colour], one[c.second := one[c.second] + {colour}], next, Max(count, colour + 1))
  {
    hide MasksHold;
    hide GreedySoFar;
    hide AllFirstFit;
    hide Taken;
    hide FirstFree;
    var k := |colours|;
    SearchTells(contacts, colours, masks, colour);
    GreedyStep(contacts, colours, k, next, colour);
    MasksStep(contacts, colours, k, next, masks, colour);
    FirstFitNext(contacts, colours, colour);
    assert (colours + [colour])[..k] == colours;
  }

  lemma GreedyOverflows(contacts: seq<Contact>, colours: seq<nat>, masks: seq<set<nat>>, next: nat, count: nat)
    requires |colours| < |contacts| && Greedy(contacts, colours, masks, next, count) && InRange(|masks|, contacts)
    requires var c := contacts[|colours|]; FirstFree(masks[c.first] + masks[c.second], 0) == 64
    ensures next <= 0xFFFF ==> Greedy(contacts, colours + [next], masks, next + 1, Max(count, next + 1))
    ensures next > 0xFFFF ==> OutOfColours(contacts, colours)
  {
    hide MasksHold;
    hide GreedySoFar;
    hide AllFirstFit;
    hide Taken;
    hide FirstFree;
    var k := |colours|;
    SearchTells(contacts, colours, masks, 64);
    GreedyStep(contacts, colours, k, next, next);
    MasksStep(contacts, colours, k, next, masks, next);
    FirstFitNext(contacts, colours, next);
    assert (colours + [next])[..k] == colours;
  }

  // ---- updates that read and write only a contact's two bodies ----

  type Update = (Contact, int, int) -> (int, int)

  function Apply(f: Update, c: Contact, v: seq<int>): (r: seq<int>)
    requires c.first < |v| && c.second < |v|
    ensures |r| == |v|
  {
    var (a, b) := f(c, v[c.first], v[c.second]);
    v[c.first := a][c.second := b]
  }

  function ApplyAll(f: Update, cs: seq<Contact>, v: seq<int>): (r: seq<int>)
    requires InRange(|v|, cs)
    ensures |r| == |v|
  {
    if cs == [] then v
    else
      assert InRange(|v|, cs[..|cs| - 1]);
      Apply(f, cs[|cs| - 1], ApplyAll(f, cs[..|cs| - 1], v))
  }

  ghost predicate PairwiseApart(cs: seq<Contact>) {
    && (forall i :: 0 <= i < |cs| ==> cs[i].first != cs[i].second)
    && (forall i, j :: 0 <= i < j < |cs| ==> Apart(cs[i], cs[j]))
  }

  /** A body no contact touches keeps its value. */
  lemma {:induction false} OnePassAway(f: Update, cs: seq<Contact>, v: seq<int>, b: nat)
    requires InRange(|v|, cs) && b < |v| && forall i :: 0 <= i < |cs| ==> !Incident(cs[i], b)
    ensures ApplyAll(f, cs, v)[b] == v[b]
  {
    if cs != [] {
      var head := cs[..|cs| - 1];
      assert InRange(|v|, head);
      OnePassAway(f, head, v, b);
    }
  }

  /** Without shared bodies a contact sees the original values of its own two. */
  lemma {:induction false} OnePassAt(f: Update, cs: seq<Contact>, v: seq<int>, i: nat)
    requires InRange(|v|, cs) && PairwiseApart(cs) && i < |cs|
    ensures (ApplyAll(f, cs, v)[cs[i].first], ApplyAll(f, cs, v)[cs[i].second]) == f(cs[i], v[cs[i].first], v[cs[i].second])
  {
    var last := |cs| - 1;
    var (head, c) := (cs[..last], cs[last]);
    assert InRange(|v|, head);
    if i == last {
      OnePassAway(f, head, v, c.first);
      OnePassAway(f, head, v, c.second);
    } else {
      OnePassAt(f, head, v, i);
      assert Apart(cs[i], c);
    }
  }

  /** With no shared bodies every contact sees the original values, whatever the order, and other bodies keep theirs. */
  lemma OnePass(f: Update, cs: seq<Contact>, v: seq<int>)
    requires InRange(|v|, cs) && PairwiseApart(cs)
    ensures forall i :: 0 <= i < |cs| ==>
      (ApplyAll(f, cs, v)[cs[i].first], ApplyAll(f, cs, v)[cs[i].second]) == f(cs[i], v[cs[i].first], v[cs[i].second])
    ensures forall b: nat :: b < |v| && (forall i :: 0 <= i < |cs| ==> !Incident(cs[i], b)) ==>
      ApplyAll(f, cs, v)[b] == v[b]
  {
    hide ApplyAll;
    hide PairwiseApart;
    forall i: nat | i < |cs|
      ensures (ApplyAll(f, cs, v)[cs[i].first], ApplyAll(f, cs, v)[cs[i].second])
        == f(cs[i], v[cs[i].first], v[cs[i].second])
    {
      OnePassAt(f, cs, v, i);
    }
    forall b: nat | b < |v| && (forall i :: 0 <= i < |cs| ==> !Incident(cs[i], b))
      ensures ApplyAll(f, cs, v)[b] == v[b]
    {
      OnePassAway(f, cs, v, b);
    }
  }

  /** All contacts of one accepted colour may be applied in any order. */
  lemma OrderWithinColourIsIrrelevant(f: Update, cs: seq<Contact>, ds: seq<Contact>, v: seq<int>)
    requires InRange(|v|, cs) && PairwiseApart(cs) && multiset(cs) == multiset(ds)
    ensures InRange(|v|, ds) && ApplyAll(f, cs, v) == ApplyAll(f, ds, v)
  {
    SameElements(ds, cs);
    SameElements(cs, ds);
    assert forall i :: 0 <= i < |ds| ==> ds[i] in cs;
    PermutedApart(cs, ds);
    var (r, s) := (ApplyAll(f, cs, v), ApplyAll(f, ds, v));
    forall b: nat | b < |v| ensures r[b] == s[b] {
      SameAtBody(f, cs, ds, v, b);
    }
  }

  lemma SameAtBody(f: Update, cs: seq<Contact>, ds: seq<Contact>, v: seq<int>, b: nat)
    requires InRange(|v|, cs) && PairwiseApart(cs) && InRange(|v|, ds) && PairwiseApart(ds)
    requires b < |v| && forall c :: c in cs <==> c in ds
    ensures ApplyAll(f, cs, v)[b] == ApplyAll(f, ds, v)[b]
  {
    hide ApplyAll;
    hide PairwiseApart;
    if i: nat :| i < |cs| && Incident(cs[i], b) {
      assert cs[i] in ds;
      var j: nat :| j < |ds| && ds[j] == cs[i];
      OnePassAt(f, cs, v, i);
      OnePassAt(f, ds, v, j);
    } else {
      assert forall j :: 0 <= j < |ds| ==> ds[j] in cs;
      OnePassAway(f, cs, v, b);
      OnePassAway(f, ds, v, b);
    }
  }

  lemma PermutedApart(cs: seq<Contact>, ds: seq<Contact>)
    requires PairwiseApart(cs) && multiset(cs) == multiset(ds)
    ensures PairwiseApart(ds)
  {
    SameElements(ds, cs);
    forall i | 0 <= i < |ds| ensures ds[i].first != ds[i].second {
      assert ds[i] in cs;
    }
    forall i, j | 0 <= i < j < |ds| ensures Apart(ds[i], ds[j]) {
      assert ds[i] in cs && ds[j] in cs;
      if ds[i] == ds[j] {
        assert ds == ds[..i] + [ds[i]] + ds[i + 1..j] + [ds[j]] + ds[j + 1..];
        assert multiset(ds)[ds[i]] >= 2;
        ApartOccursOnce(cs, ds[i]);
      }
    }
  }

  lemma {:induction false} ApartOccursOnce(cs: seq<Contact>, c: Contact)
    requires PairwiseApart(cs)
    ensures multiset(cs)[c] <= 1
  {
    if cs != [] {
      var last := |cs| - 1;
      ApartOccursOnce(cs[..last], c);
      assert cs == cs[..last] + [cs[last]];
      assert cs[last] !in cs[..last];
      assert multiset(cs[..last])[cs[last]] == 0;
    }
  }

  // ---- interleaving islands ----

  /** The updates of one island, in the order they occur. */
  ghost function Only(cs: seq<Contact>, labels: seq<nat>, island: nat): (r: seq<Contact>)
    requires InRange(|labels|, cs)
    ensures InRange(|labels|, r)
  {
    if cs == [] then []
    else
      var (head, c) := (cs[..|cs| - 1], cs[|cs| - 1]);
      assert InRange(|labels|, head);
      Only(head, labels, island) + if labels[c.first] == island then [c] else []
  }

  /** On an island's bodies only that island's updates matter. */
  lemma {:induction false} OnlyOwnUpdatesMatter(f: Update, cs: seq<Contact>, labels: seq<nat>, island: nat, v: seq<int>)
    requires |v| == |labels| && InRange(|v|, cs)
    requires forall i :: 0 <= i < |cs| ==> labels[cs[i].first] == labels[cs[i].second]
    ensures forall b: nat :: b < |v| && labels[b] == island ==>
      ApplyAll(f, cs, v)[b] == ApplyAll(f, Only(cs, labels, island), v)[b]
  {
    if cs != [] {
      var (head, c) := (cs[..|cs| - 1], cs[|cs| - 1]);
      assert InRange(|v|, head);
      var own := Only(head, labels, island);
      OnlyOwnUpdatesMatter(f, head, labels, island, v);
      assert labels[c.first] == labels[c.second];
      if labels[c.first] == island {
        ApplyLast(f, own, c, v);
      } else {
        assert own + [] == own;
      }
    }
  }

  lemma ApplyLast(f: Update, head: seq<Contact>, c: Contact, v: seq<int>)
    requires InRange(|v|, head) && c.first < |v| && c.second < |v|
    ensures InRange(|v|, head + [c]) && ApplyAll(f, head + [c], v) == Apply(f, c, ApplyAll(f, head, v))
  {
    assert (head + [c])[..|head|] == head;
  }

  /**
   Any two schedules that run every island's updates in the same order give the same vector, however
   the islands are interleaved: the number of workers and their timing cannot show.
   */
  lemma InterleavingIsInvisible(f: Update, cs: seq<Contact>, ds: seq<Contact>, labels: seq<nat>, v: seq<int>)
    requires |v| == |labels| && InRange(|v|, cs) && InRange(|v|, ds)
    requires forall i :: 0 <= i < |cs| ==> labels[cs[i].first] == labels[cs[i].second]
    requires forall i :: 0 <= i < |ds| ==> labels[ds[i].first] == labels[ds[i].second]
    requires forall l :: Only(cs, labels, l) == Only(ds, labels, l)
    ensures ApplyAll(f, cs, v) == ApplyAll(f, ds, v)
  {
    forall b: nat | b < |v| ensures ApplyAll(f, cs, v)[b] == ApplyAll(f, ds, v)[b] {
      OnlyOwnUpdatesMatter(f, cs, labels, labels[b], v);
      OnlyOwnUpdatesMatter(f, ds, labels, labels[b], v);
      assert Only(cs, labels, labels[b]) == Only(ds, labels, labels[b]);
    }
  }

  /** The keys are such labels, for schedules built from the classified contacts. */
  lemma IslandKeysSeparate(n: nat, contacts: seq<Contact>, cs: seq<Contact>, i: nat)
    requires InRange(n, contacts) && (forall c :: c in cs ==> c in contacts) && i < |cs|
    ensures cs[i].first < n && cs[i].second < n
    ensures Keys(n, contacts)[cs[i].first] == Keys(n, contacts)[cs[i].second]
  {
    assert cs[i] in contacts;
    KeysAgreeAcrossContacts(n, contacts);
  }

  // ---- the averaging kernel ----

  /** Splits a violated pair evenly, the smaller half to the smaller body; leaves ordered pairs alone. */
  function Average(c: Contact, a: int, b: int): (int, int) {
    var (low, high) := if c.first < c.second then (a, b) else (b, a);
    if low <= high then (a, b)
    else
      var half := FloorDiv(low + high, 2);
      var rest := low + high - half;
      if c.first < c.second then (half, rest) else (rest, half)
  }

  function Total(v: seq<int>, k: nat): int
    requires k <= |v|
  {
    if k == 0 then 0 else Total(v, k - 1) + v[k - 1]
  }

  lemma {:induction false} TotalAfterTwoWrites(v: seq<int>, i: nat, a: int, j: nat, b: int, k: nat)
    requires i < |v| && j < |v| && i != j && k <= |v|
    ensures Total(v[i := a][j := b], k)
      == Total(v, k) + (if i < k then a - v[i] else 0) + (if j < k then b - v[j] else 0)
  {
    if k > 0 {
      TotalAfterTwoWrites(v, i, a, j, b, k - 1);
    }
  }

  /** Every schedule of the kernel conserves the total and stays within the bounds of the data. */
  lemma {:induction false} AveragingConserves(cs: seq<Contact>, v: seq<int>, least: int, most: int)
    requires InRange(|v|, cs) && forall i :: 0 <= i < |cs| ==> cs[i].first != cs[i].second
    requires forall b :: 0 <= b < |v| ==> least <= v[b] <= most
    ensures Total(ApplyAll(Average, cs, v), |v|) == Total(v, |v|)
    ensures forall b :: 0 <= b < |v| ==> least <= ApplyAll(Average, cs, v)[b] <= most
  {
    if cs != [] {
      var (head, c) := (cs[..|cs| - 1], cs[|cs| - 1]);
      assert InRange(|v|, head);
      AveragingConserves(head, v, least, most);
      var u := ApplyAll(Average, head, v);
      var (a, b) := Average(c, u[c.first], u[c.second]);
      TotalAfterTwoWrites(u, c.first, a, c.second, b, |v|);
    }
  }

  ghost predicate Ordered(v: seq<int>, c: Contact)
    requires c.first < |v| && c.second < |v|
  {
    if c.first < c.second then v[c.first] <= v[c.second] else v[c.second] <= v[c.first]
  }

  /** First moment of the values over the body indices: the measure every effective average raises. */
  function Lean(v: seq<int>, k: nat): int
    requires k <= |v|
  {
    if k == 0 then 0 else Lean(v, k - 1) + (k - 1) * v[k - 1]
  }

  lemma {:induction false} LeanAfterTwoWrites(v: seq<int>, i: nat, a: int, j: nat, b: int, k: nat)
    requires i < |v| && j < |v| && i != j && k <= |v|
    ensures Lean(v[i := a][j := b], k)
      == Lean(v, k) + (if i < k then i * (a - v[i]) else 0) + (if j < k then j * (b - v[j]) else 0)
  {
    if k > 0 {
      LeanAfterTwoWrites(v, i, a, j, b, k - 1);
      if k - 1 == i {
        WeightOfChange(i, v[i], a);
      } else if k - 1 == j {
        WeightOfChange(j, v[j], b);
      }
    }
  }

  lemma WeightOfChange(i: int, before: int, after: int)
    ensures i * after == i * before + i * (after - before)
  {
  }

  /** Moving d > 0 from the smaller to the larger of two indices. */
  lemma MovedMass(i: int, j: int, d: int)
    requires i < j && d > 0
    ensures i * -d + j * d > 0
  {
    assert i * -d + j * d == (j - i) * d;
  }

  lemma LeanOfAverage(v: seq<int>, i: nat, j: nat, half: int)
    requires i < j < |v| && half < v[i]
    ensures Lean(v[i := half][j := v[i] + v[j] - half], |v|) > Lean(v, |v|)
  {
    var rest := v[i] + v[j] - half;
    LeanAfterTwoWrites(v, i, half, j, rest, |v|);
    MovedMass(i, j, v[i] - half);
    assert half - v[i] == -(v[i] - half) && rest - v[j] == v[i] - half;
  }

  lemma SwapWrites(v: seq<int>, i: nat, a: int, j: nat, b: int)
    requires i < |v| && j < |v| && i != j
    ensures v[i := a][j := b] == v[j := b][i := a]
  {
  }

  /** On a violated contact the kernel moves a positive amount from the smaller body to the larger. */
  lemma AverageMoves(c: Contact, v: seq<int>) returns (i: nat, j: nat, half: int)
    requires c.first < |v| && c.second < |v| && c.first != c.second && !Ordered(v, c)
    ensures i < j < |v| && half < v[i]
    ensures Apply(Average, c, v) == v[i := half][j := v[i] + v[j] - half]
    ensures {i, j} == {c.first, c.second} && 2 * half <= v[i] + v[j] <= 2 * half + 1
  {
    if c.first < c.second {
      i, j := c.first, c.second;
    } else {
      i, j := c.second, c.first;
    }
    half := FloorDiv(v[i] + v[j], 2);
    var (a, b) := Average(c, v[c.first], v[c.second]);
    SwapWrites(v, c.first, a, c.second, b);
  }

  /** A contact's two values meet: they keep their sum and end at most one apart, the larger body's on top. */
  ghost predicate Meet(v: seq<int>, u: seq<int>, c: Contact)
    requires |u| == |v| && c.first < |v| && c.second < |v|
  {
    && u[c.first] + u[c.second] == v[c.first] + v[c.second]
    && Ordered(u, c) && -1 <= u[c.first] - u[c.second] <= 1
    && forall b :: 0 <= b < |v| && !Incident(c, b) ==> u[b] == v[b]
  }

  lemma AverageLeans(c: Contact, v: seq<int>)
    requires c.first < |v| && c.second < |v| && c.first != c.second
    ensures Ordered(v, c) ==> Apply(Average, c, v) == v
    ensures !Ordered(v, c) ==> Lean(Apply(Average, c, v), |v|) > Lean(v, |v|)
    ensures !Ordered(v, c) ==> Meet(v, Apply(Average, c, v), c)
  {
    hide FloorDiv;
    hide Lean;
    if !Ordered(v, c) {
      var i, j, half := AverageMoves(c, v);
      hide Apply;
      LeanOfAverage(v, i, j, half);
    }
  }

  /** A pass over contacts changes nothing exactly when it finds no violation. */
  lemma {:induction false} QuietPassIffOrdered(cs: seq<Contact>, v: seq<int>)
    requires InRange(|v|, cs) && forall i :: 0 <= i < |cs| ==> cs[i].first != cs[i].second
    ensures ApplyAll(Average, cs, v) == v <==> forall i :: 0 <= i < |cs| ==> Ordered(v, cs[i])
    ensures Lean(ApplyAll(Average, cs, v), |v|) >= Lean(v, |v|)
    ensures ApplyAll(Average, cs, v) != v ==> Lean(ApplyAll(Average, cs, v), |v|) > Lean(v, |v|)
  {
    if cs != [] {
      var (head, c) := (cs[..|cs| - 1], cs[|cs| - 1]);
      assert InRange(|v|, head);
      QuietPassIffOrdered(head, v);
      AverageLeans(c, ApplyAll(Average, head, v));
      assert forall i :: 0 <= i < |head| ==> cs[i] == head[i];
    }
  }

  // ---- a gate that is not a theorem ----

  ghost function Violations(v: seq<int>, cs: seq<Contact>): nat
    requires InRange(|v|, cs)
  {
    if cs == [] then 0
    else
      assert InRange(|v|, cs[..|cs| - 1]);
      Violations(v, cs[..|cs| - 1]) + if Ordered(v, cs[|cs| - 1]) then 0 else 1
  }

  function LowerEnd(c: Contact): nat { if c.first < c.second then c.first else c.second }

  function UpperEnd(c: Contact): nat { if c.first < c.second then c.second else c.first }

  /** Contacts that hold body i from below: i is their upper end. */
  function Below(cs: seq<Contact>, i: nat): nat {
    if cs == [] then 0
    else Below(cs[..|cs| - 1], i) + if UpperEnd(cs[|cs| - 1]) == i then 1 else 0
  }

  /** Contacts that hold body j from above: j is their lower end. */
  function Above(cs: seq<Contact>, j: nat): nat {
    if cs == [] then 0
    else Above(cs[..|cs| - 1], j) + if LowerEnd(cs[|cs| - 1]) == j then 1 else 0
  }

  function Parallel(cs: seq<Contact>, i: nat, j: nat): nat {
    if cs == [] then 0
    else Parallel(cs[..|cs| - 1], i, j) + if Joins(cs[|cs| - 1], i, j) then 1 else 0
  }

  /** At each end of every contact hang, away from it, no more contacts in all than run parallel to it. */
  ghost predicate Light(cs: seq<Contact>) {
    forall c :: c in cs ==> LightAt(cs, LowerEnd(c), UpperEnd(c))
  }

  predicate LightAt(cs: seq<Contact>, i: nat, j: nat) {
    Below(cs, i) + Above(cs, j) <= Parallel(cs, i, j)
  }

  /** One average lowers the lower body, raises the upper one and moves nothing else. */
  ghost predicate Averaged(v: seq<int>, u: seq<int>, i: nat, j: nat)
    requires |u| == |v| && i < j < |v|
  {
    && u[i] <= v[i] && v[j] <= u[j] && u[i] <= u[j]
    && forall b :: 0 <= b < |v| && b != i && b != j ==> u[b] == v[b]
  }

  lemma AverageAverages(c: Contact, v: seq<int>)
    requires c.first < |v| && c.second < |v| && c.first != c.second && !Ordered(v, c)
    ensures Averaged(v, Apply(Average, c, v), LowerEnd(c), UpperEnd(c))
  {
  }

  /** Only contacts held from the far side can break, and the parallel ones are mended. */
  lemma {:induction false} AverageBreaksAtMost(v: seq<int>, u: seq<int>, i: nat, j: nat, cs: seq<Contact>)
    requires |u| == |v| && i < j < |v| && Averaged(v, u, i, j) && v[i] > v[j]
    requires InRange(|v|, cs) && forall k :: 0 <= k < |cs| ==> cs[k].first != cs[k].second
    ensures Violations(u, cs) + Parallel(cs, i, j) <= Violations(v, cs) + Below(cs, i) + Above(cs, j)
  {
    if cs != [] {
      var head := cs[..|cs| - 1];
      assert InRange(|v|, head);
      AverageBreaksAtMost(v, u, i, j, head);
    }
  }

  /** No schedule drawn from the contacts, however often repeated, ever raises the count. */
  ghost predicate NeverGrows(n: nat, cs: seq<Contact>)
    requires InRange(n, cs)
  {
    forall v: seq<int>, schedule: seq<Contact>, iterations: nat | |v| == n && DrawnFrom(schedule, cs, n) ::
      Violations(Iterate(schedule, v, iterations), cs) <= Violations(v, cs)
  }

  ghost predicate DrawnFrom(schedule: seq<Contact>, cs: seq<Contact>, n: nat) {
    InRange(n, schedule) && forall c :: c in schedule ==> c in cs
  }

  lemma {:induction false} LightPassNeverGrows(cs: seq<Contact>, schedule: seq<Contact>, v: seq<int>)
    requires InRange(|v|, cs) && Light(cs) && DrawnFrom(schedule, cs, |v|)
    requires forall k :: 0 <= k < |cs| ==> cs[k].first != cs[k].second
    ensures Violations(ApplyAll(Average, schedule, v), cs) <= Violations(v, cs)
  {
    if schedule != [] {
      var (head, c) := (schedule[..|schedule| - 1], schedule[|schedule| - 1]);
      LightPassNeverGrows(cs, head, v);
      var u := ApplyAll(Average, head, v);
      assert c in cs;
      AverageLeans(c, u);
      if !Ordered(u, c) {
        AverageAverages(c, u);
        AverageBreaksAtMost(u, Apply(Average, c, u), LowerEnd(c), UpperEnd(c), cs);
      }
    }
  }

  lemma {:induction false} LightNeverGrows(cs: seq<Contact>, schedule: seq<Contact>, v: seq<int>, iterations: nat)
    requires InRange(|v|, cs) && Light(cs) && DrawnFrom(schedule, cs, |v|)
    requires forall k :: 0 <= k < |cs| ==> cs[k].first != cs[k].second
    ensures Violations(Iterate(schedule, v, iterations), cs) <= Violations(v, cs)
  {
    if iterations > 0 {
      LightNeverGrows(cs, schedule, v, iterations - 1);
      LightPassNeverGrows(cs, schedule, Iterate(schedule, v, iterations - 1));
    }
  }

  /** The data on which averaging i and j breaks everything it can: high up to i, low from there on. */
  function Worst(n: nat, i: nat): (v: seq<int>)
    ensures |v| == n
  {
    seq(n, b requires 0 <= b < n => if b <= i then 2 else 0)
  }

  lemma {:induction false} WorstBreaksAll(n: nat, i: nat, j: nat, u: seq<int>, cs: seq<Contact>)
    requires i < j < n && u == Worst(n, i)[i := 1][j := 1]
    requires InRange(n, cs) && forall k :: 0 <= k < |cs| ==> cs[k].first != cs[k].second
    ensures Violations(u, cs) + Parallel(cs, i, j) == Violations(Worst(n, i), cs) + Below(cs, i) + Above(cs, j)
  {
    if cs != [] {
      var head := cs[..|cs| - 1];
      assert InRange(n, head);
      WorstBreaksAll(n, i, j, u, head);
    }
  }

  lemma AverageOfWorst(n: nat, c: Contact)
    requires c.first < n && c.second < n && c.first != c.second
    ensures Apply(Average, c, Worst(n, LowerEnd(c))) == Worst(n, LowerEnd(c))[LowerEnd(c) := 1][UpperEnd(c) := 1]
  {
  }

  lemma HeavyContactGrows(n: nat, cs: seq<Contact>, c: Contact)
    requires InRange(n, cs) && c in cs && !LightAt(cs, LowerEnd(c), UpperEnd(c))
    requires forall k :: 0 <= k < |cs| ==> cs[k].first != cs[k].second
    ensures c.first < n && c.second < n && DrawnFrom([c], cs, n)
    ensures Violations(Iterate([c], Worst(n, LowerEnd(c)), 1), cs) > Violations(Worst(n, LowerEnd(c)), cs)
  {
    var (i, j, v) := (LowerEnd(c), UpperEnd(c), Worst(n, LowerEnd(c)));
    assert [c][..0] == [];
    assert Iterate([c], v, 0) == v && ApplyAll(Average, [c], v) == Apply(Average, c, v);
    AverageOfWorst(n, c);
    hide Apply;
    hide Average;
    hide Worst;
    WorstBreaksAll(n, i, j, v[i := 1][j := 1], cs);
  }

  /**
   The gate holds for all data, all schedules over the contacts and all iteration counts exactly
   when the contacts are light, which the contact list alone decides.
   */
  lemma GateHoldsIffLight(n: nat, cs: seq<Contact>)
    requires InRange(n, cs) && forall k :: 0 <= k < |cs| ==> cs[k].first != cs[k].second
    ensures NeverGrows(n, cs) <==> Light(cs)
  {
    if Light(cs) {
      forall v: seq<int>, schedule: seq<Contact>, iterations: nat | |v| == n && DrawnFrom(schedule, cs, n)
        ensures Violations(Iterate(schedule, v, iterations), cs) <= Violations(v, cs)
      {
        LightNeverGrows(cs, schedule, v, iterations);
      }
    } else {
      var c :| c in cs && !LightAt(cs, LowerEnd(c), UpperEnd(c));
      HeavyContactGrows(n, cs, c);
    }
  }

  /** No body is the upper end of one contact and the lower end of another. */
  ghost predicate NoRelay(cs: seq<Contact>) {
    forall c, d :: c in cs && d in cs ==> UpperEnd(c) != LowerEnd(d)
  }

  lemma {:induction false} CountsOfNothing(cs: seq<Contact>, i: nat)
    ensures (forall c :: c in cs ==> UpperEnd(c) != i) ==> Below(cs, i) == 0
    ensures (forall c :: c in cs ==> LowerEnd(c) != i) ==> Above(cs, i) == 0
  {
    if cs != [] {
      CountsOfNothing(cs[..|cs| - 1], i);
      assert cs == cs[..|cs| - 1] + [cs[|cs| - 1]];
    }
  }

  lemma {:induction false} CountsShareContacts(cs: seq<Contact>, i: nat, j: nat)
    requires i < j
    ensures Below(cs, i) + Above(cs, j) + Parallel(cs, i, j) <= |cs|
    ensures (exists c :: c in cs && Joins(c, i, j)) ==> Parallel(cs, i, j) >= 1
  {
    if cs != [] {
      CountsShareContacts(cs[..|cs| - 1], i, j);
      assert cs == cs[..|cs| - 1] + [cs[|cs| - 1]];
    }
  }

  /** Two families the gate is safe on: contacts without relays, and islands of at most two contacts. */
  lemma LightFamilies(cs: seq<Contact>)
    requires forall k :: 0 <= k < |cs| ==> cs[k].first != cs[k].second
    requires NoRelay(cs) || |cs| <= 2
    ensures Light(cs)
  {
    forall c | c in cs ensures LightAt(cs, LowerEnd(c), UpperEnd(c)) {
      CountsOfNothing(cs, LowerEnd(c));
      CountsOfNothing(cs, UpperEnd(c));
      CountsShareContacts(cs, LowerEnd(c), UpperEnd(c));
      assert Joins(c, LowerEnd(c), UpperEnd(c));
    }
  }

  /** Contacts 0-1 and 2-3 have colour 0 and contact 1-2 has colour 1. */
  const FOUR_CHAIN := [Contact(0, 1), Contact(1, 2), Contact(2, 3)]
  const FOUR_CHAIN_BY_COLOUR := [Contact(0, 1), Contact(2, 3), Contact(1, 2)]

  function Iterate(cs: seq<Contact>, v: seq<int>, iterations: nat): (r: seq<int>)
    requires InRange(|v|, cs)
    ensures |r| == |v|
  {
    if iterations == 0 then v else ApplyAll(Average, cs, Iterate(cs, v, iterations - 1))
  }

  lemma OnFourChain(v: seq<int>, a: int, b: int, c: int, d: int, p: int, q: int, r: int, s: int, x: int, y: int)
    requires v == [a, b, c, d]
    requires (p, q) == Average(Contact(0, 1), a, b) && (r, s) == Average(Contact(2, 3), c, d)
    requires (x, y) == Average(Contact(1, 2), q, r)
    ensures InRange(4, FOUR_CHAIN_BY_COLOUR) && ApplyAll(Average, FOUR_CHAIN_BY_COLOUR, v) == [p, x, y, s]
  {
    var cs := FOUR_CHAIN_BY_COLOUR;
    assert cs[..2] == [Contact(0, 1), Contact(2, 3)] && cs[..2][..1] == [Contact(0, 1)] && cs[..2][..1][..0] == [];
    assert ApplyAll(Average, cs[..2][..1], v) == [p, q, c, d];
    assert ApplyAll(Average, cs[..2], v) == [p, q, r, s];
  }

  lemma ViolationsOnFourChain(a: int, b: int, c: int, d: int)
    ensures InRange(4, FOUR_CHAIN)
    ensures Violations([a, b, c, d], FOUR_CHAIN)
      == (if a <= b then 0 else 1) + (if b <= c then 0 else 1) + (if c <= d then 0 else 1)
  {
    var (v, cs) := ([a, b, c, d], FOUR_CHAIN);
    assert cs[..2] == [Contact(0, 1), Contact(1, 2)] && cs[..2][..1] == [Contact(0, 1)] && cs[..2][..1][..0] == [];
    assert Violations(v, cs[..2][..1]) == if a <= b then 0 else 1;
    assert Violations(v, cs[..2]) == (if a <= b then 0 else 1) + if b <= c then 0 else 1;
  }

  /** The middle contact is held at both ends. */
  lemma FourChainIsHeavy()
    ensures !Light(FOUR_CHAIN)
  {
    var cs := FOUR_CHAIN;
    assert cs[..2] == [Contact(0, 1), Contact(1, 2)] && cs[..2][..1] == [Contact(0, 1)] && cs[..2][..1][..0] == [];
    assert Below(cs[..2][..1], 1) == 1;
    assert Below(cs[..2], 1) == 1;
    assert Below(cs, 1) == 1 && Above(cs, 2) >= 1;
    assert Parallel(cs[..2][..1], 1, 2) == 0 && Parallel(cs[..2], 1, 2) == 1 && Parallel(cs, 1, 2) == 1;
    assert cs[1] in cs && LowerEnd(cs[1]) == 1 && UpperEnd(cs[1]) == 2;
  }

  /** Four iterations on [100, 0, 0, 0] turn one violated contact into two. */
  lemma ViolationsMayGrow()
    ensures InRange(4, FOUR_CHAIN) && InRange(4, FOUR_CHAIN_BY_COLOUR)
    ensures Iterate(FOUR_CHAIN_BY_COLOUR, [100, 0, 0, 0], 4) == [28, 25, 25, 22]
    ensures Violations([100, 0, 0, 0], FOUR_CHAIN) == 1 && Violations([28, 25, 25, 22], FOUR_CHAIN) == 2
    ensures !Light(FOUR_CHAIN)
  {
    FourChainIsHeavy();
    OnFourChain([100, 0, 0, 0], 100, 0, 0, 0, 50, 50, 0, 0, 25, 25);
    OnFourChain([50, 25, 25, 0], 50, 25, 25, 0, 37, 38, 12, 13, 25, 25);
    OnFourChain([37, 25, 25, 13], 37, 25, 25, 13, 31, 31, 19, 19, 25, 25);
    OnFourChain([31, 25, 25, 19], 31, 25, 25, 19, 28, 28, 22, 22, 25, 25);
    ViolationsOnFourChain(100, 0, 0, 0);
    ViolationsOnFourChain(28, 25, 25, 22);
  }
}
