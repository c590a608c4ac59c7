/**
 History kept in a ring indexed by frame modulo capacity, against the sliding window it stands for:
 the tagged ring of the engine, the untagged slot arrays of the history fuzzers, and every
 interleaving of captures and truncations.
 */
module FrameRing {

  import opened Wrappers

  /** The reference: consecutive frames, oldest first.  A window without states has no frames. */
  datatype Window<T> = Window(first: nat, states: seq<T>) {
    predicate Has(frame: nat) {
      first <= frame < first + |states|
    }

    function At(frame: nat): T
      requires Has(frame)
    {
      states[frame - first]
    }

    function Last(): nat
      requires states != []
    {
      first + |states| - 1
    }

    /** Append the next frame; forget the oldest one when the window is full. */
    function Slide(frame: nat, value: T, capacity: nat): Window<T>
      requires 0 < capacity
    {
      if states == [] then Window(frame, [value])
      else if |states| < capacity then Window(first, states + [value])
      else Window(first + 1, states[1..] + [value])
    }

    /** Forget every frame after this one. */
    function Cut(frame: nat): Window<T>
      requires Has(frame)
    {
      Window(first, states[..frame - first + 1])
    }
  }

  // ---- slots ----

  function SlotIndex(frame: nat, capacity: nat): (i: nat)
    requires 0 < capacity
    ensures i < capacity
  {
    frame % capacity
  }

  lemma AtLeastOnce(q: int, capacity: int)
    requires 1 <= q && 0 < capacity
    ensures q * capacity >= capacity
  {
    assert q * capacity == (q - 1) * capacity + capacity;
  }

  lemma MultipleOf(q: int, capacity: int, d: int)
    requires 0 < capacity && d == q * capacity && -capacity < d < capacity
    ensures d == 0
  {
    if q >= 1 {
      AtLeastOnce(q, capacity);
    } else if q <= -1 {
      AtLeastOnce(-q, capacity);
    }
  }

  /** Frames less than a capacity apart never share a slot. */
  lemma SlotsDiffer(f: nat, g: nat, capacity: nat)
    requires 0 < capacity && f <= g < f + capacity
    requires SlotIndex(f, capacity) == SlotIndex(g, capacity)
    ensures f == g
  {
    var (p, q) := (f / capacity, g / capacity);
    assert f == p * capacity + f % capacity && g == q * capacity + g % capacity;
    assert (q - p) * capacity == q * capacity - p * capacity;
    MultipleOf(q - p, capacity, g - f);
  }

  lemma SlotRepeats(f: nat, capacity: nat)
    requires 0 < capacity
    ensures SlotIndex(f + capacity, capacity) == SlotIndex(f, capacity)
  {
    var p := f / capacity;
    assert f + capacity == (p + 1) * capacity + f % capacity;
    Remainder(p + 1, capacity, f % capacity, f + capacity);
  }

  lemma Remainder(q: nat, capacity: nat, r: nat, x: nat)
    requires r < capacity && x == q * capacity + r
    ensures x % capacity == r
  {
    var d := x / capacity - q;
    assert x == (x / capacity) * capacity + x % capacity;
    assert d * capacity == (x / capacity) * capacity - q * capacity;
    MultipleOf(d, capacity, r - x % capacity);
  }

  // ---- the tagged ring ----

  const MAX_FRAME: nat := 0xFFFF_FFFF_FFFF_FFFF

  datatype Slot<T> = Slot(frame: nat, value: T)

  datatype RingError = Fine | WouldWrap | NotConsecutive | NotRetained

  ghost predicate Holds<T>(slots: seq<Option<Slot<T>>>, f: nat)
    requires slots != []
  {
    var slot := slots[SlotIndex(f, |slots|)];
    slot.Some? && slot.value.frame == f
  }

  ghost function Stored<T>(slots: seq<Option<Slot<T>>>, f: nat): T
    requires slots != [] && Holds(slots, f)
  {
    slots[SlotIndex(f, |slots|)].value.value
  }

  /** Occupied slots are exactly the frames from oldest to latest, each in its own slot. */
  ghost predicate Occupied<T>(slots: seq<Option<Slot<T>>>, oldest: nat, latest: nat) {
    && oldest <= latest < oldest + |slots|
    && (forall f: nat :: oldest <= f <= latest ==> Holds(slots, f))
    && (forall i: nat :: i < |slots| && slots[i].Some? ==>
      oldest <= slots[i].value.frame <= latest && SlotIndex(slots[i].value.frame, |slots|) == i)
  }

  ghost function WindowOf<T>(slots: seq<Option<Slot<T>>>, oldest: nat, latest: nat): (w: Window<T>)
    requires Occupied(slots, oldest, latest)
    ensures w.first == oldest && |w.states| == latest - oldest + 1
    ensures forall f: nat :: oldest <= f <= latest ==> w.At(f) == Stored(slots, f)
  {
    Window(oldest, seq(latest - oldest + 1, i requires 0 <= i < latest - oldest + 1 => Stored(slots, oldest + i)))
  }

  function OldestAfter(oldest: nat, frame: nat, capacity: nat): nat
    requires oldest <= frame
  {
    if frame - oldest + 1 > capacity then frame - capacity + 1 else oldest
  }

  lemma FirstCapture<T>(slots: seq<Option<Slot<T>>>, frame: nat, value: T)
    requires slots != [] && forall i :: 0 <= i < |slots| ==> slots[i].None?
    ensures Occupied(slots[SlotIndex(frame, |slots|) := Some(Slot(frame, value))], frame, frame)
    ensures WindowOf(slots[SlotIndex(frame, |slots|) := Some(Slot(frame, value))], frame, frame)
      == Window(frame, [value])
  {
  }

  /** The slots with the next frame written. */
  ghost function WithNext<T>(slots: seq<Option<Slot<T>>>, frame: nat, value: T): (r: seq<Option<Slot<T>>>)
    requires slots != []
    ensures |r| == |slots|
  {
    slots[SlotIndex(frame, |slots|) := Some(Slot(frame, value))]
  }

  lemma NextHolds<T>(slots: seq<Option<Slot<T>>>, frame: nat, value: T, g: nat)
    requires slots != []
    requires g < frame < g + |slots| ==> Holds(slots, g)
    ensures Holds(WithNext(slots, frame, value), frame) && Stored(WithNext(slots, frame, value), frame) == value
    ensures g < frame < g + |slots| ==>
      Holds(WithNext(slots, frame, value), g) && Stored(WithNext(slots, frame, value), g) == Stored(slots, g)
  {
    if g < frame < g + |slots| && SlotIndex(g, |slots|) == SlotIndex(frame, |slots|) {
      SlotsDiffer(g, frame, |slots|);
    }
  }

  /** The frame that leaves the window had the slot that is written. */
  lemma NextEvicts<T>(slots: seq<Option<Slot<T>>>, oldest: nat, latest: nat, value: T, i: nat)
    requires Occupied(slots, oldest, latest) && i < |slots|
    ensures var (frame, now) := (latest + 1, WithNext(slots, latest + 1, value));
      now[i].Some? ==>
        OldestAfter(oldest, frame, |slots|) <= now[i].value.frame <= frame && SlotIndex(now[i].value.frame, |slots|) == i
  {
    if latest + 1 == oldest + |slots| {
      SlotRepeats(oldest, |slots|);
    }
  }

  lemma NextIsOccupied<T>(slots: seq<Option<Slot<T>>>, oldest: nat, latest: nat, value: T)
    requires Occupied(slots, oldest, latest)
    ensures Occupied(WithNext(slots, latest + 1, value), OldestAfter(oldest, latest + 1, |slots|), latest + 1)
  {
    var (frame, now) := (latest + 1, WithNext(slots, latest + 1, value));
    var first := OldestAfter(oldest, frame, |slots|);
    forall g: nat | first <= g <= frame ensures Holds(now, g) {
      NextHolds(slots, frame, value, g);
    }
    hide Holds;
    hide SlotIndex;
    forall i: nat | i < |now| && now[i].Some?
      ensures first <= now[i].value.frame <= frame && SlotIndex(now[i].value.frame, |now|) == i
    {
      NextEvicts(slots, oldest, latest, value, i);
    }
  }

  /** Writing the next frame evicts nothing, or exactly the frame that leaves the window. */
  lemma NextCapture<T>(slots: seq<Option<Slot<T>>>, oldest: nat, latest: nat, value: T)
    requires Occupied(slots, oldest, latest)
    ensures var (frame, capacity) := (latest + 1, |slots|);
      var now := slots[SlotIndex(frame, capacity) := Some(Slot(frame, value))];
      && Occupied(now, OldestAfter(oldest, frame, capacity), frame)
      && WindowOf(now, OldestAfter(oldest, frame, capacity), frame)
        == WindowOf(slots, oldest, latest).Slide(frame, value, capacity)
  {
    var (frame, now) := (latest + 1, WithNext(slots, latest + 1, value));
    var first := OldestAfter(oldest, frame, |slots|);
    NextIsOccupied(slots, oldest, latest, value);
    forall g: nat | first <= g <= frame
      ensures Holds(now, g) && (g <= latest ==> Holds(slots, g))
      ensures Stored(now, g) == if g == frame then value else Stored(slots, g)
    {
      NextHolds(slots, frame, value, g);
    }
    hide Occupied;
    hide Holds;
    hide Stored;
    assert WindowOf(now, first, frame).states == WindowOf(slots, oldest, latest).Slide(frame, value, |slots|).states;
  }

  /** The slots once the frames after `frame` and before `current` are cleared. */
  ghost function Kept<T>(slots: seq<Option<Slot<T>>>, frame: nat, current: nat): (r: seq<Option<Slot<T>>>)
    ensures |r| == |slots|
  {
    seq(|slots|, i requires 0 <= i < |slots| =>
      if slots[i].Some? && frame < slots[i].value.frame < current then None else slots[i])
  }

  lemma ClearOne<T>(slots: seq<Option<Slot<T>>>, oldest: nat, latest: nat, frame: nat, current: nat)
    requires Occupied(slots, oldest, latest) && oldest <= frame < current <= latest
    ensures Kept(slots, frame, current + 1) == Kept(slots, frame, current)[SlotIndex(current, |slots|) := None]
    ensures Kept(slots, frame, current)[SlotIndex(current, |slots|)].Some?
    ensures Kept(slots, frame, current)[SlotIndex(current, |slots|)].value.frame == current
  {
    hide SlotIndex;
    assert Holds(slots, current);
  }

  lemma KeptIsCut<T>(slots: seq<Option<Slot<T>>>, oldest: nat, latest: nat, frame: nat)
    requires Occupied(slots, oldest, latest) && oldest <= frame <= latest
    ensures Kept(slots, frame, frame + 1) == slots
    ensures Occupied(Kept(slots, frame, latest + 1), oldest, frame)
    ensures WindowOf(Kept(slots, frame, latest + 1), oldest, frame) == WindowOf(slots, oldest, latest).Cut(frame)
  {
    hide SlotIndex;
    var kept := Kept(slots, frame, latest + 1);
    forall g: nat | oldest <= g <= frame ensures Holds(kept, g) && Stored(kept, g) == Stored(slots, g) {
      assert Holds(slots, g);
    }
    assert Occupied(kept, oldest, frame);
    assert WindowOf(kept, oldest, frame).states == WindowOf(slots, oldest, latest).Cut(frame).states;
  }

  class IndexedFrameRing<T(0)> {
    const slots: array<Option<Slot<T>>>
    var oldest: Option<nat>
    var latest: Option<nat>

    ghost predicate Valid()
      reads this, slots
    {
      && 0 < slots.Length
      && (oldest.None? <==> latest.None?)
      && (oldest.None? ==> forall i :: 0 <= i < slots.Length ==> slots[i].None?)
      && (oldest.Some? ==> latest.value <= MAX_FRAME && Occupied(slots[..], oldest.value, latest.value))
    }

    ghost function Retained(): (w: Window<T>)
      reads this, slots
      requires Valid()
      ensures |w.states| <= slots.Length
    {
      if oldest.None? then Window(0, []) else WindowOf(slots[..], oldest.value, latest.value)
    }

    constructor (capacity: nat)
      requires 0 < capacity
      ensures Valid() && fresh(slots) && slots.Length == capacity
      ensures Retained() == Window(0, [])
    {
      slots := new Option<Slot<T>>[capacity](_ => None);
      oldest := None;
      latest := None;
    }

    /** Null for a zero capacity, which the source refuses. */
    static method Make(capacity: nat) returns (ring: IndexedFrameRing?<T>)
      ensures ring == null <==> capacity == 0
      ensures ring != null ==> fresh(ring) && fresh(ring.slots) && ring.Valid() && ring.slots.Length == capacity
      ensures ring != null ==> ring.Retained() == Window(0, [])
    {
      if capacity == 0 {
        return null;
      }
      ring := new IndexedFrameRing(capacity);
    }

    predicate Contains(frame: nat)
      reads this, slots
      requires Valid()
      ensures Contains(frame) <==> Retained().Has(frame)
    {
      if oldest.None? || frame < oldest.value || frame > latest.value then false
      else
        assert Holds(slots[..], frame);
        var slot := slots[SlotIndex(frame, slots.Length)];
        slot.Some? && slot.value.frame == frame
    }

    function At(frame: nat): (r: Option<T>)
      reads this, slots
      requires Valid()
      ensures r == if Retained().Has(frame) then Some(Retained().At(frame)) else None
    {
      if !Contains(frame) then None
      else
        assert Retained().At(frame) == Stored(slots[..], frame);
        Some(slots[SlotIndex(frame, slots.Length)].value.value)
    }

    method Capture(frame: nat, value: T) returns (e: RingError)
      requires Valid() && frame <= MAX_FRAME
      modifies this`oldest, this`latest, slots
      ensures Valid()
      ensures e.WouldWrap? <==> old(latest) == Some(0xFFFF_FFFF_FFFF_FFFF)
      ensures e.NotConsecutive? <==>
        old(latest).Some? && old(latest).value != MAX_FRAME && frame != old(latest).value + 1
      ensures e != NotRetained
      ensures e.Fine? ==> Retained() == old(Retained()).Slide(frame, value, slots.Length)
      ensures !e.Fine? ==> Retained() == old(Retained())
    {
      if latest.Some? {
        if latest.value == MAX_FRAME {
          return WouldWrap;
        }
        if frame != latest.value + 1 {
          return NotConsecutive;
        }
        NextCapture(slots[..], oldest.value, latest.value, value);
      } else {
        FirstCapture(slots[..], frame, value);
      }
      ghost var was := slots[..];
      slots[SlotIndex(frame, slots.Length)] := Some(Slot(frame, value));
      assert slots[..] == was[SlotIndex(frame, |was|) := Some(Slot(frame, value))];
      latest := Some(frame);
      if oldest.None? {
        oldest := Some(frame);
      }
      var retained := latest.value - oldest.value + 1;
      if retained > slots.Length {
        oldest := Some(latest.value - slots.Length + 1);
      }
      e := Fine;
    }

    /**
     Forget every frame after the given one.  The counter is a 64-bit word: in a ring whose latest
     frame is the last representable one a retained frame is excluded, because there the loop has no end.
     */
    method TruncateAfter(frame: nat) returns (e: RingError)
      requires Valid() && (latest == Some(MAX_FRAME) ==> !Retained().Has(frame))
      modifies this`latest, slots
      ensures Valid()
      ensures e == if old(latest).None? || old(Retained()).Has(frame) then Fine else NotRetained
      ensures Retained() == if old(Retained()).Has(frame) then old(Retained()).Cut(frame) else old(Retained())
    {
      if latest.None? {
        return Fine;
      }
      if !Contains(frame) {
        return NotRetained;
      }
      var last := latest.value;
      ghost var (was, first) := (slots[..], oldest.value);
      KeptIsCut(was, first, last, frame);
      hide Kept;
      hide SlotIndex;
      for current := frame + 1 to last + 1
        invariant latest == Some(last) && oldest == Some(first)
        invariant slots[..] == Kept(was, frame, current)
      {
        ClearOne(was, first, last, frame, current);
        var i := SlotIndex(current, slots.Length);
        if slots[i].Some? && slots[i].value.frame == current {
          slots[i] := None;
        }
        assert slots[..] == Kept(was, frame, current)[i := None];
      }
      latest := Some(frame);
      e := Fine;
    }
  }

  // ---- whole runs ----

  /** What a history fuzzer does: record the next frame, or go back to a retained one. */
  datatype Step<T> = Record(value: T) | Rewind(frame: nat)

  /** The window after one step; rewinding to a frame that is not retained changes nothing. */
  function After<T>(w: Window<T>, step: Step<T>, capacity: nat): Window<T>
    requires 0 < capacity && w.states != []
  {
    match step
    case Record(value) => w.Slide(w.Last() + 1, value, capacity)
    case Rewind(frame) => if w.Has(frame) then w.Cut(frame) else w
  }

  /** The window after a run that starts with one captured frame. */
  function Ran<T>(start: nat, initial: T, steps: seq<Step<T>>, capacity: nat): (w: Window<T>)
    requires 0 < capacity
    ensures w.states != []
  {
    if steps == [] then Window(start, [initial])
    else After(Ran(start, initial, steps[..|steps| - 1], capacity), steps[|steps| - 1], capacity)
  }

  /** The slot array of the fuzzers: no tags, no clearing, one overwrite per recorded frame. */
  function RanSlots<T>(start: nat, initial: T, steps: seq<Step<T>>, blank: seq<T>): (slots: seq<T>)
    requires blank != []
    ensures |slots| == |blank|
  {
    if steps == [] then blank[SlotIndex(start, |blank|) := initial]
    else
      var (before, step) := (steps[..|steps| - 1], steps[|steps| - 1]);
      var slots := RanSlots(start, initial, before, blank);
      if step.Record? then
        slots[SlotIndex(Ran(start, initial, before, |blank|).Last() + 1, |blank|) := step.value]
      else slots
  }

  /** The value the run stands at, tracked without any history. */
  ghost function RanCurrent<T>(start: nat, initial: T, steps: seq<Step<T>>, capacity: nat): T
    requires 0 < capacity
  {
    if steps == [] then initial
    else
      var (before, step) := (steps[..|steps| - 1], steps[|steps| - 1]);
      var w := Ran(start, initial, before, capacity);
      match step
      case Record(value) => value
      case Rewind(frame) => if w.Has(frame) then w.At(frame) else RanCurrent(start, initial, before, capacity)
  }

  /** After any run the window is within capacity, never starts before the run, and ends at the current value. */
  lemma {:induction false} WindowShape<T>(start: nat, initial: T, steps: seq<Step<T>>, capacity: nat)
    requires 0 < capacity
    ensures var w := Ran(start, initial, steps, capacity);
      1 <= |w.states| <= capacity && start <= w.first && w.At(w.Last()) == RanCurrent(start, initial, steps, capacity)
  {
    if steps != [] {
      WindowShape(start, initial, steps[..|steps| - 1], capacity);
    }
  }

  lemma OverwriteKeepsOthers<T>(slots: seq<T>, w: Window<T>, value: T)
    requires slots != [] && 1 <= |w.states| <= |slots|
    requires forall f: nat :: w.Has(f) ==> slots[SlotIndex(f, |slots|)] == w.At(f)
    ensures var (next, now) := (w.Last() + 1, w.Slide(w.Last() + 1, value, |slots|));
      forall f: nat :: now.Has(f) ==> slots[SlotIndex(next, |slots|) := value][SlotIndex(f, |slots|)] == now.At(f)
  {
    var (next, now) := (w.Last() + 1, w.Slide(w.Last() + 1, value, |slots|));
    forall f: nat | now.Has(f)
      ensures slots[SlotIndex(next, |slots|) := value][SlotIndex(f, |slots|)] == now.At(f)
    {
      if f < next {
        assert w.Has(f) && now.At(f) == w.At(f);
        if SlotIndex(f, |slots|) == SlotIndex(next, |slots|) {
          SlotsDiffer(f, next, |slots|);
        }
      }
    }
  }

  ghost predicate Shows<T>(slots: seq<T>, w: Window<T>)
    requires slots != []
  {
    forall f: nat :: w.Has(f) ==> slots[SlotIndex(f, |slots|)] == w.At(f)
  }

  lemma ShowsAfterRecord<T>(slots: seq<T>, w: Window<T>, value: T)
    requires slots != [] && 1 <= |w.states| <= |slots| && Shows(slots, w)
    ensures Shows(slots[SlotIndex(w.Last() + 1, |slots|) := value], After(w, Record(value), |slots|))
  {
    OverwriteKeepsOthers(slots, w, value);
  }

  lemma ShowsAfterRewind<T>(slots: seq<T>, w: Window<T>, frame: nat)
    requires slots != [] && w.states != [] && Shows(slots, w)
    ensures Shows(slots, After(w, Rewind(frame), |slots|))
  {
    hide SlotIndex;
    var cut := After(w, Rewind(frame), |slots|);
    forall f: nat | cut.Has(f) ensures w.Has(f) && cut.At(f) == w.At(f) {
    }
  }

  /**
   The untagged slot array agrees with the window on every retained frame, whatever the
   interleaving: a rewind never lets a stale value show through.
   */
  lemma {:induction false} SlotsShowTheWindow<T>(start: nat, initial: T, steps: seq<Step<T>>, blank: seq<T>)
    requires blank != []
    ensures Shows(RanSlots(start, initial, steps, blank), Ran(start, initial, steps, |blank|))
  {
    hide SlotIndex;
    if steps == [] {
      FirstSlotShows(start, initial, blank);
    } else {
      var (before, step) := (steps[..|steps| - 1], steps[|steps| - 1]);
      SlotsShowTheWindow(start, initial, before, blank);
      WindowShape(start, initial, before, |blank|);
      hide Shows;
      hide After;
      var (slots, w) := (RanSlots(start, initial, before, blank), Ran(start, initial, before, |blank|));
      match step
      case Record(value) => ShowsAfterRecord(slots, w, value);
      case Rewind(frame) => ShowsAfterRewind(slots, w, frame);
    }
  }

  lemma FirstSlotShows<T>(start: nat, initial: T, blank: seq<T>)
    requires blank != []
    ensures Shows(blank[SlotIndex(start, |blank|) := initial], Window(start, [initial]))
  {
  }

  /** The engine's ring driven through a whole run holds exactly the window, and refuses only lost frames. */
  method DriveRing<T(0)>(start: nat, initial: T, steps: seq<Step<T>>, capacity: nat) returns (ring: IndexedFrameRing<T>)
    requires 0 < capacity && start + |steps| < MAX_FRAME
    ensures ring.Valid() && ring.slots.Length == capacity
    ensures ring.Retained() == Ran(start, initial, steps, capacity)
  {
    ring := new IndexedFrameRing(capacity);
    var e := ring.Capture(start, initial);
    for i := 0 to |steps|
      invariant fresh(ring) && fresh(ring.slots) && ring.Valid() && ring.slots.Length == capacity && ring.latest.Some?
      invariant ring.Retained() == Ran(start, initial, steps[..i], capacity) && ring.latest.value <= start + i
    {
      assert steps[..i + 1][..i] == steps[..i];
      match steps[i]
      case Record(value) => e := ring.Capture(ring.latest.value + 1, value);
      case Rewind(frame) => e := ring.TruncateAfter(frame);
    }
    assert steps[..|steps|] == steps;
  }

  /** The clearing loop's 64-bit counter after k rounds. */
  function ClearingCounter(frame: nat, k: nat): nat {
    (frame + 1 + k) % (MAX_FRAME + 1)
  }

  /** It passes the latest frame, which ends the loop, exactly when that frame has a successor. */
  lemma ClearingEndsIff(frame: nat, latest: nat)
    requires frame <= latest <= 0xFFFF_FFFF_FFFF_FFFF
    ensures (exists k: nat :: ClearingCounter(frame, k) > latest) <==> latest < 0xFFFF_FFFF_FFFF_FFFF
  {
    if latest < MAX_FRAME {
      assert ClearingCounter(frame, latest - frame) == latest + 1;
    }
  }
}
