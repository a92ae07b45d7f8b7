/**
  Keyboard focus over the visible result rows of quicksearch_inline.js: the
  module-level `focusables` list (here only its length) and `keyboardIndex`,
  as changed by clearList, render, updateFocusables and focusStep.
 */
module Focus {
  import opened ClientText
  import opened Grouping

  /** The index `updateFocusables` leaves after the visible rows become `len`. */
  function Clamped(index: int, len: nat): int
  {
    var a := if index >= len then len - 1 else index;
    if a < 0 && len > 0 then 0 else a
  }

  /** The index `focusStep(delta)` leaves over `len` visible rows. */
  function Stepped(index: int, len: nat, delta: int): int
  {
    if len == 0 then index
    else
      var i := index + delta;
      var i' := if i < 0 then 0 else i;
      var i'' := if i' >= len then len - 1 else i';
      if i'' == index then index else i''
  }

  /** An index that names a visible row, or -1 when there is none. */
  predicate InRange(index: int, len: nat)
  {
    -1 <= index < len && (len > 0 ==> 0 <= index)
  }

  /**
    With rows, the clamped index names one of them and a valid index is
    kept; with none, a non-negative index becomes -1 and a negative one is
    kept.
   */
  lemma ClampedSpec(index: int, len: nat)
    ensures len > 0 ==> 0 <= Clamped(index, len) < len
    ensures 0 <= index < len ==> Clamped(index, len) == index
    ensures len > 0 && index >= len ==> Clamped(index, len) == len - 1
    ensures len > 0 && index < 0 ==> Clamped(index, len) == 0
    ensures len == 0 ==> Clamped(index, len) == if index >= 0 then -1 else index
  {
  }

  /** Clamping into a list of rows twice is clamping once, and it keeps InRange. */
  lemma ClampedIdempotent(index: int, len: nat)
    ensures Clamped(Clamped(index, len), len) == Clamped(index, len)
    ensures index >= -1 ==> InRange(Clamped(index, len), len)
  {
  }

  /**
    With no rows a step changes nothing; otherwise it moves by `delta` and
    stops at the first or the last row.
   */
  lemma SteppedSpec(index: int, len: nat, delta: int)
    ensures len == 0 ==> Stepped(index, len, delta) == index
    ensures len > 0 ==> 0 <= Stepped(index, len, delta) < len
    ensures len > 0 && 0 <= index + delta < len ==> Stepped(index, len, delta) == index + delta
    ensures len > 0 && index + delta < 0 ==> Stepped(index, len, delta) == 0
    ensures len > 0 && index + delta >= len ==> Stepped(index, len, delta) == len - 1
  {
  }

  /** A step down then a step up comes back, except from the last row. */
  lemma StepRoundTrip(index: int, len: nat)
    requires 0 <= index < len - 1
    ensures Stepped(Stepped(index, len, 1), len, -1) == index
  {
  }

  /** Steps keep InRange, and a step of 0 from a valid index stays put. */
  lemma SteppedInRange(index: int, len: nat, delta: int)
    requires InRange(index, len)
    ensures InRange(Stepped(index, len, delta), len)
    ensures delta == 0 ==> Stepped(index, len, delta) == index
  {
  }

  /** `focusables` (by its length) and `keyboardIndex`. */
  class KeyboardFocus {
    var len: nat
    var index: int

    predicate Valid()
      reads this
    {
      InRange(index, len)
    }

    /** The module's initial state: no rows, index -1. */
    constructor ()
      ensures len == 0 && index == -1 && Valid()
    {
      len := 0;
      index := -1;
    }

    /** clearList */
    method Clear()
      modifies this
      ensures len == 0 && index == -1 && Valid()
    {
      len := 0;
      index := -1;
    }

    /** updateFocusables, with `newLen` the number of rows now visible. */
    method UpdateFocusables(newLen: nat)
      modifies this
      ensures len == newLen && index == Clamped(old(index), newLen)
      ensures old(index) >= -1 ==> Valid()
    {
      len := newLen;
      if index >= len {
        index := len - 1;
      }
      if index < 0 && len > 0 {
        index := 0;
      }
      ClampedIdempotent(old(index), newLen);
    }

    /** focusStep */
    method FocusStep(delta: int)
      modifies this
      ensures len == old(len) && index == Stepped(old(index), len, delta)
      ensures old(Valid()) ==> Valid()
    {
      if len == 0 {
        return;
      }
      var i := index + delta;
      if i < 0 {
        i := 0;
      }
      if i >= len {
        i := len - 1;
      }
      if i == index {
        return;
      }
      index := i;
    }

    /**
      The focus part of render: clear; with items, lay out the group headers
      and the singles (the children start hidden), focus the first row and
      rebuild the visible list.
     */
    method Render(items: seq<JsItem>)
      modifies this
      ensures var g := GroupItemsSpec(items);
        len == (if items == [] then 0 else |g.groups| + |g.singles|)
      ensures index == (if len == 0 then -1 else 0) && Valid()
    {
      Clear();
      if |items| == 0 {
        return;
      }
      var groups, singles := GroupItems(items);
      index := 0;
      UpdateFocusables(|groups| + |singles|);
    }
  }
}
