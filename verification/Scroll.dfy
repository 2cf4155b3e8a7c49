/** Scroll offsets of lists: `scroll_offset_for` and its version for rows of several lines. */
module Scroll {

  function Min(a: nat, b: nat): nat {
    if a <= b then a else b
  }

  /** Saturating subtraction. */
  function Minus(a: nat, b: nat): nat {
    if a >= b then a - b else 0
  }

  function OffsetFor(selected: nat, oldOffset: nat, viewport: nat, len: nat): nat {
    if len == 0 || viewport == 0 then 0
    else
      var selected := Min(selected, len - 1);
      var maxOffset := Minus(len, viewport);
      if selected < oldOffset then selected
      else if selected >= oldOffset + viewport then Min(Minus(selected, viewport - 1), maxOffset)
      else Min(oldOffset, maxOffset)
  }

  function Clamp(x: nat, lo: nat, hi: nat): nat
    requires lo <= hi
  {
    if x < lo then lo else if x > hi then hi else x
  }

  function OffsetForRow(start: nat, end: nat, oldOffset: nat, viewport: nat, len: nat): nat {
    if len == 0 || viewport == 0 then 0
    else
      var maxOffset := Minus(len, viewport);
      var start := Min(start, len - 1);
      var end := Clamp(end, start + 1, len);
      if start < oldOffset then Min(start, maxOffset)
      else if end > oldOffset + viewport then Min(Min(Minus(end, viewport), start), maxOffset)
      else Min(oldOffset, maxOffset)
  }

  /** The window at offset o shows rows start to end of a list of len rows. */
  predicate Shows(o: nat, start: nat, end: nat, viewport: nat) {
    o <= start && end <= o + viewport
  }

  function Distance(a: nat, b: nat): nat {
    if a <= b then b - a else a - b
  }

  /** The selected row is always in the window, and no window in range that shows it is
      nearer to the old one. */
  lemma OffsetShowsSelected(selected: nat, oldOffset: nat, viewport: nat, len: nat)
    requires viewport > 0 && selected < len
    ensures var o := OffsetFor(selected, oldOffset, viewport, len);
      && Shows(o, selected, selected + 1, viewport)
      && (oldOffset <= Minus(len, viewport) ==>
            forall p: nat :: Shows(p, selected, selected + 1, viewport) ==>
              Distance(o, oldOffset) <= Distance(p, oldOffset))
  {}

  /** The offset stays in range, and a second application changes nothing, exactly when a
      selection past the last full window was not scrolled up to. */
  lemma OffsetInRangeIff(selected: nat, oldOffset: nat, viewport: nat, len: nat)
    requires viewport > 0 && selected < len
    ensures var o := OffsetFor(selected, oldOffset, viewport, len); var max := Minus(len, viewport);
      && (o <= max <==> !(max < selected < oldOffset))
      && (OffsetFor(selected, o, viewport, len) == o <==> !(max < selected < oldOffset))
  {}

  /** A span that fits the viewport ends up wholly inside the window, and no other window
      in range that shows it is nearer to the old one; a taller span is aligned to its top. */
  lemma RowOffsetShowsSpan(start: nat, end: nat, oldOffset: nat, viewport: nat, len: nat)
    requires viewport > 0 && start < end <= len
    ensures var o := OffsetForRow(start, end, oldOffset, viewport, len); var max := Minus(len, viewport);
      && o <= max
      && (end - start <= viewport ==>
            && Shows(o, start, end, viewport)
            && forall p: nat :: p <= max && Shows(p, start, end, viewport) ==>
                 Distance(o, oldOffset) <= Distance(p, oldOffset))
      && (end - start > viewport ==> o == start)
  {}

  /** On one-row spans the two agree wherever the simple one stays in range. */
  lemma RowOffsetIsOffset(selected: nat, oldOffset: nat, viewport: nat, len: nat)
    requires viewport > 0 && selected < len
    ensures OffsetForRow(selected, selected + 1, oldOffset, viewport, len)
         == Min(OffsetFor(selected, oldOffset, viewport, len), Minus(len, viewport))
  {}
}
