/** The composer's text buffer: bytes, markers and slots behind the plain editor. */
module InputBuffer {
  import opened Utf8
  import opened Pastes
  import opened Wrap
  import opened Editor
  import opened Whitespace
  import HitTest
  import Seqs

  /** Text s that follows the prefix a starts and ends on a boundary. */
  lemma SpliceOffsets(v: string, a: string, s: string)
    requires |a| + |s| <= |v| && v[..|a|] == a && v[..|a| + |s|] == a + s
    ensures IsBoundary(v, Len(a)) && IsBoundary(v, Len(a) + Len(s))
    ensures Index(v, Len(a) + Len(s)) == |a| + |s|
  {
    LenConcat(a, s);
    BoundaryAt(v, |a|);
    BoundaryAt(v, |a| + |s|);
  }

  /** A place in the second part of a text is a boundary of the whole exactly when it is
      one of that part. */
  lemma TailBoundary(a: string, b: string, d: nat)
    ensures IsBoundary(a + b, Len(a) + d) <==> IsBoundary(b, d)
  {
    if IsBoundary(b, d) {
      var k: nat :| k <= |b| && Off(b, k) == d;
      OffConcat(a, b, k);
    }
    if IsBoundary(a + b, Len(a) + d) {
      var k: nat :| k <= |a + b| && Off(a + b, k) == Len(a) + d;
      assert (a + b)[..|a|] == a;
      if k < |a| {
        OffMonotone(a + b, k, |a|);
      } else {
        OffConcat(a, b, k - |a|);
      }
    }
  }

  lemma EndBoundary(v: string)
    ensures IsBoundary(v, Len(v)) && IsBoundary(v, 0)
    ensures forall b: nat :: IsBoundary(v, b) ==> b <= Len(v)
  {
    OffEnds(v);
    forall b: nat | IsBoundary(v, b) ensures b <= Len(v) {
      BoundaryIndex(v, b);
    }
  }

  /** What cutting the characters i to j leaves. */
  lemma CutFacts(value: string, pastes: seq<string>, i: nat, j: nat)
    requires i <= j <= |value|
    ensures var v, p := value[..i] + value[j..], Dropped(pastes, value[i..j]);
      && IsBoundary(v, Off(value, i)) && Index(v, Off(value, i)) == i
      && (Table(value, pastes) ==>
            Table(v, p) && Atoms(v, p) == Atoms(value, pastes)[..i] + Atoms(value, pastes)[j..])
  {
    var v := value[..i] + value[j..];
    assert v[..i] == value[..i];
    IndexOff(v, i);
    if Table(value, pastes) {
      CutTable(value, pastes, i, j);
    }
  }

  /** Saturating subtraction. */
  function Minus(a: nat, b: nat): nat {
    if a >= b then a - b else 0
  }

  /** The markers among some characters. */
  function Markers(s: string): string {
    if s == [] then [] else Markers(s[..|s| - 1]) + (if IsMarker(s[|s| - 1]) then [s[|s| - 1]] else [])
  }

  lemma {:induction false} MarkersOnly(s: string, m: char)
    requires IsMarker(m)
    ensures m in Markers(s) <==> m in s
  {
    if s != [] {
      MarkersOnly(s[..|s| - 1], m);
      assert s == s[..|s| - 1] + [s[|s| - 1]];
    }
  }

  /** The last newline of a string, by character. */
  function LastNewline(s: string): (k: Option<nat>)
    ensures k.Some? ==> k.value < |s| && s[k.value] == '\n' && forall i :: k.value < i < |s| ==> s[i] != '\n'
    ensures k.None? ==> forall i :: 0 <= i < |s| ==> s[i] != '\n'
  {
    if s == [] then None
    else if s[|s| - 1] == '\n' then Some(|s| - 1)
    else LastNewline(s[..|s| - 1])
  }

  /** The first newline of a string, by character. */
  function FirstNewline(s: string, from: nat := 0): (k: Option<nat>)
    requires from <= |s|
    ensures k.Some? ==> from <= k.value < |s| && s[k.value] == '\n' && forall i :: from <= i < k.value ==> s[i] != '\n'
    ensures k.None? ==> forall i :: from <= i < |s| ==> s[i] != '\n'
    decreases |s| - from
  {
    if from == |s| then None
    else if s[from] == '\n' then Some(from)
    else FirstNewline(s, from + 1)
  }

  class InputBuffer {
    var value: string
    var cursor: nat
    var scrollOffset: nat
    var anchor: Option<nat>
    var pastes: seq<string>
    const cw: char -> nat

    /** Cursor and anchor lie on character boundaries. */
    ghost predicate Bounded()
      reads this
    {
      IsBoundary(value, cursor) && (anchor.Some? ==> IsBoundary(value, anchor.value))
    }

    ghost predicate Valid()
      reads this
    {
      Bounded() && Table(value, pastes)
    }

    /** Cursor and slots are in order; the anchor may be anywhere. */
    ghost predicate Sound()
      reads this
    {
      IsBoundary(value, cursor) && Table(value, pastes)
    }

    /** The anchor is off the character boundaries: taking the selection out of the text would
        slice it inside a character, or past its end. */
    ghost predicate Stranded()
      reads this
    {
      anchor.Some? && !IsBoundary(value, anchor.value)
    }

    /** An anchor set on the cursor itself: nothing is selected, yet the anchor stays. */
    ghost predicate Collapsed()
      reads this
    {
      anchor == Some(cursor)
    }

    ghost function Model(): (d: Doc)
      reads this
      ensures d.Valid()
    {
      Doc(Atoms(value, pastes), Index(value, cursor))
    }

    ghost function Sel(): (sel: Selection)
      requires Bounded()
      reads this
      ensures Model().Covers(sel)
      ensures sel.None? <==> anchor.None? || Collapsed()
    {
      if anchor.None? || Collapsed() then None
      else
        BoundaryIndex(value, cursor);
        BoundaryIndex(value, anchor.value);
        var a, p := Index(value, anchor.value), Index(value, cursor);
        if a < p then Some((a, p)) else Some((p, a))
    }

    function Page(width: nat): Layout
      reads this
    {
      Layout(if width >= 1 then width else 1, cw, pastes)
    }

    constructor (cw: char -> nat)
      ensures Valid() && Model() == Doc([], 0) && anchor == None && this.cw == cw
      ensures value == [] && pastes == []
    {
      value, cursor, scrollOffset, anchor, pastes := [], 0, 0, None, [];
      this.cw := cw;
      new;
      assert Off(value, 0) == 0;
    }

    method Clear()
      modifies this
      ensures Valid() && Model() == Doc([], 0) && anchor == None
      ensures value == [] && pastes == [] && scrollOffset == 0
    {
      value, cursor, scrollOffset, anchor, pastes := [], 0, 0, None, [];
      assert Off(value, 0) == 0;
    }

    method Set(s: string)
      modifies this
      ensures value == s && cursor == Len(s) && anchor == None && pastes == [] && scrollOffset == 0
      ensures Bounded() && (Clean(s) ==> Valid() && Model() == Doc(Chars(s), |s|))
    {
      value, cursor, scrollOffset, anchor, pastes := s, Len(s), 0, None, [];
      OffEnds(s);
      IndexOff(s, |s|);
    }

    // Selection -----------------------------------------------------------------------

    method AnchorHere()
      modifies this`anchor
      ensures anchor == if old(anchor).None? then Some(cursor) else old(anchor)
    {
      if anchor.None? {
        anchor := Some(cursor);
      }
    }

    method SelectTo(to: nat)
      requires IsBoundary(value, to) || to > Len(value)
      modifies this`anchor, this`cursor
      ensures IsBoundary(value, cursor) && cursor == HitTest.Min(to, Len(value))
      ensures anchor == if old(anchor).None? then Some(old(cursor)) else old(anchor)
    {
      AnchorHere();
      EndBoundary(value);
      cursor := HitTest.Min(to, Len(value));
    }

    method PlaceCursor(byte: nat)
      requires IsBoundary(value, byte) || byte > Len(value)
      modifies this`anchor, this`cursor
      ensures Bounded() && cursor == HitTest.Min(byte, Len(value)) && anchor == None
    {
      EndBoundary(value);
      cursor := HitTest.Min(byte, Len(value));
      anchor := None;
    }

    /** The bytes between anchor and cursor, in order. */
    function Range(): Option<(nat, nat)>
      reads this
    {
      if anchor.None? || anchor.value == cursor then None
      else if anchor.value < cursor then Some((anchor.value, cursor))
      else Some((cursor, anchor.value))
    }

    method SelectedRange() returns (range: Option<(nat, nat)>)
      ensures range == Range()
      ensures Bounded() ==> (range.Some? <==> Sel().Some?)
      ensures Bounded() && range.Some? ==> range.value == (Off(value, Sel().value.0), Off(value, Sel().value.1))
    {
      if anchor.None? {
        return None;
      }
      if Bounded() {
        RangeIsSel();
      }
      var (start, end) := if anchor.value <= cursor then (anchor.value, cursor) else (cursor, anchor.value);
      return if start < end then Some((start, end)) else None;
    }

    lemma RangeIsSel()
      requires Bounded() && anchor.Some?
      ensures Range().Some? <==> Sel().Some?
      ensures Range().Some? ==> Range().value == (Off(value, Sel().value.0), Off(value, Sel().value.1))
    {
      BoundaryIndex(value, cursor);
      BoundaryIndex(value, anchor.value);
      if Index(value, cursor) <= Index(value, anchor.value) {
        OffMonotone(value, Index(value, cursor), Index(value, anchor.value));
      } else {
        OffMonotone(value, Index(value, anchor.value), Index(value, cursor));
      }
    }

    /** The bytes to take out of the text can be sliced off it exactly when the anchor is not
        stranded; every edit slices them first. */
    lemma RangeSlicesIff()
      requires Sound()
      ensures (Range().Some? ==> IsBoundary(value, Range().value.0) && IsBoundary(value, Range().value.1))
         <==> !Stranded()
    {}

    /** The check that slicing the text makes of both ends of the range. */
    method SlicePanics() returns (panics: bool)
      requires Sound()
      ensures panics == Stranded()
    {
      RangeSlicesIff();
      if Range().None? {
        return false;
      }
      var (start, end) := Range().value;
      BoundaryIff(value, start);
      BoundaryIff(value, end);
      return Off(value, Index(value, start)) != start || Off(value, Index(value, end)) != end;
    }

    /** The text a copy takes: the selected atoms, chips expanded.  Copying slices the text as
        edits do, and panics exactly when the anchor is stranded. */
    method SelectedText() returns (text: Option<string>, panicked: bool)
      requires Sound()
      ensures panicked == Stranded()
      ensures !panicked ==> (text.Some? <==> Sel().Some?)
      ensures !panicked && text.Some? ==> text.value == Expand(Model().atoms[Sel().value.0..Sel().value.1])
    {
      panicked := SlicePanics();
      if panicked {
        return None, true;
      }
      var range := SelectedRange();
      if range.None? {
        return None, false;
      }
      var (start, end) := range.value;
      ghost var (i, j) := Sel().value;
      IndexOff(value, i);
      IndexOff(value, j);
      var out := ExpandSlice(Index(value, start), Index(value, end));
      return Some(out), false;
    }

    method ExpandSlice(i: nat, j: nat) returns (out: string)
      requires i <= j <= |value|
      ensures out == Expand(Atoms(value, pastes)[i..j])
    {
      assert Atoms(value[i..j], pastes) == Atoms(value, pastes)[i..j];
      out := ExpandChars(value[i..j]);
    }

    method ExpandChars(s: string) returns (out: string)
      ensures out == Expand(Atoms(s, pastes))
    {
      out := [];
      for i := 0 to |s|
        invariant out == Expand(Atoms(s, pastes)[..i])
      {
        assert Atoms(s, pastes)[..i + 1][..i] == Atoms(s, pastes)[..i];
        if IsMarker(s[i]) {
          out := out + Slot(pastes, MarkerId(s[i]));
        } else {
          out := out + [s[i]];
        }
      }
      assert Atoms(s, pastes)[..|s|] == Atoms(s, pastes);
    }

    /** `expanded`: with every slot empty the text itself is returned. */
    method Expanded() returns (out: string)
      requires Table(value, pastes)
      ensures out == Expand(Model().atoms)
    {
      if forall id :: 0 <= id < |pastes| ==> pastes[id] == [] {
        EmptySlotsExpand(value, pastes);
        return value;
      }
      out := ExpandChars(value);
    }

    // Edits -----------------------------------------------------------------------------

    /** `cut_range`: remove the characters of a byte range and drop the payloads of the
        markers among them. */
    method CutRange(start: nat, end: nat)
      requires IsBoundary(value, start) && IsBoundary(value, end) && start <= end
      modifies this`value, this`pastes
      ensures var (i, j) := (Index(old(value), start), Index(old(value), end));
        && i <= j
        && value == old(value)[..i] + old(value)[j..]
        && pastes == Dropped(old(pastes), old(value)[i..j])
    {
      var i, j := Index(value, start), Index(value, end);
      BoundaryIndex(value, start);
      BoundaryIndex(value, end);
      if j < i {
        OffMonotone(value, j, i);
      }
      ghost var cut := value[i..j];
      var markers := Markers(value[i..j]);
      value := value[..i] + value[j..];
      for k := 0 to |markers|
        invariant pastes == Dropped(old(pastes), markers[..k])
        invariant value == old(value)[..i] + old(value)[j..]
      {
        assert markers[..k + 1] == markers[..k] + [markers[k]];
        DropPaste(markers[k]);
      }
      assert markers[..|markers|] == markers;
      forall m | IsMarker(m) ensures m in markers <==> m in cut {
        MarkersOnly(cut, m);
      }
    }

    method DropPaste(marker: char)
      modifies this`pastes
      ensures pastes == Dropped(old(pastes), [marker])
    {
      if IsMarker(marker) && MarkerId(marker) < |pastes| {
        pastes := pastes[MarkerId(marker) := []];
      }
    }

    /** What is left of text, slots and position once the selection is gone. */
    ghost function Base(): (r: (string, seq<string>, nat))
      requires Bounded()
      reads this
      ensures r.2 <= |r.0|
    {
      if Sel().Some? then
        var (i, j) := Sel().value;
        (value[..i] + value[j..], Dropped(pastes, value[i..j]), i)
      else (value, pastes, Index(value, cursor))
    }

    method DeleteSelection() returns (did: bool)
      requires Bounded()
      modifies this`value, this`pastes, this`cursor, this`anchor
      ensures did <==> old(Sel()).Some?
      ensures Bounded()
      ensures (value, pastes, Index(value, cursor)) == old(Base())
      ensures !did ==> value == old(value) && pastes == old(pastes) && cursor == old(cursor)
      ensures anchor == if old(Collapsed()) then old(anchor) else None
      ensures old(Valid()) ==> Valid() && Model() == old(Model()).Emptied(old(Sel()))
    {
      var range := SelectedRange();
      if range.None? {
        return false;
      }
      var (start, end) := range.value;
      ghost var (i, j) := Sel().value;
      IndexOff(value, i);
      IndexOff(value, j);
      OffMonotone(value, i, j);
      CutFacts(value, pastes, i, j);
      CutRange(start, end);
      cursor := start;
      anchor := None;
      return true;
    }

    /** Insert s at the cursor and step over it. */
    method Splice(s: string)
      requires IsBoundary(value, cursor)
      modifies this`value, this`cursor
      ensures var k := old(Index(value, cursor));
        value == old(value)[..k] + s + old(value)[k..] && Index(value, cursor) == k + |s|
      ensures IsBoundary(value, cursor) && IsBoundary(value, old(cursor))
    {
      BoundaryIndex(value, cursor);
      var k := Index(value, cursor);
      var a, b := value[..k], value[k..];
      Seqs.TakeConcat3(a, s, b);
      SpliceOffsets(a + s + b, a, s);
      value := a + s + b;
      cursor := cursor + Len(s);
    }

    lemma SpliceModel(v: string, k: nat, s: string)
      requires Table(v, pastes) && k <= |v| && Clean(s) && IsBoundary(value, cursor)
      requires value == v[..k] + s + v[k..] && Index(value, cursor) == k + |s|
      ensures Table(value, pastes)
      ensures Model() == Doc(Atoms(v, pastes), k).Insert(None, Chars(s))
    {
      InsertTextTable(v, pastes, k, s);
    }

    method InsertStr(s: string)
      requires Bounded()
      modifies this`value, this`pastes, this`cursor, this`anchor
      ensures Bounded()
      ensures anchor == if old(Collapsed()) then old(anchor) else None
      ensures var (v, p, k) := old(Base());
        && value == v[..k] + s + v[k..] && pastes == p && Index(value, cursor) == k + |s|
      ensures old(Valid()) && Clean(s) ==>
        Valid() && Model() == old(Model()).Insert(old(Sel()), Chars(s))
    {
      ghost var (v, p, k) := Base();
      ghost var e := Model().Emptied(Sel());
      ghost var valid := Valid();
      var did := DeleteSelection();
      Splice(s);
      if valid && Clean(s) {
        SpliceModel(v, k, s);
        assert e == Doc(Atoms(v, pastes), k);
      }
    }

    method InsertChar(c: char)
      requires Bounded()
      modifies this`value, this`pastes, this`cursor, this`anchor
      ensures Bounded()
      ensures anchor == if old(Collapsed()) then old(anchor) else None
      ensures var (v, p, k) := old(Base());
        && value == v[..k] + [c] + v[k..] && pastes == p && Index(value, cursor) == k + 1
      ensures old(Valid()) && !IsMarker(c) ==>
        Valid() && Model() == old(Model()).Insert(old(Sel()), [Char(c)])
    {
      InsertStr([c]);
      assert Chars([c]) == [Char(c)];
    }

    /** `paste`: a long paste takes a fresh slot and leaves its marker in the text. */
    method Paste(text: string)
      requires Valid()
      modifies this`value, this`pastes, this`cursor, this`anchor
      ensures Bounded()
      ensures anchor == if old(Collapsed()) then old(anchor) else None
      ensures Clean(text) ==>
        Valid() && Model() == old(Model()).Insert(old(Sel()), PasteAtoms(text, |old(pastes)|))
    {
      var t := NormalizeNewlines(text);
      if LineCount(t) > COMPACT_PASTE_LINES {
        var marker := PasteMarker(|pastes|);
        if marker.Some? {
          ghost var (v, p, k) := Base();
          BaseTable();
          if Sel().Some? {
            DroppedFresh(value, pastes, Sel().value.0, Sel().value.1, t);
          }
          if Clean(text) {
            NormalizeClean(text);
            InsertChipTable(v, p, k, t);
          }
          pastes := pastes + [t];
          InsertChar(marker.value);
          return;
        }
      }
      if Clean(text) {
        NormalizeClean(text);
      }
      InsertStr(t);
    }

    lemma BaseTable()
      requires Valid()
      ensures Table(Base().0, Base().1)
      ensures |Base().1| == |pastes|
      ensures Doc(Atoms(Base().0, Base().1), Base().2) == Model().Emptied(Sel())
    {
      if Sel().Some? {
        CutFacts(value, pastes, Sel().value.0, Sel().value.1);
      }
    }

    /** Cut the characters i to j, next to the cursor, and leave the cursor at i. */
    method CutTo(i: nat, j: nat)
      requires Sound() && i <= j <= |value|
      modifies this`value, this`pastes, this`cursor
      ensures Sound() && cursor == Off(old(value), i)
      ensures value == old(value)[..i] + old(value)[j..]
      ensures Model() == old(Model()).Cut(i, j)
    {
      IndexOff(value, i);
      IndexOff(value, j);
      OffMonotone(value, i, j);
      CutFacts(value, pastes, i, j);
      var start := Off(value, i);
      CutRange(start, Off(value, j));
      cursor := start;
    }

    /** An anchor left at byte b of the old text is a boundary of the new one exactly when
        the text after the cut happens to have one that far in. */
    lemma StaleAnchor(was: string, i: nat, j: nat)
      requires i <= j <= |was|
      ensures IsBoundary(was[..i] + was[j..], Off(was, j)) <==> IsBoundary(was[j..], Len(was[i..j]))
    {
      assert was[..j] == was[..i] + was[i..j];
      LenConcat(was[..i], was[i..j]);
      TailBoundary(was[..i], was[j..], Len(was[i..j]));
    }

    /** Nothing is selected and the anchor sits on the cursor; a cut from character i up
        to the cursor leaves the anchor inside the text that followed, or past it. */
    ghost predicate Strands(i: nat)
      requires Bounded() && i <= Index(value, cursor)
      reads this
    {
      && Collapsed()
      && var k := Index(value, cursor);
         !IsBoundary(value[k..], Len(value[i..k]))
    }

    method Backspace()
      requires Valid()
      modifies this`value, this`pastes, this`cursor, this`anchor
      ensures Sound() && Model() == old(Model()).Backspace(old(Sel()))
      ensures anchor == if old(Collapsed()) then old(anchor) else None
      ensures Valid() <==> !(old(Model()).pos > 0 && old(Strands(Model().pos - 1)))
    {
      var did := DeleteSelection();
      if did {
        return;
      }
      if cursor > 0 {
        var k := Index(value, cursor);
        BoundaryIndex(value, cursor);
        OffEnds(value);
        StaleAnchor(value, k - 1, k);
        CutTo(k - 1, k);
      } else {
        IndexOff(value, 0);
      }
    }

    method Delete()
      requires Valid()
      modifies this`value, this`pastes, this`cursor, this`anchor
      ensures Valid() && Model() == old(Model()).Delete(old(Sel()))
      ensures anchor == if old(Collapsed()) then old(anchor) else None
    {
      var did := DeleteSelection();
      if !did {
        DeleteNext();
      }
    }

    method DeleteNext()
      requires Sound()
      modifies this`value, this`pastes, this`cursor
      ensures Sound() && cursor == old(cursor) && Model() == old(Model()).Delete(None)
    {
      BoundaryIndex(value, cursor);
      if cursor < Len(value) {
        var k := Index(value, cursor);
        CutTo(k, k + 1);
      }
    }

    method KillToEnd()
      requires Valid()
      modifies this`value, this`pastes, this`cursor, this`anchor
      ensures Valid() && Model() == old(Model()).KillToEnd(old(Sel()))
      ensures anchor == if old(Collapsed()) then old(anchor) else None
    {
      var did := DeleteSelection();
      if did {
        return;
      }
      BoundaryIndex(value, cursor);
      var k := Index(value, cursor);
      if cursor == Len(value) {
        assert Model().Cut(k, k) == Model();
        return;
      }
      LineEndIs(k);
      if value[k] == '\n' {
        CutTo(k, k + 1);
      } else {
        var n := FirstNewline(value, k);
        CutTo(k, if n.Some? then n.value else |value|);
      }
    }

    method KillToLineStart()
      requires Valid()
      modifies this`value, this`pastes, this`cursor, this`anchor
      ensures Sound() && Model() == old(Model()).KillToLineStart(old(Sel()))
      ensures anchor == if old(Collapsed()) then old(anchor) else None
      ensures Valid() <==> !old(Strands(LineStart(Model().atoms, Model().pos)))
    {
      ghost var q := LineStart(Model().atoms, Model().pos);
      var did := DeleteSelection();
      if did {
        return;
      }
      var k := Index(value, cursor);
      BoundaryIndex(value, cursor);
      LineStartIs(k);
      var n := LastNewline(value[..k]);
      var start := if n.Some? then n.value + 1 else 0;
      StaleAnchor(value, start, k);
      CutTo(start, k);
    }

    lemma LineStartIs(k: nat)
      requires k <= |value|
      ensures var n := LastNewline(value[..k]);
        LineStart(Atoms(value, pastes), k) == if n.Some? then n.value + 1 else 0
    {
      var n, q := LastNewline(value[..k]), LineStart(Atoms(value, pastes), k);
      var q' := if n.Some? then n.value + 1 else 0;
      assert forall i :: 0 <= i < k ==> value[..k][i] == value[i];
      assert q > 0 ==> value[q - 1] == '\n';
      assert q' > 0 ==> Atoms(value, pastes)[q' - 1] == NEWLINE;
    }

    lemma LineEndIs(k: nat)
      requires k <= |value|
      ensures var n := FirstNewline(value, k);
        LineEnd(Atoms(value, pastes), k) == if n.Some? then n.value else |value|
    {
      var n, q := FirstNewline(value, k), LineEnd(Atoms(value, pastes), k);
      assert q < |value| ==> value[q] == '\n';
      assert n.Some? ==> Atoms(value, pastes)[n.value] == NEWLINE;
    }

    // Motions ---------------------------------------------------------------------------

    method Left()
      requires IsBoundary(value, cursor)
      modifies this`cursor
      ensures IsBoundary(value, cursor) && Model() == old(Model()).Left()
    {
      if cursor > 0 {
        var k := Index(value, cursor);
        BoundaryIndex(value, cursor);
        OffEnds(value);
        OffNext(value, k - 1);
        IndexOff(value, k - 1);
        cursor := cursor - CharLen(value[k - 1]);
      } else {
        IndexOff(value, 0);
      }
    }

    method Right()
      requires IsBoundary(value, cursor)
      modifies this`cursor
      ensures IsBoundary(value, cursor) && Model() == old(Model()).Right()
    {
      var k := Index(value, cursor);
      if k < |value| {
        BoundaryIndex(value, cursor);
        OffNext(value, k);
        IndexOff(value, k + 1);
        cursor := cursor + CharLen(value[k]);
      }
    }

    method Home()
      requires IsBoundary(value, cursor)
      modifies this`cursor
      ensures IsBoundary(value, cursor) && Model() == old(Model()).Home()
    {
      var k := Index(value, cursor);
      LineStartIs(k);
      var n := LastNewline(value[..k]);
      ghost var q := if n.Some? then n.value + 1 else 0;
      IndexOff(value, q);
      OffEnds(value);
      if n.Some? {
        assert value[..k][..n.value] == value[..n.value];
        OffNext(value, n.value);
        cursor := Len(value[..k][..n.value]) + 1;
      } else {
        cursor := 0;
      }
    }

    method End()
      requires IsBoundary(value, cursor)
      modifies this`cursor
      ensures IsBoundary(value, cursor) && Model() == old(Model()).End()
    {
      var k := Index(value, cursor);
      LineEndIs(k);
      var n := FirstNewline(value, k);
      OffEnds(value);
      if n.Some? {
        IndexOff(value, n.value);
        cursor := Off(value, n.value);
      } else {
        IndexOff(value, |value|);
        cursor := Len(value);
      }
    }

    /** Whitespace and paste markers both end a word. */
    predicate IsWordBreak(c: char) {
      IsWhitespace(c) || IsMarker(c)
    }

    method LeftWord()
      requires IsBoundary(value, cursor)
      modifies this`cursor
      ensures IsBoundary(value, cursor) && Model() == old(Model()).LeftWord()
    {
      var n := Index(value, cursor);
      BoundaryIndex(value, cursor);
      if n == 0 {
        return;
      }
      var i := WordStart(n);
      IndexOff(value, i);
      if i < n {
        cursor := Off(value, i);
      }
    }

    method WordStart(n: nat) returns (i: nat)
      requires n <= |value|
      ensures i == SkipBack(Atoms(value, pastes), SkipBack(Atoms(value, pastes), n, true), false)
    {
      i := BreaksBack(n);
      i := WordBack(i);
    }

    method BreaksBack(n: nat) returns (i: nat)
      requires n <= |value|
      ensures i == SkipBack(Atoms(value, pastes), n, true)
    {
      i := n;
      while i > 0 && IsWordBreak(value[i - 1])
        invariant 0 <= i <= n
        invariant SkipBack(Atoms(value, pastes), n, true) == SkipBack(Atoms(value, pastes), i, true)
      {
        i := i - 1;
      }
    }

    method WordBack(n: nat) returns (i: nat)
      requires n <= |value|
      ensures i == SkipBack(Atoms(value, pastes), n, false)
    {
      i := n;
      while i > 0 && !IsWordBreak(value[i - 1])
        invariant 0 <= i <= n
        invariant SkipBack(Atoms(value, pastes), n, false) == SkipBack(Atoms(value, pastes), i, false)
      {
        i := i - 1;
      }
    }

    method RightWord()
      requires IsBoundary(value, cursor)
      modifies this`cursor
      ensures IsBoundary(value, cursor) && Model() == old(Model()).RightWord()
    {
      var n := Index(value, cursor);
      ghost var atoms := Atoms(value, pastes);
      var i := n;
      while i < |value| && IsWordBreak(value[i])
        invariant n <= i <= |value| && SkipForth(atoms, n, true) == SkipForth(atoms, i, true)
      {
        i := i + 1;
      }
      while i < |value| && !IsWordBreak(value[i])
        invariant n <= i <= |value|
        invariant SkipForth(atoms, SkipForth(atoms, n, true), false) == SkipForth(atoms, i, false)
      {
        i := i + 1;
      }
      IndexOff(value, i);
      OffEnds(value);
      if i < |value| {
        cursor := Off(value, i);
      } else {
        cursor := Len(value);
      }
    }

    // Rows ------------------------------------------------------------------------------

    /** The width table gives printable ASCII one column each. */
    ghost predicate Printable() {
      forall c :: ' ' <= c <= '~' ==> cw(c) == 1
    }

    method RowsAt(width: nat) returns (rows: seq<Row>)
      ensures rows == Rows(value, Page(width))
    {
      rows := ComputeRows(value, Page(width));
    }

    method CursorRowCol(width: nat) returns (row: nat, col: nat)
      ensures (row, col) == HitTest.CursorRowCol(Page(width), Rows(value, Page(width)), cursor)
      ensures row < |Rows(value, Page(width))|
    {
      var rows := RowsAt(width);
      row, col := HitTest.ComputeCursorRowCol(Page(width), rows, cursor);
    }

    method ByteAt(width: nat, visualRow: nat, col: nat) returns (byte: Option<nat>)
      requires Printable()
      ensures byte == HitTest.ByteAt(value, Page(width), visualRow, col)
      ensures byte.Some? ==> IsBoundary(value, byte.value)
    {
      var rows := RowsAt(width);
      if visualRow >= |rows| {
        return None;
      }
      HitTest.GridBoundary(value, Page(width), visualRow, HitTest.FirstCol(Page(width), rows[visualRow], col));
      var b := HitTest.RowColToByte(Page(width), rows[visualRow], col);
      return Some(b);
    }

    method Up(width: nat)
      requires IsBoundary(value, cursor) && Printable()
      modifies this`cursor
      ensures IsBoundary(value, cursor) && cursor == HitTest.Up(value, Page(width), old(cursor))
    {
      HitTest.VerticalBoundary(value, Page(width), cursor);
      var row, col := CursorRowCol(width);
      if row == 0 {
        return;
      }
      var rows := RowsAt(width);
      cursor := HitTest.RowColToByte(Page(width), rows[row - 1], col);
    }

    method Down(width: nat)
      requires IsBoundary(value, cursor) && Printable()
      modifies this`cursor
      ensures IsBoundary(value, cursor) && cursor == HitTest.Down(value, Page(width), old(cursor))
    {
      HitTest.VerticalBoundary(value, Page(width), cursor);
      var row, col := CursorRowCol(width);
      var rows := RowsAt(width);
      if row + 1 >= |rows| {
        return;
      }
      cursor := HitTest.RowColToByte(Page(width), rows[row + 1], col);
    }

    method CursorOnFirstRow(width: nat) returns (on: bool)
      ensures on == HitTest.OnFirstRow(value, Page(width), cursor)
    {
      var row, _ := CursorRowCol(width);
      return row == 0;
    }

    method CursorOnLastRow(width: nat) returns (on: bool)
      ensures on == HitTest.OnLastRow(value, Page(width), cursor)
    {
      var row, _ := CursorRowCol(width);
      var rows := RowsAt(width);
      return row == |rows| - 1;
    }

    /** Scroll as little as needed for the cursor's row to be in the viewport. */
    method EnsureCursorVisible(width: nat, viewport: nat)
      modifies this`scrollOffset
      ensures var rows := Rows(value, Page(width));
        var row := HitTest.CursorRowCol(Page(width), rows, cursor).0;
        && scrollOffset <= row < scrollOffset + (if viewport == 0 then 1 else viewport)
        && scrollOffset < |rows|
        && (old(scrollOffset) <= row < old(scrollOffset) + (if viewport == 0 then 1 else viewport)
            ==> scrollOffset == old(scrollOffset))
        && (row < old(scrollOffset) ==> scrollOffset == row)
        && (row >= old(scrollOffset) + (if viewport == 0 then 1 else viewport)
            ==> scrollOffset + (if viewport == 0 then 1 else viewport) == row + 1)
    {
      var row, _ := CursorRowCol(width);
      var rows := RowsAt(width);
      var maxOffset := |rows| - 1;
      var off := HitTest.Min(scrollOffset, maxOffset);
      if row < off {
        off := row;
      } else if row >= off + (if viewport == 0 then 1 else viewport) {
        off := Minus(row, Minus(viewport, 1));
      }
      scrollOffset := HitTest.Min(off, maxOffset);
    }
  }

  /** Why edits ask for more than a live anchor: Shift+Left at the start of the text anchors
      the cursor to itself, and the character typed next ends up selected. */
  method PhantomSelection(cw: char -> nat) returns (b: InputBuffer)
    ensures b.Valid() && b.value == "a" && b.Sel() == Some((0, 1))
  {
    b := new InputBuffer(cw);
    b.AnchorHere();
    b.Left();
    EndBoundary(b.value);
    b.InsertChar('a');
    IndexOff(b.value, 0);
  }

  /** Likewise Shift+Right at the end of "ab", then Backspace, leaves the anchor past the
      end of the text. */
  method StrandedAnchor(cw: char -> nat) returns (b: InputBuffer)
    ensures b.Sound() && b.Stranded() && |b.value| == 1 && b.anchor == Some(2)
  {
    b := new InputBuffer(cw);
    b.Set("ab");
    assert "ab"[..1] == "a" && "a"[..0] == "" && Len("a") == 1 && Len("ab") == 2;
    b.AnchorHere();
    b.Right();
    BoundaryIndex(b.value, b.cursor);
    IndexOff(b.value, 2);
    OffEnds(b.value);
    assert b.cursor == 2;
    b.Backspace();
    assert |b.Model().atoms| == 1;
    EndBoundary(b.value);
    LenBound(b.value);
  }
}
