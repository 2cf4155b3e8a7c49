/**
 Compacted pastes: a long paste sits in the text as one private-use marker character
 that names a slot of a side table.  The plain reading of such a text is a sequence of
 atoms, each one character or one whole payload.
 */
module Pastes {
  import Seqs

  // Pastes of more lines than this collapse into a chip.
  const COMPACT_PASTE_LINES := 2

  const PASTE_MARKER_BASE := 0xE000
  const PASTE_MARKER_LAST := 0xF8FF

  // How many slots the marker range can name.
  const SLOTS := PASTE_MARKER_LAST - PASTE_MARKER_BASE + 1

  datatype Option<+T> = None | Some(value: T) {
    function GetOr(default: T): T {
      match this
      case Some(v) => v
      case None => default
    }
  }

  predicate IsMarker(c: char) {
    PASTE_MARKER_BASE <= c as int <= PASTE_MARKER_LAST
  }

  function MarkerId(c: char): nat
    requires IsMarker(c)
  {
    c as int - PASTE_MARKER_BASE
  }

  /** The marker of a slot, while the range lasts. */
  function PasteMarker(id: nat): (m: Option<char>)
    ensures m.Some? <==> id < SLOTS
    ensures m.Some? ==> IsMarker(m.value) && MarkerId(m.value) == id
  {
    if id < SLOTS then Some((PASTE_MARKER_BASE + id) as char) else None
  }

  predicate Clean(s: string) {
    forall i :: 0 <= i < |s| ==> !IsMarker(s[i])
  }

  // Newlines ----------------------------------------------------------------

  function ReplaceCrLf(s: string): string {
    if s == [] then []
    else if |s| >= 2 && s[0] == '\r' && s[1] == '\n' then ['\n'] + ReplaceCrLf(s[2..])
    else [s[0]] + ReplaceCrLf(s[1..])
  }

  function ReplaceCr(s: string): string {
    seq(|s|, i requires 0 <= i < |s| => if s[i] == '\r' then '\n' else s[i])
  }

  function NormalizeNewlines(s: string): string {
    ReplaceCr(ReplaceCrLf(s))
  }

  lemma {:induction false} ReplaceCrLfId(s: string)
    requires '\r' !in s
    ensures ReplaceCrLf(s) == s
  {
    if s != [] {
      ReplaceCrLfId(s[1..]);
      assert s == [s[0]] + s[1..];
    }
  }

  lemma {:induction false} ReplaceCrLfClean(s: string)
    requires Clean(s)
    ensures Clean(ReplaceCrLf(s))
  {
    if s == [] {
    } else if |s| >= 2 && s[0] == '\r' && s[1] == '\n' {
      ReplaceCrLfClean(s[2..]);
    } else {
      ReplaceCrLfClean(s[1..]);
    }
  }

  /** Normalized text holds no carriage return, and normalizing it again changes nothing. */
  lemma NormalizeIdempotent(s: string)
    ensures '\r' !in NormalizeNewlines(s)
    ensures NormalizeNewlines(NormalizeNewlines(s)) == NormalizeNewlines(s)
  {
    var t := NormalizeNewlines(s);
    ReplaceCrLfId(t);
    assert ReplaceCr(t) == t;
  }

  /** The seam between a and b does not run through a CR LF. */
  predicate Seam(a: string, b: string) {
    a != [] && b != [] ==> a[|a| - 1] != '\r' || b[0] != '\n'
  }

  lemma {:induction false} ReplaceCrLfConcat(a: string, b: string)
    requires Seam(a, b)
    ensures ReplaceCrLf(a + b) == ReplaceCrLf(a) + ReplaceCrLf(b)
    decreases |a|
  {
    if a == [] {
      assert a + b == b;
    } else if |a| >= 2 && a[0] == '\r' && a[1] == '\n' {
      ReplaceCrLfConcat(a[2..], b);
      assert (a + b)[2..] == a[2..] + b;
      Seqs.Assoc(['\n'], ReplaceCrLf(a[2..]), ReplaceCrLf(b));
    } else {
      ReplaceCrLfConcat(a[1..], b);
      assert (a + b)[1..] == a[1..] + b;
      assert |a + b| >= 2 ==> (a + b)[1] == if |a| >= 2 then a[1] else b[0];
      Seqs.Assoc([a[0]], ReplaceCrLf(a[1..]), ReplaceCrLf(b));
    }
  }

  lemma NormalizeConcat(a: string, b: string)
    requires Seam(a, b)
    ensures NormalizeNewlines(a + b) == NormalizeNewlines(a) + NormalizeNewlines(b)
  {
    ReplaceCrLfConcat(a, b);
  }

  lemma NormalizeBetween(a: string, x: string, b: string)
    requires Seam(a, x) && Seam(x, b) && x != []
    ensures NormalizeNewlines(a + x + b) == NormalizeNewlines(a) + NormalizeNewlines(x) + NormalizeNewlines(b)
  {
    NormalizeConcat(a + x, b);
    NormalizeConcat(a, x);
  }

  lemma NormalizeEndings()
    ensures NormalizeNewlines("\r\n") == "\n" && NormalizeNewlines("\r") == "\n"
  {
    assert "\r\n"[2..] == "" && "\r"[1..] == "";
  }

  /** What normalizing does wherever it is looked at: CR LF is one newline, a CR without a LF is
      one too, and any other character is kept. */
  lemma NormalizeParts(a: string, c: char, b: string)
    ensures NormalizeNewlines(a + "\r\n" + b) == NormalizeNewlines(a) + "\n" + NormalizeNewlines(b)
    ensures (b == [] || b[0] != '\n') ==>
      NormalizeNewlines(a + "\r" + b) == NormalizeNewlines(a) + "\n" + NormalizeNewlines(b)
    ensures c != '\r' && (c == '\n' && a != [] ==> a[|a| - 1] != '\r') ==>
      NormalizeNewlines(a + [c] + b) == NormalizeNewlines(a) + [c] + NormalizeNewlines(b)
  {
    NormalizeEndings();
    NormalizeBetween(a, "\r\n", b);
    if b == [] || b[0] != '\n' {
      NormalizeBetween(a, "\r", b);
    }
    if c != '\r' && (c == '\n' && a != [] ==> a[|a| - 1] != '\r') {
      NormalizeBetween(a, [c], b);
      ReplaceCrLfId([c]);
    }
  }

  /** A text with `ending` for every newline. */
  function WithEndings(t: string, ending: string): string {
    if t == [] then [] else (if t[0] == '\n' then ending else [t[0]]) + WithEndings(t[1..], ending)
  }

  /** Text comes out of a terminal as it was, whichever way its lines end. */
  lemma {:induction false} NormalizeWithEndings(t: string, ending: string)
    requires '\r' !in t && (ending == "\n" || ending == "\r\n" || ending == "\r")
    ensures NormalizeNewlines(WithEndings(t, ending)) == t
    ensures ending == "\r" ==> '\n' !in WithEndings(t, ending)
  {
    if t != [] {
      var x, rest := if t[0] == '\n' then ending else [t[0]], WithEndings(t[1..], ending);
      NormalizeWithEndings(t[1..], ending);
      NormalizeEndings();
      if x == "\r" {
        assert rest != [] ==> rest[0] in rest;
      } else if x != "\r\n" {
        ReplaceCrLfId(x);
      }
      NormalizeConcat(x, rest);
      assert t == [t[0]] + t[1..];
    }
  }

  lemma NormalizeClean(s: string)
    requires Clean(s)
    ensures Clean(NormalizeNewlines(s))
  {
    ReplaceCrLfClean(s);
  }

  function CountNewlines(s: string): nat {
    if s == [] then 0 else CountNewlines(s[..|s| - 1]) + (if s[|s| - 1] == '\n' then 1 else 0)
  }

  /** The number of lines `lines()` yields: a final newline opens no further line. */
  function LineCount(s: string): nat {
    CountNewlines(s) + (if s != [] && s[|s| - 1] != '\n' then 1 else 0)
  }

  lemma {:induction false} NewlineExists(s: string)
    ensures CountNewlines(s) >= 1 <==> exists i :: 0 <= i < |s| && s[i] == '\n'
  {
    if s != [] {
      var n := |s| - 1;
      NewlineExists(s[..n]);
      if exists i :: 0 <= i < |s| && s[i] == '\n' {
        var i :| 0 <= i < |s| && s[i] == '\n';
        assert i < n ==> s[..n][i] == '\n';
      }
    }
  }

  lemma {:induction false} TwoNewlinesExist(s: string)
    ensures CountNewlines(s) >= 2 <==> exists i, j :: 0 <= i < j < |s| && s[i] == '\n' && s[j] == '\n'
  {
    if s != [] {
      var n := |s| - 1;
      TwoNewlinesExist(s[..n]);
      NewlineExists(s[..n]);
      if CountNewlines(s) >= 2 {
        if s[n] == '\n' {
          var i :| 0 <= i < n && s[..n][i] == '\n';
          assert s[i] == '\n';
        } else {
          var i, j :| 0 <= i < j < n && s[..n][i] == '\n' && s[..n][j] == '\n';
          assert s[i] == '\n' && s[j] == '\n';
        }
      }
      if i, j :| 0 <= i < j < |s| && s[i] == '\n' && s[j] == '\n' {
        assert s[..n][i] == '\n';
        assert j < n ==> s[..n][j] == '\n';
      }
    }
  }

  /** A text of n lines, each closed by a newline except the last, which may be empty: then it is
      no line. */
  function Joined(lines: seq<string>): string {
    if lines == [] then []
    else if |lines| == 1 then lines[0]
    else Joined(lines[..|lines| - 1]) + "\n" + lines[|lines| - 1]
  }

  lemma {:induction false} CountConcat(a: string, b: string)
    ensures CountNewlines(a + b) == CountNewlines(a) + CountNewlines(b)
  {
    if b == [] {
      assert a + b == a;
    } else {
      CountConcat(a, b[..|b| - 1]);
      Seqs.ConcatInit(a, b);
    }
  }

  lemma {:induction false} CountJoined(lines: seq<string>)
    requires lines != [] && forall i :: 0 <= i < |lines| ==> '\n' !in lines[i]
    ensures CountNewlines(Joined(lines)) == |lines| - 1
  {
    var n := |lines| - 1;
    NewlineExists(lines[n]);
    if n > 0 {
      CountJoined(lines[..n]);
      CountConcat(Joined(lines[..n]) + "\n", lines[n]);
      CountConcat(Joined(lines[..n]), "\n");
      assert CountNewlines("\n") == 1 by { assert "\n"[..0] == ""; }
    }
  }

  /** The lines counted are those of the text. */
  lemma LineCountJoined(lines: seq<string>)
    requires lines != [] && forall i :: 0 <= i < |lines| ==> '\n' !in lines[i]
    ensures LineCount(Joined(lines)) == if lines[|lines| - 1] == [] then |lines| - 1 else |lines|
  {
    var n := |lines| - 1;
    CountJoined(lines);
    if lines[n] != [] {
      var s := Joined(lines);
      assert s[|s| - 1] == lines[n][|lines[n]| - 1] && lines[n][|lines[n]| - 1] in lines[n];
    } else if n > 0 {
      assert Joined(lines) == Joined(lines[..n]) + "\n";
    }
  }

  // Atoms -------------------------------------------------------------------

  datatype Atom = Char(c: char) | Chip(payload: string) {
    function Text(): string {
      match this
      case Char(c) => [c]
      case Chip(payload) => payload
    }
  }

  function Slot(pastes: seq<string>, id: nat): string {
    if id < |pastes| then pastes[id] else []
  }

  function AtomOf(c: char, pastes: seq<string>): Atom {
    if IsMarker(c) then Chip(Slot(pastes, MarkerId(c))) else Char(c)
  }

  /** What the buffer's text stands for. */
  function Atoms(value: string, pastes: seq<string>): (r: seq<Atom>)
    ensures |r| == |value|
  {
    seq(|value|, i requires 0 <= i < |value| => AtomOf(value[i], pastes))
  }

  function Chars(s: string): (r: seq<Atom>)
    ensures |r| == |s|
  {
    seq(|s|, i requires 0 <= i < |s| => Char(s[i]))
  }

  /** The text a sequence of atoms expands to on submit. */
  function Expand(atoms: seq<Atom>): string {
    if atoms == [] then [] else Expand(atoms[..|atoms| - 1]) + atoms[|atoms| - 1].Text()
  }

  lemma {:induction false} ExpandConcat(a: seq<Atom>, b: seq<Atom>)
    ensures Expand(a + b) == Expand(a) + Expand(b)
  {
    if b == [] {
      assert a + b == a;
    } else {
      ExpandConcat(a, b[..|b| - 1]);
      Seqs.ConcatInit(a, b);
      Seqs.Assoc(Expand(a), Expand(b[..|b| - 1]), b[|b| - 1].Text());
    }
  }

  lemma {:induction false} ExpandChars(s: string)
    ensures Expand(Chars(s)) == s
  {
    if s != [] {
      ExpandChars(s[..|s| - 1]);
      assert Chars(s)[..|s| - 1] == Chars(s[..|s| - 1]);
      assert s == s[..|s| - 1] + [s[|s| - 1]];
    }
  }

  /** Text without markers stands for itself, whatever the slots hold. */
  lemma CleanAtoms(s: string, pastes: seq<string>)
    requires Clean(s)
    ensures Atoms(s, pastes) == Chars(s)
  {}

  predicate Compacts(text: string, used: nat) {
    LineCount(NormalizeNewlines(text)) > COMPACT_PASTE_LINES && used < SLOTS
  }

  /** A paste becomes a chip exactly when text goes on behind its second newline and a marker is
      left to name it. */
  lemma CompactsIff(text: string, used: nat)
    ensures Compacts(text, used) <==>
      && used < 6400
      && var t := NormalizeNewlines(text);
         exists i, j :: 0 <= i < j < |t| - 1 && t[i] == '\n' && t[j] == '\n'
  {
    var t := NormalizeNewlines(text);
    if t != [] {
      var init := t[..|t| - 1];
      TwoNewlinesExist(init);
      if i, j :| 0 <= i < j < |t| - 1 && t[i] == '\n' && t[j] == '\n' {
        assert init[i] == '\n' && init[j] == '\n';
      }
      if i, j :| 0 <= i < j < |init| && init[i] == '\n' && init[j] == '\n' {
        assert t[i] == '\n' && t[j] == '\n';
      }
    }
  }

  /** What a paste puts into the text when `used` slots are taken. */
  function PasteAtoms(text: string, used: nat): seq<Atom> {
    if Compacts(text, used) then [Chip(NormalizeNewlines(text))] else Chars(NormalizeNewlines(text))
  }

  /** A paste stands for its normalized text, compacted or not. */
  lemma PasteExpands(text: string, used: nat)
    ensures Expand(PasteAtoms(text, used)) == NormalizeNewlines(text)
  {
    if Compacts(text, used) {
      assert PasteAtoms(text, used)[..0] == [];
    } else {
      ExpandChars(NormalizeNewlines(text));
    }
  }

  // The marker table --------------------------------------------------------

  /** Every marker of the text is the only one naming its slot, and the slot is filled;
      a slot whose marker is gone holds nothing.  Payloads hold no markers themselves. */
  ghost predicate Table(value: string, pastes: seq<string>) {
    && |pastes| <= SLOTS
    && (forall id :: 0 <= id < |pastes| ==> Clean(pastes[id]))
    && (forall i :: 0 <= i < |value| && IsMarker(value[i]) ==> Slot(pastes, MarkerId(value[i])) != [])
    && (forall i, j :: 0 <= i < j < |value| && IsMarker(value[i]) ==> value[i] != value[j])
    && (forall id :: 0 <= id < |pastes| && pastes[id] != [] ==> PasteMarker(id).value in value)
  }

  /** The slots after dropping the payload of every marker in `gone`. */
  function Dropped(pastes: seq<string>, gone: string): (r: seq<string>)
    ensures |r| == |pastes|
  {
    seq(|pastes|, id requires 0 <= id < |pastes| =>
      if id < SLOTS && PasteMarker(id).value in gone then [] else pastes[id])
  }

  /** Dropping markers of older slots leaves a fresh slot alone. */
  lemma DroppedFresh(value: string, pastes: seq<string>, i: nat, j: nat, payload: string)
    requires Table(value, pastes) && i <= j <= |value| && |pastes| < SLOTS
    ensures Dropped(pastes + [payload], value[i..j]) == Dropped(pastes, value[i..j]) + [payload]
  {
    assert PasteMarker(|pastes|).value !in value;
    assert forall m :: m in value[i..j] ==> m in value;
  }

  /** A character left after a cut keeps its slot. */
  lemma CutKeepsSlots(value: string, pastes: seq<string>, i: nat, j: nat, k: nat)
    requires Table(value, pastes) && i <= j <= |value|
    requires k < i || j <= k < |value|
    ensures AtomOf(value[k], Dropped(pastes, value[i..j])) == AtomOf(value[k], pastes)
  {
    if IsMarker(value[k]) {
      assert value[k] !in value[i..j];
      assert PasteMarker(MarkerId(value[k])).value == value[k];
    }
  }

  lemma CutAtoms(value: string, pastes: seq<string>, i: nat, j: nat)
    requires Table(value, pastes) && i <= j <= |value|
    ensures Atoms(value[..i] + value[j..], Dropped(pastes, value[i..j]))
         == Atoms(value, pastes)[..i] + Atoms(value, pastes)[j..]
  {
    forall k: nat | k < i || j <= k < |value|
      ensures AtomOf(value[k], Dropped(pastes, value[i..j])) == AtomOf(value[k], pastes)
    {
      CutKeepsSlots(value, pastes, i, j, k);
    }
  }

  /** Cutting a range removes exactly its atoms and keeps the table. */
  lemma CutTable(value: string, pastes: seq<string>, i: nat, j: nat)
    requires Table(value, pastes) && i <= j <= |value|
    ensures Table(value[..i] + value[j..], Dropped(pastes, value[i..j]))
    ensures Atoms(value[..i] + value[j..], Dropped(pastes, value[i..j]))
         == Atoms(value, pastes)[..i] + Atoms(value, pastes)[j..]
  {
    var v, p := value[..i] + value[j..], Dropped(pastes, value[i..j]);
    CutAtoms(value, pastes, i, j);
    forall k | 0 <= k < |v| && IsMarker(v[k])
      ensures Slot(p, MarkerId(v[k])) != []
    {
      var k' := if k < i then k else k + (j - i);
      assert v[k] == value[k'];
      CutKeepsSlots(value, pastes, i, j, k');
    }
    forall id | 0 <= id < |p| && p[id] != []
      ensures PasteMarker(id).value in v
    {
      assert value == value[..i] + value[i..j] + value[j..];
    }
  }

  /** Inserting plain text inserts its characters. */
  lemma InsertTextTable(value: string, pastes: seq<string>, i: nat, s: string)
    requires Table(value, pastes) && i <= |value| && Clean(s)
    ensures Table(value[..i] + s + value[i..], pastes)
    ensures Atoms(value[..i] + s + value[i..], pastes)
         == Atoms(value, pastes)[..i] + Chars(s) + Atoms(value, pastes)[i..]
  {
    var v := value[..i] + s + value[i..];
    forall id | 0 <= id < |pastes| && pastes[id] != []
      ensures PasteMarker(id).value in v
    {
      var k :| 0 <= k < |value| && value[k] == PasteMarker(id).value;
      assert v[if k < i then k else k + |s|] == value[k];
    }
  }

  /** Inserting the marker of a fresh slot inserts one chip. */
  lemma InsertChipTable(value: string, pastes: seq<string>, i: nat, payload: string)
    requires Table(value, pastes) && i <= |value| && |pastes| < SLOTS
    requires payload != [] && Clean(payload)
    ensures Table(value[..i] + [PasteMarker(|pastes|).value] + value[i..], pastes + [payload])
    ensures Atoms(value[..i] + [PasteMarker(|pastes|).value] + value[i..], pastes + [payload])
         == Atoms(value, pastes)[..i] + [Chip(payload)] + Atoms(value, pastes)[i..]
  {
    var m, p := PasteMarker(|pastes|).value, pastes + [payload];
    var v := value[..i] + [m] + value[i..];
    FreshMarker(value, pastes, payload);
    InsertOnce(value, i, m);
    forall id | 0 <= id < |p| && p[id] != []
      ensures PasteMarker(id).value in v
    {
      if id == |pastes| {
        assert v[i] == m;
      } else {
        InsertKeeps(value, i, m, PasteMarker(id).value);
      }
    }
    ChipAtoms(value, pastes, i, payload);
  }

  /** A marker that was not in a text is in it once. */
  lemma InsertOnce(value: string, i: nat, m: char)
    requires i <= |value| && m !in value
    requires forall j, k :: 0 <= j < k < |value| && IsMarker(value[j]) ==> value[j] != value[k]
    ensures var v := value[..i] + [m] + value[i..];
      forall j, k :: 0 <= j < k < |v| && IsMarker(v[j]) ==> v[j] != v[k]
  {}

  lemma ChipAtoms(value: string, pastes: seq<string>, i: nat, payload: string)
    requires Table(value, pastes) && i <= |value| && |pastes| < SLOTS
    ensures Atoms(value[..i] + [PasteMarker(|pastes|).value] + value[i..], pastes + [payload])
         == Atoms(value, pastes)[..i] + [Chip(payload)] + Atoms(value, pastes)[i..]
  {
    FreshMarker(value, pastes, payload);
  }

  lemma FreshMarker(value: string, pastes: seq<string>, payload: string)
    requires Table(value, pastes) && |pastes| < SLOTS
    ensures PasteMarker(|pastes|).value !in value
    ensures forall k :: 0 <= k < |value| && IsMarker(value[k]) ==>
      Slot(pastes + [payload], MarkerId(value[k])) == Slot(pastes, MarkerId(value[k]))
  {}

  lemma InsertKeeps(value: string, i: nat, m: char, c: char)
    requires i <= |value| && c in value
    ensures c in value[..i] + [m] + value[i..]
  {
    var k :| 0 <= k < |value| && value[k] == c;
    assert (value[..i] + [m] + value[i..])[if k < i then k else k + 1] == c;
  }

  /** What a text expands to holds no markers. */
  lemma {:induction false} ExpandClean(atoms: seq<Atom>)
    requires forall i :: 0 <= i < |atoms| ==> Clean(atoms[i].Text())
    ensures Clean(Expand(atoms))
  {
    if atoms != [] {
      ExpandClean(atoms[..|atoms| - 1]);
    }
  }

  lemma TableClean(value: string, pastes: seq<string>)
    requires Table(value, pastes)
    ensures Clean(Expand(Atoms(value, pastes)))
  {
    ExpandClean(Atoms(value, pastes));
  }

  /** With every slot empty the table leaves no marker, so the text is its own expansion. */
  lemma EmptySlotsExpand(value: string, pastes: seq<string>)
    requires Table(value, pastes) && forall id :: 0 <= id < |pastes| ==> pastes[id] == []
    ensures Expand(Atoms(value, pastes)) == value
  {
    assert Clean(value);
    CleanAtoms(value, pastes);
    ExpandChars(value);
  }
}
