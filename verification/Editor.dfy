/**
 The editor as a user thinks of it: a sequence of atoms, a position between two of them
 and a selected range.  No bytes, no markers, no slots.
 */
module Editor {
  import opened Pastes
  import opened Whitespace
  import Seqs

  type Selection = Option<(nat, nat)>

  predicate IsBreak(a: Atom) {
    a.Chip? || IsWhitespace(a.c)
  }

  const NEWLINE := Char('\n')

  /** The start of the logical line around position p. */
  function LineStart(atoms: seq<Atom>, p: nat): (q: nat)
    requires p <= |atoms|
    ensures q <= p && forall i :: q <= i < p ==> atoms[i] != NEWLINE
    ensures q == 0 || atoms[q - 1] == NEWLINE
  {
    if p == 0 || atoms[p - 1] == NEWLINE then p else LineStart(atoms, p - 1)
  }

  /** The end of the logical line around position p. */
  function LineEnd(atoms: seq<Atom>, p: nat): (q: nat)
    requires p <= |atoms|
    ensures p <= q <= |atoms| && forall i :: p <= i < q ==> atoms[i] != NEWLINE
    ensures q == |atoms| || atoms[q] == NEWLINE
    decreases |atoms| - p
  {
    if p == |atoms| || atoms[p] == NEWLINE then p else LineEnd(atoms, p + 1)
  }

  /** Back over every atom that is a break (or is none) before position p. */
  function SkipBack(atoms: seq<Atom>, p: nat, breaks: bool): (q: nat)
    requires p <= |atoms|
    ensures q <= p && forall i :: q <= i < p ==> IsBreak(atoms[i]) == breaks
    ensures q == 0 || IsBreak(atoms[q - 1]) != breaks
  {
    if p == 0 || IsBreak(atoms[p - 1]) != breaks then p else SkipBack(atoms, p - 1, breaks)
  }

  /** Forward over every atom that is a break (or is none) from position p on. */
  function SkipForth(atoms: seq<Atom>, p: nat, breaks: bool): (q: nat)
    requires p <= |atoms|
    ensures p <= q <= |atoms| && forall i :: p <= i < q ==> IsBreak(atoms[i]) == breaks
    ensures q == |atoms| || IsBreak(atoms[q]) != breaks
    decreases |atoms| - p
  {
    if p == |atoms| || IsBreak(atoms[p]) != breaks then p else SkipForth(atoms, p + 1, breaks)
  }

  // Places in a text, told by what stands around them ---------------------------------------

  ghost predicate LineStartAt(atoms: seq<Atom>, p: nat, q: nat) {
    q <= p <= |atoms| && (forall i :: q <= i < p ==> atoms[i] != NEWLINE) && (q > 0 ==> atoms[q - 1] == NEWLINE)
  }

  ghost predicate LineEndAt(atoms: seq<Atom>, p: nat, q: nat) {
    p <= q <= |atoms| && (forall i :: p <= i < q ==> atoms[i] != NEWLINE) && (q < |atoms| ==> atoms[q] == NEWLINE)
  }

  /** Nothing but white space and chips. */
  ghost predicate Gap(atoms: seq<Atom>) {
    forall i :: 0 <= i < |atoms| ==> (atoms[i].Char? ==> IsWhitespace(atoms[i].c))
  }

  /** Characters without white space. */
  ghost predicate Word(atoms: seq<Atom>) {
    forall i :: 0 <= i < |atoms| ==> atoms[i].Char? && !IsWhitespace(atoms[i].c)
  }

  /** A word from q to m, as long as can be, and a gap from there to p. */
  ghost predicate WordBefore(atoms: seq<Atom>, p: nat, q: nat, m: nat) {
    && q <= m <= p <= |atoms| && Word(atoms[q..m]) && Gap(atoms[m..p])
    && (q == m ==> q == 0) && (q > 0 ==> Gap(atoms[q - 1..q]))
  }

  /** A gap from p to m, and a word from there to q, as long as can be. */
  ghost predicate WordBehind(atoms: seq<Atom>, p: nat, q: nat, m: nat) {
    && p <= m <= q <= |atoms| && Gap(atoms[p..m]) && Word(atoms[m..q])
    && (q == m ==> q == |atoms|) && (q < |atoms| ==> Gap(atoms[q..q + 1]))
  }

  datatype Doc = Doc(atoms: seq<Atom>, pos: nat) {
    predicate Valid() {
      pos <= |atoms|
    }

    predicate Covers(sel: Selection) {
      sel.Some? ==> sel.value.0 < sel.value.1 <= |atoms|
    }

    function Cut(lo: nat, hi: nat): Doc
      requires lo <= hi <= |atoms|
    {
      Doc(atoms[..lo] + atoms[hi..], lo)
    }

    function Emptied(sel: Selection): (d: Doc)
      requires Valid() && Covers(sel)
      ensures d.Valid()
    {
      if sel.Some? then Cut(sel.value.0, sel.value.1) else this
    }

    /** Replace the selection, or insert at the position when there is none. */
    function Insert(sel: Selection, ins: seq<Atom>): Doc
      requires Valid() && Covers(sel)
    {
      var d := Emptied(sel);
      Doc(d.atoms[..d.pos] + ins + d.atoms[d.pos..], d.pos + |ins|)
    }

    function Backspace(sel: Selection): Doc
      requires Valid() && Covers(sel)
    {
      if sel.Some? then Emptied(sel) else if pos > 0 then Cut(pos - 1, pos) else this
    }

    function Delete(sel: Selection): Doc
      requires Valid() && Covers(sel)
    {
      if sel.Some? then Emptied(sel) else if pos < |atoms| then Cut(pos, pos + 1) else this
    }

    function KillToEnd(sel: Selection): Doc
      requires Valid() && Covers(sel)
    {
      if sel.Some? then Emptied(sel)
      else if pos < |atoms| && atoms[pos] == NEWLINE then Cut(pos, pos + 1)
      else Cut(pos, LineEnd(atoms, pos))
    }

    function KillToLineStart(sel: Selection): Doc
      requires Valid() && Covers(sel)
    {
      if sel.Some? then Emptied(sel) else Cut(LineStart(atoms, pos), pos)
    }

    function MoveTo(p: nat): Doc {
      Doc(atoms, p)
    }

    function Left(): Doc {
      MoveTo(if pos > 0 then pos - 1 else pos)
    }

    function Right(): Doc {
      MoveTo(if pos < |atoms| then pos + 1 else pos)
    }

    function Home(): Doc
      requires Valid()
    {
      MoveTo(LineStart(atoms, pos))
    }

    function End(): Doc
      requires Valid()
    {
      MoveTo(LineEnd(atoms, pos))
    }

    function LeftWord(): Doc
      requires Valid()
    {
      MoveTo(SkipBack(atoms, SkipBack(atoms, pos, true), false))
    }

    function RightWord(): Doc
      requires Valid()
    {
      MoveTo(SkipForth(atoms, SkipForth(atoms, pos, true), false))
    }
  }

  lemma SpliceExpands(atoms: seq<Atom>, lo: nat, hi: nat, ins: seq<Atom>)
    requires lo <= hi <= |atoms|
    ensures Expand(atoms[..lo] + ins + atoms[hi..]) == Expand(atoms[..lo]) + Expand(ins) + Expand(atoms[hi..])
    ensures Expand(atoms[..lo] + ins) == Expand(atoms[..lo]) + Expand(ins)
  {
    ExpandConcat(atoms[..lo] + ins, atoms[hi..]);
    ExpandConcat(atoms[..lo], ins);
  }

  /** Typing or pasting splices its text into the expanded draft in place of what was
      selected, whether it went in as characters or as one chip. */
  lemma InsertExpands(d: Doc, sel: Selection, ins: seq<Atom>)
    requires d.Valid() && d.Covers(sel)
    ensures var (lo, hi) := if sel.Some? then sel.value else (d.pos, d.pos);
      var e := d.Insert(sel, ins);
      && Expand(e.atoms) == Expand(d.atoms[..lo]) + Expand(ins) + Expand(d.atoms[hi..])
      && e.pos == lo + |ins| <= |e.atoms|
      && Expand(e.atoms[..e.pos]) == Expand(d.atoms[..lo]) + Expand(ins)
  {
    var (lo, hi) := if sel.Some? then sel.value else (d.pos, d.pos);
    var e := d.Emptied(sel);
    Seqs.TakeConcat(d.atoms[..lo], d.atoms[hi..]);
    Seqs.Split(d.atoms, lo);
    Seqs.TakeConcat3(d.atoms[..lo], ins, d.atoms[hi..]);
    SpliceExpands(d.atoms, lo, hi, ins);
    assert e.atoms[..lo] == d.atoms[..lo] && e.atoms[lo..] == d.atoms[hi..];
  }

  /** Where the motions land: one atom on, at the ends of the line, or over the breaks and then
      over the word that way. */
  lemma MotionsLand(d: Doc) returns (m: nat, n: nat)
    requires d.Valid()
    ensures d.Left() == Doc(d.atoms, if d.pos == 0 then 0 else d.pos - 1)
    ensures d.Right() == Doc(d.atoms, if d.pos == |d.atoms| then d.pos else d.pos + 1)
    ensures d.Home().atoms == d.atoms && LineStartAt(d.atoms, d.pos, d.Home().pos)
    ensures d.End().atoms == d.atoms && LineEndAt(d.atoms, d.pos, d.End().pos)
    ensures d.LeftWord().atoms == d.atoms && WordBefore(d.atoms, d.pos, d.LeftWord().pos, m)
    ensures d.RightWord().atoms == d.atoms && WordBehind(d.atoms, d.pos, d.RightWord().pos, n)
  {
    m, n := SkipBack(d.atoms, d.pos, true), SkipForth(d.atoms, d.pos, true);
    SkippedBack(d.atoms, d.pos);
    SkippedForth(d.atoms, d.pos);
  }

  lemma SkippedBack(atoms: seq<Atom>, p: nat)
    requires p <= |atoms|
    ensures var m := SkipBack(atoms, p, true); WordBefore(atoms, p, SkipBack(atoms, m, false), m)
  {}

  lemma SkippedForth(atoms: seq<Atom>, p: nat)
    requires p <= |atoms|
    ensures var m := SkipForth(atoms, p, true); WordBehind(atoms, p, SkipForth(atoms, m, false), m)
  {}
}
