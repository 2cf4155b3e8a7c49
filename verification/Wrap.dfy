/**
 The visual rows of the composer: the text split at newlines and wrapped character by
 character, each compacted paste shown as its tag.
 */
module Wrap {
  import opened Utf8
  import opened Pastes
  import Decimal
  import Seqs

  datatype Cell = Cell(c: char, bi: nat)

  /** One visual row; `end` is the byte a cursor sits on at the end of the row. */
  datatype Row = Row(chars: seq<Cell>, end: nat) {
    /** The byte of the j-th cell, and past the last cell the end byte. */
    function At(j: nat): nat
      requires j <= |chars|
    {
      if j < |chars| then chars[j].bi else end
    }
  }

  /** What wrapping depends on besides the text: the width (at least 1), the display
      width of each character, and the paste slots. */
  datatype Layout = Layout(width: nat, cw: char -> nat, pastes: seq<string>) {
    ghost predicate Valid() {
      width >= 1 && forall c :: ' ' <= c <= '~' ==> cw(c) == 1
    }

    function Label(id: nat): (s: string)
      ensures s != []
      ensures forall i :: 0 <= i < |s| ==> ' ' <= s[i] <= '~'
    {
      "[pasted " + Decimal.Show(LineCount(Slot(pastes, id))) + " lines]"
    }

    function Width(cells: seq<Cell>): nat {
      if cells == [] then 0 else Width(cells[..|cells| - 1]) + cw(cells[|cells| - 1].c)
    }

    /** What character c shows at byte bi. */
    function Cells(c: char, bi: nat): seq<Cell> {
      if c == '\n' then []
      else if IsMarker(c) then LabelCells(Label(MarkerId(c)), bi)
      else [Cell(c, bi)]
    }

    /** Whether the tag of marker c can stand on one row. */
    predicate Fits(c: char)
      requires IsMarker(c)
    {
      |Label(MarkerId(c))| <= width
    }

    lemma {:induction false} WidthConcat(a: seq<Cell>, b: seq<Cell>)
      ensures Width(a + b) == Width(a) + Width(b)
    {
      if b == [] {
        assert a + b == a;
      } else {
        WidthConcat(a, b[..|b| - 1]);
        Seqs.ConcatInit(a, b);
      }
    }

    lemma {:induction false} WidthPrinted(cells: seq<Cell>)
      requires Valid() && forall i :: 0 <= i < |cells| ==> ' ' <= cells[i].c <= '~'
      ensures Width(cells) == |cells|
    {
      if cells != [] {
        WidthPrinted(cells[..|cells| - 1]);
      }
    }
  }

  function LabelCells(tag: string, bi: nat): (r: seq<Cell>)
    ensures |r| == |tag|
  {
    seq(|tag|, i requires 0 <= i < |tag| => Cell(tag[i], bi))
  }

  // The wrapping loop, one step at a time -------------------------------------

  /** The loop's state: the finished rows, the row being filled and its width. */
  datatype State = State(rows: seq<Row>, chars: seq<Cell>, col: nat) {
    function Close(end: nat): (r: seq<Row>)
      ensures r != []
    {
      rows + [Row(chars, end)]
    }

    function Break(bi: nat): State {
      State(Close(bi), [], 0)
    }

    /** Put a block of cells as wide as `need` on the row, or on the next when it does
        not fit and this one already holds something. */
    function Put(block: seq<Cell>, need: nat, bi: nat, width: nat): State {
      if col + need > width && chars != [] then State(Close(bi), block, need)
      else State(rows, chars + block, col + need)
    }

    function PutEach(tag: string, bi: nat, L: Layout): State {
      if tag == [] then this
      else
        var c := tag[|tag| - 1];
        PutEach(tag[..|tag| - 1], bi, L).Put([Cell(c, bi)], L.cw(c), bi, L.width)
    }

    /** Feed the character c found at byte bi. */
    function Feed(c: char, bi: nat, L: Layout): State {
      if c == '\n' then Break(bi)
      else if IsMarker(c) then
        var tag := L.Label(MarkerId(c));
        if L.Fits(c) then Put(LabelCells(tag, bi), |tag|, bi, L.width)
        else PutEach(tag, bi, L)
      else Put([Cell(c, bi)], L.cw(c), bi, L.width)
    }
  }

  function Wrapped(v: string, L: Layout): State {
    if v == [] then State([], [], 0)
    else Wrapped(v[..|v| - 1], L).Feed(v[|v| - 1], Len(v[..|v| - 1]), L)
  }

  function Rows(v: string, L: Layout): (r: seq<Row>)
    ensures r != []
  {
    Wrapped(v, L).Close(Len(v))
  }

  /** The label branch of the loop: a label too wide for a row is placed character by
      character, any other one as a block. */
  method FeedLabel(L: Layout, tag: string, bi: nat, rows0: seq<Row>, chars0: seq<Cell>, col0: nat)
    returns (rows: seq<Row>, chars: seq<Cell>, col: nat)
    requires tag != []
    ensures State(rows, chars, col)
         == if |tag| > L.width then State(rows0, chars0, col0).PutEach(tag, bi, L)
            else State(rows0, chars0, col0).Put(LabelCells(tag, bi), |tag|, bi, L.width)
  {
    rows, chars, col := rows0, chars0, col0;
    if |tag| > L.width {
      for k := 0 to |tag|
        invariant State(rows, chars, col) == State(rows0, chars0, col0).PutEach(tag[..k], bi, L)
      {
        assert tag[..k + 1][..k] == tag[..k];
        var w := L.cw(tag[k]);
        if col + w > L.width && chars != [] {
          rows, chars, col := rows + [Row(chars, bi)], [], 0;
        }
        chars, col := chars + [Cell(tag[k], bi)], col + w;
      }
      assert tag[..|tag|] == tag;
      return;
    }
    if col + |tag| > L.width && chars != [] {
      rows, chars, col := rows + [Row(chars, bi)], [], 0;
    }
    ghost var before := chars;
    for k := 0 to |tag|
      invariant chars == before + LabelCells(tag, bi)[..k]
    {
      chars := chars + [Cell(tag[k], bi)];
    }
    col := col + |tag|;
  }

  /** `InputBuffer::rows`. */
  method ComputeRows(value: string, L: Layout) returns (rows: seq<Row>)
    ensures rows == Rows(value, L)
  {
    rows := [];
    var chars: seq<Cell> := [];
    var col: nat := 0;
    var bi: nat := 0;
    for i := 0 to |value|
      invariant bi == Off(value, i)
      invariant State(rows, chars, col) == Wrapped(value[..i], L)
    {
      var c := value[i];
      ghost var st := State(rows, chars, col);
      if c == '\n' {
        rows, chars, col := rows + [Row(chars, bi)], [], 0;
      } else if IsMarker(c) {
        rows, chars, col := FeedLabel(L, L.Label(MarkerId(c)), bi, rows, chars, col);
      } else {
        var w := L.cw(c);
        if col + w > L.width && chars != [] {
          rows, chars, col := rows + [Row(chars, bi)], [], 0;
        }
        chars, col := chars + [Cell(c, bi)], col + w;
      }
      assert State(rows, chars, col) == st.Feed(c, bi, L);
      assert value[..i + 1][..i] == value[..i];
      bi := bi + CharLen(c);
    }
    assert value[..|value|] == value;
    rows := rows + [Row(chars, bi)];
  }
}
