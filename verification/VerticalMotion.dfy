/** Vertical motion: when Up and Down move the cursor, and when a wrapped chip holds it. */
module VerticalMotion {
  import opened Utf8
  import opened Pastes
  import opened Wrap
  import opened WrapFacts
  import opened WrapContent
  import opened WrapCount
  import opened HitTest
  import Decimal
  import Seqs

  /** Up from any row but the first moves the cursor back, whatever the text. */
  lemma UpDecreases(v: string, L: Layout, b: nat)
    requires L.Valid() && IsBoundary(v, b)
    requires CursorRowCol(L, Rows(v, L), b).0 > 0
    ensures Up(v, L, b) < b
  {
    var rows := Rows(v, L);
    CursorFound(v, L, b);
    RowsAscending(v, L);
    var (r, col) := CursorRowCol(L, rows, b);
    var above := rows[r - 1];
    assert above.At(First(above, b)) < b;
    RowSorted(above, FirstCol(L, above, col), |above.chars|);
  }

  // Down ---------------------------------------------------------------------------------

  /** The cursor stands at the end of a row that wrapped, and the character that wrapped
      there covers the cursor's column on the row below. */
  predicate CoveredBelow(v: string, L: Layout, b: nat) {
    var rows := Rows(v, L);
    var (r, col) := CursorRowCol(L, rows, b);
    var k := Index(v, b);
    && k < |v| && v[k] != '\n' && rows[r].end == b
    && if IsMarker(v[k]) then !L.Fits(v[k]) || col < |L.Label(MarkerId(v[k]))| else col == 0
  }

  /** What is known of the cursor's row and the one below it. */
  ghost predicate Below(v: string, L: Layout, rows: seq<Row>, b: nat, r: nat) {
    && L.Valid() && IsBoundary(v, b) && rows == Rows(v, L) && Ascending(rows)
    && r == RowOf(rows, b) && r + 1 < |rows| && rows[r].At(First(rows[r], b)) == b
    && RowOk(v, L, rows[r]) && RowOk(v, L, rows[r + 1]) && JointOk(v, L, rows[r], rows[r + 1])
    && b <= rows[r].end <= rows[r + 1].At(0)
  }

  /** The cursor is on row r, and that is not the last one. */
  predicate OnRow(v: string, L: Layout, b: nat, r: nat) {
    r == CursorRowCol(L, Rows(v, L), b).0 && r + 1 < |Rows(v, L)|
  }

  lemma BelowHolds(v: string, L: Layout, b: nat)
    requires L.Valid() && IsBoundary(v, b) && CursorRowCol(L, Rows(v, L), b).0 + 1 < |Rows(v, L)|
    ensures Below(v, L, Rows(v, L), b, RowOf(Rows(v, L), b))
  {
    var rows := Rows(v, L);
    CursorFound(v, L, b);
    RowsAscending(v, L);
    var r := RowOf(rows, b);
    RowSorted(rows[r], First(rows[r], b), |rows[r].chars|);
  }

  /** The row below opens at the cursor's byte exactly when the row wrapped at the cursor. */
  lemma SoftBelow(v: string, L: Layout, rows: seq<Row>, b: nat, r: nat)
    requires Below(v, L, rows, b, r)
    ensures rows[r + 1].At(0) == b <==> rows[r].end == b && Index(v, b) < |v| && v[Index(v, b)] != '\n'
    ensures rows[r + 1].At(0) == b ==> rows[r + 1].chars != [] && rows[r].chars != []
  {
    var below := rows[r + 1];
    if below.At(0) == b {
      assert Soft(rows[r], below);
      assert CellOk(v, below.chars[0]);
    }
  }

  /** How many cells of a row that opens at b are still at b. */
  function RunLength(row: Row, b: nat): (m: nat)
    ensures m <= |row.chars|
  {
    First(row, b + 1)
  }

  lemma RunAt(row: Row, b: nat, i: nat)
    requires RowAscending(row) && row.At(0) == b && i <= |row.chars|
    ensures i < RunLength(row, b) ==> row.At(i) == b
    ensures RunLength(row, b) <= i ==> row.At(i) >= row.At(RunLength(row, b))
    ensures RunLength(row, b) <= i < |row.chars| ==> row.At(i) > b
  {
    RowSorted(row, 0, i);
    if RunLength(row, b) <= i {
      RowSorted(row, RunLength(row, b), i);
    }
  }

  lemma RunCount(row: Row, b: nat)
    requires RowAscending(row) && row.At(0) == b
    ensures CountAt(row.chars, b) == RunLength(row, b)
    ensures forall i :: 0 <= i < RunLength(row, b) ==> row.chars[i].bi == b
  {
    forall i | 0 <= i < |row.chars| ensures row.chars[i].bi == b <==> i < RunLength(row, b) {
      RunAt(row, b, i);
    }
    CountRun(row.chars, b, 0, RunLength(row, b));
  }

  /** The run of a plain character is one cell. */
  lemma PlainRun(v: string, L: Layout, row: Row, b: nat)
    requires RowOk(v, L, row) && row.chars != [] && row.At(0) == b && !MarkerAt(v, b)
    ensures RunLength(row, b) == 1 && row.At(1) > b
  {
    RowGrows(v, L, row);
    assert row.chars[0].bi < row.At(0 + 1);
  }

  /** Over pieces of a label, columns and cells are the same. */
  lemma LabelColumns(v: string, L: Layout, row: Row, b: nat, m: nat)
    requires L.Valid() && RowOk(v, L, row) && m <= |row.chars| && MarkerAt(v, b)
    requires forall i :: 0 <= i < m ==> row.chars[i].bi == b
    ensures forall i :: 0 <= i <= m ==> L.Width(row.chars[..i]) == i
  {
    forall i | 0 <= i <= m ensures L.Width(row.chars[..i]) == i {
      assert forall k :: 0 <= k < i ==> CellOk(v, row.chars[k]);
      L.WidthPrinted(row.chars[..i]);
    }
  }

  /** Aiming at column col of a row that opens with m cells at b. */
  lemma AimAtRun(v: string, L: Layout, row: Row, b: nat, m: nat, col: nat)
    requires L.Valid() && RowOk(v, L, row) && 0 < m <= |row.chars|
    requires forall i :: 0 <= i < m ==> row.chars[i].bi == b
    requires MarkerAt(v, b) || m == 1
    ensures FirstCol(L, row, col) < m <==> if MarkerAt(v, b) then col < m else col == 0
  {
    var f := FirstCol(L, row, col);
    assert row.chars[..0] == [];
    if MarkerAt(v, b) {
      LabelColumns(v, L, row, b, m);
      assert f < m ==> col <= L.Width(row.chars[..f]) == f;
      assert m <= f ==> L.Width(row.chars[..m - 1]) == m - 1 < col;
    }
  }

  // Counting the pieces of a label -----------------------------------------------------------

  /** Nothing of the character at b is shown above the cursor's row, and nothing below a row
      on which its run ends. */
  lemma RowsAbove(v: string, L: Layout, rows: seq<Row>, b: nat, r: nat, i: nat)
    requires Below(v, L, rows, b, r) && i < r
    ensures CountAt(rows[i].chars, b) == 0
  {
    assert rows[i].At(First(rows[i], b)) < b;
    CountNone(rows[i].chars, b);
  }

  lemma RowsBeyond(rows: seq<Row>, b: nat, q: nat, m: nat, i: nat)
    requires Ascending(rows) && q < i < |rows| && m <= |rows[q].chars| && rows[q].At(m) > b
    ensures CountAt(rows[i].chars, b) == 0
  {
    forall j | 0 <= j < |rows[i].chars| ensures rows[i].chars[j].bi != b {
      GridSorted(rows, q, m, i, j);
    }
    CountNone(rows[i].chars, b);
  }

  /** A row that ends at b shows it from the cursor's cell to its end. */
  lemma CursorRowCount(row: Row, b: nat)
    requires RowAscending(row) && row.end == b
    ensures CountAt(row.chars, b) == |row.chars| - First(row, b)
    ensures forall i :: First(row, b) <= i < |row.chars| ==> row.chars[i].bi == b
  {
    var j := First(row, b);
    forall i | j <= i < |row.chars| ensures row.chars[i].bi == b {
      RowSorted(row, j, i);
      RowSorted(row, i, |row.chars|);
    }
    CountRun(row.chars, b, j, |row.chars|);
  }

  /** When the run ends on the row below, the two rows show the whole character. */
  lemma RunEnds(v: string, L: Layout, rows: seq<Row>, b: nat, r: nat, m: nat)
    requires L.Valid() && IsBoundary(v, b) && OnRow(v, L, b, r) && rows == Rows(v, L)
    requires Index(v, b) < |v|
    requires m <= |rows[r + 1].chars| && rows[r + 1].At(m) > b
    ensures CountAt(rows[r].chars, b) + CountAt(rows[r + 1].chars, b) == |L.Cells(v[Index(v, b)], b)|
  {
    BelowHolds(v, L, b);
    forall i | 0 <= i < |rows| && i != r && i != r + 1 ensures CountAt(rows[i].chars, b) == 0 {
      if i < r {
        RowsAbove(v, L, rows, b, r, i);
      } else {
        RowsBeyond(rows, b, r + 1, m, i);
      }
    }
    TwoRows(rows, b, r);
    BoundaryIndex(v, b);
    RowsCount(v, L, Index(v, b));
  }

  /** A row that ends inside a label goes on with it on the next. */
  lemma LabelGoesOn(v: string, L: Layout, q: nat, b: nat)
    requires L.Valid() && IsBoundary(v, b) && MarkerAt(v, b)
    requires q < |Rows(v, L)| && Rows(v, L)[q].end == b
    ensures q + 1 < |Rows(v, L)| && Rows(v, L)[q + 1].chars != [] && Rows(v, L)[q + 1].At(0) == b
  {
    WrappedGood(v, L);
    RowsShowText(v, L);
    BoundaryIndex(v, b);
    assert q + 1 < |Rows(v, L)| ==> JointOk(v, L, Rows(v, L)[q], Rows(v, L)[q + 1]);
  }

  /** A label that fits a row stands on the row below in one piece. */
  lemma FitAlone(v: string, L: Layout, rows: seq<Row>, b: nat, r: nat)
    requires L.Valid() && IsBoundary(v, b) && OnRow(v, L, b, r) && rows == Rows(v, L)
    requires rows[r + 1].chars != [] && rows[r + 1].At(0) == b
    requires MarkerAt(v, b) && L.Fits(v[Index(v, b)])
    ensures RunLength(rows[r + 1], b) == |L.Label(MarkerId(v[Index(v, b)]))|
    ensures rows[r + 1].At(RunLength(rows[r + 1], b)) > b
  {
    BelowHolds(v, L, b);
    var below := rows[r + 1];
    RunCount(below, b);
    FitCount(v, L, b, r + 1);
    if RunLength(below, b) == |below.chars| && below.end == b {
      LabelGoesOn(v, L, r + 1, b);
      FitCount(v, L, b, r + 2);
      RowTwice(v, L, b, r + 1);
    } else {
      RunStops(below, b);
    }
  }

  /** The row that shows some of a fitting label shows all of it. */
  lemma FitCount(v: string, L: Layout, b: nat, x: nat)
    requires L.Valid() && IsBoundary(v, b) && MarkerAt(v, b) && L.Fits(v[Index(v, b)])
    requires x < |Rows(v, L)| && Rows(v, L)[x].chars != [] && Rows(v, L)[x].At(0) == b
    ensures CountAt(Rows(v, L)[x].chars, b) == |L.Label(MarkerId(v[Index(v, b)]))|
         == CountAt(Flat(Rows(v, L)), b)
  {
    var rows, k := Rows(v, L), Index(v, b);
    BoundaryIndex(v, b);
    RowsCount(v, L, k);
    var q, p := ChipStaysWhole(v, L, k);
    StandsCount(rows, q, p, L.Cells(v[k], b), b);
    CountSome(rows[x].chars, b, 0, 1);
    OneRowAtMost(rows, b, x);
    if q < x {
      TwoRowsAtMost(rows, b, q, x);
    } else if x < q {
      TwoRowsAtMost(rows, b, x, q);
    }
  }

  lemma RowTwice(v: string, L: Layout, b: nat, x: nat)
    requires x + 1 < |Rows(v, L)|
    ensures CountAt(Rows(v, L)[x].chars, b) + CountAt(Rows(v, L)[x + 1].chars, b) <= CountAt(Flat(Rows(v, L)), b)
  {
    TwoRowsAtMost(Rows(v, L), b, x, x + 1);
  }

  lemma RunStops(row: Row, b: nat)
    requires RowAscending(row) && row.At(0) == b && !(RunLength(row, b) == |row.chars| && row.end == b)
    ensures row.At(RunLength(row, b)) > b
  {
    RowSorted(row, 0, |row.chars|);
  }

  lemma StandsCount(rows: seq<Row>, r: nat, p: nat, cells: seq<Cell>, b: nat)
    requires Stands(rows, r, p, cells) && forall i :: 0 <= i < |cells| ==> cells[i].bi == b
    ensures CountAt(rows[r].chars, b) >= |cells|
  {
    var chars := rows[r].chars;
    forall k | p <= k < p + |cells| ensures chars[k].bi == b {
      assert chars[p..p + |cells|][k - p] == cells[k - p];
    }
    CountSome(chars, b, p, p + |cells|);
  }

  /** A row that breaks inside a label, up to where the label starts, is narrower than what is
      left of the label for the row below. */
  lemma WideColumn(v: string, L: Layout, row: Row, below: Row, b: nat, m: nat)
    requires L.Valid() && RowOk(v, L, row) && RowOk(v, L, below) && JointOk(v, L, row, below)
    requires row.end == b && below.At(0) == b && MarkerAt(v, b) && !L.Fits(v[Index(v, b)])
    requires m <= |below.chars| && forall i :: 0 <= i < m ==> below.chars[i].bi == b
    requires CountAt(row.chars, b) + m > L.width
    ensures L.Width(row.chars[..First(row, b)]) < m
  {
    RowGrows(v, L, row);
    CursorRowCount(row, b);
    LabelTail(v, L, row, b, First(row, b));
    LabelHead(v, L, below, b, m);
    assert Soft(row, below) && Need(v, L, row.end) == 1;
  }

  lemma LabelTail(v: string, L: Layout, row: Row, b: nat, j: nat)
    requires L.Valid() && RowOk(v, L, row) && j <= |row.chars| && MarkerAt(v, b)
    requires forall i :: j <= i < |row.chars| ==> row.chars[i].bi == b
    ensures L.Width(row.chars) == L.Width(row.chars[..j]) + |row.chars| - j
  {
    assert forall i :: j <= i < |row.chars| ==> CellOk(v, row.chars[i]);
    L.WidthPrinted(row.chars[j..]);
    L.WidthConcat(row.chars[..j], row.chars[j..]);
    Seqs.Split(row.chars, j);
  }

  lemma LabelHead(v: string, L: Layout, row: Row, b: nat, m: nat)
    requires L.Valid() && RowOk(v, L, row) && m <= |row.chars| && MarkerAt(v, b)
    requires forall i :: 0 <= i < m ==> row.chars[i].bi == b
    ensures m <= L.Width(row.chars)
  {
    LabelColumns(v, L, row, b, m);
    WidthMonotone(L, row.chars, m, |row.chars|);
    assert row.chars[..|row.chars|] == row.chars;
  }

  // When Down moves on -----------------------------------------------------------------------

  /** The row below goes back to b in column col exactly inside the run it opens with. */
  lemma RunHit(v: string, L: Layout, row: Row, b: nat, col: nat)
    requires L.Valid() && RowOk(v, L, row) && row.chars != [] && row.At(0) == b
    requires row.At(RunLength(row, b)) > b
    ensures var m := RunLength(row, b);
      && ByteAtCol(L, row, col) >= b
      && (ByteAtCol(L, row, col) == b <==> if MarkerAt(v, b) then col < m else col == 0)
  {
    RowGrows(v, L, row);
    var f, m := FirstCol(L, row, col), RunLength(row, b);
    RunCount(row, b);
    RunAt(row, b, f);
    RunAt(row, b, 0);
    if !MarkerAt(v, b) {
      PlainRun(v, L, row, b);
    }
    AimAtRun(v, L, row, b, m, col);
  }

  /** A label wider than a row holds the cursor in front of it in every column. */
  lemma WideHit(v: string, L: Layout, rows: seq<Row>, b: nat, r: nat)
    requires L.Valid() && IsBoundary(v, b) && OnRow(v, L, b, r) && rows == Rows(v, L)
    requires rows[r].end == b && rows[r + 1].At(0) == b
    requires rows[r].chars != [] && rows[r + 1].chars != []
    requires MarkerAt(v, b) && !L.Fits(v[Index(v, b)])
    ensures ByteAtCol(L, rows[r + 1], L.Width(rows[r].chars[..First(rows[r], b)])) == b
  {
    BelowHolds(v, L, b);
    var below, m := rows[r + 1], RunLength(rows[r + 1], b);
    var col := L.Width(rows[r].chars[..First(rows[r], b)]);
    if m == |below.chars| && below.end == b {
      RunAt(below, b, FirstCol(L, below, col));
    } else {
      RunStops(below, b);
      RunCount(below, b);
      RunEnds(v, L, rows, b, r, m);
      WideColumn(v, L, rows[r], below, b, m);
      RunHit(v, L, below, b, col);
    }
  }

  /** Down from any row but the last never moves back, and it moves on exactly unless the
      character that wrapped at the cursor covers the cursor's column on the row below:
      a plain character covers column 0, a label that fits a row its own length, and one
      wider than a row every column. */
  lemma DownIncreasesIff(v: string, L: Layout, b: nat)
    requires L.Valid() && IsBoundary(v, b)
    requires CursorRowCol(L, Rows(v, L), b).0 + 1 < |Rows(v, L)|
    ensures Down(v, L, b) > b <==> !CoveredBelow(v, L, b)
    ensures Down(v, L, b) >= b
  {
    var rows := Rows(v, L);
    var (r, col) := CursorRowCol(L, rows, b);
    var below := rows[r + 1];
    BelowHolds(v, L, b);
    SoftBelow(v, L, rows, b, r);
    RowSorted(below, 0, FirstCol(L, below, col));
    if below.At(0) == b {
      if !MarkerAt(v, b) {
        PlainRun(v, L, below, b);
        RunHit(v, L, below, b, col);
      } else if L.Fits(v[Index(v, b)]) {
        FitAlone(v, L, rows, b, r);
        RunHit(v, L, below, b, col);
      } else {
        WideHit(v, L, rows, b, r);
      }
    }
  }

  /** Such a text: `x` and a chip of three lines, at a width of 16.  The chip wraps whole, and
      Down from the end of the first row aims at its second column. */
  lemma DownStays(cw: char -> nat) returns (v: string, L: Layout)
    requires forall c :: ' ' <= c <= '~' ==> cw(c) == 1
    ensures v == "x" + [PasteMarker(0).value] && L == Layout(16, cw, ["a\nb\nc"])
    ensures L.Valid() && IsBoundary(v, 1) && Table(v, L.pastes)
    ensures CursorRowCol(L, Rows(v, L), 1).0 == 0 && |Rows(v, L)| == 2 && Down(v, L, 1) == 1
  {
    var m := PasteMarker(0).value;
    v, L := "x" + [m], Layout(16, cw, ["a\nb\nc"]);
    ChipTag(L);
    TwoRowText(v, L);
    OneBeforeChip(v);
    EndOfFirst(L, Rows(v, L));
    DownIncreasesIff(v, L, 1);
  }

  lemma OneBeforeChip(v: string)
    requires v == "x" + [PasteMarker(0).value]
    ensures IsBoundary(v, 1) && Index(v, 1) == 1 && Table(v, ["a\nb\nc"])
  {
    assert v[..1] == "x" && "x"[..0] == "";
    assert Off(v, 1) == 1;
    BoundaryAt(v, 1);
    assert v[1] in v;
  }

  lemma EndOfFirst(L: Layout, rows: seq<Row>)
    requires |rows| == 2 && rows[0] == Row([Cell('x', 0)], 1) && L.cw('x') == 1
    ensures CursorRowCol(L, rows, 1) == (0, 1)
  {
    var row := rows[0];
    assert First(row, 1, 1) == 1 && row.At(1) == 1;
    assert First(row, 1) == 1;
    assert RowOf(rows, 1) == 0;
    assert row.chars[..1] == row.chars && row.chars[..0] == [];
    assert L.Width(row.chars) == 1;
  }

  /** The tag of a chip of three lines. */
  lemma ChipTag(L: Layout)
    requires L.pastes == ["a\nb\nc"]
    ensures |L.Label(0)| == 16
  {
    var p := "a\nb\nc";
    assert p[..4] == "a\nb\n" && p[..4][..3] == "a\nb";
    assert p[..3][..2] == "a\n" && p[..2][..1] == "a" && p[..1][..0] == "";
    assert CountNewlines("a") == 0 && CountNewlines("a\n") == 1;
    assert CountNewlines("a\nb") == 1 && CountNewlines("a\nb\n") == 2;
    assert Decimal.Show(3) == [Decimal.Digit(3)];
  }

  lemma TwoRowText(v: string, L: Layout)
    requires v == "x" + [PasteMarker(0).value] && L.Valid() && L.width == 16 && |L.Label(0)| == 16
    ensures Rows(v, L) == [Row([Cell('x', 0)], 1), Row(LabelCells(L.Label(0), 1), Len(v))]
  {
    assert v[..1] == "x" && "x"[..0] == "";
    assert Wrapped("x", L) == State([], [Cell('x', 0)], 1);
  }

  /** So Down never moves a cursor in front of a chip wider than a row. */
  lemma WideChipHolds(v: string, L: Layout, b: nat)
    requires L.Valid() && IsBoundary(v, b) && MarkerAt(v, b) && !L.Fits(v[Index(v, b)])
    ensures Down(v, L, b) == b
  {
    var rows := Rows(v, L);
    var (r, _) := CursorRowCol(L, rows, b);
    if r + 1 < |rows| {
      BelowHolds(v, L, b);
      if rows[r].end > b {
        WholeOnRow(v, L, rows, b, r);
      }
      DownIncreasesIff(v, L, b);
    }
  }

  /** A row that goes on past a label would show all of it. */
  lemma WholeOnRow(v: string, L: Layout, rows: seq<Row>, b: nat, r: nat)
    requires L.Valid() && IsBoundary(v, b) && OnRow(v, L, b, r) && rows == Rows(v, L)
    requires MarkerAt(v, b) && !L.Fits(v[Index(v, b)])
    ensures rows[r].end <= b
  {
    BelowHolds(v, L, b);
    if rows[r].end > b {
      var row, j := rows[r], First(rows[r], b);
      RowsBeyond(rows, b, r, |row.chars|, r + 1);
      RowSorted(rows[r + 1], 0, |rows[r + 1].chars|);
      RunEnds(v, L, rows, b, r, |rows[r + 1].chars|);
      LabelWide(v, L, row, b);
    }
  }

  lemma LabelWide(v: string, L: Layout, row: Row, b: nat)
    requires L.Valid() && RowOk(v, L, row) && MarkerAt(v, b)
    ensures CountAt(row.chars, b) <= L.width
  {
    LabelWidth(v, L, row, b, |row.chars|);
    assert row.chars[..|row.chars|] == row.chars;
  }

  lemma {:induction false} LabelWidth(v: string, L: Layout, row: Row, b: nat, n: nat)
    requires L.Valid() && RowOk(v, L, row) && MarkerAt(v, b) && n <= |row.chars|
    ensures CountAt(row.chars[..n], b) <= L.Width(row.chars[..n])
    ensures CountAt(row.chars[..n], b) <= n
  {
    if n > 0 {
      LabelWidth(v, L, row, b, n - 1);
      assert row.chars[..n][..n - 1] == row.chars[..n - 1];
      assert CellOk(v, row.chars[n - 1]);
    }
  }

  lemma CellsVisible(v: string, L: Layout, row: Row)
    requires L.Valid() && RowOk(v, L, row) && Visible(v, L)
    ensures forall j :: 0 <= j < |row.chars| ==> L.cw(row.chars[j].c) > 0
  {
    forall j | 0 <= j < |row.chars| ensures L.cw(row.chars[j].c) > 0 {
      assert CellOk(v, row.chars[j]);
    }
  }

  /** With visible characters and no chips, Down from any row but the last moves on. */
  lemma DownIncreases(v: string, L: Layout, b: nat)
    requires L.Valid() && IsBoundary(v, b) && Visible(v, L) && Clean(v)
    requires CursorRowCol(L, Rows(v, L), b).0 + 1 < |Rows(v, L)|
    ensures Down(v, L, b) > b
  {
    var rows := Rows(v, L);
    var r := CursorRowCol(L, rows, b).0;
    DownIncreasesIff(v, L, b);
    BelowHolds(v, L, b);
    SoftBelow(v, L, rows, b, r);
    if rows[r].chars != [] && rows[r].end == b {
      ColumnPositive(v, L, rows[r], b);
    }
  }

  /** A row that ends at b and holds something shows b past column 0. */
  lemma ColumnPositive(v: string, L: Layout, row: Row, b: nat)
    requires L.Valid() && RowOk(v, L, row) && Visible(v, L) && !MarkerAt(v, b)
    requires row.chars != [] && row.end == b
    ensures L.Width(row.chars[..First(row, b)]) > 0
  {
    CellsVisible(v, L, row);
    assert L.cw(row.chars[0].c) > 0;
    var j := First(row, b);
    if j == 0 {
      OpensAtEnd(v, L, row);
    } else {
      WidthMonotone(L, row.chars, 1, j);
      WidthNext(L, row.chars, 0);
    }
  }

  /** A row that holds something opens before its end byte, except inside a label. */
  lemma OpensAtEnd(v: string, L: Layout, row: Row)
    requires RowOk(v, L, row) && row.chars != [] && row.end <= row.chars[0].bi
    ensures MarkerAt(v, row.end) && row.end == row.chars[0].bi
  {
    RowGrows(v, L, row);
    RowSorted(row, 1, |row.chars|);
  }

  function DownTimes(v: string, L: Layout, b: nat, n: nat): nat
    decreases n
  {
    if n == 0 then b else DownTimes(v, L, Down(v, L, b), n - 1)
  }

  lemma DownStep(v: string, L: Layout, b: nat)
    requires L.Valid() && IsBoundary(v, b) && Visible(v, L) && Clean(v)
    ensures IsBoundary(v, Down(v, L, b)) && Down(v, L, b) <= Len(v)
    ensures OnLastRow(v, L, b) || Down(v, L, b) > b
  {
    VerticalBoundary(v, L, b);
    BoundaryIndex(v, Down(v, L, b));
    CursorFound(v, L, b);
    if CursorRowCol(L, Rows(v, L), b).0 < |Rows(v, L)| - 1 {
      DownIncreases(v, L, b);
    }
  }

  /** So pressing Down often enough reaches the last row. */
  lemma {:induction false} DownReachesLast(v: string, L: Layout, b: nat) returns (n: nat)
    requires L.Valid() && IsBoundary(v, b) && Visible(v, L) && Clean(v)
    ensures OnLastRow(v, L, DownTimes(v, L, b, n))
    decreases Len(v) - b
  {
    n := 0;
    if !OnLastRow(v, L, b) {
      DownStep(v, L, b);
      var k := DownReachesLast(v, L, Down(v, L, b));
      n := k + 1;
      assert DownTimes(v, L, b, n) == DownTimes(v, L, Down(v, L, b), k);
    }
  }
}
