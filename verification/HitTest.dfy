/** From bytes to cells and back: the cursor's row and column, and the byte under a cell. */
module HitTest {
  import opened Utf8
  import opened Pastes
  import opened Wrap
  import opened WrapFacts
  import opened WrapContent

  function Min(a: nat, b: nat): nat {
    if a <= b then a else b
  }

  // Specifications -------------------------------------------------------------------

  /** The first cell at or after byte b, or the end of the row. */
  function First(row: Row, b: nat, from: nat := 0): (j: nat)
    requires from <= |row.chars|
    ensures from <= j <= |row.chars|
    ensures forall i :: from <= i < j ==> row.chars[i].bi < b
    ensures j < |row.chars| ==> b <= row.chars[j].bi
    decreases |row.chars| - from
  {
    if from == |row.chars| || b <= row.chars[from].bi then from else First(row, b, from + 1)
  }

  /** The first row that shows a byte at or after b, its end included. */
  function RowOf(rows: seq<Row>, b: nat, from: nat := 0): (r: nat)
    requires from <= |rows|
    ensures from <= r <= |rows|
    ensures forall i :: from <= i < r ==> rows[i].At(First(rows[i], b)) < b
    ensures r < |rows| ==> b <= rows[r].At(First(rows[r], b))
    decreases |rows| - from
  {
    if from == |rows| || b <= rows[from].At(First(rows[from], b)) then from else RowOf(rows, b, from + 1)
  }

  /** The first cell that starts at or after column col, or the end of the row. */
  function FirstCol(L: Layout, row: Row, col: nat, from: nat := 0): (j: nat)
    requires from <= |row.chars|
    ensures from <= j <= |row.chars|
    ensures forall i :: from <= i < j ==> L.Width(row.chars[..i]) < col
    ensures j < |row.chars| ==> col <= L.Width(row.chars[..j])
    decreases |row.chars| - from
  {
    if from == |row.chars| || col <= L.Width(row.chars[..from]) then from
    else FirstCol(L, row, col, from + 1)
  }

  function CursorRowCol(L: Layout, rows: seq<Row>, b: nat): (nat, nat)
    requires rows != []
  {
    var r := RowOf(rows, b);
    if r == |rows| then (|rows| - 1, 0) else (r, L.Width(rows[r].chars[..First(rows[r], b)]))
  }

  function ByteAtCol(L: Layout, row: Row, col: nat): nat {
    row.At(FirstCol(L, row, col))
  }

  function ByteAt(v: string, L: Layout, row: nat, col: nat): Option<nat> {
    var rows := Rows(v, L);
    if row < |rows| then Some(ByteAtCol(L, rows[row], col)) else None
  }

  function Up(v: string, L: Layout, b: nat): nat {
    var rows := Rows(v, L);
    var (row, col) := CursorRowCol(L, rows, b);
    if row == 0 || row > |rows| then b else ByteAtCol(L, rows[row - 1], col)
  }

  function Down(v: string, L: Layout, b: nat): nat {
    var rows := Rows(v, L);
    var (row, col) := CursorRowCol(L, rows, b);
    if row + 1 >= |rows| then b else ByteAtCol(L, rows[row + 1], col)
  }

  // The loops --------------------------------------------------------------------------

  /** `InputBuffer::cursor_row_col`. */
  method ComputeCursorRowCol(L: Layout, rows: seq<Row>, cursor: nat) returns (row: nat, col: nat)
    requires rows != []
    ensures (row, col) == CursorRowCol(L, rows, cursor)
  {
    for ri := 0 to |rows|
      invariant RowOf(rows, cursor) == RowOf(rows, cursor, ri)
    {
      var r := rows[ri];
      col := 0;
      for j := 0 to |r.chars|
        invariant col == L.Width(r.chars[..j])
        invariant First(r, cursor) == First(r, cursor, j)
      {
        if r.chars[j].bi >= cursor {
          return ri, col;
        }
        assert r.chars[..j + 1][..j] == r.chars[..j];
        col := col + L.cw(r.chars[j].c);
      }
      assert r.chars[..|r.chars|] == r.chars;
      if cursor <= r.end {
        return ri, col;
      }
    }
    return |rows| - 1, 0;
  }

  /** `row_col_to_byte`. */
  method RowColToByte(L: Layout, row: Row, col: nat) returns (b: nat)
    ensures b == ByteAtCol(L, row, col)
  {
    var acc: nat := 0;
    for j := 0 to |row.chars|
      invariant acc == L.Width(row.chars[..j])
      invariant FirstCol(L, row, col) == FirstCol(L, row, col, j)
    {
      if acc >= col {
        return row.chars[j].bi;
      }
      assert row.chars[..j + 1][..j] == row.chars[..j];
      acc := acc + L.cw(row.chars[j].c);
    }
    return row.end;
  }

  // Order over the grid ----------------------------------------------------------------

  ghost predicate RowAscending(row: Row) {
    forall j :: 0 <= j < |row.chars| ==> row.chars[j].bi <= row.At(j + 1)
  }

  ghost predicate Ascending(rows: seq<Row>) {
    && (forall r :: 0 <= r < |rows| ==> RowAscending(rows[r]))
    && (forall r :: 0 <= r < |rows| - 1 ==> rows[r].end <= rows[r + 1].At(0))
  }

  lemma RowGrows(v: string, L: Layout, row: Row)
    requires RowOk(v, L, row)
    ensures RowAscending(row)
    ensures forall j :: 0 <= j < |row.chars| ==>
      MarkerAt(v, row.chars[j].bi) || row.chars[j].bi < row.At(j + 1)
  {
    forall j | 0 <= j < |row.chars|
      ensures row.chars[j].bi <= row.At(j + 1)
      ensures MarkerAt(v, row.chars[j].bi) || row.chars[j].bi < row.At(j + 1)
    {
      FollowsGrows(v, row.chars[j].bi, row.At(j + 1));
    }
  }

  lemma RowsAscending(v: string, L: Layout)
    requires L.Valid()
    ensures Good(v, L, Rows(v, L)) && Ascending(Rows(v, L))
  {
    WrappedGood(v, L);
    var rows := Rows(v, L);
    forall r | 0 <= r < |rows| - 1 ensures rows[r].end <= rows[r + 1].At(0) {
      JointGrows(v, L, rows[r], rows[r + 1]);
    }
    forall r | 0 <= r < |rows| ensures RowAscending(rows[r]) {
      RowGrows(v, L, rows[r]);
    }
  }

  lemma {:induction false} RowSorted(row: Row, i: nat, j: nat)
    requires RowAscending(row) && i <= j <= |row.chars|
    ensures row.At(i) <= row.At(j)
    decreases j - i
  {
    if i < j {
      RowSorted(row, i, j - 1);
      assert row.chars[j - 1].bi <= row.At(j);
    }
  }

  /** Reading the grid row by row, the bytes never go back. */
  lemma {:induction false} GridSorted(rows: seq<Row>, q: nat, i: nat, r: nat, j: nat)
    requires Ascending(rows) && q <= r < |rows| && i <= |rows[q].chars| && j <= |rows[r].chars|
    requires q < r || i <= j
    ensures rows[q].At(i) <= rows[r].At(j)
    ensures q < r ==> rows[q].end <= rows[r].At(j)
    decreases r - q
  {
    if q == r {
      RowSorted(rows[q], i, j);
    } else {
      RowSorted(rows[q], i, |rows[q].chars|);
      GridSorted(rows, q, |rows[q].chars|, r - 1, |rows[r - 1].chars|);
      assert rows[r - 1].end <= rows[r - 1 + 1].At(0);
      RowSorted(rows[r], 0, j);
    }
  }

  lemma FoundIn(rows: seq<Row>, b: nat, q: nat, i: nat)
    requires Ascending(rows) && On(rows, q, i, b)
    ensures var r := RowOf(rows, b); r < |rows| && rows[r].At(First(rows[r], b)) == b
  {
    var r := RowOf(rows, b);
    if q < r {
      RowSorted(rows[q], First(rows[q], b), |rows[q].chars|);
      RowSorted(rows[q], i, |rows[q].chars|);
      assert false;
    }
    if r < q {
      GridSorted(rows, r, First(rows[r], b), q, i);
    } else {
      RowSorted(rows[r], First(rows[r], b), i);
    }
  }

  /** The cursor is shown where it is looked up: at its own byte. */
  lemma CursorFound(v: string, L: Layout, b: nat)
    requires L.Valid() && IsBoundary(v, b)
    ensures var rows := Rows(v, L); var r := RowOf(rows, b);
      r < |rows| && rows[r].At(First(rows[r], b)) == b
  {
    RowsAscending(v, L);
    BoundaryIndex(v, b);
    EveryBoundaryShown(v, L, Index(v, b));
    var q: nat, i: nat :| On(Rows(v, L), q, i, b);
    FoundIn(Rows(v, L), b, q, i);
  }

  /** Every byte the grid can answer with is a character boundary. */
  lemma GridBoundary(v: string, L: Layout, r: nat, j: nat)
    requires L.Valid() && r < |Rows(v, L)| && j <= |Rows(v, L)[r].chars|
    ensures IsBoundary(v, Rows(v, L)[r].At(j))
  {
    WrappedGood(v, L);
    var rows := Rows(v, L);
    assert RowOk(v, L, rows[r]);
    if j < |rows[r].chars| {
      assert CellOk(v, rows[r].chars[j]);
    }
  }

  lemma VerticalBoundary(v: string, L: Layout, b: nat)
    requires L.Valid() && IsBoundary(v, b)
    ensures IsBoundary(v, Up(v, L, b)) && IsBoundary(v, Down(v, L, b))
  {
    var rows := Rows(v, L);
    var (row, col) := CursorRowCol(L, rows, b);
    if 0 < row <= |rows| {
      GridBoundary(v, L, row - 1, FirstCol(L, rows[row - 1], col));
    }
    if row + 1 < |rows| {
      GridBoundary(v, L, row + 1, FirstCol(L, rows[row + 1], col));
    }
  }

  /** Byte b of a row is the one under column col: it stands at j, every cell before j begins left
      of the column, and j is past them all or begins at or right of it. */
  ghost predicate Under(L: Layout, row: Row, col: nat, b: nat) {
    exists j: nat :: UnderAt(L, row, col, b, j)
  }

  ghost predicate UnderAt(L: Layout, row: Row, col: nat, b: nat, j: nat) {
    && j <= |row.chars| && b == row.At(j)
    && (forall i :: 0 <= i < j ==> L.Width(row.chars[..i]) < col)
    && (j == |row.chars| || col <= L.Width(row.chars[..j]))
  }

  lemma LandsUnder(L: Layout, row: Row, col: nat)
    ensures Under(L, row, col, ByteAtCol(L, row, col))
  {
    assert UnderAt(L, row, col, ByteAtCol(L, row, col), FirstCol(L, row, col));
  }

  /** The cursor's cell: its row shows the cursor's byte, with the cells before it taking as many
      columns as it stands from the left, and every cell before it shows an earlier byte. */
  lemma CursorCell(v: string, L: Layout, b: nat)
    requires L.Valid() && IsBoundary(v, b)
    ensures var rows := Rows(v, L); var (r, col) := CursorRowCol(L, rows, b);
      && r < |rows|
      && (forall q, i :: 0 <= q < r && 0 <= i <= |rows[q].chars| ==> rows[q].At(i) < b)
      && exists j: nat :: j <= |rows[r].chars| && rows[r].At(j) == b && col == L.Width(rows[r].chars[..j])
           && forall i :: 0 <= i < j ==> rows[r].At(i) < b
  {
    CursorFound(v, L, b);
    RowsAscending(v, L);
    var rows := Rows(v, L);
    var r := RowOf(rows, b);
    assert rows[r].At(First(rows[r], b)) == b;
    forall q, i | 0 <= q < r && 0 <= i <= |rows[q].chars| ensures rows[q].At(i) < b {
      RowSorted(rows[q], i, |rows[q].chars|);
    }
  }

  /** Up and Down land on the row above and below, on the byte under the cursor's column; on the
      first and on the last row they stay. */
  lemma VerticalLands(v: string, L: Layout, b: nat)
    requires L.Valid() && IsBoundary(v, b)
    ensures var rows := Rows(v, L); var (r, col) := CursorRowCol(L, rows, b);
      && r < |rows|
      && (if r > 0 then Under(L, rows[r - 1], col, Up(v, L, b)) else Up(v, L, b) == b)
      && (if r + 1 < |rows| then Under(L, rows[r + 1], col, Down(v, L, b)) else Down(v, L, b) == b)
  {
    CursorFound(v, L, b);
    var rows := Rows(v, L);
    var (r, col) := CursorRowCol(L, rows, b);
    if r > 0 {
      LandsUnder(L, rows[r - 1], col);
    }
    if r + 1 < |rows| {
      LandsUnder(L, rows[r + 1], col);
    }
  }

  /** The byte under a cell of the grid. */
  lemma ByteAtLands(v: string, L: Layout, row: nat, col: nat)
    ensures var rows := Rows(v, L); var hit := ByteAt(v, L, row, col);
      && (hit.Some? <==> row < |rows|)
      && (hit.Some? ==> Under(L, rows[row], col, hit.value))
  {
    if row < |Rows(v, L)| {
      LandsUnder(L, Rows(v, L)[row], col);
    }
  }

  // The hit-test inverse -----------------------------------------------------------------

  /** Every displayed character takes at least one column. */
  ghost predicate Visible(v: string, L: Layout) {
    forall k :: 0 <= k < |v| && v[k] != '\n' && !IsMarker(v[k]) ==> L.cw(v[k]) > 0
  }

  /** The character before byte b stands on the same line and takes no column. */
  predicate AfterInvisible(v: string, L: Layout, b: nat) {
    var k := Index(v, b);
    k > 0 && v[k - 1] != '\n' && !IsMarker(v[k - 1]) && L.cw(v[k - 1]) == 0
  }

  lemma {:induction false} WidthMonotone(L: Layout, cells: seq<Cell>, i: nat, j: nat)
    requires i <= j <= |cells|
    ensures L.Width(cells[..i]) <= L.Width(cells[..j])
  {
    assert cells[..j] == cells[..i] + cells[i..j];
    L.WidthConcat(cells[..i], cells[i..j]);
  }

  lemma WidthNext(L: Layout, cells: seq<Cell>, i: nat)
    requires i < |cells|
    ensures L.Width(cells[..i + 1]) == L.Width(cells[..i]) + L.cw(cells[i].c)
  {
    assert cells[..i + 1][..i] == cells[..i];
  }

  /** The grid opens at the first byte. */
  lemma GridOpens(v: string, L: Layout)
    requires L.Valid()
    ensures Rows(v, L)[0].At(0) == 0
  {
    RowsAscending(v, L);
    OffEnds(v);
    EveryBoundaryShown(v, L, 0);
    var q: nat, i: nat :| On(Rows(v, L), q, i, 0);
    GridSorted(Rows(v, L), 0, 0, q, i);
  }

  /** The cell before the one that shows byte b shows the character before it. */
  lemma CellBefore(v: string, L: Layout, row: Row, j: nat, b: nat)
    requires RowOk(v, L, row) && 0 < j <= |row.chars| && row.At(j) == b && row.chars[j - 1].bi < b
    ensures var k := Index(v, b);
      && k > 0 && v[k - 1] != '\n'
      && if IsMarker(v[k - 1]) then ' ' <= row.chars[j - 1].c <= '~' else row.chars[j - 1].c == v[k - 1]
  {
    var cell := row.chars[j - 1];
    assert Follows(v, cell.bi, row.At(j - 1 + 1)) && CellOk(v, cell);
    IndexOff(v, Index(v, cell.bi) + 1);
  }

  lemma JointAt(v: string, L: Layout, q: nat)
    requires L.Valid() && q + 1 < |Rows(v, L)|
    ensures JointOk(v, L, Rows(v, L)[q], Rows(v, L)[q + 1])
  {
    WrappedGood(v, L);
  }

  /** A cursor that opens its row opens its line. */
  lemma RowOpens(v: string, L: Layout, b: nat)
    requires L.Valid() && IsBoundary(v, b) && First(Rows(v, L)[CursorRowCol(L, Rows(v, L), b).0], b) == 0
    ensures Index(v, b) > 0 ==> v[Index(v, b) - 1] == '\n'
  {
    var rows := Rows(v, L);
    CursorFound(v, L, b);
    var r := RowOf(rows, b);
    if r == 0 {
      GridOpens(v, L);
      AtStart(v, b);
    } else {
      assert rows[r - 1].At(First(rows[r - 1], b)) < b;
      JointAt(v, L, r - 1);
      AfterNewline(v, L, rows[r - 1], rows[r], b);
    }
  }

  lemma AtStart(v: string, b: nat)
    requires IsBoundary(v, b)
    ensures b == 0 ==> Index(v, b) == 0
  {
    BoundaryIndex(v, b);
    OffMonotone(v, 0, Index(v, b));
    OffEnds(v);
  }

  lemma AfterNewline(v: string, L: Layout, above: Row, row: Row, b: nat)
    requires JointOk(v, L, above, row) && above.end < b == row.At(0)
    ensures Index(v, b) > 0 && v[Index(v, b) - 1] == '\n'
  {
    IndexOff(v, Index(v, above.end) + 1);
  }

  lemma LookupBack(L: Layout, row: Row, j: nat)
    requires j <= |row.chars|
    ensures FirstCol(L, row, L.Width(row.chars[..j])) <= j
    ensures FirstCol(L, row, L.Width(row.chars[..j])) == j <==> j == 0 || L.cw(row.chars[j - 1].c) > 0
  {
    var col := L.Width(row.chars[..j]);
    var f := FirstCol(L, row, col);
    if j > 0 {
      WidthNext(L, row.chars, j - 1);
      if f <= j - 1 {
        WidthMonotone(L, row.chars, f, j - 1);
      }
    }
  }

  /** Looking up the byte under the cursor's own cell gives the cursor back exactly unless
      the character before it stands on the same line and takes no column. */
  lemma HitTestInverseIff(v: string, L: Layout, b: nat)
    requires L.Valid() && IsBoundary(v, b)
    ensures var (row, col) := CursorRowCol(L, Rows(v, L), b);
      ByteAt(v, L, row, col) == Some(b) <==> !AfterInvisible(v, L, b)
  {
    var rows := Rows(v, L);
    CursorFound(v, L, b);
    WrappedGood(v, L);
    var row := rows[RowOf(rows, b)];
    var j := First(row, b);
    LookupBack(L, row, j);
    if j == 0 {
      RowOpens(v, L, b);
    } else {
      CellBefore(v, L, row, j, b);
      EarlierCell(L, row, j, b);
    }
  }

  /** A cell before the first one at b is not at b. */
  lemma EarlierCell(L: Layout, row: Row, j: nat, b: nat)
    requires 0 < j <= |row.chars| && j == First(row, b)
    ensures forall f :: 0 <= f < j ==> row.At(f) != b
  {}

  /** Such a text: behind an `a` and a combining accent, the lookup goes back to the accent. */
  lemma HitTestMisses(L: Layout)
    requires L.Valid() && L.cw('\U{0301}') == 0
    ensures var v := ['a', '\U{0301}'];
      && IsBoundary(v, 3)
      && var (row, col) := CursorRowCol(L, Rows(v, L), 3); ByteAt(v, L, row, col) != Some(3)
  {
    var v := ['a', '\U{0301}'];
    assert v[..2] == v && v[..2][..1] == ['a'] && ['a'][..0] == [];
    assert Off(v, 2) == 3;
    BoundaryAt(v, 2);
    HitTestInverseIff(v, L, 3);
  }

  /** With only visible characters, at every width and for every boundary, chips split
      over several rows included, hit-testing inverts the cursor lookup. */
  lemma HitTestInverse(v: string, L: Layout, b: nat)
    requires L.Valid() && IsBoundary(v, b) && Visible(v, L)
    ensures var (row, col) := CursorRowCol(L, Rows(v, L), b); ByteAt(v, L, row, col) == Some(b)
  {
    HitTestInverseIff(v, L, b);
  }

  // First and last row -------------------------------------------------------------------

  ghost predicate OnFirstRow(v: string, L: Layout, b: nat) {
    CursorRowCol(L, Rows(v, L), b).0 == 0
  }

  ghost predicate OnLastRow(v: string, L: Layout, b: nat) {
    CursorRowCol(L, Rows(v, L), b).0 == |Rows(v, L)| - 1
  }

  /** A cursor at the end of the text is on the last row. */
  lemma EndOnLastRow(v: string, L: Layout)
    requires L.Valid()
    ensures OnLastRow(v, L, Len(v))
  {
    var rows := Rows(v, L);
    OffEnds(v);
    assert IsBoundary(v, Len(v));
    CursorFound(v, L, Len(v));
    RowsAscending(v, L);
    var r := RowOf(rows, Len(v));
    if r < |rows| - 1 {
      assert RowOk(v, L, rows[r]) && JointOk(v, L, rows[r], rows[r + 1]);
      RowSorted(rows[r], First(rows[r], Len(v)), |rows[r].chars|);
      GridSorted(rows, r + 1, 0, |rows| - 1, |rows[|rows| - 1].chars|);
      IndexOff(v, |v|);
      assert false;
    }
  }
}
