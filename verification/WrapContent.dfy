/** What the rows show: the whole text in order, every boundary, and chips in one piece. */
module WrapContent {
  import opened Utf8
  import opened Pastes
  import opened Wrap
  import opened WrapFacts

  /** The rows laid end to end. */
  function Flat(rows: seq<Row>): seq<Cell> {
    if rows == [] then [] else Flat(rows[..|rows| - 1]) + rows[|rows| - 1].chars
  }

  /** The text with each paste replaced by its label and newlines left out, every
      character with the byte it comes from. */
  function Shown(v: string, L: Layout): seq<Cell> {
    if v == [] then []
    else Shown(v[..|v| - 1], L) + L.Cells(v[|v| - 1], Len(v[..|v| - 1]))
  }

  lemma FlatSnoc(rows: seq<Row>, row: Row)
    ensures Flat(rows + [row]) == Flat(rows) + row.chars
  {
    assert (rows + [row])[..|rows|] == rows;
  }

  lemma FlatPut(st: State, block: seq<Cell>, need: nat, bi: nat, width: nat, e: nat, e': nat)
    ensures Flat(st.Put(block, need, bi, width).Close(e')) == Flat(st.Close(e)) + block
  {
    FlatSnoc(st.rows, Row(st.chars, e));
    FlatSnoc(st.rows, Row(st.chars, bi));
    FlatSnoc(st.Close(bi), Row(block, e'));
    FlatSnoc(st.rows, Row(st.chars + block, e'));
  }

  lemma {:induction false} FlatPutEach(st: State, tag: string, bi: nat, L: Layout, e: nat, e': nat)
    ensures Flat(st.PutEach(tag, bi, L).Close(e')) == Flat(st.Close(e)) + LabelCells(tag, bi)
  {
    if tag == [] {
      FlatSnoc(st.rows, Row(st.chars, e));
      FlatSnoc(st.rows, Row(st.chars, e'));
    } else {
      var m := |tag| - 1;
      FlatPutEach(st, tag[..m], bi, L, e, e');
      FlatPut(st.PutEach(tag[..m], bi, L), [Cell(tag[m], bi)], L.cw(tag[m]), bi, L.width, e', e');
      assert LabelCells(tag[..m], bi) + [Cell(tag[m], bi)] == LabelCells(tag, bi);
    }
  }

  /** The rows show the text, nothing lost and nothing moved. */
  lemma {:induction false} RowsShowText(v: string, L: Layout)
    ensures Flat(Rows(v, L)) == Shown(v, L)
    ensures Rows(v, L)[|Rows(v, L)| - 1].end == Len(v)
  {
    if v != [] {
      var m := |v| - 1;
      var st, bi, c := Wrapped(v[..m], L), Len(v[..m]), v[m];
      RowsShowText(v[..m], L);
      if c == '\n' {
        FlatSnoc(st.Close(bi), Row([], Len(v)));
      } else if IsMarker(c) {
        var tag := L.Label(MarkerId(c));
        if L.Fits(c) {
          FlatPut(st, LabelCells(tag, bi), |tag|, bi, L.width, bi, Len(v));
        } else {
          FlatPutEach(st, tag, bi, L, bi, Len(v));
        }
      } else {
        FlatPut(st, [Cell(c, bi)], L.cw(c), bi, L.width, bi, Len(v));
      }
    }
  }

  // Rows only ever grow ------------------------------------------------------------

  /** Later rows keep everything earlier ones settled: the last row may still grow. */
  ghost predicate Extends(a: seq<Row>, b: seq<Row>) {
    && |a| <= |b|
    && (forall r :: 0 <= r < |a| - 1 ==> a[r] == b[r])
    && (forall r :: 0 <= r < |a| ==> a[r].chars <= b[r].chars)
  }

  lemma PutExtends(st: State, block: seq<Cell>, need: nat, bi: nat, width: nat, e: nat, e': nat)
    ensures Extends(st.Close(e), st.Put(block, need, bi, width).Close(e'))
  {}

  lemma {:induction false} PutEachExtends(st: State, tag: string, bi: nat, L: Layout, e: nat, e': nat)
    ensures Extends(st.Close(e), st.PutEach(tag, bi, L).Close(e'))
  {
    if tag != [] {
      var m := |tag| - 1;
      PutEachExtends(st, tag[..m], bi, L, e, e');
      PutExtends(st.PutEach(tag[..m], bi, L), [Cell(tag[m], bi)], L.cw(tag[m]), bi, L.width, e', e');
    }
  }

  lemma FeedExtends(st: State, c: char, bi: nat, L: Layout, e: nat, e': nat)
    ensures Extends(st.Close(e), st.Feed(c, bi, L).Close(e'))
  {
    if IsMarker(c) && !L.Fits(c) {
      PutEachExtends(st, L.Label(MarkerId(c)), bi, L, e, e');
    }
  }

  // Every boundary is somewhere ------------------------------------------------------

  ghost predicate On(rows: seq<Row>, r: nat, j: nat, b: nat) {
    r < |rows| && j <= |rows[r].chars| && rows[r].At(j) == b
  }

  ghost predicate Shows(rows: seq<Row>, b: nat) {
    exists r: nat, j: nat :: On(rows, r, j, b)
  }

  /** Feeding a character at byte bi shows bi. */
  lemma FeedShows(st: State, c: char, bi: nat, L: Layout, e: nat)
    ensures Shows(st.Feed(c, bi, L).Close(e), bi)
  {
    var rows, n := st.Feed(c, bi, L).Close(e), |st.rows|;
    if c == '\n' {
      assert On(rows, n, |st.chars|, bi);
    } else if IsMarker(c) && !L.Fits(c) {
      var tag := L.Label(MarkerId(c));
      var m := |tag| - 1;
      var st' := st.PutEach(tag[..m], bi, L);
      var last := |rows| - 1;
      assert On(rows, last, |rows[last].chars| - 1, bi);
    } else {
      var last := |rows| - 1;
      assert rows[last].chars[|rows[last].chars| - 1].bi == bi;
      assert On(rows, last, |rows[last].chars| - 1, bi);
    }
  }

  lemma ShowsExtends(a: seq<Row>, b: seq<Row>, e: nat)
    requires Extends(a, b) && Shows(a, e)
    requires a != [] && a[|a| - 1].end == e ==> Shows(b, e)
    ensures Shows(b, e)
  {
    var r: nat, j: nat :| On(a, r, j, e);
    if j < |a[r].chars| {
      assert a[r].chars[j] == b[r].chars[j];
      assert On(b, r, j, e);
    } else if r < |a| - 1 {
      assert On(b, r, j, e);
    }
  }

  lemma {:induction false} EveryBoundaryShown(v: string, L: Layout, k: nat)
    requires k <= |v|
    ensures Shows(Rows(v, L), Off(v, k))
  {
    var rows := Rows(v, L);
    if k == |v| {
      OffEnds(v);
      assert On(rows, |rows| - 1, |rows[|rows| - 1].chars|, Len(v));
    } else {
      var m := |v| - 1;
      var st, bi := Wrapped(v[..m], L), Len(v[..m]);
      EveryBoundaryShown(v[..m], L, k);
      assert v[..m][..k] == v[..k];
      FeedExtends(st, v[m], bi, L, bi, Len(v));
      FeedShows(st, v[m], bi, L, Len(v));
      ShowsExtends(st.Close(bi), rows, Off(v, k));
    }
  }

  // Chips in one piece -----------------------------------------------------------------

  /** The cells stand next to each other on row r, from its p-th cell on. */
  ghost predicate Stands(rows: seq<Row>, r: nat, p: nat, cells: seq<Cell>) {
    r < |rows| && p + |cells| <= |rows[r].chars| && rows[r].chars[p..p + |cells|] == cells
  }

  /** A chip that fits an empty row is never split over two. */
  lemma {:induction false} ChipStaysWhole(v: string, L: Layout, k: nat) returns (r: nat, p: nat)
    requires k < |v| && IsMarker(v[k]) && L.Fits(v[k])
    ensures Stands(Rows(v, L), r, p, L.Cells(v[k], Off(v, k)))
  {
    var m := |v| - 1;
    var st, bi, rows := Wrapped(v[..m], L), Len(v[..m]), Rows(v, L);
    if k < m {
      r, p := ChipStaysWhole(v[..m], L, k);
      assert v[..m][..k] == v[..k];
      FeedExtends(st, v[m], bi, L, bi, Len(v));
      assert st.Close(bi)[r].chars <= rows[r].chars;
    } else {
      var block := L.Cells(v[k], bi);
      r := |rows| - 1;
      p := |rows[r].chars| - |block|;
      assert rows[r].chars[p..] == block;
    }
  }
}
