/** How often the rows show a character: once, or once for every piece of a label. */
module WrapCount {
  import opened Utf8
  import opened Pastes
  import opened Wrap
  import opened WrapContent
  import Seqs

  /** The number of cells at byte b. */
  function CountAt(cells: seq<Cell>, b: nat): nat {
    if cells == [] then 0
    else CountAt(cells[..|cells| - 1], b) + (if cells[|cells| - 1].bi == b then 1 else 0)
  }

  lemma {:induction false} CountConcat(x: seq<Cell>, y: seq<Cell>, b: nat)
    ensures CountAt(x + y, b) == CountAt(x, b) + CountAt(y, b)
  {
    if y == [] {
      assert x + y == x;
    } else {
      CountConcat(x, y[..|y| - 1], b);
      Seqs.ConcatInit(x, y);
    }
  }

  lemma {:induction false} CountNone(cells: seq<Cell>, b: nat)
    requires forall i :: 0 <= i < |cells| ==> cells[i].bi != b
    ensures CountAt(cells, b) == 0
  {
    if cells != [] {
      CountNone(cells[..|cells| - 1], b);
    }
  }

  lemma {:induction false} CountAll(cells: seq<Cell>, b: nat)
    requires forall i :: 0 <= i < |cells| ==> cells[i].bi == b
    ensures CountAt(cells, b) == |cells|
  {
    if cells != [] {
      CountAll(cells[..|cells| - 1], b);
    }
  }

  /** Cells of which exactly those from i to j are at byte b. */
  lemma CountRun(cells: seq<Cell>, b: nat, i: nat, j: nat)
    requires i <= j <= |cells|
    requires forall k :: 0 <= k < |cells| ==> (cells[k].bi == b <==> i <= k < j)
    ensures CountAt(cells, b) == j - i
  {
    CountNone(cells[..i], b);
    CountAll(cells[i..j], b);
    CountNone(cells[j..], b);
    CountConcat(cells[..i], cells[i..j], b);
    CountConcat(cells[..i] + cells[i..j], cells[j..], b);
    assert cells == cells[..i] + cells[i..j] + cells[j..];
  }

  lemma CountSome(cells: seq<Cell>, b: nat, i: nat, j: nat)
    requires i <= j <= |cells| && forall k :: i <= k < j ==> cells[k].bi == b
    ensures CountAt(cells, b) >= j - i
  {
    CountAll(cells[i..j], b);
    CountConcat(cells[..i], cells[i..j], b);
    CountConcat(cells[..i] + cells[i..j], cells[j..], b);
    assert cells == cells[..i] + cells[i..j] + cells[j..];
  }

  // The whole text -----------------------------------------------------------------

  lemma {:induction false} ShownBefore(v: string, L: Layout)
    ensures forall i :: 0 <= i < |Shown(v, L)| ==> Shown(v, L)[i].bi < Len(v)
  {
    if v != [] {
      ShownBefore(v[..|v| - 1], L);
    }
  }

  /** What the rows show of one character, all in all. */
  lemma {:induction false} ShownCount(v: string, L: Layout, k: nat)
    requires k < |v|
    ensures CountAt(Shown(v, L), Off(v, k)) == |L.Cells(v[k], Off(v, k))|
  {
    var m := |v| - 1;
    var front, last := v[..m], L.Cells(v[m], Len(v[..m]));
    CountConcat(Shown(front, L), last, Off(v, k));
    if k < m {
      ShownCount(front, L, k);
      assert front[..k] == v[..k];
      OffMonotone(v, k, m);
      CountNone(last, Off(v, k));
    } else {
      ShownBefore(front, L);
      CountNone(Shown(front, L), Off(v, k));
      CountAll(last, Off(v, k));
    }
  }

  lemma RowsCount(v: string, L: Layout, k: nat)
    requires k < |v|
    ensures CountAt(Flat(Rows(v, L)), Off(v, k)) == |L.Cells(v[k], Off(v, k))|
  {
    RowsShowText(v, L);
    ShownCount(v, L, k);
  }

  // Row by row -----------------------------------------------------------------------

  lemma FlatLast(rows: seq<Row>, b: nat)
    requires rows != []
    ensures CountAt(Flat(rows), b) == CountAt(Flat(rows[..|rows| - 1]), b) + CountAt(rows[|rows| - 1].chars, b)
  {
    CountConcat(Flat(rows[..|rows| - 1]), rows[|rows| - 1].chars, b);
  }

  lemma {:induction false} FlatNone(rows: seq<Row>, b: nat)
    requires forall i :: 0 <= i < |rows| ==> CountAt(rows[i].chars, b) == 0
    ensures CountAt(Flat(rows), b) == 0
  {
    if rows != [] {
      FlatLast(rows, b);
      FlatNone(rows[..|rows| - 1], b);
    }
  }

  /** With nothing at byte b on any other row, the two rows show all of it. */
  lemma {:induction false} TwoRows(rows: seq<Row>, b: nat, r: nat)
    requires r + 1 < |rows|
    requires forall i :: 0 <= i < |rows| && i != r && i != r + 1 ==> CountAt(rows[i].chars, b) == 0
    ensures CountAt(Flat(rows), b) == CountAt(rows[r].chars, b) + CountAt(rows[r + 1].chars, b)
  {
    var m := |rows| - 1;
    FlatLast(rows, b);
    if m > r + 1 {
      TwoRows(rows[..m], b, r);
    } else {
      FlatLast(rows[..m], b);
      assert rows[..m][..r] == rows[..r];
      FlatNone(rows[..r], b);
    }
  }

  lemma {:induction false} OneRowAtMost(rows: seq<Row>, b: nat, x: nat)
    requires x < |rows|
    ensures CountAt(rows[x].chars, b) <= CountAt(Flat(rows), b)
  {
    FlatLast(rows, b);
    if x < |rows| - 1 {
      OneRowAtMost(rows[..|rows| - 1], b, x);
    }
  }

  /** Any two rows together show no more of it than there is. */
  lemma {:induction false} TwoRowsAtMost(rows: seq<Row>, b: nat, x: nat, y: nat)
    requires x < y < |rows|
    ensures CountAt(rows[x].chars, b) + CountAt(rows[y].chars, b) <= CountAt(Flat(rows), b)
  {
    FlatLast(rows, b);
    if y < |rows| - 1 {
      TwoRowsAtMost(rows[..|rows| - 1], b, x, y);
    } else {
      OneRowAtMost(rows[..|rows| - 1], b, x);
    }
  }
}
