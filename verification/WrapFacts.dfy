/** What the rows of a text are: every fact is kept by one step of the wrapping loop. */
module WrapFacts {
  import opened Utf8
  import opened Pastes
  import opened Wrap

  // Positions of a grid --------------------------------------------------------

  predicate MarkerAt(v: string, b: nat) {
    Index(v, b) < |v| && IsMarker(v[Index(v, b)])
  }

  /** The byte after the character at byte b. */
  function NextByte(v: string, b: nat): nat
    requires Index(v, b) < |v|
  {
    Off(v, Index(v, b) + 1)
  }

  /** From byte b the text goes on at byte e: with the next character, or with the next
      piece of the same label. */
  predicate Follows(v: string, b: nat, e: nat) {
    Index(v, b) < |v| && if e == b then MarkerAt(v, b) else e == NextByte(v, b)
  }

  lemma NextGrows(v: string, b: nat)
    requires Index(v, b) < |v|
    ensures b < NextByte(v, b)
  {
    IndexSpec(v, b);
  }

  lemma FollowsGrows(v: string, b: nat, e: nat)
    requires Follows(v, b, e)
    ensures b <= e && (b < e || MarkerAt(v, b))
  {
    NextGrows(v, b);
  }

  /** The cell shows the character of v at its byte: that very character, or a piece of
      its label. */
  predicate CellOk(v: string, cell: Cell) {
    var k := Index(v, cell.bi);
    && k < |v| && Off(v, k) == cell.bi && v[k] != '\n'
    && if IsMarker(v[k]) then ' ' <= cell.c <= '~' else cell.c == v[k]
  }

  /** The width that has to be free on a row for the character at byte b to start there. */
  function Need(v: string, L: Layout, b: nat): nat
    requires Index(v, b) < |v|
  {
    var c := v[Index(v, b)];
    if !IsMarker(c) then L.cw(c) else if L.Fits(c) then |L.Label(MarkerId(c))| else 1
  }

  /** A row's cells show the text in order and without a gap, and the row is no wider than
      the width unless it is one character. */
  ghost predicate RowOk(v: string, L: Layout, row: Row) {
    && IsBoundary(v, row.end)
    && (forall j :: 0 <= j < |row.chars| ==> CellOk(v, row.chars[j]))
    && (forall j :: 0 <= j < |row.chars| ==> Follows(v, row.chars[j].bi, row.At(j + 1)))
    && (L.Width(row.chars) <= L.width || |row.chars| == 1)
  }

  /** Row a wraps softly into row b: the break byte is the first one shown on b. */
  predicate Soft(a: Row, b: Row) {
    a.end == b.At(0)
  }

  /** Between two rows there is one newline, unless the wrap is soft; then both rows hold
      something and what opens the second did not fit on the first. */
  ghost predicate JointOk(v: string, L: Layout, a: Row, b: Row) {
    && Index(v, a.end) < |v|
    && if Soft(a, b) then
         a.chars != [] && b.chars != [] && L.Width(a.chars) + Need(v, L, a.end) > L.width
       else
         v[Index(v, a.end)] == '\n' && b.At(0) == NextByte(v, a.end)
  }

  lemma JointGrows(v: string, L: Layout, a: Row, b: Row)
    requires JointOk(v, L, a, b)
    ensures a.end <= b.At(0)
  {
    NextGrows(v, a.end);
  }

  ghost predicate Good(v: string, L: Layout, rows: seq<Row>) {
    && (forall r :: 0 <= r < |rows| ==> RowOk(v, L, rows[r]))
    && (forall r :: 0 <= r < |rows| - 1 ==> JointOk(v, L, rows[r], rows[r + 1]))
  }

  // One step keeps them ----------------------------------------------------------

  lemma IndexPrefix(v: string, c: char, b: nat)
    requires Index(v, b) < |v|
    ensures Index(v + [c], b) == Index(v, b) && Off(v + [c], Index(v, b)) == Off(v, Index(v, b))
    ensures NextByte(v + [c], b) == NextByte(v, b)
  {
    var k := Index(v, b);
    IndexSpec(v, b);
    assert (v + [c])[..k] == v[..k] && (v + [c])[..k + 1] == v[..k + 1];
    IndexUnique(v + [c], b, k);
  }

  lemma BoundaryPrefix(v: string, c: char, b: nat)
    requires IsBoundary(v, b)
    ensures IsBoundary(v + [c], b)
  {
    var k: nat :| k <= |v| && Off(v, k) == b;
    assert (v + [c])[..k] == v[..k];
    assert Off(v + [c], k) == b;
  }

  lemma FollowsPrefix(v: string, c: char, b: nat, e: nat)
    requires Follows(v, b, e)
    ensures Follows(v + [c], b, e)
  {
    IndexPrefix(v, c, b);
  }

  lemma CellPrefix(v: string, c: char, cell: Cell)
    requires CellOk(v, cell)
    ensures CellOk(v + [c], cell)
  {
    IndexPrefix(v, c, cell.bi);
  }

  lemma RowPrefix(v: string, c: char, L: Layout, row: Row)
    requires RowOk(v, L, row)
    ensures RowOk(v + [c], L, row)
  {
    BoundaryPrefix(v, c, row.end);
    forall j | 0 <= j < |row.chars|
      ensures CellOk(v + [c], row.chars[j]) && Follows(v + [c], row.chars[j].bi, row.At(j + 1))
    {
      CellPrefix(v, c, row.chars[j]);
      FollowsPrefix(v, c, row.chars[j].bi, row.At(j + 1));
    }
  }

  lemma JointPrefix(v: string, c: char, L: Layout, a: Row, b: Row)
    requires JointOk(v, L, a, b)
    ensures JointOk(v + [c], L, a, b)
  {
    IndexPrefix(v, c, a.end);
  }

  lemma GoodPrefix(v: string, c: char, L: Layout, rows: seq<Row>)
    requires Good(v, L, rows)
    ensures Good(v + [c], L, rows)
  {
    forall r | 0 <= r < |rows| ensures RowOk(v + [c], L, rows[r]) {
      RowPrefix(v, c, L, rows[r]);
    }
    forall r | 0 <= r < |rows| - 1 ensures JointOk(v + [c], L, rows[r], rows[r + 1]) {
      JointPrefix(v, c, L, rows[r], rows[r + 1]);
    }
  }

  /** Replacing the last row, or adding one, only asks for that row and its joint. */
  lemma GoodSnoc(v: string, L: Layout, rows: seq<Row>, row: Row)
    requires Good(v, L, rows) && RowOk(v, L, row)
    requires rows != [] ==> JointOk(v, L, rows[|rows| - 1], row)
    ensures Good(v, L, rows + [row])
  {}

  lemma GoodInit(v: string, L: Layout, st: State, bi: nat)
    requires Good(v, L, st.Close(bi))
    ensures Good(v, L, st.rows) && RowOk(v, L, Row(st.chars, bi))
    ensures st.rows != [] ==> JointOk(v, L, st.rows[|st.rows| - 1], Row(st.chars, bi))
  {
    var rows, n := st.Close(bi), |st.rows|;
    assert rows[n] == Row(st.chars, bi);
    assert forall r :: 0 <= r < n ==> rows[r] == st.rows[r];
  }

  /** A block at byte bi that the wrapping loop can put down. */
  ghost predicate Block(v: string, L: Layout, bi: nat, block: seq<Cell>, need: nat) {
    && block != [] && L.Width(block) == need
    && Index(v, bi) < |v| && need == Need(v, L, bi)
    && (need <= L.width || |block| == 1)
    && (|block| == 1 || MarkerAt(v, bi))
    && forall i :: 0 <= i < |block| ==> block[i].bi == bi && CellOk(v, block[i])
  }

  /** The rows after putting a block: one more row, or the last one extended. */
  lemma PutRows(st: State, bi: nat, block: seq<Cell>, need: nat, width: nat, e: nat)
    ensures st.Put(block, need, bi, width).Close(e)
         == if st.col + need > width && st.chars != [] then st.Close(bi) + [Row(block, e)]
            else st.rows + [Row(st.chars + block, e)]
  {}

  lemma PutGood(v: string, L: Layout, st: State, bi: nat, block: seq<Cell>, need: nat, e: nat)
    requires Good(v, L, st.Close(bi)) && st.col == L.Width(st.chars)
    requires Block(v, L, bi, block, need)
    requires IsBoundary(v, e) && Follows(v, bi, e)
    ensures Good(v, L, st.Put(block, need, bi, L.width).Close(e))
    ensures st.Put(block, need, bi, L.width).col == L.Width(st.Put(block, need, bi, L.width).chars)
  {
    PutRows(st, bi, block, need, L.width, e);
    L.WidthConcat(st.chars, block);
    if st.col + need > L.width && st.chars != [] {
      PutNew(v, L, st, bi, block, need, e);
    } else {
      PutSame(v, L, st, bi, block, need, e);
    }
  }

  lemma PutNew(v: string, L: Layout, st: State, bi: nat, block: seq<Cell>, need: nat, e: nat)
    requires Good(v, L, st.Close(bi)) && L.Width(st.chars) + need > L.width && st.chars != []
    requires Block(v, L, bi, block, need)
    requires IsBoundary(v, e) && Follows(v, bi, e)
    ensures Good(v, L, st.Close(bi) + [Row(block, e)])
  {
    GoodInit(v, L, st, bi);
    NewRow(v, L, st.chars, bi, block, need, e);
    GoodSnoc(v, L, st.Close(bi), Row(block, e));
  }

  lemma PutSame(v: string, L: Layout, st: State, bi: nat, block: seq<Cell>, need: nat, e: nat)
    requires Good(v, L, st.Close(bi))
    requires Block(v, L, bi, block, need)
    requires IsBoundary(v, e) && Follows(v, bi, e)
    requires L.Width(st.chars + block) <= L.width || st.chars == []
    ensures Good(v, L, st.rows + [Row(st.chars + block, e)])
  {
    GoodInit(v, L, st, bi);
    ExtendRow(v, L, st.chars, bi, block, need, e);
    if st.rows != [] {
      ExtendJoint(v, L, st.rows[|st.rows| - 1], st.chars, bi, block, need, e);
    }
    GoodSnoc(v, L, st.rows, Row(st.chars + block, e));
  }

  lemma NewRow(v: string, L: Layout, chars: seq<Cell>, bi: nat, block: seq<Cell>, need: nat, e: nat)
    requires RowOk(v, L, Row(chars, bi)) && Block(v, L, bi, block, need)
    requires IsBoundary(v, e) && Follows(v, bi, e)
    requires L.Width(chars) + need > L.width && chars != []
    ensures RowOk(v, L, Row(block, e)) && JointOk(v, L, Row(chars, bi), Row(block, e))
  {}

  lemma ExtendJoint(v: string, L: Layout, a: Row, chars: seq<Cell>, bi: nat, block: seq<Cell>, need: nat, e: nat)
    requires JointOk(v, L, a, Row(chars, bi)) && Block(v, L, bi, block, need)
    ensures JointOk(v, L, a, Row(chars + block, e))
  {
    if chars == [] {
      NextGrows(v, a.end);
      assert chars + block == block;
    } else {
      assert (chars + block)[0] == chars[0];
    }
  }

  lemma ExtendRow(v: string, L: Layout, chars: seq<Cell>, bi: nat, block: seq<Cell>, need: nat, e: nat)
    requires RowOk(v, L, Row(chars, bi)) && Block(v, L, bi, block, need)
    requires IsBoundary(v, e) && Follows(v, bi, e)
    requires L.Width(chars + block) <= L.width || chars == []
    ensures RowOk(v, L, Row(chars + block, e))
  {
    assert chars == [] ==> chars + block == block;
    var old', row := Row(chars, bi), Row(chars + block, e);
    forall j | 0 <= j < |row.chars|
      ensures CellOk(v, row.chars[j])
      ensures Follows(v, row.chars[j].bi, row.At(j + 1))
    {
      if j < |chars| {
        assert row.chars[j] == old'.chars[j] && row.At(j + 1) == old'.At(j + 1);
      } else {
        assert row.chars[j] == block[j - |chars|];
      }
    }
  }

  lemma BreakGood(v: string, L: Layout, st: State, bi: nat, e: nat)
    requires Good(v, L, st.Close(bi)) && IsBoundary(v, e)
    requires Index(v, bi) < |v| && v[Index(v, bi)] == '\n' && e == NextByte(v, bi)
    ensures Good(v, L, st.Break(bi).Close(e))
  {
    GoodInit(v, L, st, bi);
    NextGrows(v, bi);
    GoodSnoc(v, L, st.Close(bi), Row([], e));
  }

  /** After the last piece of a label the row may end at the next character. */
  lemma RaiseGood(v: string, L: Layout, st: State, bi: nat, e: nat)
    requires Good(v, L, st.Close(bi)) && Follows(v, bi, e) && IsBoundary(v, e)
    requires st.chars != [] && st.chars[|st.chars| - 1].bi == bi
    ensures Good(v, L, st.Close(e))
  {
    GoodInit(v, L, st, bi);
    RaiseRow(v, L, st.chars, bi, e);
    if st.rows != [] {
      RaiseJoint(v, L, st.rows[|st.rows| - 1], st.chars, bi, e);
    }
    GoodSnoc(v, L, st.rows, Row(st.chars, e));
  }

  lemma RaiseJoint(v: string, L: Layout, a: Row, chars: seq<Cell>, bi: nat, e: nat)
    requires JointOk(v, L, a, Row(chars, bi)) && chars != []
    ensures JointOk(v, L, a, Row(chars, e))
  {}

  lemma RaiseRow(v: string, L: Layout, chars: seq<Cell>, bi: nat, e: nat)
    requires RowOk(v, L, Row(chars, bi)) && Follows(v, bi, e) && IsBoundary(v, e)
    requires chars != [] && chars[|chars| - 1].bi == bi
    ensures RowOk(v, L, Row(chars, e))
  {
    var old', row := Row(chars, bi), Row(chars, e);
    forall j | 0 <= j < |chars| ensures Follows(v, chars[j].bi, row.At(j + 1)) {
      assert Follows(v, old'.chars[j].bi, old'.At(j + 1));
    }
  }

  lemma {:induction false} PutEachGood(v: string, L: Layout, st: State, bi: nat, tag: string)
    requires L.Valid()
    requires Good(v, L, st.Close(bi)) && st.col == L.Width(st.chars)
    requires MarkerAt(v, bi) && Off(v, Index(v, bi)) == bi && !L.Fits(v[Index(v, bi)])
    requires forall i :: 0 <= i < |tag| ==> ' ' <= tag[i] <= '~'
    ensures Good(v, L, st.PutEach(tag, bi, L).Close(bi))
    ensures st.PutEach(tag, bi, L).col == L.Width(st.PutEach(tag, bi, L).chars)
  {
    if tag != [] {
      var m := |tag| - 1;
      PutEachGood(v, L, st, bi, tag[..m]);
      var block := [Cell(tag[m], bi)];
      assert block[..0] == [];
      assert L.Width(block) == 1;
      PutGood(v, L, st.PutEach(tag[..m], bi, L), bi, block, 1, bi);
    }
  }

  lemma FeedGood(v: string, c: char, L: Layout, st: State)
    requires L.Valid()
    requires Good(v, L, st.Close(Len(v))) && st.col == L.Width(st.chars)
    ensures Good(v + [c], L, st.Feed(c, Len(v), L).Close(Len(v + [c])))
    ensures st.Feed(c, Len(v), L).col == L.Width(st.Feed(c, Len(v), L).chars)
  {
    var u, bi, e := v + [c], Len(v), Len(v + [c]);
    GoodPrefix(v, c, L, st.Close(bi));
    assert u[..|v|] == v && u[..|u|] == u;
    assert Off(u, |v|) == bi && Off(u, |u|) == e;
    IndexOff(u, |v|);
    if c == '\n' {
      BreakGood(u, L, st, bi, e);
    } else if IsMarker(c) {
      var tag := L.Label(MarkerId(c));
      if L.Fits(c) {
        L.WidthPrinted(LabelCells(tag, bi));
        PutGood(u, L, st, bi, LabelCells(tag, bi), |tag|, e);
      } else {
        PutEachGood(u, L, st, bi, tag);
        RaiseGood(u, L, st.PutEach(tag, bi, L), bi, e);
      }
    } else {
      var block := [Cell(c, bi)];
      assert block[..0] == [];
      assert L.Width(block) == L.cw(c);
      PutGood(u, L, st, bi, block, L.cw(c), e);
    }
  }

  lemma {:induction false} WrappedGood(v: string, L: Layout)
    requires L.Valid()
    ensures Good(v, L, Rows(v, L))
    ensures Wrapped(v, L).col == L.Width(Wrapped(v, L).chars)
  {
    if v == [] {
      assert Off(v, 0) == 0;
      assert IsBoundary(v, 0);
    } else {
      var m := |v| - 1;
      WrappedGood(v[..m], L);
      assert v == v[..m] + [v[m]];
      FeedGood(v[..m], v[m], L, Wrapped(v[..m], L));
    }
  }
}
