/** The composer: the text buffer, its mouse area and the recalled drafts. */
module TextArea {
  import opened Utf8
  import opened Pastes
  import opened Wrap
  import opened Editor
  import opened InputBuffer
  import opened Recall
  import opened Whitespace
  import HitTest

  datatype Rect = Rect(x: nat, y: nat, width: nat, height: nat)

  datatype Message =
    | Input(c: char)
    | Paste(text: string)
    | Newline
    | Backspace
    | Delete
    | KillToEnd
    | KillToLineStart
    | Left
    | Right
    | LeftWord
    | RightWord
    | Home
    | End
    | CursorUp
    | CursorDown
    | SelectLeft
    | SelectRight
    | SelectUp
    | SelectDown
    | SelectHome
    | SelectEnd
    | MouseDown(column: nat, row: nat)
    | MouseDrag(column: nat, row: nat)
    | MouseUp
    | Submit
    | Clear
  {
    predicate IsEdit() {
      Input? || Paste? || Newline? || Backspace? || Delete? || KillToEnd? || KillToLineStart?
    }

    predicate IsMotion() {
      Left? || Right? || LeftWord? || RightWord? || Home? || End?
    }

    predicate IsSelect() {
      SelectLeft? || SelectRight? || SelectUp? || SelectDown? || SelectHome? || SelectEnd?
    }

    predicate MovesCursor() {
      IsMotion() || IsSelect() || MouseDown? || MouseDrag?
    }

    predicate ChangesDraft() {
      CursorUp? || CursorDown? || Submit? || Clear?
    }

    /** No text brought in holds a private-use marker character. */
    predicate Plain() {
      (Input? ==> !IsMarker(c)) && (Paste? ==> Clean(text))
    }

    /** What the message does to the plain editor with the given selection, `used` slots
        being taken; vertical motion, mouse and recall are specified apart. */
    function Apply(d: Doc, sel: Selection, used: nat): Doc
      requires d.Valid() && d.Covers(sel)
    {
      match this
      case Input(c) => d.Insert(sel, [Char(c)])
      case Paste(text) => d.Insert(sel, PasteAtoms(text, used))
      case Newline => d.Insert(sel, [NEWLINE])
      case Backspace => d.Backspace(sel)
      case Delete => d.Delete(sel)
      case KillToEnd => d.KillToEnd(sel)
      case KillToLineStart => d.KillToLineStart(sel)
      case Left => d.Left()
      case Right => d.Right()
      case LeftWord => d.LeftWord()
      case RightWord => d.RightWord()
      case Home => d.Home()
      case End => d.End()
      case SelectLeft => d.Left()
      case SelectRight => d.Right()
      case SelectHome => d.Home()
      case SelectEnd => d.End()
      case _ => d
    }
  }

  /** A recall stack: tidy, and free of marker characters. */
  ghost predicate StackOk(stack: seq<string>) {
    Tidy(stack) && forall i :: 0 <= i < |stack| ==> Clean(stack[i])
  }

  lemma PushOk(stack: seq<string>, text: string)
    requires StackOk(stack) && Clean(text)
    ensures StackOk(Push(stack, text))
  {
    PushTidy(stack, text);
  }

  lemma PopOk(stack: seq<string>)
    requires StackOk(stack) && stack != []
    ensures StackOk(Pop(stack)) && Clean(Top(stack)) && Top(stack) != []
  {}

  class TextArea {
    const buffer: InputBuffer
    var width: nat
    var viewArea: Rect
    var upStack: seq<string>
    var downStack: seq<string>

    /** Cursor, slots and stacks are in order; the anchor may be anywhere. */
    ghost predicate Sound()
      reads this, buffer
    {
      && buffer.Sound() && buffer.Printable()
      && StackOk(upStack) && StackOk(downStack)
    }

    /** And so is the anchor. */
    ghost predicate Valid()
      reads this, buffer
    {
      Sound() && !buffer.Stranded()
    }

    /** The older drafts, the expanded current one, the newer ones. */
    ghost function Drafts(): Drafts
      reads this, buffer
    {
      Recall.Drafts(upStack, Expand(buffer.Model().atoms), downStack)
    }

    function BufferWidth(): nat
      reads this`width
    {
      if width >= 1 then width else 1
    }

    constructor (cw: char -> nat)
      requires forall c :: ' ' <= c <= '~' ==> cw(c) == 1
      ensures Valid() && fresh(buffer) && Drafts() == Recall.Drafts([], [], [])
      ensures buffer.value == [] && buffer.pastes == [] && buffer.cursor == 0 && buffer.cw == cw && width == 0
    {
      buffer := new InputBuffer(cw);
      width, viewArea := 0, Rect(0, 0, 0, 0);
      upStack, downStack := [], [];
    }

    // Edits, motions, selections -----------------------------------------------------------

    /** The edit strands a collapsed anchor (see InputBuffer.Strands). */
    ghost predicate Stranding(msg: Message)
      requires buffer.Valid()
      reads this, buffer
    {
      var d := buffer.Model();
      || (msg.Backspace? && d.pos > 0 && buffer.Strands(d.pos - 1))
      || (msg.KillToLineStart? && buffer.Strands(LineStart(d.atoms, d.pos)))
    }

    /** What an edit does: the plain editor's edit, with the selection replaced. */
    twostate predicate Edited(msg: Message)
      requires old(buffer.Valid())
      reads this, buffer
    {
      && buffer.Model() == msg.Apply(old(buffer.Model()), old(buffer.Sel()), old(|buffer.pastes|))
      && buffer.anchor == (if old(buffer.Collapsed()) then old(buffer.anchor) else None)
      && (buffer.Stranded() <==> old(Stranding(msg)))
    }

    method Edit(msg: Message)
      requires Valid() && msg.IsEdit() && msg.Plain()
      modifies buffer
      ensures Sound() && Edited(msg)
    {
      match msg {
        case Input(c) => buffer.InsertChar(c);
        case Paste(text) => buffer.Paste(text);
        case Newline => buffer.InsertChar('\n');
        case Backspace => buffer.Backspace();
        case Delete => buffer.Delete();
        case KillToEnd => buffer.KillToEnd();
        case KillToLineStart => buffer.KillToLineStart();
      }
    }

    twostate predicate SameText()
      reads this, buffer
    {
      buffer.value == old(buffer.value) && buffer.pastes == old(buffer.pastes)
    }

    twostate predicate Moved(msg: Message)
      reads this, buffer
    {
      && SameText() && buffer.anchor == None
      && buffer.Model() == msg.Apply(old(buffer.Model()), None, old(|buffer.pastes|))
    }

    method Move(msg: Message)
      requires Sound() && msg.IsMotion()
      modifies buffer
      ensures Valid() && Moved(msg)
    {
      match msg {
        case Left => buffer.Left();
        case Right => buffer.Right();
        case LeftWord => buffer.LeftWord();
        case RightWord => buffer.RightWord();
        case Home => buffer.Home();
        case End => buffer.End();
      }
      buffer.anchor := None;
    }

    /** A selecting motion keeps the anchor it finds, or sets it where the cursor was. */
    twostate predicate Anchored()
      reads this, buffer
    {
      && buffer.anchor == (if old(buffer.anchor).None? then Some(old(buffer.cursor)) else old(buffer.anchor))
      && buffer.Stranded() == old(buffer.Stranded())
    }

    twostate predicate Selected(msg: Message)
      reads this, buffer
    {
      && SameText() && Anchored()
      && var L := buffer.Page(BufferWidth());
         if msg.SelectUp? then buffer.cursor == HitTest.Up(buffer.value, L, old(buffer.cursor))
         else if msg.SelectDown? then buffer.cursor == HitTest.Down(buffer.value, L, old(buffer.cursor))
         else buffer.Model() == msg.Apply(old(buffer.Model()), None, old(|buffer.pastes|))
    }

    method Select(msg: Message)
      requires Sound() && msg.IsSelect()
      modifies buffer
      ensures Sound() && Selected(msg)
    {
      buffer.AnchorHere();
      match msg {
        case SelectLeft => buffer.Left();
        case SelectRight => buffer.Right();
        case SelectUp => buffer.Up(BufferWidth());
        case SelectDown => buffer.Down(BufferWidth());
        case SelectHome => buffer.Home();
        case SelectEnd => buffer.End();
      }
    }

    // Mouse --------------------------------------------------------------------------------

    /** The content box inside the padding of two columns and one row. */
    function Inner(): Rect
      reads this`viewArea
    {
      Rect(viewArea.x + 2, viewArea.y + 1, Minus(viewArea.width, 4), Minus(viewArea.height, 2))
    }

    /** The byte under a terminal cell. */
    ghost function Hit(column: nat, row: nat): Option<nat>
      reads this, buffer
    {
      var inner := Inner();
      if inner.x <= column < inner.x + inner.width && inner.y <= row < inner.y + inner.height then
        HitTest.ByteAt(buffer.value, buffer.Page(inner.width), row - inner.y + buffer.scrollOffset, column - inner.x)
      else None
    }

    /** A cell on the padding or outside the area hits nothing, and neither does one below the
        text; any other one hits. */
    lemma HitIff(column: nat, row: nat)
      ensures Hit(column, row).Some? <==>
        && viewArea.x + 2 <= column && column + 2 < viewArea.x + viewArea.width
        && viewArea.y + 1 <= row && row + 1 < viewArea.y + viewArea.height
        && row + buffer.scrollOffset <= viewArea.y + |Rows(buffer.value, buffer.Page(viewArea.width - 4))|
    {}

    /** Pressing on the cell that shows a place in the text hits that place: two columns in and one
        row down from the corner of the area, past the rows scrolled out. */
    lemma HitShown(b: nat, column: nat, row: nat)
      requires Sound() && IsBoundary(buffer.value, b) && viewArea.width > 4
      requires HitTest.Visible(buffer.value, buffer.Page(viewArea.width - 4))
      requires var L := buffer.Page(viewArea.width - 4);
        var (r, col) := HitTest.CursorRowCol(L, Rows(buffer.value, L), b);
        && col < viewArea.width - 4 && buffer.scrollOffset <= r < buffer.scrollOffset + viewArea.height - 2
        && column == viewArea.x + 2 + col && row == viewArea.y + 1 + (r - buffer.scrollOffset)
      ensures Hit(column, row) == Some(b)
    {
      HitTest.HitTestInverse(buffer.value, buffer.Page(viewArea.width - 4), b);
    }

    method HitByte(column: nat, row: nat) returns (byte: Option<nat>)
      requires Sound()
      ensures byte == Hit(column, row)
      ensures byte.Some? ==> IsBoundary(buffer.value, byte.value)
    {
      if viewArea.width == 0 || viewArea.height == 0 {
        return None;
      }
      var inner := Inner();
      if !(inner.x <= column < inner.x + inner.width && inner.y <= row < inner.y + inner.height) {
        return None;
      }
      var visual := row - inner.y + buffer.scrollOffset;
      byte := buffer.ByteAt(inner.width, visual, column - inner.x);
    }

    /** A press places the cursor, a drag selects up to the byte, a miss does nothing. */
    twostate predicate Pointed(msg: Message)
      requires msg.MouseDown? || msg.MouseDrag?
      reads this, buffer
    {
      var hit := old(Hit(msg.column, msg.row));
      && SameText()
      && if hit.None? then buffer.cursor == old(buffer.cursor) && buffer.anchor == old(buffer.anchor)
         else buffer.cursor == hit.value && if msg.MouseDown? then buffer.anchor == None else Anchored()
    }

    method Mouse(msg: Message)
      requires Sound() && (msg.MouseDown? || msg.MouseDrag?)
      modifies buffer
      ensures Sound() && Pointed(msg)
    {
      var byte := HitByte(msg.column, msg.row);
      if byte.Some? {
        BoundaryIndex(buffer.value, byte.value);
        if msg.MouseDown? {
          buffer.PlaceCursor(byte.value);
        } else {
          buffer.SelectTo(byte.value);
        }
      }
    }

    // Recall -------------------------------------------------------------------------------

    ghost predicate OnFirstRow()
      reads this, buffer
    {
      HitTest.OnFirstRow(buffer.value, buffer.Page(BufferWidth()), buffer.cursor)
    }

    ghost predicate OnLastRow()
      reads this, buffer
    {
      HitTest.OnLastRow(buffer.value, buffer.Page(BufferWidth()), buffer.cursor)
    }

    /** Put a recalled draft into the buffer: the cursor ends up on the last row. */
    method Show(draft: string)
      requires buffer.Printable() && Clean(draft)
      modifies buffer
      ensures buffer.Valid() && buffer.value == draft && buffer.anchor == None && buffer.pastes == []
      ensures buffer.cursor == Len(draft)
      ensures Expand(buffer.Model().atoms) == draft && OnLastRow()
    {
      buffer.Set(draft);
      ExpandChars(draft);
      HitTest.EndOnLastRow(draft, buffer.Page(BufferWidth()));
    }

    method Current() returns (draft: string)
      requires buffer.Sound()
      ensures draft == Expand(buffer.Model().atoms) && Clean(draft)
    {
      draft := buffer.Expanded();
      TableClean(buffer.value, buffer.pastes);
    }

    method RecallUp() returns (did: bool)
      requires Sound()
      modifies this`upStack, this`downStack, buffer
      ensures Sound()
      ensures did <==> old(upStack != [] && OnFirstRow())
      ensures did ==> Drafts() == old(Drafts()).RecallUp() && OnLastRow() && buffer.anchor == None
      ensures did ==>
        && buffer.value == old(upStack[|upStack| - 1]) && buffer.pastes == []
        && buffer.cursor == Len(buffer.value)
      ensures !did ==> Drafts() == old(Drafts()) && unchanged(buffer)
    {
      var first := buffer.CursorOnFirstRow(BufferWidth());
      if upStack == [] || !first {
        return false;
      }
      var next := upStack[|upStack| - 1];
      PopOk(upStack);
      var current := Current();
      PushOk(downStack, current);
      upStack := upStack[..|upStack| - 1];
      downStack := Push(downStack, current);
      Show(next);
      return true;
    }

    method RecallDown() returns (did: bool)
      requires Sound()
      modifies this`upStack, this`downStack, buffer
      ensures Sound()
      ensures did <==> old(downStack != [] && OnLastRow())
      ensures did ==> Drafts() == old(Drafts()).RecallDown() && OnLastRow() && buffer.anchor == None
      ensures did ==>
        && buffer.value == old(downStack[|downStack| - 1]) && buffer.pastes == []
        && buffer.cursor == Len(buffer.value)
      ensures !did ==> Drafts() == old(Drafts()) && unchanged(buffer)
    {
      var last := buffer.CursorOnLastRow(BufferWidth());
      if downStack == [] || !last {
        return false;
      }
      var next := downStack[|downStack| - 1];
      PopOk(downStack);
      var current := Current();
      PushOk(upStack, current);
      downStack := downStack[..|downStack| - 1];
      upStack := Push(upStack, current);
      Show(next);
      return true;
    }

    method StashDraft()
      requires Sound()
      modifies this`upStack
      ensures Sound() && upStack == Push(old(upStack), old(Drafts()).draft)
    {
      var current := Current();
      PushOk(upStack, current);
      upStack := Push(upStack, current);
    }

    method RememberSent(content: string)
      requires Sound() && Clean(content)
      modifies this`upStack, this`downStack
      ensures Sound() && upStack == Push(old(upStack), content) && downStack == []
    {
      PushOk(upStack, content);
      upStack := Push(upStack, content);
      downStack := [];
    }

    twostate predicate WentUp()
      reads this, buffer
    {
      && buffer.anchor == None
      && if old(upStack != [] && OnFirstRow()) then Drafts() == old(Drafts()).RecallUp() && OnLastRow()
         else
           && Drafts() == old(Drafts()) && SameText()
           && buffer.cursor == HitTest.Up(buffer.value, buffer.Page(BufferWidth()), old(buffer.cursor))
    }

    twostate predicate WentDown()
      reads this, buffer
    {
      && buffer.anchor == None
      && if old(downStack != [] && OnLastRow()) then Drafts() == old(Drafts()).RecallDown() && OnLastRow()
         else
           && Drafts() == old(Drafts()) && SameText()
           && buffer.cursor == HitTest.Down(buffer.value, buffer.Page(BufferWidth()), old(buffer.cursor))
    }

    /** One row up; like a recalled draft, the cursor has no anchor then. */
    method RowUp()
      requires Sound()
      modifies buffer
      ensures Valid() && Drafts() == old(Drafts()) && SameText() && buffer.anchor == None
      ensures buffer.cursor == HitTest.Up(buffer.value, buffer.Page(BufferWidth()), old(buffer.cursor))
    {
      buffer.Up(BufferWidth());
      buffer.anchor := None;
    }

    method CursorUp()
      requires Sound()
      modifies this`upStack, this`downStack, buffer
      ensures Valid() && WentUp()
      ensures old(upStack != [] && OnFirstRow()) ==>
        && buffer.value == old(upStack[|upStack| - 1]) && buffer.pastes == []
        && buffer.cursor == Len(buffer.value)
    {
      var did := RecallUp();
      if !did {
        RowUp();
      }
    }

    /** One row down; like a recalled draft, the cursor has no anchor then. */
    method RowDown()
      requires Sound()
      modifies buffer
      ensures Valid() && Drafts() == old(Drafts()) && SameText() && buffer.anchor == None
      ensures buffer.cursor == HitTest.Down(buffer.value, buffer.Page(BufferWidth()), old(buffer.cursor))
    {
      buffer.Down(BufferWidth());
      buffer.anchor := None;
    }

    method CursorDown()
      requires Sound()
      modifies this`upStack, this`downStack, buffer
      ensures Valid() && WentDown()
      ensures old(downStack != [] && OnLastRow()) ==>
        && buffer.value == old(downStack[|downStack| - 1]) && buffer.pastes == []
        && buffer.cursor == Len(buffer.value)
    {
      var did := RecallDown();
      if !did {
        RowDown();
      }
    }

    /** Up into an older draft and down again restores a non-empty draft and the older ones:
        the recalled draft is left with the cursor on its last row, where Down recalls. */
    method UpAndDown()
      requires Sound() && upStack != [] && OnFirstRow() && Drafts().draft != []
      modifies this`upStack, this`downStack, buffer
      ensures Valid() && Drafts().draft == old(Drafts()).draft && upStack == old(upStack)
      ensures downStack == if old(downStack) != [] && Top(old(downStack)) == old(Drafts()).draft
        then Pop(old(downStack)) else old(downStack)
    {
      UpThenDown(Drafts());
      CursorUp();
      CursorDown();
    }

    /** Up right after Clear brings the cleared draft back. */
    method ClearAndUp()
      requires Sound() && Drafts().draft != []
      modifies this`upStack, this`downStack, buffer
      ensures Valid() && Drafts().draft == old(Drafts()).draft && downStack == old(downStack)
      ensures upStack == if old(upStack) != [] && Top(old(upStack)) == old(Drafts()).draft
        then Pop(old(upStack)) else old(upStack)
    {
      StashThenUp(Drafts());
      ClearDraft();
      assert buffer.value == "" && buffer.cursor == 0;
      EmptyFirst(buffer.Page(BufferWidth()));
      CursorUp();
    }

    /** Down into a newer draft, Up recalls again (see Recall.DownThenUp) exactly when that
        draft is one row; in a longer one it only moves the cursor. */
    method DownAndUp()
      requires Sound() && downStack != [] && OnLastRow() && Drafts().draft != []
      modifies this`upStack, this`downStack, buffer
      ensures Valid() && old(Drafts()).RecallDown().ups != []
      ensures var d := old(Drafts()).RecallDown();
        Drafts() == if |Rows(d.draft, Layout(BufferWidth(), buffer.cw, []))| == 1 then d.RecallUp() else d
    {
      DownInto();
      CursorUp();
    }

    method DownInto()
      requires Sound() && downStack != [] && OnLastRow() && Drafts().draft != []
      modifies this`upStack, this`downStack, buffer
      ensures Valid() && upStack != [] && Drafts() == old(Drafts()).RecallDown()
      ensures OnFirstRow() <==> |Rows(Drafts().draft, Layout(BufferWidth(), buffer.cw, []))| == 1
    {
      DownThenUp(Drafts());
      CursorDown();
      OneRowOnly(Rows(buffer.value, Layout(BufferWidth(), buffer.cw, [])));
    }

    /** On the last row of a draft without chips, the first row is that one exactly when the
        draft is one row. */
    lemma OneRowOnly(rows: seq<Row>)
      requires buffer.pastes == [] && rows == Rows(buffer.value, Layout(BufferWidth(), buffer.cw, []))
      requires OnLastRow()
      ensures OnFirstRow() <==> |rows| == 1
    {
      assert buffer.Page(BufferWidth()) == Layout(BufferWidth(), buffer.cw, []);
    }

    /** Submit hands out the trimmed expansion and empties the buffer; a blank draft stays. */
    twostate predicate Submitted(new effect: Option<string>)
      reads this, buffer
    {
      var content := Trim(old(Drafts()).draft);
      if content == [] then effect == None && unchanged(buffer)
      else
        && effect == Some(content) && buffer.Model() == Doc([], 0)
        && buffer.anchor == None && buffer.scrollOffset == 0
    }

    method Submit() returns (effect: Option<string>)
      requires Sound()
      modifies buffer
      ensures Sound() && Submitted(effect)
    {
      var draft := Current();
      if Trim(draft) == [] {
        return None;
      }
      buffer.Clear();
      return Some(Trim(draft));
    }

    twostate predicate Cleared()
      reads this, buffer
    {
      && Drafts() == old(Drafts()).Stash()
      && buffer.Model() == Doc([], 0) && buffer.anchor == None && buffer.scrollOffset == 0
    }

    method ClearDraft()
      requires Sound()
      modifies this`upStack, buffer
      ensures Valid() && Cleared()
    {
      StashDraft();
      buffer.Clear();
    }

    // Messages -----------------------------------------------------------------------------

    twostate predicate SameStacks()
      reads this
    {
      upStack == old(upStack) && downStack == old(downStack)
    }

    /** What moving the cursor does: the text stays. */
    twostate predicate Steered(msg: Message)
      requires msg.MovesCursor()
      reads this, buffer
    {
      if msg.IsMotion() then Moved(msg) else if msg.IsSelect() then Selected(msg) else Pointed(msg)
    }

    /** What each message does when no edit panics. */
    twostate predicate Handled(msg: Message, new effect: Option<string>)
      requires msg.IsEdit() ==> old(buffer.Valid())
      reads this, buffer
    {
      && (!msg.Submit? ==> effect == None)
      && (!msg.ChangesDraft() || msg.Submit? ==> SameStacks())
      && if msg.IsEdit() then Edited(msg)
         else if msg.MovesCursor() then Steered(msg)
         else if msg.CursorUp? then WentUp()
         else if msg.CursorDown? then WentDown()
         else if msg.Submit? then Submitted(effect)
         else if msg.Clear? then Cleared()
         else unchanged(buffer)
    }

    /** Messages that move the cursor and leave the text alone. */
    method Motion(msg: Message)
      requires Sound() && msg.MovesCursor()
      modifies buffer
      ensures Sound() && Steered(msg)
    {
      if msg.IsMotion() {
        Move(msg);
      } else if msg.IsSelect() {
        Select(msg);
      } else {
        Mouse(msg);
      }
    }

    /** Messages that empty the buffer. */
    method Finish(msg: Message) returns (effect: Option<string>)
      requires Sound() && (msg.Submit? || msg.Clear?)
      modifies this`upStack, buffer
      ensures Sound() && Handled(msg, effect)
    {
      effect := None;
      if msg.Submit? {
        effect := Submit();
      } else {
        ClearDraft();
      }
    }

    /** One message.  An edit with a stranded anchor slices the text off a boundary and
        panics; nothing is said of the state it leaves. */
    method Update(msg: Message) returns (effect: Option<string>, panicked: bool)
      requires Sound() && msg.Plain()
      modifies this`upStack, this`downStack, buffer
      ensures panicked <==> msg.IsEdit() && old(buffer.Stranded())
      ensures !panicked ==> Sound() && Handled(msg, effect)
    {
      effect, panicked := None, false;
      if msg.IsEdit() {
        panicked := buffer.SlicePanics();
        if !panicked {
          Edit(msg);
        }
      } else if msg.MovesCursor() {
        Motion(msg);
      } else if msg.CursorUp? {
        CursorUp();
      } else if msg.CursorDown? {
        CursorDown();
      } else if msg.Submit? || msg.Clear? {
        effect := Finish(msg);
      }
    }

    /** Over any sequence of messages the marker table stays in order, up to an edit that
        panics; and none does unless an earlier Backspace or KillToLineStart stranded the
        anchor.  The first `done` messages were handled. */
    method UpdateAll(msgs: seq<Message>) returns (done: nat)
      requires Sound() && forall i :: 0 <= i < |msgs| ==> msgs[i].Plain()
      modifies this`upStack, this`downStack, buffer
      ensures Sound() && done <= |msgs|
      ensures done < |msgs| ==> msgs[done].IsEdit() && buffer.Stranded()
      ensures old(Valid()) && (forall i :: 0 <= i < |msgs| ==> !msgs[i].Backspace? && !msgs[i].KillToLineStart?)
        ==> done == |msgs| && Valid()
    {
      done := 0;
      while done < |msgs|
        invariant Sound() && done <= |msgs|
        invariant old(Valid()) && (forall i :: 0 <= i < |msgs| ==> !msgs[i].Backspace? && !msgs[i].KillToLineStart?)
          ==> Valid()
      {
        var panics := buffer.SlicePanics();
        if panics && msgs[done].IsEdit() {
          return;
        }
        var _, _ := Update(msgs[done]);
        done := done + 1;
      }
    }
  }

  /** A draft of two lines, wrapped. */
  lemma TwoLines(L: Layout)
    requires L.width == 1 && L.cw('a') == 1 && L.cw('b') == 1
    ensures Rows("a\nb", L) == [Row([Cell('a', 0)], 1), Row([Cell('b', 2)], 3)]
  {
    assert "a\nb"[..2] == "a\n" && "a\n"[..1] == "a" && "a"[..0] == "";
    assert Wrapped("a", L) == State([], [Cell('a', 0)], 1);
    assert Wrapped("a\n", L) == State([Row([Cell('a', 0)], 1)], [], 0);
    assert Len("a") == 1 && Len("a\n") == 2 && Len("a\nb") == 3;
    assert [] + [Cell('b', 2)] == [Cell('b', 2)];
    assert Wrapped("a\nb", L) == State([Row([Cell('a', 0)], 1)], [Cell('b', 2)], 1);
  }

  /** One row up from its end is the end of the first line, on the first row. */
  lemma TwoLinesUp(L: Layout)
    requires L.width == 1 && L.cw('a') == 1 && L.cw('b') == 1
    ensures HitTest.CursorRowCol(L, Rows("a\nb", L), 3) == (1, 1)
    ensures HitTest.Up("a\nb", L, 3) == 1 && HitTest.OnFirstRow("a\nb", L, 1)
  {
    TwoLines(L);
    var top, low := Row([Cell('a', 0)], 1), Row([Cell('b', 2)], 3);
    FoundOnSecond(L, top, low);
    FoundOnFirst(L, top, low);
    var rows := Rows("a\nb", L);
    assert rows == [top, low] && rows[1 - 1] == top;
  }

  lemma FoundOnSecond(L: Layout, top: Row, low: Row)
    requires top == Row([Cell('a', 0)], 1) && low == Row([Cell('b', 2)], 3) && L.cw('a') == 1 && L.cw('b') == 1
    ensures HitTest.CursorRowCol(L, [top, low], 3) == (1, 1)
  {
    var rows := [top, low];
    OneCell(L, top, 3);
    OneCell(L, low, 3);
    assert HitTest.RowOf(rows, 3, 1) == 1;
    assert HitTest.RowOf(rows, 3) == 1;
  }

  lemma FoundOnFirst(L: Layout, top: Row, low: Row)
    requires top == Row([Cell('a', 0)], 1) && L.cw('a') == 1
    ensures HitTest.CursorRowCol(L, [top, low], 1) == (0, 1) && HitTest.ByteAtCol(L, top, 1) == 1
  {
    OneCell(L, top, 1);
    assert HitTest.RowOf([top, low], 1) == 0;
    assert HitTest.FirstCol(L, top, 1, 1) == 1;
    assert HitTest.FirstCol(L, top, 1) == 1;
  }

  lemma OneCell(L: Layout, row: Row, b: nat)
    requires |row.chars| == 1 && row.chars[0].bi < b && L.cw(row.chars[0].c) == 1
    ensures HitTest.First(row, b) == 1 && L.Width(row.chars[..1]) == 1 && L.Width(row.chars[..0]) == 0
  {
    assert HitTest.First(row, b, 1) == 1;
    assert row.chars[..1] == row.chars && row.chars[..0] == [];
  }

  lemma EmptyFirst(L: Layout)
    ensures HitTest.OnFirstRow("", L, 0)
  {
    var row := Row([], 0);
    assert Rows("", L) == [row];
    assert HitTest.First(row, 0) == 0;
    assert HitTest.RowOf([row], 0) == 0;
  }

  /** The text area shows this draft without chips, with the cursor at byte b. */
  ghost predicate At(t: TextArea, d: Drafts, b: nat)
    reads t, t.buffer
  {
    && t.Valid() && t.width == 0 && t.Drafts() == d
    && t.buffer.value == d.draft && t.buffer.pastes == [] && t.buffer.cursor == b
  }

  method TwoSent(cw: char -> nat) returns (t: TextArea)
    requires forall c :: ' ' <= c <= '~' ==> cw(c) == 1
    ensures fresh(t) && fresh(t.buffer) && At(t, Recall.Drafts(["x", "a\nb"], [], []), 0)
  {
    t := new TextArea(cw);
    Sent(t, "x");
    Sent(t, "a\nb");
  }

  method Sent(t: TextArea, content: string)
    requires At(t, Recall.Drafts(t.upStack, "", []), 0) && Clean(content)
    modifies t`upStack, t`downStack
    ensures At(t, Recall.Drafts(Push(old(t.upStack), content), "", []), 0)
  {
    t.RememberSent(content);
  }

  method DownIntoLong(t: TextArea)
    requires t.Valid() && t.Drafts() == Recall.Drafts([], "x", ["a\nb"]) && t.OnLastRow() && t.width == 0
    modifies t`upStack, t`downStack, t.buffer
    ensures t.Valid() && t.Drafts() == Recall.Drafts(["x"], "a\nb", [])
  {
    TwoLines(Layout(1, t.buffer.cw, []));
    t.DownAndUp();
  }

  /** Where Down and Up do not come back: `x` and then a draft of two lines were sent and are
      recalled one after the other; Down goes to the longer one again, and Up stays in it. */
  method LongDraftStays(cw: char -> nat) returns (t: TextArea)
    requires forall c :: ' ' <= c <= '~' ==> cw(c) == 1
    ensures t.Valid() && t.Drafts() == Recall.Drafts(["x"], "a\nb", [])
  {
    t := TwoSent(cw);
    RecallTwo(t);
    DownIntoLong(t);
  }

  /** Both drafts are recalled; to get from the longer one to the older one the cursor first
      goes up inside it. */
  method RecallTwo(t: TextArea)
    requires At(t, Recall.Drafts(["x", "a\nb"], [], []), 0)
    modifies t`upStack, t`downStack, t.buffer
    ensures t.Valid() && t.Drafts() == Recall.Drafts([], "x", ["a\nb"]) && t.OnLastRow()
    ensures t.width == 0
  {
    RecallLong(t);
    UpInside(t);
    RecallOlder(t);
  }

  method RecallLong(t: TextArea)
    requires At(t, Recall.Drafts(["x", "a\nb"], [], []), 0)
    modifies t`upStack, t`downStack, t.buffer
    ensures At(t, Recall.Drafts(["x"], "a\nb", []), 3)
  {
    EmptyFirst(Layout(1, t.buffer.cw, []));
    assert t.buffer.Page(t.BufferWidth()) == Layout(1, t.buffer.cw, []);
    LongLength();
    t.CursorUp();
  }

  lemma LongLength()
    ensures Len("a\nb") == 3
  {
    assert "a\nb"[..2] == "a\n" && "a\n"[..1] == "a" && "a"[..0] == "";
  }

  method UpInside(t: TextArea)
    requires At(t, Recall.Drafts(["x"], "a\nb", []), 3)
    modifies t`upStack, t`downStack, t.buffer
    ensures At(t, Recall.Drafts(["x"], "a\nb", []), 1)
  {
    TwoLinesUp(Layout(1, t.buffer.cw, []));
    assert t.buffer.Page(t.BufferWidth()) == Layout(1, t.buffer.cw, []);
    t.CursorUp();
  }

  method RecallOlder(t: TextArea)
    requires At(t, Recall.Drafts(["x"], "a\nb", []), 1)
    modifies t`upStack, t`downStack, t.buffer
    ensures t.Valid() && t.Drafts() == Recall.Drafts([], "x", ["a\nb"]) && t.OnLastRow() && t.width == 0
  {
    TwoLinesUp(Layout(1, t.buffer.cw, []));
    assert t.buffer.Page(t.BufferWidth()) == Layout(1, t.buffer.cw, []);
    t.CursorUp();
  }

  /** The text an edit puts in place of what it removes. */
  function Brought(msg: Message): string {
    match msg
    case Input(c) => [c]
    case Paste(text) => NormalizeNewlines(text)
    case Newline => "\n"
    case _ => []
  }

  /** What an edit removes around position p when nothing is selected: the atom before it or
      behind it, the newline on it or else the rest of its line, or its line so far. */
  ghost predicate Extent(msg: Message, atoms: seq<Atom>, p: nat, lo: nat, hi: nat)
    requires p <= |atoms|
  {
    match msg
    case Backspace => hi == p && lo == if p == 0 then 0 else p - 1
    case Delete => lo == p && hi == if p == |atoms| then p else p + 1
    case KillToEnd => lo == p && if p < |atoms| && atoms[p] == NEWLINE then hi == p + 1 else LineEndAt(atoms, p, hi)
    case KillToLineStart => hi == p && LineStartAt(atoms, p, lo)
    case _ => lo == p == hi
  }

  /** Every edit is one splice of the expanded draft: what it removes is exactly the
      selection, or with none the atoms at the cursor that its name says; everything before and
      after is untouched, and a paste brings the same text whether it compacts or not. */
  lemma EditIsSplice(msg: Message, d: Doc, sel: Selection, used: nat) returns (lo: nat, hi: nat)
    requires msg.IsEdit() && d.Valid() && d.Covers(sel)
    ensures lo <= hi <= |d.atoms|
    ensures if sel.Some? then (lo, hi) == sel.value else lo <= d.pos <= hi
    ensures sel.None? && (msg.Input? || msg.Paste? || msg.Newline?) ==> lo == hi
    ensures sel.None? ==> Extent(msg, d.atoms, d.pos, lo, hi)
    ensures var e := msg.Apply(d, sel, used);
      && e.Valid()
      && Expand(e.atoms) == Expand(d.atoms[..lo]) + Brought(msg) + Expand(d.atoms[hi..])
      && Expand(e.atoms[..e.pos]) == Expand(d.atoms[..lo]) + Brought(msg)
  {
    if msg.Input? || msg.Paste? || msg.Newline? {
      lo, hi := if sel.Some? then sel.value.0 else d.pos, if sel.Some? then sel.value.1 else d.pos;
      var ins := if msg.Input? then [Char(msg.c)] else if msg.Paste? then PasteAtoms(msg.text, used) else [NEWLINE];
      InsExpands(msg, used, ins);
      InsertExpands(d, sel, ins);
    } else {
      lo, hi := CutRangeOf(msg, d, sel, used);
      CutExpands(d, lo, hi);
    }
  }

  /** Where each motion, selecting or not, takes the position; the atoms stay. */
  ghost predicate Lands(msg: Message, atoms: seq<Atom>, p: nat, q: nat) {
    match msg
    case Left | SelectLeft => q == if p == 0 then 0 else p - 1
    case Right | SelectRight => q == if p == |atoms| then p else p + 1
    case Home | SelectHome => LineStartAt(atoms, p, q)
    case End | SelectEnd => LineEndAt(atoms, p, q)
    case LeftWord => exists m: nat :: WordBefore(atoms, p, q, m)
    case RightWord => exists m: nat :: WordBehind(atoms, p, q, m)
    case _ => q == p
  }

  lemma MotionLands(msg: Message, d: Doc, used: nat)
    requires (msg.IsMotion() || msg.IsSelect()) && d.Valid()
    ensures msg.Apply(d, None, used).atoms == d.atoms
    ensures Lands(msg, d.atoms, d.pos, msg.Apply(d, None, used).pos)
  {
    var m, n := MotionsLand(d);
  }

  lemma CutExpands(d: Doc, lo: nat, hi: nat)
    requires lo <= hi <= |d.atoms|
    ensures Expand(d.Cut(lo, hi).atoms) == Expand(d.atoms[..lo]) + [] + Expand(d.atoms[hi..])
    ensures Expand(d.Cut(lo, hi).atoms[..lo]) == Expand(d.atoms[..lo]) + []
  {
    ExpandConcat(d.atoms[..lo], d.atoms[hi..]);
    assert d.Cut(lo, hi).atoms[..lo] == d.atoms[..lo];
  }

  lemma InsExpands(msg: Message, used: nat, ins: seq<Atom>)
    requires msg.Input? || msg.Paste? || msg.Newline?
    requires ins == if msg.Input? then [Char(msg.c)] else if msg.Paste? then PasteAtoms(msg.text, used) else [NEWLINE]
    ensures Expand(ins) == Brought(msg)
  {
    if msg.Paste? {
      PasteExpands(msg.text, used);
    } else {
      assert ins[..0] == [];
    }
  }

  lemma CutRangeOf(msg: Message, d: Doc, sel: Selection, used: nat) returns (lo: nat, hi: nat)
    requires msg.Backspace? || msg.Delete? || msg.KillToEnd? || msg.KillToLineStart?
    requires d.Valid() && d.Covers(sel)
    ensures lo <= hi <= |d.atoms|
    ensures if sel.Some? then (lo, hi) == sel.value else lo <= d.pos <= hi && Extent(msg, d.atoms, d.pos, lo, hi)
    ensures msg.Apply(d, sel, used) == d.Cut(lo, hi)
  {
    var p, n := d.pos, |d.atoms|;
    assert d.atoms[..p] + d.atoms[p..] == d.atoms;
    if sel.Some? {
      lo, hi := sel.value.0, sel.value.1;
    } else if msg.Backspace? {
      lo, hi := if p > 0 then p - 1 else p, p;
    } else if msg.Delete? {
      lo, hi := p, if p < n then p + 1 else p;
    } else if msg.KillToEnd? {
      lo, hi := p, if p < n && d.atoms[p] == NEWLINE then p + 1 else LineEnd(d.atoms, p);
    } else {
      lo, hi := LineStart(d.atoms, p), p;
    }
  }
}
