/**
 The attachment picker and its talk with the core: a query is asked under a fresh token,
 and the core may answer late, out of order, twice, or never.
 */
module Attach {
  import opened Pastes
  import opened Paths
  import opened Whitespace
  import opened Scroll

  /** What the core answers: ranked paths, or why the directory could not be searched. */
  datatype Reply = Reply(items: seq<string>, error: Option<string>)

  datatype Request = Request(token: nat, dir: Path, query: string)

  datatype Message =
    | Input(ch: char)
    | Paste(text: string)
    | Backspace
    | ClearQuery
    | EditDir
    | NextItem
    | PrevItem
    | Accept
    | Close
    | Candidates(token: nat, reply: Reply)
    | Resize(viewportHeight: nat)
    | Swallow
    // The app's own calls: open the dialog, or give it another root.
    | Open(root: Path)
    | SetRoot(root: Path)
  {
    predicate EditsQuery() {
      Input? || Paste? || Backspace? || ClearQuery?
    }

    predicate Moves() {
      NextItem? || PrevItem? || Resize? || Swallow? || EditDir?
    }
  }

  datatype Effect = Accepted(path: string) | EditDirectory | Closed

  /** The first line of a text. */
  function FirstLine(s: string): string {
    if s == [] || s[0] == '\n' then [] else [s[0]] + FirstLine(s[1..])
  }

  function Position(items: seq<string>, path: string, from: nat := 0): (p: Option<nat>)
    requires from <= |items|
    ensures p.Some? ==> from <= p.value < |items| && items[p.value] == path
    ensures p.Some? ==> forall i :: from <= i < p.value ==> items[i] != path
    ensures p.None? ==> forall i :: from <= i < |items| ==> items[i] != path
    decreases |items| - from
  {
    if from == |items| then None else if items[from] == path then Some(from) else Position(items, path, from + 1)
  }

  /** The dialog as a value. */
  datatype Finder = Finder(
    open: bool,
    dir: Path,
    query: string,
    candidates: seq<string>,
    error: Option<string>,
    pending: Option<(nat, string)>,
    answered: Option<string>,
    requests: nat,
    selected: nat,
    offset: nat,
    viewport: nat)
  {
    function Reroot(root: Path): Finder {
      this.(dir := Normalize(root), query := [], candidates := [], error := None,
            pending := None, answered := None, selected := 0, offset := 0)
    }

    function Shut(): Finder {
      this.(open := false, pending := None)
    }

    function Reoffset(): Finder {
      this.(offset := OffsetFor(selected, offset, viewport, |candidates|))
    }

    /** The current query was asked already: it is in flight, or answered. */
    predicate Asked() {
      (pending.Some? && pending.value.1 == query) || answered == Some(query)
    }

    /** The request a sync owes the core. */
    function Sync(): (Finder, Option<Request>) {
      if !open || Asked() then (this, None)
      else (this.(requests := requests + 1, pending := Some((requests, query))),
            Some(Request(requests, dir, query)))
    }

    /** A reply lands when it answers the request that is awaited. */
    predicate Lands(token: nat) {
      open && pending.Some? && pending.value.0 == token
    }

    /** The row the highlight goes to: the highlighted path's, if the ranking still has it. */
    function Highlight(items: seq<string>): nat {
      if selected < |candidates| then Position(items, candidates[selected]).GetOr(0) else 0
    }

    function SetCandidates(token: nat, reply: Reply): Finder {
      if !(pending.Some? && pending.value.0 == token) then this
      else
        this.(pending := None, answered := Some(pending.value.1), error := reply.error,
              candidates := reply.items, selected := Highlight(reply.items)).Reoffset()
    }

    function Update(msg: Message): (Finder, Option<Effect>) {
      if msg.Open? then (this.(open := true).Reroot(msg.root), None)
      else if msg.SetRoot? then (Reroot(msg.root), None)
      else if !open && !msg.Close? then (this, None)
      else
        match msg
        case Input(ch) => (this.(query := query + [ch]), None)
        case Paste(text) => (this.(query := query + Trim(FirstLine(text))), None)
        case Backspace => (this.(query := if query == [] then [] else query[..|query| - 1]), None)
        case ClearQuery => (this.(query := []), None)
        case EditDir => (this, Some(EditDirectory))
        case NextItem =>
          (if candidates == [] then this else this.(selected := Min(selected + 1, |candidates| - 1)).Reoffset(), None)
        case PrevItem =>
          (if candidates == [] then this else this.(selected := Minus(selected, 1)).Reoffset(), None)
        case Accept =>
          if selected < |candidates| then (Shut(), Some(Accepted(candidates[selected]))) else (this, None)
        case Close => (Shut(), Some(Closed))
        case Candidates(token, reply) => (SetCandidates(token, reply), None)
        case Resize(h) => (this.(viewport := h).Reoffset(), None)
        case _ => (this, None)
    }

    /** One app hop: the message, then the request it may owe. */
    function Hop(msg: Message): (Finder, Option<Request>) {
      Update(msg).0.Sync()
    }
  }

  const CLOSED := Finder(false, [], [], [], None, None, None, 0, 0, 0, 0)

  // The conversation -----------------------------------------------------------------------------

  /** The dialog, every request sent so far (its token is its place), and how many of them
      were sent for trees that were left since. */
  datatype Talk = Talk(f: Finder, sent: seq<Request>, left: nat)

  const START := Talk(CLOSED, [], 0)

  function After(t: Talk, msg: Message): Talk {
    var (f, request) := t.f.Hop(msg);
    Talk(f, if request.Some? then t.sent + [request.value] else t.sent,
         if msg.Open? || msg.SetRoot? then |t.sent| else t.left)
  }

  /** The core only answers what was asked, and says the truth about it: `truth` relates a
      directory and a query to every answer the core may give. */
  ghost predicate Possible(t: Talk, msg: Message, truth: (Path, string, Reply) -> bool) {
    msg.Candidates? ==>
      msg.token < |t.sent| && truth(t.sent[msg.token].dir, t.sent[msg.token].query, msg.reply)
  }

  ghost predicate AllPossible(t: Talk, msgs: seq<Message>, truth: (Path, string, Reply) -> bool)
    decreases |msgs|
  {
    msgs == [] || (Possible(t, msgs[0], truth) && AllPossible(After(t, msgs[0]), msgs[1..], truth))
  }

  ghost function Run(t: Talk, msgs: seq<Message>): Talk
    decreases |msgs|
  {
    if msgs == [] then t else Run(After(t, msgs[0]), msgs[1..])
  }

  /** What holds after every hop. */
  ghost predicate Inv(t: Talk, truth: (Path, string, Reply) -> bool) {
    var f := t.f;
    && t.left <= |t.sent| == f.requests
    && (forall i :: 0 <= i < |t.sent| ==> t.sent[i].token == i)
    && (forall i :: t.left <= i < |t.sent| ==> t.sent[i].dir == f.dir)
    // The awaited request is the last one sent, and it was sent for this tree.
    && (f.pending.Some? ==>
          && t.left < |t.sent| && f.pending.value.0 == |t.sent| - 1
          && t.sent[|t.sent| - 1].query == f.pending.value.1)
    // The last query asked of this tree is awaited or answered, while the dialog is open.
    && (f.open && t.left < |t.sent| ==>
          f.pending == Some((|t.sent| - 1, t.sent[|t.sent| - 1].query))
          || f.answered == Some(t.sent[|t.sent| - 1].query))
    // What is shown is the core's answer to the answered query for this very directory.
    && (match f.answered
        case None => f.candidates == [] && f.error == None
        case Some(query) => truth(f.dir, query, Reply(f.candidates, f.error)))
    && (f.candidates == [] || f.selected < |f.candidates|)
    && (f.open ==> f.Asked())
  }

  lemma EditInv(t: Talk, msg: Message, truth: (Path, string, Reply) -> bool)
    requires Inv(t, truth) && msg.EditsQuery()
    ensures Inv(After(t, msg), truth)
  {}

  lemma ReplyInv(t: Talk, msg: Message, truth: (Path, string, Reply) -> bool)
    requires Inv(t, truth) && Possible(t, msg, truth) && msg.Candidates?
    ensures Inv(After(t, msg), truth)
  {}

  lemma RootInv(t: Talk, msg: Message, truth: (Path, string, Reply) -> bool)
    requires Inv(t, truth) && (msg.Open? || msg.SetRoot?)
    ensures Inv(After(t, msg), truth)
  {}

  lemma OtherInv(t: Talk, msg: Message, truth: (Path, string, Reply) -> bool)
    requires Inv(t, truth) && (msg.Moves() || msg.Accept? || msg.Close?)
    ensures Inv(After(t, msg), truth)
  {}

  lemma HopInv(t: Talk, msg: Message, truth: (Path, string, Reply) -> bool)
    requires Inv(t, truth) && Possible(t, msg, truth)
    ensures Inv(After(t, msg), truth)
  {
    if msg.EditsQuery() {
      EditInv(t, msg, truth);
    } else if msg.Candidates? {
      ReplyInv(t, msg, truth);
    } else if msg.Open? || msg.SetRoot? {
      RootInv(t, msg, truth);
    } else {
      OtherInv(t, msg, truth);
    }
  }

  lemma StartInv(truth: (Path, string, Reply) -> bool)
    ensures Inv(START, truth)
  {}

  lemma {:induction false} RunInv(t: Talk, msgs: seq<Message>, truth: (Path, string, Reply) -> bool)
    requires Inv(t, truth) && AllPossible(t, msgs, truth)
    ensures Inv(Run(t, msgs), truth)
    decreases |msgs|
  {
    if msgs != [] {
      HopInv(t, msgs[0], truth);
      RunInv(After(t, msgs[0]), msgs[1..], truth);
    }
  }

  /** However late, reordered, repeated or lost the replies: after any run the candidates on
      show are the core's answer for the directory on show and the answered query, and while
      the dialog is open its current query is in flight or answered. */
  lemma ShownIsAnswered(msgs: seq<Message>, truth: (Path, string, Reply) -> bool)
    requires AllPossible(START, msgs, truth)
    ensures var f := Run(START, msgs).f;
      && (f.answered.Some? ==> truth(f.dir, f.answered.value, Reply(f.candidates, f.error)))
      && (f.answered.None? ==> f.candidates == [])
      && (f.open ==> (f.pending.Some? && f.pending.value.1 == f.query) || f.answered == Some(f.query))
  {
    StartInv(truth);
    RunInv(START, msgs, truth);
  }

  /** A reply to any request but the last one, or to one sent before the dialog left its
      tree, changes nothing. */
  lemma StaleRepliesDrop(t: Talk, token: nat, reply: Reply, truth: (Path, string, Reply) -> bool)
    requires Inv(t, truth) && (token + 1 < |t.sent| || token < t.left)
    ensures After(t, Candidates(token, reply)) == t
  {}

  /** Nothing is asked twice in a row: a hop asks exactly when the dialog is open with a query
      neither in flight nor answered, and then not what it asked of this tree last. */
  lemma NeverAskedTwice(t: Talk, msg: Message, truth: (Path, string, Reply) -> bool)
    requires Inv(t, truth) && Possible(t, msg, truth)
    ensures var t', f := After(t, msg), t.f.Update(msg).0;
      if f.open && (f.pending.Some? ==> f.pending.value.1 != f.query) && f.answered != Some(f.query) then
        && t'.sent == t.sent + [Request(|t.sent|, f.dir, f.query)]
        && (t'.left < |t.sent| ==> f.query != t.sent[|t.sent| - 1].query)
      else t'.sent == t.sent
  {}

  /** Opening the dialog, or giving it another root while it is open, drops what belonged to the
      old tree and asks for everything in the new one, under a path in normal form that leads where
      the given one does. */
  lemma RootAsked(t: Talk, msg: Message, truth: (Path, string, Reply) -> bool)
    requires Inv(t, truth) && (msg.Open? || (msg.SetRoot? && t.f.open))
    ensures var t' := After(t, msg); var f := t'.f;
      && f.open && NormalForm(f.dir) && (forall at :: Walk(at, f.dir) == Walk(at, msg.root))
      && f.query == [] && f.candidates == [] && f.error == None && f.answered == None
      && t'.sent == t.sent + [Request(|t.sent|, f.dir, [])] && f.pending == Some((|t.sent|, []))
  {
    NormalizeIsNormal(msg.root);
    forall at ensures Walk(at, Normalize(msg.root)) == Walk(at, msg.root) {
      NormalizeKeepsMeaning(at, msg.root);
    }
  }

  // Settling ---------------------------------------------------------------------------------------

  /** How many more replies have to land before the list answers the query. */
  function Owed(f: Finder): nat {
    if f.pending.None? then 0 else if f.pending.value.1 == f.query then 1 else 2
  }

  /** The messages once editing has stopped: replies and movement in the list. */
  predicate Quiet(msg: Message) {
    msg.Candidates? || msg.Moves()
  }

  function Landed(t: Talk, msgs: seq<Message>): nat
    decreases |msgs|
  {
    if msgs == [] then 0
    else (if msgs[0].Candidates? && t.f.Lands(msgs[0].token) then 1 else 0) + Landed(After(t, msgs[0]), msgs[1..])
  }

  lemma QuietStep(t: Talk, msg: Message, truth: (Path, string, Reply) -> bool)
    requires Inv(t, truth) && Possible(t, msg, truth) && t.f.open && Quiet(msg)
    ensures var t' := After(t, msg);
      && t'.f.open && t'.f.query == t.f.query && t'.f.dir == t.f.dir
      && Owed(t'.f) == (if msg.Candidates? && t.f.Lands(msg.token) then Owed(t.f) - 1 else Owed(t.f))
  {}

  /** Once edits stop, each reply that lands brings the list one step nearer, so after at
      most two of them it answers the query and nothing is owed. */
  lemma {:induction false} SettlesInTwo(t: Talk, msgs: seq<Message>, truth: (Path, string, Reply) -> bool)
    requires Inv(t, truth) && AllPossible(t, msgs, truth) && t.f.open
    requires forall i :: 0 <= i < |msgs| ==> Quiet(msgs[i])
    ensures var f := Run(t, msgs).f;
      && Owed(f) + Landed(t, msgs) == Owed(t.f) <= 2
      && f.open && f.query == t.f.query && f.dir == t.f.dir
      && (Landed(t, msgs) == Owed(t.f) ==>
            && f.answered == Some(f.query) && f.pending == None
            && truth(f.dir, f.query, Reply(f.candidates, f.error)))
    decreases |msgs|
  {
    if msgs != [] {
      HopInv(t, msgs[0], truth);
      QuietStep(t, msgs[0], truth);
      SettlesInTwo(After(t, msgs[0]), msgs[1..], truth);
    }
  }

  // Out of range ------------------------------------------------------------------------------------

  lemma RunCons(t: Talk, msg: Message, rest: seq<Message>, truth: (Path, string, Reply) -> bool)
    ensures Run(t, [msg] + rest) == Run(After(t, msg), rest)
    ensures AllPossible(t, [msg] + rest, truth) <==> Possible(t, msg, truth) && AllPossible(After(t, msg), rest, truth)
  {
    assert ([msg] + rest)[1..] == rest;
  }

  /** Moving down five times over six candidates, two of which are in view. */
  lemma MovedDown(t: Talk, truth: (Path, string, Reply) -> bool)
    requires t.f.open && t.f.Asked() && |t.f.candidates| == 6 && t.f.viewport == 2 && t.f.selected <= 5
    requires t.f.offset <= t.f.selected < t.f.offset + 2 && t.f.offset <= 4
    ensures var n := 5 - t.f.selected; var msgs := seq(n, i requires 0 <= i < n => NextItem);
      && AllPossible(t, msgs, truth)
      && Run(t, msgs) == t.(f := t.f.(selected := 5, offset := if t.f.selected == 5 then t.f.offset else 4))
    decreases 5 - t.f.selected
  {
    if t.f.selected < 5 {
      var n := 5 - t.f.selected;
      var rest := seq(n - 1, i requires 0 <= i < n - 1 => NextItem);
      assert seq(n, i requires 0 <= i < n => NextItem) == [NextItem] + rest;
      RunCons(t, NextItem, rest, truth);
      MovedOn(t);
      MovedDown(After(t, NextItem), truth);
    }
  }

  lemma MovedOn(t: Talk)
    requires t.f.open && t.f.Asked() && |t.f.candidates| == 6 && t.f.viewport == 2 && t.f.selected < 5
    requires t.f.offset <= t.f.selected < t.f.offset + 2 && t.f.offset <= 4
    ensures var n := t.f.selected + 1;
      After(t, NextItem) == t.(f := t.f.(selected := n, offset := if n < t.f.offset + 2 then t.f.offset else n - 1))
  {}

  const SIX := ["a", "b", "c", "d", "e", "f"]
  const THREE := ["b", "d", "f"]

  /** The dialog opens, six candidates come, the window is two rows high. */
  lemma Listed(truth: (Path, string, Reply) -> bool) returns (msgs: seq<Message>, t: Talk)
    requires truth([], "", Reply(SIX, None))
    ensures AllPossible(START, msgs, truth) && t == Run(START, msgs)
    ensures |t.sent| == 1
    ensures t.f == CLOSED.(open := true, candidates := SIX, answered := Some(""), requests := 1, viewport := 2)
  {
    var m1, m2, m3 := Message.Open([]), Candidates(0, Reply(SIX, None)), Message.Resize(2);
    var t1 := After(START, m1);
    var t2 := After(t1, m2);
    msgs := [m1] + ([m2] + ([m3] + []));
    RunCons(START, m1, [m2] + ([m3] + []), truth);
    RunCons(t1, m2, [m3] + [], truth);
    RunCons(t2, m3, [], truth);
    t := After(t2, m3);
  }

  /** With the last of them highlighted one more character is typed, and three are left. */
  lemma Narrowed(t: Talk, truth: (Path, string, Reply) -> bool) returns (msgs: seq<Message>)
    requires |t.sent| == 1 && truth([], "x", Reply(THREE, None))
    requires t.f == CLOSED.(open := true, candidates := SIX, answered := Some(""), requests := 1, viewport := 2,
                            selected := 5, offset := 4)
    ensures AllPossible(t, msgs, truth)
    ensures var f := Run(t, msgs).f; f.candidates == THREE && f.viewport == 2 && f.selected == 2 && f.offset == 2
  {
    var m1, m2 := Message.Input('x'), Candidates(1, Reply(THREE, None));
    var t1 := After(t, m1);
    msgs := [m1] + ([m2] + []);
    RunCons(t, m1, [m2] + [], truth);
    RunCons(t1, m2, [], truth);
    assert "" + ['x'] == "x";
    assert Position(THREE, "f", 2) == Some(2) && Position(THREE, "f", 1) == Some(2) && Position(THREE, "f") == Some(2);
  }

  /** The offset of the list can leave its range: with the highlight on the last of six
      candidates in a window of two, three are left and the highlighted one is the last of
      them; then one row of the window stays empty, though all three would not fit it. */
  lemma OffsetLeavesRange() returns (msgs: seq<Message>)
    ensures AllPossible(START, msgs, (dir, query, reply) => true)
    ensures var f := Run(START, msgs).f;
      f.selected < |f.candidates| && f.offset > Minus(|f.candidates|, f.viewport)
  {
    var truth := (dir: Path, query: string, reply: Reply) => true;
    var first, t := Listed(truth);
    var down := seq(5, i requires 0 <= i < 5 => NextItem);
    MovedDown(t, truth);
    var last := Narrowed(Run(t, down), truth);
    msgs := first + (down + last);
    RunConcat(t, down, last, truth);
    RunConcat(START, first, down + last, truth);
  }

  lemma {:induction false} RunConcat(t: Talk, a: seq<Message>, b: seq<Message>, truth: (Path, string, Reply) -> bool)
    ensures Run(t, a + b) == Run(Run(t, a), b)
    ensures AllPossible(t, a + b, truth) <==> AllPossible(t, a, truth) && AllPossible(Run(t, a), b, truth)
    decreases |a|
  {
    if a == [] {
      assert a + b == b;
    } else {
      assert (a + b)[0] == a[0] && (a + b)[1..] == a[1..] + b;
      RunConcat(After(t, a[0]), a[1..], b, truth);
    }
  }

  // What the keys do ---------------------------------------------------------------------------------

  /** When a message hands something to the app, what, and when the dialog is open after it; once
      it is shut no reply is awaited. */
  lemma EffectIff(f: Finder, msg: Message)
    ensures var (e, effect) := f.Update(msg); var accepts := f.open && msg.Accept? && f.selected < |f.candidates|;
      && (effect == Some(Closed) <==> msg.Close?)
      && (effect == Some(EditDirectory) <==> f.open && msg.EditDir?)
      && (effect.Some? && effect.value.Accepted? <==> accepts)
      && (accepts ==> effect.value.path == f.candidates[f.selected])
      && (e.open <==> msg.Open? || (f.open && !msg.Close? && !accepts))
      && (msg.Close? || accepts ==> e.pending.None?)
  {}

  function Repeat(msg: Message, k: nat): (r: seq<Message>)
    ensures |r| == k
  {
    seq(k, i requires 0 <= i < k => msg)
  }

  lemma RepeatCons(t: Talk, msg: Message, k: nat)
    requires k > 0
    ensures Run(t, Repeat(msg, k)) == Run(After(t, msg), Repeat(msg, k - 1))
  {
    assert Repeat(msg, k) == [msg] + Repeat(msg, k - 1);
    RunCons(t, msg, Repeat(msg, k - 1), (dir, query, reply) => true);
  }

  /** The list and everything else but the highlight and the window. */
  predicate SameList(f: Finder, g: Finder) {
    && g.open == f.open && g.dir == f.dir && g.query == f.query
    && g.candidates == f.candidates && g.error == f.error
    && g.pending == f.pending && g.answered == f.answered && g.requests == f.requests
  }

  /** Moving k rows down or up stops at the ends of the list. */
  lemma {:induction false} MovedTo(t: Talk, k: nat, down: bool)
    requires t.f.open && t.f.Asked() && t.f.selected < |t.f.candidates|
    ensures var u := Run(t, Repeat(if down then NextItem else PrevItem, k));
      && SameList(t.f, u.f) && u.sent == t.sent
      && (down ==>
            u.f.selected == if t.f.selected + k < |t.f.candidates| then t.f.selected + k else |t.f.candidates| - 1)
      && (!down ==> u.f.selected == if k <= t.f.selected then t.f.selected - k else 0)
    decreases k
  {
    if k > 0 {
      var msg := if down then NextItem else PrevItem;
      RepeatCons(t, msg, k);
      MovedOne(t, down);
      MovedTo(After(t, msg), k - 1, down);
    }
  }

  lemma MovedOne(t: Talk, down: bool)
    requires t.f.open && t.f.Asked() && t.f.selected < |t.f.candidates|
    ensures var u := After(t, if down then NextItem else PrevItem);
      && SameList(t.f, u.f) && u.sent == t.sent && u.f.Asked()
      && (down ==> u.f.selected == if t.f.selected + 1 < |t.f.candidates| then t.f.selected + 1 else t.f.selected)
      && (!down ==> u.f.selected == if t.f.selected > 0 then t.f.selected - 1 else 0)
  {}

  /** Away from the ends of the list PrevItem undoes NextItem, and the other way round. */
  lemma MovesUndo(t: Talk, down: bool)
    requires t.f.open && t.f.Asked() && t.f.selected < |t.f.candidates|
    requires if down then t.f.selected + 1 < |t.f.candidates| else t.f.selected > 0
    ensures var (msg, back) := if down then (NextItem, PrevItem) else (PrevItem, NextItem);
      After(After(t, msg), back).f.selected == t.f.selected
  {}

  /** Where the highlight starts in a new list: on the first place of the path it was on, if the
      list has that path, and else at the top. */
  ghost predicate StartsAt(f: Finder, items: seq<string>, p: nat) {
    p < |items|
    && if f.selected < |f.candidates| && f.candidates[f.selected] in items
       then items[p] == f.candidates[f.selected] && forall i :: 0 <= i < p ==> items[i] != items[p]
       else p == 0
  }

  /** After a reply has landed, Accept behind k rows down attaches the path k rows below the
      highlight, or the last one, and closes the dialog. */
  lemma Picked(t: Talk, token: nat, reply: Reply, p: nat, k: nat)
    requires t.f.open && t.f.Lands(token) && StartsAt(t.f, reply.items, p)
    ensures var n := |reply.items|;
      var (f, effect) := Run(After(t, Candidates(token, reply)), Repeat(NextItem, k)).f.Update(Accept);
      effect == Some(Accepted(reply.items[if p + k < n then p + k else n - 1])) && !f.open
  {
    LandedAt(t, token, reply, p);
    MovedTo(After(t, Candidates(token, reply)), k, true);
  }

  lemma LandedAt(t: Talk, token: nat, reply: Reply, p: nat)
    requires t.f.open && t.f.Lands(token) && StartsAt(t.f, reply.items, p)
    ensures var f := After(t, Candidates(token, reply)).f;
      f.open && f.Asked() && f.candidates == reply.items && f.selected == p
  {}

  /** While the window has a height, the highlighted row is in it. */
  ghost predicate HighlightShown(f: Finder) {
    f.viewport > 0 && f.candidates != [] ==>
      f.selected < |f.candidates| && Shows(f.offset, f.selected, f.selected + 1, f.viewport)
  }

  lemma ReoffsetShown(f: Finder)
    requires f.candidates != [] ==> f.selected < |f.candidates|
    ensures HighlightShown(f.Reoffset())
  {
    if f.viewport > 0 && f.candidates != [] {
      OffsetShowsSelected(f.selected, f.offset, f.viewport, |f.candidates|);
    }
  }

  lemma HopShown(t: Talk, msg: Message, truth: (Path, string, Reply) -> bool)
    requires Inv(t, truth) && HighlightShown(t.f)
    ensures HighlightShown(After(t, msg).f)
  {
    var f := t.f;
    match msg {
      case Candidates(token, reply) => ReoffsetShown(Relisted(f, reply));
      case _ => MoveShown(f, msg);
    }
  }

  lemma MoveShown(f: Finder, msg: Message)
    requires (f.candidates != [] ==> f.selected < |f.candidates|) && HighlightShown(f) && !msg.Candidates?
    ensures HighlightShown(f.Hop(msg).0)
  {
    match msg {
      case NextItem =>
        if f.candidates != [] {
          ReoffsetShown(f.(selected := Min(f.selected + 1, |f.candidates| - 1)));
        }
      case PrevItem => ReoffsetShown(f.(selected := Minus(f.selected, 1)));
      case Resize(h) => ReoffsetShown(f.(viewport := h));
      case _ =>
    }
  }

  function Relisted(f: Finder, reply: Reply): Finder {
    f.(pending := None, answered := if f.pending.Some? then Some(f.pending.value.1) else None, error := reply.error,
       candidates := reply.items, selected := f.Highlight(reply.items))
  }

  /** After any run the highlighted row is in the window. */
  lemma {:induction false} HighlightStaysShown(t: Talk, msgs: seq<Message>, truth: (Path, string, Reply) -> bool)
    requires Inv(t, truth) && AllPossible(t, msgs, truth) && HighlightShown(t.f)
    ensures HighlightShown(Run(t, msgs).f)
    decreases |msgs|
  {
    if msgs != [] {
      HopInv(t, msgs[0], truth);
      HopShown(t, msgs[0], truth);
      HighlightStaysShown(After(t, msgs[0]), msgs[1..], truth);
    }
  }

  // What the query becomes -----------------------------------------------------------------------------

  function Typing(s: string): (r: seq<Message>)
    ensures |r| == |s|
  {
    seq(|s|, i requires 0 <= i < |s| => Message.Input(s[i]))
  }

  /** Typed text is put behind the query. */
  lemma {:induction false} QueryTyped(t: Talk, s: string)
    requires t.f.open
    ensures var f := Run(t, Typing(s)).f; f.open && f.query == t.f.query + s
    decreases |s|
  {
    if s == [] {
      assert t.f.query + s == t.f.query;
    } else {
      assert Typing(s) == [Message.Input(s[0])] + Typing(s[1..]);
      RunCons(t, Message.Input(s[0]), Typing(s[1..]), (dir, query, reply) => true);
      QueryTyped(After(t, Message.Input(s[0])), s[1..]);
      assert t.f.query + [s[0]] + s[1..] == t.f.query + s;
    }
  }

  /** Backspace takes as many characters off its end. */
  lemma {:induction false} QueryErased(t: Talk, k: nat)
    requires t.f.open
    ensures var f := Run(t, Repeat(Message.Backspace, k)).f;
      f.open && f.query == if k <= |t.f.query| then t.f.query[..|t.f.query| - k] else []
    decreases k
  {
    if k > 0 {
      RepeatCons(t, Message.Backspace, k);
      QueryErased(After(t, Message.Backspace), k - 1);
    }
  }

  lemma {:induction false} FirstLineIs(line: string, rest: string)
    requires '\n' !in line && (rest != [] ==> rest[0] == '\n')
    ensures FirstLine(line + rest) == line
  {
    if line == [] {
      assert line + rest == rest;
    } else {
      assert (line + rest)[1..] == line[1..] + rest;
      FirstLineIs(line[1..], rest);
    }
  }

  /** A paste adds its first line without the white space around it; ClearQuery drops all. */
  lemma QueryPasted(t: Talk, lead: string, x: string, trail: string, rest: string)
    requires t.f.open && AllSpace(lead) && AllSpace(trail) && Trimmed(x)
    requires '\n' !in lead + x + trail && (rest != [] ==> rest[0] == '\n')
    ensures After(t, Message.Paste(lead + x + trail + rest)).f.query == t.f.query + x
    ensures After(t, ClearQuery).f.query == []
  {
    FirstLineIs(lead + x + trail, rest);
    TrimAround(lead, x, trail);
  }

  // The dialog ---------------------------------------------------------------------------------------

  class AttachFinder {
    var open: bool
    var dir: Path
    var query: string
    var candidates: seq<string>
    var error: Option<string>
    var pending: Option<(nat, string)>
    var answered: Option<string>
    var requests: nat
    var selected: nat
    var offset: nat
    var viewportHeight: nat

    ghost function Value(): Finder
      reads this
    {
      Finder(open, dir, query, candidates, error, pending, answered, requests, selected, offset, viewportHeight)
    }

    constructor ()
      ensures Value() == CLOSED
    {
      open, dir, query, candidates, error := false, [], [], [], None;
      pending, answered, requests, selected, offset, viewportHeight := None, None, 0, 0, 0, 0;
    }

    method OpenAt(root: Path)
      modifies this
      ensures Value() == old(Value()).Update(Message.Open(root)).0
    {
      open := true;
      Reroot(root);
    }

    method Reroot(root: Path)
      modifies this
      ensures Value() == old(Value()).Reroot(root)
    {
      dir := ComputeNormalize(root);
      query, candidates, error := [], [], None;
      pending, answered, selected, offset := None, None, 0, 0;
    }

    method Shut()
      modifies this`open, this`pending
      ensures Value() == old(Value()).Shut()
    {
      open := false;
      pending := None;
    }

    method NextRequest() returns (request: Option<Request>)
      modifies this`requests, this`pending
      ensures (Value(), request) == old(Value()).Sync()
    {
      if !open {
        return None;
      }
      if (pending.Some? && pending.value.1 == query) || answered == Some(query) {
        return None;
      }
      var token := requests;
      requests := requests + 1;
      pending := Some((token, query));
      return Some(Request(token, dir, query));
    }

    method SetCandidates(token: nat, reply: Reply)
      modifies this
      ensures Value() == old(Value()).SetCandidates(token, reply)
    {
      if pending.None? {
        return;
      }
      var (request, asked) := pending.value;
      if request != token {
        return;
      }
      pending := None;
      answered := Some(asked);
      error := reply.error;
      var previous := if selected < |candidates| then Some(candidates[selected]) else None;
      candidates := reply.items;
      selected := 0;
      if previous.Some? {
        var p := Position(candidates, previous.value);
        if p.Some? {
          selected := p.value;
        }
      }
      RecomputeOffset();
    }

    method RecomputeOffset()
      modifies this`offset
      ensures Value() == old(Value()).Reoffset()
    {
      offset := OffsetFor(selected, offset, viewportHeight, |candidates|);
    }

    method Update(msg: Message) returns (effect: Option<Effect>)
      requires !msg.Open? && !msg.SetRoot?
      modifies this
      ensures (Value(), effect) == old(Value()).Update(msg)
    {
      effect := None;
      if !open && !msg.Close? {
        return;
      }
      match msg {
        case Input(ch) => query := query + [ch];
        case Paste(text) => query := query + Trim(FirstLine(text));
        case Backspace =>
          if query != [] {
            query := query[..|query| - 1];
          }
        case ClearQuery => query := [];
        case EditDir => effect := Some(EditDirectory);
        case NextItem =>
          if candidates != [] {
            selected := Min(selected + 1, |candidates| - 1);
            RecomputeOffset();
          }
        case PrevItem =>
          if candidates != [] {
            selected := Minus(selected, 1);
            RecomputeOffset();
          }
        case Accept =>
          if selected < |candidates| {
            effect := Some(Accepted(candidates[selected]));
            Shut();
          }
        case Close =>
          Shut();
          effect := Some(Closed);
        case Candidates(token, reply) => SetCandidates(token, reply);
        case Resize(h) =>
          viewportHeight := h;
          RecomputeOffset();
        case Swallow =>
      }
    }

    /** The app's handling of one message: the dialog's update, then the request it owes. */
    method Hop(msg: Message) returns (effect: Option<Effect>, request: Option<Request>)
      modifies this
      ensures (Value(), request) == old(Value()).Hop(msg) && effect == old(Value()).Update(msg).1
    {
      if msg.Open? {
        OpenAt(msg.root);
        effect := None;
      } else if msg.SetRoot? {
        Reroot(msg.root);
        effect := None;
      } else {
        effect := Update(msg);
      }
      request := NextRequest();
    }
  }
}
