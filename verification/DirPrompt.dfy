/**
 The directory prompt beside the attachment picker: one line of text, and the core's hints for
 it, which stay on show while the text is edited further.
 */
module DirPrompt {
  import opened Pastes
  import opened Editor
  import opened InputBuffer
  import opened Whitespace
  import opened Scroll
  import Seqs

  /** `flatten_newlines`. */
  function FlattenNewlines(s: string): (r: string)
    ensures '\n' !in r && '\r' !in r
  {
    if s == [] then []
    else if |s| >= 2 && s[0] == '\r' && s[1] == '\n' then [' '] + FlattenNewlines(s[2..])
    else [if s[0] == '\r' || s[0] == '\n' then ' ' else s[0]] + FlattenNewlines(s[1..])
  }

  lemma {:induction false} FlattenClean(s: string)
    requires Clean(s)
    ensures Clean(FlattenNewlines(s))
  {
    if s == [] {
    } else if |s| >= 2 && s[0] == '\r' && s[1] == '\n' {
      FlattenClean(s[2..]);
    } else {
      FlattenClean(s[1..]);
    }
  }

  datatype Request = Request(token: nat, path: string)

  datatype Message =
    | Input(c: char)
    | Paste(text: string)
    | Backspace
    | Delete
    | Left
    | Right
    | LeftWord
    | RightWord
    | Home
    | End
    | NextHint
    | PrevHint
    | AcceptHint
    | Submit
    | Cancel
    | Hints(token: nat, items: seq<string>)
    // The app's own calls: open on a directory, refuse what was submitted, or close.
    | Open(current: string)
    | Reject(reason: string)
    | Close
  {
    predicate IsMotion() {
      Left? || Right? || LeftWord? || RightWord? || Home? || End?
    }

    /** No text brought in holds a private-use marker character. */
    predicate Plain() {
      && (Input? ==> !IsMarker(c)) && (Paste? ==> Clean(text)) && (Open? ==> Clean(current))
      && (Hints? ==> forall i :: 0 <= i < |items| ==> Clean(items[i]))
    }
  }

  datatype Effect = Submitted(dir: string, hint: Option<string>) | Closed

  /** The prompt as a value. */
  datatype Prompt = Prompt(
    open: bool,
    line: Doc,
    error: Option<string>,
    hints: seq<string>,
    selected: nat,
    pending: Option<(nat, string)>,
    answered: Option<string>,
    requests: nat)
  {
    predicate Valid() {
      line.Valid()
    }

    function Typed(): string {
      Expand(line.atoms)
    }

    function Opened(current: string): Prompt {
      this.(open := true, line := Doc(Chars(current), |current|), error := None,
            hints := [], selected := 0, pending := None, answered := None)
    }

    function Shut(): Prompt {
      this.(open := false, line := Doc([], 0), error := None,
            hints := [], selected := 0, pending := None, answered := None)
    }

    /** The current text was asked already: it is in flight, or answered. */
    predicate Asked() {
      (pending.Some? && pending.value.1 == Typed()) || answered == Some(Typed())
    }

    function Sync(): (Prompt, Option<Request>) {
      if !open || Asked() then (this, None)
      else (this.(requests := requests + 1, pending := Some((requests, Typed()))), Some(Request(requests, Typed())))
    }

    predicate Lands(token: nat) {
      open && pending.Some? && pending.value.0 == token
    }

    function SetHints(token: nat, items: seq<string>): Prompt {
      if !(pending.Some? && pending.value.0 == token) then this
      else this.(pending := None, answered := Some(pending.value.1), hints := items, selected := 0)
    }

    function Highlighted(): Option<string> {
      if selected < |hints| then Some(hints[selected]) else None
    }

    function Edited(line: Doc): Prompt {
      this.(line := line, error := None)
    }

    function Moved(msg: Message): Doc
      requires Valid() && msg.IsMotion()
    {
      match msg
      case Left => line.Left()
      case Right => line.Right()
      case LeftWord => line.LeftWord()
      case RightWord => line.RightWord()
      case Home => line.Home()
      case End => line.End()
    }

    function Update(msg: Message): (Prompt, Option<Effect>)
      requires Valid()
    {
      if msg.Open? then (Opened(msg.current), None)
      else if msg.Close? then (Shut(), None)
      else if msg.Reject? then (this.(error := Some(msg.reason)), None)
      else if !open then (this, None)
      else if msg.IsMotion() then (this.(line := Moved(msg)), None)
      else
        match msg
        case Input(c) => (Edited(line.Insert(None, [Char(c)])), None)
        case Paste(text) => (Edited(line.Insert(None, Chars(FlattenNewlines(text)))), None)
        case Backspace => (Edited(line.Backspace(None)), None)
        case Delete => (Edited(line.Delete(None)), None)
        case NextHint => (if hints == [] then this else this.(selected := Min(selected + 1, |hints| - 1)), None)
        case PrevHint => (this.(selected := Scroll.Minus(selected, 1)), None)
        case AcceptHint =>
          (match Highlighted()
           case Some(hint) => Edited(Doc(Chars(hint), |hint|)).(selected := 0)
           case None => this, None)
        case Submit =>
          if Trim(Typed()) == "" then (Shut(), Some(Closed)) else (this, Some(Submitted(Trim(Typed()), Highlighted())))
        case Cancel => (Shut(), Some(Closed))
        case Hints(token, items) => (SetHints(token, items), None)
    }

    /** One app hop: the message, then the request it may owe. */
    function Hop(msg: Message): (Prompt, Option<Request>)
      requires Valid()
    {
      Update(msg).0.Sync()
    }
  }

  const CLOSED := Prompt(false, Doc([], 0), None, [], 0, None, None, 0)

  // The conversation -----------------------------------------------------------------------------

  /** The prompt, every request sent so far (its token is its place), and how many of them were
      sent before the prompt was last opened. */
  datatype Talk = Talk(p: Prompt, sent: seq<Request>, left: nat)

  const START := Talk(CLOSED, [], 0)

  function After(t: Talk, msg: Message): Talk
    requires t.p.Valid()
  {
    var (p, request) := t.p.Hop(msg);
    Talk(p, if request.Some? then t.sent + [request.value] else t.sent,
         if msg.Open? then |t.sent| else t.left)
  }

  /** The core only answers what was asked, and says the truth about it. */
  ghost predicate Possible(t: Talk, msg: Message, truth: (string, seq<string>) -> bool) {
    msg.Hints? ==> msg.token < |t.sent| && truth(t.sent[msg.token].path, msg.items)
  }

  ghost predicate AllPossible(t: Talk, msgs: seq<Message>, truth: (string, seq<string>) -> bool)
    requires t.p.Valid()
    decreases |msgs|
  {
    msgs == []
    || (Possible(t, msgs[0], truth)
        && (HopValid(t.p, msgs[0]); AllPossible(After(t, msgs[0]), msgs[1..], truth)))
  }

  ghost function Run(t: Talk, msgs: seq<Message>): Talk
    requires t.p.Valid()
    decreases |msgs|
  {
    if msgs == [] then t else HopValid(t.p, msgs[0]); Run(After(t, msgs[0]), msgs[1..])
  }

  lemma HopValid(p: Prompt, msg: Message)
    requires p.Valid()
    ensures p.Update(msg).0.Valid() && p.Hop(msg).0.Valid()
  {}

  /** What holds after every hop. */
  ghost predicate Inv(t: Talk, truth: (string, seq<string>) -> bool) {
    var p := t.p;
    && p.Valid() && t.left <= |t.sent| == p.requests
    && (forall i :: 0 <= i < |t.sent| ==> t.sent[i].token == i)
    // The awaited request is the last one sent, and it was sent since the prompt was opened.
    && (p.pending.Some? ==>
          t.left < |t.sent| && p.pending.value == (|t.sent| - 1, t.sent[|t.sent| - 1].path))
    // What is on show is the core's answer to the answered text.
    && (match p.answered
        case None => p.hints == []
        case Some(text) => truth(text, p.hints))
    && (p.hints == [] || p.selected < |p.hints|)
    && (p.open ==> p.Asked())
    && (!p.open ==> p.pending == None && p.answered == None)
    // The last text asked is awaited or answered, while the prompt is open.
    && (p.open && t.left < |t.sent| ==>
          p.pending.Some? || p.answered == Some(t.sent[|t.sent| - 1].path))
  }

  /** What holds between the prompt's update and the request it owes. */
  ghost predicate Ready(sent: seq<Request>, p: Prompt, left: nat, truth: (string, seq<string>) -> bool) {
    && p.Valid() && left <= |sent| == p.requests
    && (forall i :: 0 <= i < |sent| ==> sent[i].token == i)
    && (p.pending.Some? ==> left < |sent| && p.pending.value == (|sent| - 1, sent[|sent| - 1].path))
    && (match p.answered
        case None => p.hints == []
        case Some(text) => truth(text, p.hints))
    && (p.hints == [] || p.selected < |p.hints|)
    && (!p.open ==> p.pending == None && p.answered == None)
    && (p.open && left < |sent| ==> p.pending.Some? || p.answered == Some(sent[|sent| - 1].path))
  }

  lemma SyncInv(sent: seq<Request>, p: Prompt, left: nat, truth: (string, seq<string>) -> bool)
    requires Ready(sent, p, left, truth)
    ensures var (q, request) := p.Sync();
      Inv(Talk(q, if request.Some? then sent + [request.value] else sent, left), truth)
  {}

  lemma AppReady(t: Talk, msg: Message, truth: (string, seq<string>) -> bool)
    requires Inv(t, truth) && (msg.Open? || msg.Close? || msg.Reject?)
    ensures Ready(t.sent, t.p.Update(msg).0, if msg.Open? then |t.sent| else t.left, truth)
  {}

  lemma HintsReady(t: Talk, msg: Message, truth: (string, seq<string>) -> bool)
    requires Inv(t, truth) && Possible(t, msg, truth) && msg.Hints?
    ensures Ready(t.sent, t.p.Update(msg).0, t.left, truth)
  {}

  lemma OtherReady(t: Talk, msg: Message, truth: (string, seq<string>) -> bool)
    requires Inv(t, truth) && !msg.Hints? && !msg.Open? && !msg.Close? && !msg.Reject?
    ensures Ready(t.sent, t.p.Update(msg).0, t.left, truth)
  {}

  lemma HopInv(t: Talk, msg: Message, truth: (string, seq<string>) -> bool)
    requires Inv(t, truth) && Possible(t, msg, truth)
    ensures Inv(After(t, msg), truth)
  {
    if msg.Hints? {
      HintsReady(t, msg, truth);
    } else if msg.Open? || msg.Close? || msg.Reject? {
      AppReady(t, msg, truth);
    } else {
      OtherReady(t, msg, truth);
    }
    SyncInv(t.sent, t.p.Update(msg).0, if msg.Open? then |t.sent| else t.left, truth);
  }

  lemma {:induction false} RunInv(t: Talk, msgs: seq<Message>, truth: (string, seq<string>) -> bool)
    requires Inv(t, truth) && AllPossible(t, msgs, truth)
    ensures Inv(Run(t, msgs), truth)
    decreases |msgs|
  {
    if msgs != [] {
      HopInv(t, msgs[0], truth);
      RunInv(After(t, msgs[0]), msgs[1..], truth);
    }
  }

  /** However late, reordered, repeated or lost the replies, and however the text is edited or
      completed meanwhile: the hints on show are the core's answer for the answered text, one of
      them is highlighted if there are any, and an open prompt has its text in flight or
      answered. */
  lemma HintsAreAnswered(msgs: seq<Message>, truth: (string, seq<string>) -> bool)
    requires AllPossible(START, msgs, truth)
    ensures var p := Run(START, msgs).p;
      && (p.answered.Some? ==> truth(p.answered.value, p.hints))
      && (p.answered.None? ==> p.hints == [])
      && (p.Highlighted().Some? <==> p.hints != [])
      && (p.open ==> (p.pending.Some? && p.pending.value.1 == p.Typed()) || p.answered == Some(p.Typed()))
  {
    RunInv(START, msgs, truth);
  }

  /** A reply to any request but the last one, or to one sent before the prompt was opened,
      changes nothing. */
  lemma StaleHintsDrop(t: Talk, token: nat, items: seq<string>, truth: (string, seq<string>) -> bool)
    requires Inv(t, truth) && (token + 1 < |t.sent| || token < t.left)
    ensures After(t, Hints(token, items)) == t
  {}

  /** Completing the highlighted hint makes it the text; the hints stay until the core answers
      for it, which it is asked to unless it was asked already. */
  lemma AcceptAsks(t: Talk, truth: (string, seq<string>) -> bool)
    requires Inv(t, truth) && t.p.open && t.p.hints != []
    ensures var t' := After(t, AcceptHint); var hint := t.p.hints[t.p.selected];
      && t'.p.Typed() == hint && t'.p.hints == t.p.hints && t'.p.Highlighted() == Some(t.p.hints[0])
      && (t'.sent == t.sent || t'.sent == t.sent + [Request(|t.sent|, hint)])
      && ((t.p.pending.Some? && t.p.pending.value.1 == hint) || t.p.answered == Some(hint) <==> t'.sent == t.sent)
  {
    var hint := t.p.hints[t.p.selected];
    ExpandChars(hint);
  }

  /** What Enter falls back to when the text names no directory is a hint for the answered text;
      where that is an older text, the typed one is in flight. */
  lemma SubmittedHint(t: Talk, truth: (string, seq<string>) -> bool)
    requires Inv(t, truth) && t.p.open && Trim(t.p.Typed()) != "" && t.p.hints != []
    ensures var (p, effect) := t.p.Update(Submit);
      && effect == Some(Submitted(Trim(t.p.Typed()), Some(t.p.hints[t.p.selected])))
      && t.p.answered.Some? && truth(t.p.answered.value, t.p.hints)
      && (t.p.answered != Some(t.p.Typed()) ==> t.p.pending.Some? && t.p.pending.value.1 == t.p.Typed())
  {}

  /** How many more replies have to land before the hints answer the text. */
  function Owed(p: Prompt): nat {
    if p.pending.None? then 0 else if p.pending.value.1 == p.Typed() then 1 else 2
  }

  /** The messages once editing has stopped. */
  predicate Quiet(msg: Message) {
    msg.Hints? || msg.NextHint? || msg.PrevHint? || msg.IsMotion()
  }

  function Landed(t: Talk, msgs: seq<Message>): nat
    requires t.p.Valid()
    decreases |msgs|
  {
    if msgs == [] then 0
    else
      HopValid(t.p, msgs[0]);
      (if msgs[0].Hints? && t.p.Lands(msgs[0].token) then 1 else 0) + Landed(After(t, msgs[0]), msgs[1..])
  }

  lemma QuietStep(t: Talk, msg: Message, truth: (string, seq<string>) -> bool)
    requires Inv(t, truth) && Possible(t, msg, truth) && t.p.open && Quiet(msg)
    ensures var t' := After(t, msg);
      && t'.p.open && t'.p.Typed() == t.p.Typed()
      && Owed(t'.p) == (if msg.Hints? && t.p.Lands(msg.token) then Owed(t.p) - 1 else Owed(t.p))
  {}

  /** Once edits stop, at most two replies have to land before the hints answer the text. */
  lemma {:induction false} HintsSettle(t: Talk, msgs: seq<Message>, truth: (string, seq<string>) -> bool)
    requires Inv(t, truth) && AllPossible(t, msgs, truth) && t.p.open
    requires forall i :: 0 <= i < |msgs| ==> Quiet(msgs[i])
    ensures var p := Run(t, msgs).p;
      && Owed(p) + Landed(t, msgs) == Owed(t.p) <= 2 && p.open && p.Typed() == t.p.Typed()
      && (Landed(t, msgs) == Owed(t.p) ==> p.answered == Some(p.Typed()) && truth(p.Typed(), p.hints))
    decreases |msgs|
  {
    if msgs != [] {
      HopInv(t, msgs[0], truth);
      QuietStep(t, msgs[0], truth);
      HintsSettle(After(t, msgs[0]), msgs[1..], truth);
    }
  }

  /** A run in which Enter falls back to a hint for an older text: `a` is hinted `ab/`, `x` is
      typed, and Enter comes before the core's answer for `ax`. */
  lemma OldHintSubmitted(truth: (string, seq<string>) -> bool) returns (msgs: seq<Message>)
    requires truth("a", ["ab/"])
    ensures AllPossible(START, msgs, truth)
    ensures var p := Run(START, msgs).p;
      p.Valid() && p.answered == Some("a") && p.Update(Submit).1 == Some(Submitted("ax", Some("ab/")))
  {
    var m1, m2, m3 := Message.Open("a"), Hints(0, ["ab/"]), Message.Input('x');
    var t1 := After(START, m1);
    var t2 := After(t1, m2);
    var t3 := After(t2, m3);
    msgs := [m1] + ([m2] + ([m3] + []));
    RunCons(START, m1, [m2] + ([m3] + []), truth);
    RunCons(t1, m2, [m3] + [], truth);
    RunCons(t2, m3, [], truth);
    AskedFor(t1);
    TypedMore(t2, t3);
  }

  lemma RunCons(t: Talk, msg: Message, rest: seq<Message>, truth: (string, seq<string>) -> bool)
    requires t.p.Valid()
    ensures After(t, msg).p.Valid()
    ensures Run(t, [msg] + rest) == Run(After(t, msg), rest)
    ensures AllPossible(t, [msg] + rest, truth) <==> Possible(t, msg, truth) && AllPossible(After(t, msg), rest, truth)
  {
    HopValid(t.p, msg);
    assert ([msg] + rest)[1..] == rest;
  }

  lemma AskedFor(t: Talk)
    requires t == After(START, Message.Open("a"))
    ensures t.p == CLOSED.(open := true, line := Doc(Chars("a"), 1), pending := Some((0, "a")), requests := 1)
    ensures t.sent == [Request(0, "a")]
  {
    ExpandChars("a");
  }

  lemma TypedMore(t: Talk, t': Talk)
    requires t.p == CLOSED.(open := true, line := Doc(Chars("a"), 1), hints := ["ab/"], answered := Some("a"),
                            requests := 1)
    requires t' == After(t, Message.Input('x'))
    ensures t'.p.answered == Some("a") && t'.p.Update(Submit).1 == Some(Submitted("ax", Some("ab/")))
  {
    assert Chars("a")[..1] + [Char('x')] + Chars("a")[1..] == Chars("ax");
    ExpandChars("ax");
    TrimIff("ax");
  }

  // What the keys do ---------------------------------------------------------------------------------

  /** When a message hands something to the app, what, and when the prompt is open after it. */
  lemma EffectIff(p: Prompt, msg: Message)
    requires p.Valid()
    ensures var (q, effect) := p.Update(msg); var blank := p.open && msg.Submit? && Trim(p.Typed()) == "";
      && (effect == Some(Closed) <==> (p.open && msg.Cancel?) || blank)
      && (effect.Some? && effect.value.Submitted? <==> p.open && msg.Submit? && !blank)
      && (q.open <==> msg.Open? || (p.open && !msg.Close? && !msg.Cancel? && !blank))
      && (!q.open && (msg.Close? || p.open) ==> q.line == Doc([], 0) && q.hints == [])
      && q.error == (if msg.Reject? then Some(msg.reason)
                     else if msg.Open? || msg.Close? || (p.open && !q.open) then None
                     else if p.open && (msg.Input? || msg.Paste? || msg.Backspace? || msg.Delete?) then None
                     else if p.open && msg.AcceptHint? && p.Highlighted().Some? then None
                     else p.error)
  {}

  /** Opening the prompt shows the given directory with the cursor behind it, and asks for its
      hints. */
  lemma OpenAsks(t: Talk, current: string, truth: (string, seq<string>) -> bool)
    requires Inv(t, truth)
    ensures var t' := After(t, Message.Open(current));
      && t'.p.open && t'.p.Typed() == current && t'.p.line == Doc(Chars(current), |current|)
      && t'.p.hints == [] && t'.p.error == None && t'.p.answered == None
      && t'.sent == t.sent + [Request(|t.sent|, current)]
  {
    ExpandChars(current);
  }

  lemma {:induction false} HintsMoved(t: Talk, k: nat, down: bool)
    requires t.p.Valid() && t.p.open && t.p.Asked() && t.p.selected < |t.p.hints|
    ensures var u := Run(t, Repeat(if down then NextHint else PrevHint, k));
      && u.p == t.p.(selected := u.p.selected) && u.sent == t.sent
      && u.p.selected == if down then (if t.p.selected + k < |t.p.hints| then t.p.selected + k else |t.p.hints| - 1)
                         else if k <= t.p.selected then t.p.selected - k else 0
    decreases k
  {
    if k > 0 {
      var msg := if down then NextHint else PrevHint;
      RepeatCons(t, msg, k);
      HintMoved(t, down);
      HintsMoved(After(t, msg), k - 1, down);
    }
  }

  lemma HintMoved(t: Talk, down: bool)
    requires t.p.Valid() && t.p.open && t.p.Asked() && t.p.selected < |t.p.hints|
    ensures var at := t.p.selected;
      var to := if down then (if at + 1 < |t.p.hints| then at + 1 else at) else if at > 0 then at - 1 else 0;
      After(t, if down then NextHint else PrevHint) == t.(p := t.p.(selected := to))
  {}

  lemma RepeatCons(t: Talk, msg: Message, k: nat)
    requires t.p.Valid() && k > 0
    ensures After(t, msg).p.Valid() && Run(t, Repeat(msg, k)) == Run(After(t, msg), Repeat(msg, k - 1))
  {
    assert Repeat(msg, k) == [msg] + Repeat(msg, k - 1);
    RunCons(t, msg, Repeat(msg, k - 1), (path, items) => true);
  }

  function Repeat(msg: Message, k: nat): (r: seq<Message>)
    ensures |r| == k
  {
    seq(k, i requires 0 <= i < k => msg)
  }

  /** After a reply has landed, k rows down is the hint of that number, or the last one: completing
      makes it the text. */
  lemma HintPicked(t: Talk, token: nat, items: seq<string>, k: nat)
    requires t.p.Valid() && t.p.open && t.p.Lands(token) && items != []
    ensures After(t, Hints(token, items)).p.Valid()
    ensures var u := Run(After(t, Hints(token, items)), Repeat(NextHint, k));
      var hint := items[if k < |items| then k else |items| - 1];
      && u.p.Valid() && u.p.Highlighted() == Some(hint)
      && u.p.Update(AcceptHint).0.Typed() == hint
      && u.p.Update(AcceptHint).0.line.pos == |hint|
  {
    var t' := After(t, Hints(token, items));
    HintsLanded(t, token, items);
    HintsMoved(t', k, true);
    Completes(Run(t', Repeat(NextHint, k)).p);
  }

  lemma HintsLanded(t: Talk, token: nat, items: seq<string>)
    requires t.p.Valid() && t.p.open && t.p.Lands(token)
    ensures var p := After(t, Hints(token, items)).p;
      p.Valid() && p.open && p.Asked() && p.hints == items && p.selected == 0
  {}

  lemma Completes(p: Prompt)
    requires p.Valid() && p.open && p.selected < |p.hints|
    ensures var q := p.Update(AcceptHint).0;
      q.Typed() == p.hints[p.selected] && q.line.pos == |p.hints[p.selected]|
  {
    ExpandChars(p.hints[p.selected]);
  }

  /** What editing does to a line a + b with the cursor between the two. */
  lemma LineEdited(p: Prompt, a: string, b: string, c: char, text: string)
    requires p.open && p.line == Doc(Chars(a + b), |a|)
    ensures p.Update(Message.Input(c)).0.line == Doc(Chars(a + [c] + b), |a| + 1)
    ensures var flat := FlattenNewlines(text);
      p.Update(Message.Paste(text)).0.line == Doc(Chars(a + flat + b), |a| + |flat|)
    ensures p.Update(Message.Backspace).0.line
         == if a == [] then p.line else Doc(Chars(a[..|a| - 1] + b), |a| - 1)
    ensures p.Update(Message.Delete).0.line == if b == [] then p.line else Doc(Chars(a + b[1..]), |a|)
  {
    SplitLine(a, b);
    InsertedLine(p.line, a, b, [c]);
    InsertedLine(p.line, a, b, FlattenNewlines(text));
    assert Chars([c]) == [Char(c)];
  }

  lemma SplitLine(a: string, b: string)
    ensures Chars(a + b)[..|a|] == Chars(a) && Chars(a + b)[|a|..] == Chars(b)
    ensures a != [] ==> Chars(a + b)[..|a| - 1] + Chars(a + b)[|a|..] == Chars(a[..|a| - 1] + b)
    ensures b != [] ==> Chars(a + b)[..|a|] + Chars(a + b)[|a| + 1..] == Chars(a + b[1..])
  {}

  lemma InsertedLine(line: Doc, a: string, b: string, x: string)
    requires line == Doc(Chars(a + b), |a|)
    ensures line.Insert(None, Chars(x)) == Doc(Chars(a + x + b), |a| + |x|)
  {
    SplitLine(a, b);
    assert Chars(a) + Chars(x) + Chars(b) == Chars(a + x + b);
  }

  /** Where each motion takes the position in the line; the text stays. */
  lemma LineMoved(p: Prompt, msg: Message) returns (m: nat, n: nat)
    requires p.Valid() && p.open && msg.IsMotion()
    ensures var e, atoms := p.Update(msg).0, p.line.atoms;
      && e == p.(line := Doc(atoms, e.line.pos))
      && (msg.Left? ==> e.line.pos == if p.line.pos == 0 then 0 else p.line.pos - 1)
      && (msg.Right? ==> e.line.pos == if p.line.pos == |atoms| then p.line.pos else p.line.pos + 1)
      && (msg.Home? ==> LineStartAt(atoms, p.line.pos, e.line.pos))
      && (msg.End? ==> LineEndAt(atoms, p.line.pos, e.line.pos))
      && (msg.LeftWord? ==> WordBefore(atoms, p.line.pos, e.line.pos, m))
      && (msg.RightWord? ==> WordBehind(atoms, p.line.pos, e.line.pos, n))
  {
    m, n := MotionsLand(p.line);
  }

  /** A pasted text comes in on one line: a space for each newline of the normalized text. */
  lemma {:induction false} FlattenIs(s: string)
    ensures var t := NormalizeNewlines(s);
      && |FlattenNewlines(s)| == |t|
      && forall i :: 0 <= i < |t| ==> FlattenNewlines(s)[i] == if t[i] == '\n' then ' ' else t[i]
  {
    if s == [] {
    } else if |s| >= 2 && s[0] == '\r' && s[1] == '\n' {
      FlattenIs(s[2..]);
    } else {
      FlattenIs(s[1..]);
    }
  }

  // The dialog ---------------------------------------------------------------------------------------

  /** No atom is a chip. */
  ghost predicate Plain(d: Doc) {
    forall i :: 0 <= i < |d.atoms| ==> d.atoms[i].Char?
  }

  class DirPrompt {
    var open: bool
    const buffer: InputBuffer
    var error: Option<string>
    var hints: seq<string>
    var selected: nat
    var pending: Option<(nat, string)>
    var answered: Option<string>
    var requests: nat

    /** The line is in order, nothing is selected in it and it holds no chips. */
    ghost predicate Valid()
      reads this, buffer
    {
      buffer.Valid() && buffer.anchor == None && Plain(buffer.Model())
      && forall i :: 0 <= i < |hints| ==> Clean(hints[i])
    }

    ghost function Value(): (p: Prompt)
      reads this, buffer
      ensures p.Valid()
    {
      Prompt(open, buffer.Model(), error, hints, selected, pending, answered, requests)
    }

    lemma TypedIsValue()
      requires Valid()
      ensures Value().Typed() == buffer.value
    {
      forall i | 0 <= i < |buffer.value| ensures !IsMarker(buffer.value[i]) {
        assert buffer.Model().atoms[i].Char?;
      }
      CleanAtoms(buffer.value, buffer.pastes);
      ExpandChars(buffer.value);
    }

    constructor (cw: char -> nat)
      ensures Valid() && fresh(buffer) && Value() == CLOSED
    {
      buffer := new InputBuffer(cw);
      open, error, hints, selected, pending, answered, requests := false, None, [], 0, None, None, 0;
    }

    method OpenAt(current: string)
      requires Clean(current)
      modifies this, buffer
      ensures Valid() && Value() == old(Value()).Opened(current)
    {
      open := true;
      buffer.Set(current);
      error, hints, selected, pending, answered := None, [], 0, None, None;
    }

    method Shut()
      modifies this, buffer
      ensures Valid() && Value() == old(Value()).Shut()
    {
      open := false;
      buffer.Clear();
      error, hints, selected, pending, answered := None, [], 0, None, None;
    }

    method HintsRequest() returns (request: Option<Request>)
      requires Valid()
      modifies this`requests, this`pending
      ensures Valid() && (Value(), request) == old(Value()).Sync()
    {
      if !open {
        return None;
      }
      TypedIsValue();
      var typed := buffer.value;
      if (pending.Some? && pending.value.1 == typed) || answered == Some(typed) {
        return None;
      }
      var token := requests;
      requests := requests + 1;
      pending := Some((token, typed));
      return Some(Request(token, typed));
    }

    method SetHints(token: nat, items: seq<string>)
      requires Valid() && forall i :: 0 <= i < |items| ==> Clean(items[i])
      modifies this`pending, this`answered, this`hints, this`selected
      ensures Valid() && Value() == old(Value()).SetHints(token, items)
    {
      if pending.None? || pending.value.0 != token {
        return;
      }
      answered := Some(pending.value.1);
      pending := None;
      hints, selected := items, 0;
    }

    method Insert(text: string)
      requires Valid() && open && Clean(text)
      modifies this`error, buffer
      ensures Valid() && Value() == old(Value()).Edited(old(buffer.Model()).Insert(None, Chars(text)))
    {
      buffer.InsertStr(text);
      error := None;
    }

    method Backspace()
      requires Valid() && open
      modifies this`error, buffer
      ensures Valid() && Value() == old(Value()).Edited(old(buffer.Model()).Backspace(None))
    {
      buffer.Backspace();
      error := None;
    }

    method Delete()
      requires Valid() && open
      modifies this`error, buffer
      ensures Valid() && Value() == old(Value()).Edited(old(buffer.Model()).Delete(None))
    {
      buffer.Delete();
      error := None;
    }

    /** Typing, pasting and deleting on the line. */
    method Edit(msg: Message)
      requires Valid() && open && msg.Plain()
      requires msg.Input? || msg.Paste? || msg.Backspace? || msg.Delete?
      modifies this`error, buffer
      ensures Valid() && Value() == old(Value()).Update(msg).0
    {
      match msg {
        case Input(c) =>
          assert Chars([c]) == [Char(c)];
          Insert([c]);
        case Paste(text) =>
          FlattenClean(text);
          Insert(FlattenNewlines(text));
        case Backspace => Backspace();
        case Delete => Delete();
      }
    }

    method Move(msg: Message)
      requires Valid() && open && msg.IsMotion()
      modifies buffer
      ensures Valid() && Value() == old(Value()).Update(msg).0
    {
      match msg {
        case Left => buffer.Left();
        case Right => buffer.Right();
        case LeftWord => buffer.LeftWord();
        case RightWord => buffer.RightWord();
        case Home => buffer.Home();
        case End => buffer.End();
      }
    }

    method Complete()
      requires Valid() && open
      modifies this`error, this`selected, buffer
      ensures Valid() && Value() == old(Value()).Update(AcceptHint).0
    {
      if selected < |hints| {
        buffer.Set(hints[selected]);
        error, selected := None, 0;
      }
    }

    method SubmitLine() returns (effect: Option<Effect>)
      requires Valid() && open
      modifies this, buffer
      ensures Valid() && (Value(), effect) == old(Value()).Update(Submit)
    {
      TypedIsValue();
      var dir := Trim(buffer.value);
      if dir == "" {
        Shut();
        return Some(Closed);
      }
      var hint := if selected < |hints| then Some(hints[selected]) else None;
      return Some(Submitted(dir, hint));
    }

    method Update(msg: Message) returns (effect: Option<Effect>)
      requires Valid() && msg.Plain() && !msg.Open? && !msg.Reject? && !msg.Close?
      modifies this, buffer
      ensures Valid() && (Value(), effect) == old(Value()).Update(msg)
    {
      effect := None;
      if !open {
        return;
      }
      if msg.IsMotion() {
        Move(msg);
      } else if msg.Input? || msg.Paste? || msg.Backspace? || msg.Delete? {
        Edit(msg);
      } else if msg.NextHint? {
        if hints != [] {
          selected := Min(selected + 1, |hints| - 1);
        }
      } else if msg.PrevHint? {
        selected := Scroll.Minus(selected, 1);
      } else if msg.AcceptHint? {
        Complete();
      } else if msg.Hints? {
        SetHints(msg.token, msg.items);
      } else if msg.Submit? {
        effect := SubmitLine();
      } else {
        Shut();
        effect := Some(Closed);
      }
    }

    /** The app's handling of one message: the prompt's update, then the request it owes. */
    method Hop(msg: Message) returns (effect: Option<Effect>, request: Option<Request>)
      requires Valid() && msg.Plain()
      modifies this, buffer
      ensures Valid() && (Value(), request) == old(Value()).Hop(msg) && effect == old(Value()).Update(msg).1
    {
      effect := None;
      if msg.Open? {
        OpenAt(msg.current);
      } else if msg.Reject? {
        error := Some(msg.reason);
      } else if msg.Close? {
        Shut();
      } else {
        effect := Update(msg);
      }
      request := HintsRequest();
    }
  }
}
