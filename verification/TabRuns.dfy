/** What holds over every run of the strip. */
module TabRuns {
  import opened Pastes
  import opened Tabs
  import Seqs

  ghost predicate Distinct(ids: seq<TabId>) {
    forall i, j :: 0 <= i < j < |ids| ==> ids[i] != ids[j]
  }

  lemma {:induction false} WithoutDistinct(ids: seq<TabId>, id: TabId)
    requires Distinct(ids)
    ensures Distinct(Without(ids, id))
  {
    if ids != [] {
      var init := ids[..|ids| - 1];
      WithoutDistinct(init, id);
      assert forall x :: x in Without(init, id) ==> x in init;
      assert ids[|ids| - 1] !in init;
    }
  }

  /** A strip of two tabs or more has a neighbour to hand the screen to. */
  lemma NeighbourOther<B>(s: Strip<B>, id: TabId)
    requires s.Valid() && id in s.order && |s.order| >= 2
    ensures s.Neighbour(id) in s.order && s.Neighbour(id) != id
  {}

  lemma ShowValid<B>(s: Strip<B>, id: TabId)
    requires s.Valid() && id in s.order
    ensures s.Show(id).Valid()
  {}

  lemma RemoveValid<B>(s: Strip<B>, id: TabId)
    requires s.Valid() && id in s.order && id != s.active
    ensures s.Remove(id).Valid()
  {
    WithoutDistinct(s.order, id);
  }

  lemma OpenValid<B>(s: Strip<B>, core: Core, body: B)
    requires s.Valid()
    ensures s.Open(core, body).Valid()
  {
    forall i | 0 <= i < |s.order| ensures s.order[i] < s.nextId {
      assert s.order[i] in s.order;
    }
  }

  /** Every allowed step keeps the strip in order: distinct ids below the next one, one
      state and one core per tab, the active tab among them and as wide as the window. */
  lemma StepValid<B, C>(s: Strip<B>, save: B -> Option<C>, ev: Event<B, C>)
    requires s.Valid() && s.Allows(ev)
    ensures s.Step(save, ev).0.Valid()
  {
    match ev {
      case Deliver(tab, h) => ReceiveValid(s, tab, h);
      case Local(h) => ReceiveValid(s, s.active, h);
      case Cycle(forward) => ShowValid(s, s.Next(forward));
      case Goto(position) =>
        if position < |s.order| {
          ShowValid(s, s.order[position]);
        }
      case Opened(core, body) => OpenedValid(s, save, core, body);
      case Closed(tab) =>
        if tab in s.order {
          ClosedValid(s, save, tab);
        }
      case Resized(cols) => ResizedValid(s, cols);
      case Broadcast(_) =>
    }
  }

  lemma ReceiveValid<B, C>(s: Strip<B>, id: TabId, h: Handler<B, C>)
    requires s.Valid()
    ensures s.Receive(id, h).0.Valid()
  {}

  lemma ResizedValid<B>(s: Strip<B>, cols: nat)
    requires s.Valid()
    ensures s.Resized(cols).Valid()
  {}

  lemma OpenedValid<B, C>(s: Strip<B>, save: B -> Option<C>, core: Core, body: B)
    requires s.Valid()
    ensures s.Opened(save, core, body).0.Valid()
  {
    OpenValid(s, core, body);
    ShowValid(s.Open(core, body), s.nextId);
  }

  lemma ClosedValid<B, C>(s: Strip<B>, save: B -> Option<C>, id: TabId)
    requires s.Valid() && id in s.order && |s.order| >= 2
    ensures s.Closed(save, id).0.Valid()
  {
    if id == s.active {
      NeighbourOther(s, id);
      ShowValid(s, s.Neighbour(id));
      RemoveValid(s.Show(s.Neighbour(id)), id);
    } else {
      RemoveValid(s, id);
    }
  }

  lemma OpenOwnCores<B>(s: Strip<B>, core: Core, body: B)
    requires s.active in s.states && s.OwnCores() && core !in s.cores.Values
    ensures s.Open(core, body).OwnCores()
  {
    assert forall a :: a in s.cores ==> s.cores[a] in s.cores.Values;
  }

  /** Only opening and closing change which cores there are. */
  lemma StepKeepsCores<B, C>(s: Strip<B>, save: B -> Option<C>, ev: Event<B, C>)
    requires s.active in s.order && s.active in s.states
    ensures !ev.Opened? && !ev.Closed? ==> s.Step(save, ev).0.cores == s.cores
    ensures ev.Closed? && ev.tab in s.order ==> s.Step(save, ev).0.cores == s.cores - {ev.tab}
    ensures ev.Opened? ==> s.Step(save, ev).0.cores == s.cores[s.nextId := ev.core]
  {}

  /** Two tabs never come to share a core. */
  lemma StepOwnCores<B, C>(s: Strip<B>, save: B -> Option<C>, ev: Event<B, C>)
    requires s.Valid() && s.Allows(ev) && s.OwnCores()
    ensures s.Step(save, ev).0.OwnCores()
  {
    StepKeepsCores(s, save, ev);
    if ev.Opened? {
      OpenOwnCores(s, ev.core, ev.body);
    }
  }

  lemma OpenedStep<B, C>(s: Strip<B>, save: B -> Option<C>, core: Core, body: B)
    requires s.active in s.order && s.active in s.states
    ensures s.Step(save, Opened(core, body))
         == (s.Open(core, body).Show(s.nextId), s.Open(core, body).ScrollSaves(save))
  {}

  // Which tab is shown ------------------------------------------------------------------------

  lemma {:induction false} WithoutAt(ids: seq<TabId>, i: nat)
    requires Distinct(ids) && i < |ids|
    ensures Without(ids, ids[i]) == ids[..i] + ids[i + 1..]
  {
    var n := |ids| - 1;
    if i < n {
      WithoutAt(ids[..n], i);
      assert ids[i + 1..] == ids[..n][i + 1..] + [ids[n]];
    } else {
      WithoutOther(ids[..n], ids[i]);
    }
  }

  lemma {:induction false} WithoutOther(ids: seq<TabId>, id: TabId)
    requires id !in ids
    ensures Without(ids, id) == ids
  {
    if ids != [] {
      WithoutOther(ids[..|ids| - 1], id);
      assert ids == ids[..|ids| - 1] + [ids[|ids| - 1]];
    }
  }

  lemma PositionAt(ids: seq<TabId>, i: nat)
    requires Distinct(ids) && i < |ids|
    ensures Position(ids, ids[i]) == Some(i)
  {}

  /** Closing takes the tab out of the strip and keeps the others in order.  When it was the one
      on screen, the tab after it is shown, or the one before it if it came last. */
  lemma ClosedShows<B, C>(s: Strip<B>, save: B -> Option<C>, i: nat)
    requires s.Valid() && |s.order| >= 2 && i < |s.order|
    ensures var r := s.Step(save, Closed(s.order[i])).0;
      && |r.order| == |s.order| - 1
      && (forall k :: 0 <= k < |r.order| ==> r.order[k] == s.order[if k < i then k else k + 1])
      && r.active == if s.order[i] != s.active then s.active
                     else if i + 1 < |s.order| then s.order[i + 1] else s.order[i - 1]
  {
    WithoutAt(s.order, i);
    TakenOut(s.order, i);
    ClosedNext(s, save, i);
  }

  lemma TakenOut(ids: seq<TabId>, i: nat)
    requires i < |ids|
    ensures var r := ids[..i] + ids[i + 1..];
      |r| == |ids| - 1 && forall k :: 0 <= k < |r| ==> r[k] == ids[if k < i then k else k + 1]
  {}

  lemma ClosedNext<B, C>(s: Strip<B>, save: B -> Option<C>, i: nat)
    requires s.Valid() && |s.order| >= 2 && i < |s.order|
    ensures var r := s.Step(save, Closed(s.order[i])).0;
      && r.order == Without(s.order, s.order[i])
      && r.active == if s.order[i] != s.active then s.active
                     else if i + 1 < |s.order| then s.order[i + 1] else s.order[i - 1]
  {
    var id := s.order[i];
    if id == s.active {
      HandsOn(s, i);
      ClosedStep(s, save, id, s.Neighbour(id));
    } else {
      ClosedStep(s, save, id, s.active);
    }
  }

  lemma ClosedStep<B, C>(s: Strip<B>, save: B -> Option<C>, id: TabId, next: TabId)
    requires s.active in s.order && s.active in s.states && id in s.order
    requires next in s.states && next == if id == s.active then s.Neighbour(id) else s.active
    ensures var r := s.Step(save, Closed(id)).0; r.order == Without(s.order, id) && r.active == next
  {}

  lemma HandsOn<B>(s: Strip<B>, i: nat)
    requires s.Valid() && |s.order| >= 2 && i < |s.order| && s.order[i] == s.active
    ensures s.Neighbour(s.active) == if i + 1 < |s.order| then s.order[i + 1] else s.order[i - 1]
    ensures s.Neighbour(s.active) in s.states && s.Neighbour(s.active) != s.active
  {
    PositionAt(s.order, i);
    NeighbourOther(s, s.active);
  }

  /** Cycling shows the next or the previous tab of the strip, from either end the other end. */
  lemma CycledShows<B, C>(s: Strip<B>, save: B -> Option<C>, i: nat, forward: bool)
    requires s.Valid() && i < |s.order| && s.order[i] == s.active
    ensures var r, n := s.Step(save, Cycle(forward)).0, |s.order|;
      && r.order == s.order
      && r.active == if forward then (if i + 1 < n then s.order[i + 1] else s.order[0])
                     else (if i > 0 then s.order[i - 1] else s.order[n - 1])
  {
    PositionAt(s.order, i);
  }

  /** Cycling one way and then the other shows the same tab again. */
  lemma CycledBack<B, C>(s: Strip<B>, save: B -> Option<C>, forward: bool)
    requires s.Valid()
    ensures s.Step(save, Cycle(forward)).0.Valid()
    ensures s.Step(save, Cycle(forward)).0.Step(save, Cycle(!forward)).0.active == s.active
  {
    var i: nat :| i < |s.order| && s.order[i] == s.active;
    var r, n := s.Step(save, Cycle(forward)).0, |s.order|;
    StepValid(s, save, Cycle(forward));
    CycledShows(s, save, i, forward);
    var j := if forward then (if i + 1 < n then i + 1 else 0) else (if i > 0 then i - 1 else n - 1);
    CycledShows(r, save, j, !forward);
  }

  /** What every other event shows: a position in the strip goes to the tab there, a new tab comes
      last and is shown, and nothing else changes what is shown or the order of the strip. */
  lemma OthersShow<B, C>(s: Strip<B>, save: B -> Option<C>, ev: Event<B, C>)
    requires s.Valid() && !ev.Closed? && !ev.Cycle?
    ensures var r := s.Step(save, ev).0;
      match ev
      case Goto(p) => r.order == s.order && r.active == if p < |s.order| then s.order[p] else s.active
      case Opened(_, _) => r.order == s.order + [s.nextId] && r.active == s.nextId
      case _ => r.order == s.order && r.active == s.active
  {
    if ev.Goto? && ev.position < |s.order| {
      assert s.order[ev.position] in s.order;
    }
  }

  // Runs -----------------------------------------------------------------------------------

  ghost predicate Allowed<B, C>(s: Strip<B>, save: B -> Option<C>, evs: seq<Event<B, C>>)
    requires s.Valid()
    decreases |evs|
  {
    evs != [] ==>
      && s.Allows(evs[0])
      && (StepValid(s, save, evs[0]); Allowed(s.Step(save, evs[0]).0, save, evs[1..]))
  }

  ghost function Run<B, C>(s: Strip<B>, save: B -> Option<C>, evs: seq<Event<B, C>>): (r: Strip<B>)
    requires s.Valid() && Allowed(s, save, evs)
    ensures r.Valid()
    decreases |evs|
  {
    if evs == [] then s
    else
      StepValid(s, save, evs[0]);
      Run(s.Step(save, evs[0]).0, save, evs[1..])
  }

  // What reaches one tab -------------------------------------------------------------------

  datatype Own<!B, !C> = Message(h: Handler<B, C>, foreground: bool) | Width(cols: nat) {
    function Apply(st: TabState<B>): TabState<B> {
      match this
      case Message(h, foreground) => st.(content := h(st.content, foreground).0)
      case Width(cols) => st.(cols := cols)
    }
  }

  function Fold<B, C>(st: TabState<B>, own: seq<Own<B, C>>): TabState<B>
    decreases |own|
  {
    if own == [] then st else Fold(own[0].Apply(st), own[1..])
  }

  lemma {:induction false} FoldConcat<B, C>(st: TabState<B>, a: seq<Own<B, C>>, b: seq<Own<B, C>>)
    ensures Fold(st, a + b) == Fold(Fold(st, a), b)
    decreases |a|
  {
    if a == [] {
      assert a + b == b;
    } else {
      FoldConcat(a[0].Apply(st), a[1..], b);
      assert (a + b)[0] == a[0] && (a + b)[1..] == a[1..] + b;
    }
  }

  /** The part of one event that concerns tab t: the messages tagged with it, the untagged
      ones while it is on screen, and the window's width when it comes on screen or the
      window is resized under it. */
  ghost function OwnOf<B, C>(s: Strip<B>, save: B -> Option<C>, ev: Event<B, C>, t: TabId): seq<Own<B, C>>
    requires s.Valid()
  {
    match ev
    case Deliver(tab, h) => if tab == t then [Message(h, t == s.active)] else []
    case Local(h) => if t == s.active then [Message(h, true)] else []
    case Resized(cols) => if t == s.active then [Width(cols)] else []
    case _ => if t != s.active && t == s.Step(save, ev).0.active then [Width(s.cols)] else []
  }

  ghost function OwnRun<B, C>(s: Strip<B>, save: B -> Option<C>, evs: seq<Event<B, C>>, t: TabId): seq<Own<B, C>>
    requires s.Valid() && Allowed(s, save, evs)
    decreases |evs|
  {
    if evs == [] then []
    else
      StepValid(s, save, evs[0]);
      OwnOf(s, save, evs[0], t) + OwnRun(s.Step(save, evs[0]).0, save, evs[1..], t)
  }

  /** One step changes a tab by its own part of the event and by nothing else. */
  lemma StepIsolated<B, C>(s: Strip<B>, save: B -> Option<C>, ev: Event<B, C>, t: TabId)
    requires s.Valid() && s.Allows(ev) && t in s.order
    requires t in s.Step(save, ev).0.order
    ensures s.Step(save, ev).0.states[t] == Fold(s.states[t], OwnOf(s, save, ev, t))
  {
    match ev {
      case Deliver(tab, h) => ReceiveIsolated(s, tab, h, t);
      case Local(h) => ReceiveIsolated(s, s.active, h, t);
      case Opened(core, body) => OpenedIsolated(s, save, core, body, t);
      case Closed(tab) => ClosedIsolated(s, save, tab, t);
      case _ =>
    }
  }

  lemma ReceiveIsolated<B, C>(s: Strip<B>, tab: TabId, h: Handler<B, C>, t: TabId)
    requires s.Valid() && t in s.order
    ensures t in s.Receive(tab, h).0.states
    ensures s.Receive(tab, h).0.states[t]
         == if tab == t then Message(h, t == s.active).Apply(s.states[t]) else s.states[t]
  {}

  lemma OpenedIsolated<B, C>(s: Strip<B>, save: B -> Option<C>, core: Core, body: B, t: TabId)
    requires s.Valid() && t in s.order
    ensures t in s.Opened(save, core, body).0.states
    ensures s.Opened(save, core, body).0.states[t] == s.states[t]
    ensures s.Opened(save, core, body).0.active == s.nextId != t
  {}

  lemma ClosedIsolated<B, C>(s: Strip<B>, save: B -> Option<C>, tab: TabId, t: TabId)
    requires s.Valid() && (tab in s.order ==> |s.order| >= 2) && t in s.order
    requires t in s.Closed(save, tab).0.order
    ensures var s' := s.Closed(save, tab).0;
      t in s'.states && s'.states[t]
        == if t != s.active && t == s'.active then s.states[t].(cols := s.cols) else s.states[t]
  {
    if tab in s.order {
      NeighbourOther(s, tab);
    }
  }

  /** Ids are never reused: an id once handed out that is not in the strip stays out. */
  lemma StepStaysClosed<B, C>(s: Strip<B>, save: B -> Option<C>, ev: Event<B, C>, t: TabId)
    requires s.Valid() && s.Allows(ev) && t < s.nextId && t !in s.order
    ensures var s' := s.Step(save, ev).0; t < s'.nextId && t !in s'.order
  {
    StepValid(s, save, ev);
  }

  lemma {:induction false} NeverReused<B, C>(s: Strip<B>, save: B -> Option<C>, evs: seq<Event<B, C>>, t: TabId)
    requires s.Valid() && Allowed(s, save, evs) && t < s.nextId && t !in s.order
    ensures t < Run(s, save, evs).nextId && t !in Run(s, save, evs).order
    decreases |evs|
  {
    if evs != [] {
      StepValid(s, save, evs[0]);
      StepStaysClosed(s, save, evs[0], t);
      NeverReused(s.Step(save, evs[0]).0, save, evs[1..], t);
    }
  }

  /** Over any interleaving of switching, opening, closing and messages for any tab, the
      state of a tab that is still open is the fold of its own messages alone. */
  lemma {:induction false} TabIsFoldOfItsOwn<B, C>(
    s: Strip<B>, save: B -> Option<C>, evs: seq<Event<B, C>>, t: TabId)
    requires s.Valid() && Allowed(s, save, evs) && t in s.order
    requires t in Run(s, save, evs).order
    ensures Run(s, save, evs).states[t] == Fold(s.states[t], OwnRun(s, save, evs, t))
    decreases |evs|
  {
    if evs != [] {
      StepValid(s, save, evs[0]);
      var s' := s.Step(save, evs[0]).0;
      if t !in s'.order {
        OrdersBelow(s, save, evs[0], t);
        NeverReused(s', save, evs[1..], t);
        assert false;
      }
      StepIsolated(s, save, evs[0], t);
      TabIsFoldOfItsOwn(s', save, evs[1..], t);
      FoldConcat(s.states[t], OwnOf(s, save, evs[0], t), OwnRun(s', save, evs[1..], t));
    }
  }

  // Tabs opened on the way -----------------------------------------------------------------

  /** The state a tab starts a run with and the messages it gets from then on: for a tab that
      is opened on the way, from its opening on. */
  ghost function Life<B, C>(s: Strip<B>, save: B -> Option<C>, evs: seq<Event<B, C>>, t: TabId)
    : (TabState<B>, seq<Own<B, C>>)
    requires s.Valid() && Allowed(s, save, evs) && t in Run(s, save, evs).order
    decreases |evs|
  {
    if t in s.order || evs == [] then (s.states[t], OwnRun(s, save, evs, t))
    else
      StepValid(s, save, evs[0]);
      Life(s.Step(save, evs[0]).0, save, evs[1..], t)
  }

  /** Over every interleaving, every tab that is open in the end is the fold of its own messages
      since the run began or the tab was opened. */
  lemma {:induction false} EveryTabIsFold<B, C>(
    s: Strip<B>, save: B -> Option<C>, evs: seq<Event<B, C>>, t: TabId)
    requires s.Valid() && Allowed(s, save, evs) && t in Run(s, save, evs).order
    ensures var (st, own) := Life(s, save, evs, t); Run(s, save, evs).states[t] == Fold(st, own)
    decreases |evs|
  {
    if t in s.order {
      TabIsFoldOfItsOwn(s, save, evs, t);
    } else {
      StepValid(s, save, evs[0]);
      EveryTabIsFold(s.Step(save, evs[0]).0, save, evs[1..], t);
    }
  }

  /** A tab that comes into the strip was just opened: it is the active one, under a fresh id,
      and starts empty with the roster and the default scene of the tab before it. */
  lemma ComesOpened<B, C>(s: Strip<B>, save: B -> Option<C>, ev: Event<B, C>, t: TabId)
    requires s.Valid() && s.Allows(ev) && t !in s.order && t in s.Step(save, ev).0.order
    ensures var s', c := s.Step(save, ev).0, s.states[s.active].content;
      && ev.Opened? && t == s.nextId == s'.active
      && t in s'.states && t in s'.cores && s'.cores[t] == ev.core
      && s'.states[t] == TabState(s.cols, Content(ev.body, c.sceneDefault, c.scenes, c.sceneDefault))
  {}

  lemma OrdersBelow<B, C>(s: Strip<B>, save: B -> Option<C>, ev: Event<B, C>, t: TabId)
    requires s.Valid() && s.Allows(ev) && t in s.order
    ensures t < s.Step(save, ev).0.nextId
  {}

  /** A message for a closed tab changes nothing and sends nothing. */
  lemma ClosedTabDropped<B, C>(s: Strip<B>, save: B -> Option<C>, t: TabId, h: Handler<B, C>)
    requires s.Valid()
    ensures t !in s.order ==> s.Step(save, Deliver(t, h)) == (s, [])
    ensures t in s.order ==>
      forall e :: e in s.Step(save, Deliver(t, h)).1 ==> e.core == s.cores[t]
  {}

  // Commands for every core ------------------------------------------------------------------

  /** How many of the first n commands of a log went to a core. */
  function CountFor<C>(log: seq<Sent<C>>, core: Core, n: nat := |log|): nat
    requires n <= |log|
  {
    if n == 0 then 0 else CountFor(log, core, n - 1) + (if log[n - 1].core == core then 1 else 0)
  }

  lemma {:induction false} CountConcat<C>(a: seq<Sent<C>>, b: seq<Sent<C>>, core: Core, n: nat)
    requires n <= |b|
    ensures CountFor(a + b, core, |a| + n) == CountFor(a, core) + CountFor(b, core, n)
  {
    if n == 0 {
      CountPrefix(a, b, core, |a|);
    } else {
      CountConcat(a, b, core, n - 1);
    }
  }

  lemma {:induction false} CountPrefix<C>(a: seq<Sent<C>>, b: seq<Sent<C>>, core: Core, n: nat)
    requires n <= |a|
    ensures CountFor(a + b, core, n) == CountFor(a, core, n)
  {
    if n > 0 {
      CountPrefix(a, b, core, n - 1);
    }
  }

  /** Tab t is among the first n of the strip. */
  predicate Among<B>(s: Strip<B>, n: nat, t: TabId) {
    exists i :: 0 <= i < n && i < |s.order| && s.order[i] == t
  }

  lemma AmongNext<B>(s: Strip<B>, n: nat, t: TabId)
    requires 0 < n <= |s.order|
    ensures Among(s, n, t) <==> Among(s, n - 1, t) || s.order[n - 1] == t
    ensures s.Valid() && Among(s, n - 1, t) ==> s.order[n - 1] != t
  {}

  lemma {:induction false} BackgroundLength<B, C>(s: Strip<B>, cmd: C, n: nat)
    requires s.Valid() && n <= |s.order|
    ensures |s.Background(cmd, n)| == n - (if Among(s, n, s.active) then 1 else 0)
  {
    if n > 0 {
      BackgroundLength(s, cmd, n - 1);
      AmongNext(s, n, s.active);
      assert s.order[n - 1] in s.order;
    }
  }

  /** What one more tab adds to the commands of a core. */
  lemma BackgroundNext<B, C>(s: Strip<B>, cmd: C, n: nat, t: TabId)
    requires s.Valid() && s.OwnCores() && t in s.order && 0 < n <= |s.order|
    ensures CountFor(s.Background(cmd, n), s.cores[t])
         == CountFor(s.Background(cmd, n - 1), s.cores[t])
            + (if t != s.active && s.order[n - 1] == t then 1 else 0)
  {
    var last := s.order[n - 1];
    assert last in s.order;
    var tail: seq<Sent<C>> := if last == s.active then [] else s.To(last, cmd);
    CountConcat(s.Background(cmd, n - 1), tail, s.cores[t], |tail|);
  }

  lemma {:induction false} BackgroundCounts<B, C>(s: Strip<B>, cmd: C, n: nat, t: TabId)
    requires s.Valid() && s.OwnCores() && t in s.order && n <= |s.order|
    ensures CountFor(s.Background(cmd, n), s.cores[t]) == if t != s.active && Among(s, n, t) then 1 else 0
  {
    if n > 0 {
      BackgroundCounts(s, cmd, n - 1, t);
      AmongNext(s, n, t);
      BackgroundNext(s, cmd, n, t);
    }
  }

  lemma AllAmong<B>(s: Strip<B>, t: TabId)
    requires t in s.order
    ensures Among(s, |s.order|, t)
  {}

  /** A broadcast from the tab on screen reaches every core, and each of them once. */
  lemma BroadcastOnce<B, C>(s: Strip<B>, cmd: C, t: TabId)
    requires s.Valid() && s.OwnCores() && t in s.order
    ensures CountFor(s.Everyone(cmd), s.cores[t]) == 1
    ensures |s.Everyone(cmd)| == |s.order|
  {
    AllAmong(s, t);
    AllAmong(s, s.active);
    BackgroundLength(s, cmd, |s.order|);
    BackgroundCounts(s, cmd, |s.order|, t);
    CountConcat(s.Background(cmd), s.To(s.active, cmd), s.cores[t], 1);
  }

  /** Why a broadcast has to come from the foreground: its last send goes to whichever tab is
      in the working slots, so with another tab staged there that core would be reached twice
      and the one on screen not at all. */
  lemma StagedBroadcast<B, C>(s: Strip<B>, cmd: C, staged: TabId, t: TabId)
    requires s.Valid() && s.OwnCores() && t in s.order && staged in s.order
    ensures CountFor(s.Background(cmd) + s.To(staged, cmd), s.cores[t])
         == (if t == s.active then 0 else 1) + (if t == staged then 1 else 0)
    ensures (forall t :: t in s.order ==> CountFor(s.Background(cmd) + s.To(staged, cmd), s.cores[t]) == 1)
       <==> staged == s.active
  {
    StagedCount(s, cmd, staged, t);
    StagedCount(s, cmd, staged, staged);
    if staged == s.active {
      forall t | t in s.order ensures CountFor(s.Background(cmd) + s.To(staged, cmd), s.cores[t]) == 1 {
        StagedCount(s, cmd, staged, t);
      }
    }
  }

  lemma StagedCount<B, C>(s: Strip<B>, cmd: C, staged: TabId, t: TabId)
    requires s.Valid() && s.OwnCores() && t in s.order && staged in s.order
    ensures CountFor(s.Background(cmd) + s.To(staged, cmd), s.cores[t])
         == (if t == s.active then 0 else 1) + (if t == staged then 1 else 0)
  {
    AllAmong(s, t);
    BackgroundCounts(s, cmd, |s.order|, t);
    CountConcat(s.Background(cmd), s.To(staged, cmd), s.cores[t], 1);
  }
  // What a core hears -------------------------------------------------------------------------

  /** The commands among the first n of a log that went to a core, in order. */
  function Heard<C>(log: seq<Sent<C>>, core: Core, n: nat := |log|): seq<C>
    requires n <= |log|
  {
    if n == 0 then []
    else Heard(log, core, n - 1) + (if log[n - 1].core == core then [log[n - 1].cmd] else [])
  }

  lemma {:induction false} HeardPrefix<C>(a: seq<Sent<C>>, b: seq<Sent<C>>, core: Core, n: nat)
    requires n <= |a|
    ensures Heard(a + b, core, n) == Heard(a, core, n)
  {
    if n > 0 {
      HeardPrefix(a, b, core, n - 1);
    }
  }

  lemma {:induction false} HeardConcatTo<C>(a: seq<Sent<C>>, b: seq<Sent<C>>, core: Core, n: nat)
    requires n <= |b|
    ensures Heard(a + b, core, |a| + n) == Heard(a, core) + Heard(b, core, n)
  {
    if n == 0 {
      HeardPrefix(a, b, core, |a|);
      assert Heard(a, core) + [] == Heard(a, core);
    } else {
      HeardConcatTo(a, b, core, n - 1);
      var last: seq<C> := if b[n - 1].core == core then [b[n - 1].cmd] else [];
      assert (a + b)[|a| + n - 1] == b[n - 1];
      Seqs.Assoc(Heard(a, core), Heard(b, core, n - 1), last);
    }
  }

  lemma HeardConcat<C>(a: seq<Sent<C>>, b: seq<Sent<C>>, core: Core)
    ensures Heard(a + b, core) == Heard(a, core) + Heard(b, core)
  {
    HeardConcatTo(a, b, core, |b|);
  }

  lemma {:induction false} HeardOwn<C>(core: Core, cmds: seq<C>, c: Core, n: nat)
    requires n <= |cmds|
    ensures Heard(SendAll(core, cmds), c, n) == if core == c then cmds[..n] else []
  {
    if n > 0 {
      HeardOwn(core, cmds, c, n - 1);
      assert cmds[..n] == cmds[..n - 1] + [cmds[n - 1]];
    }
  }

  /** A tab's scroll position, if it has one to save. */
  function Saved<B, C>(s: Strip<B>, save: B -> Option<C>, t: TabId): seq<C>
    requires t in s.states
  {
    match save(s.states[t].content.body)
    case None => []
    case Some(cmd) => [cmd]
  }

  /** One tab's command is heard by that tab's core alone. */
  lemma HeardTo<B, C>(s: Strip<B>, id: TabId, cmd: C, t: TabId)
    requires s.Valid() && s.OwnCores() && t in s.order && id in s.order
    ensures Heard(s.To(id, cmd), s.cores[t]) == if id == t then [cmd] else []
  {
    assert Heard(s.To(id, cmd), s.cores[t], 0) == [];
  }

  lemma HeardSave<B, C>(s: Strip<B>, save: B -> Option<C>, id: TabId, t: TabId)
    requires s.Valid() && s.OwnCores() && t in s.order && id in s.order
    ensures Heard(s.ScrollSave(save, id), s.cores[t]) == if id == t then Saved(s, save, t) else []
  {
    match save(s.states[id].content.body) {
      case None =>
      case Some(cmd) => HeardTo(s, id, cmd, t);
    }
  }

  lemma HeardSavesNext<B, C>(s: Strip<B>, save: B -> Option<C>, n: nat, t: TabId)
    requires s.Valid() && s.OwnCores() && t in s.order && 0 < n <= |s.order|
    ensures Heard(s.ScrollSaves(save, n), s.cores[t])
         == Heard(s.ScrollSaves(save, n - 1), s.cores[t])
            + (if s.order[n - 1] == t then Saved(s, save, t) else [])
  {
    var last := s.order[n - 1];
    assert last in s.order;
    HeardSave(s, save, last, t);
    HeardConcat(s.ScrollSaves(save, n - 1), s.ScrollSave(save, last), s.cores[t]);
  }

  /** Counted along the strip: tab t is at position k. */
  lemma {:induction false} HeardSaves<B, C>(s: Strip<B>, save: B -> Option<C>, n: nat, t: TabId, k: nat)
    requires s.Valid() && s.OwnCores() && n <= |s.order| && k < |s.order| && s.order[k] == t
    ensures Heard(s.ScrollSaves(save, n), s.cores[t]) == if k < n then Saved(s, save, t) else []
  {
    if n == 0 {
      HeardNothing(s.cores[t], s.ScrollSaves(save, 0));
    } else {
      HeardSaves(s, save, n - 1, t, k);
      HeardSavesNext(s, save, n, t);
      SamePlace(s, k, n - 1);
      var heard, before := Heard(s.ScrollSaves(save, n), s.cores[t]), Heard(s.ScrollSaves(save, n - 1), s.cores[t]);
      var saved := Saved(s, save, t);
      assert before == if k < n - 1 then saved else [];
      assert heard == before + (if k == n - 1 then saved else []);
      OnceOnly(k < n - 1, k == n - 1, saved);
    }
  }

  lemma HeardNothing<C>(core: Core, log: seq<Sent<C>>)
    requires log == []
    ensures Heard(log, core) == []
  {}

  lemma SamePlace<B>(s: Strip<B>, i: nat, j: nat)
    requires s.Valid() && i < |s.order| && j < |s.order|
    ensures s.order[i] == s.order[j] <==> i == j
    ensures s.order[i] in s.states && s.order[i] in s.cores
  {
    assert s.order[i] in s.order;
  }

  lemma OnceOnly<C>(p: bool, q: bool, cmds: seq<C>)
    requires !(p && q)
    ensures (if p then cmds else []) + (if q then cmds else []) == if p || q then cmds else []
  {}

  lemma HeardElse<B, C>(s: Strip<B>, id: TabId, cmd: C, t: TabId)
    requires s.Valid() && s.OwnCores() && t in s.order && id in s.order
    ensures Heard(if id == s.active then [] else s.To(id, cmd), s.cores[t])
         == if id == t && t != s.active then [cmd] else []
  {
    HeardTo(s, id, cmd, t);
  }

  lemma HeardBackgroundNext<B, C>(s: Strip<B>, cmd: C, n: nat, t: TabId)
    requires s.Valid() && s.OwnCores() && t in s.order && 0 < n <= |s.order|
    ensures Heard(s.Background(cmd, n), s.cores[t])
         == Heard(s.Background(cmd, n - 1), s.cores[t])
            + (if s.order[n - 1] == t && t != s.active then [cmd] else [])
  {
    var last := s.order[n - 1];
    assert last in s.order;
    HeardElse(s, last, cmd, t);
    HeardConcat(s.Background(cmd, n - 1), if last == s.active then [] else s.To(last, cmd), s.cores[t]);
  }

  lemma {:induction false} HeardBackground<B, C>(s: Strip<B>, cmd: C, n: nat, t: TabId, k: nat)
    requires s.Valid() && s.OwnCores() && n <= |s.order| && k < |s.order| && s.order[k] == t
    ensures Heard(s.Background(cmd, n), s.cores[t]) == if t != s.active && k < n then [cmd] else []
  {
    if n > 0 {
      HeardBackground(s, cmd, n - 1, t, k);
      HeardBackgroundNext(s, cmd, n, t);
      SamePlace(s, k, n - 1);
      OnceOnly(t != s.active && k < n - 1, k == n - 1 && t != s.active, [cmd]);
    }
  }

  /** What a tab's core is to hear of one event: what the tab's own handler sends, where the
      tab was scrolled to whenever the screen is handed over, and every broadcast. */
  ghost function Received<B, C>(s: Strip<B>, save: B -> Option<C>, ev: Event<B, C>, t: TabId): seq<C>
    requires s.Valid() && t in s.order
  {
    match ev
    case Deliver(tab, h) => if tab == t then h(s.states[t].content, t == s.active).1 else []
    case Local(h) => if t == s.active then h(s.states[t].content, true).1 else []
    case Cycle(forward) => if |s.order| > 1 && s.Next(forward) != s.active then Saved(s, save, t) else []
    case Goto(position) =>
      if position < |s.order| && s.order[position] != s.active then Saved(s, save, t) else []
    case Opened(_, _) => Saved(s, save, t)
    case Closed(tab) => if tab == s.active then Saved(s, save, t) else []
    case Resized(_) => []
    case Broadcast(cmd) => [cmd]
  }

  lemma HeardAllSaves<B, C>(s: Strip<B>, save: B -> Option<C>, t: TabId)
    requires s.Valid() && s.OwnCores() && t in s.order
    ensures Heard(s.ScrollSaves(save), s.cores[t]) == Saved(s, save, t)
  {
    var k :| 0 <= k < |s.order| && s.order[k] == t;
    HeardSaves(s, save, |s.order|, t, k);
  }

  lemma HeardOpened<B, C>(s: Strip<B>, save: B -> Option<C>, core: Core, body: B, t: TabId)
    requires s.Valid() && s.OwnCores() && core !in s.cores.Values && t in s.order
    ensures Heard(s.Opened(save, core, body).1, s.cores[t]) == Saved(s, save, t)
  {
    var o := s.Open(core, body);
    OpenValid(s, core, body);
    OpenOwnCores(s, core, body);
    assert t != s.nextId && t in o.order;
    HeardAllSaves(o, save, t);
  }

  lemma HeardReceive<B, C>(s: Strip<B>, id: TabId, h: Handler<B, C>, t: TabId)
    requires s.Valid() && s.OwnCores() && t in s.order
    ensures Heard(s.Receive(id, h).1, s.cores[t]) == if id == t then h(s.states[t].content, t == s.active).1 else []
  {
    if id in s.order {
      var cmds := h(s.states[id].content, id == s.active).1;
      HeardOwn(s.cores[id], cmds, s.cores[t], |cmds|);
      assert cmds[..|cmds|] == cmds;
    }
  }

  lemma HeardBroadcast<B, C>(s: Strip<B>, cmd: C, t: TabId)
    requires s.Valid() && s.OwnCores() && t in s.order
    ensures Heard(s.Everyone(cmd), s.cores[t]) == [cmd]
  {
    var k :| 0 <= k < |s.order| && s.order[k] == t;
    HeardBackground(s, cmd, |s.order|, t, k);
    HeardTo(s, s.active, cmd, t);
    HeardConcat(s.Background(cmd), s.To(s.active, cmd), s.cores[t]);
  }

  /** A step sends the core of an open tab exactly what it is to hear. */
  lemma StepHeard<B, C>(s: Strip<B>, save: B -> Option<C>, ev: Event<B, C>, t: TabId)
    requires s.Valid() && s.OwnCores() && s.Allows(ev) && t in s.order
    ensures Heard(s.Step(save, ev).1, s.cores[t]) == Received(s, save, ev, t)
  {
    match ev {
      case Deliver(tab, h) => HeardReceive(s, tab, h, t);
      case Local(h) => HeardReceive(s, s.active, h, t);
      case Opened(core, body) => HeardOpened(s, save, core, body, t);
      case Broadcast(cmd) =>
        HeardBroadcast(s, cmd, t);
      case Resized(_) =>
      case _ => HeardAllSaves(s, save, t);
    }
  }

  /** Everything a run sends, in order. */
  ghost function Log<B, C>(s: Strip<B>, save: B -> Option<C>, evs: seq<Event<B, C>>): seq<Sent<C>>
    requires s.Valid() && Allowed(s, save, evs)
    decreases |evs|
  {
    if evs == [] then []
    else
      StepValid(s, save, evs[0]);
      s.Step(save, evs[0]).1 + Log(s.Step(save, evs[0]).0, save, evs[1..])
  }

  ghost function ReceivedRun<B, C>(s: Strip<B>, save: B -> Option<C>, evs: seq<Event<B, C>>, t: TabId): seq<C>
    requires s.Valid() && Allowed(s, save, evs)
    decreases |evs|
  {
    if evs == [] || t !in s.order then []
    else
      StepValid(s, save, evs[0]);
      Received(s, save, evs[0], t) + ReceivedRun(s.Step(save, evs[0]).0, save, evs[1..], t)
  }

  /** Over every interleaving the core of a tab that stays open hears its own tab's commands and
      scroll positions and every broadcast, in order, and nothing else. */
  lemma {:induction false} CoreHearsItsOwn<B, C>(
    s: Strip<B>, save: B -> Option<C>, evs: seq<Event<B, C>>, t: TabId)
    requires s.Valid() && s.OwnCores() && Allowed(s, save, evs)
    requires t in s.order && t in Run(s, save, evs).order
    ensures Heard(Log(s, save, evs), s.cores[t]) == ReceivedRun(s, save, evs, t)
    decreases |evs|
  {
    if evs != [] {
      StepValid(s, save, evs[0]);
      StaysOpen(s, save, evs, t);
      StepHeard(s, save, evs[0], t);
      StepOwnCores(s, save, evs[0]);
      var s' := s.Step(save, evs[0]).0;
      CoreHearsItsOwn(s', save, evs[1..], t);
      HeardConcat(s.Step(save, evs[0]).1, Log(s', save, evs[1..]), s.cores[t]);
    }
  }

  /** A tab that is open before and after a run is open in between, under the same core. */
  lemma StaysOpen<B, C>(s: Strip<B>, save: B -> Option<C>, evs: seq<Event<B, C>>, t: TabId)
    requires s.Valid() && Allowed(s, save, evs) && evs != []
    requires t in s.order && t in Run(s, save, evs).order
    ensures var s' := s.Step(save, evs[0]).0; t in s'.order && t in s'.cores && s'.cores[t] == s.cores[t]
  {
    StepValid(s, save, evs[0]);
    StepKeepsCores(s, save, evs[0]);
    OrdersBelow(s, save, evs[0], t);
    var s' := s.Step(save, evs[0]).0;
    if t !in s'.order {
      NeverReused(s', save, evs[1..], t);
    }
  }
}
