/**
 The App's tabs: one set of working slots, swapped among the tabs.  The tab on screen has
 its state in the slots and nothing parked; a message for another tab stages that tab's
 state into the slots, runs, and puts everything back.
 */
module App {
  import opened Pastes
  import opened Tabs
  import opened TabRuns
  import Seqs

  datatype Screen<B> = Screen(cols: nat, body: B)

  datatype Tab<B> = Tab(
    id: TabId,
    scene: Option<string>,
    scenes: seq<string>,
    sceneDefault: Option<string>,
    cmdTx: Core,
    screen: Option<Screen<B>>)

  /** The state `stage` hands out so that it can be put back. */
  datatype Staged<B> = Staged(
    screen: Screen<B>,
    scene: Option<string>,
    scenes: seq<string>,
    sceneDefault: Option<string>,
    cmdTx: Core)
  {
    function State(): TabState<B> {
      TabState(screen.cols, Content(screen.body, scene, scenes, sceneDefault))
    }
  }

  function Ids<B>(tabs: seq<Tab<B>>): (r: seq<TabId>)
    ensures |r| == |tabs|
  {
    seq(|tabs|, i requires 0 <= i < |tabs| => tabs[i].id)
  }

  function Parked<B>(tab: Tab<B>): TabState<B>
    requires tab.screen.Some?
  {
    TabState(tab.screen.value.cols, Content(tab.screen.value.body, tab.scene, tab.scenes, tab.sceneDefault))
  }

  // Reading the strip off the tabs and the working slots ------------------------------------

  /** The state of a tab: parked, or in the working slots when it has no parked screen. */
  function StateOf<B>(tab: Tab<B>, working: TabState<B>): TabState<B> {
    if tab.screen.None? then working else Parked(tab)
  }

  function ById<B>(tabs: seq<Tab<B>>, id: TabId): Tab<B>
    requires id in Ids(tabs)
  {
    tabs[Position(Ids(tabs), id).value]
  }

  ghost function ModelOf<B>(tabs: seq<Tab<B>>, working: TabState<B>, active: TabId, nextId: TabId, cols: nat)
    : Strip<B>
  {
    Strip(Ids(tabs),
          map id | id in Ids(tabs) :: StateOf(ById(tabs, id), working),
          map id | id in Ids(tabs) :: ById(tabs, id).cmdTx,
          active, nextId, cols)
  }

  function Cores<B>(tabs: seq<Tab<B>>): (r: seq<Core>)
    ensures |r| == |tabs|
  {
    seq(|tabs|, i requires 0 <= i < |tabs| => tabs[i].cmdTx)
  }

  /** Ids are distinct and below the next one. */
  ghost predicate TabsOk<B>(tabs: seq<Tab<B>>, nextId: TabId) {
    Distinct(Ids(tabs)) && forall id :: id in Ids(tabs) ==> id < nextId
  }

  lemma ByIdAt<B>(tabs: seq<Tab<B>>, i: nat)
    requires Distinct(Ids(tabs)) && i < |tabs|
    ensures tabs[i].id in Ids(tabs) && ById(tabs, tabs[i].id) == tabs[i]
    ensures Position(Ids(tabs), tabs[i].id) == Some(i)
  {
    assert Ids(tabs)[i] == tabs[i].id;
  }

  lemma ByIdOf<B>(tabs: seq<Tab<B>>, id: TabId) returns (i: nat)
    requires id in Ids(tabs)
    ensures i < |tabs| && tabs[i].id == id && ById(tabs, id) == tabs[i]
    ensures Position(Ids(tabs), id) == Some(i)
  {
    i := Position(Ids(tabs), id).value;
  }

  lemma ModelOfValid<B>(tabs: seq<Tab<B>>, working: TabState<B>, active: TabId, nextId: TabId, cols: nat)
    requires TabsOk(tabs, nextId) && active in Ids(tabs)
    requires ById(tabs, active).screen.None? && working.cols == cols
    ensures ModelOf(tabs, working, active, nextId, cols).Valid()
  {
    var i := ByIdOf(tabs, active);
  }

  /** The strip says of this tab what the tab holds. */
  ghost predicate Tells<B>(m: Strip<B>, tab: Tab<B>, working: TabState<B>) {
    && tab.id in m.states && m.states[tab.id] == StateOf(tab, working)
    && tab.id in m.cores && m.cores[tab.id] == tab.cmdTx
  }

  /** The tab is in the working slots exactly when it is the active one, and the strip says
      of it what it holds there. */
  ghost predicate Told<B>(m: Strip<B>, tab: Tab<B>, working: TabState<B>, ctx: Core) {
    && Tells(m, tab, working)
    && (tab.screen.None? <==> tab.id == m.active) && (tab.id == m.active ==> ctx == tab.cmdTx)
  }

  /** A strip with the tabs' ids that tells the truth of each tab is the one they stand for. */
  lemma SameModel<B>(tabs: seq<Tab<B>>, working: TabState<B>, m: Strip<B>)
    requires Distinct(Ids(tabs)) && m.order == Ids(tabs)
    requires m.states.Keys == (set id | id in m.order) && m.cores.Keys == (set id | id in m.order)
    requires forall i :: 0 <= i < |tabs| ==> Tells(m, tabs[i], working)
    ensures m == ModelOf(tabs, working, m.active, m.nextId, m.cols)
  {
    var n := ModelOf(tabs, working, m.active, m.nextId, m.cols);
    forall id | id in m.order ensures m.states[id] == n.states[id] && m.cores[id] == n.cores[id] {
      var i := ByIdOf(tabs, id);
    }
    assert m.states == n.states;
    assert m.cores == n.cores;
  }

  /** Exactly the tab in the working slots has no parked screen. */
  ghost predicate OneOut<B>(tabs: seq<Tab<B>>, staging: TabId) {
    && staging in Ids(tabs)
    && forall i :: 0 <= i < |tabs| ==> (tabs[i].screen.None? <==> tabs[i].id == staging)
  }

  /** Tab p parked with the slots' old state, tab t taken out into them. */
  ghost predicate Swapped<B>(was: seq<Tab<B>>, now: seq<Tab<B>>, p: nat, t: nat, parked: TabState<B>) {
    && |now| == |was| && p < |was| && t < |was| && p != t
    && (forall i :: 0 <= i < |was| && i != p && i != t ==> now[i] == was[i])
    && now[p].id == was[p].id && now[p].cmdTx == was[p].cmdTx
    && now[p].screen.Some? && Parked(now[p]) == parked
    && now[t].id == was[t].id && now[t].cmdTx == was[t].cmdTx && now[t].screen.None?
  }

  lemma SwappedOk<B>(was: seq<Tab<B>>, now: seq<Tab<B>>, p: nat, t: nat, parked: TabState<B>, nextId: TabId)
    requires TabsOk(was, nextId) && Swapped(was, now, p, t, parked)
    requires OneOut(was, was[p].id)
    ensures Ids(now) == Ids(was) && Cores(now) == Cores(was) && TabsOk(now, nextId)
    ensures OneOut(now, was[t].id) && ById(now, was[t].id) == now[t]
  {
    assert Ids(now) == Ids(was) && Cores(now) == Cores(was);
    ByIdAt(was, t);
    ByIdAt(was, p);
    ByIdAt(now, t);
    forall i | 0 <= i < |now| ensures now[i].screen.None? <==> now[i].id == was[t].id {
      ByIdAt(was, i);
    }
  }

  /** When one tab's state changes and every other keeps its own, wherever they are kept,
      the strip changes in that one state. */
  lemma ChangedModel<B>(
    was: seq<Tab<B>>, now: seq<Tab<B>>, w: TabState<B>, v: TabState<B>,
    t: nat, st: TabState<B>, active: TabId, nextId: TabId, cols: nat)
    requires Distinct(Ids(was)) && Ids(now) == Ids(was) && Cores(now) == Cores(was) && t < |was|
    requires forall i :: 0 <= i < |was| ==> StateOf(now[i], v) == if i == t then st else StateOf(was[i], w)
    ensures var m := ModelOf(was, w, active, nextId, cols);
      ModelOf(now, v, active, nextId, cols) == m.(states := m.states[was[t].id := st])
  {
    var old' := ModelOf(was, w, active, nextId, cols);
    var m := old'.(states := old'.states[was[t].id := st]);
    ByIdAt(was, t);
    forall i | 0 <= i < |now| ensures Tells(m, now[i], v) {
      ByIdAt(was, i);
      assert Ids(now)[i] == Ids(was)[i] && Cores(now)[i] == Cores(was)[i];
    }
    SameModel(now, v, m);
  }

  lemma SwappedModel<B>(was: seq<Tab<B>>, now: seq<Tab<B>>, p: nat, t: nat, w: TabState<B>, nextId: TabId, cols: nat)
    requires TabsOk(was, nextId) && Swapped(was, now, p, t, w)
    requires OneOut(was, was[p].id) && was[t].id in Ids(was) && was[t].screen.Some?
    ensures ModelOf(now, Parked(was[t]).(cols := cols), was[t].id, nextId, cols)
         == ModelOf(was, w, was[p].id, nextId, cols).Show(was[t].id)
  {
    ByIdAt(was, t);
    ByIdAt(was, p);
    assert Ids(now) == Ids(was) && Cores(now) == Cores(was);
    forall i | 0 <= i < |was| && i != p && i != t ensures now[i].screen.Some? {
      ByIdAt(was, i);
    }
    ChangedModel(was, now, w, Parked(was[t]).(cols := cols), t, Parked(was[t]).(cols := cols), was[p].id, nextId, cols);
  }

  function Retain<B>(tabs: seq<Tab<B>>, id: TabId): seq<Tab<B>> {
    if tabs == [] then []
    else Retain(tabs[..|tabs| - 1], id) + (if tabs[|tabs| - 1].id == id then [] else [tabs[|tabs| - 1]])
  }

  lemma {:induction false} RetainIds<B>(tabs: seq<Tab<B>>, id: TabId)
    ensures Ids(Retain(tabs, id)) == Without(Ids(tabs), id)
  {
    if tabs != [] {
      var init, last := tabs[..|tabs| - 1], tabs[|tabs| - 1];
      RetainIds(init, id);
      assert Ids(init) == Ids(tabs)[..|tabs| - 1];
      assert Ids(Retain(init, id) + [last]) == Ids(Retain(init, id)) + [last.id];
    }
  }

  lemma {:induction false} RetainFrom<B>(tabs: seq<Tab<B>>, id: TabId, i: nat) returns (k: nat)
    requires i < |Retain(tabs, id)|
    ensures k < |tabs| && tabs[k] == Retain(tabs, id)[i] && tabs[k].id != id
  {
    var init := tabs[..|tabs| - 1];
    if i < |Retain(init, id)| {
      k := RetainFrom(init, id, i);
    } else {
      k := |tabs| - 1;
    }
  }

  lemma {:induction false} RetainTo<B>(tabs: seq<Tab<B>>, id: TabId, k: nat) returns (i: nat)
    requires k < |tabs| && tabs[k].id != id
    ensures i < |Retain(tabs, id)| && tabs[k] == Retain(tabs, id)[i]
  {
    var init := tabs[..|tabs| - 1];
    if k < |init| {
      i := RetainTo(init, id, k);
    } else {
      i := |Retain(init, id)|;
    }
  }

  /** Dropping a tab that is not in the working slots drops it from the strip. */
  lemma RetainModel<B>(tabs: seq<Tab<B>>, w: TabState<B>, id: TabId, active: TabId, nextId: TabId, cols: nat)
    requires TabsOk(tabs, nextId) && OneOut(tabs, active) && id != active
    ensures var r := Retain(tabs, id);
      && TabsOk(r, nextId) && OneOut(r, active) && ById(r, active) == ById(tabs, active)
      && ModelOf(r, w, active, nextId, cols) == ModelOf(tabs, w, active, nextId, cols).Remove(id)
  {
    RetainOk(tabs, id, active, nextId);
    RetainOneOut(tabs, id, active, nextId);
    RetainStrip(tabs, w, id, active, nextId, cols);
  }

  lemma RetainOneOut<B>(tabs: seq<Tab<B>>, id: TabId, active: TabId, nextId: TabId)
    requires TabsOk(tabs, nextId) && OneOut(tabs, active) && id != active
    ensures OneOut(Retain(tabs, id), active)
  {
    var r := Retain(tabs, id);
    RetainOk(tabs, id, active, nextId);
    forall i | 0 <= i < |r| ensures r[i].screen.None? <==> r[i].id == active {
      var k := RetainFrom(tabs, id, i);
    }
  }

  lemma RemoveKeys<B>(m: Strip<B>, id: TabId)
    requires m.states.Keys == (set i | i in m.order) && m.cores.Keys == (set i | i in m.order)
    ensures var n := m.Remove(id);
      n.states.Keys == (set i | i in n.order) && n.cores.Keys == (set i | i in n.order)
  {}

  lemma RetainStrip<B>(tabs: seq<Tab<B>>, w: TabState<B>, id: TabId, active: TabId, nextId: TabId, cols: nat)
    requires TabsOk(tabs, nextId) && active in Ids(tabs) && id != active
    ensures ModelOf(Retain(tabs, id), w, active, nextId, cols)
         == ModelOf(tabs, w, active, nextId, cols).Remove(id)
  {
    var r, m := Retain(tabs, id), ModelOf(tabs, w, active, nextId, cols).Remove(id);
    RetainOk(tabs, id, active, nextId);
    RemoveKeys(ModelOf(tabs, w, active, nextId, cols), id);
    forall i | 0 <= i < |r| ensures Tells(m, r[i], w) {
      RetainTells(tabs, w, id, active, nextId, cols, i);
    }
    SameModel(r, w, m);
  }

  lemma RetainOk<B>(tabs: seq<Tab<B>>, id: TabId, active: TabId, nextId: TabId)
    requires TabsOk(tabs, nextId) && active in Ids(tabs) && id != active
    ensures var r := Retain(tabs, id);
      && TabsOk(r, nextId) && Ids(r) == Without(Ids(tabs), id)
      && active in Ids(r) && ById(r, active) == ById(tabs, active)
  {
    RetainIds(tabs, id);
    WithoutDistinct(Ids(tabs), id);
    var a := ByIdOf(tabs, active);
    var b := RetainTo(tabs, id, a);
    ByIdAt(Retain(tabs, id), b);
  }

  lemma RetainTells<B>(tabs: seq<Tab<B>>, w: TabState<B>, id: TabId, active: TabId, nextId: TabId, cols: nat, i: nat)
    requires TabsOk(tabs, nextId) && i < |Retain(tabs, id)|
    ensures Tells(ModelOf(tabs, w, active, nextId, cols).Remove(id), Retain(tabs, id)[i], w)
  {
    var k := RetainFrom(tabs, id, i);
    ByIdAt(tabs, k);
  }

  /** A new tab comes last, with its screen parked. */
  lemma OpenedTabs<B>(tabs: seq<Tab<B>>, tab: Tab<B>, active: TabId)
    requires TabsOk(tabs, tab.id) && OneOut(tabs, active) && tab.screen.Some?
    ensures var now := tabs + [tab];
      && Ids(now) == Ids(tabs) + [tab.id]
      && TabsOk(now, tab.id + 1) && OneOut(now, active) && ById(now, active) == ById(tabs, active)
  {
    var now := tabs + [tab];
    assert Ids(now) == Ids(tabs) + [tab.id];
    forall i | 0 <= i < |tabs| ensures Ids(tabs)[i] < tab.id {
      assert Ids(tabs)[i] in Ids(tabs);
    }
    var a := ByIdOf(tabs, active);
    ByIdAt(now, a);
  }

  lemma OpenedModel<B>(tabs: seq<Tab<B>>, tab: Tab<B>, w: TabState<B>, active: TabId, cols: nat)
    requires TabsOk(tabs, tab.id) && OneOut(tabs, active) && tab.screen.Some?
    ensures var m := ModelOf(tabs, w, active, tab.id, cols);
      ModelOf(tabs + [tab], w, active, tab.id + 1, cols)
      == m.(order := m.order + [tab.id], states := m.states[tab.id := Parked(tab)],
            cores := m.cores[tab.id := tab.cmdTx], nextId := tab.id + 1)
  {
    var now, old' := tabs + [tab], ModelOf(tabs, w, active, tab.id, cols);
    OpenedTabs(tabs, tab, active);
    var m := old'.(order := old'.order + [tab.id], states := old'.states[tab.id := Parked(tab)],
                   cores := old'.cores[tab.id := tab.cmdTx], nextId := tab.id + 1);
    forall i | 0 <= i < |now| ensures Tells(m, now[i], w) {
      if i < |tabs| {
        ByIdAt(tabs, i);
        assert Ids(tabs)[i] in Ids(tabs);
      }
    }
    SameModel(now, w, m);
  }

  lemma OpenedStrip<B>(tabs: seq<Tab<B>>, w: TabState<B>, active: TabId, nextId: TabId, cols: nat, core: Core, body: B)
    requires TabsOk(tabs, nextId) && OneOut(tabs, active)
    ensures var c := w.content;
      var tab := Tab(nextId, c.sceneDefault, c.scenes, c.sceneDefault, core, Some(Screen(cols, body)));
      var m := ModelOf(tabs, w, active, nextId, cols);
      active in m.states && ModelOf(tabs + [tab], w, active, nextId + 1, cols) == m.Open(core, body)
  {
    var c := w.content;
    var tab := Tab(nextId, c.sceneDefault, c.scenes, c.sceneDefault, core, Some(Screen(cols, body)));
    var a := ByIdOf(tabs, active);
    OpenedModel(tabs, tab, w, active, cols);
  }

  /** How many of the first n tabs hold a sender of a core. */
  function CountTx<B>(tabs: seq<Tab<B>>, core: Core, n: nat): nat
    requires n <= |tabs|
  {
    if n == 0 then 0 else CountTx(tabs, core, n - 1) + (if tabs[n - 1].cmdTx == core then 1 else 0)
  }

  lemma {:induction false} CountTxIs<B>(tabs: seq<Tab<B>>, core: Core, n: nat)
    requires n <= |tabs| && forall i, j :: 0 <= i < j < |tabs| ==> tabs[i].cmdTx != tabs[j].cmdTx
    ensures CountTx(tabs, core, n) == if exists i :: 0 <= i < n && tabs[i].cmdTx == core then 1 else 0
  {
    if n > 0 {
      CountTxIs(tabs, core, n - 1);
    }
  }

  class App<B, C> {
    var session: Screen<B>
    var currentScene: Option<string>
    var sceneEntries: seq<string>
    var sceneDefault: Option<string>
    var ctxTx: Core
    var tabs: seq<Tab<B>>
    var active: TabId
    var stagedTab: Option<TabId>
    var nextTabId: TabId
    var viewportCols: nat
    var openedTab: Option<TabId>
    // Every command sent so far, with the core whose channel it went through.
    var sent: seq<Sent<C>>
    // The scroll position of a screen, as the command that saves it.
    const scrollSave: B -> Option<C>

    /** The state in the working slots. */
    function Working(): TabState<B>
      reads this
    {
      TabState(session.cols, Content(session.body, currentScene, sceneEntries, sceneDefault))
    }

    /** The tab whose state the working slots hold. */
    function Staging(): TabId
      reads this
    {
      if stagedTab.Some? then stagedTab.value else active
    }

    /** Exactly the tab in the working slots has no parked screen, and its core's sender is
        in `ctx`. */
    ghost predicate Slotted()
      reads this
    {
      && TabsOk(tabs, nextTabId)
      && active in Ids(tabs) && OneOut(tabs, Staging())
      && ctxTx == ById(tabs, Staging()).cmdTx
    }

    ghost predicate Valid()
      reads this
    {
      Slotted() && stagedTab.None? && session.cols == viewportCols
    }

    /** The plain strip this App stands for. */
    ghost function Model(): (m: Strip<B>)
      reads this
      ensures forall id :: id in Ids(tabs) ==> id in m.order && id in m.states && id in m.cores
    {
      ModelOf(tabs, Working(), active, nextTabId, viewportCols)
    }

    lemma ModelValid()
      requires Valid()
      ensures Model().Valid()
    {
      ModelOfValid(tabs, Working(), active, nextTabId, viewportCols);
    }

    constructor (screen: B, core: Core, cols: nat, scrollSave: B -> Option<C>)
      ensures Valid() && sent == []
      ensures Model().order == [0] && Model().active == 0
      ensures Model().states[0] == TabState(cols, Content(screen, None, [], None)) && Model().cores[0] == core
    {
      session := Screen(cols, screen);
      currentScene, sceneEntries, sceneDefault := None, [], None;
      ctxTx := core;
      tabs := [Tab(0, None, [], None, core, None)];
      active, stagedTab, nextTabId, viewportCols, openedTab := 0, None, 1, cols, None;
      sent := [];
      this.scrollSave := scrollSave;
      new;
      ByIdAt(tabs, 0);
    }

    // Staging ------------------------------------------------------------------------------

    /** `stage`: bring the tab at `position` into the working slots, handing out what was
        there.  A tab without a parked screen cannot be staged. */
    method Stage(position: nat) returns (staged: Option<Staged<B>>)
      requires position < |tabs|
      modifies this`session, this`currentScene, this`sceneEntries, this`sceneDefault, this`ctxTx, this`tabs
      ensures staged.Some? <==> old(tabs[position].screen).Some?
      ensures staged.None? ==> unchanged(this)
      ensures staged.Some? ==>
        && staged.value.State() == old(Working()) && staged.value.cmdTx == old(ctxTx)
        && Working() == Parked(old(tabs[position]))
        && ctxTx == old(tabs[position].cmdTx)
        && tabs == old(tabs)[position := old(tabs[position]).(
             screen := None, scene := None, scenes := [], sceneDefault := None)]
    {
      var incoming := tabs[position].screen;
      tabs := tabs[position := tabs[position].(screen := None)];
      if incoming.None? {
        assert tabs == old(tabs);
        return None;
      }
      staged := Some(Staged(session, currentScene, sceneEntries, sceneDefault, ctxTx));
      var tab := tabs[position];
      session, currentScene, sceneEntries, sceneDefault, ctxTx :=
        incoming.value, tab.scene, tab.scenes, tab.sceneDefault, tab.cmdTx;
      tabs := tabs[position := tab.(scene := None, scenes := [], sceneDefault := None)];
    }

    /** `park`: the state handed out by `stage` goes into the tab being left. */
    method Park(position: nat, staged: Staged<B>)
      requires position < |tabs|
      modifies this`tabs
      ensures |tabs| == |old(tabs)|
      ensures forall i :: 0 <= i < |tabs| && i != position ==> tabs[i] == old(tabs[i])
      ensures tabs[position].id == old(tabs[position].id) && tabs[position].cmdTx == old(tabs[position].cmdTx)
      ensures tabs[position].screen.Some? && Parked(tabs[position]) == staged.State()
    {
      tabs := tabs[position := tabs[position].(screen := Some(staged.screen), scene := staged.scene,
                                               scenes := staged.scenes, sceneDefault := staged.sceneDefault)];
    }

    /** `restore`: the working slots go back into the staged tab, and the slots take back
        what `stage` handed out. */
    method Restore(position: nat, staged: Staged<B>)
      requires position < |tabs|
      modifies this`session, this`currentScene, this`sceneEntries, this`sceneDefault, this`ctxTx, this`tabs
      ensures |tabs| == |old(tabs)|
      ensures forall i :: 0 <= i < |tabs| && i != position ==> tabs[i] == old(tabs[i])
      ensures tabs[position].id == old(tabs[position].id) && tabs[position].cmdTx == old(tabs[position].cmdTx)
      ensures tabs[position].screen.Some? && Parked(tabs[position]) == old(Working())
      ensures Working() == staged.State() && ctxTx == staged.cmdTx
    {
      tabs := tabs[position := tabs[position].(screen := Some(session), scene := currentScene,
                                               scenes := sceneEntries, sceneDefault := sceneDefault)];
      session, currentScene, sceneEntries, sceneDefault, ctxTx :=
        staged.screen, staged.scene, staged.scenes, staged.sceneDefault, staged.cmdTx;
    }

    /** The swap of `set_active`: stage the incoming tab, park the outgoing one. */
    method SwapIn(target: nat, previous: nat)
      requires target < |tabs| && previous < |tabs| && target != previous
      requires TabsOk(tabs, nextTabId) && OneOut(tabs, tabs[previous].id)
      requires tabs[target].screen.Some? && tabs[target].id in Ids(tabs)
      modifies this`session, this`currentScene, this`sceneEntries, this`sceneDefault, this`ctxTx, this`tabs
      ensures var id := old(tabs[target].id);
        && Ids(tabs) == old(Ids(tabs)) && Cores(tabs) == old(Cores(tabs))
        && OneOut(tabs, id) && ctxTx == ById(tabs, id).cmdTx
      ensures Swapped(old(tabs), tabs, previous, target, old(Working())) && Working() == Parked(old(tabs[target]))
    {
      var outgoing := Stage(target);
      Park(previous, outgoing.value);
      SwappedOk(old(tabs), tabs, previous, target, old(Working()), nextTabId);
    }

    method SwitchTo(target: nat, previous: nat)
      requires Valid() && target < |tabs| && previous < |tabs| && target != previous
      requires tabs[previous].id == active && tabs[target].screen.Some? && tabs[target].id in Ids(tabs)
      modifies this`session, this`currentScene, this`sceneEntries, this`sceneDefault, this`ctxTx, this`tabs, this`active
      ensures Valid() && Ids(tabs) == old(Ids(tabs)) && active == old(tabs[target].id)
      ensures Model() == old(Model()).Show(old(tabs[target].id))
    {
      var id := tabs[target].id;
      SwapIn(target, previous);
      active := id;
      session := session.(cols := viewportCols);
      assert Valid();
      SwappedModel(old(tabs), tabs, previous, target, old(Working()), nextTabId, viewportCols);
    }

    /** `set_active`: nothing happens for an id that is not in the strip. */
    method SetActive(id: TabId)
      requires Valid()
      modifies this`session, this`currentScene, this`sceneEntries, this`sceneDefault, this`ctxTx, this`tabs, this`active
      ensures Valid() && Ids(tabs) == old(Ids(tabs))
      ensures active == if id in old(Ids(tabs)) then id else old(active)
      ensures Model() == if id in old(Ids(tabs)) then old(Model()).Show(id) else old(Model())
    {
      if id == active {
        return;
      }
      var target := Position(Ids(tabs), id);
      if target.None? {
        assert id !in Ids(tabs);
        return;
      }
      var previous := Position(Ids(tabs), active).value;
      ByIdAt(tabs, target.value);
      SwitchTo(target.value, previous);
    }

    // Messages -----------------------------------------------------------------------------

    /** A handler: it reads and writes the working slots, and sends through `ctx`. */
    method Handle(h: Handler<B, C>)
      modifies this`session, this`currentScene, this`sceneEntries, this`sceneDefault, this`sent
      ensures var (content, cmds) := h(old(Working()).content, stagedTab.None?);
        Working() == old(Working()).(content := content) && sent == old(sent) + SendAll(ctxTx, cmds)
    {
      var (content, cmds) := h(Content(session.body, currentScene, sceneEntries, sceneDefault), stagedTab.None?);
      session := session.(body := content.body);
      currentScene, sceneEntries, sceneDefault := content.scene, content.scenes, content.sceneDefault;
      sent := sent + SendAll(ctxTx, cmds);
    }

    /** `apply_to_tab`: a message for a tab in the background runs on that tab's state, for
        its core, and leaves the screen alone; one for a closed tab is dropped. */
    method ApplyToTab(tab: TabId, h: Handler<B, C>)
      requires Valid()
      modifies this`session, this`currentScene, this`sceneEntries, this`sceneDefault, this`ctxTx,
               this`tabs, this`stagedTab, this`sent
      ensures Valid()
      ensures Model() == old(Model()).Receive(tab, h).0
      ensures sent == old(sent) + old(Model()).Receive(tab, h).1
    {
      if tab == active {
        HandleInFront(h);
        return;
      }
      var position := Position(Ids(tabs), tab);
      if position.None? {
        return;
      }
      ByIdAt(tabs, position.value);
      HandleStaged(position.value, h);
    }

    method HandleInFront(h: Handler<B, C>)
      requires Valid()
      modifies this`session, this`currentScene, this`sceneEntries, this`sceneDefault, this`sent
      ensures Valid()
      ensures Model() == old(Model()).Receive(active, h).0
      ensures sent == old(sent) + old(Model()).Receive(active, h).1
    {
      var p := ByIdOf(tabs, active);
      Handle(h);
      FrontModel(old(Working()), p);
    }

    lemma FrontModel(w: TabState<B>, p: nat)
      requires Valid() && p < |tabs| && tabs[p].id == active
      ensures var m := ModelOf(tabs, w, active, nextTabId, viewportCols);
        && Model() == m.(states := m.states[active := Working()])
        && active in m.states && m.states[active] == w
        && active in m.cores && m.cores[active] == ctxTx
    {
      ByIdAt(tabs, p);
      forall i | 0 <= i < |tabs| && i != p ensures tabs[i].screen.Some? {
        ByIdAt(tabs, i);
      }
      ChangedModel(tabs, tabs, w, Working(), p, Working(), active, nextTabId, viewportCols);
    }

    /** Stage the tab, run the handler on the slots, restore. */
    method RunStaged(t: nat, h: Handler<B, C>)
      requires t < |tabs| && tabs[t].screen.Some? && stagedTab.None?
      modifies this`session, this`currentScene, this`sceneEntries, this`sceneDefault, this`ctxTx,
               this`tabs, this`stagedTab, this`sent
      ensures Ids(tabs) == old(Ids(tabs)) && Cores(tabs) == old(Cores(tabs))
      ensures forall i :: 0 <= i < |tabs| && i != t ==> tabs[i] == old(tabs[i])
      ensures tabs[t].screen.Some? && stagedTab.None?
      ensures Working() == old(Working()) && ctxTx == old(ctxTx)
      ensures var st := Parked(old(tabs[t])); var (content, cmds) := h(st.content, false);
        && Parked(tabs[t]) == st.(content := content)
        && sent == old(sent) + SendAll(old(tabs[t].cmdTx), cmds)
    {
      var staged := Stage(t);
      stagedTab := Some(tabs[t].id);
      Handle(h);
      stagedTab := None;
      Restore(t, staged.value);
    }

    method HandleStaged(position: nat, h: Handler<B, C>)
      requires Valid() && position < |tabs| && tabs[position].id != active
      requires tabs[position].id in Ids(tabs)
      modifies this`session, this`currentScene, this`sceneEntries, this`sceneDefault, this`ctxTx,
               this`tabs, this`stagedTab, this`sent
      ensures Valid()
      ensures Model() == old(Model()).Receive(old(tabs[position].id), h).0
      ensures sent == old(sent) + old(Model()).Receive(old(tabs[position].id), h).1
    {
      ByIdAt(tabs, position);
      RunStaged(position, h);
      RestoredModel(old(tabs), old(Working()), position, Parked(tabs[position]));
    }

    lemma RestoredModel(was: seq<Tab<B>>, w: TabState<B>, t: nat, st: TabState<B>)
      requires TabsOk(was, nextTabId) && OneOut(was, active) && t < |was| == |tabs| && was[t].id != active
      requires Ids(tabs) == Ids(was) && Cores(tabs) == Cores(was)
      requires forall i :: 0 <= i < |tabs| && i != t ==> tabs[i] == was[i]
      requires tabs[t].screen.Some? && Parked(tabs[t]) == st && Working() == w
      ensures OneOut(tabs, active) && ById(tabs, active) == ById(was, active)
      ensures var m := ModelOf(was, w, active, nextTabId, viewportCols);
        Model() == m.(states := m.states[was[t].id := st])
    {
      var a := ByIdOf(was, active);
      assert tabs[t].id == Ids(tabs)[t] == was[t].id;
      ChangedModel(was, tabs, w, w, t, st, active, nextTabId, viewportCols);
    }

    // Switching, opening, closing ------------------------------------------------------------

    /** `save_scroll`: every tab's scroll position goes to that tab's own core. */
    method SaveScroll()
      requires Valid()
      modifies this`sent
      ensures sent == old(sent) + Model().ScrollSaves(scrollSave)
    {
      ModelTells();
      SaveEach(Model());
    }

    lemma ModelTells()
      requires Valid()
      ensures Model().active == active && |Model().order| == |tabs|
      ensures forall i :: 0 <= i < |tabs| ==>
        Model().order[i] == tabs[i].id && Told(Model(), tabs[i], Working(), ctxTx)
    {
      forall i | 0 <= i < |tabs| ensures Ids(tabs)[i] == tabs[i].id && Told(Model(), tabs[i], Working(), ctxTx) {
        ByIdAt(tabs, i);
      }
    }

    method SaveEach(ghost m: Strip<B>)
      requires m.active == active && |m.order| == |tabs|
      requires forall i :: 0 <= i < |tabs| ==> m.order[i] == tabs[i].id && Told(m, tabs[i], Working(), ctxTx)
      modifies this`sent
      ensures sent == old(sent) + m.ScrollSaves(scrollSave)
    {
      ghost var before := sent;
      for i := 0 to |tabs|
        invariant sent == before + m.ScrollSaves(scrollSave, i)
      {
        Seqs.Assoc(before, m.ScrollSaves(scrollSave, i), m.ScrollSave(scrollSave, tabs[i].id));
        SaveOne(tabs[i], m);
      }
    }

    method SaveOne(tab: Tab<B>, ghost m: Strip<B>)
      requires m.active == active && Told(m, tab, Working(), ctxTx)
      modifies this`sent
      ensures sent == old(sent) + m.ScrollSave(scrollSave, tab.id)
    {
      var body := if tab.id == active then session.body else tab.screen.value.body;
      var command := scrollSave(body);
      if command.Some? {
        if tab.id == active {
          sent := sent + [Sent(ctxTx, command.value)];
        } else {
          sent := sent + [Sent(tab.cmdTx, command.value)];
        }
      }
    }

    /** Leave the tab on screen for another one: scrolls are saved first. */
    method LeaveFor(id: TabId)
      requires Valid() && id in Ids(tabs)
      modifies this`session, this`currentScene, this`sceneEntries, this`sceneDefault, this`ctxTx,
               this`tabs, this`active, this`sent
      ensures Valid() && Ids(tabs) == old(Ids(tabs)) && active == id
      ensures Model() == old(Model()).Show(id)
      ensures sent == old(sent) + old(Model()).ScrollSaves(scrollSave)
    {
      ghost var m := Model();
      SaveScroll();
      assert Model() == m;
      SetActive(id);
    }

    method SwitchToPosition(position: nat)
      requires Valid()
      modifies this`session, this`currentScene, this`sceneEntries, this`sceneDefault, this`ctxTx,
               this`tabs, this`active, this`sent
      ensures Valid()
      ensures var m := old(Model());
        if position < |m.order| then
          Model() == m.Switch(scrollSave, m.order[position]).0
          && sent == old(sent) + m.Switch(scrollSave, m.order[position]).1
        else Model() == m && sent == old(sent)
    {
      if position >= |tabs| {
        return;
      }
      var id := tabs[position].id;
      if id == active {
        return;
      }
      assert Ids(tabs)[position] == id;
      LeaveFor(id);
    }

    method CycleTab(forward: bool)
      requires Valid()
      modifies this`session, this`currentScene, this`sceneEntries, this`sceneDefault, this`ctxTx,
               this`tabs, this`active, this`sent
      ensures Valid()
      ensures var m := old(Model());
        if |m.order| > 1 then
          Model() == m.Switch(scrollSave, m.Next(forward)).0
          && sent == old(sent) + m.Switch(scrollSave, m.Next(forward)).1
        else Model() == m && sent == old(sent)
    {
      if |tabs| > 1 {
        var current := Position(Ids(tabs), active).value;
        SwitchToPosition(Around(current, |tabs|, forward));
      }
    }

    method OpenTab(core: Core, body: B) returns (id: TabId)
      requires Valid()
      modifies this`tabs, this`nextTabId
      ensures Valid() && id == old(nextTabId) && id in Ids(tabs)
      ensures active in old(Model()).states && Model() == old(Model()).Open(core, body)
    {
      id := nextTabId;
      var tab := Tab(id, sceneDefault, sceneEntries, sceneDefault, core, Some(Screen(viewportCols, body)));
      ghost var now := Model().Open(core, body);
      OpenedTabs(tabs, tab, active);
      OpenedStrip(tabs, Working(), active, id, viewportCols, core, body);
      assert ModelOf(tabs + [tab], Working(), active, id + 1, viewportCols) == now;
      nextTabId := nextTabId + 1;
      tabs := tabs + [tab];
      assert Ids(tabs)[|old(tabs)|] == id;
      assert Model() == now;
    }

    method ShowOpened(id: TabId)
      requires Valid() && id in Ids(tabs)
      modifies this`session, this`currentScene, this`sceneEntries, this`sceneDefault, this`ctxTx,
               this`tabs, this`active, this`sent, this`openedTab
      ensures Valid() && openedTab == Some(id) && active == id
      ensures Model() == old(Model()).Show(id)
      ensures sent == old(sent) + old(Model()).ScrollSaves(scrollSave)
    {
      openedTab := Some(id);
      assert Model() == old(Model());
      LeaveFor(id);
    }

    /** The reply to a spawn: the tab is opened (`s` is the strip at that point) and shown. */
    method TabOpened(core: Core, body: B) returns (ghost s: Strip<B>)
      requires Valid()
      modifies this`session, this`currentScene, this`sceneEntries, this`sceneDefault, this`ctxTx,
               this`tabs, this`active, this`sent, this`nextTabId, this`openedTab
      ensures old(active) in old(Model()).states && s == old(Model()).Open(core, body)
      ensures Valid() && openedTab == Some(old(nextTabId)) && active == old(nextTabId)
      ensures Model() == s.Show(active) && sent == old(sent) + s.ScrollSaves(scrollSave)
    {
      var id := OpenTab(core, body);
      s := Model();
      ShowOpened(id);
    }

    method CloseTab(id: TabId)
      requires Valid() && (id in Ids(tabs) ==> |tabs| >= 2)
      modifies this`session, this`currentScene, this`sceneEntries, this`sceneDefault, this`ctxTx,
               this`tabs, this`active, this`sent
      ensures Valid()
      ensures Model() == old(Model()).Closed(scrollSave, id).0
      ensures sent == old(sent) + old(Model()).Closed(scrollSave, id).1
    {
      ghost var m := Model();
      var position := Position(Ids(tabs), id);
      if position.None? {
        return;
      }
      if id == active {
        LeaveForNeighbour(id);
        assert m.Closed(scrollSave, id) == (Model().Remove(id), m.ScrollSaves(scrollSave));
      }
      Drop(id);
    }

    /** Hand the screen of the tab that is closing to its neighbour. */
    method LeaveForNeighbour(id: TabId)
      requires Valid() && id == active && |tabs| >= 2
      modifies this`session, this`currentScene, this`sceneEntries, this`sceneDefault, this`ctxTx,
               this`tabs, this`active, this`sent
      ensures Valid() && active != id && id in old(Model()).order
      ensures Model() == old(Model()).Show(old(Model()).Neighbour(id))
      ensures sent == old(sent) + old(Model()).ScrollSaves(scrollSave)
    {
      var position := Position(Ids(tabs), id).value;
      var neighbour := if position + 1 < |tabs| then position + 1 else if position >= 1 then position - 1 else 0;
      var next := tabs[neighbour].id;
      assert next == Ids(tabs)[neighbour] && next == Model().Neighbour(id) && next != id;
      LeaveFor(next);
    }

    method Drop(id: TabId)
      requires Valid() && id != active
      modifies this`tabs
      ensures Valid() && Model() == old(Model()).Remove(id)
    {
      RetainModel(tabs, Working(), id, active, nextTabId, viewportCols);
      tabs := Retain(tabs, id);
    }

    method Resize(cols: nat)
      requires Valid()
      modifies this`viewportCols, this`session
      ensures Valid()
      ensures active in old(Model()).states && Model() == old(Model()).Resized(cols)
    {
      ghost var p := ByIdOf(tabs, active);
      FrontModel(Working(), p);
      viewportCols := cols;
      session := session.(cols := cols);
      FrontModel(old(Working()), p);
    }

    /** `send_all`. */
    method SendToAll(cmd: C)
      modifies this`sent
      ensures sent == old(sent) + Elsewhere(cmd, |tabs|) + [Sent(ctxTx, cmd)]
    {
      for i := 0 to |tabs|
        invariant sent == old(sent) + Elsewhere(cmd, i)
      {
        if tabs[i].id != active {
          sent := sent + [Sent(tabs[i].cmdTx, cmd)];
        }
      }
      sent := sent + [Sent(ctxTx, cmd)];
    }

    /** One command to the core of each of the first n tabs but the one on screen. */
    function Elsewhere(cmd: C, n: nat): seq<Sent<C>>
      requires n <= |tabs|
      reads this`active, this`tabs
    {
      if n == 0 then []
      else Elsewhere(cmd, n - 1) + (if tabs[n - 1].id == active then [] else [Sent(tabs[n - 1].cmdTx, cmd)])
    }

    /** What happens to the strip, whatever the event: the swapped slots do to it exactly
        what the plain map of tabs would do. */
    method Update(ev: Event<B, C>)
      requires Valid() && (ev.Closed? && ev.tab in Ids(tabs) ==> |tabs| >= 2)
      modifies this
      ensures Valid() && old(active) in old(Ids(tabs))
      ensures Model() == old(Model()).Step(scrollSave, ev).0
      ensures sent == old(sent) + old(Model()).Step(scrollSave, ev).1
    {
      if ev.Deliver? || ev.Local? {
        Message(ev);
      } else if ev.Cycle? {
        OnCycle(ev);
      } else if ev.Goto? {
        OnGoto(ev);
      } else if ev.Opened? {
        OnOpened(ev);
      } else if ev.Closed? {
        OnClosed(ev);
      } else if ev.Resized? {
        Resize(ev.cols);
      } else {
        SendToEveryone(ev.cmd);
      }
    }

    /** A run of events: the swapped slots go through the run of the plain map of tabs, so
        every fact of its runs is one of the App's. */
    method Updates(evs: seq<Event<B, C>>)
      requires Valid() && Model().Valid() && Allowed(Model(), scrollSave, evs)
      modifies this
      ensures Valid() && Model().Valid()
      ensures Model() == Run(old(Model()), scrollSave, evs)
      ensures sent == old(sent) + Log(old(Model()), scrollSave, evs)
      decreases |evs|
    {
      if evs != [] {
        ghost var m, before := Model(), sent;
        StepValid(m, scrollSave, evs[0]);
        Update(evs[0]);
        ModelValid();
        Seqs.Assoc(before, m.Step(scrollSave, evs[0]).1, Log(Model(), scrollSave, evs[1..]));
        Updates(evs[1..]);
      }
    }

    method Message(ev: Event<B, C>)
      requires Valid() && (ev.Deliver? || ev.Local?)
      modifies this
      ensures Valid() && old(active) in old(Ids(tabs))
      ensures Model() == old(Model()).Step(scrollSave, ev).0
      ensures sent == old(sent) + old(Model()).Step(scrollSave, ev).1
    {
      if ev.Deliver? {
        ApplyToTab(ev.tab, ev.h);
      } else {
        HandleInFront(ev.h);
      }
    }

    method OnCycle(ev: Event<B, C>)
      requires Valid() && ev.Cycle?
      modifies this
      ensures Valid() && old(active) in old(Ids(tabs))
      ensures Model() == old(Model()).Step(scrollSave, ev).0
      ensures sent == old(sent) + old(Model()).Step(scrollSave, ev).1
    {
      CycleTab(ev.forward);
    }

    method OnGoto(ev: Event<B, C>)
      requires Valid() && ev.Goto?
      modifies this
      ensures Valid() && old(active) in old(Ids(tabs))
      ensures Model() == old(Model()).Step(scrollSave, ev).0
      ensures sent == old(sent) + old(Model()).Step(scrollSave, ev).1
    {
      SwitchToPosition(ev.position);
    }

    method OnOpened(ev: Event<B, C>)
      requires Valid() && ev.Opened?
      modifies this
      ensures Valid() && old(active) in old(Ids(tabs))
      ensures Model() == old(Model()).Step(scrollSave, ev).0
      ensures sent == old(sent) + old(Model()).Step(scrollSave, ev).1
    {
      ModelValid();
      OpenedStep(Model(), scrollSave, ev.core, ev.body);
      var _ := TabOpened(ev.core, ev.body);
    }

    method OnClosed(ev: Event<B, C>)
      requires Valid() && ev.Closed? && (ev.tab in Ids(tabs) ==> |tabs| >= 2)
      modifies this
      ensures Valid() && old(active) in old(Ids(tabs))
      ensures Model() == old(Model()).Step(scrollSave, ev).0
      ensures sent == old(sent) + old(Model()).Step(scrollSave, ev).1
    {
      CloseTab(ev.tab);
    }

    /** In the foreground `send_all` is the strip's broadcast. */
    method SendToEveryone(cmd: C)
      requires Valid()
      modifies this`sent
      ensures Valid() && Model() == old(Model())
      ensures sent == old(sent) + Model().Everyone(cmd)
    {
      var i := ByIdOf(tabs, active);
      FrontModel(Working(), i);
      ElsewhereIsBackground(cmd, |tabs|);
      Seqs.Assoc(sent, Model().Background(cmd), Model().To(active, cmd));
      SendToAll(cmd);
    }

    lemma {:induction false} ElsewhereIsBackground(cmd: C, n: nat)
      requires Valid() && n <= |tabs|
      ensures Elsewhere(cmd, n) == Model().Background(cmd, n)
    {
      if n > 0 {
        ElsewhereIsBackground(cmd, n - 1);
        ByIdAt(tabs, n - 1);
      }
    }

    // Senders --------------------------------------------------------------------------------

    /** How many senders of a core the App holds: one per tab it drives, and `ctx`. */
    ghost function Senders(core: Core): nat
      reads this
    {
      CountTx(tabs, core, |tabs|) + (if ctxTx == core then 1 else 0)
    }

    /** The App holds one sender per open tab and a second one for the tab on screen, and
        none of any other core. */
    lemma SendersOf(core: Core)
      requires Valid() && Model().OwnCores()
      ensures core !in Model().cores.Values ==> Senders(core) == 0
      ensures forall id :: id in Model().cores && Model().cores[id] == core ==>
        Senders(core) == if id == active then 2 else 1
    {
      var m := Model();
      var a := ByIdOf(tabs, active);
      forall i, j | 0 <= i < j < |tabs| ensures tabs[i].cmdTx != tabs[j].cmdTx {
        ByIdAt(tabs, i);
        ByIdAt(tabs, j);
        assert m.cores[tabs[i].id] == tabs[i].cmdTx && m.cores[tabs[j].id] == tabs[j].cmdTx;
      }
      CountTxIs(tabs, core, |tabs|);
      assert m.cores[active] == ctxTx;
      forall i | 0 <= i < |tabs| ensures tabs[i].id in m.cores && m.cores[tabs[i].id] == tabs[i].cmdTx {
        ByIdAt(tabs, i);
      }
      forall id | id in m.cores && m.cores[id] == core
        ensures Senders(core) == if id == active then 2 else 1
      {
        var i := ByIdOf(tabs, id);
      }
    }
  }
}
