/** The render loop's side of the tabs: the running cores, and who holds their senders. */
module RenderLoop {
  import opened Pastes
  import opened Tabs
  import opened TabRuns
  import opened App

  /** Opening a tab and showing it adds its core, which no other tab shares. */
  lemma OpenShownCores<B>(m: Strip<B>, core: Core, body: B)
    requires m.active in m.states && m.OwnCores() && core !in m.cores.Values
    ensures var s := m.Open(core, body).Show(m.nextId);
      s.cores == m.cores[m.nextId := core] && s.OwnCores()
  {
    OpenOwnCores(m, core, body);
  }

  /** A tab's core drives no other tab. */
  lemma DroppedCore<B>(m: Strip<B>, id: TabId)
    requires m.OwnCores() && id in m.cores
    ensures m.cores[id] !in (m.cores - {id}).Values
    ensures forall a, b :: a in m.cores - {id} && b in m.cores - {id} && a != b ==> m.cores[a] != m.cores[b]
  {}

  class RenderLoop<B, C> {
    const app: App<B, C>
    // The core of each tab, with the loop's own sender of it.
    var live: map<TabId, Core>
    // The cores that were told to cancel their turn, and those that were then stopped.
    var cancelled: seq<Core>
    var joined: seq<Core>

    /** At every step of the loop the live cores are those of the open tabs. */
    ghost predicate Valid()
      reads this, app
    {
      app.Valid() && app.Model().OwnCores() && live == app.Model().cores
    }

    /** How many senders of a core there are: the App's and the loop's. */
    ghost function Senders(core: Core): nat
      reads this, app
    {
      app.Senders(core) + |set id | id in live && live[id] == core|
    }

    constructor (screen: B, core: Core, cols: nat, scrollSave: B -> Option<C>)
      ensures Valid() && fresh(app) && live == map[0 := core]
    {
      app := new App(screen, core, cols, scrollSave);
      live := map[0 := core];
      cancelled, joined := [], [];
      new;
      assert app.Model().cores.Keys == {0};
    }

    /** Each open tab's core has one sender in the strip, one more in `ctx` when the tab is
        on screen, and one in the loop. */
    lemma SenderAccounting(id: TabId)
      requires Valid() && id in live
      ensures Senders(live[id]) == if id == app.active then 3 else 2
    {
      app.SendersOf(live[id]);
      assert (set i | i in live && live[i] == live[id]) == {id};
    }

    /** Any event that neither opens nor closes a tab. */
    method Dispatch(ev: Event<B, C>)
      requires Valid() && !ev.Opened? && !ev.Closed?
      modifies app
      ensures Valid()
    {
      StepKeepsCores(app.Model(), app.scrollSave, ev);
      app.Update(ev);
    }

    /** A spawned core: the tab exists before its events are read, then its core is live. */
    method SpawnTab(core: Core, body: B) returns (id: TabId)
      requires Valid() && core !in live.Values
      modifies this, app
      ensures Valid() && id == old(app.nextTabId)
      ensures live == old(live)[id := core] && joined == old(joined)
    {
      id := AddTab(core, body);
      live := live[id := core];
    }

    /** `AppMessage::TabOpened`: the App's half, before the loop has the core. */
    method AddTab(core: Core, body: B) returns (id: TabId)
      requires Valid() && core !in live.Values
      modifies app
      ensures app.Valid() && id == old(app.nextTabId)
      ensures app.Model().cores == live[id := core] && app.Model().OwnCores()
    {
      OpenShownCores(app.Model(), core, body);
      ghost var s := app.TabOpened(core, body);
      id := app.openedTab.value;
    }

    /** `CommandAction::CloseTab`: the last tab stays; any other is closed and its core
        stopped, at a point where the loop drops the last sender of it. */
    method CloseActive()
      requires Valid()
      modifies this, app
      ensures Valid() && old(app.active) in old(live)
      ensures old(|app.tabs|) < 2 ==> live == old(live) && joined == old(joined) && unchanged(app)
      ensures old(|app.tabs|) >= 2 ==>
        && live == old(live) - {old(app.active)}
        && joined == old(joined) + [old(live)[old(app.active)]]
        && Senders(old(live)[old(app.active)]) == 0
    {
      if |app.tabs| < 2 {
        return;
      }
      CloseTab(app.active);
    }

    /** The close effect: the App drops its senders first, then the loop its own. */
    method CloseTab(id: TabId)
      requires Valid() && id in live && |app.tabs| >= 2
      modifies this, app
      ensures Valid() && live == old(live) - {id}
      ensures joined == old(joined) + [old(live)[id]]
      ensures Senders(old(live)[id]) == 0
    {
      ghost var m := app.Model();
      DropTab(id);
      DroppedCore(m, id);
      app.SendersOf(live[id]);
      Close(id);
    }

    /** `AppMessage::TabClosed`: the App's half, while the loop still has the core. */
    method DropTab(id: TabId)
      requires Valid() && id in live && |app.tabs| >= 2
      modifies app
      ensures app.Valid() && app.Model().cores == live - {id}
    {
      StepKeepsCores(app.Model(), app.scrollSave, Closed(id));
      app.CloseTab(id);
    }

    /** `Cores::close`: called once the App holds no sender of the tab's core, so the one
        dropped here is the last and the core's loop can end; its turn is cancelled first. */
    method Close(id: TabId)
      requires id in live ==> app.Senders(live[id]) == 0
      requires forall a, b :: a in live && b in live && a != b ==> live[a] != live[b]
      modifies this
      ensures live == old(live) - {id}
      ensures joined == if id in old(live) then old(joined) + [old(live)[id]] else old(joined)
      ensures cancelled == if id in old(live) then old(cancelled) + [old(live)[id]] else old(cancelled)
      ensures id in old(live) ==> Senders(old(live)[id]) == 0
    {
      if id !in live {
        return;
      }
      var core := live[id];
      cancelled := cancelled + [core];
      live := live - {id};
      joined := joined + [core];
    }
  }
}
