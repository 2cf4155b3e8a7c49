/**
 The tabs as a user thinks of them: an ordered strip of ids, and a plain map from each id
 to the state of that tab and to the core behind it.  The working slots, the parked
 screens and the staging of the real App are not seen here.
 */
module Tabs {
  import opened Pastes

  type TabId = nat
  // The identity of a core's command channel.
  type Core = nat

  /** What a handler may change in a tab: the screen, its scene and its scene roster. */
  datatype Content<B> = Content(body: B, scene: Option<string>, scenes: seq<string>, sceneDefault: Option<string>)

  /** One tab: the width its screen was last given, and its content. */
  datatype TabState<B> = TabState(cols: nat, content: Content<B>)

  datatype Sent<C> = Sent(core: Core, cmd: C)

  /** A message handler: a function of the tab's content, and of whether the tab is in the
      foreground, that may send commands to the tab's core. */
  type Handler<!B, !C> = (Content<B>, bool) -> (Content<B>, seq<C>)

  datatype Event<!B, !C> =
    | Deliver(tab: TabId, h: Handler<B, C>)
    | Local(h: Handler<B, C>)
    | Cycle(forward: bool)
    | Goto(position: nat)
    | Opened(core: Core, body: B)
    | Closed(tab: TabId)
    | Resized(cols: nat)
    | Broadcast(cmd: C)

  function Position(ids: seq<TabId>, id: TabId, from: nat := 0): (p: Option<nat>)
    requires from <= |ids|
    ensures p.Some? ==> from <= p.value < |ids| && ids[p.value] == id
    ensures p.None? ==> forall i :: from <= i < |ids| ==> ids[i] != id
    decreases |ids| - from
  {
    if from == |ids| then None
    else if ids[from] == id then Some(from)
    else Position(ids, id, from + 1)
  }

  function SendAll<C>(core: Core, cmds: seq<C>): (r: seq<Sent<C>>)
    ensures |r| == |cmds|
  {
    seq(|cmds|, i requires 0 <= i < |cmds| => Sent(core, cmds[i]))
  }

  /** The strip without tab `id`. */
  function Without(ids: seq<TabId>, id: TabId): (r: seq<TabId>)
    ensures forall x :: x in r <==> x in ids && x != id
  {
    if ids == [] then []
    else
      var r := Without(ids[..|ids| - 1], id);
      assert ids == ids[..|ids| - 1] + [ids[|ids| - 1]];
      if ids[|ids| - 1] == id then r else r + [ids[|ids| - 1]]
  }

  lemma ModNear(a: nat, n: nat)
    requires a < 2 * n
    ensures a % n == if a < n then a else a - n
  {
    if a >= n {
      var q := a / n;
      assert a == q * n + a % n;
      assert q >= 2 ==> q * n >= 2 * n;
      assert q >= 1;
    }
  }

  /** The position after p, or before it, wrapping at either end. */
  function Around(p: nat, n: nat, forward: bool): (q: nat)
    requires p < n
    ensures q < n
    ensures q == if forward then (if p + 1 == n then 0 else p + 1) else (if p == 0 then n - 1 else p - 1)
  {
    var a := if forward then p + 1 else p + n - 1;
    ModNear(a, n);
    a % n
  }

  datatype Strip<B> = Strip(
    order: seq<TabId>,
    states: map<TabId, TabState<B>>,
    cores: map<TabId, Core>,
    active: TabId,
    nextId: TabId,
    cols: nat)
  {
    ghost predicate Valid() {
      && (forall i, j :: 0 <= i < j < |order| ==> order[i] != order[j])
      && (forall id :: id in order <==> id in states)
      && (forall id :: id in order <==> id in cores)
      && (forall id :: id in order ==> id < nextId)
      && active in order && states[active].cols == cols
    }

    /** No two tabs are driven by the same core. */
    ghost predicate OwnCores() {
      forall a, b :: a in cores && b in cores && a != b ==> cores[a] != cores[b]
    }

    /** The loop closes no last tab, and every core it spawns is a new one. */
    predicate Allows<C>(ev: Event<B, C>) {
      (ev.Closed? && ev.tab in order ==> |order| >= 2)
      && (ev.Opened? ==> ev.core !in cores.Values)
    }

    /** A command for the core of tab `id`. */
    function To<C>(id: TabId, cmd: C): seq<Sent<C>> {
      if id in cores then [Sent(cores[id], cmd)] else []
    }

    /** Where each tab's chat was scrolled to, sent to that tab's own core. */
    function ScrollSaves<C>(save: B -> Option<C>, n: nat := |order|): seq<Sent<C>>
      requires n <= |order|
    {
      if n == 0 then [] else ScrollSaves(save, n - 1) + ScrollSave(save, order[n - 1])
    }

    function ScrollSave<C>(save: B -> Option<C>, id: TabId): seq<Sent<C>> {
      if id !in states then []
      else
        match save(states[id].content.body)
        case None => []
        case Some(cmd) => To(id, cmd)
    }

    /** Show tab `id`: it takes the width the window has by now. */
    function Show(id: TabId): Strip<B> {
      if id == active || id !in states then this
      else this.(active := id, states := states[id := states[id].(cols := cols)])
    }

    function Switch<C>(save: B -> Option<C>, id: TabId): (Strip<B>, seq<Sent<C>>) {
      if id == active then (this, []) else (Show(id), ScrollSaves(save))
    }

    function Receive<C>(id: TabId, h: Handler<B, C>): (Strip<B>, seq<Sent<C>>) {
      if id in states && id in cores then
        var (content, cmds) := h(states[id].content, id == active);
        (this.(states := states[id := states[id].(content := content)]), SendAll(cores[id], cmds))
      else (this, [])
    }

    /** A new tab starts with the roster and the default scene the user already sees. */
    function Open(core: Core, body: B): Strip<B>
      requires active in states
    {
      var c := states[active].content;
      var st := TabState(cols, Content(body, c.sceneDefault, c.scenes, c.sceneDefault));
      this.(order := order + [nextId], states := states[nextId := st], cores := cores[nextId := core],
            nextId := nextId + 1)
    }

    function Remove(id: TabId): Strip<B> {
      this.(order := Without(order, id), states := states - {id}, cores := cores - {id})
    }

    /** The tab that takes the screen over from tab `id`: the next one, or the one before. */
    function Neighbour(id: TabId): TabId
      requires id in order
    {
      var p := Position(order, id).value;
      if p + 1 < |order| then order[p + 1] else if p >= 1 then order[p - 1] else order[0]
    }

    /** The tab after the active one, or before it, wrapping at either end. */
    function Next(forward: bool): TabId
      requires active in order
    {
      order[Around(Position(order, active).value, |order|, forward)]
    }

    function Opened<C>(save: B -> Option<C>, core: Core, body: B): (Strip<B>, seq<Sent<C>>)
      requires active in states
    {
      var s := Open(core, body);
      (s.Show(nextId), s.ScrollSaves(save))
    }

    function Closed<C>(save: B -> Option<C>, tab: TabId): (Strip<B>, seq<Sent<C>>) {
      if tab !in order then (this, [])
      else if tab == active then (Show(Neighbour(tab)).Remove(tab), ScrollSaves(save))
      else (Remove(tab), [])
    }

    function Resized(cols: nat): Strip<B>
      requires active in states
    {
      this.(cols := cols, states := states[active := states[active].(cols := cols)])
    }

    /** A command for every core: the background ones in strip order, then the active one. */
    function Everyone<C>(cmd: C): seq<Sent<C>> {
      Background(cmd) + To(active, cmd)
    }

    function Background<C>(cmd: C, n: nat := |order|): seq<Sent<C>>
      requires n <= |order|
    {
      if n == 0 then []
      else Background(cmd, n - 1) + (if order[n - 1] == active then [] else To(order[n - 1], cmd))
    }

    function Step<C>(save: B -> Option<C>, ev: Event<B, C>): (Strip<B>, seq<Sent<C>>)
      requires active in order && active in states
    {
      match ev
      case Deliver(tab, h) => Receive(tab, h)
      case Local(h) => Receive(active, h)
      case Cycle(forward) => if |order| > 1 then Switch(save, Next(forward)) else (this, [])
      case Goto(position) => if position < |order| then Switch(save, order[position]) else (this, [])
      case Opened(core, body) => Opened(save, core, body)
      case Closed(tab) => Closed(save, tab)
      case Resized(cols) => (Resized(cols), [])
      case Broadcast(cmd) => (this, Everyone(cmd))
    }
  }
}
