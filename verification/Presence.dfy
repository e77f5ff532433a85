/**
 Presence (internal/socket/hub.go): a user is online while one of their connections shows a visible page.
 An event is worked out under the lock and handed to the listeners after the lock is released.
 */
module Presence {
  import opened Wrappers

  type UserId = nat

  datatype Conn = Conn(id: nat, user: UserId)

  /** The connections of each user, with whether their page is visible. */
  type Conns = map<UserId, map<Conn, bool>>

  datatype Event = Event(user: UserId, online: bool)

  predicate AnyVisible(held: map<Conn, bool>) {
    exists c :: c in held && held[c]
  }

  function Held(conns: Conns, user: UserId): map<Conn, bool> {
    if user in conns then conns[user] else map[]
  }

  predicate Online(conns: Conns, user: UserId) {
    AnyVisible(Held(conns, user))
  }

  function Added(conns: Conns, c: Conn): Conns {
    conns[c.user := Held(conns, c.user)[c := false]]
  }

  /** A user without connections has no entry. */
  function Removed(conns: Conns, c: Conn): Conns {
    var left := Held(conns, c.user) - {c};
    if left == map[] then conns - {c.user} else conns[c.user := left]
  }

  function Shown(conns: Conns, c: Conn, visible: bool): Conns {
    if c in Held(conns, c.user) then conns[c.user := conns[c.user][c := visible]] else conns
  }

  function Change(before: Conns, after: Conns, user: UserId): Option<Event> {
    if Online(before, user) == Online(after, user) then None else Some(Event(user, Online(after, user)))
  }

  // ---------- The hub ----------

  class Hub {
    var conns: Conns

    ghost predicate Valid()
      reads this
    {
      forall u :: u in conns ==> conns[u] != map[]
    }

    constructor ()
      ensures Valid() && conns == map[]
    {
      conns := map[];
    }

    static method VisibleIn(held: map<Conn, bool>) returns (visible: bool)
      ensures visible <==> AnyVisible(held)
    {
      var rest := held.Keys;
      while rest != {}
        invariant rest <= held.Keys
        invariant forall c :: c in held.Keys - rest ==> !held[c]
      {
        var c :| c in rest;
        if held[c] {
          return true;
        }
        rest := rest - {c};
      }
      return false;
    }

    method Add(c: Conn)
      requires Valid()
      modifies this
      ensures Valid() && conns == Added(old(conns), c)
    {
      var held := if c.user in conns then conns[c.user] else map[];
      held := held[c := false];
      assert c in held;
      conns := conns[c.user := held];
    }

    /** Drops a connection; gives the event to fire when that takes the user offline. */
    method Remove(c: Conn) returns (event: Option<Event>)
      requires Valid()
      modifies this
      ensures Valid() && conns == Removed(old(conns), c)
      ensures event == Change(old(conns), conns, c.user)
    {
      var held := if c.user in conns then conns[c.user] else map[];
      var before := VisibleIn(held);
      held := held - {c};
      if |held| == 0 {
        assert held == map[];
        conns := conns - {c.user};
      } else {
        conns := conns[c.user := held];
      }
      var after := VisibleIn(held);
      return if before != after then Some(Event(c.user, after)) else None;
    }

    method SetVisible(c: Conn, visible: bool) returns (event: Option<Event>)
      requires Valid()
      modifies this
      ensures Valid() && conns == Shown(old(conns), c, visible)
      ensures event == Change(old(conns), conns, c.user)
    {
      var held := if c.user in conns then conns[c.user] else map[];
      if c !in held {
        return None;
      }
      var before := VisibleIn(held);
      held := held[c := visible];
      conns := conns[c.user := held];
      var after := VisibleIn(held);
      return if before != after then Some(Event(c.user, after)) else None;
    }

    method OnlineUsers() returns (out: seq<UserId>)
      ensures forall u :: u in out <==> Online(conns, u)
      ensures forall i, j :: 0 <= i < j < |out| ==> out[i] != out[j]
    {
      out := [];
      var rest := conns.Keys;
      while rest != {}
        invariant rest <= conns.Keys
        invariant forall u :: u in out <==> u in conns.Keys - rest && Online(conns, u)
        invariant forall i, j :: 0 <= i < j < |out| ==> out[i] != out[j]
      {
        var u :| u in rest;
        var visible := VisibleIn(conns[u]);
        if visible {
          assert u !in out;
          out := out + [u];
        }
        rest := rest - {u};
      }
    }
  }

  // ---------- Runs ----------

  /**
   The connections, the events in the order in which the critical sections produced them, the events that are
   still on their way (one for each connection at most, since its goroutine waits for the listeners), and the
   events that the listeners have got, in their order.
   */
  datatype World = World(conns: Conns, produced: seq<Event>, pending: map<Conn, nat>, heard: seq<nat>,
                         used: set<Conn>, gone: set<Conn>)

  datatype Op = Connect(c: Conn) | Show(c: Conn, visible: bool) | Disconnect(c: Conn) | Fire(c: Conn)

  /** One critical section of a connection. */
  function Section(w: World, c: Conn, conns: Conns): World {
    match Change(w.conns, conns, c.user)
    case None => w.(conns := conns)
    case Some(e) => w.(conns := conns, produced := w.produced + [e], pending := w.pending[c := |w.produced|])
  }

  /** The connection is open, and its goroutine is not held up by the listeners. */
  predicate Ready(w: World, c: Conn) {
    c in w.used && c !in w.gone && c !in w.pending
  }

  predicate Step(w: World, op: Op, w': World) {
    match op
    case Connect(c) => c !in w.used && w' == w.(conns := Added(w.conns, c), used := w.used + {c})
    case Show(c, visible) => Ready(w, c) && w' == Section(w, c, Shown(w.conns, c, visible))
    case Disconnect(c) => Ready(w, c) && w' == Section(w, c, Removed(w.conns, c)).(gone := w.gone + {c})
    case Fire(c) => c in w.pending && w' == w.(heard := w.heard + [w.pending[c]], pending := w.pending - {c})
  }

  const START := World(map[], [], map[], [], {}, {})

  ghost predicate CanStep(w: World, w': World) {
    exists op :: Step(w, op, w')
  }

  ghost predicate IsRun(ws: seq<World>) {
    && |ws| > 0 && ws[0] == START
    && forall k :: 0 <= k < |ws| - 1 ==> CanStep(ws[k], ws[k + 1])
  }

  // ---------- What the events say ----------

  /** What the events so far make of a user, who starts offline. */
  function Replay(events: seq<Event>, user: UserId): bool {
    if events == [] then false
    else
      var e := events[|events| - 1];
      if e.user == user then e.online else Replay(events[..|events| - 1], user)
  }

  /** Every event says something new: for each user online and offline take turns, online first. */
  predicate Alternate(events: seq<Event>) {
    events != [] ==>
      var init, e := events[..|events| - 1], events[|events| - 1];
      Alternate(init) && e.online != Replay(init, e.user)
  }

  ghost predicate HistoryInv(w: World) {
    Alternate(w.produced) && forall u :: Replay(w.produced, u) == Online(w.conns, u)
  }

  ghost predicate ConnsInv(w: World) {
    && w.gone <= w.used
    && forall u, c :: u in w.conns && c in w.conns[u] ==> c.user == u && c in w.used && c !in w.gone
  }

  predicate IsPending(w: World, i: nat) {
    exists c :: c in w.pending && w.pending[c] == i
  }

  /** Every event has been produced, and then is either on its way or heard, once. */
  ghost predicate DeliveryInv(w: World) {
    && (forall c :: c in w.pending ==>
          c in w.used && w.pending[c] < |w.produced| && w.produced[w.pending[c]].user == c.user)
    && (forall c, d :: c in w.pending && d in w.pending && c != d ==> w.pending[c] != w.pending[d])
    && (forall q :: 0 <= q < |w.heard| ==> w.heard[q] < |w.produced| && !IsPending(w, w.heard[q]))
    && (forall p, q :: 0 <= p < q < |w.heard| ==> w.heard[p] != w.heard[q])
    && (forall i :: 0 <= i < |w.produced| ==> IsPending(w, i) || i in w.heard)
  }

  /** While an online event is on its way its connection stays visible, and no event of that user follows it. */
  ghost predicate OnlineInv(w: World) {
    forall c :: c in w.pending && w.pending[c] < |w.produced| && w.produced[w.pending[c]].online ==>
      && c in Held(w.conns, c.user) && Held(w.conns, c.user)[c]
      && forall j :: w.pending[c] < j < |w.produced| ==> w.produced[j].user != c.user
  }

  predicate HeardBefore(heard: seq<nat>, i: nat, q: nat) {
    exists p :: 0 <= p < q && p < |heard| && heard[p] == i
  }

  /** Event j follows event i, which took the same user online. */
  predicate LeadsTo(produced: seq<Event>, i: int, j: int) {
    0 <= i < j < |produced| && produced[i].user == produced[j].user && produced[i].online
  }

  /** Events of one user that follow an online event are heard after it. */
  ghost predicate OrderInv(w: World) {
    forall i, q :: 0 <= q < |w.heard| && LeadsTo(w.produced, i, w.heard[q]) ==> HeardBefore(w.heard, i, q)
  }

  ghost predicate Inv(w: World) {
    ConnsInv(w) && HistoryInv(w) && DeliveryInv(w) && OnlineInv(w) && OrderInv(w)
  }

  // ---------- Steps ----------

  /** What a step does to the connections of one user, and to nobody else. */
  lemma OthersKeepPresence(conns: Conns, c: Conn, visible: bool, u: UserId)
    requires u != c.user
    ensures Held(Added(conns, c), u) == Held(conns, u) && Held(Shown(conns, c, visible), u) == Held(conns, u)
    ensures Held(Removed(conns, c), u) == Held(conns, u)
  {
  }

  lemma AddingIsSilent(conns: Conns, c: Conn)
    requires c !in Held(conns, c.user)
    ensures Online(Added(conns, c), c.user) == Online(conns, c.user)
  {
    if Online(conns, c.user) {
      var d :| d in Held(conns, c.user) && Held(conns, c.user)[d];
      assert Held(Added(conns, c), c.user)[d];
    }
  }

  /** A section that touches only c changes nobody's presence but that of its user. */
  ghost predicate Touches(before: Conns, after: Conns, c: Conn) {
    && (forall u :: u != c.user ==> Held(after, u) == Held(before, u))
    && (forall d :: d != c ==> (d in Held(after, c.user) <==> d in Held(before, c.user)))
    && (forall d :: d != c && d in Held(before, c.user) ==> Held(after, c.user)[d] == Held(before, c.user)[d])
  }

  /** If the section takes the user online, it is by showing c. */
  ghost predicate OnlyShows(before: Conns, after: Conns, c: Conn) {
    !Online(before, c.user) ==> forall d :: d in Held(after, c.user) && Held(after, c.user)[d] ==> d == c
  }

  lemma ReplayMore(events: seq<Event>, e: Event, u: UserId)
    ensures Replay(events + [e], u) == if e.user == u then e.online else Replay(events, u)
    ensures Alternate(events + [e]) <==> Alternate(events) && e.online != Replay(events, e.user)
  {
    assert (events + [e])[..|events|] == events;
  }

  lemma SectionKeepsHistory(w: World, c: Conn, conns: Conns)
    requires HistoryInv(w) && Touches(w.conns, conns, c)
    ensures HistoryInv(Section(w, c, conns))
  {
    hide Replay, Alternate, AnyVisible;
    var w' := Section(w, c, conns);
    forall u ensures Replay(w'.produced, u) == Online(conns, u) {
      if Change(w.conns, conns, c.user).Some? {
        ReplayMore(w.produced, Change(w.conns, conns, c.user).value, u);
      }
    }
    if Change(w.conns, conns, c.user).Some? {
      ReplayMore(w.produced, Change(w.conns, conns, c.user).value, c.user);
    }
  }

  lemma SectionKeepsDelivery(w: World, c: Conn, conns: Conns)
    requires DeliveryInv(w) && Ready(w, c)
    ensures DeliveryInv(Section(w, c, conns))
  {
    hide Online;
    var w' := Section(w, c, conns);
    if Change(w.conns, conns, c.user).Some? {
      assert w'.pending[c] == |w.produced|;
      forall i: nat ensures IsPending(w', i) <==> IsPending(w, i) || i == |w.produced| {
        OneMorePending(w, w', c, |w.produced|, i);
      }
      OneMoreDelivery(w, w', c);
    }
  }

  lemma OneMorePending(w: World, w': World, c: Conn, n: nat, i: nat)
    requires c !in w.pending && w'.pending == w.pending[c := n]
    ensures IsPending(w', i) <==> IsPending(w, i) || i == n
  {
    assert w'.pending[c] == n;
    if IsPending(w, i) {
      var d :| d in w.pending && w.pending[d] == i;
      assert w'.pending[d] == i;
    }
  }

  lemma OneMoreDelivery(w: World, w': World, c: Conn)
    requires DeliveryInv(w) && c !in w.pending && c in w'.used && w'.used == w.used && w'.heard == w.heard
    requires w'.pending == w.pending[c := |w.produced|]
    requires |w'.produced| == |w.produced| + 1 && w'.produced[..|w.produced|] == w.produced
    requires w'.produced[|w.produced|].user == c.user
    requires forall i: nat :: IsPending(w', i) <==> IsPending(w, i) || i == |w.produced|
    ensures DeliveryInv(w')
  {
    hide IsPending;
    assert forall i :: 0 <= i < |w.produced| ==> w'.produced[i] == w.produced[i];
  }

  /** While another connection of the user is visible, a section produces no event. */
  lemma VisibleKeepsQuiet(before: Conns, after: Conns, c: Conn, d: Conn)
    requires Touches(before, after, c) && d != c && d in Held(before, c.user) && Held(before, c.user)[d]
    ensures Change(before, after, c.user) == None
  {
    assert Held(after, c.user)[d];
  }

  lemma SectionKeepsOnline(w: World, c: Conn, conns: Conns)
    requires OnlineInv(w) && DeliveryInv(w) && Ready(w, c) && Touches(w.conns, conns, c)
    requires OnlyShows(w.conns, conns, c)
    ensures OnlineInv(Section(w, c, conns))
  {
    hide AnyVisible, IsPending;
    var w' := Section(w, c, conns);
    var change := Change(w.conns, conns, c.user);
    forall d | d in w'.pending && w'.pending[d] < |w'.produced| && w'.produced[w'.pending[d]].online
      ensures d in Held(conns, d.user) && Held(conns, d.user)[d]
      ensures forall j :: w'.pending[d] < j < |w'.produced| ==> w'.produced[j].user != d.user
    {
      if d == c {
        VisibleIsThere(Held(conns, c.user));
      } else {
        assert d in w.pending && w.pending[d] == w'.pending[d];
        assert w'.produced[w.pending[d]] == w.produced[w.pending[d]];
        if d.user == c.user {
          VisibleKeepsQuiet(w.conns, conns, c, d);
        }
      }
    }
  }

  lemma VisibleIsThere(held: map<Conn, bool>)
    requires AnyVisible(held)
    ensures exists c :: c in held && held[c]
  {
  }

  lemma SectionKeepsOrder(w: World, c: Conn, conns: Conns)
    requires OrderInv(w) && DeliveryInv(w)
    ensures OrderInv(Section(w, c, conns))
  {
    hide Online, HeardBefore, IsPending;
    var w' := Section(w, c, conns);
    forall i, q | 0 <= q < |w'.heard| && LeadsTo(w'.produced, i, w'.heard[q])
      ensures HeardBefore(w'.heard, i, q)
    {
      assert w.heard[q] < |w.produced|;
    }
  }

  lemma ShowTouches(conns: Conns, c: Conn, visible: bool)
    ensures Touches(conns, Shown(conns, c, visible), c)
    ensures OnlyShows(conns, Shown(conns, c, visible), c)
  {
  }

  lemma RemoveTouches(conns: Conns, c: Conn)
    ensures Touches(conns, Removed(conns, c), c) && c !in Held(Removed(conns, c), c.user)
    ensures OnlyShows(conns, Removed(conns, c), c)
  {
    assert Held(Removed(conns, c), c.user) == Held(conns, c.user) - {c};
  }

  lemma SectionKeepsInv(w: World, c: Conn, conns: Conns)
    requires HistoryInv(w) && DeliveryInv(w) && OnlineInv(w) && OrderInv(w) && Ready(w, c) && Touches(w.conns, conns, c)
    requires OnlyShows(w.conns, conns, c)
    ensures var w' := Section(w, c, conns); HistoryInv(w') && DeliveryInv(w') && OnlineInv(w') && OrderInv(w')
  {
    hide *;
    SectionKeepsHistory(w, c, conns);
    SectionKeepsDelivery(w, c, conns);
    SectionKeepsOnline(w, c, conns);
    SectionKeepsOrder(w, c, conns);
  }

  lemma ConnectKeepsInv(w: World, c: Conn)
    requires Inv(w) && c !in w.used
    ensures Inv(w.(conns := Added(w.conns, c), used := w.used + {c}))
  {
    hide Replay, Alternate, AnyVisible, IsPending, HeardBefore;
    var w' := w.(conns := Added(w.conns, c), used := w.used + {c});
    assert c !in Held(w.conns, c.user);
    AddingIsSilent(w.conns, c);
    forall u ensures Replay(w.produced, u) == Online(w'.conns, u) {
      if u != c.user {
        OthersKeepPresence(w.conns, c, false, u);
      }
    }
    SameDeliveries(w, w');
    forall u, d | u in w'.conns && d in w'.conns[u] ensures d.user == u && d in w'.used && d !in w'.gone {
      assert d != c ==> u in w.conns && d in w.conns[u];
      assert d == c ==> u == c.user;
    }
  }

  lemma SameDeliveries(w: World, w': World)
    requires DeliveryInv(w) && w'.pending == w.pending && w'.produced == w.produced && w'.heard == w.heard
    requires w.used <= w'.used
    ensures DeliveryInv(w')
  {
    assert forall i :: IsPending(w, i) <==> IsPending(w', i);
  }

  lemma FireKeepsDelivery(w: World, c: Conn)
    requires DeliveryInv(w) && c in w.pending
    ensures DeliveryInv(w.(heard := w.heard + [w.pending[c]], pending := w.pending - {c}))
  {
    var w' := w.(heard := w.heard + [w.pending[c]], pending := w.pending - {c});
    forall i ensures IsPending(w', i) <==> IsPending(w, i) && i != w.pending[c] {
      if IsPending(w, i) && i != w.pending[c] {
        var d :| d in w.pending && w.pending[d] == i;
        assert d in w'.pending && w'.pending[d] == i;
      }
    }
    assert IsPending(w, w.pending[c]);
    forall i | 0 <= i < |w'.produced| ensures IsPending(w', i) || i in w'.heard {
      assert w'.heard[|w.heard|] == w.pending[c];
    }
  }

  lemma FireKeepsOrder(w: World, c: Conn)
    requires DeliveryInv(w) && OnlineInv(w) && OrderInv(w) && c in w.pending
    ensures OrderInv(w.(heard := w.heard + [w.pending[c]], pending := w.pending - {c}))
  {
    var w' := w.(heard := w.heard + [w.pending[c]], pending := w.pending - {c});
    forall i, q | 0 <= q < |w'.heard| && LeadsTo(w'.produced, i, w'.heard[q])
      ensures HeardBefore(w'.heard, i, q)
    {
      if q < |w.heard| {
        assert HeardBefore(w.heard, i, q);
        var p :| 0 <= p < q && p < |w.heard| && w.heard[p] == i;
        assert w'.heard[p] == i;
      } else {
        OnlineIsHeard(w, i, w.pending[c]);
        var p :| 0 <= p < |w.heard| && w.heard[p] == i;
        assert w'.heard[p] == i;
      }
    }
  }

  /** An online event that another of its user follows has been heard. */
  lemma OnlineIsHeard(w: World, i: nat, j: nat)
    requires DeliveryInv(w) && OnlineInv(w) && i < j < |w.produced|
    requires w.produced[i].user == w.produced[j].user && w.produced[i].online
    ensures i in w.heard
  {
    forall c | c in w.pending ensures w.pending[c] != i {
      assert w.produced[w.pending[c]].user == c.user;
    }
  }

  lemma FireKeepsInv(w: World, c: Conn)
    requires Inv(w) && c in w.pending
    ensures Inv(w.(heard := w.heard + [w.pending[c]], pending := w.pending - {c}))
  {
    hide Replay, Alternate, AnyVisible, DeliveryInv, OrderInv;
    FireKeepsDelivery(w, c);
    FireKeepsOrder(w, c);
  }

  lemma SectionKeepsConns(w: World, c: Conn, conns: Conns, gone: set<Conn>)
    requires ConnsInv(w) && Touches(w.conns, conns, c) && Ready(w, c) && gone <= w.gone + {c}
    requires c in gone ==> c !in Held(conns, c.user)
    ensures ConnsInv(Section(w, c, conns).(gone := gone))
  {
    hide AnyVisible;
    forall u, d | u in conns && d in conns[u] ensures d.user == u && d in w.used && d !in gone {
      assert d in Held(conns, u);
      if d != c {
        assert d in Held(w.conns, u);
      }
    }
  }

  lemma SectionKeepsGone(w: World, c: Conn, conns: Conns)
    ensures var w' := Section(w, c, conns); w'.gone == w.gone && w' == w'.(gone := w.gone)
  {
  }

  lemma GoneDoesNotMatter(w: World, gone: set<Conn>)
    requires HistoryInv(w) && DeliveryInv(w) && OnlineInv(w) && OrderInv(w)
    ensures var w' := w.(gone := gone); HistoryInv(w') && DeliveryInv(w') && OnlineInv(w') && OrderInv(w')
  {
    hide Online, Replay, Alternate, HeardBefore, LeadsTo;
    SameDeliveries(w, w.(gone := gone));
  }

  lemma StepKeepsInv(w: World, w': World)
    requires Inv(w) && CanStep(w, w')
    ensures Inv(w')
  {
    hide ConnsInv, HistoryInv, DeliveryInv, OnlineInv, OrderInv, Added, Shown, Removed, Section, Touches;
    var op :| Step(w, op, w');
    match op
    case Connect(c) =>
      ConnectKeepsInv(w, c);
    case Show(c, visible) =>
      ShowTouches(w.conns, c, visible);
      SectionKeepsInv(w, c, Shown(w.conns, c, visible));
      SectionKeepsConns(w, c, Shown(w.conns, c, visible), w.gone);
      SectionKeepsGone(w, c, Shown(w.conns, c, visible));
    case Disconnect(c) =>
      RemoveTouches(w.conns, c);
      SectionKeepsInv(w, c, Removed(w.conns, c));
      SectionKeepsConns(w, c, Removed(w.conns, c), w.gone + {c});
      GoneDoesNotMatter(Section(w, c, Removed(w.conns, c)), w.gone + {c});
    case Fire(c) =>
      FireKeepsInv(w, c);
  }

  // ---------- Whole runs ----------

  lemma StartInv()
    ensures Inv(START)
  {
  }

  lemma {:induction false} RunKeepsInv(ws: seq<World>, k: nat)
    requires IsRun(ws) && k < |ws|
    ensures Inv(ws[k])
  {
    hide Inv, CanStep;
    if k == 0 {
      StartInv();
    } else {
      RunKeepsInv(ws, k - 1);
      assert CanStep(ws[k - 1], ws[k - 1 + 1]);
      StepKeepsInv(ws[k - 1], ws[k]);
    }
  }

  /** The events in the order of the critical sections take turns, and say in the end who is online. */
  lemma EventsTellPresence(ws: seq<World>, k: nat, u: UserId)
    requires IsRun(ws) && k < |ws|
    ensures Alternate(ws[k].produced)
    ensures Replay(ws[k].produced, u) == Online(ws[k].conns, u)
  {
    hide IsRun, Replay, Alternate, Online;
    RunKeepsInv(ws, k);
  }

  predicate NoneBetween(events: seq<Event>, i: int, j: int, u: UserId) {
    forall m :: i < m < j && 0 <= m < |events| ==> events[m].user != u
  }

  /** Taking turns: the first event of a user is online, and the next after any is the opposite. */
  lemma {:induction false} TurnsAreTaken(events: seq<Event>, j: nat)
    requires Alternate(events) && j < |events|
    ensures NoneBetween(events, -1, j, events[j].user) ==> events[j].online
    ensures forall i :: 0 <= i < j && events[i].user == events[j].user && NoneBetween(events, i, j, events[j].user) ==>
              events[i].online != events[j].online
  {
    var n, u := |events| - 1, events[j].user;
    if j < n {
      TurnsAreTaken(events[..n], j);
      assert forall i :: NoneBetween(events, i, j, u) ==> NoneBetween(events[..n], i, j, u);
    } else {
      if NoneBetween(events, -1, j, u) {
        ReplayOfOthers(events[..n], u);
      }
      forall i | 0 <= i < j && events[i].user == u && NoneBetween(events, i, j, u)
        ensures events[i].online != events[j].online
      {
        ReplayOfLast(events[..n], u, i);
      }
    }
  }

  lemma {:induction false} ReplayOfOthers(events: seq<Event>, u: UserId)
    requires forall i :: 0 <= i < |events| ==> events[i].user != u
    ensures !Replay(events, u)
  {
    if events != [] {
      ReplayOfOthers(events[..|events| - 1], u);
    }
  }

  lemma {:induction false} ReplayOfLast(events: seq<Event>, u: UserId, i: nat)
    requires i < |events| && events[i].user == u && forall m :: i < m < |events| ==> events[m].user != u
    ensures Replay(events, u) == events[i].online
  {
    if i < |events| - 1 {
      ReplayOfLast(events[..|events| - 1], u, i);
    }
  }

  lemma {:induction false} ReplayComesFrom(events: seq<Event>, u: UserId) returns (i: nat)
    requires Replay(events, u)
    ensures i < |events| && events[i] == Event(u, true) && forall m :: i < m < |events| ==> events[m].user != u
  {
    var n := |events| - 1;
    if events[n].user == u {
      i := n;
    } else {
      i := ReplayComesFrom(events[..n], u);
      assert forall m :: i < m < n ==> events[..n][m] == events[m];
    }
  }

  /** While a connection's online event is on its way, no event of its user is produced after it. */
  lemma NothingFollowsAPendingOnline(ws: seq<World>, k: nat, c: Conn, j: nat)
    requires IsRun(ws) && k < |ws| && c in ws[k].pending && ws[k].pending[c] < j < |ws[k].produced|
    requires ws[k].produced[ws[k].pending[c]].online
    ensures ws[k].produced[j].user != c.user && Online(ws[k].conns, c.user)
  {
    hide IsRun, Replay, Alternate, DeliveryInv, OrderInv, HistoryInv, ConnsInv;
    RunKeepsInv(ws, k);
  }

  /** An online event is heard before every later event of its user. */
  lemma OnlineIsNeverOvertaken(ws: seq<World>, k: nat, i: nat, q: nat)
    requires IsRun(ws) && k < |ws| && q < |ws[k].heard| && LeadsTo(ws[k].produced, i, ws[k].heard[q])
    ensures HeardBefore(ws[k].heard, i, q)
  {
    hide IsRun, Replay, Alternate, DeliveryInv, OnlineInv, HistoryInv, ConnsInv, HeardBefore, LeadsTo;
    RunKeepsInv(ws, k);
  }

  /** The events as the listeners have heard them. */
  function Heard(w: World): (events: seq<Event>)
    requires forall q :: 0 <= q < |w.heard| ==> w.heard[q] < |w.produced|
    ensures |events| == |w.heard|
  {
    seq(|w.heard|, q requires 0 <= q < |w.heard| => w.produced[w.heard[q]])
  }

  ghost predicate Quiet(w: World, u: UserId) {
    forall c :: c in w.pending ==> c.user != u
  }

  /**
   Once no event of a user is on its way, the listeners do not take the user for online who is not: the event
   that took the user offline was heard after all events that took the user online.
   */
  lemma NobodyIsLeftOnline(ws: seq<World>, k: nat, u: UserId)
    requires IsRun(ws) && k < |ws| && Quiet(ws[k], u) && !Online(ws[k].conns, u)
    ensures forall q :: 0 <= q < |ws[k].heard| ==> ws[k].heard[q] < |ws[k].produced|
    ensures !Replay(Heard(ws[k]), u)
  {
    hide IsRun, OnlineInv, ConnsInv, Alternate, Online, Replay;
    RunKeepsInv(ws, k);
    var w := ws[k];
    if Replay(Heard(w), u) {
      var q := ReplayComesFrom(Heard(w), u);
      var p := LaterHeard(w, u, q);
      assert false;
    }
  }

  lemma LaterHeard(w: World, u: UserId, q: nat) returns (p: nat)
    requires DeliveryInv(w) && OrderInv(w) && Quiet(w, u) && !Replay(w.produced, u)
    requires q < |w.heard| && w.produced[w.heard[q]] == Event(u, true)
    ensures q < p < |w.heard| && w.produced[w.heard[p]].user == u && Heard(w)[p].user == u
  {
    hide Replay;
    var i := w.heard[q];
    var j := LaterEvent(w.produced, u, i);
    assert !IsPending(w, j);
    p :| 0 <= p < |w.heard| && w.heard[p] == j;
    assert LeadsTo(w.produced, i, w.heard[p]);
  }

  /** A user who is offline after an online event has a later event. */
  lemma LaterEvent(produced: seq<Event>, u: UserId, i: nat) returns (j: nat)
    requires i < |produced| && produced[i] == Event(u, true) && !Replay(produced, u)
    ensures i < j < |produced| && produced[j].user == u
  {
    if forall m :: i < m < |produced| ==> produced[m].user != u {
      ReplayOfLast(produced, u, i);
      assert false;
    }
    j :| i < j < |produced| && produced[j].user == u;
  }

  // ---------- Who is online ----------

  /** A run with the step that leads from each state to the next. */
  ghost predicate IsHistory(ws: seq<World>, ops: seq<Op>) {
    && |ws| == |ops| + 1 && ws[0] == START
    && forall k :: 0 <= k < |ops| ==> Step(ws[k], ops[k], ws[k + 1])
  }

  /** Among the first n steps c was shown at step i, and has neither been hidden nor closed since. */
  predicate ShownSince(ops: seq<Op>, n: nat, c: Conn, i: int)
    requires n <= |ops|
  {
    0 <= i < n && ops[i] == Show(c, true) &&
    forall j :: i < j < n ==> ops[j] != Show(c, false) && ops[j] != Disconnect(c)
  }

  ghost predicate StillShown(ops: seq<Op>, n: nat, c: Conn)
    requires n <= |ops|
  {
    exists i :: ShownSince(ops, n, c, i)
  }

  lemma StillShownNext(ops: seq<Op>, n: nat, c: Conn)
    requires n < |ops|
    ensures StillShown(ops, n + 1, c) <==>
            ops[n] == Show(c, true) || (StillShown(ops, n, c) && ops[n] != Show(c, false) && ops[n] != Disconnect(c))
  {
    if ops[n] == Show(c, true) {
      assert ShownSince(ops, n + 1, c, n);
    } else {
      if StillShown(ops, n + 1, c) {
        var i :| ShownSince(ops, n + 1, c, i);
        assert i < n && ShownSince(ops, n, c, i);
      }
      if StillShown(ops, n, c) && ops[n] != Show(c, false) && ops[n] != Disconnect(c) {
        var i :| ShownSince(ops, n, c, i);
        assert ShownSince(ops, n + 1, c, i);
      }
    }
  }

  predicate Visible(conns: Conns, c: Conn) {
    c in Held(conns, c.user) && Held(conns, c.user)[c]
  }

  predicate IsOpen(w: World, c: Conn) {
    c in w.used && c !in w.gone
  }

  /** The open connections are held, and the visible ones are those that are still shown. */
  ghost predicate FlagsInv(w: World, ops: seq<Op>, n: nat)
    requires n <= |ops|
  {
    && (forall c: Conn :: c in Held(w.conns, c.user) <==> IsOpen(w, c))
    && (forall c :: Visible(w.conns, c) <==> StillShown(ops, n, c))
    && w.gone <= w.used
  }

  lemma ShowSets(conns: Conns, c: Conn, visible: bool, d: Conn)
    ensures d in Held(Shown(conns, c, visible), d.user) <==> d in Held(conns, d.user)
    ensures d in Held(conns, d.user) ==>
              Held(Shown(conns, c, visible), d.user)[d] == if d == c then visible else Held(conns, d.user)[d]
  {
  }

  lemma AddSets(conns: Conns, c: Conn, d: Conn)
    ensures d in Held(Added(conns, c), d.user) <==> d == c || d in Held(conns, d.user)
    ensures d in Held(Added(conns, c), d.user) ==>
              Held(Added(conns, c), d.user)[d] == if d == c then false else Held(conns, d.user)[d]
  {
  }

  lemma RemoveSets(conns: Conns, c: Conn, d: Conn)
    ensures d in Held(Removed(conns, c), d.user) <==> d != c && d in Held(conns, d.user)
    ensures d in Held(Removed(conns, c), d.user) ==> Held(Removed(conns, c), d.user)[d] == Held(conns, d.user)[d]
  {
    assert d.user == c.user ==> Held(Removed(conns, c), d.user) == Held(conns, d.user) - {c};
  }

  lemma StepKeepsFlags(w: World, ops: seq<Op>, n: nat, w': World)
    requires n < |ops| && FlagsInv(w, ops, n) && Step(w, ops[n], w')
    ensures FlagsInv(w', ops, n + 1)
  {
    hide StillShown, Added, Shown, Removed, Held, AnyVisible;
    forall d: Conn
      ensures d in Held(w'.conns, d.user) <==> IsOpen(w', d)
      ensures Visible(w'.conns, d) <==> StillShown(ops, n + 1, d)
    {
      StillShownNext(ops, n, d);
      match ops[n]
      case Connect(c) => AddSets(w.conns, c, d);
      case Show(c, visible) => ShowSets(w.conns, c, visible, d);
      case Disconnect(c) => RemoveSets(w.conns, c, d);
      case Fire(c) =>
    }
  }

  lemma {:induction false} HistoryKeepsFlags(ws: seq<World>, ops: seq<Op>, n: nat)
    requires IsHistory(ws, ops) && n <= |ops|
    ensures FlagsInv(ws[n], ops, n)
  {
    hide Step, FlagsInv;
    if n == 0 {
      NothingShown(ops);
    } else {
      HistoryKeepsFlags(ws, ops, n - 1);
      assert Step(ws[n - 1], ops[n - 1], ws[n - 1 + 1]);
      StepKeepsFlags(ws[n - 1], ops, n - 1, ws[n]);
    }
  }

  lemma NothingShown(ops: seq<Op>)
    ensures FlagsInv(START, ops, 0)
  {
  }

  /**
   In every run a user is online exactly when some connection of theirs was shown, and has neither been hidden nor
   closed since.
   */
  lemma OnlineExactlyWhenShown(ws: seq<World>, ops: seq<Op>, n: nat, u: UserId)
    requires IsHistory(ws, ops) && n <= |ops|
    ensures Online(ws[n].conns, u) <==> exists c: Conn, i :: c.user == u && ShownSince(ops, n, c, i)
  {
    hide Step, ShownSince;
    HistoryKeepsFlags(ws, ops, n);
    if Online(ws[n].conns, u) {
      var c :| c in Held(ws[n].conns, u) && Held(ws[n].conns, u)[c];
      HeldByOwner(ws, ops, n, u, c);
      assert Visible(ws[n].conns, c) && StillShown(ops, n, c);
    }
    forall c: Conn, i | c.user == u && ShownSince(ops, n, c, i) ensures Online(ws[n].conns, u) {
      assert StillShown(ops, n, c) && Visible(ws[n].conns, c);
    }
  }

  lemma HeldByOwner(ws: seq<World>, ops: seq<Op>, n: nat, u: UserId, c: Conn)
    requires IsHistory(ws, ops) && n <= |ops| && c in Held(ws[n].conns, u)
    ensures c.user == u
  {
    hide Step, Inv, CanStep;
    forall k | 0 <= k < |ws| - 1 ensures CanStep(ws[k], ws[k + 1]) {
      StepCan(ws[k], ops[k], ws[k + 1]);
    }
    RunKeepsInv(ws, n);
    InvOwners(ws[n]);
  }

  lemma StepCan(w: World, op: Op, w': World)
    requires Step(w, op, w')
    ensures CanStep(w, w')
  {
  }

  lemma InvOwners(w: World)
    requires Inv(w)
    ensures forall u, c :: c in Held(w.conns, u) ==> c.user == u
  {
    hide HistoryInv, DeliveryInv, OnlineInv, OrderInv;
  }

  // ---------- An offline event can be overtaken ----------

  predicate IsLastOf(produced: seq<Event>, i: int, u: UserId) {
    0 <= i < |produced| && produced[i].user == u && forall m :: i < m < |produced| ==> produced[m].user != u
  }

  /** No event of the user is heard after the one that was produced last. */
  predicate EndsInOrder(w: World, u: UserId)
    requires forall q :: 0 <= q < |w.heard| ==> w.heard[q] < |w.produced|
  {
    forall p, q :: 0 <= p < q < |w.heard| && w.produced[w.heard[q]].user == u ==> !IsLastOf(w.produced, w.heard[p], u)
  }

  /**
   Once no event of a user is on its way, the listeners agree with the hub exactly when the user is offline, or
   the last event was not overtaken.
   */
  lemma ListenersAgree(ws: seq<World>, k: nat, u: UserId)
    requires IsRun(ws) && k < |ws| && Quiet(ws[k], u)
    ensures forall q :: 0 <= q < |ws[k].heard| ==> ws[k].heard[q] < |ws[k].produced|
    ensures Replay(Heard(ws[k]), u) == Online(ws[k].conns, u) <==>
            !Online(ws[k].conns, u) || EndsInOrder(ws[k], u)
  {
    hide IsRun, OnlineInv, ConnsInv, Alternate, Online, Replay;
    RunKeepsInv(ws, k);
    var w := ws[k];
    if !Online(w.conns, u) {
      NobodyIsLeftOnline(ws, k, u);
    } else {
      var i := ReplayComesFrom(w.produced, u);
      assert !IsPending(w, i);
      var p :| 0 <= p < |w.heard| && w.heard[p] == i;
      if EndsInOrder(w, u) {
        ReplayOfLast(Heard(w), u, p);
      }
      if Replay(Heard(w), u) {
        var q := ReplayComesFrom(Heard(w), u);
        LastHeardIsLast(w, u, i, p, q);
        forall a, b | 0 <= a < b < |w.heard| && w.produced[w.heard[b]].user == u
          ensures !IsLastOf(w.produced, w.heard[a], u)
        {
          assert Heard(w)[b].user == u;
          assert b <= q <= p;
        }
      }
    }
  }

  lemma LastHeardIsLast(w: World, u: UserId, i: nat, p: nat, q: nat)
    requires DeliveryInv(w) && OrderInv(w) && IsLastOf(w.produced, i, u)
    requires p < |w.heard| && w.heard[p] == i && q < |w.heard| && w.produced[w.heard[q]] == Event(u, true)
    ensures q <= p
  {
    if w.heard[q] != i {
      assert LeadsTo(w.produced, w.heard[q], w.heard[p]);
    }
  }

  function Page(w: World, c: Conn, visible: bool): Conns {
    w.conns[c.user := Held(w.conns, c.user)[c := visible]]
  }

  const FIRST := Conn(1, 7)
  const SECOND := Conn(2, 7)
  const ON := Event(7, true)
  const OFF := Event(7, false)

  /** Both connections of user 7 open; the first shows and is heard, hides, and then the second shows. */
  const W1 := World(map[7 := map[FIRST := false]], [], map[], [], {FIRST}, {})
  const W2 := World(map[7 := map[FIRST := false, SECOND := false]], [], map[], [], {FIRST, SECOND}, {})
  const W3 := W2.(conns := Page(W2, FIRST, true), produced := [ON], pending := map[FIRST := 0])
  const W4 := W3.(pending := map[], heard := [0])
  const W5 := W4.(conns := Page(W4, FIRST, false), produced := [ON, OFF], pending := map[FIRST := 1])
  const W6 := W5.(conns := Page(W5, SECOND, true), produced := [ON, OFF, ON], pending := map[FIRST := 1, SECOND := 2])
  const W7 := W6.(pending := map[FIRST := 1], heard := [0, 2])
  const W8 := W7.(pending := map[], heard := [0, 2, 1])

  lemma FirstIsHeard()
    ensures CanStep(START, W1) && CanStep(W1, W2) && CanStep(W2, W3) && CanStep(W3, W4)
  {
    CanConnect(START, FIRST, W1);
    CanConnect(W1, SECOND, W2);
    assert W3.conns[7][FIRST];
    CanShow(W2, FIRST, true, W3);
    CanFire(W3, FIRST, W4);
  }

  lemma FirstHides()
    ensures CanStep(W4, W5)
  {
    assert W4.conns[7][FIRST];
    assert W5.conns[7] == map[FIRST := false, SECOND := false];
    CanShow(W4, FIRST, false, W5);
  }

  lemma SecondShows()
    ensures CanStep(W5, W6) && Online(W6.conns, 7)
  {
    assert W5.conns[7] == map[FIRST := false, SECOND := false];
    assert W6.conns[7][SECOND];
    CanShow(W5, SECOND, true, W6);
  }

  /**
   The second connection is heard before the first: the listeners end up with the user offline, who is online.
   */
  lemma OfflineCanBeOvertaken()
    ensures IsRun([START, W1, W2, W3, W4, W5, W6, W7, W8])
    ensures W8.pending == map[] && Online(W8.conns, 7)
    ensures W8.produced == [ON, OFF, ON] && W8.heard == [0, 2, 1] && !Replay(Heard(W8), 7)
  {
    hide CanStep, Online;
    FirstIsHeard();
    FirstHides();
    SecondShows();
    CanFire(W6, SECOND, W7);
    CanFire(W7, FIRST, W8);
    assert Heard(W8) == [ON, ON, OFF];
  }

  lemma CanConnect(w: World, c: Conn, w': World)
    requires Step(w, Connect(c), w')
    ensures CanStep(w, w')
  {
  }

  lemma CanFire(w: World, c: Conn, w': World)
    requires Step(w, Fire(c), w')
    ensures CanStep(w, w')
  {
  }

  lemma CanShow(w: World, c: Conn, visible: bool, w': World)
    requires Ready(w, c) && c in Held(w.conns, c.user)
    requires w'.conns == Page(w, c, visible) && w'.heard == w.heard
    requires w'.used == w.used && w'.gone == w.gone
    requires Online(w.conns, c.user) != visible && Online(w'.conns, c.user) == visible
    requires w'.produced == w.produced + [Event(c.user, visible)]
    requires w'.pending == w.pending[c := |w.produced|]
    ensures CanStep(w, w')
  {
    assert Step(w, Show(c, visible), w');
  }
}
