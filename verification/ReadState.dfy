/**
 Read markers and unread counts (internal/store/readstate.go, containers.go), and the two places that add the
 counts up to a badge: a query on the server, and a loop on the client (internal/server/static/js/store.js).
 */
module ReadState {
  import opened Arithmetic
  import opened Wrappers
  import MessageStore

  type UserId = MessageStore.UserId
  type ContainerId = MessageStore.ContainerId
  type Id = MessageStore.Id

  datatype Kind = Channel | Conversation

  datatype Container = Container(kind: Kind, archived: bool)

  datatype State = State(world: MessageStore.World, containers: map<ContainerId, Container>,
                         participants: set<(ContainerId, UserId)>, markers: map<(UserId, ContainerId), int>,
                         threadMarkers: map<(UserId, Id), int>)

  /** Raises an entry, or makes it. */
  function Raised<K>(markers: map<K, int>, key: K, n: int): map<K, int> {
    markers[key := if key in markers then Max(markers[key], n) else n]
  }

  function Clamped(n: int, last: nat): int {
    Max(Min(n, last), 0)
  }

  function Marked(s: State, u: UserId, c: ContainerId, n: int): State
    requires c in s.world.db.lastSeq
  {
    s.(markers := Raised(s.markers, (u, c), Clamped(n, s.world.db.lastSeq[c])))
  }

  predicate HasThread(w: MessageStore.World, root: Id) {
    root in w.db.rows && w.db.rows[root].container in w.db.lastSeq
  }

  function ThreadMarked(s: State, u: UserId, root: Id, n: int): State
    requires HasThread(s.world, root)
  {
    var last := s.world.db.lastSeq[s.world.db.rows[root].container];
    s.(threadMarkers := Raised(s.threadMarkers, (u, root), Clamped(n, last)))
  }

  // ---------- Counting ----------

  function LastRead(s: State, u: UserId, c: ContainerId): int {
    if (u, c) in s.markers then s.markers[(u, c)] else 0
  }

  /** The message is in the container, past the user's marker, and not deleted. */
  predicate Fresh(s: State, u: UserId, c: ContainerId, id: Id) {
    && id in s.world.db.rows && s.world.db.rows[id].container == c
    && s.world.db.rows[id].seqNo > LastRead(s, u, c) && s.world.db.rows[id].deletedAt.None?
  }

  function UnreadIds(s: State, u: UserId, c: ContainerId): set<Id> {
    set id | id in s.world.db.rows && Fresh(s, u, c, id) && s.world.db.rows[id].threadRoot.None?
  }

  function MentionIds(s: State, u: UserId, c: ContainerId): set<Id> {
    set p | p in s.world.db.mentions && p.1 == u && Fresh(s, u, c, p.0) :: p.0
  }

  function UnreadCounts(s: State, u: UserId, c: ContainerId): (nat, nat) {
    (|UnreadIds(s, u, c)|, |MentionIds(s, u, c)|)
  }

  // ---------- The server's badge ----------

  predicate Participates(s: State, u: UserId, c: ContainerId) {
    (c, u) in s.participants
  }

  predicate Visible(s: State, u: UserId, c: ContainerId) {
    c in s.containers && ((s.containers[c].kind.Channel? && !s.containers[c].archived) || Participates(s, u, c))
  }

  /** What a container adds to the badge. */
  function Share(kind: Kind, mentions: nat, unread: nat): nat {
    if mentions > 0 then mentions else if kind.Conversation? then unread else 0
  }

  function ShareOf(s: State, u: UserId, c: ContainerId): nat
    requires c in s.containers
  {
    Share(s.containers[c].kind, UnreadCounts(s, u, c).1, UnreadCounts(s, u, c).0)
  }

  /** The sum of the shares of a set of containers. */
  ghost function Sum(s: State, u: UserId, cs: set<ContainerId>): nat
    requires cs <= s.containers.Keys
    decreases cs
  {
    if cs == {} then 0
    else
      var c :| c in cs;
      ShareOf(s, u, c) + Sum(s, u, cs - {c})
  }

  ghost function UnreadTotal(s: State, u: UserId): nat {
    Sum(s, u, set c | c in s.containers && Visible(s, u, c))
  }

  // ---------- The client's badge ----------

  /** A container as the server shows it to a user. */
  datatype View = View(id: ContainerId, kind: Kind, archived: bool, unread: nat, mentions: nat)

  predicate InView(s: State, u: UserId, includeArchived: bool, c: ContainerId) {
    c in s.containers &&
    match s.containers[c].kind
    case Channel => includeArchived || !s.containers[c].archived
    case Conversation => Participates(s, u, c)
  }

  function ViewOf(s: State, u: UserId, c: ContainerId): View
    requires c in s.containers
  {
    View(c, s.containers[c].kind, s.containers[c].archived, UnreadCounts(s, u, c).0, UnreadCounts(s, u, c).1)
  }

  /** The views of a user, in any order. */
  ghost predicate AreViews(views: seq<View>, s: State, u: UserId, includeArchived: bool) {
    && (forall i :: 0 <= i < |views| ==>
          InView(s, u, includeArchived, views[i].id) && views[i] == ViewOf(s, u, views[i].id))
    && (forall i, j :: 0 <= i < j < |views| ==> views[i].id != views[j].id)
    && (forall c :: InView(s, u, includeArchived, c) ==> exists i :: 0 <= i < |views| && views[i].id == c)
  }

  function ViewShare(v: View): nat {
    if v.archived then 0 else Share(v.kind, v.mentions, v.unread)
  }

  function ViewTotal(views: seq<View>): nat {
    if views == [] then 0 else ViewTotal(views[..|views| - 1]) + ViewShare(views[|views| - 1])
  }

  method ClientUnreadTotal(containers: seq<View>) returns (total: nat)
    ensures total == ViewTotal(containers)
  {
    total := 0;
    for i := 0 to |containers|
      invariant total == ViewTotal(containers[..i])
    {
      assert containers[..i + 1][..i] == containers[..i];
      var c := containers[i];
      if c.archived {
        continue;
      }
      if c.mentions > 0 {
        total := total + c.mentions;
      } else if c.kind.Conversation? {
        total := total + c.unread;
      }
    }
    assert containers[..|containers|] == containers;
  }

  // ---------- The store ----------

  class Store {
    var world: MessageStore.World
    var containers: map<ContainerId, Container>
    var participants: set<(ContainerId, UserId)>
    var markers: map<(UserId, ContainerId), int>
    var threadMarkers: map<(UserId, Id), int>

    ghost function Value(): State
      reads this
    {
      State(world, containers, participants, markers, threadMarkers)
    }

    constructor (world: MessageStore.World)
      ensures Value() == State(world, map[], {}, map[], map[])
    {
      this.world := world;
      containers, participants, markers, threadMarkers := map[], {}, map[], map[];
    }

    method SetReadMarker(u: UserId, c: ContainerId, n: int) returns (effective: Option<int>)
      modifies this
      ensures effective.None? <==> c !in old(world).db.lastSeq
      ensures effective.None? ==> Value() == old(Value())
      ensures effective.Some? ==> Value() == Marked(old(Value()), u, c, n) && effective.value == markers[(u, c)]
    {
      if c !in world.db.lastSeq {
        return None;
      }
      var excluded := Max(Min(n, world.db.lastSeq[c]), 0);
      if (u, c) in markers {
        markers := markers[(u, c) := Max(markers[(u, c)], excluded)];
      } else {
        markers := markers[(u, c) := excluded];
      }
      return Some(markers[(u, c)]);
    }

    method SetThreadReadMarker(u: UserId, root: Id, n: int) returns (effective: Option<int>)
      modifies this
      ensures effective.None? <==> !HasThread(old(world), root)
      ensures HasThread(old(world), root) <==>
                root in old(world).db.rows && old(world).db.rows[root].container in old(world).db.lastSeq
      ensures effective.None? ==> Value() == old(Value())
      ensures effective.Some? ==>
                Value() == ThreadMarked(old(Value()), u, root, n) && effective.value == threadMarkers[(u, root)]
    {
      if root !in world.db.rows || world.db.rows[root].container !in world.db.lastSeq {
        return None;
      }
      var excluded := Max(Min(n, world.db.lastSeq[world.db.rows[root].container]), 0);
      if (u, root) in threadMarkers {
        threadMarkers := threadMarkers[(u, root) := Max(threadMarkers[(u, root)], excluded)];
      } else {
        threadMarkers := threadMarkers[(u, root) := excluded];
      }
      return Some(threadMarkers[(u, root)]);
    }

    /** Archives a channel, or takes it back; only channels can be archived. */
    method SetChannelArchived(c: ContainerId, archived: bool) returns (found: bool)
      modifies this
      ensures found <==> c in old(containers) && old(containers)[c].kind.Channel?
      ensures Value() == if found then Archived(old(Value()), c, archived) else old(Value())
      ensures found ==> containers == old(containers)[c := Container(Channel, archived)]
    {
      if c !in containers || containers[c].kind.Conversation? {
        return false;
      }
      containers := containers[c := containers[c].(archived := archived)];
      return true;
    }
  }

  function Archived(s: State, c: ContainerId, archived: bool): State
    requires c in s.containers
  {
    s.(containers := s.containers[c := s.containers[c].(archived := archived)])
  }

  // ---------- Runs ----------

  datatype Op =
    | CreateChannel(c: ContainerId)
    | CreateConversation(c: ContainerId, members: set<UserId>)
    | SetArchived(c: ContainerId, archived: bool)
    | Mark(u: UserId, c: ContainerId, n: int)
    | MarkThread(u: UserId, root: Id, n: int)
    | Message(op: MessageStore.Op)

  function Joined(c: ContainerId, members: set<UserId>): set<(ContainerId, UserId)> {
    set u | u in members :: (c, u)
  }

  /** Markers of thread roots that are gone go with them. */
  function Cascaded(markers: map<(UserId, Id), int>, rows: map<Id, MessageStore.Row>): map<(UserId, Id), int> {
    map key | key in markers && key.1 in rows :: markers[key]
  }

  ghost predicate Step(s: State, op: Op, now: MessageStore.Time, s': State) {
    match op
    case CreateChannel(c) =>
      && MessageStore.Step(s.world, MessageStore.CreateContainer(c), now, s'.world)
      && s' == s.(world := s'.world, containers := s.containers[c := Container(Channel, false)])
    case CreateConversation(c, members) =>
      && MessageStore.Step(s.world, MessageStore.CreateContainer(c), now, s'.world)
      && s' == s.(world := s'.world, containers := s.containers[c := Container(Conversation, false)],
                  participants := s.participants + Joined(c, members))
    case SetArchived(c, archived) =>
      s' == if c in s.containers && s.containers[c].kind.Channel? then Archived(s, c, archived) else s
    case Mark(u, c, n) =>
      s' == if c in s.world.db.lastSeq then Marked(s, u, c, n) else s
    case MarkThread(u, root, n) =>
      s' == if HasThread(s.world, root) then ThreadMarked(s, u, root, n) else s
    case Message(mop) =>
      && !mop.CreateContainer? && MessageStore.Step(s.world, mop, now, s'.world)
      && s' == s.(world := s'.world, threadMarkers := Cascaded(s.threadMarkers, s'.world.db.rows))
  }

  ghost predicate Initial(s: State) {
    MessageStore.Initial(s.world) && s == State(s.world, map[], {}, map[], map[])
  }

  ghost predicate CanStep(s: State, s': State) {
    exists op, now :: Step(s, op, now, s')
  }

  ghost predicate IsRun(ss: seq<State>) {
    && |ss| > 0 && Initial(ss[0])
    && forall k :: 0 <= k < |ss| - 1 ==> CanStep(ss[k], ss[k + 1])
  }

  /** Only channels are archived, and only conversations have participants. */
  ghost predicate ShapeInv(s: State) {
    && s.containers.Keys == s.world.db.lastSeq.Keys
    && (forall c :: c in s.containers && s.containers[c].archived ==> s.containers[c].kind.Channel?)
    && (forall p :: p in s.participants ==> p.0 in s.containers && s.containers[p.0].kind.Conversation?)
  }

  ghost predicate MarkerInv(s: State) {
    && (forall key :: key in s.markers ==>
          && key.1 in s.world.db.lastSeq
          && 0 <= s.markers[key] <= s.world.db.lastSeq[key.1])
    && (forall key :: key in s.threadMarkers ==>
          && HasThread(s.world, key.1)
          && 0 <= s.threadMarkers[key] <= s.world.db.lastSeq[s.world.db.rows[key.1].container])
  }

  ghost predicate Inv(s: State) {
    MessageStore.Inv(s.world) && ShapeInv(s) && MarkerInv(s)
  }

  // ---------- Steps ----------

  /** Containers and their numbers stay, and rows stay in their containers. */
  ghost predicate Grows(w: MessageStore.World, w': MessageStore.World) {
    && (forall c :: c in w.db.lastSeq ==> c in w'.db.lastSeq && w.db.lastSeq[c] <= w'.db.lastSeq[c])
    && (forall id :: id in w.db.rows && id in w'.db.rows ==> w'.db.rows[id].container == w.db.rows[id].container)
  }

  lemma WorldStep(w: MessageStore.World, op: MessageStore.Op, now: MessageStore.Time, w': MessageStore.World)
    requires MessageStore.Inv(w) && MessageStore.Step(w, op, now, w')
    ensures Grows(w, w') && MessageStore.Inv(w')
    ensures w'.db.lastSeq.Keys == w.db.lastSeq.Keys + if op.CreateContainer? then {op.c} else {}
    ensures op.CreateContainer? ==> op.c !in w.db.lastSeq && w'.db.rows.Keys == w.db.rows.Keys
  {
    hide MessageStore.KeysInv, MessageStore.NumbersInv, MessageStore.GaplessInv, MessageStore.RefsInv,
         MessageStore.CountInv;
    assert MessageStore.CanStep(w, w');
    MessageStore.StepKeepsInv(w, w');
    if op.Insert? {
      if MessageStore.Fresh(w.db, op.m) {
        IssuedRows(w);
        MessageStore.InsertAddsOneRow(w.db, op.m, op.id, now);
      }
    } else {
      MessageStore.OthersAddNoRow(w, op, now, w');
    }
  }

  lemma IssuedRows(w: MessageStore.World)
    requires MessageStore.KeysInv(w)
    ensures w.db.rows.Keys <= w.issued
  {
  }

  lemma RowsHaveContainers(w: MessageStore.World)
    requires MessageStore.NumbersInv(w)
    ensures forall id :: id in w.db.rows ==>
              && w.db.rows[id].container in w.db.lastSeq
              && 1 <= w.db.rows[id].seqNo <= w.db.lastSeq[w.db.rows[id].container]
  {
    forall id | id in w.db.rows
      ensures w.db.rows[id].container in w.db.lastSeq
      ensures 1 <= w.db.rows[id].seqNo <= w.db.lastSeq[w.db.rows[id].container]
    {
      assert (w.db.rows[id].container, w.db.rows[id].seqNo) in w.numbers;
    }
  }

  lemma GrowthKeepsMarkers(s: State, s': State)
    requires MarkerInv(s) && Grows(s.world, s'.world) && s'.markers == s.markers
    requires s'.threadMarkers == Cascaded(s.threadMarkers, s'.world.db.rows)
    ensures MarkerInv(s')
  {
  }

  lemma NothingCascades(s: State, rows: map<Id, MessageStore.Row>)
    requires MarkerInv(s) && rows.Keys == s.world.db.rows.Keys
    ensures Cascaded(s.threadMarkers, rows) == s.threadMarkers
  {
  }

  lemma StepKeepsMarkers(s: State, op: Op, now: MessageStore.Time, s': State)
    requires MessageStore.Inv(s.world) && MarkerInv(s) && Step(s, op, now, s')
    ensures MarkerInv(s') && MessageStore.Inv(s'.world)
  {
    hide MessageStore.Inv, MessageStore.Step, Cascaded;
    match op
    case CreateChannel(c) =>
      WorldStep(s.world, MessageStore.CreateContainer(c), now, s'.world);
      NothingCascades(s, s'.world.db.rows);
      GrowthKeepsMarkers(s, s');
    case CreateConversation(c, members) =>
      WorldStep(s.world, MessageStore.CreateContainer(c), now, s'.world);
      NothingCascades(s, s'.world.db.rows);
      GrowthKeepsMarkers(s, s');
    case Message(mop) =>
      WorldStep(s.world, mop, now, s'.world);
      GrowthKeepsMarkers(s, s');
    case SetArchived(c, archived) =>
    case Mark(u, c, n) =>
    case MarkThread(u, root, n) =>
  }

  lemma StepKeepsShape(s: State, op: Op, now: MessageStore.Time, s': State)
    requires MessageStore.Inv(s.world) && ShapeInv(s) && Step(s, op, now, s')
    ensures ShapeInv(s')
  {
    hide MessageStore.Inv, MessageStore.Step, Cascaded, Raised;
    match op
    case CreateChannel(c) =>
      WorldStep(s.world, MessageStore.CreateContainer(c), now, s'.world);
    case CreateConversation(c, members) =>
      WorldStep(s.world, MessageStore.CreateContainer(c), now, s'.world);
    case Message(mop) =>
      WorldStep(s.world, mop, now, s'.world);
    case SetArchived(c, archived) =>
    case Mark(u, c, n) =>
    case MarkThread(u, root, n) =>
  }

  lemma StepKeepsInv(s: State, s': State)
    requires Inv(s) && CanStep(s, s')
    ensures Inv(s')
  {
    hide MessageStore.Inv, ShapeInv, MarkerInv, Step;
    var op, now :| Step(s, op, now, s');
    StepKeepsMarkers(s, op, now, s');
    StepKeepsShape(s, op, now, s');
  }

  lemma InitialInv(s: State)
    requires Initial(s)
    ensures Inv(s)
  {
    MessageStore.InitialInv(s.world);
  }

  lemma {:induction false} RunKeepsInv(ss: seq<State>, k: nat)
    requires IsRun(ss) && k < |ss|
    ensures Inv(ss[k])
  {
    hide Inv, CanStep, Initial;
    if k == 0 {
      InitialInv(ss[0]);
    } else {
      RunKeepsInv(ss, k - 1);
      assert CanStep(ss[k - 1], ss[k - 1 + 1]);
      StepKeepsInv(ss[k - 1], ss[k]);
    }
  }

  // ---------- Markers ----------

  /** A marker stands between 0 and the last number of its container. */
  lemma MarkersAreClamped(ss: seq<State>, k: nat, u: UserId, c: ContainerId)
    requires IsRun(ss) && k < |ss| && (u, c) in ss[k].markers
    ensures c in ss[k].world.db.lastSeq && 0 <= ss[k].markers[(u, c)] <= ss[k].world.db.lastSeq[c]
  {
    hide IsRun, ShapeInv, MessageStore.Inv;
    RunKeepsInv(ss, k);
  }

  lemma MarkersStep(s: State, s': State)
    requires CanStep(s, s')
    ensures forall key :: key in s.markers ==> key in s'.markers && s.markers[key] <= s'.markers[key]
    ensures forall key :: key in s.threadMarkers && key.1 in s'.world.db.rows ==>
              key in s'.threadMarkers && s.threadMarkers[key] <= s'.threadMarkers[key]
  {
    hide MessageStore.Step;
    var op, now :| Step(s, op, now, s');
  }

  /** A marker is never taken back, and never lowered. */
  lemma {:induction false} MarkersNeverFall(ss: seq<State>, i: nat, k: nat, u: UserId, c: ContainerId)
    requires IsRun(ss) && i <= k < |ss| && (u, c) in ss[i].markers
    ensures (u, c) in ss[k].markers && ss[i].markers[(u, c)] <= ss[k].markers[(u, c)]
    decreases k - i
  {
    hide CanStep;
    if i < k {
      MarkersNeverFall(ss, i, k - 1, u, c);
      assert CanStep(ss[k - 1], ss[k - 1 + 1]);
      MarkersStep(ss[k - 1], ss[k]);
    }
  }

  /** Setting a marker reads what is numbered up to it, whatever was asked for, and nothing anywhere else. */
  lemma MarkingReads(s: State, u: UserId, c: ContainerId, n: int, v: UserId, d: ContainerId)
    requires Inv(s) && c in s.world.db.lastSeq
    ensures var s' := Marked(s, u, c, n);
            if (v, d) == (u, c) then
              && UnreadIds(s', v, d) == (set id | id in UnreadIds(s, v, d) && s.world.db.rows[id].seqNo > n)
              && MentionIds(s', v, d) == (set id | id in MentionIds(s, v, d) && s.world.db.rows[id].seqNo > n)
            else UnreadIds(s', v, d) == UnreadIds(s, v, d) && MentionIds(s', v, d) == MentionIds(s, v, d)
  {
    hide MessageStore.GaplessInv, MessageStore.RefsInv, MessageStore.CountInv, MessageStore.KeysInv, ShapeInv,
         MessageStore.NumbersInv;
    var s' := Marked(s, u, c, n);
    RowsHaveContainers(s.world);
    forall id ensures Fresh(s', v, d, id) <==>
      Fresh(s, v, d, id) && ((v, d) == (u, c) ==> s.world.db.rows[id].seqNo > n)
    {
    }
  }

  /** A marker at the last number leaves nothing unread. */
  lemma AllIsRead(s: State, u: UserId, c: ContainerId, n: int)
    requires Inv(s) && c in s.world.db.lastSeq && n >= s.world.db.lastSeq[c]
    ensures UnreadCounts(Marked(s, u, c, n), u, c) == (0, 0)
  {
    hide MessageStore.GaplessInv, MessageStore.RefsInv, MessageStore.CountInv, MessageStore.KeysInv, ShapeInv,
         MessageStore.NumbersInv, Marked;
    MarkingReads(s, u, c, n, u, c);
    RowsHaveContainers(s.world);
    var s' := Marked(s, u, c, n);
    assert UnreadIds(s', u, c) == {} && MentionIds(s', u, c) == {};
  }

  /** Markers that arrive in another order come to the same state. */
  lemma MarksCommute(s: State, u: UserId, c: ContainerId, m: int, n: int)
    requires c in s.world.db.lastSeq
    ensures Marked(Marked(s, u, c, m), u, c, n) == Marked(Marked(s, u, c, n), u, c, m) == Marked(s, u, c, Max(m, n))
  {
    var last := s.world.db.lastSeq[c];
    assert Max(Clamped(m, last), Clamped(n, last)) == Clamped(Max(m, n), last);
  }

  // ---------- The badge ----------

  lemma {:induction false} SumTakes(s: State, u: UserId, cs: set<ContainerId>, c: ContainerId)
    requires cs <= s.containers.Keys && c in cs
    ensures Sum(s, u, cs) == ShareOf(s, u, c) + Sum(s, u, cs - {c})
    decreases cs
  {
    hide ShareOf;
    var first :| first in cs && Sum(s, u, cs) == ShareOf(s, u, first) + Sum(s, u, cs - {first});
    if first != c {
      SumTakes(s, u, cs - {first}, c);
      SumTakes(s, u, cs - {c}, first);
      assert cs - {first} - {c} == cs - {c} - {first};
    }
  }

  lemma {:induction false} SumSplits(s: State, u: UserId, a: set<ContainerId>, b: set<ContainerId>)
    requires a + b <= s.containers.Keys && a !! b
    ensures Sum(s, u, a + b) == Sum(s, u, a) + Sum(s, u, b)
    decreases a
  {
    hide ShareOf;
    if a == {} {
      assert a + b == b;
    } else {
      var c :| c in a;
      SumTakes(s, u, a, c);
      SumTakes(s, u, a + b, c);
      assert a + b - {c} == (a - {c}) + b;
      SumSplits(s, u, a - {c}, b);
    }
  }

  lemma {:induction false} SumIsNothing(s: State, u: UserId, cs: set<ContainerId>)
    requires cs <= s.containers.Keys
    ensures Sum(s, u, cs) == 0 <==> forall c :: c in cs ==> ShareOf(s, u, c) == 0
    decreases cs
  {
    hide ShareOf;
    if cs != {} {
      var c :| c in cs;
      SumTakes(s, u, cs, c);
      SumIsNothing(s, u, cs - {c});
    }
  }

  /** The containers of the views that are not archived. */
  function OpenIds(views: seq<View>): set<ContainerId> {
    set i | 0 <= i < |views| && !views[i].archived :: views[i].id
  }

  ghost predicate AreSomeViews(views: seq<View>, s: State, u: UserId) {
    && (forall i :: 0 <= i < |views| ==> views[i].id in s.containers && views[i] == ViewOf(s, u, views[i].id))
    && (forall i, j :: 0 <= i < j < |views| ==> views[i].id != views[j].id)
  }

  lemma OpenIdsMore(init: seq<View>, v: View)
    ensures OpenIds(init + [v]) == OpenIds(init) + if v.archived then {} else {v.id}
  {
    var views := init + [v];
    assert views[|init|] == v;
    forall i | 0 <= i < |init| ensures views[i] == init[i] {
    }
    forall id | id in OpenIds(init) ensures id in OpenIds(views) {
      var i :| 0 <= i < |init| && !init[i].archived && init[i].id == id;
      assert views[i] == init[i];
    }
  }

  /** The loop comes to the sum over the containers that are not archived, in whatever order it meets them. */
  lemma {:induction false} LoopIsSum(views: seq<View>, s: State, u: UserId)
    requires AreSomeViews(views, s, u)
    ensures OpenIds(views) <= s.containers.Keys
    ensures ViewTotal(views) == Sum(s, u, OpenIds(views))
  {
    hide UnreadCounts;
    if views != [] {
      var init, v := views[..|views| - 1], views[|views| - 1];
      assert views == init + [v];
      LoopIsSum(init, s, u);
      OpenIdsMore(init, v);
      if v.archived {
        assert OpenIds(views) == OpenIds(init);
      } else {
        assert v.id !in OpenIds(init);
        SumTakes(s, u, OpenIds(views), v.id);
        assert OpenIds(views) - {v.id} == OpenIds(init);
        assert ViewShare(v) == ShareOf(s, u, v.id);
      }
    }
  }

  /** Archived containers in which the user takes part. */
  function ArchivedIds(s: State, u: UserId): set<ContainerId> {
    set c | c in s.containers && s.containers[c].archived && Participates(s, u, c)
  }

  lemma VisibleIds(views: seq<View>, s: State, u: UserId)
    requires AreViews(views, s, u, true)
    ensures (set c | c in s.containers && Visible(s, u, c)) == OpenIds(views) + ArchivedIds(s, u)
    ensures OpenIds(views) !! ArchivedIds(s, u) && AreSomeViews(views, s, u)
  {
    hide UnreadCounts;
    forall c | c in s.containers && Visible(s, u, c) ensures c in OpenIds(views) + ArchivedIds(s, u) {
      if c !in ArchivedIds(s, u) {
        assert InView(s, u, true, c);
        var i :| 0 <= i < |views| && views[i].id == c;
        assert !views[i].archived;
      }
    }
    forall c | c in OpenIds(views) ensures Visible(s, u, c) && c !in ArchivedIds(s, u) {
      var i :| 0 <= i < |views| && !views[i].archived && views[i].id == c;
      assert InView(s, u, true, c);
    }
  }

  /**
   In any state of the tables the two badges agree exactly when no archived container in which the user takes part
   has anything to add.
   */
  lemma BadgesAgreeExactly(views: seq<View>, s: State, u: UserId)
    requires AreViews(views, s, u, true)
    ensures ViewTotal(views) == UnreadTotal(s, u) <==>
            forall c :: c in ArchivedIds(s, u) ==> ShareOf(s, u, c) == 0
  {
    hide ShareOf, Sum, ViewTotal, UnreadCounts, InView, Visible, ArchivedIds;
    VisibleIds(views, s, u);
    LoopIsSum(views, s, u);
    SumSplits(s, u, OpenIds(views), ArchivedIds(s, u));
    SumIsNothing(s, u, ArchivedIds(s, u));
  }

  /** In every reachable state the client's loop over the views of a user comes to what the server counts. */
  lemma BadgesAgree(ss: seq<State>, k: nat, u: UserId, views: seq<View>)
    requires IsRun(ss) && k < |ss| && AreViews(views, ss[k], u, true)
    ensures ViewTotal(views) == UnreadTotal(ss[k], u)
  {
    hide IsRun, AreViews, ViewTotal, UnreadTotal, MarkerInv, MessageStore.Inv, ShareOf;
    RunKeepsInv(ss, k);
    BadgesAgreeExactly(views, ss[k], u);
    assert ArchivedIds(ss[k], u) == {};
  }
}
