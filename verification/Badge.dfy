/**
 What the badge counts, said of the messages themselves (internal/store/readstate.go, and unreadTotal in
 internal/server/static/js/store.js), and what a step does to it.
 */
module Badge {
  import opened Wrappers
  import MessageStore
  import MessageHistory
  import opened ReadState

  /** The user has not come to the message yet. */
  predicate Waits(s: State, u: UserId, id: Id) {
    && id in s.world.db.rows && s.world.db.rows[id].deletedAt == None
    && var key := (u, s.world.db.rows[id].container);
       s.world.db.rows[id].seqNo > if key in s.markers then s.markers[key] else 0
  }

  /** A message that mentions the user waits in the container. */
  predicate Called(s: State, u: UserId, c: ContainerId) {
    exists x :: x in s.world.db.rows && s.world.db.rows[x].container == c && Waits(s, u, x) &&
                (x, u) in s.world.db.mentions
  }

  /** Channels are for everyone until they are archived, conversations are for those who take part. */
  predicate IsFor(s: State, u: UserId, c: ContainerId) {
    c in s.containers && ((s.containers[c].kind == Channel && !s.containers[c].archived) || (c, u) in s.participants)
  }

  /**
   The message counts: it mentions the user, or it stands outside the threads of a conversation in which nothing
   that waits mentions the user.
   */
  predicate Counts(s: State, u: UserId, id: Id) {
    && Waits(s, u, id)
    && var c := s.world.db.rows[id].container;
       && IsFor(s, u, c)
       && ((id, u) in s.world.db.mentions
           || (s.containers[c].kind == Conversation && s.world.db.rows[id].threadRoot == None && !Called(s, u, c)))
  }

  function Counting(s: State, u: UserId): set<Id> {
    set id | id in s.world.db.rows && Counts(s, u, id)
  }

  // ---------- The badge is the number of messages that count ----------

  function CountingIn(s: State, u: UserId, cs: set<ContainerId>): set<Id> {
    set id | id in s.world.db.rows && s.world.db.rows[id].container in cs && Counts(s, u, id)
  }

  lemma MentionsAre(s: State, u: UserId, c: ContainerId)
    ensures forall id :: id in MentionIds(s, u, c) <==>
              Waits(s, u, id) && s.world.db.rows[id].container == c && (id, u) in s.world.db.mentions
    ensures |MentionIds(s, u, c)| > 0 <==> Called(s, u, c)
  {
    forall id | Waits(s, u, id) && s.world.db.rows[id].container == c && (id, u) in s.world.db.mentions
      ensures id in MentionIds(s, u, c)
    {
      var p := (id, u);
      assert p in s.world.db.mentions && p.1 == u && Fresh(s, u, c, p.0);
    }
    if |MentionIds(s, u, c)| > 0 {
      var x :| x in MentionIds(s, u, c);
    }
  }

  lemma UnreadAre(s: State, u: UserId, c: ContainerId)
    ensures forall id :: id in UnreadIds(s, u, c) <==>
              Waits(s, u, id) && s.world.db.rows[id].container == c && s.world.db.rows[id].threadRoot == None
  {
  }

  /** The share of one container. */
  lemma ShareCounts(s: State, u: UserId, c: ContainerId)
    requires IsFor(s, u, c)
    ensures ShareOf(s, u, c) == |CountingIn(s, u, {c})|
  {
    hide MentionIds, UnreadIds, Called;
    MentionsAre(s, u, c);
    UnreadAre(s, u, c);
    if Called(s, u, c) {
      assert CountingIn(s, u, {c}) == MentionIds(s, u, c);
    } else if s.containers[c].kind == Conversation {
      assert CountingIn(s, u, {c}) == UnreadIds(s, u, c);
    } else {
      assert CountingIn(s, u, {c}) == {};
    }
  }

  lemma {:induction false} SumCounts(s: State, u: UserId, cs: set<ContainerId>)
    requires cs <= s.containers.Keys && forall c :: c in cs ==> IsFor(s, u, c)
    ensures Sum(s, u, cs) == |CountingIn(s, u, cs)|
    decreases cs
  {
    hide ShareOf, IsFor, Counts;
    if cs == {} {
      assert CountingIn(s, u, cs) == {};
    } else {
      var c :| c in cs;
      SumTakes(s, u, cs, c);
      ShareCounts(s, u, c);
      SumCounts(s, u, cs - {c});
      assert CountingIn(s, u, cs) == CountingIn(s, u, {c}) + CountingIn(s, u, cs - {c});
      assert CountingIn(s, u, {c}) !! CountingIn(s, u, cs - {c});
    }
  }

  /** In any state of the tables the server's badge is the number of messages that count, each of them once. */
  lemma ServerCountsMessages(s: State, u: UserId)
    ensures UnreadTotal(s, u) == |Counting(s, u)|
  {
    hide Sum, Waits, Called, CountingIn;
    var cs := set c | c in s.containers && Visible(s, u, c);
    forall c ensures c in cs <==> IsFor(s, u, c) {
    }
    SumCounts(s, u, cs);
    CountingInAll(s, u, cs);
  }

  lemma CountingInAll(s: State, u: UserId, cs: set<ContainerId>)
    requires forall c :: c in cs <==> IsFor(s, u, c)
    ensures CountingIn(s, u, cs) == Counting(s, u)
  {
    hide Waits, Called, IsFor;
  }

  /** In every reachable state so is the client's, from the views of the user in any order. */
  lemma ClientCountsMessages(ss: seq<State>, k: nat, u: UserId, views: seq<View>)
    requires IsRun(ss) && k < |ss| && AreViews(views, ss[k], u, true)
    ensures ViewTotal(views) == |Counting(ss[k], u)|
  {
    hide IsRun, AreViews, ViewTotal, UnreadTotal, Counting;
    BadgesAgree(ss, k, u, views);
    ServerCountsMessages(ss[k], u);
  }

  // ---------- A new message ----------

  /** What an insert into a state of the tables leaves. */
  ghost predicate Adds(s: State, m: MessageStore.NewMessage, id: Id, s': State) {
    && id !in s.world.db.rows && s'.world.db.rows.Keys == s.world.db.rows.Keys + {id}
    && s'.containers == s.containers && s'.participants == s.participants && s'.markers == s.markers
    && m.container in s.world.db.lastSeq
    && (forall x :: x in s.world.db.rows ==>
          s'.world.db.rows[x] == s.world.db.rows[x].(replyCount := s'.world.db.rows[x].replyCount,
                                                     lastReplyAt := s'.world.db.rows[x].lastReplyAt))
    && (forall x, v :: (x, v) in s'.world.db.mentions <==>
          (x, v) in s.world.db.mentions || (x == id && v in m.mentions))
    && (forall v :: (id, v) !in s.world.db.mentions)
    && var row := s'.world.db.rows[id];
       && row.container == m.container && row.seqNo == s.world.db.lastSeq[m.container] + 1 && row.deletedAt == None
       && row.threadRoot == m.threadRoot
  }

  lemma InsertAdds(s: State, m: MessageStore.NewMessage, id: Id, now: MessageStore.Time, s': State)
    requires Inv(s) && Step(s, Message(MessageStore.Insert(m, id)), now, s') && MessageStore.Fresh(s.world.db, m)
    ensures Adds(s, m, id, s')
  {
    hide MessageStore.NumbersInv, MessageStore.GaplessInv, MessageStore.RefsInv, MessageStore.CountInv,
         MessageStore.Inserted, MessageStore.Fresh, MessageStore.HasClient, MarkerInv, ShapeInv;
    assert MessageStore.Inv(s.world);
    IssuedRows(s.world);
    MessageIsFresh(s.world.db, m);
    MessageHistory.InsertWrites(s.world.db, m, id, now);
    MessageHistory.NoMentions(s.world, id);
  }

  lemma MessageIsFresh(db: MessageStore.DB, m: MessageStore.NewMessage)
    requires MessageStore.Fresh(db, m)
    ensures m.container in db.lastSeq && MessageStore.RefOk(db, m.threadRoot)
  {
  }

  /** The new message waits for everyone, as no marker stands above the last number. */
  lemma NewWaits(s: State, m: MessageStore.NewMessage, id: Id, s': State, u: UserId)
    requires MarkerInv(s) && Adds(s, m, id, s')
    ensures Waits(s', u, id)
    ensures forall x :: x in s.world.db.rows ==> (Waits(s', u, x) <==> Waits(s, u, x))
  {
    forall x | x in s.world.db.rows ensures Waits(s', u, x) <==> Waits(s, u, x) {
      assert s'.world.db.rows[x].seqNo == s.world.db.rows[x].seqNo;
    }
  }

  lemma CalledAfter(s: State, m: MessageStore.NewMessage, id: Id, s': State, u: UserId, c: ContainerId)
    requires MarkerInv(s) && Adds(s, m, id, s')
    ensures Called(s', u, c) <==> Called(s, u, c) || (c == m.container && u in m.mentions)
  {
    hide MarkerInv, Waits;
    NewWaits(s, m, id, s', u);
    if Called(s, u, c) {
      var x :| x in s.world.db.rows && s.world.db.rows[x].container == c && Waits(s, u, x) &&
               (x, u) in s.world.db.mentions;
      assert s'.world.db.rows[x].container == c && (x, u) in s'.world.db.mentions;
    }
    if c == m.container && u in m.mentions {
      assert (id, u) in s'.world.db.mentions;
    }
    if Called(s', u, c) {
      var x :| x in s'.world.db.rows && s'.world.db.rows[x].container == c && Waits(s', u, x) &&
               (x, u) in s'.world.db.mentions;
      assert x != id ==> x in s.world.db.rows && s.world.db.rows[x].container == c;
    }
  }

  /** The new message is elsewhere or mentions others, or another that mentions the user waits there as well. */
  predicate Spares(s: State, m: MessageStore.NewMessage, u: UserId, c: ContainerId) {
    c != m.container || u !in m.mentions || Called(s, u, c)
  }

  /** Whether a message that was there counts is changed only by the first mention that waits in a conversation. */
  lemma OldCounts(s: State, m: MessageStore.NewMessage, id: Id, s': State, u: UserId, x: Id)
    requires MarkerInv(s) && Adds(s, m, id, s') && x in s.world.db.rows
    ensures Counts(s', u, x) <==>
            Counts(s, u, x) && ((x, u) in s.world.db.mentions || Spares(s, m, u, s.world.db.rows[x].container))
  {
    hide MarkerInv, Waits, Called;
    NewWaits(s, m, id, s', u);
    var c := s.world.db.rows[x].container;
    CalledAfter(s, m, id, s', u, c);
    assert s'.world.db.rows[x].container == c && s'.world.db.rows[x].threadRoot == s.world.db.rows[x].threadRoot;
    assert (x, u) in s'.world.db.mentions <==> (x, u) in s.world.db.mentions;
  }

  lemma NewCounts(s: State, m: MessageStore.NewMessage, id: Id, s': State, u: UserId)
    requires MarkerInv(s) && Adds(s, m, id, s')
    ensures Counts(s', u, id) <==>
            && IsFor(s, u, m.container)
            && (u in m.mentions || (s.containers[m.container].kind == Conversation && m.threadRoot == None &&
                                    !Called(s, u, m.container)))
  {
    hide MarkerInv, Waits, Called;
    NewWaits(s, m, id, s', u);
    CalledAfter(s, m, id, s', u, m.container);
    assert (id, u) in s'.world.db.mentions <==> u in m.mentions;
  }

  /** What waits outside the threads of a container. */
  function Outside(s: State, u: UserId, c: ContainerId): set<Id> {
    set id | id in s.world.db.rows && s.world.db.rows[id].container == c && s.world.db.rows[id].threadRoot == None &&
             Waits(s, u, id)
  }

  lemma CountingAfter(s: State, m: MessageStore.NewMessage, id: Id, s': State, u: UserId)
    requires MarkerInv(s) && Adds(s, m, id, s')
    ensures id !in Counting(s, u)
    ensures var c := m.container;
            Counting(s', u) ==
            if !IsFor(s, u, c) then Counting(s, u)
            else if u in m.mentions then
              (if s.containers[c].kind == Channel || Called(s, u, c) then Counting(s, u)
               else Counting(s, u) - Outside(s, u, c)) + {id}
            else if s.containers[c].kind == Conversation && m.threadRoot == None && !Called(s, u, c) then
              Counting(s, u) + {id}
            else Counting(s, u)
  {
    hide MarkerInv, Waits, Called;
    NewCounts(s, m, id, s', u);
    forall x | x in s.world.db.rows
      ensures Counts(s', u, x) <==>
              Counts(s, u, x) && ((x, u) in s.world.db.mentions || Spares(s, m, u, s.world.db.rows[x].container))
      ensures (x, u) in s.world.db.mentions && Counts(s, u, x) ==> Called(s, u, s.world.db.rows[x].container)
    {
      OldCounts(s, m, id, s', u, x);
      if (x, u) in s.world.db.mentions && Counts(s, u, x) {
        IsCalled(s, u, x);
      }
    }
  }

  lemma IsCalled(s: State, u: UserId, x: Id)
    requires Waits(s, u, x) && (x, u) in s.world.db.mentions
    ensures Called(s, u, s.world.db.rows[x].container)
  {
  }

  /** When nothing that waits in a conversation mentions the user, what waits outside its threads counts. */
  lemma OutsideCounts(s: State, u: UserId, c: ContainerId)
    requires IsFor(s, u, c) && s.containers[c].kind == Conversation && !Called(s, u, c)
    ensures Outside(s, u, c) <= Counting(s, u)
  {
    hide Waits, Called;
  }

  /**
   In every run, what a new message does to a badge. In a channel a mention of the user raises it by one, and any
   other message leaves it. In a conversation the first mention takes the place of what had waited.
   */
  lemma NewMessageOnBadge(ss: seq<State>, k: nat, m: MessageStore.NewMessage, id: Id, now: MessageStore.Time,
                          u: UserId)
    requires IsRun(ss) && k + 1 < |ss| && Step(ss[k], Message(MessageStore.Insert(m, id)), now, ss[k + 1])
    requires MessageStore.Fresh(ss[k].world.db, m)
    ensures var s, c, before, after := ss[k], m.container, UnreadTotal(ss[k], u), UnreadTotal(ss[k + 1], u);
            if !IsFor(s, u, c) then after == before
            else if s.containers[c].kind == Channel then after == before + if u in m.mentions then 1 else 0
            else if Called(s, u, c) then after == before + if u in m.mentions then 1 else 0
            else if u in m.mentions then after == before - |Outside(s, u, c)| + 1
            else after == before + if m.threadRoot == None then 1 else 0
  {
    hide IsRun, Inv, Step, MessageStore.Fresh, Adds, IsFor, Called, Counting, Outside, UnreadTotal;
    var s, s', c := ss[k], ss[k + 1], m.container;
    RunKeepsInv(ss, k);
    InsertAdds(s, m, id, now, s');
    KeepsMarkers(s);
    CountingAfter(s, m, id, s', u);
    ServerCountsMessages(s, u);
    ServerCountsMessages(s', u);
    if IsFor(s, u, c) && u in m.mentions {
      InContainers(s, u, c);
      if s.containers[c].kind == Conversation && !Called(s, u, c) {
        OutsideCounts(s, u, c);
      }
    }
  }

  lemma KeepsMarkers(s: State)
    requires Inv(s)
    ensures MarkerInv(s)
  {
  }

  lemma InContainers(s: State, u: UserId, c: ContainerId)
    requires IsFor(s, u, c)
    ensures c in s.containers
  {
  }

  // ---------- Other steps ----------

  /** Reading up to a number leaves what is numbered above it, and everything elsewhere, waiting. */
  lemma MarkOnWaiting(ss: seq<State>, k: nat, v: UserId, c: ContainerId, n: int, now: MessageStore.Time, u: UserId,
                      id: Id)
    requires IsRun(ss) && k + 1 < |ss| && Step(ss[k], Mark(v, c, n), now, ss[k + 1])
    ensures Waits(ss[k + 1], u, id) <==>
            && Waits(ss[k], u, id)
            && (u == v && ss[k].world.db.rows[id].container == c ==> ss[k].world.db.rows[id].seqNo > n)
  {
    hide IsRun, ShapeInv, MessageStore.NumbersInv, MessageStore.GaplessInv, MessageStore.RefsInv,
         MessageStore.CountInv, MessageStore.KeysInv;
    var s := ss[k];
    RunKeepsInv(ss, k);
    RowsHaveContainers(s.world);
  }

  /** Deleting a message takes it off every badge that counts it alone. */
  lemma DeleteOnWaiting(ss: seq<State>, k: nat, x: Id, now: MessageStore.Time, u: UserId, id: Id)
    requires IsRun(ss) && k + 1 < |ss| && Step(ss[k], Message(MessageStore.Delete(x)), now, ss[k + 1])
    ensures Waits(ss[k + 1], u, id) <==> Waits(ss[k], u, id) && id != x
  {
    hide IsRun, ShapeInv, MarkerInv, MessageStore.Deleted, MessageStore.Inv;
    var s := ss[k];
    RunKeepsInv(ss, k);
    if MessageStore.Live(s.world.db, x) {
      MessageHistory.NotItsOwnRoot(s.world, x);
      MessageHistory.DeleteWrites(s.world.db, x, now);
    }
  }
}
