/**
 The message table (internal/store/messages.go). Each transaction is one atomic step, and the database clock
 does not run backwards.
 */
module MessageStore {
  import opened Arithmetic
  import opened Wrappers

  type Id = nat
  type ContainerId = nat
  type UserId = nat
  type Time = int

  datatype Row = Row(container: ContainerId, seqNo: nat, author: UserId, body: string, replyTo: Option<Id>,
                     threadRoot: Option<Id>, clientId: string, isSystem: bool, replyCount: int,
                     lastReplyAt: Option<Time>, createdAt: Time, editedAt: Option<Time>, deletedAt: Option<Time>)

  datatype NewMessage = NewMessage(container: ContainerId, author: UserId, body: string, clientId: string,
                                   replyTo: Option<Id>, threadRoot: Option<Id>, isSystem: bool, mentions: set<UserId>)

  /** The containers with their last sequence number, the message rows, and who is mentioned in which. */
  datatype DB = DB(lastSeq: map<ContainerId, nat>, rows: map<Id, Row>, mentions: set<(Id, UserId)>)

  datatype Error = NotFound | Conflict | Invalid

  // ---------- The transactions as functions of the table ----------

  predicate SentBy(row: Row, author: UserId, clientId: string) {
    row.author == author && row.clientId == clientId
  }

  predicate HasClient(db: DB, author: UserId, clientId: string) {
    exists id :: id in db.rows && SentBy(db.rows[id], author, clientId)
  }

  predicate RefOk(db: DB, ref: Option<Id>) {
    ref.Some? ==> ref.value in db.rows
  }

  function InsertedRow(m: NewMessage, seqNo: nat, now: Time): Row {
    Row(m.container, seqNo, m.author, m.body, m.replyTo, m.threadRoot, m.clientId, m.isSystem, 0, None, now, None, None)
  }

  function MentionPairs(id: Id, users: set<UserId>): set<(Id, UserId)> {
    set u | u in users :: (id, u)
  }

  /** A new row with the next sequence number, counted by its thread root. */
  function Inserted(db: DB, m: NewMessage, id: Id, now: Time): DB
    requires m.container in db.lastSeq && RefOk(db, m.threadRoot)
  {
    var n := db.lastSeq[m.container] + 1;
    var rows := db.rows[id := InsertedRow(m, n, now)];
    DB(db.lastSeq[m.container := n],
       if m.threadRoot.Some? then
         var root := m.threadRoot.value;
         rows[root := rows[root].(replyCount := rows[root].replyCount + 1, lastReplyAt := Some(now))]
       else rows,
       db.mentions + MentionPairs(id, m.mentions))
  }

  predicate Live(db: DB, id: Id) {
    id in db.rows && db.rows[id].deletedAt.None?
  }

  function Edited(db: DB, id: Id, body: string, users: set<UserId>, now: Time): DB
    requires Live(db, id)
  {
    db.(rows := db.rows[id := db.rows[id].(body := body, editedAt := Some(now))],
        mentions := (set p | p in db.mentions && p.0 != id) + MentionPairs(id, users))
  }

  /** The row stays, without its body; its thread root counts it no more. */
  function Deleted(db: DB, id: Id, now: Time): DB
    requires Live(db, id)
  {
    var rows := db.rows[id := db.rows[id].(body := "", deletedAt := Some(now))];
    var ref := db.rows[id].threadRoot;
    db.(rows := if ref.Some? && ref.value in rows
                then rows[ref.value := rows[ref.value].(replyCount := Max(rows[ref.value].replyCount - 1, 0))]
                else rows)
  }

  predicate Old(db: DB, id: Id, cutoff: Time) {
    id in db.rows && db.rows[id].createdAt < cutoff
  }

  function Detached(db: DB, ref: Option<Id>, cutoff: Time): Option<Id> {
    if ref.Some? && Old(db, ref.value, cutoff) then None else ref
  }

  /** Rows created before the cutoff go; rows that stay let go of them. */
  function Purged(db: DB, cutoff: Time): DB {
    db.(rows := map id | id in db.rows && !Old(db, id, cutoff) ::
                  db.rows[id].(replyTo := Detached(db, db.rows[id].replyTo, cutoff),
                               threadRoot := Detached(db, db.rows[id].threadRoot, cutoff)),
        mentions := set p | p in db.mentions && !Old(db, p.0, cutoff))
  }

  // ---------- The store ----------

  class Store {
    var lastSeq: map<ContainerId, nat>
    var rows: map<Id, Row>
    var mentions: set<(Id, UserId)>

    ghost function Value(): DB
      reads this
    {
      DB(lastSeq, rows, mentions)
    }

    constructor ()
      ensures Value() == DB(map[], map[], {})
    {
      lastSeq, rows, mentions := map[], map[], {};
    }

    method MessageByClientID(author: UserId, clientId: string) returns (found: Option<Id>)
      ensures found.None? <==> !HasClient(Value(), author, clientId)
      ensures found.None? <==> forall id :: id in rows ==> rows[id].author != author || rows[id].clientId != clientId
      ensures found.Some? ==>
                && found.value in rows
                && rows[found.value].author == author && rows[found.value].clientId == clientId
    {
      found := None;
      var rest := rows.Keys;
      while rest != {}
        invariant rest <= rows.Keys
        invariant found.None? ==> forall id :: id in rows.Keys - rest ==> !SentBy(rows[id], author, clientId)
        invariant found.Some? ==> found.value in rows && SentBy(rows[found.value], author, clientId)
      {
        var id :| id in rest;
        if SentBy(rows[id], author, clientId) {
          found := Some(id);
        }
        rest := rest - {id};
      }
    }

    /**
     Inserts a message, or finds the one its author has already sent under the same client id.
     A transaction that fails leaves nothing behind, not even a number in the sequence.
     */
    method InsertMessage(m: NewMessage, id: Id, now: Time) returns (r: Result<Id, Error>)
      modifies this
      ensures r.Err? ==> Value() == old(Value())
      ensures HasClient(old(Value()), m.author, m.clientId) ==>
                && r.Ok? && Value() == old(Value())
                && r.value in rows && rows[r.value].author == m.author && rows[r.value].clientId == m.clientId
      ensures !HasClient(old(Value()), m.author, m.clientId) ==>
                if m.container !in old(lastSeq) then r == Err(NotFound)
                else if id in old(rows) then r == Err(Conflict)
                else if (m.replyTo.Some? && m.replyTo.value !in old(rows)) ||
                        (m.threadRoot.Some? && m.threadRoot.value !in old(rows)) then r == Err(Invalid)
                else r == Ok(id) && Value() == Inserted(old(Value()), m, id, now)
    {
      var existing := MessageByClientID(m.author, m.clientId);
      if existing.Some? {
        return Ok(existing.value);
      }
      if m.container !in lastSeq {
        return Err(NotFound);
      }
      var savedSeq := lastSeq;
      var seqNo := lastSeq[m.container] + 1;
      lastSeq := lastSeq[m.container := seqNo];
      if id in rows {
        lastSeq := savedSeq;
        return Err(Conflict);
      }
      if (m.replyTo.Some? && m.replyTo.value !in rows) || (m.threadRoot.Some? && m.threadRoot.value !in rows) {
        lastSeq := savedSeq;
        return Err(Invalid);
      }
      rows := rows[id := InsertedRow(m, seqNo, now)];
      mentions := mentions + MentionPairs(id, m.mentions);
      if m.threadRoot.Some? {
        var root := m.threadRoot.value;
        rows := rows[root := rows[root].(replyCount := rows[root].replyCount + 1, lastReplyAt := Some(now))];
      }
      return Ok(id);
    }

    method EditMessage(id: Id, body: string, users: set<UserId>, now: Time) returns (r: Result<Id, Error>)
      modifies this
      ensures r == if id in old(rows) && old(rows)[id].deletedAt == None then Ok(id) else Err(NotFound)
      ensures !Live(old(Value()), id) ==> Value() == old(Value())
      ensures Live(old(Value()), id) ==> Value() == Edited(old(Value()), id, body, users, now)
    {
      if id !in rows || rows[id].deletedAt.Some? {
        return Err(NotFound);
      }
      rows := rows[id := rows[id].(body := body, editedAt := Some(now))];
      mentions := set p | p in mentions && p.0 != id;
      mentions := mentions + MentionPairs(id, users);
      return Ok(id);
    }

    method DeleteMessage(id: Id, now: Time) returns (r: Result<Id, Error>)
      modifies this
      ensures r == if id in old(rows) && old(rows)[id].deletedAt == None then Ok(id) else Err(NotFound)
      ensures !Live(old(Value()), id) ==> Value() == old(Value())
      ensures Live(old(Value()), id) ==> Value() == Deleted(old(Value()), id, now)
    {
      if id !in rows || rows[id].deletedAt.Some? {
        return Err(NotFound);
      }
      rows := rows[id := rows[id].(body := "", deletedAt := Some(now))];
      if rows[id].threadRoot.Some? {
        var root := rows[id].threadRoot.value;
        if root in rows {
          rows := rows[root := rows[root].(replyCount := Max(rows[root].replyCount - 1, 0))];
        }
      }
      return Ok(id);
    }

    method DeleteMessagesOlderThan(cutoff: Time) returns (deleted: nat)
      modifies this
      ensures deleted == |set id | id in old(Value()).rows && Old(old(Value()), id, cutoff)|
      ensures Value() == Purged(old(Value()), cutoff)
    {
      hide Purged, WithoutReplies, WithoutRoots, Without;
      var gone := set id | id in rows && rows[id].createdAt < cutoff;
      PurgeInSteps(Value(), cutoff, gone);
      rows := WithoutReplies(rows, gone, cutoff);
      rows := WithoutRoots(rows, gone, cutoff);
      rows := Without(rows, gone);
      mentions := set p | p in mentions && p.0 !in gone;
      deleted := |gone|;
    }
  }

  function WithoutReplies(rows: map<Id, Row>, gone: set<Id>, cutoff: Time): map<Id, Row> {
    map id | id in rows ::
      if rows[id].createdAt >= cutoff && rows[id].replyTo.Some? && rows[id].replyTo.value in gone
      then rows[id].(replyTo := None) else rows[id]
  }

  function WithoutRoots(rows: map<Id, Row>, gone: set<Id>, cutoff: Time): map<Id, Row> {
    map id | id in rows ::
      if rows[id].createdAt >= cutoff && rows[id].threadRoot.Some? && rows[id].threadRoot.value in gone
      then rows[id].(threadRoot := None) else rows[id]
  }

  function Without(rows: map<Id, Row>, gone: set<Id>): map<Id, Row> {
    map id | id in rows && id !in gone :: rows[id]
  }

  /** Two updates that let go of old rows, and the delete, come to the same as Purged. */
  lemma PurgeInSteps(db: DB, cutoff: Time, gone: set<Id>)
    requires gone == set id | id in db.rows && db.rows[id].createdAt < cutoff
    ensures gone == set id | id in db.rows && Old(db, id, cutoff)
    ensures Purged(db, cutoff) ==
            DB(db.lastSeq, Without(WithoutRoots(WithoutReplies(db.rows, gone, cutoff), gone, cutoff), gone),
               set p | p in db.mentions && p.0 !in gone)
  {
    assert forall id :: id in gone <==> Old(db, id, cutoff);
    forall id | id in db.rows && id !in gone
      ensures WithoutRoots(WithoutReplies(db.rows, gone, cutoff), gone, cutoff)[id] ==
              db.rows[id].(replyTo := Detached(db, db.rows[id].replyTo, cutoff),
                           threadRoot := Detached(db, db.rows[id].threadRoot, cutoff))
    {
    }
  }

  // ---------- Runs ----------

  /** The table with what has been used up: row ids and sequence numbers. */
  datatype World = World(db: DB, clock: Time, issued: set<Id>, numbers: set<(ContainerId, nat)>, purged: bool)

  datatype Op =
    | CreateContainer(c: ContainerId)
    | Insert(m: NewMessage, id: Id)
    | Edit(id: Id, body: string, users: set<UserId>)
    | Delete(id: Id)
    | Purge(cutoff: Time)

  /** What callers of InsertMessage have checked: a root that still exists is no reply, and of the same container. */
  predicate RootChecked(db: DB, container: ContainerId, root: Option<Id>) {
    root.Some? && root.value in db.rows ==>
      db.rows[root.value].threadRoot.None? && db.rows[root.value].container == container
  }

  /** The insert goes through: it is not a repeat, and everything it refers to exists. */
  predicate Fresh(db: DB, m: NewMessage) {
    && !HasClient(db, m.author, m.clientId) && m.container in db.lastSeq
    && RefOk(db, m.replyTo) && RefOk(db, m.threadRoot)
  }

  ghost predicate Step(w: World, op: Op, now: Time, w': World) {
    && w.clock <= now == w'.clock
    && match op
       case CreateContainer(c) =>
         && c !in w.db.lastSeq && (forall n :: (c, n) !in w.numbers)
         && w' == w.(clock := now, db := w.db.(lastSeq := w.db.lastSeq[c := 0]))
       case Insert(m, id) =>
         && id !in w.issued && RootChecked(w.db, m.container, m.threadRoot)
         && if Fresh(w.db, m) then
              w' == w.(clock := now, db := Inserted(w.db, m, id, now), issued := w.issued + {id},
                       numbers := w.numbers + {(m.container, w.db.lastSeq[m.container] + 1)})
            else w' == w.(clock := now)
       case Edit(id, body, users) =>
         w' == w.(clock := now, db := if Live(w.db, id) then Edited(w.db, id, body, users, now) else w.db)
       case Delete(id) =>
         w' == w.(clock := now, db := if Live(w.db, id) then Deleted(w.db, id, now) else w.db)
       case Purge(cutoff) =>
         w' == w.(clock := now, db := Purged(w.db, cutoff), purged := true)
  }

  ghost predicate Initial(w: World) {
    w.db == DB(map[], map[], {}) && w.issued == {} && w.numbers == {} && !w.purged
  }

  // ---------- What every step keeps ----------

  ghost predicate KeysInv(w: World) {
    && (forall id :: id in w.db.rows ==> id in w.issued && w.db.rows[id].createdAt <= w.clock)
    && (forall a, b :: a in w.db.rows && b in w.db.rows && a != b ==>
          !SentBy(w.db.rows[b], w.db.rows[a].author, w.db.rows[a].clientId))
    && (forall p :: p in w.db.mentions ==> p.0 in w.db.rows)
  }

  /** The numbers used in a container are 1 up to the last, and no two rows share one. */
  ghost predicate NumbersInv(w: World) {
    && (forall p :: p in w.numbers <==> p.0 in w.db.lastSeq && 1 <= p.1 <= w.db.lastSeq[p.0])
    && (forall id :: id in w.db.rows ==> (w.db.rows[id].container, w.db.rows[id].seqNo) in w.numbers)
    && (forall a, b :: a in w.db.rows && b in w.db.rows && a != b ==>
          w.db.rows[a].container != w.db.rows[b].container || w.db.rows[a].seqNo != w.db.rows[b].seqNo)
  }

  ghost predicate Numbered(db: DB, c: ContainerId, n: nat) {
    exists id :: id in db.rows && db.rows[id].container == c && db.rows[id].seqNo == n
  }

  /** Until retention deletes rows, every number used is that of a row. */
  ghost predicate GaplessInv(w: World) {
    !w.purged ==> forall p :: p in w.numbers ==> Numbered(w.db, p.0, p.1)
  }

  ghost predicate RefsInv(w: World) {
    && (forall id :: id in w.db.rows ==> RefOk(w.db, w.db.rows[id].replyTo) && RefOk(w.db, w.db.rows[id].threadRoot))
    && (forall id :: id in w.db.rows && w.db.rows[id].threadRoot.Some? ==>
          var root := w.db.rows[w.db.rows[id].threadRoot.value];
          && root.threadRoot.None? && root.container == w.db.rows[id].container
          && root.createdAt <= w.db.rows[id].createdAt)
  }

  predicate Counts(db: DB, id: Id, root: Id) {
    id in db.rows && db.rows[id].threadRoot == Some(root) && db.rows[id].deletedAt.None?
  }

  /** The live replies of a thread. */
  function Replies(db: DB, root: Id): set<Id> {
    set id | id in db.rows && Counts(db, id, root)
  }

  ghost predicate CountInv(w: World) {
    forall id :: id in w.db.rows ==> w.db.rows[id].replyCount == |Replies(w.db, id)|
  }

  ghost predicate Inv(w: World) {
    KeysInv(w) && NumbersInv(w) && GaplessInv(w) && RefsInv(w) && CountInv(w)
  }

  // Insert is the one step that adds a row. The others keep who sent a row, where and when.

  predicate SameOrigin(a: Row, b: Row) {
    && a.container == b.container && a.seqNo == b.seqNo && a.author == b.author && a.clientId == b.clientId
    && a.createdAt == b.createdAt
  }

  ghost predicate NoNewRows(db: DB, db': DB) {
    && (forall id :: id in db'.rows ==>
          && id in db.rows && SameOrigin(db'.rows[id], db.rows[id])
          && (db.rows[id].threadRoot.None? ==> db'.rows[id].threadRoot.None?))
    && (forall p :: p in db'.mentions ==> p.0 in db'.rows)
  }

  /** Every row but the new one is an old one, and at most the count of the root has changed. */
  ghost predicate OneNewRow(db: DB, m: NewMessage, id: Id, now: Time, db': DB) {
    && db'.rows.Keys == db.rows.Keys + {id}
    && m.container in db.lastSeq && db'.rows[id] == InsertedRow(m, db.lastSeq[m.container] + 1, now)
    && (forall x :: x in db.rows && x != id ==>
          && SameOrigin(db'.rows[x], db.rows[x])
          && db'.rows[x].replyTo == db.rows[x].replyTo && db'.rows[x].threadRoot == db.rows[x].threadRoot
          && db'.rows[x].deletedAt == db.rows[x].deletedAt
          && db'.rows[x].replyCount == db.rows[x].replyCount + if m.threadRoot == Some(x) then 1 else 0)
    && (forall p :: p in db'.mentions ==> p in db.mentions || p.0 == id)
  }

  lemma InsertAddsOneRow(db: DB, m: NewMessage, id: Id, now: Time)
    requires Fresh(db, m) && id !in db.rows
    ensures OneNewRow(db, m, id, now, Inserted(db, m, id, now))
  {
  }

  lemma PurgeAddsNoRow(db: DB, cutoff: Time)
    requires forall p :: p in db.mentions ==> p.0 in db.rows
    ensures NoNewRows(db, Purged(db, cutoff))
  {
  }

  lemma EditAddsNoRow(db: DB, id: Id, body: string, users: set<UserId>, now: Time)
    requires Live(db, id) && forall p :: p in db.mentions ==> p.0 in db.rows
    ensures var db' := Edited(db, id, body, users, now);
            NoNewRows(db, db') && db'.rows.Keys == db.rows.Keys && db'.lastSeq == db.lastSeq && SameRefs(db, db')
  {
  }

  lemma DeleteAddsNoRow(db: DB, id: Id, now: Time)
    requires Live(db, id) && forall p :: p in db.mentions ==> p.0 in db.rows
    ensures var db' := Deleted(db, id, now);
            NoNewRows(db, db') && db'.rows.Keys == db.rows.Keys && db'.lastSeq == db.lastSeq && SameRefs(db, db')
  {
  }

  /** Rows keep what they refer to, and their own container and age. */
  ghost predicate SameRefs(db: DB, db': DB) {
    && db'.rows.Keys == db.rows.Keys
    && forall x :: x in db.rows ==>
         && SameOrigin(db'.rows[x], db.rows[x])
         && db'.rows[x].replyTo == db.rows[x].replyTo && db'.rows[x].threadRoot == db.rows[x].threadRoot
  }

  lemma SameRowsAddNoRow(db: DB, db': DB)
    requires db'.rows == db.rows && db'.mentions == db.mentions && forall p :: p in db.mentions ==> p.0 in db.rows
    ensures NoNewRows(db, db') && SameRefs(db, db')
  {
  }

  lemma OthersAddNoRow(w: World, op: Op, now: Time, w': World)
    requires KeysInv(w) && Step(w, op, now, w') && !op.Insert?
    ensures NoNewRows(w.db, w'.db) && w'.issued == w.issued && w'.numbers == w.numbers
    ensures w'.db.lastSeq == if op.CreateContainer? then w.db.lastSeq[op.c := 0] else w.db.lastSeq
    ensures op.CreateContainer? ==> op.c !in w.db.lastSeq
    ensures !w'.purged ==> !w.purged && w'.db.rows.Keys == w.db.rows.Keys
  {
    hide NoNewRows, SameRefs, Edited, Deleted;
    match op
    case Purge(cutoff) =>
      PurgeAddsNoRow(w.db, cutoff);
    case Edit(id, body, users) =>
      if Live(w.db, id) { EditAddsNoRow(w.db, id, body, users, now); } else { SameRowsAddNoRow(w.db, w'.db); }
    case Delete(id) =>
      if Live(w.db, id) { DeleteAddsNoRow(w.db, id, now); } else { SameRowsAddNoRow(w.db, w'.db); }
    case CreateContainer(c) =>
      SameRowsAddNoRow(w.db, w'.db);
  }

  lemma OthersKeepKeys(w: World, w': World)
    requires KeysInv(w) && NoNewRows(w.db, w'.db) && w'.issued == w.issued && w.clock <= w'.clock
    ensures KeysInv(w')
  {
  }

  lemma InsertKeepsKeys(w: World, m: NewMessage, id: Id, now: Time, w': World)
    requires KeysInv(w) && OneNewRow(w.db, m, id, now, w'.db) && !HasClient(w.db, m.author, m.clientId)
    requires id !in w.issued && w'.issued == w.issued + {id} && w.clock <= now == w'.clock
    ensures KeysInv(w')
  {
  }

  lemma InsertKeepsNumbers(w: World, m: NewMessage, id: Id, now: Time, w': World)
    requires NumbersInv(w) && OneNewRow(w.db, m, id, now, w'.db) && id !in w.db.rows
    requires w'.db.lastSeq == w.db.lastSeq[m.container := w.db.lastSeq[m.container] + 1]
    requires w'.numbers == w.numbers + {(m.container, w.db.lastSeq[m.container] + 1)}
    ensures NumbersInv(w')
  {
    assert (m.container, w.db.lastSeq[m.container] + 1) !in w.numbers;
    forall x | x in w'.db.rows && x != id
      ensures (w'.db.rows[x].container, w'.db.rows[x].seqNo) in w.numbers && SameOrigin(w'.db.rows[x], w.db.rows[x])
    {
      assert x in w.db.rows;
    }
  }

  lemma NumberedStays(db: DB, db': DB, c: ContainerId, n: nat)
    requires Numbered(db, c, n) && db.rows.Keys <= db'.rows.Keys
    requires forall id :: id in db.rows ==> SameOrigin(db'.rows[id], db.rows[id])
    ensures Numbered(db', c, n)
  {
    var id :| id in db.rows && db.rows[id].container == c && db.rows[id].seqNo == n;
    assert id in db'.rows && db'.rows[id].seqNo == n;
  }

  lemma InsertKeepsGapless(w: World, m: NewMessage, id: Id, now: Time, w': World)
    requires GaplessInv(w) && OneNewRow(w.db, m, id, now, w'.db) && id !in w.db.rows && w'.purged == w.purged
    requires w'.numbers == w.numbers + {(m.container, w.db.lastSeq[m.container] + 1)}
    ensures GaplessInv(w')
  {
    forall p | !w'.purged && p in w'.numbers ensures Numbered(w'.db, p.0, p.1) {
      if p in w.numbers { NumberedStays(w.db, w'.db, p.0, p.1); } else { assert w'.db.rows[id].seqNo == p.1; }
    }
  }

  lemma OthersKeepNumbers(w: World, w': World)
    requires NumbersInv(w) && NoNewRows(w.db, w'.db) && w'.numbers == w.numbers
    requires w'.db.lastSeq == w.db.lastSeq ||
             exists c: ContainerId :: c !in w.db.lastSeq && w'.db.lastSeq == w.db.lastSeq[c := 0]
    ensures NumbersInv(w')
  {
  }

  lemma OthersKeepGapless(w: World, w': World)
    requires GaplessInv(w) && NoNewRows(w.db, w'.db) && w'.numbers == w.numbers
    requires !w'.purged ==> !w.purged && w'.db.rows.Keys == w.db.rows.Keys
    ensures GaplessInv(w')
  {
    forall p | !w'.purged && p in w'.numbers ensures Numbered(w'.db, p.0, p.1) {
      NumberedStays(w.db, w'.db, p.0, p.1);
    }
  }

  // ---------- References ----------

  lemma InsertKeepsRefs(w: World, m: NewMessage, id: Id, now: Time, w': World)
    requires KeysInv(w) && RefsInv(w) && OneNewRow(w.db, m, id, now, w'.db) && id !in w.db.rows
    requires Fresh(w.db, m) && RootChecked(w.db, m.container, m.threadRoot) && w.clock <= now
    ensures RefsInv(w')
  {
  }

  lemma SameRowsKeepRefs(w: World, w': World)
    requires RefsInv(w) && SameRefs(w.db, w'.db)
    ensures RefsInv(w')
  {
  }

  /** Retention leaves no reference to a row it deletes. */
  lemma PurgeKeepsRefs(w: World, cutoff: Time, w': World)
    requires RefsInv(w) && w'.db == Purged(w.db, cutoff)
    ensures RefsInv(w')
  {
  }

  // ---------- Reply counts ----------

  lemma SameReplies(db: DB, db': DB, x: Id)
    requires forall i :: Counts(db', i, x) <==> Counts(db, i, x)
    ensures Replies(db', x) == Replies(db, x)
  {
  }

  lemma OneReplyLess(db: DB, db': DB, x: Id, id: Id)
    requires forall i :: Counts(db', i, x) <==> Counts(db, i, x) && i != id
    requires Counts(db, id, x)
    ensures |Replies(db', x)| == |Replies(db, x)| - 1
  {
    assert Replies(db', x) == Replies(db, x) - {id};
  }

  lemma InsertCount(w: World, m: NewMessage, id: Id, now: Time, w': World, x: Id)
    requires RefsInv(w) && OneNewRow(w.db, m, id, now, w'.db) && id !in w.db.rows && x in w'.db.rows
    ensures |Replies(w'.db, x)| ==
            (if x == id then 0 else |Replies(w.db, x)|) + if m.threadRoot == Some(x) && x != id then 1 else 0
    requires RefOk(w.db, m.threadRoot)
  {
    hide Replies, SameOrigin;
    forall i ensures Counts(w'.db, i, x) <==> Counts(w.db, i, x) || (i == id && m.threadRoot == Some(x)) {}
    if m.threadRoot == Some(x) {
      OneReplyLess(w'.db, w.db, x, id);
    } else {
      SameReplies(w.db, w'.db, x);
      if x == id { NoReplies(w.db, x); }
    }
  }

  lemma NoReplies(db: DB, x: Id)
    requires forall i :: !Counts(db, i, x)
    ensures |Replies(db, x)| == 0
  {
    assert Replies(db, x) == {};
  }

  lemma InsertKeepsCounts(w: World, m: NewMessage, id: Id, now: Time, w': World)
    requires RefsInv(w) && CountInv(w) && OneNewRow(w.db, m, id, now, w'.db)
    requires id !in w.db.rows && RefOk(w.db, m.threadRoot)
    ensures CountInv(w')
  {
    forall x | x in w'.db.rows ensures w'.db.rows[x].replyCount == |Replies(w'.db, x)| {
      InsertCount(w, m, id, now, w', x);
    }
  }

  lemma EditKeepsCounts(w: World, id: Id, body: string, users: set<UserId>, now: Time, w': World)
    requires CountInv(w) && Live(w.db, id) && w'.db == Edited(w.db, id, body, users, now)
    ensures CountInv(w')
  {
    hide Replies;
    forall x | x in w'.db.rows ensures w'.db.rows[x].replyCount == |Replies(w'.db, x)| {
      SameReplies(w.db, w'.db, x);
    }
  }

  lemma LiveReplyIsCounted(w: World, id: Id)
    requires RefsInv(w) && CountInv(w) && Live(w.db, id) && w.db.rows[id].threadRoot.Some?
    ensures w.db.rows[w.db.rows[id].threadRoot.value].replyCount >= 1
  {
    var root := w.db.rows[id].threadRoot.value;
    assert id in Replies(w.db, root);
    assert |Replies(w.db, root)| == |Replies(w.db, root) - {id}| + 1;
  }

  lemma DeleteCount(w: World, id: Id, now: Time, x: Id)
    requires RefsInv(w) && Live(w.db, id)
    ensures |Replies(Deleted(w.db, id, now), x)| ==
            |Replies(w.db, x)| - if w.db.rows[id].threadRoot == Some(x) then 1 else 0
  {
    hide Replies;
    var db' := Deleted(w.db, id, now);
    forall i ensures Counts(db', i, x) <==> Counts(w.db, i, x) && i != id {}
    if w.db.rows[id].threadRoot == Some(x) {
      OneReplyLess(w.db, db', x, id);
    } else {
      SameReplies(w.db, db', x);
    }
  }

  lemma DeleteKeepsCounts(w: World, id: Id, now: Time, w': World)
    requires RefsInv(w) && CountInv(w) && Live(w.db, id) && w'.db == Deleted(w.db, id, now)
    ensures CountInv(w')
  {
    hide Replies;
    if w.db.rows[id].threadRoot.Some? { LiveReplyIsCounted(w, id); }
    forall x | x in w'.db.rows ensures w'.db.rows[x].replyCount == |Replies(w'.db, x)| {
      DeleteCount(w, id, now, x);
    }
  }

  /** Replies are no older than their root, so a root that survives retention keeps all of them. */
  lemma PurgeKeepsCounts(w: World, cutoff: Time, w': World)
    requires RefsInv(w) && CountInv(w) && w'.db == Purged(w.db, cutoff)
    ensures CountInv(w')
  {
    hide Replies;
    forall x | x in w'.db.rows ensures w'.db.rows[x].replyCount == |Replies(w'.db, x)| {
      SameReplies(w.db, w'.db, x);
    }
  }

  // ---------- Runs ----------

  lemma InsertKeepsInv(w: World, m: NewMessage, id: Id, now: Time, w': World)
    requires Inv(w) && Step(w, Insert(m, id), now, w') && Fresh(w.db, m)
    ensures Inv(w')
  {
    assert id !in w.db.rows;
    InsertAddsOneRow(w.db, m, id, now);
    InsertKeepsKeys(w, m, id, now, w');
    InsertKeepsNumbers(w, m, id, now, w');
    InsertKeepsGapless(w, m, id, now, w');
    InsertKeepsRefs(w, m, id, now, w');
    InsertKeepsCounts(w, m, id, now, w');
  }

  lemma OthersKeepInv(w: World, op: Op, now: Time, w': World)
    requires Inv(w) && Step(w, op, now, w') && !op.Insert?
    ensures Inv(w')
  {
    hide KeysInv, NumbersInv, GaplessInv, RefsInv, CountInv, NoNewRows;
    OthersAddNoRow(w, op, now, w');
    OthersKeepKeys(w, w');
    OthersKeepNumbers(w, w');
    OthersKeepGapless(w, w');
    OthersKeepRefsAndCounts(w, op, now, w');
  }

  lemma MentionsHaveRows(w: World)
    requires KeysInv(w)
    ensures forall p :: p in w.db.mentions ==> p.0 in w.db.rows
  {
  }

  lemma OthersKeepRefsAndCounts(w: World, op: Op, now: Time, w': World)
    requires Inv(w) && Step(w, op, now, w') && !op.Insert?
    ensures RefsInv(w') && CountInv(w')
  {
    hide KeysInv, NumbersInv, GaplessInv, RefsInv, CountInv, NoNewRows, SameRefs, Purged, Edited, Deleted;
    MentionsHaveRows(w);
    match op
    case Purge(cutoff) =>
      PurgeKeepsRefs(w, cutoff, w');
      PurgeKeepsCounts(w, cutoff, w');
    case Edit(id, body, users) =>
      if Live(w.db, id) {
        EditAddsNoRow(w.db, id, body, users, now);
        EditKeepsCounts(w, id, body, users, now, w');
      } else {
        SameRowsAddNoRow(w.db, w'.db);
        SameRowsKeepCounts(w, w');
      }
      SameRowsKeepRefs(w, w');
    case Delete(id) =>
      if Live(w.db, id) {
        DeleteAddsNoRow(w.db, id, now);
        DeleteKeepsCounts(w, id, now, w');
      } else {
        SameRowsAddNoRow(w.db, w'.db);
        SameRowsKeepCounts(w, w');
      }
      SameRowsKeepRefs(w, w');
    case CreateContainer(c) =>
      SameRowsAddNoRow(w.db, w'.db);
      SameRowsKeepRefs(w, w');
      SameRowsKeepCounts(w, w');
  }

  lemma SameRowsKeepCounts(w: World, w': World)
    requires CountInv(w) && w'.db.rows == w.db.rows
    ensures CountInv(w')
  {
    forall x | x in w'.db.rows ensures w'.db.rows[x].replyCount == |Replies(w'.db, x)| {
      SameReplies(w.db, w'.db, x);
    }
  }

  ghost predicate CanStep(w: World, w': World) {
    exists op, now :: Step(w, op, now, w')
  }

  ghost predicate IsRun(ws: seq<World>) {
    && |ws| > 0 && Initial(ws[0])
    && forall k :: 0 <= k < |ws| - 1 ==> CanStep(ws[k], ws[k + 1])
  }

  lemma StepKeepsInv(w: World, w': World)
    requires Inv(w) && CanStep(w, w')
    ensures Inv(w')
  {
    hide KeysInv, NumbersInv, GaplessInv, RefsInv, CountInv;
    var op, now :| Step(w, op, now, w');
    if !op.Insert? {
      OthersKeepInv(w, op, now, w');
    } else if Fresh(w.db, op.m) {
      InsertKeepsInv(w, op.m, op.id, now, w');
    } else {
      SameDbKeepsInv(w, w');
    }
  }

  lemma SameDbKeepsInv(w: World, w': World)
    requires Inv(w) && w' == w.(clock := w'.clock) && w.clock <= w'.clock
    ensures Inv(w')
  {
  }

  lemma InitialInv(w: World)
    requires Initial(w)
    ensures Inv(w)
  {
  }

  lemma {:induction false} RunKeepsInv(ws: seq<World>, k: nat)
    requires IsRun(ws) && k < |ws|
    ensures Inv(ws[k])
  {
    hide Inv, CanStep, Initial;
    if k == 0 {
      InitialInv(ws[0]);
    } else {
      RunKeepsInv(ws, k - 1);
      assert CanStep(ws[k - 1], ws[k - 1 + 1]);
      StepKeepsInv(ws[k - 1], ws[k]);
    }
  }

  // ---------- The main results ----------

  /**
   In every run, each row counts exactly its live replies, no reply is a root, and no reference dangles,
   whatever retention has deleted.
   */
  lemma ThreadsAreConsistent(ws: seq<World>, k: nat)
    requires IsRun(ws) && k < |ws|
    ensures var db := ws[k].db;
            forall id :: id in db.rows ==>
              && db.rows[id].replyCount == |Replies(db, id)|
              && RefOk(db, db.rows[id].replyTo) && RefOk(db, db.rows[id].threadRoot)
              && (db.rows[id].threadRoot.Some? ==> db.rows[db.rows[id].threadRoot.value].threadRoot.None?)
  {
    RunKeepsInv(ws, k);
  }

  /** In every run a live reply is counted by its root, so taking one off never goes below zero. */
  lemma ClampNeverApplies(ws: seq<World>, k: nat, id: Id)
    requires IsRun(ws) && k < |ws| && Live(ws[k].db, id) && ws[k].db.rows[id].threadRoot.Some?
    ensures var db := ws[k].db; var root := db.rows[id].threadRoot.value;
            root in db.rows && db.rows[root].replyCount >= 1 &&
            Deleted(db, id, ws[k].clock).rows[root].replyCount == db.rows[root].replyCount - 1
  {
    hide IsRun;
    RunKeepsInv(ws, k);
    LiveReplyIsCounted(ws[k], id);
  }

  /** Without retention the numbers of a container's rows are exactly 1 up to the last, each once. */
  lemma SequenceIsGapless(ws: seq<World>, k: nat, c: ContainerId, n: nat)
    requires IsRun(ws) && k < |ws| && !ws[k].purged && c in ws[k].db.lastSeq
    ensures Numbered(ws[k].db, c, n) <==> 1 <= n <= ws[k].db.lastSeq[c]
    ensures forall a, b :: a in ws[k].db.rows && b in ws[k].db.rows && a != b ==>
              || ws[k].db.rows[a].container != ws[k].db.rows[b].container
              || ws[k].db.rows[a].seqNo != ws[k].db.rows[b].seqNo
  {
    RunKeepsInv(ws, k);
    assert (c, n) in ws[k].numbers <==> 1 <= n <= ws[k].db.lastSeq[c];
    if Numbered(ws[k].db, c, n) {
      var id :| id in ws[k].db.rows && ws[k].db.rows[id].container == c && ws[k].db.rows[id].seqNo == n;
    }
  }

  /** The row that a step adds has the next number of its container. */
  lemma NewRowIsNext(w: World, w': World, id: Id)
    requires Inv(w) && CanStep(w, w') && id in w'.db.rows && id !in w.db.rows
    ensures w'.db.rows[id].container in w.db.lastSeq
    ensures w'.db.rows[id].seqNo == w.db.lastSeq[w'.db.rows[id].container] + 1
  {
    hide NumbersInv, GaplessInv, RefsInv, CountInv;
    var op, now :| Step(w, op, now, w');
    if op.Insert? {
      if Fresh(w.db, op.m) { InsertAddsOneRow(w.db, op.m, op.id, now); }
    } else {
      OthersAddNoRow(w, op, now, w');
    }
  }

  lemma NumbersStep(w: World, w': World)
    requires CanStep(w, w')
    ensures w.numbers <= w'.numbers
  {
    var op, now :| Step(w, op, now, w');
  }

  lemma {:induction false} NumbersGrow(ws: seq<World>, i: nat, k: nat)
    requires IsRun(ws) && i <= k < |ws|
    ensures ws[i].numbers <= ws[k].numbers
    decreases k - i
  {
    hide CanStep;
    if i < k {
      NumbersGrow(ws, i, k - 1);
      assert CanStep(ws[k - 1], ws[k - 1 + 1]);
      NumbersStep(ws[k - 1], ws[k]);
    }
  }

  lemma NumberOfRow(w: World, id: Id, later: World)
    requires Inv(w) && Inv(later) && w.numbers <= later.numbers && id in w.db.rows
    ensures w.db.rows[id].container in later.db.lastSeq
    ensures w.db.rows[id].seqNo <= later.db.lastSeq[w.db.rows[id].container]
  {
    hide GaplessInv, RefsInv, CountInv, KeysInv;
    assert (w.db.rows[id].container, w.db.rows[id].seqNo) in later.numbers;
  }

  /** A row that an insert adds has a number that no row of the container has ever had, retention or not. */
  lemma NumbersAreNeverReused(ws: seq<World>, i: nat, k: nat, earlier: Id, later: Id)
    requires IsRun(ws) && i <= k < |ws| - 1 && earlier in ws[i].db.rows
    requires later in ws[k + 1].db.rows && later !in ws[k].db.rows
    requires ws[i].db.rows[earlier].container == ws[k + 1].db.rows[later].container
    ensures ws[i].db.rows[earlier].seqNo < ws[k + 1].db.rows[later].seqNo
  {
    hide Inv, CanStep;
    RunKeepsInv(ws, i);
    RunKeepsInv(ws, k);
    NumbersGrow(ws, i, k);
    NumberOfRow(ws[i], earlier, ws[k]);
    assert CanStep(ws[k], ws[k + 1]);
    NewRowIsNext(ws[k], ws[k + 1], later);
  }

  /** While the row exists it is still from the same sender and in the same place; its id is not given out again. */
  ghost predicate Remains(row: Row, id: Id, w: World) {
    && id in w.issued
    && (id in w.db.rows ==> SameOrigin(w.db.rows[id], row) && (row.threadRoot.None? ==> w.db.rows[id].threadRoot.None?))
  }

  lemma RemainsStep(row: Row, id: Id, w: World, w': World)
    requires Inv(w) && CanStep(w, w') && Remains(row, id, w)
    ensures Remains(row, id, w')
  {
    hide NumbersInv, GaplessInv, RefsInv, CountInv;
    var op, now :| Step(w, op, now, w');
    if op.Insert? {
      if Fresh(w.db, op.m) { InsertAddsOneRow(w.db, op.m, op.id, now); }
    } else {
      OthersAddNoRow(w, op, now, w');
    }
  }

  lemma RemainsNow(id: Id, w: World)
    requires Inv(w) && id in w.db.rows
    ensures Remains(w.db.rows[id], id, w)
  {
  }

  lemma {:induction false} RowRemains(ws: seq<World>, i: nat, k: nat, id: Id)
    requires IsRun(ws) && i <= k < |ws| && id in ws[i].db.rows
    ensures Remains(ws[i].db.rows[id], id, ws[k])
    decreases k - i
  {
    hide CanStep, Inv, Remains;
    if i < k {
      RowRemains(ws, i, k - 1, id);
      RunKeepsInv(ws, k - 1);
      assert CanStep(ws[k - 1], ws[k - 1 + 1]);
      RemainsStep(ws[i].db.rows[id], id, ws[k - 1], ws[k]);
    } else {
      RunKeepsInv(ws, i);
      RemainsNow(id, ws[i]);
    }
  }

  /**
   Callers check the thread root in an earlier statement than the insert. The answer cannot go stale: by the
   time of the insert the root is gone, which the insert rejects, or it is still a root of that container.
   */
  lemma RootCheckStaysGood(ws: seq<World>, i: nat, k: nat, container: ContainerId, root: Id)
    requires IsRun(ws) && i <= k < |ws|
    requires root in ws[i].db.rows && RootChecked(ws[i].db, container, Some(root))
    ensures RootChecked(ws[k].db, container, Some(root))
  {
    RowRemains(ws, i, k, root);
  }

  /** While a row exists, inserts under its client id add no row and use no number, however many there are. */
  lemma RetryChangesNothing(ws: seq<World>, i: nat, k: nat, id: Id, m: NewMessage, newId: Id, now: Time, w': World)
    requires IsRun(ws) && i <= k < |ws| && id in ws[i].db.rows && id in ws[k].db.rows
    requires SentBy(ws[i].db.rows[id], m.author, m.clientId) && Step(ws[k], Insert(m, newId), now, w')
    ensures w'.db == ws[k].db && w'.numbers == ws[k].numbers
  {
    hide IsRun, Inv;
    RetryFindsTheRow(ws, i, k, id, id);
  }

  /** Sending again under the same client id finds the row, whichever other rows have come since. */
  lemma RetryFindsTheRow(ws: seq<World>, i: nat, k: nat, id: Id, other: Id)
    requires IsRun(ws) && i <= k < |ws| && id in ws[i].db.rows && id in ws[k].db.rows && other in ws[k].db.rows
    ensures HasClient(ws[k].db, ws[i].db.rows[id].author, ws[i].db.rows[id].clientId)
    ensures (ws[k].db.rows[other].author == ws[i].db.rows[id].author &&
             ws[k].db.rows[other].clientId == ws[i].db.rows[id].clientId) <==> other == id
  {
    RowRemains(ws, i, k, id);
    RunKeepsInv(ws, k);
    assert SentBy(ws[k].db.rows[id], ws[i].db.rows[id].author, ws[i].db.rows[id].clientId);
  }
}
