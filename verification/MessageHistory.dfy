/**
 What the transactions on messages write (internal/store/messages.go): field by field for each of them, and over
 runs, where a row holds what was last written to it.
 */
module MessageHistory {
  import opened Wrappers
  import opened MessageStore

  // ---------- One transaction ----------

  /** An insert adds its row with the next number, counts it at the root and records who is mentioned; no more. */
  lemma InsertWrites(db: DB, m: NewMessage, id: Id, now: Time)
    requires m.container in db.lastSeq && RefOk(db, m.threadRoot) && id !in db.rows
    ensures var out, n := Inserted(db, m, id, now), db.lastSeq[m.container] + 1;
            && out.rows.Keys == db.rows.Keys + {id} && out.lastSeq == db.lastSeq[m.container := n]
            && out.rows[id] == Row(m.container, n, m.author, m.body, m.replyTo, m.threadRoot, m.clientId, m.isSystem,
                                   0, None, now, None, None)
            && (forall x :: x in db.rows ==>
                  out.rows[x] == if m.threadRoot == Some(x)
                                 then db.rows[x].(replyCount := db.rows[x].replyCount + 1, lastReplyAt := Some(now))
                                 else db.rows[x])
            && (forall x, u :: (x, u) in out.mentions <==> (x, u) in db.mentions || (x == id && u in m.mentions))
  {
  }

  /** An edit gives a live row its body and its time, and replaces who is mentioned in it; no more. */
  lemma EditWrites(db: DB, id: Id, body: string, users: set<UserId>, now: Time)
    requires Live(db, id)
    ensures var out := Edited(db, id, body, users, now);
            && out.rows.Keys == db.rows.Keys && out.lastSeq == db.lastSeq
            && out.rows[id] == db.rows[id].(body := body, editedAt := Some(now))
            && (forall x :: x in db.rows && x != id ==> out.rows[x] == db.rows[x])
            && (forall x, u :: (x, u) in out.mentions <==> if x == id then u in users else (x, u) in db.mentions)
  {
  }

  /** A delete empties a live row, gives it its time, and takes it off the count of its root; no more. */
  lemma DeleteWrites(db: DB, id: Id, now: Time)
    requires Live(db, id) && db.rows[id].threadRoot != Some(id)
    ensures var out := Deleted(db, id, now);
            && out.rows.Keys == db.rows.Keys && out.lastSeq == db.lastSeq && out.mentions == db.mentions
            && out.rows[id] == db.rows[id].(body := "", deletedAt := Some(now))
            && (forall x :: x in db.rows && x != id ==>
                  out.rows[x] == if db.rows[id].threadRoot == Some(x)
                                 then db.rows[x].(replyCount :=
                                        if db.rows[x].replyCount > 0 then db.rows[x].replyCount - 1 else 0)
                                 else db.rows[x])
  {
  }

  /** What a reference becomes when rows from before the cutoff go. */
  predicate LetsGo(db: DB, cutoff: Time, before: Option<Id>, after: Option<Id>) {
    if before.Some? && before.value in db.rows && db.rows[before.value].createdAt < cutoff
    then after == None else after == before
  }

  /** Retention takes the rows from before the cutoff, and the references to them; no more. */
  lemma PurgeWrites(db: DB, cutoff: Time)
    ensures var out := Purged(db, cutoff);
            && out.lastSeq == db.lastSeq
            && (forall x :: x in out.rows <==> x in db.rows && db.rows[x].createdAt >= cutoff)
            && (forall x :: x in out.rows ==>
                  && LetsGo(db, cutoff, db.rows[x].replyTo, out.rows[x].replyTo)
                  && LetsGo(db, cutoff, db.rows[x].threadRoot, out.rows[x].threadRoot)
                  && out.rows[x] == db.rows[x].(replyTo := out.rows[x].replyTo, threadRoot := out.rows[x].threadRoot))
            && (forall p :: p in out.mentions <==>
                  p in db.mentions && !(p.0 in db.rows && db.rows[p.0].createdAt < cutoff))
  {
  }

  // ---------- Runs ----------

  /** A run with the step that leads from each state to the next, and its time. */
  ghost predicate IsHistory(ws: seq<World>, ops: seq<Op>, nows: seq<Time>) {
    && |ws| == |ops| + 1 && |nows| == |ops| && Initial(ws[0])
    && forall k :: 0 <= k < |ops| ==> Step(ws[k], ops[k], nows[k], ws[k + 1])
  }

  predicate Writes(op: Op, id: Id) {
    (op.Insert? && op.id == id) || (op.Edit? && op.id == id)
  }

  predicate KeptOrLet(before: Option<Id>, after: Option<Id>) {
    after == before || after == None
  }

  /** The row was inserted at step i. */
  predicate BornAt(ops: seq<Op>, nows: seq<Time>, i: int, id: Id, row: Row) {
    && 0 <= i < |ops| && i < |nows| && ops[i].Insert? && ops[i].id == id
    && var m := ops[i].m;
       && row.container == m.container && row.author == m.author && row.clientId == m.clientId
       && row.isSystem == m.isSystem && row.createdAt == nows[i]
       && KeptOrLet(m.replyTo, row.replyTo) && KeptOrLet(m.threadRoot, row.threadRoot)
  }

  /** Step j was the last of the first n to write the row, and it holds what that step wrote. */
  ghost predicate LastWritten(ops: seq<Op>, nows: seq<Time>, n: nat, j: int, id: Id, row: Row,
                              mentions: set<(Id, UserId)>) {
    && 0 <= j < n <= |ops| && |nows| == |ops| && (forall t :: j < t < n ==> !Writes(ops[t], id))
    && match ops[j]
       case Insert(m, x) =>
         x == id && row.body == m.body && row.editedAt == None && forall u :: (id, u) in mentions <==> u in m.mentions
       case Edit(x, body, users) =>
         x == id && row.body == body && row.editedAt == Some(nows[j]) && forall u :: (id, u) in mentions <==> u in users
       case _ => false
  }

  ghost predicate DeletedAt(ops: seq<Op>, nows: seq<Time>, n: nat, d: int, id: Id, row: Row) {
    && 0 <= d < n <= |ops| && |nows| == |ops| && ops[d] == Delete(id)
    && row.deletedAt == Some(nows[d]) && row.body == ""
  }

  ghost predicate Born(ops: seq<Op>, nows: seq<Time>, n: nat, id: Id, row: Row) {
    exists i :: 0 <= i < n && BornAt(ops, nows, i, id, row)
  }

  /** A live row holds what was last written, a deleted one is empty. */
  ghost predicate Holds(ops: seq<Op>, nows: seq<Time>, n: nat, id: Id, row: Row, mentions: set<(Id, UserId)>) {
    if row.deletedAt.None? then exists j :: LastWritten(ops, nows, n, j, id, row, mentions)
    else exists d :: DeletedAt(ops, nows, n, d, id, row)
  }

  /** Nothing about the row that the history speaks of has changed. */
  ghost predicate Alike(row: Row, mentions: set<(Id, UserId)>, row': Row, mentions': set<(Id, UserId)>, id: Id) {
    && row' == row.(replyCount := row'.replyCount, lastReplyAt := row'.lastReplyAt, replyTo := row'.replyTo,
                    threadRoot := row'.threadRoot)
    && KeptOrLet(row.replyTo, row'.replyTo) && KeptOrLet(row.threadRoot, row'.threadRoot)
    && forall u :: (id, u) in mentions' <==> (id, u) in mentions
  }

  lemma AlikeHolds(ops: seq<Op>, nows: seq<Time>, n: nat, id: Id, row: Row, mentions: set<(Id, UserId)>, row': Row,
                   mentions': set<(Id, UserId)>)
    requires n < |ops| && Holds(ops, nows, n, id, row, mentions) && Alike(row, mentions, row', mentions', id)
    requires row.deletedAt.None? ==> !Writes(ops[n], id)
    ensures Holds(ops, nows, n + 1, id, row', mentions')
  {
    if row.deletedAt.None? {
      var j :| LastWritten(ops, nows, n, j, id, row, mentions);
      assert LastWritten(ops, nows, n + 1, j, id, row', mentions');
    } else {
      var d :| DeletedAt(ops, nows, n, d, id, row);
      assert DeletedAt(ops, nows, n + 1, d, id, row');
    }
  }

  lemma AlikeBorn(ops: seq<Op>, nows: seq<Time>, n: nat, id: Id, row: Row, mentions: set<(Id, UserId)>, row': Row,
                  mentions': set<(Id, UserId)>)
    requires Born(ops, nows, n, id, row) && Alike(row, mentions, row', mentions', id)
    ensures Born(ops, nows, n + 1, id, row')
  {
    var i :| 0 <= i < n && BornAt(ops, nows, i, id, row);
    assert BornAt(ops, nows, i, id, row');
  }

  /** Whatever a step does to a row that was there: it is alike, or the step edits or deletes it. */
  lemma StepOnRow(w: World, op: Op, now: Time, w': World, id: Id)
    requires Inv(w) && Step(w, op, now, w') && id in w.db.rows && id in w'.db.rows
    ensures var row, row' := w.db.rows[id], w'.db.rows[id];
            if op.Edit? && op.id == id && row.deletedAt.None? then
              && row' == row.(body := op.body, editedAt := Some(now))
              && forall u :: (id, u) in w'.db.mentions <==> u in op.users
            else if op.Delete? && op.id == id && row.deletedAt.None? then
              row' == row.(body := "", deletedAt := Some(now))
            else Alike(row, w.db.mentions, row', w'.db.mentions, id)
    ensures op.Insert? ==> op.id != id
  {
    hide NumbersInv, GaplessInv, CountInv, Inserted, Edited, Deleted, Purged, Fresh;
    IsIssued(w);
    match op
    case CreateContainer(c) =>
    case Insert(m, x) =>
      if Fresh(w.db, m) {
        InsertOnRow(w.db, m, x, now, id);
      }
    case Edit(x, body, users) =>
      if Live(w.db, x) {
        EditWrites(w.db, x, body, users, now);
      }
    case Delete(x) =>
      if Live(w.db, x) {
        NotItsOwnRoot(w, x);
        DeleteWrites(w.db, x, now);
      }
    case Purge(cutoff) =>
      PurgeOnRow(w, cutoff, id);
  }

  lemma InsertOnRow(db: DB, m: NewMessage, x: Id, now: Time, id: Id)
    requires Fresh(db, m) && x !in db.rows && id in db.rows
    ensures var out := Inserted(db, m, x, now);
            id in out.rows && Alike(db.rows[id], db.mentions, out.rows[id], out.mentions, id)
  {
    hide Inserted, HasClient;
    InsertWrites(db, m, x, now);
  }

  lemma PurgeOnRow(w: World, cutoff: Time, id: Id)
    requires id in w.db.rows && id in Purged(w.db, cutoff).rows
    ensures Alike(w.db.rows[id], w.db.mentions, Purged(w.db, cutoff).rows[id], Purged(w.db, cutoff).mentions, id)
  {
    hide Purged;
    PurgeWrites(w.db, cutoff);
    PurgeKeepsMentions(w, cutoff, id);
  }

  lemma IsIssued(w: World)
    requires Inv(w)
    ensures w.db.rows.Keys <= w.issued
  {
  }

  lemma NotItsOwnRoot(w: World, id: Id)
    requires Inv(w) && id in w.db.rows
    ensures w.db.rows[id].threadRoot != Some(id)
  {
    hide KeysInv, NumbersInv, GaplessInv, CountInv;
  }

  lemma PurgeKeepsMentions(w: World, cutoff: Time, id: Id)
    requires id in w.db.rows && w.db.rows[id].createdAt >= cutoff
    ensures forall u :: (id, u) in Purged(w.db, cutoff).mentions <==> (id, u) in w.db.mentions
  {
    hide Purged;
    PurgeWrites(w.db, cutoff);
    forall u ensures (id, u) in Purged(w.db, cutoff).mentions <==> (id, u) in w.db.mentions {
      assert (id, u).0 == id;
    }
  }

  /** A row that was not there is the one that the step inserts. */
  lemma StepOnNewRow(w: World, op: Op, now: Time, w': World, id: Id)
    requires Inv(w) && Step(w, op, now, w') && id !in w.db.rows && id in w'.db.rows
    ensures op.Insert? && op.id == id
    ensures var row', m := w'.db.rows[id], op.m;
            && row'.container == m.container && row'.author == m.author && row'.clientId == m.clientId
            && row'.isSystem == m.isSystem && row'.createdAt == now && row'.replyTo == m.replyTo
            && row'.threadRoot == m.threadRoot && row'.body == m.body && row'.editedAt == None && row'.deletedAt == None
            && forall u :: (id, u) in w'.db.mentions <==> u in m.mentions
  {
    hide NumbersInv, GaplessInv, CountInv, RefsInv, Inserted, Edited, Deleted, Purged;
    NoMentions(w, id);
    match op
    case CreateContainer(c) =>
    case Insert(m, x) =>
      if Fresh(w.db, m) {
        NotIssued(w, x);
        InsertWrites(w.db, m, x, now);
      }
    case Edit(x, body, users) =>
      if Live(w.db, x) {
        EditWrites(w.db, x, body, users, now);
      }
    case Delete(x) =>
      if Live(w.db, x) {
        KeysOfDeleted(w.db, x, now);
      }
    case Purge(cutoff) =>
      PurgeWrites(w.db, cutoff);
  }

  lemma NoMentions(w: World, id: Id)
    requires Inv(w) && id !in w.db.rows
    ensures forall u :: (id, u) !in w.db.mentions
  {
    hide NumbersInv, GaplessInv, CountInv, RefsInv;
    forall u ensures (id, u) !in w.db.mentions {
      assert (id, u).0 == id;
    }
  }

  lemma NotIssued(w: World, id: Id)
    requires Inv(w) && id !in w.issued
    ensures id !in w.db.rows
  {
    hide NumbersInv, GaplessInv, CountInv, RefsInv;
  }

  lemma KeysOfDeleted(db: DB, id: Id, now: Time)
    requires Live(db, id)
    ensures Deleted(db, id, now).rows.Keys == db.rows.Keys
  {
  }

  lemma HistoryKeepsInv(ws: seq<World>, ops: seq<Op>, nows: seq<Time>, k: nat)
    requires IsHistory(ws, ops, nows) && k < |ws|
    ensures Inv(ws[k])
  {
    hide Step, Inv, CanStep;
    forall k | 0 <= k < |ws| - 1 ensures CanStep(ws[k], ws[k + 1]) {
      StepCan(ws[k], ops[k], nows[k], ws[k + 1]);
    }
    RunKeepsInv(ws, k);
  }

  lemma StepCan(w: World, op: Op, now: Time, w': World)
    requires Step(w, op, now, w')
    ensures CanStep(w, w')
  {
  }

  lemma RowNext(ws: seq<World>, ops: seq<Op>, nows: seq<Time>, n: nat, id: Id)
    requires n < |ops| && |ws| == |ops| + 1 && |nows| == |ops|
    requires Inv(ws[n]) && Step(ws[n], ops[n], nows[n], ws[n + 1]) && id in ws[n + 1].db.rows
    requires id in ws[n].db.rows ==>
               && Born(ops, nows, n, id, ws[n].db.rows[id])
               && Holds(ops, nows, n, id, ws[n].db.rows[id], ws[n].db.mentions)
    ensures Born(ops, nows, n + 1, id, ws[n + 1].db.rows[id])
    ensures Holds(ops, nows, n + 1, id, ws[n + 1].db.rows[id], ws[n + 1].db.mentions)
  {
    hide Step, Inv, Alike;
    var w, w', op, now := ws[n], ws[n + 1], ops[n], nows[n];
    var row' := w'.db.rows[id];
    if id !in w.db.rows {
      StepOnNewRow(w, op, now, w', id);
      assert BornAt(ops, nows, n, id, row') && LastWritten(ops, nows, n + 1, n, id, row', w'.db.mentions);
    } else {
      var row := w.db.rows[id];
      StepOnRow(w, op, now, w', id);
      if op.Edit? && op.id == id && row.deletedAt.None? {
        var i :| 0 <= i < n && BornAt(ops, nows, i, id, row);
        assert BornAt(ops, nows, i, id, row') && LastWritten(ops, nows, n + 1, n, id, row', w'.db.mentions);
      } else if op.Delete? && op.id == id && row.deletedAt.None? {
        var i :| 0 <= i < n && BornAt(ops, nows, i, id, row);
        assert BornAt(ops, nows, i, id, row') && DeletedAt(ops, nows, n + 1, n, id, row');
      } else {
        AlikeHolds(ops, nows, n, id, row, w.db.mentions, row', w'.db.mentions);
        AlikeBorn(ops, nows, n, id, row, w.db.mentions, row', w'.db.mentions);
      }
    }
  }

  /**
   In every run a row is from the insert that brought it. While it lives, its body, the time of its edit and who is
   mentioned in it are those of the last edit, or of the insert if there was none; once deleted it is empty.
   */
  lemma {:induction false} RowsHoldWhatWasWritten(ws: seq<World>, ops: seq<Op>, nows: seq<Time>, n: nat, id: Id)
    requires IsHistory(ws, ops, nows) && n <= |ops| && id in ws[n].db.rows
    ensures Born(ops, nows, n, id, ws[n].db.rows[id])
    ensures Holds(ops, nows, n, id, ws[n].db.rows[id], ws[n].db.mentions)
    decreases n
  {
    hide Step, Inv, Initial, Born, Holds;
    if n == 0 {
      NoRowsAtFirst(ws[0], id);
    } else {
      if id in ws[n - 1].db.rows {
        RowsHoldWhatWasWritten(ws, ops, nows, n - 1, id);
      }
      HistoryKeepsInv(ws, ops, nows, n - 1);
      assert Step(ws[n - 1], ops[n - 1], nows[n - 1], ws[n - 1 + 1]);
      RowNext(ws, ops, nows, n - 1, id);
    }
  }

  lemma NoRowsAtFirst(w: World, id: Id)
    requires Initial(w)
    ensures id !in w.db.rows
  {
  }
}
