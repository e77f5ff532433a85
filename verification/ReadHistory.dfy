/**
 What read markers tell (internal/store/readstate.go): a marker is the highest number that was ever asked for, each
 taken no higher than the last number of its time. This holds for containers and for threads.
 */
module ReadHistory {
  import opened Wrappers
  import MessageStore
  import MessageHistory
  import opened ReadState

  // ---------- One step ----------

  /** A marker is set to n, but not below 0, not above the last number, and not below where it stood. */
  predicate IsLevel(n: int, last: nat, level: int) {
    if n < 0 then level == 0 else if n > last then level == last else level == n
  }

  /** The marker comes to be there, no lower than it was, and no higher than it was or was asked to be. */
  ghost predicate Lifts<K>(before: map<K, int>, key: K, n: int, last: nat, after: map<K, int>) {
    && after.Keys == before.Keys + {key}
    && (forall other :: other in before && other != key ==> after[other] == before[other])
    && exists level :: IsLevel(n, last, level) &&
                       if key in before && before[key] > level then after[key] == before[key] else after[key] == level
  }

  /** Marking a container lifts its marker, and does nothing else. */
  lemma MarkWrites(s: State, u: UserId, c: ContainerId, n: int)
    requires c in s.world.db.lastSeq
    ensures Marked(s, u, c, n) == s.(markers := Marked(s, u, c, n).markers)
    ensures Lifts(s.markers, (u, c), n, s.world.db.lastSeq[c], Marked(s, u, c, n).markers)
  {
    assert IsLevel(n, s.world.db.lastSeq[c], Clamped(n, s.world.db.lastSeq[c]));
  }

  /** Marking a thread lifts its marker by the numbers of the container of its root, and does nothing else. */
  lemma ThreadMarkWrites(s: State, u: UserId, root: Id, n: int)
    requires HasThread(s.world, root)
    ensures ThreadMarked(s, u, root, n) == s.(threadMarkers := ThreadMarked(s, u, root, n).threadMarkers)
    ensures Lifts(s.threadMarkers, (u, root), n, s.world.db.lastSeq[s.world.db.rows[root].container],
                  ThreadMarked(s, u, root, n).threadMarkers)
  {
    var last := s.world.db.lastSeq[s.world.db.rows[root].container];
    assert IsLevel(n, last, Clamped(n, last));
  }

  /** What comes with a new container: it is open, a channel has no participants, and a conversation its members. */
  lemma CreateWrites(s: State, op: Op, now: MessageStore.Time, s': State, c: ContainerId)
    requires Inv(s) && Step(s, op, now, s') && (op.CreateChannel? || op.CreateConversation?) && c == op.c
    ensures c !in s.containers
    ensures s'.containers == s.containers[c := Container(if op.CreateChannel? then Channel else Conversation, false)]
    ensures forall d, u :: (d, u) in s'.participants <==>
              (d, u) in s.participants || (d == c && op.CreateConversation? && u in op.members)
    ensures forall u :: (c, u) !in s.participants
    ensures s'.markers == s.markers && s'.threadMarkers == s.threadMarkers
  {
    hide MessageStore.Inv, MarkerInv;
    forall u ensures (c, u) !in s.participants {
      assert (c, u).0 == c;
    }
  }

  // ---------- Runs ----------

  /** A run with the step that leads from each state to the next, and its time. */
  ghost predicate IsHistory(ss: seq<State>, ops: seq<Op>, nows: seq<MessageStore.Time>) {
    && |ss| == |ops| + 1 && |nows| == |ops| && Initial(ss[0])
    && forall k :: 0 <= k < |ops| ==> Step(ss[k], ops[k], nows[k], ss[k + 1])
  }

  /** Where a user can have a marker. */
  datatype Place = Timeline(c: ContainerId) | Thread(root: Id)

  /** The step asks for the marker at this level. */
  predicate Asks(s: State, op: Op, u: UserId, place: Place, level: int) {
    match place
    case Timeline(c) =>
      op.Mark? && op.u == u && op.c == c && c in s.world.db.lastSeq && IsLevel(op.n, s.world.db.lastSeq[c], level)
    case Thread(root) =>
      && op.MarkThread? && op.u == u && op.root == root
      && root in s.world.db.rows && s.world.db.rows[root].container in s.world.db.lastSeq
      && IsLevel(op.n, s.world.db.lastSeq[s.world.db.rows[root].container], level)
  }

  /** The level is the highest that one of the first n steps asked for. */
  ghost predicate IsHighest(ss: seq<State>, ops: seq<Op>, n: nat, u: UserId, place: Place, level: int)
    requires n <= |ops| && |ss| == |ops| + 1
  {
    && (exists j :: 0 <= j < n && Asks(ss[j], ops[j], u, place, level))
    && (forall j, other :: 0 <= j < n && Asks(ss[j], ops[j], u, place, other) ==> other <= level)
  }

  ghost predicate NeverAsked(ss: seq<State>, ops: seq<Op>, n: nat, u: UserId, place: Place)
    requires n <= |ops| && |ss| == |ops| + 1
  {
    forall j, level :: 0 <= j < n ==> !Asks(ss[j], ops[j], u, place, level)
  }

  /** A step that does not ask leaves the marker of a container. */
  lemma StepOnMarker(s: State, op: Op, now: MessageStore.Time, s': State, u: UserId, c: ContainerId)
    requires Step(s, op, now, s')
    ensures var key := (u, c);
            if op.Mark? && op.u == u && op.c == c && c in s.world.db.lastSeq
            then Lifts(s.markers, key, op.n, s.world.db.lastSeq[c], s'.markers)
            else (key in s'.markers <==> key in s.markers) && (key in s.markers ==> s'.markers[key] == s.markers[key])
  {
    hide MessageStore.Step, Marked, ThreadMarked, Lifts, Cascaded;
    if op.Mark? && op.c in s.world.db.lastSeq {
      MarkWrites(s, op.u, op.c, op.n);
      OthersStay(s.markers, (op.u, op.c), op.n, s.world.db.lastSeq[op.c], s'.markers, (u, c));
    }
    if op.MarkThread? && HasThread(s.world, op.root) {
      ThreadMarkWrites(s, op.u, op.root, op.n);
    }
  }

  lemma OthersStay<K>(before: map<K, int>, key: K, n: int, last: nat, after: map<K, int>, other: K)
    requires Lifts(before, key, n, last, after)
    ensures other != key ==>
              (other in after <==> other in before) && (other in before ==> after[other] == before[other])
  {
  }

  lemma NotAskedNext(ss: seq<State>, ops: seq<Op>, n: nat, u: UserId, place: Place)
    requires n < |ops| && |ss| == |ops| + 1 && forall level :: !Asks(ss[n], ops[n], u, place, level)
    ensures NeverAsked(ss, ops, n, u, place) ==> NeverAsked(ss, ops, n + 1, u, place)
    ensures forall level :: IsHighest(ss, ops, n, u, place, level) ==> IsHighest(ss, ops, n + 1, u, place, level)
  {
    hide Asks;
    forall level | IsHighest(ss, ops, n, u, place, level) ensures IsHighest(ss, ops, n + 1, u, place, level) {
      var j :| 0 <= j < n && Asks(ss[j], ops[j], u, place, level);
    }
  }

  lemma AskedNext(ss: seq<State>, ops: seq<Op>, n: nat, u: UserId, place: Place, level: int, to: int)
    requires n < |ops| && |ss| == |ops| + 1 && Asks(ss[n], ops[n], u, place, level)
    requires if to > level then IsHighest(ss, ops, n, u, place, to)
             else
               && to == level
               && (NeverAsked(ss, ops, n, u, place) || exists at :: at <= level && IsHighest(ss, ops, n, u, place, at))
    ensures IsHighest(ss, ops, n + 1, u, place, to)
  {
    forall j, other | 0 <= j < n + 1 && Asks(ss[j], ops[j], u, place, other) ensures other <= to {
      if j == n {
        assert other == level;
      }
    }
  }

  /**
   In every run a user has a marker in a container exactly when the user has set it there, and it stands at the
   highest number that was asked for, none of them taken for more than the last number of its time.
   */
  lemma {:induction false} MarkerIsHighestAsked(ss: seq<State>, ops: seq<Op>, nows: seq<MessageStore.Time>, n: nat,
                                                u: UserId, c: ContainerId)
    requires IsHistory(ss, ops, nows) && n <= |ops|
    ensures if (u, c) in ss[n].markers then IsHighest(ss, ops, n, u, Timeline(c), ss[n].markers[(u, c)])
            else NeverAsked(ss, ops, n, u, Timeline(c))
    decreases n
  {
    hide Step, NeverAsked, IsHighest, Lifts, IsLevel;
    if n == 0 {
      NoneAtFirst(ss, ops, u, c);
    } else {
      var k := n - 1;
      MarkerIsHighestAsked(ss, ops, nows, k, u, c);
      assert Step(ss[k], ops[k], nows[k], ss[k + 1]);
      StepOnMarker(ss[k], ops[k], nows[k], ss[n], u, c);
      if ops[k].Mark? && ops[k].u == u && ops[k].c == c && c in ss[k].world.db.lastSeq {
        var level := LiftsTo(ss[k].markers, (u, c), ops[k].n, ss[k].world.db.lastSeq[c], ss[n].markers);
        AskedNext(ss, ops, k, u, Timeline(c), level, ss[n].markers[(u, c)]);
      } else {
        NotAskedNext(ss, ops, k, u, Timeline(c));
      }
    }
  }

  lemma NoneAtFirst(ss: seq<State>, ops: seq<Op>, u: UserId, c: ContainerId)
    requires |ss| == |ops| + 1 && Initial(ss[0])
    ensures (u, c) !in ss[0].markers && NeverAsked(ss, ops, 0, u, Timeline(c))
  {
  }

  lemma LiftsTo<K>(before: map<K, int>, key: K, n: int, last: nat, after: map<K, int>) returns (level: int)
    requires Lifts(before, key, n, last, after)
    ensures IsLevel(n, last, level) && key in after
    ensures if key in before && before[key] > level then after[key] == before[key] else after[key] == level
  {
    level :| IsLevel(n, last, level) &&
      if key in before && before[key] > level then after[key] == before[key] else after[key] == level;
  }

  // ---------- Threads ----------

  /** A step that does not ask leaves the marker of a thread, as long as its root is there. */
  lemma StepOnThread(s: State, op: Op, now: MessageStore.Time, s': State, u: UserId, root: Id)
    requires MessageStore.Inv(s.world) && Step(s, op, now, s') && root in s.world.db.rows && root in s'.world.db.rows
    ensures var key := (u, root);
            if op.MarkThread? && op.u == u && op.root == root
            then HasThread(s.world, root) &&
                 Lifts(s.threadMarkers, key, op.n, s.world.db.lastSeq[s.world.db.rows[root].container],
                       s'.threadMarkers)
            else
              && (key in s'.threadMarkers <==> key in s.threadMarkers)
              && (key in s.threadMarkers ==> s'.threadMarkers[key] == s.threadMarkers[key])
  {
    hide MessageStore.Step, MessageStore.KeysInv, MessageStore.GaplessInv, MessageStore.RefsInv,
         MessageStore.CountInv, MessageStore.NumbersInv, Marked, ThreadMarked, Lifts;
    RowsHaveContainers(s.world);
    if op.Mark? && op.c in s.world.db.lastSeq {
      MarkWrites(s, op.u, op.c, op.n);
    }
    if op.MarkThread? && HasThread(s.world, op.root) {
      ThreadMarkWrites(s, op.u, op.root, op.n);
      OthersStay(s.threadMarkers, (op.u, op.root), op.n,
                 s.world.db.lastSeq[s.world.db.rows[op.root].container], s'.threadMarkers, (u, root));
    }
  }

  lemma HistoryKeepsInv(ss: seq<State>, ops: seq<Op>, nows: seq<MessageStore.Time>, k: nat)
    requires IsHistory(ss, ops, nows) && k < |ss|
    ensures Inv(ss[k])
  {
    hide Step, Inv, CanStep;
    forall k | 0 <= k < |ss| - 1 ensures CanStep(ss[k], ss[k + 1]) {
      StepCan(ss[k], ops[k], nows[k], ss[k + 1]);
    }
    RunKeepsInv(ss, k);
  }

  lemma StepCan(s: State, op: Op, now: MessageStore.Time, s': State)
    requires Step(s, op, now, s')
    ensures CanStep(s, s')
  {
  }

  /** Row ids are used up, and a row that was not there comes by an insert under an id that was not. */
  lemma StepOnIds(s: State, op: Op, now: MessageStore.Time, s': State, root: Id)
    requires Inv(s) && Step(s, op, now, s')
    ensures s.world.db.rows.Keys <= s.world.issued <= s'.world.issued
    ensures root !in s.world.db.rows && root in s'.world.db.rows ==> op.Message? && root !in s.world.issued
    ensures root !in s.world.db.rows ==> forall u: UserId :: (u, root) !in s.threadMarkers
  {
    hide MessageStore.NumbersInv, MessageStore.GaplessInv, MessageStore.RefsInv, MessageStore.CountInv,
         MessageStore.Step, Raised, Clamped, ShapeInv, Cascaded;
    IssuedRows(s.world);
    match op {
      case CreateChannel(c) => WorldIds(s.world, MessageStore.CreateContainer(c), now, s'.world, root);
      case CreateConversation(c, _) => WorldIds(s.world, MessageStore.CreateContainer(c), now, s'.world, root);
      case Message(mop) => WorldIds(s.world, mop, now, s'.world, root);
      case _ =>
    }
    forall u: UserId | root !in s.world.db.rows ensures (u, root) !in s.threadMarkers {
      assert (u, root).1 == root;
    }
  }

  lemma WorldIds(w: MessageStore.World, op: MessageStore.Op, now: MessageStore.Time, w': MessageStore.World, root: Id)
    requires MessageStore.Inv(w) && MessageStore.Step(w, op, now, w')
    ensures w.issued <= w'.issued
    ensures root !in w.db.rows && root in w'.db.rows ==> op.Insert? && op.id == root && root !in w.issued
  {
    hide MessageStore.Inv, MessageStore.Inserted, MessageStore.Edited, MessageStore.Deleted, MessageStore.Purged,
         MessageStore.Fresh;
    if root !in w.db.rows && root in w'.db.rows {
      MessageHistory.StepOnNewRow(w, op, now, w', root);
    }
  }

  /** An id that is not used up was never that of a row. */
  lemma {:induction false} NeverThere(ss: seq<State>, ops: seq<Op>, nows: seq<MessageStore.Time>, n: nat, j: nat,
                                      root: Id)
    requires IsHistory(ss, ops, nows) && j <= n <= |ops| && root !in ss[n].world.issued
    ensures root !in ss[j].world.db.rows
    decreases n - j
  {
    hide Step, Inv, Initial;
    HistoryKeepsInv(ss, ops, nows, j);
    if j == n {
      RowsAreIssued(ss[j]);
    } else {
      NeverThere(ss, ops, nows, n, j + 1, root);
      assert Step(ss[j], ops[j], nows[j], ss[j + 1]);
      StepOnIds(ss[j], ops[j], nows[j], ss[j + 1], root);
      NotYetIssued(ss, ops, nows, n, j + 1, root);
    }
  }

  lemma RowsAreIssued(s: State)
    requires Inv(s)
    ensures s.world.db.rows.Keys <= s.world.issued
  {
    hide MessageStore.NumbersInv, MessageStore.GaplessInv, MessageStore.RefsInv, MessageStore.CountInv;
    IssuedRows(s.world);
  }

  lemma {:induction false} NotYetIssued(ss: seq<State>, ops: seq<Op>, nows: seq<MessageStore.Time>, n: nat, j: nat,
                                        root: Id)
    requires IsHistory(ss, ops, nows) && j <= n <= |ops| && root !in ss[n].world.issued
    ensures root !in ss[j].world.issued
    decreases n - j
  {
    hide Step, Inv, Initial;
    if j < n {
      NotYetIssued(ss, ops, nows, n, j + 1, root);
      HistoryKeepsInv(ss, ops, nows, j);
      assert Step(ss[j], ops[j], nows[j], ss[j + 1]);
      StepOnIds(ss[j], ops[j], nows[j], ss[j + 1], root);
    }
  }

  lemma NeverThereNeverAsked(ss: seq<State>, ops: seq<Op>, n: nat, u: UserId, root: Id)
    requires n <= |ops| && |ss| == |ops| + 1
    requires forall j :: 0 <= j < n ==> root !in ss[j].world.db.rows
    ensures NeverAsked(ss, ops, n, u, Thread(root))
  {
  }

  /** The same of the threads whose root is still there. */
  lemma {:induction false} ThreadMarkerIsHighestAsked(ss: seq<State>, ops: seq<Op>, nows: seq<MessageStore.Time>,
                                                      n: nat, u: UserId, root: Id)
    requires IsHistory(ss, ops, nows) && n <= |ops| && root in ss[n].world.db.rows
    ensures if (u, root) in ss[n].threadMarkers
            then IsHighest(ss, ops, n, u, Thread(root), ss[n].threadMarkers[(u, root)])
            else NeverAsked(ss, ops, n, u, Thread(root))
    decreases n
  {
    hide Step, Inv, Initial, NeverAsked, IsHighest, Lifts, IsLevel;
    if n == 0 {
      NoRowsAtFirst(ss[0], root);
    } else {
      var k := n - 1;
      HistoryKeepsInv(ss, ops, nows, k);
      assert Step(ss[k], ops[k], nows[k], ss[k + 1]);
      if root in ss[k].world.db.rows {
        ThreadMarkerIsHighestAsked(ss, ops, nows, k, u, root);
        ThreadMarkerNext(ss, ops, nows, k, u, root);
      } else {
        FirstOfThread(ss, ops, nows, k, u, root);
      }
    }
  }

  lemma NoRowsAtFirst(s: State, root: Id)
    requires Initial(s)
    ensures root !in s.world.db.rows
  {
  }

  lemma ThreadMarkerNext(ss: seq<State>, ops: seq<Op>, nows: seq<MessageStore.Time>, k: nat, u: UserId, root: Id)
    requires k < |ops| && |ss| == |ops| + 1 && |nows| == |ops| && Step(ss[k], ops[k], nows[k], ss[k + 1])
    requires Inv(ss[k]) && root in ss[k].world.db.rows && root in ss[k + 1].world.db.rows
    requires if (u, root) in ss[k].threadMarkers
             then IsHighest(ss, ops, k, u, Thread(root), ss[k].threadMarkers[(u, root)])
             else NeverAsked(ss, ops, k, u, Thread(root))
    ensures if (u, root) in ss[k + 1].threadMarkers
            then IsHighest(ss, ops, k + 1, u, Thread(root), ss[k + 1].threadMarkers[(u, root)])
            else NeverAsked(ss, ops, k + 1, u, Thread(root))
  {
    hide Step, MessageStore.Inv, MarkerInv, ShapeInv, NeverAsked, IsHighest, Lifts, IsLevel;
    var s := ss[k];
    StepOnThread(s, ops[k], nows[k], ss[k + 1], u, root);
    if ops[k].MarkThread? && ops[k].u == u && ops[k].root == root {
      var last := s.world.db.lastSeq[s.world.db.rows[root].container];
      var level := LiftsTo(s.threadMarkers, (u, root), ops[k].n, last, ss[k + 1].threadMarkers);
      AskedNext(ss, ops, k, u, Thread(root), level, ss[k + 1].threadMarkers[(u, root)]);
    } else {
      NotAskedNext(ss, ops, k, u, Thread(root));
    }
  }

  lemma FirstOfThread(ss: seq<State>, ops: seq<Op>, nows: seq<MessageStore.Time>, k: nat, u: UserId, root: Id)
    requires IsHistory(ss, ops, nows) && k < |ops| && Inv(ss[k]) && Step(ss[k], ops[k], nows[k], ss[k + 1])
    requires root !in ss[k].world.db.rows && root in ss[k + 1].world.db.rows
    ensures (u, root) !in ss[k + 1].threadMarkers && NeverAsked(ss, ops, k + 1, u, Thread(root))
  {
    hide Inv, Initial, NeverAsked, IsLevel, Marked, ThreadMarked, MessageStore.Step;
    StepOnIds(ss[k], ops[k], nows[k], ss[k + 1], root);
    forall j | 0 <= j < k + 1 ensures root !in ss[j].world.db.rows {
      NeverThere(ss, ops, nows, k, j, root);
    }
    NeverThereNeverAsked(ss, ops, k + 1, u, root);
  }
}
