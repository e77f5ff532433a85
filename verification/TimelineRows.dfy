/**
 The pages of a timeline, said of the rows themselves (internal/store/messages.go): which rows a page holds, by how
 many others stand between them and the number the page is asked for. With the order, this is all of a page.
 */
module TimelineRows {
  import opened Arithmetic
  import opened Wrappers
  import opened MessageStore
  import opened Timeline

  /** The rows of a container outside its threads that are numbered from lo to hi. */
  function Rows(db: DB, c: ContainerId, lo: int, hi: int): set<Id> {
    set id | id in db.rows && db.rows[id].container == c && db.rows[id].threadRoot == None &&
             lo <= db.rows[id].seqNo <= hi
  }

  /** The message is a row of the container outside its threads. */
  predicate IsRow(db: DB, c: ContainerId, m: Message) {
    m.id in db.rows && m.row == db.rows[m.id] && m.row.container == c && m.row.threadRoot == None
  }

  /** The rows of a container outside its threads that are numbered above n. */
  function RowsAbove(db: DB, c: ContainerId, n: int): set<Id> {
    set id | id in db.rows && db.rows[id].container == c && db.rows[id].threadRoot == None && db.rows[id].seqNo > n
  }

  ghost predicate IsClimbing(page: seq<Message>) {
    forall i, j :: 0 <= i < j < |page| ==> page[i].row.seqNo < page[j].row.seqNo
  }

  /** The size of a page: what was asked for, or 50 if that is not positive. */
  predicate IsSize(limit: int, size: nat) {
    size == if limit > 0 then limit else 50
  }

  // ---------- Places in the order ----------

  lemma PlaceIs(s: set<Message>, m: Message) returns (k: nat)
    requires Timeline.Distinct(s) && m in s
    ensures k < |s| && Ascending(s)[k] == m
    ensures k == |NumberedUpTo(s, Num(m) - 1)| && k + 1 == |NumberedUpTo(s, Num(m))|
  {
    hide Ascending, Timeline.Distinct, NumberedUpTo, Num;
    k := PlaceOf(s, m);
    UpToComeFirst(s, Num(m) - 1);
    UpToComeFirst(s, Num(m));
    UpToIsPart(s, Num(m) - 1);
    UpToIsPart(s, Num(m));
    if k > 0 {
      AscendingInOrder(s, k - 1, k);
    }
    if k + 1 < |s| {
      AscendingInOrder(s, k, k + 1);
    }
  }

  lemma UpToIsPart(s: set<Message>, n: int)
    ensures |NumberedUpTo(s, n)| <= |s|
  {
    SubsetSize(NumberedUpTo(s, n), s);
  }

  lemma UniquePlace(s: set<Message>, i: nat, j: nat)
    requires Timeline.Distinct(s) && i < |s| && j < |s| && Ascending(s)[i] == Ascending(s)[j]
    ensures i == j
  {
    hide Ascending, Timeline.Distinct;
    if i < j {
      AscendingInOrder(s, i, j);
    } else if j < i {
      AscendingInOrder(s, j, i);
    }
  }

  /** The first n hold what fewer than n others come before. */
  lemma InFirst(s: set<Message>, n: nat, m: Message)
    requires Timeline.Distinct(s)
    ensures m in First(Ascending(s), n) <==> m in s && |NumberedUpTo(s, Num(m) - 1)| < n
  {
    hide Ascending, Timeline.Distinct, NumberedUpTo, Num;
    var page := First(Ascending(s), n);
    if m in s {
      var k := PlaceIs(s, m);
      if k < n {
        assert page[k] == m;
      }
    }
    if m in page {
      var i :| 0 <= i < |page| && page[i] == m;
      AscendingHolds(s, i);
      var k := PlaceIs(s, m);
      UniquePlace(s, i, k);
    }
  }

  /** The last n hold what fewer than n others come after. */
  lemma InLast(s: set<Message>, n: nat, m: Message)
    requires Timeline.Distinct(s)
    ensures m in Last(Ascending(s), n) <==> m in s && |s| - |NumberedUpTo(s, Num(m))| < n
  {
    hide Ascending, Timeline.Distinct, NumberedUpTo, Num;
    var page := Last(Ascending(s), n);
    var skip := |s| - Min(n, |s|);
    if m in s {
      var k := PlaceIs(s, m);
      if k >= skip {
        assert page[k - skip] == m;
      }
    }
    if m in page {
      var i :| 0 <= i < |page| && page[i] == m;
      AscendingHolds(s, skip + i);
      var k := PlaceIs(s, m);
      UniquePlace(s, skip + i, k);
    }
  }

  // ---------- Messages and rows ----------

  function Messages(db: DB, ids: set<Id>): set<Message>
    requires ids <= db.rows.Keys
  {
    set id | id in ids :: Message(id, db.rows[id])
  }

  lemma {:induction false} AsManyMessages(db: DB, ids: set<Id>)
    requires ids <= db.rows.Keys
    ensures |Messages(db, ids)| == |ids|
  {
    if ids == {} {
      assert Messages(db, ids) == {};
    } else {
      var id :| id in ids;
      AsManyMessages(db, ids - {id});
      assert Messages(db, ids) == Messages(db, ids - {id}) + {Message(id, db.rows[id])};
    }
  }

  lemma OnTimeline(db: DB, c: ContainerId, m: Message)
    ensures m in TimelineOf(db, c) <==> IsRow(db, c, m)
  {
  }

  /** A part of the timeline has as many messages as there are rows with its numbers. */
  lemma PartIsRows(db: DB, c: ContainerId, part: set<Message>, ids: set<Id>)
    requires ids <= db.rows.Keys
    requires forall m :: m in part <==> IsRow(db, c, m) && m.id in ids
    requires forall id :: id in ids ==> db.rows[id].container == c && db.rows[id].threadRoot == None
    ensures |part| == |ids|
  {
    AsManyMessages(db, ids);
    forall m | m in Messages(db, ids) ensures m in part {
      assert IsRow(db, c, m);
    }
    assert part == Messages(db, ids);
  }

  // ---------- The pages ----------

  /**
   The page after a number holds the rows above it with fewer than a page of others in between, from the lowest
   number up.
   */
  lemma AfterHolds(db: DB, c: ContainerId, after: int, limit: int, size: nat, m: Message)
    requires Timeline.Distinct(TimelineOf(db, c)) && IsSize(limit, size)
    ensures m in TimelineAfter(db, c, after, limit) <==>
            && IsRow(db, c, m) && m.row.seqNo > after
            && |Rows(db, c, after + 1, m.row.seqNo - 1)| < size
    ensures IsClimbing(TimelineAfter(db, c, after, limit))
  {
    hide Ascending, Timeline.Distinct, TimelineOf, First;
    var rest := From(TimelineOf(db, c), after + 1);
    DistinctPart(TimelineOf(db, c), after + 1);
    forall x ensures x in TimelineOf(db, c) <==> IsRow(db, c, x) {
      OnTimeline(db, c, x);
    }
    InFirst(rest, size, m);
    PartIsRows(db, c, NumberedUpTo(rest, Num(m) - 1), Rows(db, c, after + 1, m.row.seqNo - 1));
    Climbs(First(Ascending(rest), size), rest, size);
  }

  lemma Climbs(page: seq<Message>, s: set<Message>, n: nat)
    requires Timeline.Distinct(s) && (page == First(Ascending(s), n) || page == Last(Ascending(s), n))
    ensures IsClimbing(page)
  {
    hide Ascending, Timeline.Distinct;
    FirstIs(s, n);
    LastIs(s, n);
  }

  /** The page before a number holds the rows below it with fewer than a page of others in between. */
  lemma BeforeHolds(db: DB, c: ContainerId, before: int, limit: int, size: nat, m: Message)
    requires Timeline.Distinct(TimelineOf(db, c)) && IsSize(limit, size)
    ensures m in TimelineBefore(db, c, before, limit) <==>
            && IsRow(db, c, m) && m.row.seqNo < before
            && |Rows(db, c, m.row.seqNo + 1, before - 1)| < size
    ensures IsClimbing(TimelineBefore(db, c, before, limit))
  {
    hide Ascending, Timeline.Distinct, TimelineOf, Last;
    var rest := Below(TimelineOf(db, c), before);
    DistinctPart(TimelineOf(db, c), before);
    forall x ensures x in TimelineOf(db, c) <==> IsRow(db, c, x) {
      OnTimeline(db, c, x);
    }
    InLast(rest, size, m);
    var upTo := NumberedUpTo(rest, Num(m));
    Remainder(rest, upTo);
    PartIsRows(db, c, rest - upTo, Rows(db, c, m.row.seqNo + 1, before - 1));
    Climbs(Last(Ascending(rest), size), rest, size);
  }

  lemma Remainder(s: set<Message>, part: set<Message>)
    requires part <= s
    ensures |s - part| == |s| - |part|
  {
    assert s == part + (s - part);
  }

  /** The latest page holds the rows with fewer than a page of others above them. */
  lemma LatestHolds(db: DB, c: ContainerId, limit: int, size: nat, m: Message)
    requires Timeline.Distinct(TimelineOf(db, c)) && IsSize(limit, size)
    ensures m in TimelineLatest(db, c, limit) <==> IsRow(db, c, m) && |RowsAbove(db, c, m.row.seqNo)| < size
    ensures IsClimbing(TimelineLatest(db, c, limit))
  {
    hide Ascending, Timeline.Distinct, TimelineOf, Last;
    var all := TimelineOf(db, c);
    forall x ensures x in all <==> IsRow(db, c, x) {
      OnTimeline(db, c, x);
    }
    InLast(all, size, m);
    var upTo := NumberedUpTo(all, Num(m));
    Remainder(all, upTo);
    PartIsRows(db, c, all - upTo, RowsAbove(db, c, m.row.seqNo));
    Climbs(Last(Ascending(all), size), all, size);
  }

  /**
   The page around a number holds half a page of the nearest rows below it, rounded down, and of those from it on as
   many as are left.
   */
  lemma AroundHolds(db: DB, c: ContainerId, n: int, limit: int, size: nat, m: Message)
    requires Timeline.Distinct(TimelineOf(db, c)) && IsSize(limit, size)
    ensures m in TimelineAround(db, c, n, limit) <==>
            && IsRow(db, c, m)
            && if m.row.seqNo < n then |Rows(db, c, m.row.seqNo + 1, n - 1)| < size / 2
               else |Rows(db, c, n, m.row.seqNo - 1)| < size - size / 2
    ensures IsClimbing(TimelineAround(db, c, n, limit))
  {
    hide Ascending, Timeline.Distinct, TimelineOf, Last, First;
    var low, high := Below(TimelineOf(db, c), n), From(TimelineOf(db, c), n);
    DistinctPart(TimelineOf(db, c), n);
    forall x ensures x in TimelineOf(db, c) <==> IsRow(db, c, x) {
      OnTimeline(db, c, x);
    }
    InLast(low, size / 2, m);
    var upTo := NumberedUpTo(low, Num(m));
    Remainder(low, upTo);
    PartIsRows(db, c, low - upTo, Rows(db, c, m.row.seqNo + 1, n - 1));
    InFirst(high, size - size / 2, m);
    PartIsRows(db, c, NumberedUpTo(high, Num(m) - 1), Rows(db, c, n, m.row.seqNo - 1));
    AroundClimbs(db, c, n, limit);
  }

  lemma AroundClimbs(db: DB, c: ContainerId, n: int, limit: int)
    requires Timeline.Distinct(TimelineOf(db, c))
    ensures IsClimbing(TimelineAround(db, c, n, limit))
  {
    hide Ascending, Timeline.Distinct, TimelineOf, TimelineAround;
    var lo, hi := AroundIsAWindow(db, c, n, limit);
    StretchIsClimbing(TimelineOf(db, c), lo, hi);
  }

  lemma StretchIsClimbing(s: set<Message>, lo: nat, hi: nat)
    requires Timeline.Distinct(s) && lo <= hi <= |s|
    ensures IsClimbing(Ascending(s)[lo..hi])
  {
    hide Ascending, Timeline.Distinct;
    StretchIsPage(s, lo, hi);
  }
}
