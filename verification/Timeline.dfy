/**
 The queries over the main timeline of a container (internal/store/messages.go): a page of the messages
 that are not replies in a thread, in ascending order of their numbers.
 */
module Timeline {
  import opened Arithmetic
  import opened MessageStore

  const DEFAULT_PAGE := 50

  datatype Message = Message(id: Id, row: Row)

  function Num(m: Message): nat {
    m.row.seqNo
  }

  /** The messages of the container that are not replies in a thread. */
  function TimelineOf(db: DB, c: ContainerId): set<Message> {
    set id | id in db.rows && db.rows[id].container == c && db.rows[id].threadRoot.None? :: Message(id, db.rows[id])
  }

  ghost predicate Distinct(s: set<Message>) {
    forall a, b :: a in s && b in s && Num(a) == Num(b) ==> a == b
  }

  predicate InOrder(ms: seq<Message>) {
    forall i, j :: 0 <= i < j < |ms| ==> Num(ms[i]) < Num(ms[j])
  }

  function Elements(ms: seq<Message>): set<Message> {
    set m | m in ms
  }

  // ---------- A set of messages in ascending order ----------

  predicate IsLast(s: set<Message>, m: Message) {
    m in s && forall x :: x in s ==> Num(x) <= Num(m)
  }

  lemma {:induction false} SomeIsLast(s: set<Message>)
    requires s != {}
    ensures exists m :: IsLast(s, m)
    decreases s
  {
    var m :| m in s;
    if s == {m} {
      assert IsLast(s, m);
    } else {
      SomeIsLast(s - {m});
      var l :| IsLast(s - {m}, l);
      assert IsLast(s, if Num(l) >= Num(m) then l else m);
    }
  }

  function Ascending(s: set<Message>): (ms: seq<Message>)
    requires Distinct(s)
    ensures |ms| == |s|
    decreases s
  {
    if s == {} then []
    else
      SomeIsLast(s);
      var m :| IsLast(s, m);
      Ascending(s - {m}) + [m]
  }

  lemma LastIsLast(s: set<Message>, m: Message)
    requires Distinct(s) && IsLast(s, m)
    ensures Ascending(s) == Ascending(s - {m}) + [m]
  {
  }

  lemma WithoutLast(s: set<Message>, m: Message)
    requires Distinct(s) && IsLast(s, m)
    ensures Distinct(s - {m}) && forall x :: x in s - {m} ==> Num(x) < Num(m)
  {
  }

  lemma Appended(ms: seq<Message>, m: Message)
    requires InOrder(ms) && forall x :: x in Elements(ms) ==> Num(x) < Num(m)
    ensures InOrder(ms + [m]) && Elements(ms + [m]) == Elements(ms) + {m}
  {
    forall i | 0 <= i < |ms| ensures Num(ms[i]) < Num(m) {
      assert ms[i] in Elements(ms);
    }
  }

  lemma {:induction false} AscendingIs(s: set<Message>)
    requires Distinct(s)
    ensures InOrder(Ascending(s)) && Elements(Ascending(s)) == s
    decreases s
  {
    hide Ascending, Distinct, InOrder, IsLast;
    if s == {} {
      assert Ascending(s) == [];
      NothingIsInOrder();
    } else {
      SomeIsLast(s);
      var m :| IsLast(s, m);
      LastIsThere(s, m);
      LastIsLast(s, m);
      WithoutLast(s, m);
      AscendingIs(s - {m});
      Appended(Ascending(s - {m}), m);
    }
  }

  lemma NothingIsInOrder()
    ensures InOrder([])
  {
  }

  lemma LastIsThere(s: set<Message>, m: Message)
    requires IsLast(s, m)
    ensures m in s
  {
  }

  function NumberedUpTo(s: set<Message>, n: int): set<Message> {
    set m | m in s && Num(m) <= n
  }

  /** Without the last message, as many are numbered up to n, or all are. */
  lemma UpToWithoutLast(s: set<Message>, n: int, m: Message)
    requires IsLast(s, m)
    ensures Num(m) <= n ==> NumberedUpTo(s, n) == s && NumberedUpTo(s - {m}, n) == s - {m}
    ensures Num(m) > n ==> NumberedUpTo(s, n) == NumberedUpTo(s - {m}, n) && |NumberedUpTo(s, n)| < |s|
  {
    if Num(m) > n {
      assert NumberedUpTo(s, n) == NumberedUpTo(s - {m}, n);
      SubsetSize(NumberedUpTo(s, n), s - {m});
    }
  }

  /** The messages numbered up to n come first. */
  lemma {:induction false} UpToComeFirst(s: set<Message>, n: int)
    requires Distinct(s)
    ensures forall k :: 0 <= k < |s| ==> (Num(Ascending(s)[k]) <= n <==> k < |NumberedUpTo(s, n)|)
    decreases s
  {
    hide Ascending, Distinct, IsLast, NumberedUpTo;
    if s != {} {
      SomeIsLast(s);
      var m :| IsLast(s, m);
      LastIsThere(s, m);
      LastIsLast(s, m);
      WithoutLast(s, m);
      UpToComeFirst(s - {m}, n);
      UpToWithoutLast(s, n, m);
    }
  }

  lemma {:induction false} SubsetSize<T>(a: set<T>, b: set<T>)
    requires a <= b
    ensures |a| <= |b|
  {
    if a != {} {
      var x :| x in a;
      SubsetSize(a - {x}, b - {x});
    }
  }

  function Below(s: set<Message>, n: int): set<Message> {
    set m | m in s && Num(m) < n
  }

  function From(s: set<Message>, n: int): set<Message> {
    set m | m in s && Num(m) >= n
  }

  lemma DistinctPart(s: set<Message>, n: int)
    requires Distinct(s)
    ensures Distinct(Below(s, n)) && Distinct(From(s, n))
  {
  }

  lemma PartsWithoutLast(s: set<Message>, n: int, m: Message)
    requires IsLast(s, m)
    ensures Num(m) >= n ==> Below(s - {m}, n) == Below(s, n) && From(s - {m}, n) == From(s, n) - {m}
    ensures Num(m) >= n ==> IsLast(From(s, n), m)
    ensures Num(m) < n ==> Below(s, n) == s && From(s, n) == {}
  {
  }

  /** The order of the whole is the order of the part below n, then that of the part from n on. */
  lemma {:induction false} AscendingSplits(s: set<Message>, n: int)
    requires Distinct(s) && Distinct(Below(s, n)) && Distinct(From(s, n))
    ensures Ascending(s) == Ascending(Below(s, n)) + Ascending(From(s, n))
    decreases s
  {
    hide Ascending, Distinct, IsLast, Below, From;
    if s == {} {
      PartsOfNothing(n);
    } else {
      SomeIsLast(s);
      var m :| IsLast(s, m);
      LastIsThere(s, m);
      LastIsLast(s, m);
      WithoutLast(s, m);
      PartsWithoutLast(s, n, m);
      DistinctPart(s - {m}, n);
      if Num(m) >= n {
        AscendingSplits(s - {m}, n);
        LastIsLast(From(s, n), m);
      }
    }
  }

  lemma PartsOfNothing(n: int)
    ensures Below({}, n) == {} && From({}, n) == {}
  {
  }

  // ---------- Pages ----------

  /** A limit that is not positive stands for the default. */
  function PageLimit(limit: int): (n: nat)
    ensures n > 0
  {
    if limit <= 0 then DEFAULT_PAGE else limit
  }

  function First(ms: seq<Message>, n: nat): seq<Message> {
    ms[..Min(n, |ms|)]
  }

  function Last(ms: seq<Message>, n: nat): seq<Message> {
    ms[|ms| - Min(n, |ms|)..]
  }

  function TimelineLatest(db: DB, c: ContainerId, limit: int): seq<Message>
    requires Distinct(TimelineOf(db, c))
  {
    Last(Ascending(TimelineOf(db, c)), PageLimit(limit))
  }

  function TimelineBefore(db: DB, c: ContainerId, before: int, limit: int): seq<Message>
    requires Distinct(TimelineOf(db, c))
  {
    Last(Ascending(Below(TimelineOf(db, c), before)), PageLimit(limit))
  }

  function TimelineAfter(db: DB, c: ContainerId, after: int, limit: int): seq<Message>
    requires Distinct(TimelineOf(db, c))
  {
    First(Ascending(From(TimelineOf(db, c), after + 1)), PageLimit(limit))
  }

  function TimelineAround(db: DB, c: ContainerId, n: int, limit: int): seq<Message>
    requires Distinct(TimelineOf(db, c))
  {
    var size := PageLimit(limit);
    var below := size / 2;
    Last(Ascending(Below(TimelineOf(db, c), n)), below) + First(Ascending(From(TimelineOf(db, c), n)), size - below)
  }

  // ---------- What a page holds ----------

  /** Messages of s in order, n of them as far as there are so many. */
  ghost predicate IsPage(page: seq<Message>, s: set<Message>, n: nat) {
    InOrder(page) && |page| == Min(n, |s|) && forall i :: 0 <= i < |page| ==> page[i] in s
  }

  /** What the page leaves out comes later. */
  ghost predicate LeavesOutLater(page: seq<Message>, s: set<Message>) {
    forall i, x :: 0 <= i < |page| && x in s && x !in page ==> Num(page[i]) < Num(x)
  }

  ghost predicate LeavesOutEarlier(page: seq<Message>, s: set<Message>) {
    forall i, x :: 0 <= i < |page| && x in s && x !in page ==> Num(x) < Num(page[i])
  }

  lemma AscendingHolds(s: set<Message>, k: nat)
    requires Distinct(s) && k < |s|
    ensures Ascending(s)[k] in s
  {
    hide Ascending;
    AscendingIs(s);
    assert Ascending(s)[k] in Elements(Ascending(s));
  }

  lemma PlaceOf(s: set<Message>, m: Message) returns (k: nat)
    requires Distinct(s) && m in s
    ensures k < |s| && Ascending(s)[k] == m
  {
    hide Ascending;
    AscendingIs(s);
    assert m in Elements(Ascending(s));
    k :| 0 <= k < |s| && Ascending(s)[k] == m;
  }

  lemma AscendingInOrder(s: set<Message>, i: nat, j: nat)
    requires Distinct(s) && i < j < |s|
    ensures Num(Ascending(s)[i]) < Num(Ascending(s)[j])
  {
    hide Ascending;
    AscendingIs(s);
  }

  lemma StretchHolds(ms: seq<Message>, lo: nat, hi: nat, j: nat)
    requires lo <= hi <= |ms| && j < |ms|
    ensures lo <= j < hi ==> ms[j] in ms[lo..hi]
  {
    if lo <= j < hi {
      assert ms[lo..hi][j - lo] == ms[j];
    }
  }

  lemma StretchIsPage(s: set<Message>, lo: nat, hi: nat)
    requires Distinct(s) && lo <= hi <= |s|
    ensures IsPage(Ascending(s)[lo..hi], s, hi - lo)
  {
    hide Ascending, Distinct;
    var all, page := Ascending(s), Ascending(s)[lo..hi];
    forall i | 0 <= i < |page| ensures page[i] in s {
      AscendingHolds(s, lo + i);
    }
    forall i, j | 0 <= i < j < |page| ensures Num(page[i]) < Num(page[j]) {
      AscendingInOrder(s, lo + i, lo + j);
    }
    SubsetSize(s, s);
  }

  lemma FirstIs(s: set<Message>, n: nat)
    requires Distinct(s)
    ensures IsPage(First(Ascending(s), n), s, n) && LeavesOutLater(First(Ascending(s), n), s)
  {
    hide Ascending, Distinct;
    var page := First(Ascending(s), n);
    StretchIsPage(s, 0, |page|);
    assert page == Ascending(s)[0..|page|];
    forall i, x | 0 <= i < |page| && x in s && x !in page ensures Num(page[i]) < Num(x) {
      var j := PlaceOf(s, x);
      StretchHolds(Ascending(s), 0, |page|, j);
      AscendingInOrder(s, i, j);
    }
  }

  lemma LastIs(s: set<Message>, n: nat)
    requires Distinct(s)
    ensures IsPage(Last(Ascending(s), n), s, n) && LeavesOutEarlier(Last(Ascending(s), n), s)
  {
    hide Ascending, Distinct;
    var page := Last(Ascending(s), n);
    var skip := |s| - |page|;
    StretchIsPage(s, skip, |s|);
    assert page == Ascending(s)[skip..|s|];
    forall i, x | 0 <= i < |page| && x in s && x !in page ensures Num(x) < Num(page[i]) {
      var j := PlaceOf(s, x);
      StretchHolds(Ascending(s), skip, |s|, j);
      AscendingInOrder(s, j, skip + i);
    }
  }

  /** The page after a number: in order, of the given size as far as there are messages, and nothing skipped. */
  lemma AfterIs(db: DB, c: ContainerId, after: int, limit: int)
    requires Distinct(TimelineOf(db, c))
    ensures var page, rest := TimelineAfter(db, c, after, limit), From(TimelineOf(db, c), after + 1);
            IsPage(page, rest, PageLimit(limit)) && LeavesOutLater(page, rest)
  {
    hide Ascending, First, IsPage, LeavesOutLater;
    FirstIs(From(TimelineOf(db, c), after + 1), PageLimit(limit));
  }

  lemma BeforeIs(db: DB, c: ContainerId, before: int, limit: int)
    requires Distinct(TimelineOf(db, c))
    ensures var page, rest := TimelineBefore(db, c, before, limit), Below(TimelineOf(db, c), before);
            IsPage(page, rest, PageLimit(limit)) && LeavesOutEarlier(page, rest)
  {
    hide Ascending, Last, IsPage, LeavesOutEarlier;
    LastIs(Below(TimelineOf(db, c), before), PageLimit(limit));
  }

  lemma LatestIs(db: DB, c: ContainerId, limit: int)
    requires Distinct(TimelineOf(db, c))
    ensures var page := TimelineLatest(db, c, limit);
            IsPage(page, TimelineOf(db, c), PageLimit(limit)) && LeavesOutEarlier(page, TimelineOf(db, c))
  {
    hide Ascending, Last, IsPage, LeavesOutEarlier;
    LastIs(TimelineOf(db, c), PageLimit(limit));
  }

  /** The message numbered n leads those from n on. */
  lemma LeadsFrom(s: set<Message>, n: int, m: Message)
    requires Distinct(s) && m in s && Num(m) == n
    ensures Ascending(From(s, n)) != [] && Ascending(From(s, n))[0] == m
  {
    hide Ascending;
    var part := From(s, n);
    var k := PlaceOf(part, m);
    if k > 0 {
      AscendingInOrder(part, 0, k);
      AscendingHolds(part, 0);
    }
  }

  /** The page around a number is a stretch of the timeline without holes, and holds the message of that number. */
  lemma AroundIsAWindow(db: DB, c: ContainerId, n: int, limit: int) returns (lo: nat, hi: nat)
    requires Distinct(TimelineOf(db, c))
    ensures lo <= hi <= |Ascending(TimelineOf(db, c))|
    ensures TimelineAround(db, c, n, limit) == Ascending(TimelineOf(db, c))[lo..hi]
    ensures lo == |Below(TimelineOf(db, c), n)| - Min(PageLimit(limit) / 2, |Below(TimelineOf(db, c), n)|)
    ensures hi == |Below(TimelineOf(db, c), n)| +
                  Min(PageLimit(limit) - PageLimit(limit) / 2, |From(TimelineOf(db, c), n)|)
    ensures forall m :: m in TimelineOf(db, c) && Num(m) == n ==> m in TimelineAround(db, c, n, limit)
  {
    hide Ascending, Distinct, TimelineOf, Below, From;
    var tl := TimelineOf(db, c);
    DistinctPart(tl, n);
    var low, high := Ascending(Below(tl, n)), Ascending(From(tl, n));
    AscendingSplits(tl, n);
    var size := PageLimit(limit);
    lo := |low| - Min(size / 2, |low|);
    hi := |low| + Min(size - size / 2, |high|);
    Window(low, high, size / 2, size - size / 2);
    forall m | m in tl && Num(m) == n ensures m in TimelineAround(db, c, n, limit) {
      LeadsFrom(tl, n, m);
      var around := TimelineAround(db, c, n, limit);
      assert around[Min(size / 2, |low|)] == high[0];
    }
  }

  lemma Window(low: seq<Message>, high: seq<Message>, a: nat, b: nat)
    ensures Last(low, a) + First(high, b) == (low + high)[|low| - Min(a, |low|)..|low| + Min(b, |high|)]
  {
  }

  /** A page reaches every number that is no further ahead than the page is long. */
  lemma PageReaches(db: DB, c: ContainerId, after: int, limit: int, m: Message)
    requires Distinct(TimelineOf(db, c)) && m in TimelineOf(db, c)
    requires after < Num(m) <= after + PageLimit(limit)
    ensures m in TimelineAfter(db, c, after, limit)
  {
    hide Ascending, Distinct, TimelineOf;
    var rest := From(TimelineOf(db, c), after + 1);
    DistinctPart(TimelineOf(db, c), after + 1);
    var k := PlaceOf(rest, m);
    NumbersClimb(rest, after, k);
    assert TimelineAfter(db, c, after, limit)[k] == m;
  }

  lemma {:induction false} NumbersClimb(s: set<Message>, after: int, k: nat)
    requires Distinct(s) && k < |s| && forall x :: x in s ==> Num(x) > after
    ensures Num(Ascending(s)[k]) > after + k
  {
    hide Ascending, Distinct;
    AscendingHolds(s, k);
    if k > 0 {
      NumbersClimb(s, after, k - 1);
      AscendingInOrder(s, k - 1, k);
    }
  }

  /** The messages of the timeline numbered after one number and up to another. */
  function Due(db: DB, c: ContainerId, after: int, to: int): set<Message> {
    set m | m in TimelineOf(db, c) && after < Num(m) <= to
  }

  /** A page after a number holds all messages up to another number exactly when it has room for them. */
  lemma PageHoldsUpTo(db: DB, c: ContainerId, after: int, limit: int, to: int)
    requires Distinct(TimelineOf(db, c))
    ensures (forall m :: m in Due(db, c, after, to) ==> m in TimelineAfter(db, c, after, limit)) <==>
            |Due(db, c, after, to)| <= PageLimit(limit)
  {
    hide Ascending, Distinct, TimelineOf;
    var rest, due := From(TimelineOf(db, c), after + 1), Due(db, c, after, to);
    DistinctPart(TimelineOf(db, c), after + 1);
    var page := TimelineAfter(db, c, after, limit);
    UpToComeFirst(rest, to);
    assert due == NumberedUpTo(rest, to);
    SubsetSize(due, rest);
    if |due| <= PageLimit(limit) {
      forall m | m in due ensures m in page {
        var k := PlaceOf(rest, m);
        assert page[k] == m;
      }
    } else {
      var k := PageLimit(limit);
      var m := Ascending(rest)[k];
      AscendingHolds(rest, k);
      assert m in due;
      forall i | 0 <= i < |page| ensures page[i] != m {
        AscendingInOrder(rest, i, k);
      }
    }
  }

  /** In every reachable state of the store the messages of a container have distinct numbers. */
  lemma StoreNumbersAreDistinct(ws: seq<World>, k: nat, c: ContainerId)
    requires IsRun(ws) && k < |ws|
    ensures Distinct(TimelineOf(ws[k].db, c))
  {
    RunKeepsInv(ws, k);
  }
}
