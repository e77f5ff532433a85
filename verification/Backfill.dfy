/**
 The client's answer to the gaps it is told of (internal/server/static/js/socket.js): it pages through each
 gap and merges every page into the message list it holds for the container.
 */
module Backfill {
  import opened Wrappers
  import opened MessageStore
  import opened Timeline
  import opened CatchUp
  import MessageList

  const BACKFILL_PAGES := 40
  const BACKFILL_PAGE := 50

  /** A message as the client keeps it. */
  function Received(m: Message): MessageList.Msg {
    MessageList.Msg(m.id, Num(m), map["body" := m.row.body, "client_id" := m.row.clientId])
  }

  function ReceivedAll(ms: seq<Message>): (out: seq<MessageList.Msg>)
    ensures |out| == |ms|
  {
    seq(|ms|, i requires 0 <= i < |ms| => Received(ms[i]))
  }

  /** The table as each page request finds it; None where the request fails. */
  type Answers = seq<Option<DB>>

  ghost predicate Readable(answers: Answers, c: ContainerId) {
    && |answers| == 40
    && forall p :: 0 <= p < 40 && answers[p].Some? ==> Distinct(TimelineOf(answers[p].value, c))
  }

  function Start(gap: Gap): (cursor: int)
    ensures cursor >= 0
  {
    if gap.from - 1 > 0 then gap.from - 1 else 0
  }

  function PageAt(answers: Answers, c: ContainerId, p: nat, cursor: int): seq<Message>
    requires Readable(answers, c) && p < BACKFILL_PAGES && answers[p].Some?
  {
    TimelineAfter(answers[p].value, c, cursor, BACKFILL_PAGE)
  }

  function CursorAfter(page: seq<Message>, cursor: int): int {
    if page == [] then cursor else Num(page[|page| - 1])
  }

  /** The pages read for a gap, from page p and a cursor on. */
  function PagesFrom(answers: Answers, gap: Gap, p: nat, cursor: int): (pages: seq<seq<Message>>)
    requires Readable(answers, gap.container) && p <= BACKFILL_PAGES
    ensures |pages| <= BACKFILL_PAGES - p
    decreases BACKFILL_PAGES - p
  {
    if p == BACKFILL_PAGES || answers[p].None? then []
    else
      var page := PageAt(answers, gap.container, p, cursor);
      if page == [] || CursorAfter(page, cursor) >= gap.to then [page]
      else [page] + PagesFrom(answers, gap, p + 1, CursorAfter(page, cursor))
  }

  function Pages(answers: Answers, gap: Gap): seq<seq<Message>>
    requires Readable(answers, gap.container)
  {
    PagesFrom(answers, gap, 0, Start(gap))
  }

  function Arrivals(pages: seq<seq<Message>>): (es: seq<MessageList.Arrival>)
    ensures |es| == |pages|
  {
    seq(|pages|, i requires 0 <= i < |pages| => MessageList.Page(ReceivedAll(pages[i])))
  }

  lemma NothingArrives(list: seq<MessageList.Msg>)
    ensures MessageList.Arrived(list, Arrivals([])) == list
  {
  }

  lemma OneMorePage(list: seq<MessageList.Msg>, done: seq<seq<Message>>, page: seq<Message>)
    ensures MessageList.Arrived(list, Arrivals(done + [page])) ==
            MessageList.Merged(MessageList.Arrived(list, Arrivals(done)), ReceivedAll(page))
  {
    assert Arrivals(done + [page]) == Arrivals(done) + [MessageList.Page(ReceivedAll(page))];
    MessageList.PageArrives(list, Arrivals(done), ReceivedAll(page));
  }

  /** Every page that is not empty moves the cursor on. */
  lemma CursorClimbs(answers: Answers, c: ContainerId, p: nat, cursor: int)
    requires Readable(answers, c) && p < BACKFILL_PAGES && answers[p].Some?
    requires PageAt(answers, c, p, cursor) != []
    ensures CursorAfter(PageAt(answers, c, p, cursor), cursor) > cursor
  {
    hide TimelineAfter, TimelineOf, Distinct, LeavesOutLater;
    AfterIs(answers[p].value, c, cursor, BACKFILL_PAGE);
  }

  lemma PagesUnfold(answers: Answers, gap: Gap, p: nat, cursor: int)
    requires Readable(answers, gap.container) && p < BACKFILL_PAGES
    ensures answers[p].None? ==> PagesFrom(answers, gap, p, cursor) == []
    ensures answers[p].Some? ==>
              var page := PageAt(answers, gap.container, p, cursor);
              var next := CursorAfter(page, cursor);
              PagesFrom(answers, gap, p, cursor) ==
              if page == [] || next >= gap.to then [page] else [page] + PagesFrom(answers, gap, p + 1, next)
  {
    hide PageAt, Distinct, TimelineOf;
  }

  lemma AnswersToAll(answers: Answers, c: ContainerId)
    requires Readable(answers, c)
    ensures |answers| == BACKFILL_PAGES
  {
  }

  lemma PagesEnd(answers: Answers, gap: Gap, cursor: int)
    requires Readable(answers, gap.container)
    ensures PagesFrom(answers, gap, BACKFILL_PAGES, cursor) == []
  {
  }

  // ---------- The code ----------

  /** Pages through one gap. */
  method FillGap(cache: MessageList.Cache, gap: Gap, answers: Answers)
    requires cache.Valid() && gap.container in cache.messages && Readable(answers, gap.container)
    modifies cache
    ensures cache.Valid()
    ensures cache.messages == old(cache.messages)[gap.container :=
              MessageList.Arrived(old(cache.messages)[gap.container], Arrivals(Pages(answers, gap)))]
  {
    hide PagesFrom, PageAt, Readable, Start, CursorAfter, Arrivals, ReceivedAll, MessageList.Arrived,
         MessageList.Merged, MessageList.UniqueIds;
    AnswersToAll(answers, gap.container);
    ghost var list := cache.messages[gap.container];
    ghost var done: seq<seq<Message>> := [];
    var cursor := Start(gap);
    NothingArrives(list);
    for page := 0 to BACKFILL_PAGES
      invariant cache.Valid()
      invariant cache.messages == old(cache.messages)[gap.container := MessageList.Arrived(list, Arrivals(done))]
      invariant Pages(answers, gap) == done + PagesFrom(answers, gap, page, cursor)
    {
      PagesUnfold(answers, gap, page, cursor);
      if answers[page].None? {
        break;
      }
      var msgs := PageAt(answers, gap.container, page, cursor);
      var out := cache.Merge(gap.container, ReceivedAll(msgs), false);
      OneMorePage(list, done, msgs);
      done := done + [msgs];
      if msgs == [] {
        break;
      }
      cursor := CursorAfter(msgs, cursor);
      if cursor >= gap.to {
        break;
      }
    }
    PagesEnd(answers, gap, cursor);
    assert Pages(answers, gap) == done;
  }

  /** The lists after the first n gaps; a gap in a container that the client has no list for is left alone. */
  function Filled(messages: map<ContainerId, seq<MessageList.Msg>>, gaps: seq<Gap>, answers: seq<Answers>, n: nat)
      : map<ContainerId, seq<MessageList.Msg>>
    requires |answers| == |gaps| && n <= |gaps|
    requires forall i :: 0 <= i < |gaps| ==> Readable(answers[i], gaps[i].container)
  {
    if n == 0 then messages
    else
      var prior, gap := Filled(messages, gaps, answers, n - 1), gaps[n - 1];
      if gap.container !in prior then prior
      else prior[gap.container :=
                   MessageList.Arrived(prior[gap.container], Arrivals(Pages(answers[n - 1], gap)))]
  }

  method Backfill(cache: MessageList.Cache, gaps: seq<Gap>, answers: seq<Answers>)
    requires cache.Valid() && |answers| == |gaps|
    requires forall i :: 0 <= i < |gaps| ==> Readable(answers[i], gaps[i].container)
    modifies cache
    ensures cache.Valid()
    ensures cache.messages == Filled(old(cache.messages), gaps, answers, |gaps|)
  {
    hide Pages, Readable, Arrivals, MessageList.Arrived;
    for i := 0 to |gaps|
      invariant cache.Valid() && cache.messages == Filled(old(cache.messages), gaps, answers, i)
    {
      if gaps[i].container !in cache.messages {
        continue;
      }
      FillGap(cache, gaps[i], answers[i]);
    }
  }

  // ---------- The pages cover the gap ----------

  /** The first q requests are answered. */
  predicate Answer(answers: Answers, q: nat) {
    q <= |answers| && forall p :: 0 <= p < q ==> answers[p].Some?
  }

  /** The request after the first q fails, if it is made at all. */
  predicate FailsAfter(answers: Answers, q: nat) {
    q < |answers| ==> answers[q].None?
  }

  /** The message with this id is on the timeline under this number. */
  predicate Present(db: DB, c: ContainerId, id: Id, n: nat) {
    && id in db.rows && db.rows[id].container == c && db.rows[id].threadRoot.None? && db.rows[id].seqNo == n
  }

  /** The message stays on the timeline while the first q requests are answered. */
  predicate AlwaysPresent(answers: Answers, q: nat, c: ContainerId, id: Id, n: nat) {
    Answer(answers, q) && forall p :: 0 <= p < q ==> Present(answers[p].value, c, id, n)
  }

  predicate OnPage(page: seq<Message>, id: Id) {
    exists k :: 0 <= k < |page| && page[k].id == id
  }

  predicate Paged(pages: seq<seq<Message>>, id: Id) {
    exists p :: 0 <= p < |pages| && OnPage(pages[p], id)
  }

  /** The numbers in the gap that any of the first q requests finds on the timeline. */
  function Numbers(answers: Answers, q: nat, gap: Gap): set<nat> {
    set p, m | 0 <= p < q && p < |answers| && answers[p].Some? && m in TimelineOf(answers[p].value, gap.container) &&
               Start(gap) < Num(m) <= gap.to :: Num(m)
  }

  function UpTo(ns: set<nat>, n: int): set<nat> {
    set x | x in ns && x <= n
  }

  function NumbersOf(page: seq<Message>): set<nat> {
    set i | 0 <= i < |page| :: Num(page[i])
  }

  lemma NumbersOfMore(init: seq<Message>, last: Message)
    ensures NumbersOf(init + [last]) == NumbersOf(init) + {Num(last)}
  {
    var page := init + [last];
    forall n | n in NumbersOf(init) + {Num(last)} ensures n in NumbersOf(page) {
      if n == Num(last) {
        assert page[|init|] == last;
      } else {
        var i :| 0 <= i < |init| && Num(init[i]) == n;
        assert page[i] == init[i];
      }
    }
  }

  lemma {:induction false} PageHasItsNumbers(page: seq<Message>)
    requires InOrder(page)
    ensures |NumbersOf(page)| == |page|
  {
    if page != [] {
      var init, last := page[..|page| - 1], page[|page| - 1];
      assert page == init + [last] && InOrder(init);
      PageHasItsNumbers(init);
      NumbersOfMore(init, last);
      assert Num(last) !in NumbersOf(init);
    }
  }

  /** A page that does not reach a message is full, and ends before it. */
  lemma PageFallsShort(db: DB, c: ContainerId, cursor: int, id: Id, n: nat)
    requires Distinct(TimelineOf(db, c)) && Present(db, c, id, n) && cursor < n
    requires !OnPage(TimelineAfter(db, c, cursor, BACKFILL_PAGE), id)
    ensures var page := TimelineAfter(db, c, cursor, BACKFILL_PAGE);
            && |page| == 50 && InOrder(page)
            && forall i :: 0 <= i < |page| ==> page[i] in TimelineOf(db, c) && cursor < Num(page[i]) < n
  {
    hide TimelineAfter, Distinct;
    var page, rest, m := TimelineAfter(db, c, cursor, BACKFILL_PAGE), From(TimelineOf(db, c), cursor + 1),
                         Message(id, db.rows[id]);
    AfterIs(db, c, cursor, BACKFILL_PAGE);
    assert m in rest;
    assert m !in page;
    if |rest| <= BACKFILL_PAGE {
      PageHoldsUpTo(db, c, cursor, BACKFILL_PAGE, n);
      assert m in Due(db, c, cursor, n);
      SubsetSize(Due(db, c, cursor, n), rest);
      assert false;
    }
  }

  /** A full page below n uses up as many numbers of the gap as it has messages. */
  lemma FullPageAdvances(ns: set<nat>, page: seq<Message>, cursor: int, p: nat)
    requires InOrder(page) && |page| == 50
    requires forall i :: 0 <= i < |page| ==> Num(page[i]) in ns && Num(page[i]) > cursor
    requires 50 * p <= |UpTo(ns, cursor)|
    ensures 50 * (p + 1) <= |UpTo(ns, CursorAfter(page, cursor))|
  {
    var next := CursorAfter(page, cursor);
    PageHasItsNumbers(page);
    var used := UpTo(ns, cursor) + NumbersOf(page);
    assert UpTo(ns, cursor) !! NumbersOf(page);
    assert used <= UpTo(ns, next);
    SubsetSize(used, UpTo(ns, next));
  }

  lemma {:induction false} PagedFrom(answers: Answers, q: nat, gap: Gap, p: nat, cursor: int, id: Id, n: nat)
    requires Readable(answers, gap.container) && p <= q && 0 < q <= 40
    requires AlwaysPresent(answers, q, gap.container, id, n) && Start(gap) <= cursor < n <= gap.to
    requires 50 * p <= |UpTo(Numbers(answers, q, gap), cursor)|
    requires |Numbers(answers, q, gap)| <= 50 * q
    ensures Paged(PagesFrom(answers, gap, p, cursor), id)
    decreases q - p
  {
    hide TimelineAfter, TimelineOf, Distinct, Numbers, UpTo, InOrder, OnPage, Present;
    var ns := Numbers(answers, q, gap);
    if p == q {
      PresentIsNumbered(answers, q, gap, 0, id, n);
      OneAbove(ns, cursor, n);
      assert false;
    } else {
      var db := answers[p].value;
      var page := PageAt(answers, gap.container, p, cursor);
      var pages := PagesFrom(answers, gap, p, cursor);
      if OnPage(page, id) {
        assert pages[0] == page;
      } else {
        PageFallsShort(db, gap.container, cursor, id, n);
        forall i | 0 <= i < |page| ensures Num(page[i]) in ns {
          NumberedAt(answers, q, gap, p, page[i]);
        }
        FullPageAdvances(ns, page, cursor, p);
        var next := CursorAfter(page, cursor);
        PagedFrom(answers, q, gap, p + 1, next, id, n);
        var rest := PagesFrom(answers, gap, p + 1, next);
        var k :| 0 <= k < |rest| && OnPage(rest[k], id);
        assert pages[k + 1] == rest[k];
      }
    }
  }

  lemma NumberedAt(answers: Answers, q: nat, gap: Gap, p: nat, m: Message)
    requires p < q && p < |answers| && answers[p].Some? && m in TimelineOf(answers[p].value, gap.container)
    requires Start(gap) < Num(m) <= gap.to
    ensures Num(m) in Numbers(answers, q, gap)
  {
  }

  lemma PresentIsNumbered(answers: Answers, q: nat, gap: Gap, p: nat, id: Id, n: nat)
    requires p < q && p < |answers| && answers[p].Some? && Present(answers[p].value, gap.container, id, n)
    requires Start(gap) < n <= gap.to
    ensures n in Numbers(answers, q, gap)
  {
    NumberedAt(answers, q, gap, p, Message(id, answers[p].value.rows[id]));
  }

  lemma OneAbove(ns: set<nat>, cursor: int, n: nat)
    requires n in ns && n > cursor
    ensures |ns| > |UpTo(ns, cursor)|
  {
    SubsetSize(UpTo(ns, cursor) + {n}, ns);
  }

  /**
   If the first q pages are answered, and the gap holds no more numbers than they have room for, every message that
   stays on the timeline meanwhile is on one of the pages, whatever comes in at the end, and even if the next
   request fails.
   */
  lemma GapIsCovered(answers: Answers, q: nat, gap: Gap, id: Id, n: nat)
    requires Readable(answers, gap.container) && 0 < q <= 40
    requires AlwaysPresent(answers, q, gap.container, id, n) && Start(gap) < n <= gap.to
    requires |Numbers(answers, q, gap)| <= 50 * q
    ensures Paged(Pages(answers, gap), id)
  {
    PagedFrom(answers, q, gap, 0, Start(gap), id, n);
  }

  // ---------- Which pages are asked for ----------

  /** Where the request for page k starts: below the gap, or at the last number of the page before. */
  ghost predicate AsksFrom(pages: seq<seq<Message>>, k: nat, first: int, cursor: int)
    requires k <= |pages|
  {
    if k == 0 then cursor == first
    else pages[k - 1] != [] && cursor == pages[k - 1][|pages[k - 1]| - 1].row.seqNo
  }

  /** Page k is what the table held above the cursor, 50 messages at most. */
  ghost predicate IsPageAt(answers: Answers, c: ContainerId, pages: seq<seq<Message>>, p: nat, k: nat, first: int)
    requires Readable(answers, c) && k < |pages| && p + k < 40
  {
    answers[p + k].Some? && exists cursor :: AsksFrom(pages, k, first, cursor) &&
                                             pages[k] == TimelineAfter(answers[p + k].value, c, cursor, 50)
  }

  /** Nothing more is asked for after a page that is empty or reaches the end of the gap. */
  predicate IsFinal(page: seq<Message>, to: int) {
    page == [] || page[|page| - 1].row.seqNo >= to
  }

  lemma {:induction false} PagesFromAre(answers: Answers, gap: Gap, p: nat, cursor: int)
    requires Readable(answers, gap.container) && p <= 40
    ensures var pages := PagesFrom(answers, gap, p, cursor);
            && |pages| <= 40 - p
            && (forall k :: 0 <= k < |pages| ==> IsPageAt(answers, gap.container, pages, p, k, cursor))
            && (forall k :: 0 <= k < |pages| - 1 ==> !IsFinal(pages[k], gap.to))
            && (p + |pages| < 40 && answers[p + |pages|].Some? ==> pages != [] && IsFinal(pages[|pages| - 1], gap.to))
    decreases 40 - p
  {
    hide TimelineAfter, TimelineOf, Distinct;
    var pages := PagesFrom(answers, gap, p, cursor);
    if pages != [] {
      assert AsksFrom(pages, 0, cursor, cursor);
      assert IsPageAt(answers, gap.container, pages, p, 0, cursor);
    }
    if |pages| > 1 {
      var next := CursorAfter(pages[0], cursor);
      var rest := PagesFrom(answers, gap, p + 1, next);
      PagesFromAre(answers, gap, p + 1, next);
      assert pages == [pages[0]] + rest;
      forall k | 1 <= k < |pages| ensures IsPageAt(answers, gap.container, pages, p, k, cursor) {
        assert IsPageAt(answers, gap.container, rest, p + 1, k - 1, next);
        var from :| AsksFrom(rest, k - 1, next, from) &&
                    rest[k - 1] == TimelineAfter(answers[p + k].value, gap.container, from, 50);
        assert pages[k] == rest[k - 1] && AsksFrom(pages, k, cursor, from);
      }
      forall k | 0 <= k < |pages| - 1 ensures !IsFinal(pages[k], gap.to) {
        if k > 0 {
          assert pages[k] == rest[k - 1];
        }
      }
    }
  }

  /**
   The pages of a gap: each continues where the one before ended, and they stop with the first that is empty or
   reaches the end of the gap, with the first request that fails, or after 40.
   */
  lemma PagesAre(answers: Answers, gap: Gap)
    requires Readable(answers, gap.container)
    ensures var pages, first := Pages(answers, gap), if gap.from > 0 then gap.from - 1 else 0;
            && |pages| <= 40
            && (forall k :: 0 <= k < |pages| ==> IsPageAt(answers, gap.container, pages, 0, k, first))
            && (forall k :: 0 <= k < |pages| - 1 ==> !IsFinal(pages[k], gap.to))
            && (|pages| < 40 && answers[|pages|].Some? ==> pages != [] && IsFinal(pages[|pages| - 1], gap.to))
  {
    hide PagesFrom, IsPageAt, IsFinal, Distinct, TimelineOf;
    PagesFromAre(answers, gap, 0, Start(gap));
  }

  // ---------- No more than the pages can hold ----------

  function IdsOn(pages: seq<seq<Message>>): set<Id> {
    set p, k | 0 <= p < |pages| && 0 <= k < |pages[p]| :: pages[p][k].id
  }

  function IdsOf(page: seq<Message>): set<Id> {
    set k | 0 <= k < |page| :: page[k].id
  }

  lemma IdsOnMore(page: seq<Message>, rest: seq<seq<Message>>)
    ensures IdsOn([page] + rest) == IdsOf(page) + IdsOn(rest)
  {
    var pages := [page] + rest;
    forall id | id in IdsOf(page) + IdsOn(rest) ensures id in IdsOn(pages) {
      if id in IdsOf(page) {
        assert pages[0] == page;
      } else {
        var p, k :| 0 <= p < |rest| && 0 <= k < |rest[p]| && rest[p][k].id == id;
        assert pages[p + 1] == rest[p];
      }
    }
  }

  lemma UnionSize<T>(a: set<T>, b: set<T>)
    ensures |a + b| <= |a| + |b|
  {
    assert a + b == a + (b - a);
    SubsetSize(b - a, b);
  }

  lemma {:induction false} PagesHoldFew(answers: Answers, q: nat, gap: Gap, p: nat, cursor: int)
    requires Readable(answers, gap.container) && p <= q <= 40 && FailsAfter(answers, q)
    ensures |IdsOn(PagesFrom(answers, gap, p, cursor))| <= 50 * (q - p)
    decreases q - p
  {
    hide TimelineAfter, TimelineOf, Distinct, IdsOn, IdsOf, LeavesOutLater;
    var pages := PagesFrom(answers, gap, p, cursor);
    NoIds();
    if pages != [] {
      var page, rest := pages[0], pages[1..];
      assert pages == [page] + rest;
      AfterIs(answers[p].value, gap.container, cursor, BACKFILL_PAGE);
      FewIds(page);
      IdsOnMore(page, rest);
      UnionSize(IdsOf(page), IdsOn(rest));
      if rest != [] {
        PagesHoldFew(answers, q, gap, p + 1, CursorAfter(page, cursor));
      }
    }
  }

  lemma NoIds()
    ensures IdsOn([]) == {}
  {
  }

  lemma {:induction false} FewIds(page: seq<Message>)
    ensures |IdsOf(page)| <= |page|
  {
    if page != [] {
      var init := page[..|page| - 1];
      FewIds(init);
      assert IdsOf(page) == IdsOf(init) + {page[|page| - 1].id} by {
        assert forall k :: 0 <= k < |init| ==> init[k] == page[k];
      }
    }
  }

  /** The first q requests find the same table, and the next one fails. */
  ghost predicate StillFor(answers: Answers, q: nat, db: DB) {
    && |answers| == 40 && q <= 40 && FailsAfter(answers, q)
    && forall p :: 0 <= p < q ==> answers[p] == Some(db)
  }

  /**
   On a table that stays as it is, the pages cover the gap exactly when it holds no more than the pages before the
   first failure; with 40 answers no request fails.
   */
  lemma StillGapIsCovered(answers: Answers, q: nat, db: DB, gap: Gap)
    requires Readable(answers, gap.container) && StillFor(answers, q, db) && Distinct(TimelineOf(db, gap.container))
    ensures (forall m :: m in Due(db, gap.container, Start(gap), gap.to) ==> Paged(Pages(answers, gap), m.id)) <==>
            |Due(db, gap.container, Start(gap), gap.to)| <= 50 * q
  {
    hide Distinct, Pages, Paged, IdsOn, PagesFrom;
    var due := Due(db, gap.container, Start(gap), gap.to);
    if |due| <= 50 * q && q > 0 {
      DueNumbers(answers, q, db, gap);
      forall m | m in due ensures Paged(Pages(answers, gap), m.id) {
        GapIsCovered(answers, q, gap, m.id, Num(m));
      }
    }
    if forall m :: m in due ==> Paged(Pages(answers, gap), m.id) {
      AllPaged(answers, q, gap, due);
    }
  }

  lemma AllPaged(answers: Answers, q: nat, gap: Gap, due: set<Message>)
    requires Readable(answers, gap.container) && q <= 40 && FailsAfter(answers, q)
    requires forall m :: m in due ==> Paged(Pages(answers, gap), m.id)
    requires forall a, b :: a in due && b in due && a.id == b.id ==> a == b
    ensures |due| <= 50 * q
  {
    var ids := set m | m in due :: m.id;
    IdsCount(due);
    PagesHoldFew(answers, q, gap, 0, Start(gap));
    assert ids <= IdsOn(Pages(answers, gap));
    SubsetSize(ids, IdsOn(Pages(answers, gap)));
  }

  lemma {:induction false} IdsCount(due: set<Message>)
    requires forall a, b :: a in due && b in due && a.id == b.id ==> a == b
    ensures |set m | m in due :: m.id| == |due|
  {
    if due != {} {
      var x :| x in due;
      IdsCount(due - {x});
      assert (set m | m in due :: m.id) == (set m | m in due - {x} :: m.id) + {x.id};
    }
  }

  lemma DueNumbers(answers: Answers, q: nat, db: DB, gap: Gap)
    requires StillFor(answers, q, db) && q > 0 && Distinct(TimelineOf(db, gap.container))
    ensures |Numbers(answers, q, gap)| == |Due(db, gap.container, Start(gap), gap.to)|
  {
    var due := Due(db, gap.container, Start(gap), gap.to);
    assert Numbers(answers, q, gap) == set m | m in due :: Num(m) by {
      forall m | m in due ensures Num(m) in Numbers(answers, q, gap) {
        NumberedAt(answers, q, gap, 0, m);
      }
    }
    NumsCount(due);
  }

  lemma {:induction false} NumsCount(due: set<Message>)
    requires Distinct(due)
    ensures |set m | m in due :: Num(m)| == |due|
  {
    if due != {} {
      var x :| x in due;
      NumsCount(due - {x});
      assert (set m | m in due :: Num(m)) == (set m | m in due - {x} :: Num(m)) + {Num(x)};
    }
  }
}
