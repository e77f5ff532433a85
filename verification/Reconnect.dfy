/**
 Reconnecting as a whole: what the server replays or reports as a gap (internal/app/handler.go) and what the client
 pages in (internal/server/static/js/socket.js), up to the client's list, and what a failed page costs.
 */
module Reconnect {
  import opened Wrappers
  import opened MessageStore
  import opened Timeline
  import opened CatchUp
  import opened Backfill
  import MessageList

  // ---------- The client's list ----------

  /** What has arrived stays in the list, whatever arrives before and after it. */
  lemma {:induction false} ArrivedIsHeld(list: seq<MessageList.Msg>, es: seq<MessageList.Arrival>, id: Id)
    ensures MessageList.Holds(MessageList.Arrived(list, es), id) <==>
            MessageList.Holds(list, id) || exists x :: x in MessageList.Contents(es) && x.id == id
  {
    if es != [] {
      var init, e := es[..|es| - 1], es[|es| - 1];
      ArrivedIsHeld(list, init, id);
      var prior := MessageList.Arrived(list, init);
      match e
      case Pushed(m) =>
        MessageList.PlaceHolds(prior, m, id);
      case Page(ms) =>
        MessageList.MergeHolds(prior, ms, id);
    }
  }

  /** What the client is sent for a container ends up in the order in which it comes, amid anything else. */
  predicate Delivers(es: seq<MessageList.Arrival>, c: ContainerId, inline: seq<Message>, pages: seq<seq<Message>>) {
    && (forall k :: 0 <= k < |inline| && inline[k].row.container == c ==> MessageList.Pushed(Received(inline[k])) in es)
    && (forall p :: 0 <= p < |pages| ==> MessageList.Page(ReceivedAll(pages[p])) in es)
  }

  lemma {:induction false} ContentsOf(es: seq<MessageList.Arrival>, e: MessageList.Arrival)
    requires e in es
    ensures MessageList.Content(e) <= MessageList.Contents(es)
  {
    var n := |es| - 1;
    if es[n] != e {
      assert es == es[..n] + [es[n]];
      ContentsOf(es[..n], e);
    }
  }

  /** The arrival brings a message with this id. */
  predicate Brings(e: MessageList.Arrival, id: Id) {
    match e
    case Pushed(m) => m.id == id
    case Page(ms) => exists k :: 0 <= k < |ms| && ms[k].id == id
  }

  /** The list shows the message as the row had it. */
  ghost predicate Shows(list: seq<MessageList.Msg>, m: Message) {
    && MessageList.FieldIs(list, m.id, "body", m.row.body)
    && MessageList.FieldIs(list, m.id, "client_id", m.row.clientId)
    && MessageList.NumberIs(list, m.id, m.row.seqNo)
  }

  lemma PushShows(list: seq<MessageList.Msg>, m: Message)
    ensures Shows(MessageList.Placed(list, Received(m)), m)
  {
    hide MessageList.FieldIs, MessageList.NumberIs, MessageList.Placed;
    MessageList.PlaceWrites(list, Received(m), m.id, "body", m.row.body, m.row.seqNo);
    MessageList.PlaceWrites(list, Received(m), m.id, "client_id", m.row.clientId, m.row.seqNo);
  }

  lemma PageShows(list: seq<MessageList.Msg>, page: seq<Message>, k: nat)
    requires k < |page| && forall x :: 0 <= x < |page| && x != k ==> page[x].id != page[k].id
    ensures Shows(MessageList.Merged(list, ReceivedAll(page)), page[k])
  {
    hide MessageList.FieldIs, MessageList.NumberIs, MessageList.Merged;
    var m, ms := page[k], ReceivedAll(page);
    assert MessageList.LastAt(ms, k, m.id, "body", m.row.body);
    assert MessageList.LastAt(ms, k, m.id, "client_id", m.row.clientId);
    assert MessageList.IsLastOf(ms, k, m.id);
    MessageList.MergeWrites(list, ms, m.id, "body", m.row.body);
    MessageList.MergeWrites(list, ms, m.id, "client_id", m.row.clientId);
    MessageList.MergeNumbers(list, ms, m.id, m.row.seqNo);
  }

  lemma OthersShow(list: seq<MessageList.Msg>, e: MessageList.Arrival, m: Message)
    requires Shows(list, m) && !Brings(e, m.id)
    ensures e.Pushed? ==> Shows(MessageList.Placed(list, e.m), m)
    ensures e.Page? ==> Shows(MessageList.Merged(list, e.ms), m)
  {
    hide MessageList.FieldIs, MessageList.NumberIs, MessageList.Merged, MessageList.Placed;
    match e
    case Pushed(x) =>
      MessageList.PlaceWrites(list, x, m.id, "body", m.row.body, m.row.seqNo);
      MessageList.PlaceWrites(list, x, m.id, "client_id", m.row.clientId, m.row.seqNo);
    case Page(ms) =>
      MessageList.MergeWrites(list, ms, m.id, "body", m.row.body);
      MessageList.MergeWrites(list, ms, m.id, "client_id", m.row.clientId);
      MessageList.MergeNumbers(list, ms, m.id, m.row.seqNo);
  }

  /**
   After any arrivals the list shows a message as it was when it was last received, whether it was pushed or was one
   of a page.
   */
  lemma {:induction false} LastReceivedShows(list: seq<MessageList.Msg>, es: seq<MessageList.Arrival>, j: nat,
                                             page: seq<Message>, k: nat)
    requires j < |es| && k < |page| && forall x :: 0 <= x < |page| && x != k ==> page[x].id != page[k].id
    requires es[j] == MessageList.Page(ReceivedAll(page)) || es[j] == MessageList.Pushed(Received(page[k]))
    requires forall t :: j < t < |es| ==> !Brings(es[t], page[k].id)
    ensures Shows(MessageList.Arrived(list, es), page[k])
    decreases |es|
  {
    hide Shows, Brings, MessageList.Placed, MessageList.Merged;
    var init, e := es[..|es| - 1], es[|es| - 1];
    var prior := MessageList.Arrived(list, init);
    if j < |init| {
      LastReceivedShows(list, init, j, page, k);
      assert !Brings(es[|es| - 1], page[k].id);
      OthersShow(prior, e, page[k]);
    } else if e.Pushed? {
      PushShows(prior, page[k]);
    } else {
      PageShows(prior, page, k);
    }
  }

  /** A message that is on a page comes with it. */
  lemma PagedIsReceived(page: seq<Message>, id: Id)
    requires OnPage(page, id)
    ensures exists x :: x in MessageList.Elements(ReceivedAll(page)) && x.id == id
  {
    var k :| 0 <= k < |page| && page[k].id == id;
    assert ReceivedAll(page)[k] in MessageList.Elements(ReceivedAll(page));
  }

  /**
   What filling the gaps leaves: the lists of other containers as they were, and every message on a page of a gap in
   a list that the client holds.
   */
  lemma {:induction false} FilledHolds(messages: map<ContainerId, seq<MessageList.Msg>>, gaps: seq<Gap>,
                                       answers: seq<Answers>, n: nat, c: ContainerId, id: Id)
    requires |answers| == |gaps| && n <= |gaps| && c in messages
    requires forall i :: 0 <= i < |gaps| ==> Backfill.Readable(answers[i], gaps[i].container)
    ensures Filled(messages, gaps, answers, n).Keys == messages.Keys
    ensures (forall i :: 0 <= i < n ==> gaps[i].container != c) ==> Filled(messages, gaps, answers, n)[c] == messages[c]
    ensures MessageList.Holds(Filled(messages, gaps, answers, n)[c], id) <==>
            || MessageList.Holds(messages[c], id)
            || exists i :: 0 <= i < n && gaps[i].container == c && Paged(Pages(answers[i], gaps[i]), id)
  {
    hide Pages, Backfill.Readable, Arrivals, MessageList.Arrived, MessageList.Holds, Paged;
    if n > 0 {
      FilledHolds(messages, gaps, answers, n - 1, c, id);
      if gaps[n - 1].container == c {
        GapArrives(Filled(messages, gaps, answers, n - 1)[c], Pages(answers[n - 1], gaps[n - 1]), id);
      }
    }
  }

  /** The list that a gap is filled into holds what it held, and what is on the pages. */
  lemma {:induction false} GapArrives(list: seq<MessageList.Msg>, pages: seq<seq<Message>>, id: Id)
    ensures MessageList.Holds(MessageList.Arrived(list, Arrivals(pages)), id) <==>
            MessageList.Holds(list, id) || Paged(pages, id)
  {
    hide Arrivals, MessageList.Arrived, MessageList.Holds, MessageList.Merged, OnPage, ReceivedAll;
    if pages == [] {
      NothingArrives(list);
    } else {
      var init, page := pages[..|pages| - 1], pages[|pages| - 1];
      assert pages == init + [page];
      GapArrives(list, init, id);
      OneMorePage(list, init, page);
      MessageList.MergeHolds(MessageList.Arrived(list, Arrivals(init)), ReceivedAll(page), id);
      IdsReceived(page, id);
      PagedMore(init, page, id);
    }
  }

  lemma IdsReceived(page: seq<Message>, id: Id)
    ensures OnPage(page, id) <==> MessageList.Holds(ReceivedAll(page), id)
  {
    if OnPage(page, id) {
      var k :| 0 <= k < |page| && page[k].id == id;
      assert ReceivedAll(page)[k].id == id;
    }
  }

  lemma PagedMore(init: seq<seq<Message>>, page: seq<Message>, id: Id)
    ensures Paged(init + [page], id) <==> Paged(init, id) || OnPage(page, id)
  {
    hide OnPage;
    var pages := init + [page];
    assert pages[|init|] == page && forall p :: 0 <= p < |init| ==> pages[p] == init[p];
  }

  lemma InlineIsHeld(list: seq<MessageList.Msg>, es: seq<MessageList.Arrival>, c: ContainerId, inline: seq<Message>,
                     pages: seq<seq<Message>>, m: Message)
    requires Delivers(es, c, inline, pages) && m in inline && m.row.container == c
    ensures MessageList.Holds(MessageList.Arrived(list, es), m.id)
  {
    ContentsOf(es, MessageList.Pushed(Received(m)));
    assert Received(m) in MessageList.Contents(es);
    ArrivedIsHeld(list, es, m.id);
  }

  lemma PagedIsHeld(list: seq<MessageList.Msg>, es: seq<MessageList.Arrival>, c: ContainerId, inline: seq<Message>,
                    pages: seq<seq<Message>>, id: Id)
    requires Delivers(es, c, inline, pages) && Paged(pages, id)
    ensures MessageList.Holds(MessageList.Arrived(list, es), id)
  {
    hide MessageList.Arrived, MessageList.Contents, OnPage, ReceivedAll, MessageList.Elements;
    var p :| 0 <= p < |pages| && OnPage(pages[p], id);
    ContentsOf(es, MessageList.Page(ReceivedAll(pages[p])));
    PagedIsReceived(pages[p], id);
    ArrivedIsHeld(list, es, id);
  }

  /**
   Reconnecting brings back what was missed: a message that stays on the timeline while the client catches up
   is in the client's list in the end, whether it was replayed in line or paged in, and whatever else arrives
   before, between and after, if the pages before the first failure have room for the gap.
   */
  lemma ReconnectIsComplete(views: seq<View>, cursors: Cursors, tables: Tables, i: nat, m: Message,
                            answers: Answers, q: nat, list: seq<MessageList.Msg>, es: seq<MessageList.Arrival>)
    requires CatchUp.Readable(views, tables) && DistinctViews(views) && i < |views| && InRange(views[i], cursors)
    requires AllAnswered(views, cursors, tables)
    requires var v := views[i];
             && m.row.container == v.id && Missed(v, cursors, Num(m)) && cursors[v.id] >= 0
             && (tables[i].Some? ==> m in TimelineOf(tables[i].value, v.id))
             && Backfill.Readable(answers, v.id) && q <= 40
             && AlwaysPresent(answers, q, v.id, m.id, Num(m))
             && forall g :: g in GapsOf(views, cursors) && g.container == v.id ==>
                  q > 0 && |Numbers(answers, q, g)| <= 50 * q
    requires forall g :: g in GapsOf(views, cursors) && g.container == views[i].id ==>
               Delivers(es, views[i].id, InlineOf(views, cursors, tables), Pages(answers, g))
    requires Delivers(es, views[i].id, InlineOf(views, cursors, tables), [])
    ensures MessageList.Holds(MessageList.Arrived(list, es), m.id)
  {
    hide TimelineOf, Distinct, InlineOf, GapsOf, Delivers, Numbers, Pages, MessageList.Arrived, Present, AlwaysPresent;
    var c, inline := views[i].id, InlineOf(views, cursors, tables);
    MissedIsDelivered(views, cursors, tables, i, m);
    if m in inline {
      InlineIsHeld(list, es, c, inline, [], m);
    } else {
      var k :| 0 <= k < |GapsOf(views, cursors)| && Covers(GapsOf(views, cursors)[k], c, Num(m));
      var g := GapsOf(views, cursors)[k];
      GapIs(views, cursors, i, g);
      GapIsCovered(answers, q, g, m.id, Num(m));
      PagedIsHeld(list, es, c, inline, Pages(answers, g), m.id);
    }
  }

  lemma GapIs(views: seq<View>, cursors: Cursors, j: nat, g: Gap)
    requires DistinctViews(views) && j < |views| && g in GapsOf(views, cursors) && g.container == views[j].id
    ensures views[j].id in cursors && g.from == cursors[views[j].id] + 1 && g.to == views[j].lastSeq
  {
    GapsAre(views, cursors, |views|, g);
  }

  // ---------- Over a run of the store ----------

  function Range(lo: nat, hi: nat): set<nat> {
    if hi <= lo then {} else Range(lo, hi - 1) + {hi}
  }

  lemma {:induction false} RangeIs(lo: nat, hi: nat)
    requires lo <= hi
    ensures |Range(lo, hi)| == hi - lo && forall n :: n in Range(lo, hi) <==> lo < n <= hi
    decreases hi
  {
    if lo < hi {
      RangeIs(lo, hi - 1);
    }
  }

  lemma NumbersAreInRange(answers: Answers, q: nat, gap: Gap)
    requires Start(gap) <= gap.to
    ensures |Numbers(answers, q, gap)| <= gap.to - Start(gap)
  {
    RangeIs(Start(gap), gap.to);
    SubsetSize(Numbers(answers, q, gap), Range(Start(gap), gap.to));
  }

  /** The page requests find the table at these states of the run, and the next one fails. */
  ghost function AnswersAt(ws: seq<World>, ps: seq<nat>): (answers: Answers)
    requires |ps| <= 40 && forall p :: 0 <= p < |ps| ==> ps[p] < |ws|
    ensures |answers| == 40 && FailsAfter(answers, |ps|)
    ensures forall p :: 0 <= p < |ps| ==> answers[p] == Some(ws[ps[p]].db)
    ensures forall p :: |ps| <= p < 40 ==> answers[p].None?
  {
    TablesAt(ws, ps) + seq(40 - |ps|, _ => None)
  }

  lemma PagesOfARun(ws: seq<World>, i: nat, ps: seq<nat>, id: Id)
    requires MessageStore.IsRun(ws) && i < |ws| && |ps| <= 40
    requires forall p :: 0 <= p < |ps| ==> i <= ps[p] < |ws| && id in ws[ps[p]].db.rows
    requires id in ws[i].db.rows && ws[i].db.rows[id].threadRoot.None?
    ensures var row := ws[i].db.rows[id];
            && Backfill.Readable(AnswersAt(ws, ps), row.container)
            && AlwaysPresent(AnswersAt(ws, ps), |ps|, row.container, id, row.seqNo)
  {
    hide MessageStore.IsRun, Distinct, AnswersAt;
    var row := ws[i].db.rows[id];
    forall p | 0 <= p < |ps|
      ensures Distinct(TimelineOf(ws[ps[p]].db, row.container)) && Present(ws[ps[p]].db, row.container, id, row.seqNo)
    {
      StoreNumbersAreDistinct(ws, ps[p], row.container);
      StaysOnTimeline(ws, i, ps[p], id);
    }
  }

  /**
   In every run: a client ends up with every message that it missed in a container and that exists until it has
   caught up, if the range that it missed is replayed in line, or has no more numbers than the pages before the
   first failure can hold.
   */
  lemma ReconnectOverARun(ws: seq<World>, i: nat, ks: seq<nat>, cs: seq<ContainerId>, cursors: Cursors, j: nat,
                          id: Id, ps: seq<nat>, list: seq<MessageList.Msg>, es: seq<MessageList.Arrival>)
    requires MessageStore.IsRun(ws) && i < |ws| && |ks| == |cs| && j < |cs| && |ps| <= 40
    requires forall x :: 0 <= x < |ks| ==> i <= ks[x] < |ws|
    requires forall p :: 0 <= p < |ps| ==> i <= ps[p] < |ws| && id in ws[ps[p]].db.rows
    requires forall x :: 0 <= x < |cs| ==> cs[x] in ws[i].db.lastSeq
    requires DistinctViews(ViewsAt(ws[i].db, cs)) && InRange(ViewsAt(ws[i].db, cs)[j], cursors)
    requires id in ws[i].db.rows && ws[i].db.rows[id].container == cs[j] && ws[i].db.rows[id].threadRoot.None?
    requires id in ws[ks[j]].db.rows
    requires cs[j] in cursors && 0 <= cursors[cs[j]] < ws[i].db.rows[id].seqNo
    requires var missed := ws[i].db.lastSeq[cs[j]] - cursors[cs[j]];
             missed <= 100 || missed <= 50 * |ps|
    requires CatchUp.Readable(ViewsAt(ws[i].db, cs), TablesAt(ws, ks))
    requires Backfill.Readable(AnswersAt(ws, ps), cs[j])
    requires var inline := InlineOf(ViewsAt(ws[i].db, cs), cursors, TablesAt(ws, ks));
             && Delivers(es, cs[j], inline, [])
             && forall g :: g in GapsOf(ViewsAt(ws[i].db, cs), cursors) && g.container == cs[j] ==>
                  Delivers(es, cs[j], inline, Pages(AnswersAt(ws, ps), g))
    ensures MessageList.Holds(MessageList.Arrived(list, es), id)
  {
    hide MessageStore.IsRun, InlineOf, GapsOf, Delivers, Numbers, Pages, MessageList.Arrived, MessageList.Holds,
         Present, AlwaysPresent, TimelineOf, Distinct, CatchUp.Readable, Backfill.Readable, AllAnswered, AnswersAt;
    var views, tables, answers := ViewsAt(ws[i].db, cs), TablesAt(ws, ks), AnswersAt(ws, ps);
    RunIsReadable(ws, i, ks, cs, cursors);
    StaysOnTimeline(ws, i, ks[j], id);
    PagesOfARun(ws, i, ps, id);
    forall g | g in GapsOf(views, cursors) && g.container == cs[j]
      ensures |ps| > 0 && |Numbers(answers, |ps|, g)| <= 50 * |ps|
    {
      GapIs(views, cursors, j, g);
      GapIsLong(views, cursors, j, g);
      NumbersAreInRange(answers, |ps|, g);
    }
    ReconnectIsComplete(views, cursors, tables, j, Message(id, ws[ks[j]].db.rows[id]), answers, |ps|, list, es);
  }

  lemma GapIsLong(views: seq<View>, cursors: Cursors, j: nat, g: Gap)
    requires DistinctViews(views) && j < |views| && g in GapsOf(views, cursors) && g.container == views[j].id
    requires InRange(views[j], cursors) && views[j].id in cursors && cursors[views[j].id] >= 0
    ensures views[j].lastSeq - cursors[views[j].id] > 100
  {
    GapsAre(views, cursors, |views|, g);
  }

  // ---------- What a failed page costs ----------

  /**
   On ready the client takes over the last number of every view, before it pages anything in; a message that is
   pushed only raises it, and the next connection sends it as the cursor.
   */
  predicate TakenOver(views: seq<View>, cursors: Cursors) {
    forall i :: 0 <= i < |views| ==> views[i].id in cursors && cursors[views[i].id] >= views[i].lastSeq
  }

  /** The next connection does not deliver what the views of this one have told of. */
  lemma NotAskedForAgain(views: seq<View>, i: nat, nextViews: seq<View>, nextCursors: Cursors, nextTables: Tables,
                         j: nat, m: Message)
    requires TakenOver(views, nextCursors) && i < |views|
    requires m.row.container == views[i].id && Num(m) <= views[i].lastSeq
    requires CatchUp.Readable(nextViews, nextTables) && DistinctViews(nextViews) && j < |nextViews|
    requires AllAnswered(nextViews, nextCursors, nextTables) && nextViews[j].id == views[i].id
    ensures m !in InlineOf(nextViews, nextCursors, nextTables)
    ensures !InGap(GapsOf(nextViews, nextCursors), views[i].id, Num(m))
  {
    hide InlineOf, GapsOf, InGap, CatchUp.Readable, AllAnswered;
    OnlyMissedIsDelivered(nextViews, nextCursors, nextTables, j, m, Num(m));
  }

  /**
   A gap with more messages than the pages before the first failure can hold loses a message: it is on no page,
   and the next connection neither replays it nor tells of a gap that has it.
   */
  lemma FailedPageLoses(views: seq<View>, cursors: Cursors, i: nat, gap: Gap, answers: Answers, q: nat, db: DB,
                        nextViews: seq<View>, nextCursors: Cursors, nextTables: Tables, j: nat)
    requires DistinctViews(views) && i < |views| && gap in GapsOf(views, cursors) && gap.container == views[i].id
    requires Backfill.Readable(answers, gap.container) && StillFor(answers, q, db)
    requires Distinct(TimelineOf(db, gap.container))
    requires |Due(db, gap.container, Start(gap), gap.to)| > 50 * q
    requires TakenOver(views, nextCursors) && CatchUp.Readable(nextViews, nextTables) && DistinctViews(nextViews)
    requires AllAnswered(nextViews, nextCursors, nextTables) && j < |nextViews| && nextViews[j].id == views[i].id
    ensures exists m :: m in Due(db, gap.container, Start(gap), gap.to) && !Paged(Pages(answers, gap), m.id) &&
              m !in InlineOf(nextViews, nextCursors, nextTables) &&
              !InGap(GapsOf(nextViews, nextCursors), gap.container, Num(m))
  {
    hide TimelineOf, Distinct, InlineOf, GapsOf, InGap, Pages, Paged, CatchUp.Readable, Backfill.Readable, AllAnswered,
         TakenOver, StillFor;
    StillGapIsCovered(answers, q, db, gap);
    var m :| m in Due(db, gap.container, Start(gap), gap.to) && !Paged(Pages(answers, gap), m.id);
    GapIs(views, cursors, i, gap);
    DueIn(db, gap, m);
    NotAskedForAgain(views, i, nextViews, nextCursors, nextTables, j, m);
  }

  lemma DueIn(db: DB, gap: Gap, m: Message)
    requires m in Due(db, gap.container, Start(gap), gap.to)
    ensures m.row.container == gap.container && Num(m) <= gap.to
  {
  }

  /** The answers of a client whose second page request fails. */
  function OneAnswer(db: DB): Answers {
    [Some(db)] + seq(39, _ => None)
  }

  /** A gap of 150 messages whose second page fails: a message of it is lost, though the next connection succeeds. */
  lemma SecondPageFails(c: ContainerId)
    ensures var db, views := Stocked(c, 150), [View(c, 150)]; var gap := Gap(c, 1, 150);
            && GapsOf(views, map[c := 0]) == [gap] && Backfill.Readable(OneAnswer(db), c)
            && CatchUp.Readable(views, [Some(db)])
            && exists m :: m in TimelineOf(db, c) && 1 <= Num(m) <= 150 && !Paged(Pages(OneAnswer(db), gap), m.id) &&
                 m !in InlineOf(views, map[c := 150], [Some(db)]) && !InGap(GapsOf(views, map[c := 150]), c, Num(m))
  {
    hide Stocked, Distinct, Pages, Paged, InGap;
    var db, views, gap := Stocked(c, 150), [View(c, 150)], Gap(c, 1, 150);
    StockIsDue(c, 150, 0);
    assert GapsUpTo(views, map[c := 0], 0) == [];
    assert GapsOf(views, map[c := 0]) == [gap];
    FailedPageLoses(views, map[c := 0], 0, gap, OneAnswer(db), 1, db, views, map[c := 150], [Some(db)], 0);
    var m :| m in Due(db, c, 0, 150) && !Paged(Pages(OneAnswer(db), gap), m.id) &&
             m !in InlineOf(views, map[c := 150], [Some(db)]) && !InGap(GapsOf(views, map[c := 150]), c, Num(m));
  }
}
