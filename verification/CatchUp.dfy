/**
 The answer to a client that reconnects with a cursor per container (internal/app/handler.go): a short range
 of missed numbers is replayed in line, a long one is reported as a gap.
 */
module CatchUp {
  import opened Wrappers
  import opened Int64
  import opened MessageStore
  import opened Timeline

  const INLINE_GAP_LIMIT := 100

  /** A container as the user sees it, with its last number when the views were read. */
  datatype View = View(id: ContainerId, lastSeq: int)

  datatype Gap = Gap(container: ContainerId, from: int, to: int)

  /** What the handler does for one container. */
  datatype Plan = Nothing | AsGap(gap: Gap) | AsPage(after: int, limit: int)

  type Cursors = map<ContainerId, int>

  function PlanFor(v: View, cursors: Cursors): Plan {
    if v.id !in cursors || v.lastSeq <= cursors[v.id] then Nothing
    else if Wrap(v.lastSeq - cursors[v.id]) > INLINE_GAP_LIMIT then AsGap(Gap(v.id, cursors[v.id] + 1, v.lastSeq))
    else AsPage(cursors[v.id], Wrap(v.lastSeq - cursors[v.id]))
  }

  /** The gaps for the first n containers. */
  function GapsUpTo(views: seq<View>, cursors: Cursors, n: nat): seq<Gap>
    requires n <= |views|
  {
    if n == 0 then []
    else
      var plan := PlanFor(views[n - 1], cursors);
      var before := GapsUpTo(views, cursors, n - 1);
      if plan.AsGap? then before + [plan.gap] else before
  }

  function GapsOf(views: seq<View>, cursors: Cursors): seq<Gap> {
    GapsUpTo(views, cursors, |views|)
  }

  /**
   The table as the query for each view finds it, which may be later than when the views were read;
   None where the query fails.
   */
  type Tables = seq<Option<DB>>

  predicate Answered(v: View, cursors: Cursors, table: Option<DB>) {
    PlanFor(v, cursors).AsPage? ==> table.Some?
  }

  ghost predicate Readable(views: seq<View>, tables: Tables) {
    && |tables| == |views|
    && forall i :: 0 <= i < |views| && tables[i].Some? ==> Distinct(TimelineOf(tables[i].value, views[i].id))
  }

  predicate AllAnswered(views: seq<View>, cursors: Cursors, tables: Tables)
    requires |tables| == |views|
  {
    forall i :: 0 <= i < |views| ==> Answered(views[i], cursors, tables[i])
  }

  function PageOf(v: View, cursors: Cursors, table: Option<DB>): seq<Message>
    requires table.Some? ==> Distinct(TimelineOf(table.value, v.id))
  {
    var plan := PlanFor(v, cursors);
    if plan.AsPage? && table.Some? then TimelineAfter(table.value, v.id, plan.after, plan.limit) else []
  }

  function InlineUpTo(views: seq<View>, cursors: Cursors, tables: Tables, n: nat): seq<Message>
    requires Readable(views, tables) && n <= |views|
  {
    if n == 0 then []
    else InlineUpTo(views, cursors, tables, n - 1) + PageOf(views[n - 1], cursors, tables[n - 1])
  }

  function InlineOf(views: seq<View>, cursors: Cursors, tables: Tables): seq<Message>
    requires Readable(views, tables)
  {
    InlineUpTo(views, cursors, tables, |views|)
  }

  // ---------- The handler ----------

  method Ready(views: seq<View>, cursors: Cursors, tables: Tables) returns (r: Option<(seq<Gap>, seq<Message>)>)
    requires Readable(views, tables)
    ensures r.Some? <==> AllAnswered(views, cursors, tables)
    ensures r.Some? ==> r.value == (GapsOf(views, cursors), InlineOf(views, cursors, tables))
  {
    hide TimelineOf, Distinct, TimelineAfter, Wrap;
    var gaps: seq<Gap>, inline: seq<Message> := [], [];
    for i := 0 to |views|
      invariant forall k :: 0 <= k < i ==> Answered(views[k], cursors, tables[k])
      invariant gaps == GapsUpTo(views, cursors, i) && inline == InlineUpTo(views, cursors, tables, i)
    {
      var v := views[i];
      if v.id !in cursors || v.lastSeq <= cursors[v.id] {
        continue;
      }
      var cursor := cursors[v.id];
      if Wrap(v.lastSeq - cursor) > INLINE_GAP_LIMIT {
        gaps := gaps + [Gap(v.id, cursor + 1, v.lastSeq)];
        continue;
      }
      if tables[i].None? {
        return None;
      }
      inline := inline + TimelineAfter(tables[i].value, v.id, cursor, Wrap(v.lastSeq - cursor));
    }
    return Some((gaps, inline));
  }

  // ---------- What the client gets ----------

  predicate Covers(g: Gap, c: ContainerId, n: int) {
    g.container == c && g.from <= n <= g.to
  }

  predicate InGap(gaps: seq<Gap>, c: ContainerId, n: int) {
    exists k :: 0 <= k < |gaps| && Covers(gaps[k], c, n)
  }

  predicate DistinctViews(views: seq<View>) {
    forall i, j :: 0 <= i < j < |views| ==> views[i].id != views[j].id
  }

  /** Cursors and numbers are 64-bit. */
  predicate InRange(v: View, cursors: Cursors) {
    Fits(v.lastSeq) && (v.id in cursors ==> Fits(cursors[v.id]))
  }

  /** The number is one that the client has missed. */
  predicate Missed(v: View, cursors: Cursors, n: int) {
    v.id in cursors && cursors[v.id] < n <= v.lastSeq
  }

  lemma {:induction false} GapsAre(views: seq<View>, cursors: Cursors, n: nat, g: Gap)
    requires n <= |views|
    ensures g in GapsUpTo(views, cursors, n) <==> exists i :: 0 <= i < n && PlanFor(views[i], cursors) == AsGap(g)
  {
    hide PlanFor;
    if n > 0 {
      GapsAre(views, cursors, n - 1, g);
    }
  }

  lemma {:induction false} InlineIs(views: seq<View>, cursors: Cursors, tables: Tables, n: nat, m: Message)
    requires Readable(views, tables) && n <= |views|
    ensures m in InlineUpTo(views, cursors, tables, n) <==>
            exists i :: 0 <= i < n && m in PageOf(views[i], cursors, tables[i])
  {
    hide PageOf, Distinct, TimelineOf;
    if n > 0 {
      InlineIs(views, cursors, tables, n - 1, m);
    }
  }

  lemma {:induction false} GapsAreDistinct(views: seq<View>, cursors: Cursors, n: nat)
    requires DistinctViews(views) && n <= |views|
    ensures forall j, k :: 0 <= j < k < |GapsUpTo(views, cursors, n)| ==>
              GapsUpTo(views, cursors, n)[j].container != GapsUpTo(views, cursors, n)[k].container
  {
    if n > 0 {
      var before := GapsUpTo(views, cursors, n - 1);
      GapsAreDistinct(views, cursors, n - 1);
      forall k | 0 <= k < |before| ensures before[k].container != views[n - 1].id {
        GapsAre(views, cursors, n - 1, before[k]);
      }
    }
  }

  lemma PageIsOfItsView(v: View, cursors: Cursors, table: Option<DB>, m: Message)
    requires table.Some? ==> Distinct(TimelineOf(table.value, v.id))
    requires m in PageOf(v, cursors, table)
    ensures PlanFor(v, cursors).AsPage? && table.Some? && m in TimelineOf(table.value, v.id) && m.row.container == v.id
    ensures Num(m) > cursors[v.id]
  {
    hide TimelineAfter, Distinct;
    AfterIs(table.value, v.id, cursors[v.id], Wrap(v.lastSeq - cursors[v.id]));
  }

  /** A missed number is planned for exactly once. */
  lemma MissedIsPlanned(v: View, cursors: Cursors, n: int)
    requires InRange(v, cursors) && Missed(v, cursors, n)
    ensures PlanFor(v, cursors).AsGap? || PlanFor(v, cursors).AsPage?
    ensures PlanFor(v, cursors).AsGap? ==> Covers(PlanFor(v, cursors).gap, v.id, n)
  {
  }

  lemma InlineOfView(views: seq<View>, cursors: Cursors, tables: Tables, i: nat, m: Message)
    requires Readable(views, tables) && DistinctViews(views) && i < |views|
    requires AllAnswered(views, cursors, tables)
    requires m.row.container == views[i].id
    ensures m in InlineOf(views, cursors, tables) <==> m in PageOf(views[i], cursors, tables[i])
  {
    hide PageOf, Distinct, TimelineOf, Answered, InlineUpTo, PlanFor;
    InlineIs(views, cursors, tables, |views|, m);
    forall k | 0 <= k < |views| && m in PageOf(views[k], cursors, tables[k]) ensures k == i {
      PageIsOfItsView(views[k], cursors, tables[k], m);
    }
  }

  lemma GapOfView(views: seq<View>, cursors: Cursors, i: nat, n: int)
    requires DistinctViews(views) && i < |views| && InRange(views[i], cursors) && Missed(views[i], cursors, n)
    ensures InGap(GapsOf(views, cursors), views[i].id, n) <==> PlanFor(views[i], cursors).AsGap?
  {
    var gaps := GapsOf(views, cursors);
    MissedIsPlanned(views[i], cursors, n);
    if PlanFor(views[i], cursors).AsGap? {
      GapsAre(views, cursors, |views|, PlanFor(views[i], cursors).gap);
    }
    forall k | 0 <= k < |gaps| && gaps[k].container == views[i].id ensures PlanFor(views[i], cursors).AsGap? {
      GapsAre(views, cursors, |views|, gaps[k]);
    }
  }

  /**
   Catching up is complete: a message that the client has missed, and that is on the timeline when its
   container is read, is in line when the range is short, and else in a gap, and in no more than one gap.
   Messages that have come in since the views were read do not push it out.
   */
  lemma MissedIsDelivered(views: seq<View>, cursors: Cursors, tables: Tables, i: nat, m: Message)
    requires Readable(views, tables) && DistinctViews(views) && i < |views| && InRange(views[i], cursors)
    requires AllAnswered(views, cursors, tables)
    requires m.row.container == views[i].id && Missed(views[i], cursors, Num(m))
    requires tables[i].Some? ==> m in TimelineOf(tables[i].value, views[i].id)
    requires Fits(views[i].lastSeq - cursors[views[i].id])
    ensures m in InlineOf(views, cursors, tables) <==> views[i].lastSeq - cursors[views[i].id] <= 100
    ensures InGap(GapsOf(views, cursors), views[i].id, Num(m)) <==> views[i].lastSeq - cursors[views[i].id] > 100
    ensures forall j, k :: 0 <= j < k < |GapsOf(views, cursors)| ==>
              !(Covers(GapsOf(views, cursors)[j], views[i].id, Num(m)) &&
                Covers(GapsOf(views, cursors)[k], views[i].id, Num(m)))
  {
    hide InlineUpTo, GapsUpTo, InGap, TimelineOf, Distinct, TimelineAfter;
    GapsAreDistinct(views, cursors, |views|);
    InlineOfView(views, cursors, tables, i, m);
    GapOfView(views, cursors, i, Num(m));
    MissedIsPlanned(views[i], cursors, Num(m));
    if PlanFor(views[i], cursors).AsPage? {
      PageReaches(tables[i].value, views[i].id, cursors[views[i].id],
                  views[i].lastSeq - cursors[views[i].id], m);
    }
  }

  /**
   Nothing at or below a cursor is delivered: what is in line is on the timeline and numbered above the cursor, and
   a gap covers only numbers above it, up to the last.
   */
  lemma OnlyMissedIsDelivered(views: seq<View>, cursors: Cursors, tables: Tables, i: nat, m: Message, n: int)
    requires Readable(views, tables) && DistinctViews(views) && i < |views| && AllAnswered(views, cursors, tables)
    requires m.row.container == views[i].id
    ensures m in InlineOf(views, cursors, tables) ==>
              && views[i].id in cursors && cursors[views[i].id] < Num(m)
              && tables[i].Some? && m in TimelineOf(tables[i].value, views[i].id)
    ensures InGap(GapsOf(views, cursors), views[i].id, n) ==> Missed(views[i], cursors, n)
  {
    hide TimelineOf, Distinct, InlineUpTo, PageOf;
    InlineOfView(views, cursors, tables, i, m);
    if m in InlineOf(views, cursors, tables) {
      PageIsOfItsView(views[i], cursors, tables[i], m);
    }
    var gaps := GapsOf(views, cursors);
    forall k | 0 <= k < |gaps| && Covers(gaps[k], views[i].id, n) ensures Missed(views[i], cursors, n) {
      GapsAre(views, cursors, |views|, gaps[k]);
    }
  }

  /** The gaps reported are those of the containers with more than 100 missed numbers, from the cursor to the last. */
  lemma GapsExactly(views: seq<View>, cursors: Cursors, g: Gap)
    requires forall i :: 0 <= i < |views| ==> InRange(views[i], cursors)
    ensures g in GapsOf(views, cursors) <==> exists i :: 0 <= i < |views| && IsGapOf(views[i], cursors, g)
  {
    hide GapsUpTo, PlanFor, InRange, IsGapOf;
    GapsAre(views, cursors, |views|, g);
    forall i | 0 <= i < |views| ensures PlanFor(views[i], cursors) == AsGap(g) <==> IsGapOf(views[i], cursors, g) {
      PlanIsGap(views[i], cursors, g);
    }
  }

  predicate IsGapOf(v: View, cursors: Cursors, g: Gap) {
    && v.id in cursors && 100 < v.lastSeq - cursors[v.id] < 0x8000_0000_0000_0000
    && g.container == v.id && g.from == cursors[v.id] + 1 && g.to == v.lastSeq
  }

  lemma PlanIsGap(v: View, cursors: Cursors, g: Gap)
    requires InRange(v, cursors)
    ensures PlanFor(v, cursors) == AsGap(g) <==> IsGapOf(v, cursors, g)
  {
  }

  /** The container is read: its last number is above the cursor, by no more than 100 or by 2^63 or more. */
  predicate IsRead(v: View, cursors: Cursors) {
    && v.id in cursors && cursors[v.id] < v.lastSeq
    && !(100 < v.lastSeq - cursors[v.id] < 0x8000_0000_0000_0000)
  }

  /** The handler fails exactly when one of the containers that it reads cannot be read. */
  lemma AllAnsweredExactly(views: seq<View>, cursors: Cursors, tables: Tables)
    requires |tables| == |views| && forall i :: 0 <= i < |views| ==> InRange(views[i], cursors)
    ensures AllAnswered(views, cursors, tables) <==>
            forall i :: 0 <= i < |views| && IsRead(views[i], cursors) ==> tables[i].Some?
  {
    hide PlanFor, InRange, IsRead;
    forall i | 0 <= i < |views| ensures PlanFor(views[i], cursors).AsPage? <==> IsRead(views[i], cursors) {
      PlanIsPage(views[i], cursors);
    }
  }

  lemma PlanIsPage(v: View, cursors: Cursors)
    requires InRange(v, cursors)
    ensures PlanFor(v, cursors).AsPage? <==> IsRead(v, cursors)
    ensures IsRead(v, cursors) ==>
              PlanFor(v, cursors) ==
              AsPage(cursors[v.id], if v.lastSeq - cursors[v.id] <= 100 then v.lastSeq - cursors[v.id]
                                    else v.lastSeq - cursors[v.id] - 0x1_0000_0000_0000_0000)
  {
  }

  /** In line is the page after the cursor of each container that is read, and nothing else. */
  lemma InlineExactly(views: seq<View>, cursors: Cursors, tables: Tables, m: Message)
    requires Readable(views, tables) && forall i :: 0 <= i < |views| ==> InRange(views[i], cursors)
    ensures m in InlineOf(views, cursors, tables) <==>
            exists i :: 0 <= i < |views| && OnPageOf(views[i], cursors, tables[i], m)
  {
    hide PageOf, InlineUpTo, Distinct, TimelineOf, OnPageOf, InRange;
    InlineIs(views, cursors, tables, |views|, m);
    forall i | 0 <= i < |views|
      ensures m in PageOf(views[i], cursors, tables[i]) <==> OnPageOf(views[i], cursors, tables[i], m)
    {
      OnPageExactly(views[i], cursors, tables[i], m);
    }
  }

  /** The page has as many messages as numbers were missed; a difference of 2^63 or more comes out negative. */
  predicate OnPageOf(v: View, cursors: Cursors, table: Option<DB>, m: Message)
    requires table.Some? ==> Distinct(TimelineOf(table.value, v.id))
  {
    && IsRead(v, cursors) && table.Some?
    && var missed := v.lastSeq - cursors[v.id];
       m in TimelineAfter(table.value, v.id, cursors[v.id],
                          if missed <= 100 then missed else missed - 0x1_0000_0000_0000_0000)
  }

  lemma OnPageExactly(v: View, cursors: Cursors, table: Option<DB>, m: Message)
    requires (table.Some? ==> Distinct(TimelineOf(table.value, v.id))) && InRange(v, cursors)
    ensures m in PageOf(v, cursors, table) <==> OnPageOf(v, cursors, table, m)
  {
    hide TimelineAfter, TimelineOf, Distinct, PlanFor;
    PlanIsPage(v, cursors);
  }

  /** Two messages in line are in the order of their containers, or in that of their numbers within one. */
  ghost predicate InTurn(views: seq<View>, m: Message, next: Message) {
    exists a, b :: 0 <= a <= b < |views| && m.row.container == views[a].id && next.row.container == views[b].id &&
                   (a == b ==> m.row.seqNo < next.row.seqNo)
  }

  lemma {:induction false} InlineUpToInOrder(views: seq<View>, cursors: Cursors, tables: Tables, n: nat)
    requires Readable(views, tables) && n <= |views|
    ensures forall i, j :: 0 <= i < j < |InlineUpTo(views, cursors, tables, n)| ==>
              InTurn(views, InlineUpTo(views, cursors, tables, n)[i], InlineUpTo(views, cursors, tables, n)[j])
  {
    hide PageOf, Distinct, TimelineOf, InTurn;
    if n > 0 {
      var before, page := InlineUpTo(views, cursors, tables, n - 1), PageOf(views[n - 1], cursors, tables[n - 1]);
      InlineUpToInOrder(views, cursors, tables, n - 1);
      var all := before + page;
      forall i, j | 0 <= i < j < |all| && j >= |before| ensures InTurn(views, all[i], all[j]) {
        if i < |before| {
          InlineIs(views, cursors, tables, n - 1, all[i]);
          assert all[i] in before;
          var a :| 0 <= a < n - 1 && all[i] in PageOf(views[a], cursors, tables[a]);
          PageIsOfItsView(views[a], cursors, tables[a], all[i]);
          PageIsOfItsView(views[n - 1], cursors, tables[n - 1], page[j - |before|]);
          AreInTurn(views, all[i], all[j], a, n - 1);
        } else {
          PageInTurn(views, cursors, tables[n - 1], n - 1, i - |before|, j - |before|);
        }
      }
    }
  }

  lemma AreInTurn(views: seq<View>, m: Message, next: Message, a: nat, b: nat)
    requires a <= b < |views| && m.row.container == views[a].id && next.row.container == views[b].id
    requires a == b ==> m.row.seqNo < next.row.seqNo
    ensures InTurn(views, m, next)
  {
  }

  lemma PageInTurn(views: seq<View>, cursors: Cursors, table: Option<DB>, n: nat, i: nat, j: nat)
    requires n < |views| && (table.Some? ==> Distinct(TimelineOf(table.value, views[n].id)))
    requires i < j < |PageOf(views[n], cursors, table)|
    ensures InTurn(views, PageOf(views[n], cursors, table)[i], PageOf(views[n], cursors, table)[j])
  {
    hide TimelineOf, Distinct, TimelineAfter, InTurn, Wrap;
    var page := PageOf(views[n], cursors, table);
    AfterIs(table.value, views[n].id, cursors[views[n].id], Wrap(views[n].lastSeq - cursors[views[n].id]));
    PageIsOfItsView(views[n], cursors, table, page[i]);
    PageIsOfItsView(views[n], cursors, table, page[j]);
    AreInTurn(views, page[i], page[j], n, n);
  }

  /** What is in line comes container by container, and in ascending order within each. */
  lemma InlineInOrder(views: seq<View>, cursors: Cursors, tables: Tables, i: nat, j: nat)
    requires Readable(views, tables) && i < j < |InlineOf(views, cursors, tables)|
    ensures InTurn(views, InlineOf(views, cursors, tables)[i], InlineOf(views, cursors, tables)[j])
  {
    hide InlineUpTo, Readable, InTurn;
    InlineUpToInOrder(views, cursors, tables, |views|);
  }

  // ---------- Over a run of the store ----------

  /** The views of some containers, as the store has them. */
  function ViewsAt(db: DB, cs: seq<ContainerId>): (views: seq<View>)
    requires forall x :: 0 <= x < |cs| ==> cs[x] in db.lastSeq
    ensures |views| == |cs| && forall x :: 0 <= x < |cs| ==> views[x] == View(cs[x], db.lastSeq[cs[x]])
  {
    seq(|cs|, x requires 0 <= x < |cs| => View(cs[x], db.lastSeq[cs[x]]))
  }

  /** The tables as the queries find them, each at a state of the run. */
  ghost function TablesAt(ws: seq<World>, ks: seq<nat>): (tables: Tables)
    requires forall x :: 0 <= x < |ks| ==> ks[x] < |ws|
    ensures |tables| == |ks| && forall x :: 0 <= x < |ks| ==> tables[x] == Some(ws[ks[x]].db)
  {
    seq(|ks|, x requires 0 <= x < |ks| => Some(ws[ks[x]].db))
  }

  /** A message of the timeline stays on it, under its number, for as long as it exists. */
  lemma StaysOnTimeline(ws: seq<World>, i: nat, k: nat, id: Id)
    requires IsRun(ws) && i <= k < |ws| && id in ws[i].db.rows && id in ws[k].db.rows
    requires ws[i].db.rows[id].threadRoot.None?
    ensures var row := ws[i].db.rows[id]; var m := Message(id, ws[k].db.rows[id]);
            && m in TimelineOf(ws[k].db, row.container) && m.row.container == row.container && Num(m) == row.seqNo
            && row.container in ws[i].db.lastSeq && row.seqNo <= ws[i].db.lastSeq[row.container]
  {
    hide IsRun, Inv;
    RowRemains(ws, i, k, id);
    RunKeepsInv(ws, i);
    NumberOfRow(ws[i], id, ws[i]);
  }

  lemma RunIsReadable(ws: seq<World>, i: nat, ks: seq<nat>, cs: seq<ContainerId>, cursors: Cursors)
    requires IsRun(ws) && i < |ws| && |ks| == |cs| && forall x :: 0 <= x < |ks| ==> ks[x] < |ws|
    requires forall x :: 0 <= x < |cs| ==> cs[x] in ws[i].db.lastSeq
    ensures Readable(ViewsAt(ws[i].db, cs), TablesAt(ws, ks))
    ensures AllAnswered(ViewsAt(ws[i].db, cs), cursors, TablesAt(ws, ks))
  {
    hide IsRun, Distinct, TimelineOf;
    forall x | 0 <= x < |cs| ensures Distinct(TimelineOf(ws[ks[x]].db, cs[x])) {
      StoreNumbersAreDistinct(ws, ks[x], cs[x]);
    }
  }

  /**
   In every run: a message on the timeline when the views are read is either in line or in a gap, if it still
   exists when its container is read, whatever happens to the store in between.
   */
  lemma ReadyOverARun(ws: seq<World>, i: nat, ks: seq<nat>, cs: seq<ContainerId>, cursors: Cursors, j: nat, id: Id)
    requires IsRun(ws) && i < |ws| && |ks| == |cs| && j < |cs|
    requires forall x :: 0 <= x < |ks| ==> i <= ks[x] < |ws|
    requires forall x :: 0 <= x < |cs| ==> cs[x] in ws[i].db.lastSeq
    requires DistinctViews(ViewsAt(ws[i].db, cs)) && InRange(ViewsAt(ws[i].db, cs)[j], cursors)
    requires id in ws[i].db.rows && ws[i].db.rows[id].container == cs[j] && ws[i].db.rows[id].threadRoot.None?
    requires cs[j] in cursors && cursors[cs[j]] < ws[i].db.rows[id].seqNo && id in ws[ks[j]].db.rows
    requires Fits(ws[i].db.lastSeq[cs[j]] - cursors[cs[j]])
    ensures var views, tables := ViewsAt(ws[i].db, cs), TablesAt(ws, ks);
            && Readable(views, tables) && AllAnswered(views, cursors, tables)
            && (Message(id, ws[ks[j]].db.rows[id]) in InlineOf(views, cursors, tables) <==>
                !InGap(GapsOf(views, cursors), cs[j], ws[i].db.rows[id].seqNo))
  {
    hide IsRun, InlineUpTo, GapsUpTo, InGap, TimelineOf, Distinct, Readable, AllAnswered;
    RunIsReadable(ws, i, ks, cs, cursors);
    StaysOnTimeline(ws, i, ks[j], id);
    MissedIsDelivered(ViewsAt(ws[i].db, cs), cursors, TablesAt(ws, ks), j, Message(id, ws[ks[j]].db.rows[id]));
  }

  // ---------- Where the difference does not fit ----------

  /**
   A cursor so far below the last number that the difference does not fit in 64 bits turns the limit negative,
   and a page of the default size is read in its place. All that was missed is delivered exactly when it fits.
   */
  lemma OverflowDelivers(views: seq<View>, cursors: Cursors, tables: Tables, i: nat)
    requires Readable(views, tables) && DistinctViews(views) && i < |views| && InRange(views[i], cursors)
    requires AllAnswered(views, cursors, tables)
    requires views[i].id in cursors && cursors[views[i].id] < views[i].lastSeq
    requires !Fits(views[i].lastSeq - cursors[views[i].id])
    ensures tables[i].Some?
    ensures (forall m :: m in Due(tables[i].value, views[i].id, cursors[views[i].id], views[i].lastSeq) ==>
               m in InlineOf(views, cursors, tables) || InGap(GapsOf(views, cursors), views[i].id, Num(m)))
            <==> |Due(tables[i].value, views[i].id, cursors[views[i].id], views[i].lastSeq)| <= 50
  {
    hide InlineOf, GapsOf, InGap, TimelineOf, Distinct, Due;
    var v, cursor := views[i], cursors[views[i].id];
    var limit := Wrap(v.lastSeq - cursor);
    OverflowIsNegative(v.lastSeq, cursor);
    var due := Due(tables[i].value, v.id, cursor, v.lastSeq);
    PageHoldsUpTo(tables[i].value, v.id, cursor, limit, v.lastSeq);
    forall m | m in due
      ensures m in InlineOf(views, cursors, tables) || InGap(GapsOf(views, cursors), v.id, Num(m)) <==>
              m in TimelineAfter(tables[i].value, v.id, cursor, limit)
    {
      DueIs(tables[i].value, v, cursor, m);
      InlineOfView(views, cursors, tables, i, m);
      GapOfView(views, cursors, i, Num(m));
    }
  }

  lemma DueIs(db: DB, v: View, cursor: int, m: Message)
    requires m in Due(db, v.id, cursor, v.lastSeq)
    ensures m.row.container == v.id && cursor < Num(m) <= v.lastSeq
  {
  }

  lemma OverflowIsNegative(last: int, cursor: int)
    requires Fits(last) && Fits(cursor) && cursor < last && !Fits(last - cursor)
    ensures Wrap(last - cursor) < 0
  {
  }

  // ---------- The case that is not complete ----------

  function PlainRow(c: ContainerId, n: nat): Row {
    Row(c, n, 0, "", None, None, "", false, 0, None, 0, None, None)
  }

  /** A container with messages 1 to k and nothing else. */
  function Stocked(c: ContainerId, k: nat): DB {
    DB(map[c := k], map n: nat | 1 <= n <= k :: PlainRow(c, n), {})
  }

  /** All of them are due after any number below 1. */
  lemma StockIsDue(c: ContainerId, k: nat, after: int)
    requires after <= 0
    ensures Distinct(TimelineOf(Stocked(c, k), c)) && |Due(Stocked(c, k), c, after, k)| >= k
  {
    var all := set n: nat | 1 <= n <= k :: Message(n, PlainRow(c, n));
    forall m | m in all ensures m in Due(Stocked(c, k), c, after, k) {
      assert m.id in Stocked(c, k).rows && m == Message(m.id, Stocked(c, k).rows[m.id]);
    }
    StockSize(c, k);
    SubsetSize(all, Due(Stocked(c, k), c, after, k));
  }

  lemma {:induction false} StockSize(c: ContainerId, k: nat)
    ensures |set n: nat | 1 <= n <= k :: Message(n, PlainRow(c, n))| == k
  {
    var s := set n: nat | 1 <= n <= k :: Message(n, PlainRow(c, n));
    if k == 0 {
      assert s == {};
    } else {
      StockSize(c, k - 1);
      var less := set n: nat | 1 <= n <= k - 1 :: Message(n, PlainRow(c, n));
      assert s == less + {Message(k, PlainRow(c, k))};
    }
  }

  /** With the lowest cursor there is, one of 51 messages is neither in line nor in a gap. */
  lemma LowestCursorLosesAMessage(c: ContainerId)
    ensures var views, cursors, tables := [View(c, 51)], map[c := MIN], [Some(Stocked(c, 51))];
            && Readable(views, tables) && Answered(views[0], cursors, tables[0])
            && exists m :: m in TimelineOf(Stocked(c, 51), c) && Missed(views[0], cursors, Num(m)) &&
                 m !in InlineOf(views, cursors, tables) && !InGap(GapsOf(views, cursors), c, Num(m))
  {
    hide Stocked;
    var views, cursors, tables := [View(c, 51)], map[c := MIN], [Some(Stocked(c, 51))];
    StockIsDue(c, 51, MIN);
    OverflowDelivers(views, cursors, tables, 0);
    var m :| m in Due(Stocked(c, 51), c, MIN, 51) &&
             m !in InlineOf(views, cursors, tables) && !InGap(GapsOf(views, cursors), c, Num(m));
  }
}
