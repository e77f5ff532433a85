/**
 The client's message lists (internal/server/static/js/store.js): place and upsertMessage put one message
 where it belongs, merge rewrites a list with a page of messages.
 */
module MessageList {
  import opened Wrappers

  type Key = nat

  /** A message with its id, its number (0 when it has none) and its other fields. */
  datatype Msg = Msg(id: nat, seqNo: nat, fields: map<string, string>)

  // ---------- Lists ----------

  predicate Sorted(list: seq<Msg>) {
    forall i, j :: 0 <= i < j < |list| ==> list[i].seqNo <= list[j].seqNo
  }

  predicate UniqueIds(list: seq<Msg>) {
    forall i, j :: 0 <= i < j < |list| ==> list[i].id != list[j].id
  }

  predicate Holds(list: seq<Msg>, id: nat) {
    exists i :: 0 <= i < |list| && list[i].id == id
  }

  /** The fields of m over those of x. */
  function Overlay(x: Msg, m: Msg): Msg {
    Msg(m.id, m.seqNo, x.fields + m.fields)
  }

  function Replaced(list: seq<Msg>, m: Msg): (out: seq<Msg>)
    ensures |out| == |list|
    ensures forall i :: 0 <= i < |list| ==> out[i] == if list[i].id == m.id then Overlay(list[i], m) else list[i]
  {
    seq(|list|, i requires 0 <= i < |list| => if list[i].id == m.id then Overlay(list[i], m) else list[i])
  }

  /** m after everything that does not come later, looking from the end. */
  function Insert(list: seq<Msg>, m: Msg): (out: seq<Msg>)
    ensures |out| == |list| + 1
  {
    if list != [] && list[|list| - 1].seqNo > m.seqNo
    then Insert(list[..|list| - 1], m) + [list[|list| - 1]]
    else list + [m]
  }

  function Placed(list: seq<Msg>, m: Msg): seq<Msg> {
    if Holds(list, m.id) then Replaced(list, m) else Insert(list, m)
  }

  /** The stable sort by number. */
  function Sort(list: seq<Msg>): (out: seq<Msg>)
    ensures |out| == |list|
  {
    if list == [] then [] else Insert(Sort(list[..|list| - 1]), list[|list| - 1])
  }

  /** What a map from ids to messages holds, in the order of first insertion, after setting m. */
  function Upserted(list: seq<Msg>, m: Msg): seq<Msg> {
    if Holds(list, m.id) then Replaced(list, m) else list + [m]
  }

  function UpsertedAll(list: seq<Msg>, ms: seq<Msg>): seq<Msg> {
    if ms == [] then list else Upserted(UpsertedAll(list, ms[..|ms| - 1]), ms[|ms| - 1])
  }

  function Merged(list: seq<Msg>, ms: seq<Msg>): seq<Msg> {
    Sort(UpsertedAll(list, ms))
  }

  /** Placing the messages one after the other. */
  function Delivered(list: seq<Msg>, ms: seq<Msg>): seq<Msg> {
    if ms == [] then list else Placed(Delivered(list, ms[..|ms| - 1]), ms[|ms| - 1])
  }

  /** A list that is not loaded stays so. */
  function Upsert(lists: map<Key, seq<Msg>>, key: Key, m: Msg): map<Key, seq<Msg>> {
    if key in lists then lists[key := Placed(lists[key], m)] else lists
  }

  // ---------- The code ----------

  class Cache {
    var messages: map<Key, seq<Msg>>   // by container
    var threads: map<Key, seq<Msg>>    // by thread root
    var pending: set<string>           // the client ids of sends that have not come back

    ghost predicate Valid()
      reads this
    {
      && (forall key :: key in messages ==> UniqueIds(messages[key]))
      && (forall key :: key in threads ==> UniqueIds(threads[key]))
    }

    constructor ()
      ensures Valid() && messages == map[] && threads == map[] && pending == {}
    {
      messages, threads, pending := map[], map[], {};
    }

    static method FindIndex(list: seq<Msg>, id: nat) returns (at: int)
      ensures at == -1 ==> !Holds(list, id)
      ensures at != -1 ==> 0 <= at < |list| && list[at].id == id
    {
      for i := 0 to |list|
        invariant forall k :: 0 <= k < i ==> list[k].id != id
      {
        if list[i].id == id {
          return i;
        }
      }
      return -1;
    }

    /** Puts m into a list; tells whether the list did not hold it yet. */
    static method Place(list: seq<Msg>, m: Msg) returns (out: seq<Msg>, added: bool)
      requires UniqueIds(list)
      ensures out == Placed(list, m) && UniqueIds(out)
      ensures added <==> !Holds(list, m.id)
    {
      PlaceKeepsUnique(list, m);
      var at := FindIndex(list, m.id);
      if at >= 0 {
        assert list[at := Overlay(list[at], m)] == Replaced(list, m);
        return list[at := Overlay(list[at], m)], false;
      }
      var i := |list|;
      while i > 0 && list[i - 1].seqNo > m.seqNo
        invariant 0 <= i <= |list|
        invariant forall k :: i <= k < |list| ==> list[k].seqNo > m.seqNo
      {
        i := i - 1;
      }
      InsertAt(list, i, m);
      return list[..i] + [m] + list[i..], true;
    }

    /**
     Places a message in the list of its thread, or of its container if it is no reply, when that is loaded; a send
     that comes back is pending no more.
     */
    method UpsertMessage(container: Key, root: Option<Key>, clientId: string, m: Msg) returns (added: bool)
      requires Valid()
      modifies this
      ensures Valid()
      ensures pending == if clientId == "" then old(pending) else old(pending) - {clientId}
      ensures root.Some? ==> messages == old(messages) && threads == Upsert(old(threads), root.value, m)
      ensures root.None? ==> threads == old(threads) && messages == Upsert(old(messages), container, m)
      ensures var lists := if root.Some? then old(threads) else old(messages);
              var key := if root.Some? then root.value else container;
              added <==> key !in lists || !Holds(lists[key], m.id)
    {
      if clientId != "" {
        pending := pending - {clientId};
      }
      var list: seq<Msg>;
      if root.Some? {
        if root.value !in threads {
          return true;
        }
        list, added := Place(threads[root.value], m);
        threads := threads[root.value := list];
      } else {
        if container !in messages {
          return true;
        }
        list, added := Place(messages[container], m);
        messages := messages[container := list];
      }
    }

    /** Lays a page over the list at key, or puts it in the place of the list. */
    method Merge(key: Key, msgs: seq<Msg>, replace: bool) returns (out: seq<Msg>)
      requires Valid()
      modifies this
      ensures Valid()
      ensures out == Merged(if replace || key !in old(messages) then [] else old(messages)[key], msgs)
      ensures messages == old(messages)[key := out] && threads == old(threads) && pending == old(pending)
    {
      var byId := if replace || key !in messages then [] else messages[key];
      ghost var list := byId;
      for i := 0 to |msgs|
        invariant byId == UpsertedAll(list, msgs[..i])
      {
        assert msgs[..i + 1][..i] == msgs[..i];
        byId := Upserted(byId, msgs[i]);
      }
      assert msgs[..|msgs|] == msgs;
      MergeGivesUniqueIds(list, msgs);
      out := Sort(byId);
      messages := messages[key := out];
    }
  }

  // ---------- Sorting ----------

  lemma {:induction false} InsertIs(list: seq<Msg>, m: Msg) returns (i: nat)
    ensures i <= |list| && Insert(list, m) == list[..i] + [m] + list[i..]
    ensures i > 0 ==> list[i - 1].seqNo <= m.seqNo
    ensures forall k :: i <= k < |list| ==> list[k].seqNo > m.seqNo
  {
    var n := |list|;
    if n > 0 && list[n - 1].seqNo > m.seqNo {
      var init := list[..n - 1];
      i := InsertIs(init, m);
      assert list[..i] == init[..i] && list[i..] == init[i..] + [list[n - 1]];
    } else {
      i := n;
    }
  }

  lemma InsertPoints(list: seq<Msg>, m: Msg) returns (i: nat)
    ensures i <= |list|
    ensures forall k :: 0 <= k < i ==> Insert(list, m)[k] == list[k]
    ensures Insert(list, m)[i] == m
    ensures forall k :: i < k <= |list| ==> Insert(list, m)[k] == list[k - 1]
    ensures i > 0 ==> list[i - 1].seqNo <= m.seqNo
    ensures forall k :: i <= k < |list| ==> list[k].seqNo > m.seqNo
  {
    i := InsertIs(list, m);
  }

  lemma InsertAt(list: seq<Msg>, i: nat, m: Msg)
    requires i <= |list| && (i > 0 ==> list[i - 1].seqNo <= m.seqNo)
    requires forall k :: i <= k < |list| ==> list[k].seqNo > m.seqNo
    ensures Insert(list, m) == list[..i] + [m] + list[i..]
  {
    var j := InsertIs(list, m);
    assert j == i;
  }

  lemma InsertSorts(list: seq<Msg>, m: Msg)
    requires Sorted(list)
    ensures Sorted(Insert(list, m))
  {
    var i := InsertPoints(list, m);
  }

  lemma {:induction false} SortSorts(list: seq<Msg>)
    ensures Sorted(Sort(list))
  {
    if list != [] {
      SortSorts(list[..|list| - 1]);
      InsertSorts(Sort(list[..|list| - 1]), list[|list| - 1]);
    }
  }

  lemma {:induction false} SortPermutes(list: seq<Msg>)
    ensures multiset(Sort(list)) == multiset(list)
  {
    if list != [] {
      var init, last := list[..|list| - 1], list[|list| - 1];
      SortPermutes(init);
      InsertPermutes(Sort(init), last);
      assert list == init + [last];
    }
  }

  lemma {:induction false} InsertPermutes(list: seq<Msg>, m: Msg)
    ensures multiset(Insert(list, m)) == multiset(list) + multiset{m}
  {
    if list != [] && list[|list| - 1].seqNo > m.seqNo {
      InsertPermutes(list[..|list| - 1], m);
      assert list == list[..|list| - 1] + [list[|list| - 1]];
    }
  }

  lemma SortNothing()
    ensures Sort([]) == []
  {
  }

  lemma SortUnfold(list: seq<Msg>)
    requires list != []
    ensures Sort(list) == Insert(Sort(list[..|list| - 1]), list[|list| - 1])
  {
  }

  lemma InsertLast(list: seq<Msg>, m: Msg)
    requires list != [] ==> list[|list| - 1].seqNo <= m.seqNo
    ensures Insert(list, m) == list + [m]
  {
  }

  lemma {:induction false} SortedIsFixed(list: seq<Msg>)
    requires Sorted(list)
    ensures Sort(list) == list
  {
    hide Sort, Insert;
    if list == [] {
      SortNothing();
    } else {
      var init, last := list[..|list| - 1], list[|list| - 1];
      SortedIsFixed(init);
      SortUnfold(list);
      InsertLast(init, last);
      assert list == init + [last];
    }
  }

  // ---------- Replacing a message keeps its place ----------

  /** Whoever sends m again sends it with the number it has. */
  predicate SameNumber(list: seq<Msg>, m: Msg) {
    forall i :: 0 <= i < |list| && list[i].id == m.id ==> list[i].seqNo == m.seqNo
  }

  lemma {:induction false} ReplaceThenInsert(list: seq<Msg>, x: Msg, m: Msg)
    requires SameNumber(list, m) && (x.id == m.id ==> x.seqNo == m.seqNo)
    ensures Replaced(Insert(list, x), m) ==
            Insert(Replaced(list, m), if x.id == m.id then Overlay(x, m) else x)
  {
    var n := |list|;
    var x' := if x.id == m.id then Overlay(x, m) else x;
    if n > 0 && list[n - 1].seqNo > x.seqNo {
      var init := list[..n - 1];
      ReplaceThenInsert(init, x, m);
      assert Replaced(list, m)[..n - 1] == Replaced(init, m);
      var last' := Replaced(list, m)[n - 1];
      assert Replaced(Insert(init, x) + [list[n - 1]], m) == Replaced(Insert(init, x), m) + [last'];
    } else {
      assert Replaced(list + [x], m) == Replaced(list, m) + [x'];
    }
  }

  lemma {:induction false} ReplaceThenSort(list: seq<Msg>, m: Msg)
    requires SameNumber(list, m)
    ensures Sort(Replaced(list, m)) == Replaced(Sort(list), m)
  {
    if list != [] {
      var init, last := list[..|list| - 1], list[|list| - 1];
      ReplaceThenSort(init, m);
      assert Replaced(list, m)[..|list| - 1] == Replaced(init, m);
      SortKeeps(init, m);
      ReplaceThenInsert(Sort(init), last, m);
    }
  }

  lemma SortKeeps(list: seq<Msg>, m: Msg)
    ensures forall id :: Holds(Sort(list), id) <==> Holds(list, id)
    ensures SameNumber(list, m) ==> SameNumber(Sort(list), m)
  {
    SortPermutes(list);
    forall x ensures x in Sort(list) <==> x in list { assert x in multiset(Sort(list)) <==> x in multiset(list); }
    forall id ensures Holds(Sort(list), id) <==> Holds(list, id) {
      HoldsIs(list, id);
      HoldsIs(Sort(list), id);
    }
    if SameNumber(list, m) {
      forall i | 0 <= i < |Sort(list)| && Sort(list)[i].id == m.id ensures Sort(list)[i].seqNo == m.seqNo {
        assert Sort(list)[i] in list;
      }
    }
  }

  lemma HoldsIs(list: seq<Msg>, id: nat)
    ensures Holds(list, id) <==> exists x :: x in list && x.id == id
  {
  }

  // ---------- The main results ----------

  /** Every message in the list or on the way has one number per id. */
  ghost predicate FixedNumbers(list: seq<Msg>, ms: seq<Msg>) {
    && (forall i, j :: 0 <= i < |list| && 0 <= j < |ms| && list[i].id == ms[j].id ==> list[i].seqNo == ms[j].seqNo)
    && (forall i, j :: 0 <= i < |ms| && 0 <= j < |ms| && ms[i].id == ms[j].id ==> ms[i].seqNo == ms[j].seqNo)
  }

  lemma {:induction false} UpsertsKeepNumbers(list: seq<Msg>, ms: seq<Msg>, m: Msg)
    requires SameNumber(list, m) && SameNumber(ms, m)
    ensures SameNumber(UpsertedAll(list, ms), m)
  {
    if ms != [] {
      var last := ms[|ms| - 1];
      UpsertsKeepNumbers(list, ms[..|ms| - 1], m);
      var u := UpsertedAll(list, ms[..|ms| - 1]);
      forall i | 0 <= i < |Upserted(u, last)| && Upserted(u, last)[i].id == m.id
        ensures Upserted(u, last)[i].seqNo == m.seqNo
      {
        assert i < |u| ==> u[i].id == Upserted(u, last)[i].id;
      }
    }
  }

  /** Merging a page comes to the same list as placing its messages one by one. */
  lemma {:induction false} MergeIsDelivery(list: seq<Msg>, ms: seq<Msg>)
    requires Sorted(list) && FixedNumbers(list, ms)
    ensures Merged(list, ms) == Delivered(list, ms)
  {
    if ms == [] {
      SortedIsFixed(list);
    } else {
      var init, m := ms[..|ms| - 1], ms[|ms| - 1];
      MergeIsDelivery(list, init);
      var u := UpsertedAll(list, init);
      SortKeeps(u, m);
      if Holds(u, m.id) {
        UpsertsKeepNumbers(list, init, m);
        ReplaceThenSort(u, m);
      } else {
        assert (u + [m])[..|u|] == u;
      }
    }
  }

  lemma PlaceKeepsUnique(list: seq<Msg>, m: Msg)
    requires UniqueIds(list)
    ensures UniqueIds(Placed(list, m))
  {
    if Holds(list, m.id) {
      assert forall i :: 0 <= i < |list| ==> Replaced(list, m)[i].id == list[i].id;
    } else {
      var i := InsertPoints(list, m);
      var out := Insert(list, m);
      forall a, b | 0 <= a < b < |out| ensures out[a].id != out[b].id {
        assert a != i ==> out[a] == list[if a < i then a else a - 1];
        assert b != i ==> out[b] == list[if b < i then b else b - 1];
      }
    }
  }

  /** A message that keeps its number keeps the list in order. */
  lemma PlaceKeepsOrder(list: seq<Msg>, m: Msg)
    requires Sorted(list) && SameNumber(list, m)
    ensures Sorted(Placed(list, m))
  {
    if Holds(list, m.id) {
      assert forall i :: 0 <= i < |list| ==> Replaced(list, m)[i].seqNo == list[i].seqNo;
    } else {
      InsertSorts(list, m);
    }
  }

  lemma {:induction false} UpsertsKeepUnique(list: seq<Msg>, ms: seq<Msg>)
    requires UniqueIds(list)
    ensures UniqueIds(UpsertedAll(list, ms))
  {
    if ms != [] {
      UpsertsKeepUnique(list, ms[..|ms| - 1]);
    }
  }

  lemma {:induction false} SortKeepsUnique(list: seq<Msg>)
    requires UniqueIds(list)
    ensures UniqueIds(Sort(list))
  {
    if list != [] {
      var init, last := list[..|list| - 1], list[|list| - 1];
      SortKeepsUnique(init);
      SortKeeps(init, last);
      PlaceKeepsUnique(Sort(init), last);
    }
  }

  lemma MergeGivesUniqueIds(list: seq<Msg>, ms: seq<Msg>)
    requires UniqueIds(list)
    ensures UniqueIds(Merged(list, ms)) && Sorted(Merged(list, ms))
  {
    UpsertsKeepUnique(list, ms);
    SortKeepsUnique(UpsertedAll(list, ms));
    SortSorts(UpsertedAll(list, ms));
  }

  // ---------- Confluence ----------

  function Elements(list: seq<Msg>): set<Msg> {
    set m | m in list
  }

  /** A list in strict order: distinct messages have distinct numbers, as on the server. */
  predicate Strict(list: seq<Msg>) {
    forall i, j :: 0 <= i < j < |list| ==> list[i].seqNo < list[j].seqNo
  }

  /** One content and one number for each id, and one id for each number. */
  ghost predicate Consistent(ms: set<Msg>) {
    forall a, b :: a in ms && b in ms && (a.id == b.id || a.seqNo == b.seqNo) ==> a == b
  }

  /** One message pushed to the client, or a page that it asked for. */
  datatype Arrival = Pushed(m: Msg) | Page(ms: seq<Msg>)

  function Content(e: Arrival): set<Msg> {
    match e
    case Pushed(m) => {m}
    case Page(ms) => Elements(ms)
  }

  function Contents(es: seq<Arrival>): set<Msg> {
    if es == [] then {} else Contents(es[..|es| - 1]) + Content(es[|es| - 1])
  }

  /** The list after pushes and pages, in the order in which they reach the client. */
  function Arrived(list: seq<Msg>, es: seq<Arrival>): seq<Msg> {
    if es == [] then list
    else
      var prior := Arrived(list, es[..|es| - 1]);
      match es[|es| - 1]
      case Pushed(m) => Placed(prior, m)
      case Page(ms) => Merged(prior, ms)
  }

  lemma PlaceHolds(list: seq<Msg>, m: Msg, id: nat)
    ensures Holds(Placed(list, m), id) <==> Holds(list, id) || id == m.id
  {
    if Holds(list, m.id) {
      UpsertHolds(list, m, id);
    } else {
      InsertElements(list, m);
      HoldsElement(Insert(list, m), id);
      HoldsElement(list, id);
    }
  }

  lemma HoldsElement(list: seq<Msg>, id: nat)
    ensures Holds(list, id) <==> exists x :: x in Elements(list) && x.id == id
  {
    if Holds(list, id) {
      var i :| 0 <= i < |list| && list[i].id == id;
      assert list[i] in Elements(list);
    }
  }

  lemma UpsertHolds(list: seq<Msg>, m: Msg, id: nat)
    ensures Holds(Upserted(list, m), id) <==> Holds(list, id) || id == m.id
  {
    var out := Upserted(list, m);
    assert forall k :: 0 <= k < |list| ==> list[k].id == out[k].id;
    assert !Holds(list, m.id) ==> out[|list|] == m;
  }

  lemma {:induction false} UpsertsHold(list: seq<Msg>, ms: seq<Msg>, id: nat)
    ensures Holds(UpsertedAll(list, ms), id) <==> Holds(list, id) || Holds(ms, id)
  {
    if ms != [] {
      var init, m := ms[..|ms| - 1], ms[|ms| - 1];
      UpsertsHold(list, init, id);
      UpsertHolds(UpsertedAll(list, init), m, id);
      assert forall k :: 0 <= k < |init| ==> init[k] == ms[k];
    }
  }

  /** A merge keeps every message of the list and adds those of the page. */
  lemma MergeHolds(list: seq<Msg>, ms: seq<Msg>, id: nat)
    ensures Holds(Merged(list, ms), id) <==> Holds(list, id) || Holds(ms, id)
  {
    UpsertsHold(list, ms, id);
    if ms != [] {
      SortKeeps(UpsertedAll(list, ms), ms[0]);
    } else {
      SortKeeps(list, Msg(0, 0, map[]));
    }
  }

  lemma PageArrives(list: seq<Msg>, es: seq<Arrival>, ms: seq<Msg>)
    ensures Arrived(list, es + [Page(ms)]) == Merged(Arrived(list, es), ms)
  {
    assert (es + [Page(ms)])[..|es|] == es;
  }

  lemma PlaceAgain(list: seq<Msg>, m: Msg, all: set<Msg>)
    requires Consistent(all) && m in all && Holds(list, m.id) && Elements(list) <= all
    ensures Placed(list, m) == list && m in list
  {
    forall i | 0 <= i < |list| ensures Replaced(list, m)[i] == list[i] && (list[i].id == m.id ==> list[i] == m) {
      assert list[i] in Elements(list);
    }
  }

  lemma InsertElements(list: seq<Msg>, m: Msg)
    ensures Elements(Insert(list, m)) == Elements(list) + {m}
  {
    InsertPermutes(list, m);
    forall x ensures x in Insert(list, m) <==> x in list || x == m {
      assert x in Insert(list, m) <==> x in multiset(Insert(list, m));
      assert x in list <==> x in multiset(list);
    }
  }

  lemma InsertStrict(list: seq<Msg>, m: Msg)
    requires Strict(list) && forall k :: 0 <= k < |list| ==> list[k].seqNo != m.seqNo
    ensures Strict(Insert(list, m))
  {
    var i := InsertPoints(list, m);
  }

  lemma PlaceKnown(list: seq<Msg>, m: Msg, all: set<Msg>)
    requires Consistent(all) && m in all && Strict(list) && Elements(list) <= all
    ensures Strict(Placed(list, m)) && Elements(Placed(list, m)) == Elements(list) + {m}
  {
    if Holds(list, m.id) {
      PlaceAgain(list, m, all);
    } else {
      forall k | 0 <= k < |list| ensures list[k].seqNo != m.seqNo { assert list[k] in Elements(list); }
      InsertStrict(list, m);
      InsertElements(list, m);
    }
  }

  lemma {:induction false} DeliveryIsCanonical(list: seq<Msg>, ms: seq<Msg>, all: set<Msg>)
    requires Consistent(all) && Strict(list) && Elements(list) <= all && Elements(ms) <= all
    ensures Strict(Delivered(list, ms)) && Elements(Delivered(list, ms)) == Elements(list) + Elements(ms)
  {
    if ms != [] {
      var init, m := ms[..|ms| - 1], ms[|ms| - 1];
      assert ms == init + [m] && Elements(ms) == Elements(init) + {m};
      DeliveryIsCanonical(list, init, all);
      PlaceKnown(Delivered(list, init), m, all);
    }
  }

  lemma ConsistentNumbers(list: seq<Msg>, ms: seq<Msg>, all: set<Msg>)
    requires Consistent(all) && Elements(list) <= all && Elements(ms) <= all
    ensures FixedNumbers(list, ms)
  {
    forall i | 0 <= i < |list| ensures list[i] in all { assert list[i] in Elements(list); }
    forall i | 0 <= i < |ms| ensures ms[i] in all { assert ms[i] in Elements(ms); }
  }

  /** However pushes and pages arrive, the list holds exactly what arrived, in strict order. */
  lemma {:induction false} ArrivalsAreCanonical(list: seq<Msg>, es: seq<Arrival>, all: set<Msg>)
    requires Consistent(all) && Strict(list) && Elements(list) <= all && Contents(es) <= all
    ensures Strict(Arrived(list, es)) && Elements(Arrived(list, es)) == Elements(list) + Contents(es)
  {
    if es != [] {
      var init, e := es[..|es| - 1], es[|es| - 1];
      ArrivalsAreCanonical(list, init, all);
      var prior := Arrived(list, init);
      match e
      case Pushed(m) =>
        PlaceKnown(prior, m, all);
      case Page(ms) =>
        ConsistentNumbers(prior, ms, all);
        MergeIsDelivery(prior, ms);
        DeliveryIsCanonical(prior, ms, all);
    }
  }

  lemma InitElements(list: seq<Msg>)
    requires list != [] && Strict(list)
    ensures Elements(list[..|list| - 1]) == Elements(list) - {list[|list| - 1]}
  {
    var init, last := list[..|list| - 1], list[|list| - 1];
    assert list == init + [last];
    assert last !in init;
  }

  lemma NoElements(list: seq<Msg>)
    ensures Elements(list) == {} <==> list == []
  {
    if list != [] {
      assert list[0] in Elements(list);
    }
  }

  lemma LastAgrees(a: seq<Msg>, b: seq<Msg>)
    requires a != [] && b != [] && Strict(a) && Strict(b) && Elements(a) == Elements(b)
    ensures a[|a| - 1] == b[|b| - 1]
  {
    var x, y := a[|a| - 1], b[|b| - 1];
    assert x in Elements(a) && y in Elements(b);
    var i :| 0 <= i < |a| && a[i] == y;
    var j :| 0 <= j < |b| && b[j] == x;
  }

  lemma {:induction false} StrictListsAgree(a: seq<Msg>, b: seq<Msg>)
    requires Strict(a) && Strict(b) && Elements(a) == Elements(b)
    ensures a == b
  {
    NoElements(a);
    NoElements(b);
    if a != [] {
      LastAgrees(a, b);
      InitElements(a);
      InitElements(b);
      var a', b' := a[..|a| - 1], b[..|b| - 1];
      StrictListsAgree(a', b');
      assert a == a' + [a[|a| - 1]] && b == b' + [a[|a| - 1]];
    }
  }

  /**
   The same messages come to the same list, in whatever order they arrive, pushed or in pages, with repeats.
   */
  lemma Confluence(list: seq<Msg>, es: seq<Arrival>, fs: seq<Arrival>)
    requires Strict(list) && Consistent(Elements(list) + Contents(es)) && Contents(es) == Contents(fs)
    ensures Arrived(list, es) == Arrived(list, fs)
  {
    var all := Elements(list) + Contents(es);
    ArrivalsAreCanonical(list, es, all);
    ArrivalsAreCanonical(list, fs, all);
    StrictListsAgree(Arrived(list, es), Arrived(list, fs));
  }

  // ---------- The last writer wins ----------

  /** A message of the list with this id has the field at this value. */
  predicate FieldIs(list: seq<Msg>, id: nat, field: string, value: string) {
    exists i :: 0 <= i < |list| && list[i].id == id && field in list[i].fields && list[i].fields[field] == value
  }

  predicate NumberIs(list: seq<Msg>, id: nat, n: nat) {
    exists i :: 0 <= i < |list| && list[i].id == id && list[i].seqNo == n
  }

  predicate Carries(m: Msg, id: nat, field: string) {
    m.id == id && field in m.fields
  }

  lemma FieldIn(list: seq<Msg>, id: nat, field: string, value: string)
    ensures FieldIs(list, id, field, value) <==>
            exists x :: x in Elements(list) && x.id == id && field in x.fields && x.fields[field] == value
  {
    forall i | 0 <= i < |list| ensures list[i] in Elements(list) {
    }
  }

  lemma NumberIn(list: seq<Msg>, id: nat, n: nat)
    ensures NumberIs(list, id, n) <==> exists x :: x in Elements(list) && x.id == id && x.seqNo == n
  {
    forall i | 0 <= i < |list| ensures list[i] in Elements(list) {
    }
  }

  lemma AppendElements(list: seq<Msg>, m: Msg)
    ensures Elements(list + [m]) == Elements(list) + {m}
  {
  }

  /** A message that is new to a list brings its own fields and its number; the others keep theirs. */
  lemma NewWrites(list: seq<Msg>, m: Msg, out: seq<Msg>, id: nat, field: string, value: string, n: nat)
    requires !Holds(list, m.id) && Elements(out) == Elements(list) + {m}
    ensures FieldIs(out, id, field, value) <==>
            if Carries(m, id, field) then m.fields[field] == value else FieldIs(list, id, field, value)
    ensures NumberIs(out, id, n) <==> if m.id == id then m.seqNo == n else NumberIs(list, id, n)
  {
    FieldIn(out, id, field, value);
    FieldIn(list, id, field, value);
    NumberIn(out, id, n);
    NumberIn(list, id, n);
    forall x | x in Elements(list) ensures x.id != m.id {
    }
  }

  /** A message that the list holds gets the fields of m over its own, and the number of m; the others keep theirs. */
  lemma AgainWrites(list: seq<Msg>, m: Msg, id: nat, field: string, value: string, n: nat)
    requires Holds(list, m.id)
    ensures FieldIs(Replaced(list, m), id, field, value) <==>
            if Carries(m, id, field) then m.fields[field] == value else FieldIs(list, id, field, value)
    ensures NumberIs(Replaced(list, m), id, n) <==> if m.id == id then m.seqNo == n else NumberIs(list, id, n)
  {
    var out := Replaced(list, m);
    var at :| 0 <= at < |list| && list[at].id == m.id;
    assert out[at].id == m.id && out[at].seqNo == m.seqNo;
    forall i | 0 <= i < |list| && !Carries(m, id, field)
      ensures (list[i].id == id && field in list[i].fields && list[i].fields[field] == value) <==>
              (out[i].id == id && field in out[i].fields && out[i].fields[field] == value)
    {
    }
    forall i | 0 <= i < |list| && m.id != id
      ensures (list[i].id == id && list[i].seqNo == n) <==> (out[i].id == id && out[i].seqNo == n)
    {
    }
  }

  /**
   Placing a message writes it over the list: a field that it carries has its value, any other field the value that
   it had, and its number is the one that it came with.
   */
  lemma PlaceWrites(list: seq<Msg>, m: Msg, id: nat, field: string, value: string, n: nat)
    ensures FieldIs(Placed(list, m), id, field, value) <==>
            if Carries(m, id, field) then m.fields[field] == value else FieldIs(list, id, field, value)
    ensures NumberIs(Placed(list, m), id, n) <==> if m.id == id then m.seqNo == n else NumberIs(list, id, n)
  {
    hide FieldIs, NumberIs, Insert, Replaced;
    if Holds(list, m.id) {
      AgainWrites(list, m, id, field, value, n);
    } else {
      InsertElements(list, m);
      NewWrites(list, m, Insert(list, m), id, field, value, n);
    }
  }

  lemma UpsertWrites(list: seq<Msg>, m: Msg, id: nat, field: string, value: string, n: nat)
    ensures FieldIs(Upserted(list, m), id, field, value) <==>
            if Carries(m, id, field) then m.fields[field] == value else FieldIs(list, id, field, value)
    ensures NumberIs(Upserted(list, m), id, n) <==> if m.id == id then m.seqNo == n else NumberIs(list, id, n)
  {
    hide FieldIs, NumberIs, Replaced;
    if Holds(list, m.id) {
      AgainWrites(list, m, id, field, value, n);
    } else {
      AppendElements(list, m);
      NewWrites(list, m, list + [m], id, field, value, n);
    }
  }

  /** The messages one after the other: message j carries the field at the value, and none after it carries it. */
  predicate LastAt(ms: seq<Msg>, j: int, id: nat, field: string, value: string) {
    && 0 <= j < |ms| && Carries(ms[j], id, field) && ms[j].fields[field] == value
    && forall k :: j < k < |ms| ==> !Carries(ms[k], id, field)
  }

  predicate NoneCarries(ms: seq<Msg>, id: nat, field: string) {
    forall k :: 0 <= k < |ms| ==> !Carries(ms[k], id, field)
  }

  /** The value that the last of the messages to carry the field gives it; what was before, if none does. */
  ghost predicate Tells(before: bool, ms: seq<Msg>, id: nat, field: string, value: string) {
    (exists j :: LastAt(ms, j, id, field, value)) || (NoneCarries(ms, id, field) && before)
  }

  lemma TellsNothing(before: bool, id: nat, field: string, value: string)
    ensures Tells(before, [], id, field, value) == before
  {
  }

  lemma SameNone(ms: seq<Msg>, m: Msg, id: nat, field: string)
    ensures NoneCarries(ms + [m], id, field) <==> NoneCarries(ms, id, field) && !Carries(m, id, field)
  {
    var all := ms + [m];
    assert all[|ms|] == m;
    if NoneCarries(all, id, field) {
      forall k | 0 <= k < |ms| ensures !Carries(ms[k], id, field) {
        assert all[k] == ms[k];
      }
    }
  }

  lemma TellsNext(before: bool, ms: seq<Msg>, m: Msg, id: nat, field: string, value: string)
    ensures Tells(before, ms + [m], id, field, value) <==>
            if Carries(m, id, field) then m.fields[field] == value else Tells(before, ms, id, field, value)
  {
    var all := ms + [m];
    assert all[|ms|] == m && forall k :: 0 <= k < |ms| ==> all[k] == ms[k];
    if Carries(m, id, field) {
      if m.fields[field] == value {
        assert LastAt(all, |ms|, id, field, value);
      }
      forall j | LastAt(all, j, id, field, value) ensures m.fields[field] == value {
        assert j == |ms|;
      }
    } else {
      forall j | LastAt(ms, j, id, field, value) ensures LastAt(all, j, id, field, value) {
        assert all[j] == ms[j];
      }
      forall j | LastAt(all, j, id, field, value) ensures LastAt(ms, j, id, field, value) {
        assert j < |ms|;
        forall k | j < k < |ms| ensures !Carries(ms[k], id, field) {
          assert all[k] == ms[k];
        }
      }
      SameNone(ms, m, id, field);
    }
  }

  lemma {:induction false} TellsBoth(before: bool, a: seq<Msg>, b: seq<Msg>, id: nat, field: string, value: string)
    ensures Tells(before, a + b, id, field, value) == Tells(Tells(before, a, id, field, value), b, id, field, value)
  {
    hide Tells, Carries;
    if b == [] {
      assert a + b == a;
      TellsNothing(Tells(before, a, id, field, value), id, field, value);
    } else {
      var init, m := b[..|b| - 1], b[|b| - 1];
      assert b == init + [m] && a + b == a + init + [m];
      TellsBoth(before, a, init, id, field, value);
      TellsNext(before, a + init, m, id, field, value);
      TellsNext(Tells(before, a, id, field, value), init, m, id, field, value);
    }
  }

  lemma {:induction false} UpsertsWrite(list: seq<Msg>, ms: seq<Msg>, id: nat, field: string, value: string)
    ensures FieldIs(UpsertedAll(list, ms), id, field, value) ==
            Tells(FieldIs(list, id, field, value), ms, id, field, value)
  {
    hide FieldIs, Tells, Carries, Upserted;
    if ms == [] {
      TellsNothing(FieldIs(list, id, field, value), id, field, value);
    } else {
      var init, m := ms[..|ms| - 1], ms[|ms| - 1];
      assert ms == init + [m];
      UpsertsWrite(list, init, id, field, value);
      UpsertWrites(UpsertedAll(list, init), m, id, field, value, 0);
      TellsNext(FieldIs(list, id, field, value), init, m, id, field, value);
    }
  }

  /** Merging a page writes its messages over the list, a later one over an earlier one. */
  lemma MergeWrites(list: seq<Msg>, ms: seq<Msg>, id: nat, field: string, value: string)
    ensures FieldIs(Merged(list, ms), id, field, value) ==
            Tells(FieldIs(list, id, field, value), ms, id, field, value)
  {
    hide FieldIs, Tells, UpsertedAll, Sort;
    var u := UpsertedAll(list, ms);
    UpsertsWrite(list, ms, id, field, value);
    SortElements(u);
    FieldIn(u, id, field, value);
    FieldIn(Sort(u), id, field, value);
  }

  /** The number of a message after a merge is that of the last message of the page with its id, or as before. */
  lemma {:induction false} UpsertsNumber(list: seq<Msg>, ms: seq<Msg>, id: nat, n: nat)
    ensures NumberIs(UpsertedAll(list, ms), id, n) <==>
            (exists j :: IsLastOf(ms, j, id) && ms[j].seqNo == n) ||
            ((forall k :: 0 <= k < |ms| ==> ms[k].id != id) && NumberIs(list, id, n))
  {
    hide NumberIs, Upserted;
    if ms != [] {
      var init, m := ms[..|ms| - 1], ms[|ms| - 1];
      UpsertsNumber(list, init, id, n);
      UpsertWrites(UpsertedAll(list, init), m, id, "", "", n);
      if m.id == id {
        assert IsLastOf(ms, |init|, id);
      } else {
        forall j ensures IsLastOf(ms, j, id) <==> IsLastOf(init, j, id) {
        }
        forall k | 0 <= k < |init| ensures ms[k] == init[k] {
        }
      }
    }
  }

  predicate IsLastOf(ms: seq<Msg>, j: int, id: nat) {
    0 <= j < |ms| && ms[j].id == id && forall k :: j < k < |ms| ==> ms[k].id != id
  }

  lemma MergeNumbers(list: seq<Msg>, ms: seq<Msg>, id: nat, n: nat)
    ensures NumberIs(Merged(list, ms), id, n) <==>
            (exists j :: IsLastOf(ms, j, id) && ms[j].seqNo == n) ||
            ((forall k :: 0 <= k < |ms| ==> ms[k].id != id) && NumberIs(list, id, n))
  {
    hide NumberIs, UpsertedAll, Sort;
    var u := UpsertedAll(list, ms);
    UpsertsNumber(list, ms, id, n);
    SortElements(u);
    NumberIn(u, id, n);
    NumberIn(Sort(u), id, n);
  }

  lemma SortElements(list: seq<Msg>)
    ensures Elements(Sort(list)) == Elements(list)
  {
    hide Sort;
    SortPermutes(list);
    forall x ensures x in Sort(list) <==> x in list {
      assert x in Sort(list) <==> x in multiset(Sort(list));
      assert x in list <==> x in multiset(list);
    }
  }

  /** The messages of the arrivals, one after the other. */
  function Flat(es: seq<Arrival>): seq<Msg> {
    if es == [] then []
    else
      Flat(es[..|es| - 1]) + match es[|es| - 1] case Pushed(m) => [m] case Page(ms) => ms
  }

  /**
   The last writer wins: after any arrivals a field of a message has the value that the last arrival to carry it gave
   it, and the value from before if none carried it.
   */
  lemma {:induction false} LastWriterWins(list: seq<Msg>, es: seq<Arrival>, id: nat, field: string, value: string)
    ensures FieldIs(Arrived(list, es), id, field, value) ==
            Tells(FieldIs(list, id, field, value), Flat(es), id, field, value)
  {
    hide FieldIs, Tells, Carries, Placed, Merged;
    var before := FieldIs(list, id, field, value);
    if es == [] {
      TellsNothing(before, id, field, value);
    } else {
      var init, e := es[..|es| - 1], es[|es| - 1];
      var prior := Arrived(list, init);
      LastWriterWins(list, init, id, field, value);
      match e
      case Pushed(m) =>
        PlaceWrites(prior, m, id, field, value, 0);
        TellsNext(before, Flat(init), m, id, field, value);
      case Page(ms) =>
        MergeWrites(prior, ms, id, field, value);
        TellsBoth(before, Flat(init), ms, id, field, value);
    }
  }
}
