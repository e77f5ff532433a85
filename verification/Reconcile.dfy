/**
 The reconciliation of the message list with what should be on the page (internal/server/static/js/ui/timeline.js):
 nodes are kept by key, reused while their signature is the same, and moved along with a cursor. The list element
 is a sequence of children here; a node is connected when it is one of them.
 */
module Reconcile {
  import opened Wrappers

  type Key = string

  /** What should be on the page. */
  datatype View = View(key: Key, signature: string)

  /** A node; the id is its identity, and the signature is that of the view it was built for. */
  datatype Node = Node(id: nat, key: Key, signature: string)

  // ---------- The list element ----------

  predicate Distinct(s: seq<Node>) {
    forall i, j :: 0 <= i < j < |s| ==> s[i] != s[j]
  }

  function Without(s: seq<Node>, x: Node): seq<Node> {
    if s == [] then [] else if s[0] == x then s[1..] else [s[0]] + Without(s[1..], x)
  }

  /** Puts x before the cursor, or at the end when there is none. */
  function Inserted(s: seq<Node>, x: Node, cursor: Option<Node>): seq<Node> {
    if s == [] || cursor == Some(s[0]) then [x] + s else [s[0]] + Inserted(s[1..], x, cursor)
  }

  function First(s: seq<Node>): Option<Node> {
    if s == [] then None else Some(s[0])
  }

  function NextSibling(s: seq<Node>, x: Node): Option<Node> {
    if s == [] then None else if s[0] == x then First(s[1..]) else NextSibling(s[1..], x)
  }

  // ---------- What the page comes to ----------

  /** The node that a view keeps: the connected one of its key, with the same signature. */
  function Kept(children: seq<Node>, nodes: map<Key, Node>, v: View): Option<Node> {
    if v.key in nodes && nodes[v.key] in children && nodes[v.key].signature == v.signature then Some(nodes[v.key])
    else None
  }

  /** The node shows the view: it is the one that was kept, or a new one if there was none to keep. */
  predicate Shows(children: seq<Node>, nodes: map<Key, Node>, nextId: nat, x: Node, v: View) {
    && x.key == v.key && x.signature == v.signature
    && if v.key in nodes && nodes[v.key] in children && nodes[v.key].signature == v.signature
       then x == nodes[v.key]
       else x.id >= nextId
  }

  predicate HasKey(list: seq<View>, n: nat, key: Key)
    requires n <= |list|
  {
    exists k :: 0 <= k < n && list[k].key == key
  }

  predicate DistinctKeys(list: seq<View>) {
    forall i, j :: 0 <= i < j < |list| ==> list[i].key != list[j].key
  }

  /** The node map agrees with the children; it may hold nodes that are no longer connected. */
  ghost predicate Agree(children: seq<Node>, nodes: map<Key, Node>, nextId: nat) {
    && Distinct(children)
    && (forall x :: x in children ==> x.key in nodes && nodes[x.key] == x)
    && (forall key :: key in nodes ==> nodes[key].key == key && nodes[key].id < nextId)
  }

  // ---------- The state between two views ----------

  /** The children, the node map and the next id when reconcile begins. */
  datatype Before = Before(children: seq<Node>, nodes: map<Key, Node>, nextId: nat)

  /** The first n views are placed; what is left of the children is that of the other keys. */
  ghost predicate Placed(b: Before, list: seq<View>, n: nat, placed: seq<Node>, left: seq<Node>,
                         nodes: map<Key, Node>, nextId: nat)
    requires n <= |list|
  {
    && |placed| == n && b.nextId <= nextId && Distinct(left)
    && (forall k :: 0 <= k < n ==>
          && Shows(b.children, b.nodes, b.nextId, placed[k], list[k])
          && placed[k].id < nextId
          && list[k].key in nodes && nodes[list[k].key] == placed[k])
    && (forall x :: x in left <==> x in b.children && !HasKey(list, n, x.key))
    && (forall key :: !HasKey(list, n, key) ==>
          && (key in nodes <==> key in b.nodes)
          && (key in nodes ==> nodes[key] == b.nodes[key]))
  }

  // ---------- Sequences of children ----------

  lemma {:induction false} WithoutIs(s: seq<Node>, x: Node)
    requires Distinct(s)
    ensures Distinct(Without(s, x)) && forall y :: y in Without(s, x) <==> y in s && y != x
  {
    if s != [] {
      assert s == [s[0]] + s[1..];
      assert s[0] !in s[1..] && Distinct(s[1..]);
      if s[0] != x {
        WithoutIs(s[1..], x);
        assert s[0] !in Without(s[1..], x);
      }
    }
  }

  lemma {:induction false} WithoutNone(s: seq<Node>, x: Node)
    requires x !in s
    ensures Without(s, x) == s
  {
    if s != [] {
      WithoutNone(s[1..], x);
    }
  }

  lemma WithoutFirst(s: seq<Node>)
    requires s != []
    ensures Without(s, s[0]) == s[1..]
  {
  }

  lemma FirstWithout(s: seq<Node>, x: Node)
    requires First(s) != Some(x)
    ensures First(Without(s, x)) == First(s)
  {
  }

  lemma Associates(a: seq<Node>, b: seq<Node>, c: seq<Node>)
    ensures a + b + c == a + (b + c)
  {
  }

  lemma WithoutRest(y: Node, rest: seq<Node>, x: Node)
    requires y != x
    ensures Without([y] + rest, x) == [y] + Without(rest, x)
  {
    assert ([y] + rest)[1..] == rest;
  }

  lemma {:induction false} WithoutBeyond(placed: seq<Node>, left: seq<Node>, x: Node)
    requires x !in placed
    ensures Without(placed + left, x) == placed + Without(left, x)
  {
    hide Without;
    if placed == [] {
      assert placed + left == left && placed + Without(left, x) == Without(left, x);
    } else {
      var rest := placed[1..];
      WithoutBeyond(rest, left, x);
      Associates([placed[0]], rest, left);
      Associates([placed[0]], rest, Without(left, x));
      WithoutRest(placed[0], rest + left, x);
      assert placed == [placed[0]] + rest;
    }
  }

  lemma {:induction false} InsertedBeyond(placed: seq<Node>, left: seq<Node>, x: Node)
    requires left == [] || left[0] !in placed
    ensures Inserted(placed + left, x, First(left)) == placed + [x] + left
  {
    if placed == [] {
      assert placed + left == left && placed + [x] + left == [x] + left;
    } else {
      InsertedBeyond(placed[1..], left, x);
      assert (placed + left)[1..] == placed[1..] + left;
      assert placed == [placed[0]] + placed[1..];
    }
  }

  lemma {:induction false} NextBeyond(placed: seq<Node>, left: seq<Node>)
    requires left != [] && left[0] !in placed
    ensures NextSibling(placed + left, left[0]) == First(left[1..])
  {
    if placed == [] {
      assert placed + left == left;
    } else {
      NextBeyond(placed[1..], left);
      assert (placed + left)[1..] == placed[1..] + left;
    }
  }

  // ---------- One view ----------

  lemma NothingPlaced(b: Before, list: seq<View>)
    requires Agree(b.children, b.nodes, b.nextId)
    ensures Placed(b, list, 0, [], b.children, b.nodes, b.nextId)
  {
  }

  lemma HasKeyMore(list: seq<View>, n: nat, key: Key)
    requires n < |list|
    ensures HasKey(list, n + 1, key) <==> HasKey(list, n, key) || key == list[n].key
  {
    if HasKey(list, n, key) {
      var k :| 0 <= k < n && list[k].key == key;
      assert 0 <= k < n + 1 && list[k].key == key;
    }
  }

  /** The node of a view that is not placed yet is as it was; if connected, it is among what is left. */
  lemma PreviousIs(b: Before, list: seq<View>, n: nat, placed: seq<Node>, left: seq<Node>, nodes: map<Key, Node>,
                   nextId: nat)
    requires Agree(b.children, b.nodes, b.nextId) && DistinctKeys(list) && n < |list|
    requires Placed(b, list, n, placed, left, nodes, nextId)
    ensures !HasKey(list, n, list[n].key)
    ensures left == [] || left[0] !in placed
    ensures forall x :: x in placed ==> x.key != list[n].key
    ensures list[n].key in nodes <==> list[n].key in b.nodes
    ensures list[n].key in nodes ==>
              var x := nodes[list[n].key];
              && x == b.nodes[list[n].key] && x.key == list[n].key && x.id < b.nextId
              && (x in placed + left <==> x in left) && (x in left <==> x in b.children)
    ensures b.nextId <= nextId && forall x :: x in placed + left ==> x.id < nextId
  {
    LeftIsApart(b, list, n, placed, left, nodes, nextId);
    forall x | x in placed ensures x.key != list[n].key {
      var k :| 0 <= k < n && placed[k] == x;
      assert x.key == list[k].key;
    }
    forall x | x in left ensures x.id < nextId {
      assert x in b.children;
    }
  }

  lemma LeftIsApart(b: Before, list: seq<View>, n: nat, placed: seq<Node>, left: seq<Node>, nodes: map<Key, Node>,
                    nextId: nat)
    requires n <= |list| && Placed(b, list, n, placed, left, nodes, nextId)
    ensures forall x :: x in left ==> x !in placed
  {
    forall x | x in placed ensures x !in left {
      var k :| 0 <= k < n && placed[k] == x;
      assert list[k].key == x.key;
    }
  }

  function LeftAfter(left: seq<Node>, nodes: map<Key, Node>, key: Key): seq<Node> {
    if key in nodes && nodes[key] in left then Without(left, nodes[key]) else left
  }

  lemma LeftAfterIs(b: Before, list: seq<View>, n: nat, placed: seq<Node>, left: seq<Node>, nodes: map<Key, Node>,
                    nextId: nat)
    requires Agree(b.children, b.nodes, b.nextId) && DistinctKeys(list) && n < |list|
    requires Placed(b, list, n, placed, left, nodes, nextId)
    ensures var left' := LeftAfter(left, nodes, list[n].key);
            Distinct(left') && forall x :: x in left' <==> x in b.children && !HasKey(list, n + 1, x.key)
  {
    hide Distinct, Without, Shows, HasKey;
    var key := list[n].key;
    PreviousIs(b, list, n, placed, left, nodes, nextId);
    if key in nodes {
      WithoutIs(left, nodes[key]);
    }
    forall x ensures x in LeftAfter(left, nodes, key) <==> x in b.children && !HasKey(list, n + 1, x.key) {
      HasKeyMore(list, n, x.key);
      ChildOfKey(b, x, key);
    }
  }

  lemma NodeShows(b: Before, list: seq<View>, n: nat, placed: seq<Node>, left: seq<Node>, nodes: map<Key, Node>,
                  nextId: nat, node: Node)
    requires Agree(b.children, b.nodes, b.nextId) && n < |list| && Placed(b, list, n, placed, left, nodes, nextId)
    requires match Kept(b.children, b.nodes, list[n])
             case Some(y) => node == y
             case None => node == Node(nextId, list[n].key, list[n].signature)
    ensures Shows(b.children, b.nodes, b.nextId, node, list[n]) && node.id <= nextId
    ensures Kept(b.children, b.nodes, list[n]).Some? ==> node.id < nextId
  {
  }

  /** Places one more view. */
  lemma OneMorePlaced(b: Before, list: seq<View>, n: nat, placed: seq<Node>, left: seq<Node>, nodes: map<Key, Node>,
                      nextId: nat, node: Node, nextId': nat)
    requires Agree(b.children, b.nodes, b.nextId) && DistinctKeys(list) && n < |list|
    requires Placed(b, list, n, placed, left, nodes, nextId)
    requires match Kept(b.children, b.nodes, list[n])
             case Some(y) => node == y && nextId' == nextId
             case None => node == Node(nextId, list[n].key, list[n].signature) && nextId' == nextId + 1
    ensures var key := list[n].key;
            Placed(b, list, n + 1, placed + [node], LeftAfter(left, nodes, key), nodes[key := node], nextId')
  {
    hide Distinct, Shows, HasKey, LeftAfter, Agree, Kept;
    var key := list[n].key;
    PreviousIs(b, list, n, placed, left, nodes, nextId);
    LeftAfterIs(b, list, n, placed, left, nodes, nextId);
    NodeShows(b, list, n, placed, left, nodes, nextId, node);
    DifferentKeys(list, n);
    forall k | !HasKey(list, n + 1, k) ensures !HasKey(list, n, k) && k != key {
      HasKeyMore(list, n, k);
    }
  }

  lemma DifferentKeys(list: seq<View>, n: nat)
    requires DistinctKeys(list) && n < |list|
    ensures forall k :: 0 <= k < n ==> list[k].key != list[n].key
  {
  }

  lemma ChildOfKey(b: Before, x: Node, key: Key)
    requires Agree(b.children, b.nodes, b.nextId)
    ensures x in b.children && x.key == key ==> key in b.nodes && b.nodes[key] == x
  {
  }

  lemma KeptIs(b: Before, v: View, previous: Option<Node>, connected: bool)
    requires previous.Some? <==> v.key in b.nodes
    requires previous.Some? ==> previous.value == b.nodes[v.key] && (connected <==> previous.value in b.children)
    requires previous.None? ==> !connected
    ensures Kept(b.children, b.nodes, v) ==
            if connected && previous.value.signature == v.signature then previous else None
  {
  }

  lemma RestIsApart(placed: seq<Node>, rest: seq<Node>, node: Node)
    requires forall x :: x in rest ==> x !in placed + [node]
    ensures rest == [] || rest[0] !in placed
    ensures node !in rest
  {
    if rest != [] {
      assert rest[0] in rest;
    }
  }

  /** A node that has just been built is none of the children. */
  lemma NewNodeIsApart(b: Before, list: seq<View>, n: nat, placed: seq<Node>, left: seq<Node>, nodes: map<Key, Node>,
                       nextId: nat, node: Node)
    requires Agree(b.children, b.nodes, b.nextId) && DistinctKeys(list) && n < |list|
    requires Placed(b, list, n, placed, left, nodes, nextId)
    requires node.id == nextId
    ensures node !in placed + left && node !in placed + LeftAfter(left, nodes, list[n].key)
    ensures First(left) != Some(node) && First(LeftAfter(left, nodes, list[n].key)) != Some(node)
  {
    PreviousIs(b, list, n, placed, left, nodes, nextId);
    if list[n].key in nodes {
      WithoutIs(left, nodes[list[n].key]);
    }
  }

  /** The children and the cursor without the node that a view had before. */
  lemma Unlinked(placed: seq<Node>, left: seq<Node>, previous: Option<Node>, connected: bool)
    requires connected ==> previous.Some? && previous.value in left && previous.value !in placed
    ensures connected ==> Without(placed + left, previous.value) == placed + Without(left, previous.value)
    ensures connected && First(left) == previous ==>
              && NextSibling(placed + left, previous.value) == First(Without(left, previous.value))
              && left == [previous.value] + Without(left, previous.value)
    ensures connected && First(left) != previous ==> First(Without(left, previous.value)) == First(left)
  {
    if connected {
      WithoutBeyond(placed, left, previous.value);
      if First(left) == previous {
        NextBeyond(placed, left);
        WithoutFirst(left);
      } else {
        FirstWithout(left, previous.value);
      }
    }
  }

  // ---------- The leftovers ----------

  function KeysOf(s: seq<Node>): set<Key> {
    set x | x in s :: x.key
  }

  lemma LeftoversGone(b: Before, list: seq<View>, placed: seq<Node>, left: seq<Node>, nodes: map<Key, Node>,
                      nextId: nat)
    requires Agree(b.children, b.nodes, b.nextId) && DistinctKeys(list)
    requires Placed(b, list, |list|, placed, left, nodes, nextId)
    ensures Agree(placed, nodes - KeysOf(left), nextId) && |placed| == |list|
    ensures forall k :: 0 <= k < |list| ==> Shows(b.children, b.nodes, b.nextId, placed[k], list[k])
    ensures forall key :: key in nodes - KeysOf(left) <==>
              HasKey(list, |list|, key) || (key in b.nodes && b.nodes[key] !in b.children)
    ensures forall key :: key in nodes - KeysOf(left) && !HasKey(list, |list|, key) ==>
              key in b.nodes && (nodes - KeysOf(left))[key] == b.nodes[key]
  {
    hide Kept;
    var rest := nodes - KeysOf(left);
    forall key ensures key in KeysOf(left) <==>
      !HasKey(list, |list|, key) && key in b.nodes && b.nodes[key] in b.children
    {
      if key in KeysOf(left) {
        var x :| x in left && x.key == key;
        ChildOfKey(b, x, key);
      }
    }
    forall i, j | 0 <= i < j < |placed| ensures placed[i] != placed[j] {
      assert placed[i].key == list[i].key && placed[j].key == list[j].key;
    }
    forall k | 0 <= k < |list| ensures HasKey(list, |list|, list[k].key) {
    }
  }

  lemma NoKeys()
    ensures KeysOf([]) == {}
  {
  }

  lemma KeysOfMore(s: seq<Node>, n: nat)
    requires n < |s|
    ensures KeysOf(s[..n + 1]) == KeysOf(s[..n]) + {s[n].key}
  {
    assert s[..n + 1] == s[..n] + [s[n]];
  }

  /** Reconciling with the same views again keeps every node in its place. */
  lemma UnchangedViewsKeepTheirNodes(children: seq<Node>, nodes: map<Key, Node>, nextId: nat, list: seq<View>,
                                     again: seq<Node>)
    requires Agree(children, nodes, nextId) && |children| == |list| == |again|
    requires forall k :: 0 <= k < |list| ==>
               children[k].key == list[k].key && children[k].signature == list[k].signature
    requires forall k :: 0 <= k < |list| ==> Shows(children, nodes, nextId, again[k], list[k])
    ensures again == children
  {
    forall k | 0 <= k < |list| ensures again[k] == children[k] {
      assert children[k] in children;
      assert Shows(children, nodes, nextId, again[k], list[k]);
    }
  }

  /** The children and the map without the node of a key still agree. */
  lemma RemovedAgrees(children: seq<Node>, nodes: map<Key, Node>, nextId: nat, key: Key)
    requires Agree(children, nodes, nextId) && key in nodes
    ensures Agree(Without(children, nodes[key]), nodes - {key}, nextId)
  {
    WithoutIs(children, nodes[key]);
  }

  /** What the views show after a key is removed is what they showed before, but for that key. */
  lemma RemovedShows(before: seq<Node>, nodes: map<Key, Node>, children: seq<Node>, left: map<Key, Node>, nextId: nat,
                     key: Key, list: seq<View>)
    requires Agree(before, nodes, nextId) && left == nodes - {key}
    requires forall x :: x in children <==> x in before && (key in nodes ==> x != nodes[key])
    ensures forall v, x :: v in list && v.key != key && Shows(children, left, nextId, x, v) ==>
              Shows(before, nodes, nextId, x, v)
    ensures forall v, x :: v in list && v.key == key && Shows(children, left, nextId, x, v) ==>
              x.key == key && x.signature == v.signature && x.id >= nextId
  {
  }

  // ---------- The code ----------

  class Timeline {
    var children: seq<Node>
    var nodes: map<Key, Node>
    var nextId: nat

    ghost predicate Valid()
      reads this
    {
      Agree(children, nodes, nextId)
    }

    constructor ()
      ensures Valid() && children == [] && nodes == map[]
    {
      children, nodes, nextId := [], map[], 0;
    }

    method Remove(x: Node)
      modifies this`children
      ensures children == Without(old(children), x)
    {
      children := Without(children, x);
    }

    /** Moves or adds x to the place before the cursor. */
    method InsertBefore(x: Node, cursor: Option<Node>)
      modifies this`children
      ensures children == Inserted(Without(old(children), x), x, cursor)
    {
      children := Inserted(Without(children, x), x, cursor);
    }

    method NodeFor(v: View, previous: Option<Node>) returns (node: Node)
      modifies this`nextId
      ensures if previous.Some? && previous.value.signature == v.signature
              then node == previous.value && nextId == old(nextId)
              else node == Node(old(nextId), v.key, v.signature) && nextId == old(nextId) + 1
    {
      if previous.Some? && previous.value.signature == v.signature {
        return previous.value;
      }
      node := Node(nextId, v.key, v.signature);
      nextId := nextId + 1;
    }

    /**
     Afterwards the children show the views one for one, in their order, and the node map holds them, and besides
     only what was in it and was not connected.
     */
    method Reconcile(list: seq<View>)
      requires Valid() && DistinctKeys(list)
      modifies this
      ensures Valid() && |children| == |list|
      ensures forall k :: 0 <= k < |list| ==> Shows(old(children), old(nodes), old(nextId), children[k], list[k])
      ensures forall key :: key in nodes <==>
                HasKey(list, |list|, key) || (key in old(nodes) && old(nodes)[key] !in old(children))
      ensures forall key :: key in nodes && !HasKey(list, |list|, key) ==>
                key in old(nodes) && nodes[key] == old(nodes)[key]
    {
      hide Placed, Without, Inserted, NextSibling, Shows, Agree, HasKey, Distinct, DistinctKeys, KeysOf, Kept;
      ghost var b := Before(children, nodes, nextId);
      ghost var placed: seq<Node>, left := [], children;
      var cursor := First(children);
      NothingPlaced(b, list);
      for i := 0 to |list|
        invariant Placed(b, list, i, placed, left, nodes, nextId)
        invariant children == placed + left && cursor == First(left)
      {
        var v := list[i];
        PreviousIs(b, list, i, placed, left, nodes, nextId);
        var previous := if v.key in nodes then Some(nodes[v.key]) else None;
        var connected := previous.Some? && previous.value in children;
        ghost var rest, nodes0, nextId0 := LeftAfter(left, nodes, v.key), nodes, nextId;
        KeptIs(b, v, previous, connected);
        var node := NodeFor(v, if connected then previous else None);
        OneMorePlaced(b, list, i, placed, left, nodes0, nextId0, node, nextId);
        LeftIsApart(b, list, i + 1, placed + [node], rest, nodes0[v.key := node], nextId);
        RestIsApart(placed, rest, node);
        Unlinked(placed, left, previous, connected);
        assert rest == if connected then Without(left, previous.value) else left;
        if Some(node) != previous {
          if connected {
            if cursor == previous {
              cursor := NextSibling(children, previous.value);
            }
            Remove(previous.value);
          }
          nodes := nodes[v.key := node];
          assert children == placed + rest && cursor == First(rest);
          NewNodeIsApart(b, list, i, placed, left, nodes0, nextId0, node);
          WithoutNone(placed + rest, node);
        }
        assert nodes == nodes0[v.key := node];
        if cursor == Some(node) {
          cursor := NextSibling(children, node);
          assert placed + left == placed + [node] + rest;
          assert cursor == First(rest);
        } else {
          InsertedBeyond(placed, rest, node);
          assert Without(children, node) == placed + rest && cursor == First(rest);
          InsertBefore(node, cursor);
          assert children == placed + [node] + rest;
        }
        placed, left := placed + [node], rest;
      }
      ghost var nodes0, nextId0, all, j := nodes, nextId, left, 0;
      NoKeys();
      while cursor.Some?
        invariant j <= |all| && left == all[j..]
        invariant children == placed + left && cursor == First(left)
        invariant nodes == nodes0 - KeysOf(all[..j]) && nextId == nextId0
        decreases |left|
      {
        LeftIsApart(b, list, |list|, placed, all, nodes0, nextId);
        NextBeyond(placed, left);
        WithoutBeyond(placed, left, left[0]);
        WithoutFirst(left);
        KeysOfMore(all, j);
        var next := NextSibling(children, cursor.value);
        nodes := nodes - {cursor.value.key};
        Remove(cursor.value);
        cursor := next;
        left, j := left[1..], j + 1;
      }
      assert all[..j] == all && children == placed;
      LeftoversGone(b, list, placed, all, nodes0, nextId);
    }

    /** Takes a node off the page and renders again, so that it is built anew; every other node is kept as before. */
    method Rebuild(key: Key, list: seq<View>)
      requires Valid() && DistinctKeys(list)
      modifies this
      ensures Valid() && |children| == |list|
      ensures forall k :: 0 <= k < |list| && list[k].key != key ==>
                Shows(old(children), old(nodes), old(nextId), children[k], list[k])
      ensures forall k :: 0 <= k < |list| && list[k].key == key ==>
                && children[k].key == key && children[k].signature == list[k].signature
                && children[k].id >= old(nextId)
    {
      hide Placed, Inserted, NextSibling, First, Distinct, DistinctKeys;
      ghost var before := children;
      if key in nodes {
        RemovedAgrees(children, nodes, nextId, key);
        WithoutIs(children, nodes[key]);
        Remove(nodes[key]);
      }
      nodes := nodes - {key};
      RemovedShows(before, old(nodes), children, nodes, nextId, key, list);
      Reconcile(list);
    }
  }
}
