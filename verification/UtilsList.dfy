/** The intrusive doubly linked ring: nodes carry the links, and a ring is known by any one of its nodes. */
module UtilsLists {
  import opened Sequences

  class Node {
    var prev: Node?
    var next: Node?

    constructor ()
      ensures prev == null && next == null
    {
      prev, next := null, null;
    }
  }

  // The node at place i, counting on from the last to the first.
  function At(r: seq<Node>, i: nat): Node
    requires i <= |r| && r != []
  {
    if i == |r| then r[0] else r[i]
  }

  // Each node of r once, linked both ways with the one that follows, the last with the first.
  ghost predicate Ring(r: seq<Node>)
    reads r
  {
    r != [] && Distinct(r) && forall i :: 0 <= i < |r| ==> r[i].next == At(r, i + 1) && At(r, i + 1).prev == r[i]
  }

  /** A ring read from another of its nodes on is the same ring. */
  lemma Rotate(r: seq<Node>, k: nat)
    requires Ring(r) && k <= |r|
    ensures Ring(r[k..] + r[..k])
  {
    var s := r[k..] + r[..k];
    forall i | 0 <= i < |s| ensures s[i].next == At(s, i + 1) && At(s, i + 1).prev == s[i] {
      var j := if i < |r| - k then k + i else i - (|r| - k);
      assert s[i] == r[j] && At(s, i + 1) == At(r, j + 1);
    }
  }

  // The neighbours of the first node.
  lemma Ends(r: seq<Node>)
    requires Ring(r)
    ensures r != [] && r[0].next == At(r, 1) && At(r, 1).prev == r[0]
    ensures r[0].prev == r[|r| - 1] && r[|r| - 1].next == r[0]
    ensures Distinct(r)
  {
    assert At(r, |r|) == r[0];
  }

  method UtilsListInit(list: Node)
    modifies list
    ensures Ring([list])
  {
    list.next := list;
    list.prev := list;
  }

  // The ring r is read from list on.
  method UtilsListAdd(list: Node, node: Node, ghost r: seq<Node>)
    requires Ring(r) && r[0] == list && node !in r
    modifies list, list.next, node
    ensures Ring([list, node] + r[1..])
  {
    Ends(r);
    node.next := list.next;
    node.prev := list;
    list.next.prev := node;
    list.next := node;
    ghost var s := [list, node] + r[1..];
    forall i | 0 <= i < |s| ensures s[i].next == At(s, i + 1) && At(s, i + 1).prev == s[i] {
      if i >= 2 { assert s[i] == r[i - 1] && At(s, i + 1) == At(r, i); }
    }
  }

  method UtilsListTailInsert(list: Node, node: Node, ghost r: seq<Node>)
    requires Ring(r) && r[0] == list && node !in r
    modifies list, list.prev, node
    ensures Ring(r + [node])
  {
    Ends(r);
    var n := |r| - 1;
    Rotate(r, n);
    ghost var s := r[n..] + r[..n];
    UtilsListAdd(list.prev, node, s);
    ghost var t := [r[n], node] + s[1..];
    Rotate(t, 2);
    assert t[2..] + t[..2] == r + [node];
  }

  /** Exactly the node leaves, with its links cleared; the others stay in their order. */
  method UtilsListDelete(node: Node, ghost r: seq<Node>)
    requires Ring(r) && r[0] == node
    modifies node, node.next, node.prev
    ensures node.next == null && node.prev == null
    ensures |r| > 1 ==> Ring(r[1..])
  {
    Ends(r);
    node.next.prev := node.prev;
    node.prev.next := node.next;
    node.next := null;
    node.prev := null;
    ghost var s := r[1..];
    forall i | 0 <= i < |s| ensures s[i].next == At(s, i + 1) && At(s, i + 1).prev == s[i] {
      assert s[i] == r[i + 1] && (i < |s| - 1 ==> At(s, i + 1) == At(r, i + 2));
    }
  }

  method UtilsListEmpty(list: Node, ghost r: seq<Node>) returns (empty: bool)
    requires Ring(r) && r[0] == list
    ensures empty <==> |r| == 1
  {
    Ends(r);
    return list.next == list;
  }

  method UtilsListDelInit(list: Node, ghost r: seq<Node>)
    requires Ring(r) && r[0] == list
    modifies list, list.next, list.prev
    ensures Ring([list])
    ensures |r| > 1 ==> Ring(r[1..])
  {
    Ends(r);
    list.next.prev := list.prev;
    list.prev.next := list.next;
    UtilsListInit(list);
    ghost var s := r[1..];
    forall i | 0 <= i < |s| ensures s[i].next == At(s, i + 1) && At(s, i + 1).prev == s[i] {
      assert s[i] == r[i + 1] && (i < |s| - 1 ==> At(s, i + 1) == At(r, i + 2));
    }
  }

  lemma Joined(o: seq<Node>, n: seq<Node>)
    requires o != [] && n != [] && Distinct(o) && Distinct(n) && forall x :: x in o ==> x !in n
    requires forall i :: 1 <= i < |o| ==> o[i].next == At(o, i + 1) && At(o, i + 1).prev == o[i]
    requires forall i :: 0 <= i < |n| - 1 ==> n[i].next == n[i + 1] && n[i + 1].prev == n[i]
    requires o[0].next == n[0] && n[0].prev == o[0]
    requires n[|n| - 1].next == At(o, 1) && At(o, 1).prev == n[|n| - 1]
    ensures Ring([o[0]] + n + o[1..])
  {
    var s := [o[0]] + n + o[1..];
    forall i | 0 <= i < |s| ensures s[i].next == At(s, i + 1) && At(s, i + 1).prev == s[i] {
      if 1 <= i < |n| {
        assert s[i] == n[i - 1] && At(s, i + 1) == n[i];
      } else if i == |n| {
        assert s[i] == n[|n| - 1] && At(s, i + 1) == At(o, 1);
      } else if i > |n| {
        assert s[i] == o[i - |n|] && At(s, i + 1) == At(o, i - |n| + 1);
      }
    }
    JoinedDistinct(o, n);
  }

  lemma JoinedDistinct(o: seq<Node>, n: seq<Node>)
    requires o != [] && Distinct(o) && Distinct(n) && forall x :: x in o ==> x !in n
    ensures Distinct([o[0]] + n + o[1..])
  {
    var s := [o[0]] + n + o[1..];
    forall i, j | 0 <= i < j < |s| ensures s[i] != s[j] {
      if j <= |n| {
        assert s[j] == n[j - 1] && s[j] in n;
        if i > 0 { assert s[i] == n[i - 1]; } else { assert s[i] in o; }
      } else {
        assert s[j] == o[j - |n|] && s[j] in o;
        if 0 < i <= |n| {
          assert s[i] == n[i - 1] && s[i] in n;
        } else {
          assert s[i] == o[if i == 0 then 0 else i - |n|];
        }
      }
    }
  }

  /** Two rings become one: oldList, all of the new ring from newList on, the rest of the old ring. */
  method UtilsListAddList(oldList: Node, newList: Node, ghost o: seq<Node>, ghost n: seq<Node>)
    requires Ring(o) && o[0] == oldList && Ring(n) && n[0] == newList && forall x :: x in o ==> x !in n
    modifies oldList, oldList.next, newList, newList.prev
    ensures Ring([oldList] + n + o[1..])
  {
    Ends(o);
    Ends(n);
    assert Distinct(o) && Distinct(n);
    var oldListHead := oldList.next;
    var oldListTail := oldList;
    var newListHead := newList;
    var newListTail := newList.prev;
    oldListTail.next := newListHead;
    newListHead.prev := oldListTail;
    oldListHead.prev := newListTail;
    newListTail.next := oldListHead;
    forall i | 1 <= i < |o| ensures o[i].next == At(o, i + 1) && At(o, i + 1).prev == o[i] {
      ghost var x, y := o[i], At(o, i + 1);
      assert old(x.next == y && y.prev == x) && x in o && y in o;
      assert x != o[0] && y != At(o, 1);
    }
    forall i | 0 <= i < |n| - 1 ensures n[i].next == n[i + 1] && n[i + 1].prev == n[i] {
      ghost var x, y := n[i], n[i + 1];
      assert y == At(n, i + 1) && old(x.next == y && y.prev == x) && x in n && y in n;
      assert x != n[|n| - 1] && y != n[0];
    }
    assert At(o, 1) in o;
    hide Ring;
    Joined(o, n);
  }

  lemma LastFirst(o: seq<Node>, n: seq<Node>)
    requires o != []
    ensures var m := |o| - 1;
      var s := o[m..] + o[..m];
      var t := [o[m]] + n + s[1..];
      s != [] && s[0] == o[m] && 1 + |n| <= |t| && t[1 + |n|..] + t[..1 + |n|] == o + n
    ensures forall x :: x in o[|o| - 1..] + o[..|o| - 1] <==> x in o
  {
    assert o == o[..|o| - 1] + o[|o| - 1..];
  }

  /** At the tail: all of the old ring, then all of the new one. */
  method UtilsListTailInsertList(oldList: Node, newList: Node, ghost o: seq<Node>, ghost n: seq<Node>)
    requires Ring(o) && o[0] == oldList && Ring(n) && n[0] == newList && forall x :: x in o ==> x !in n
    modifies oldList, oldList.prev, newList, newList.prev
    ensures Ring(o + n)
  {
    Ends(o);
    ghost var m := |o| - 1;
    ghost var s := o[m..] + o[..m];
    Rotate(o, m);
    LastFirst(o, n);
    hide Ring, At, Distinct;
    UtilsListAddList(oldList.prev, newList, s, n);
    Rotate([o[m]] + n + s[1..], 1 + |n|);
  }

  // What remains when the doomed nodes leave.
  function Spared(r: seq<Node>, doomed: set<Node>): seq<Node> {
    if r == [] then []
    else Spared(r[..|r| - 1], doomed) + if r[|r| - 1] in doomed then [] else [r[|r| - 1]]
  }

  lemma {:induction false} SparedIs(r: seq<Node>, doomed: set<Node>, x: Node)
    ensures x in Spared(r, doomed) <==> x in r && x !in doomed
  {
    if r != [] {
      SparedIs(r[..|r| - 1], doomed, x);
      assert r == r[..|r| - 1] + [r[|r| - 1]];
    }
  }

  // The ring of a loop at place i: the list, the spared nodes before i, all nodes from i on.
  function Left(list: Node, r: seq<Node>, doomed: set<Node>, i: nat): (s: seq<Node>)
    requires 1 <= i <= |r|
    ensures s != []
  {
    [list] + Spared(r[1..i], doomed) + r[i..]
  }

  lemma LeftStep(list: Node, r: seq<Node>, doomed: set<Node>, i: nat)
    requires 1 <= i < |r| && list == r[0]
    ensures var before := [list] + Spared(r[1..i], doomed);
      var s := Left(list, r, doomed, i);
      var n := |before|;
      && n < |s| && s[n] == r[i] && At(s, n + 1) == At(r, i + 1)
      && (s[n..] + s[..n])[0] == r[i] && |s[n..] + s[..n]| > 1
      && (var t := (s[n..] + s[..n])[1..]; |s| - n - 1 <= |t| && t[|s| - n - 1..] + t[..|s| - n - 1] == before + r[i + 1..])
      && Left(list, r, doomed, i + 1) == if r[i] in doomed then before + r[i + 1..] else s
  {
    assert r[1..i + 1][..i - 1] == r[1..i];
    assert r[i..] == [r[i]] + r[i + 1..];
    hide Spared;
  }

  // Only nodes of the list are left, and none deleted at an earlier place.
  lemma LeftWithin(list: Node, r: seq<Node>, doomed: set<Node>, i: nat)
    requires 1 <= i <= |r| && list == r[0] && Distinct(r)
    ensures forall x :: x in Left(list, r, doomed, i) ==> x in r
    ensures forall x :: x in Left(list, r, doomed, i) ==> !(x in r[1..i] && x in doomed)
    ensures i < |r| ==> r[i] in Left(list, r, doomed, i)
  {
    if i < |r| { assert r[i] in r[i..]; }
    var left := Left(list, r, doomed, i);
    forall x | x in left ensures x in r && !(x in r[1..i] && x in doomed) {
      SparedIs(r[1..i], doomed, x);
      if x in r[i..] {
        var k :| 0 <= k < |r| - i && r[i..][k] == x;
        assert x == r[i + k] && x !in r[1..i];
      } else if x == list {
        assert x == r[0] && x !in r[1..i];
      } else {
        assert x in Spared(r[1..i], doomed);
        ghost var seen := r[1..i];
        assert x in seen;
        var k :| 0 <= k < |seen| && seen[k] == x;
        assert x == r[1 + k];
      }
    }
  }

  // The loop's body.
  method DeleteIfDoomed(item: Node, doomed: set<Node>, ghost list: Node, ghost r: seq<Node>, ghost i: nat,
                        ghost s: seq<Node>)
    requires 1 <= i < |r| && list == r[0] && item == r[i] && s == Left(list, r, doomed, i) && Ring(s)
    modifies item, item.next, item.prev
    ensures Ring(Left(list, r, doomed, i + 1))
    ensures item in doomed ==> item.next == null && item.prev == null
  {
    LeftStep(list, r, doomed, i);
    ghost var n := 1 + |Spared(r[1..i], doomed)|;
    hide Left, Spared, Ring, At;
    if item in doomed {
      Rotate(s, n);
      UtilsListDelete(item, s[n..] + s[..n]);
      Rotate((s[n..] + s[..n])[1..], |s| - n - 1);
    }
  }

  lemma NeighboursIn(left: seq<Node>, item: Node, r: seq<Node>)
    requires Ring(left) && item in left && forall x :: x in left ==> x in r
    ensures item.next != null && item.next in left && item.next in r
    ensures item.prev != null && item.prev in left && item.prev in r
  {
    var i :| 0 <= i < |left| && left[i] == item;
    assert At(left, i + 1) in left;
    var j := if i == 0 then |left| - 1 else i - 1;
    assert At(left, j + 1) == item && At(left, j + 1).prev == left[j] && left[j] in left;
  }

  lemma NextInLeft(list: Node, r: seq<Node>, doomed: set<Node>, i: nat)
    requires 1 <= i < |r| && list == r[0] && Ring(Left(list, r, doomed, i))
    ensures r[i].next == At(r, i + 1)
  {
    LeftStep(list, r, doomed, i);
    hide Left, Spared;
  }

  /**
   The safe loop over a list, its body deleting the current node whenever it is doomed: every node is
   visited once, in order, and the list keeps exactly the others.
   */
  method ForEachSafe(list: Node, doomed: set<Node>, ghost r: seq<Node>) returns (visited: seq<Node>)
    requires Ring(r) && r[0] == list
    modifies r
    ensures visited == r[1..]
    ensures Ring([list] + Spared(r[1..], doomed))
    ensures forall x :: x in r[1..] && x in doomed ==> x.next == null && x.prev == null
  {
    hide *;
    Ends(r);
    LeftStarts(list, r, doomed);
    AtIs(r, 1);
    visited := [];
    var item := list.next;
    var next := item.next;
    ghost var i, left := 1, r;
    while item != list
      invariant 1 <= i <= |r| && visited == r[1..i] && item == At(r, i)
      invariant left == Left(list, r, doomed, i) && Ring(left) && next == item.next
      invariant forall x :: x in r[1..i] && x in doomed ==> x.next == null && x.prev == null
      decreases |r| - i
    {
      AtIs(r, i);
      visited := visited + [item];
      NextInLeft(list, r, doomed, i);
      LeftWithin(list, r, doomed, i);
      NeighboursIn(left, item, r);
      DeleteIfDoomed(item, doomed, list, r, i, left);
      assert forall x :: x in r[1..i + 1] ==> x in r[1..i] || x == item;
      item := next;
      next := item.next;
      i := i + 1;
      left := Left(list, r, doomed, i);
    }
    AtIs(r, i);
    LeftEnds(list, r, doomed);
  }

  lemma AtIs(r: seq<Node>, i: nat)
    requires r != [] && Distinct(r) && i <= |r|
    ensures i < |r| ==> At(r, i) == r[i]
    ensures 1 <= i ==> (At(r, i) == r[0] <==> i == |r|)
  {
  }

  lemma LeftStarts(list: Node, r: seq<Node>, doomed: set<Node>)
    requires r != [] && r[0] == list
    ensures Left(list, r, doomed, 1) == r && r[1..1] == []
  {
  }

  lemma LeftEnds(list: Node, r: seq<Node>, doomed: set<Node>)
    requires r != []
    ensures Left(list, r, doomed, |r|) == [list] + Spared(r[1..], doomed) && r[1..|r|] == r[1..]
  {
    assert r[1..|r|] == r[1..] && r[|r|..] == [];
  }
}
