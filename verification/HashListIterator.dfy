/**
 Forward iterators over a HashList.  An iterator stands on a data node, or at the end (no node),
 or is dangled (no list); it advances by replacing its node in place.
 */
module HashListIterators {
  import opened LruSpec
  import opened HashLists
  import opened Sequences

  ghost function IndexIn<T>(s: seq<T>, x: T): (i: nat)
    requires x in s
    ensures i < |s| && s[i] == x
  {
    if s[0] == x then 0 else 1 + IndexIn(s[1..], x)
  }

  // The node at position i of a list; none at its end.
  ghost function NodeAt<K, V>(ns: seq<LinkNode<K, V>>, i: nat): LinkNode?<K, V>
    requires i <= |ns|
  {
    if i == |ns| then null else ns[i]
  }

  class Iterator<K(==), V> {
    var pnode: LinkNode?<K, V>
    var list: HashList?<K, V>

    constructor (pnode: LinkNode?<K, V>, list: HashList?<K, V>)
      ensures this.list == list && this.pnode == if list == null then null else pnode
    {
      this.list := list;
      this.pnode := if list == null then null else pnode;
    }

    predicate IsDangled()
      reads this
    {
      list == null
    }

    // Attached to a valid list, at its end or on one of its data nodes.
    ghost predicate Live()
      reads this, list, if list == null then {} else list.Repr()
    {
      list != null && list.Valid() && (pnode == null || pnode in list.data)
    }

    ghost function Pos(): (i: nat)
      requires Live()
      reads this, list, if list == null then {} else list.Repr()
      ensures i <= |list.data|
    {
      if pnode == null then |list.data| else IndexIn(list.data, pnode)
    }

    lemma PosFacts(i: nat)
      requires Live() && i <= |list.data|
      ensures Pos() == i <==> pnode == NodeAt(list.data, i)
    {
      list.DistinctData();
    }

    // operator++
    method Next()
      requires list != null ==> Live()
      modifies this
      ensures old(list) == null || old(pnode) == null ==> IsDangled() && pnode == old(pnode)
      ensures old(list) != null && old(pnode) != null ==> list == old(list) && Live() && Pos() == old(Pos()) + 1
    {
      hide HashList.Wired, Split, Distinct, Holds, Index;
      if pnode == null || list == null {
        list := null;
        return;
      }
      ghost var i := Pos();
      list.DataFacts(i);
      PosFacts(i);
      var link := pnode.next;
      if link == list.dataHead {
        pnode := null;
      } else {
        pnode := link;
      }
      PosFacts(i + 1);
    }

    // operator--: steps back from the end too, and dangles when there is nothing before.
    method Prev()
      requires list != null ==> Live()
      modifies this
      ensures old(list) == null ==> list == null && pnode == old(pnode)
      ensures old(list) != null && old(Pos()) == 0 ==> IsDangled() && pnode == null
      ensures old(list) != null && old(Pos()) > 0 ==> list == old(list) && Live() && Pos() == old(Pos()) - 1
    {
      hide HashList.Wired, Split, Distinct, Holds, Index;
      if list == null {
        return;
      }
      ghost var i := Pos();
      if i > 0 { list.DataFacts(i - 1); }
      if i < |list.data| { list.DataFacts(i); list.PrevFacts(i); } else { list.HeadFacts({}); }
      PosFacts(i);
      var link := if pnode == null then list.dataHead.prev else pnode.prev;
      if link == list.dataHead {
        pnode, list := null, null;
        return;
      }
      pnode := link;
      PosFacts(i - 1);
    }

    // operator==
    method Equals(other: Iterator<K, V>) returns (r: bool)
      requires list != null ==> Live()
      requires other.list != null ==> other.Live()
      ensures r <==> list != null && list == other.list && Pos() == other.Pos()
    {
      if IsDangled() || other.IsDangled() || list != other.list {
        return false;
      }
      other.PosFacts(other.Pos());
      PosFacts(other.Pos());
      return pnode == other.pnode;
    }

    // operator<: a copy walks forward until it meets the other iterator or falls off the end.
    method Less(other: Iterator<K, V>) returns (r: bool)
      requires list != null ==> Live()
      requires other.list != null ==> other.Live()
      ensures r <==> list != null && list == other.list && old(Pos()) < old(other.Pos())
    {
      if IsDangled() || other.IsDangled() || list != other.list {
        return false;
      }
      hide HashList.Valid;
      assert forall x :: x in list.Repr() ==> allocated(x);
      var temp := new Iterator<K, V>(pnode, list);
      var same := temp.Equals(other);
      if same {
        return false;
      }
      r := temp.Meets(other);
    }

    // The walk of operator<, by the copy.
    method Meets(other: Iterator<K, V>) returns (met: bool)
      requires Live() && other != this && other.Live() && list == other.list && Pos() != other.Pos()
      modifies this
      ensures met <==> old(Pos()) < old(other.Pos())
    {
      hide HashList.Valid;
      ghost var d, n, m := list.data, Pos(), other.Pos();
      PosFacts(n);
      other.PosFacts(m);
      ghost var i := n;
      while !IsDangled()
        invariant other.Live() && other.list.data == d && n <= i <= |d| + 1
        invariant list == null ==> i == |d| + 1
        invariant list != null ==> i <= |d| && list == other.list && pnode == NodeAt(d, i)
        invariant m < n || i < m
        decreases |d| + 1 - i
      {
        PosFacts(i);
        assert forall x :: x in other.list.Repr() ==> allocated(x);
        Next();
        i := i + 1;
        met := Equals(other);
        if met {
          return true;
        }
        if i <= |d| { PosFacts(i); }
      }
      return false;
    }
  }

  method Begin<K(==), V>(list: HashList<K, V>) returns (it: Iterator<K, V>)
    requires list.Valid()
    ensures fresh(it) && it.list == list && it.Live() && it.Pos() == 0
  {
    hide HashList.Wired, Split, Distinct, Holds, Index;
    list.HeadFacts({});
    if list.Empty() {
      it := End(list);
      return;
    }
    list.DataFacts(0);
    it := new Iterator<K, V>(list.dataHead.next, list);
    it.PosFacts(0);
  }

  method End<K(==), V>(list: HashList<K, V>) returns (it: Iterator<K, V>)
    requires list.Valid()
    ensures fresh(it) && it.list == list && it.Live() && it.Pos() == |list.data|
  {
    it := new Iterator<K, V>(null, list);
  }

  method Find<K(==), V>(list: HashList<K, V>, key: K) returns (it: Iterator<K, V>)
    requires list.Valid()
    ensures fresh(it) && it.list == list && it.Live() && |list.entries| == |list.data|
    ensures if HasKey(list.entries, key) then it.Pos() < |list.data| && list.entries[it.Pos()].0 == key
            else it.Pos() == |list.data|
  {
    list.KeysIndexed();
    if key !in list.valueTab {
      it := End(list);
      return;
    }
    ghost var i := list.Locate(key);
    it := new Iterator<K, V>(list.valueTab[key], list);
    it.PosFacts(i);
  }

  // erase(pos): the entry under pos goes, and the iterator returned stands on the one after it.
  method EraseAt<K(==), V>(list: HashList<K, V>, pos: Iterator<K, V>) returns (it: Iterator<K, V>)
    requires pos.list == list && pos.Live() && pos.pnode != null
    modifies list`data, list`free, list`entries, list`valueTab, list.Repr()`prev, list.Repr()`next
    ensures list.Valid() && |old(list.entries)| == |old(list.data)|
    ensures list.entries == Cut(old(list.entries), old(pos.Pos()))
    ensures fresh(it) && it.list == list && it.Live() && it.Pos() == old(pos.Pos())
  {
    hide HashList.Wired, Split, Distinct, Holds, Index;
    ghost var i := pos.Pos();
    it := new Iterator<K, V>(pos.pnode, list);
    it.Next();
    it.PosFacts(i + 1);
    list.DataFacts(i);
    list.Remove(pos.pnode, i);
    it.PosFacts(i);
  }

  /**
   erase(key): the entry goes, if there is one.  The iterator returned stands on what followed it; behind the last
   entry it is made of the ring's own head instead of the end, and so is no live one.
   */
  method EraseKey<K(==), V>(list: HashList<K, V>, key: K) returns (it: Iterator<K, V>)
    requires list.Valid()
    modifies list`data, list`free, list`entries, list`valueTab, list.Repr()`prev, list.Repr()`next
    ensures list.Valid() && list.entries == Without(old(list.entries), key)
    ensures fresh(it) && it.list == list
    ensures !HasKey(old(list.entries), key) ==> it.Live() && it.Pos() == |list.data|
    ensures forall i :: 0 <= i < |old(list.entries)| - 1 && old(list.entries)[i].0 == key ==> it.Live() && it.Pos() == i
    ensures old(list.entries) != [] && old(list.entries)[|old(list.entries)| - 1].0 == key ==>
            it.pnode == list.dataHead && !it.Live()
  {
    hide HashList.Wired, Split, Distinct, Holds, Index, Without;
    list.KeysIndexed();
    if key !in list.valueTab {
      it := End(list);
      WithoutAbsent(list.entries, key);
      return;
    }
    ghost var i := list.Locate(key);
    list.DataFacts(i);
    list.CutIsWithout(i);
    var pnode := list.valueTab[key];
    it := new Iterator<K, V>(pnode.next, list);
    list.Remove(pnode, i);
    if i < |list.data| { it.PosFacts(i); }
  }
}
