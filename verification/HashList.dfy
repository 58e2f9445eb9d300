/**
 The fixed-capacity LRU table: a doubly linked ring of data nodes, a singly linked ring of free
 nodes, both threaded through one block of nodes, and a hash index from key to data node.
 Every modifier rewires the links in place; each is proved against a function of module LruSpec.
 */
module HashLists {
  import B = Bytes
  import opened LruSpec
  import opened Sequences

  class LinkNode<K, V> {
    var prev: LinkNode?<K, V>
    var next: LinkNode?<K, V>
    var key: K
    var val: V

    constructor (key: K, val: V)
      ensures prev == null && next == null && this.key == key && this.val == val
    {
      this.key, this.val := key, val;
      prev, next := null, null;
    }
  }

  // s is a whole doubly linked ring, listed once round from s[0].
  ghost predicate Ring<K, V>(s: seq<LinkNode<K, V>>)
    reads Elems(s)`prev, Elems(s)`next
  {
    && |s| > 0
    && Distinct(s)
    && s[|s| - 1].next == s[0] && s[0].prev == s[|s| - 1]
    && (forall i {:trigger s[i].next} :: 0 <= i < |s| - 1 ==> s[i].next == s[i + 1])
    && (forall i {:trigger s[i].prev} :: 0 < i < |s| ==> s[i].prev == s[i - 1])
  }

  // s is a whole ring linked through next only.
  ghost predicate Chain<K, V>(s: seq<LinkNode<K, V>>)
    reads Elems(s)`next
  {
    && |s| > 0
    && Distinct(s)
    && s[|s| - 1].next == s[0]
    && (forall i {:trigger s[i].next} :: 0 <= i < |s| - 1 ==> s[i].next == s[i + 1])
  }

  ghost predicate Holds<K, V>(ns: seq<LinkNode<K, V>>, es: seq<(K, V)>)
    reads Elems(ns)`key, Elems(ns)`val
  {
    |ns| == |es| && forall i :: 0 <= i < |ns| ==> ns[i].key == es[i].0 && ns[i].val == es[i].1
  }

  lemma HoldsCut<K, V>(ns: seq<LinkNode<K, V>>, es: seq<(K, V)>, i: nat)
    requires Holds(ns, es) && i < |ns|
    ensures Holds(Cut(ns, i), Cut(es, i))
  {
  }

  ghost function Cut<T>(s: seq<T>, i: nat): seq<T>
    requires i < |s|
  {
    s[..i] + s[i + 1..]
  }

  lemma CutUnique<T>(s: seq<T>, i: nat)
    requires Distinct(s) && i < |s|
    ensures Elems(Cut(s, i)) == Elems(s) - {s[i]} && Distinct(Cut(s, i)) && s[i] !in Cut(s, i)
  {
    forall x | x in s && x != s[i]
      ensures x in Cut(s, i)
    {
      var j :| 0 <= j < |s| && s[j] == x;
      assert x == Cut(s, i)[if j < i then j else j - 1];
    }
  }

  lemma AddUnique<T>(s: seq<T>, x: T)
    requires Distinct(s) && x !in s
    ensures Elems([x] + s) == Elems(s) + {x} == Elems(s + [x])
    ensures Distinct([x] + s) && Distinct(s + [x])
  {
  }

  lemma TailUnique<T>(x: T, s: seq<T>)
    requires Distinct([x] + s)
    ensures Distinct(s) && x !in s
  {
    assert ([x] + s)[0] == x && forall i :: 0 <= i < |s| ==> ([x] + s)[i + 1] == s[i];
  }

  // Data nodes and free nodes share the block between them, but for the nodes in spare.
  ghost predicate Split<T>(data: seq<T>, free: seq<T>, spare: set<T>, block: seq<T>) {
    && Distinct(data) && Distinct(free)
    && Elems(data) + Elems(free) + spare == Elems(block)
    && Elems(data) !! Elems(free) && (Elems(data) + Elems(free)) !! spare
  }

  lemma SplitReclaim<T>(data: seq<T>, free: seq<T>, block: seq<T>, i: nat)
    requires Split(data, free, {}, block) && i < |data|
    ensures Split(Cut(data, i), [data[i]] + free, {}, block) && data[i] !in free
  {
    CutUnique(data, i);
    assert data[i] in Elems(data);
    assert forall x :: x in free ==> x in Elems(free);
    AddUnique(free, data[i]);
  }

  lemma SplitMove<T>(data: seq<T>, free: seq<T>, block: seq<T>, i: nat)
    requires Split(data, free, {}, block) && i < |data|
    ensures Split([data[i]] + Cut(data, i), free, {}, block) && Split(Cut(data, i) + [data[i]], free, {}, block)
    ensures forall x :: x in free ==> x !in data
  {
    assert forall x :: x in data ==> x in Elems(data);
    assert forall x :: x in free ==> x in Elems(free);
    CutUnique(data, i);
    AddUnique(Cut(data, i), data[i]);
    assert data[i] in Elems(data);
  }

  lemma SplitAllocate<T>(data: seq<T>, free: seq<T>, block: seq<T>)
    requires Split(data, free, {}, block) && |free| > 0
    ensures Split(data, free[1..], {free[0]}, block) && free[0] !in data
  {
    assert free == [free[0]] + free[1..];
    TailUnique(free[0], free[1..]);
    AddUnique(free[1..], free[0]);
    assert free[0] in Elems(free);
    assert forall x :: x in data ==> x in Elems(data);
  }

  lemma SplitInsert<T>(data: seq<T>, free: seq<T>, p: T, block: seq<T>)
    requires Split(data, free, {p}, block)
    ensures Split([p] + data, free, {}, block) && Split(data + [p], free, {}, block)
    ensures forall x :: x in free ==> x !in data && x != p
  {
    assert p in {p};
    assert forall x :: x in data || x in free ==> x in Elems(data) + Elems(free);
    AddUnique(data, p);
  }

  // The hash index is a bijection between the keys held and the data nodes.
  ghost predicate Index<K, V, N>(es: seq<(K, V)>, ns: seq<N>, tab: map<K, N>) {
    && |es| == |ns|
    && (forall i :: 0 <= i < |es| ==> es[i].0 in tab && tab[es[i].0] == ns[i])
    && (forall k :: k in tab ==> HasKey(es, k))
  }

  lemma CutIndex<K, V, N>(es: seq<(K, V)>, ns: seq<N>, tab: map<K, N>, i: nat)
    requires Index(es, ns, tab) && i < |es| && Distinct(ns)
    ensures Index(Cut(es, i), Cut(ns, i), tab - {es[i].0})
  {
    forall k | k in tab && k != es[i].0
      ensures HasKey(Cut(es, i), k)
    {
      var j :| 0 <= j < |es| && es[j].0 == k;
      assert Cut(es, i)[if j < i then j else j - 1].0 == k;
    }
    var fewer := tab - {es[i].0};
    forall j | 0 <= j < |es| - 1
      ensures Cut(es, i)[j].0 in fewer && fewer[Cut(es, i)[j].0] == Cut(ns, i)[j]
    {
      var m := if j < i then j else j + 1;
      assert Cut(es, i)[j] == es[m] && Cut(ns, i)[j] == ns[m];
    }
    hide Cut, HasKey, Distinct;
  }

  lemma IndexDistinct<K, V, N>(es: seq<(K, V)>, ns: seq<N>, tab: map<K, N>)
    requires Index(es, ns, tab) && Distinct(ns)
    ensures |es| == |ns| && DistinctKeys(es) && forall k :: k in tab <==> HasKey(es, k)
  {
  }

  lemma AddIndex<K, V, N>(es: seq<(K, V)>, ns: seq<N>, tab: map<K, N>, k: K, v: V, n: N)
    requires Index(es, ns, tab) && k !in tab
    ensures Index([(k, v)] + es, [n] + ns, tab[k := n]) && Index(es + [(k, v)], ns + [n], tab[k := n])
  {
    AddIndexFirst(es, ns, tab, k, v, n);
    AddIndexLast(es, ns, tab, k, v, n);
  }

  lemma AddIndexFirst<K, V, N>(es: seq<(K, V)>, ns: seq<N>, tab: map<K, N>, k: K, v: V, n: N)
    requires Index(es, ns, tab) && k !in tab
    ensures Index([(k, v)] + es, [n] + ns, tab[k := n])
  {
    var all := [(k, v)] + es;
    assert all[0].0 == k;
    forall x | x in tab
      ensures HasKey(all, x)
    {
      var j :| 0 <= j < |es| && es[j].0 == x;
      assert all[j + 1].0 == x;
    }
  }

  lemma AddIndexLast<K, V, N>(es: seq<(K, V)>, ns: seq<N>, tab: map<K, N>, k: K, v: V, n: N)
    requires Index(es, ns, tab) && k !in tab
    ensures Index(es + [(k, v)], ns + [n], tab[k := n])
  {
    var all := es + [(k, v)];
    assert all[|es|].0 == k;
    forall x | x in tab
      ensures HasKey(all, x)
    {
      var j :| 0 <= j < |es| && es[j].0 == x;
      assert all[j].0 == x;
    }
  }

  // Moving entry i to either end keeps the index as it is.
  lemma MoveIndex<K, V, N>(es: seq<(K, V)>, ns: seq<N>, tab: map<K, N>, i: nat)
    requires Index(es, ns, tab) && Distinct(ns) && i < |es|
    ensures Index([es[i]] + Cut(es, i), [ns[i]] + Cut(ns, i), tab)
    ensures Index(Cut(es, i) + [es[i]], Cut(ns, i) + [ns[i]], tab)
  {
    var k, v := es[i].0, es[i].1;
    assert es[i] == (k, v) && (tab - {k})[k := ns[i]] == tab;
    CutIndex(es, ns, tab, i);
    hide Index;
    AddIndex(Cut(es, i), Cut(ns, i), tab - {k}, k, v, ns[i]);
  }

  lemma {:induction false} MoveFront<K, V>(es: seq<(K, V)>, i: nat)
    requires DistinctKeys(es) && i < |es|
    ensures HasKey(es, es[i].0) && [es[i]] + Cut(es, i) == [(es[i].0, Lookup(es, es[i].0))] + Without(es, es[i].0)
  {
    WithoutCutsOne(es, i);
  }

  // Moving an entry to either end leaves the rest as it was.
  lemma {:induction false} WithoutMoved<K, V>(es: seq<(K, V)>, i: nat)
    requires DistinctKeys(es) && i < |es|
    ensures Without([es[i]] + Cut(es, i), es[i].0) == Without(es, es[i].0)
    ensures Without(Cut(es, i) + [es[i]], es[i].0) == Without(es, es[i].0)
  {
    hide *;
    var e, rest := es[i], Cut(es, i);
    WithoutCutsOne(es, i);
    CutHasNot(es, i);
    WithoutAbsent(rest, e.0);
    WithoutConcat([e], rest, e.0);
    WithoutConcat(rest, [e], e.0);
    WithoutOnly(e);
    assert [] + rest == rest + [] == rest;
  }

  lemma CutHasNot<K, V>(es: seq<(K, V)>, i: nat)
    requires DistinctKeys(es) && i < |es|
    ensures !HasKey(Cut(es, i), es[i].0) && Cut(es, i) == es[..i] + es[i + 1..]
  {
  }

  lemma WithoutOnly<K, V>(e: (K, V))
    ensures Without([e], e.0) == []
  {
  }

  lemma {:induction false} WithoutConcat<K, V>(a: seq<(K, V)>, b: seq<(K, V)>, k: K)
    ensures Without(a + b, k) == Without(a, k) + Without(b, k)
  {
    if a == [] {
      assert a + b == b;
    } else {
      WithoutConcat(a[1..], b, k);
      assert a + b == [a[0]] + (a[1..] + b);
      var wa, wb := Without(a[1..], k), Without(b, k);
      assert ([a[0]] + wa) + wb == [a[0]] + (wa + wb);
    }
  }

  class HashList<K(==), V> {
    const noKey: K                       // Key()
    const unset: V                       // Val()
    const dataHead: LinkNode<K, V>
    const freeHead: LinkNode<K, V>
    var numItem: nat
    var pData: seq<LinkNode<K, V>>       // the node block
    var valueTab: map<K, LinkNode<K, V>>
    ghost var data: seq<LinkNode<K, V>>  // the data ring behind dataHead, head to tail
    ghost var free: seq<LinkNode<K, V>>  // the free ring behind freeHead
    ghost var entries: seq<(K, V)>       // what the data nodes hold

    ghost function Repr(): set<LinkNode<K, V>>
      reads this`pData
    {
      {dataHead, freeHead} + Elems(pData)
    }

    ghost predicate Wired(spare: set<LinkNode<K, V>>)
      reads this`numItem, this`pData, this`data, this`free, Repr()`prev, Repr()`next
    {
      && |pData| == numItem && dataHead !in pData && freeHead !in pData && dataHead != freeHead
      && Distinct(pData)
      && Split(data, free, spare, pData)
      && Elems(data) <= Elems(pData) && Elems(free) <= Elems(pData)
      && Ring([dataHead] + data)
      && (if numItem == 0 then freeHead.next == null else Chain([freeHead] + free))
    }

    ghost predicate Valid()
      reads this, Repr()
    {
      && Wired({})
      && Index(entries, data, valueTab)
      && Holds(data, entries)
    }

    lemma DataFacts(i: nat)
      requires Wired({}) && i < |data|
      ensures numItem > 0 && Distinct(data) && data[i] in Repr() && Elems(data) <= Repr()
      ensures dataHead.next == data[0] && dataHead.prev == data[|data| - 1]
      ensures forall j :: 0 <= j < |data| ==> data[j] != dataHead
      ensures data[i].prev != null && data[i].next == if i + 1 < |data| then data[i + 1] else dataHead
    {
      var s := [dataHead] + data;
      assert data[i] in Elems(data) && data[i] in Elems(pData) && data[i] in pData;
      assert s[0] == dataHead && s[1] == data[0] && s[i + 1] == data[i] && s[|s| - 1] == data[|data| - 1];
      assert i + 1 < |data| ==> s[i + 2] == data[i + 1];
      assert s[0].next == s[1] && s[i + 1].prev == s[i];
    }

    lemma PrevFacts(i: nat)
      requires Wired({}) && i < |data|
      ensures data[i].prev == if i > 0 then data[i - 1] else dataHead
    {
      var s := [dataHead] + data;
      assert s[i + 1] == data[i] && s[i] == if i > 0 then data[i - 1] else dataHead;
      assert s[i + 1].prev == s[i];
    }

    // The emptiness and fullness tests read off the link fields mean what they should.
    lemma HeadFacts(spare: set<LinkNode<K, V>>)
      requires Wired(spare)
      ensures Empty() <==> data == []
      ensures data == [] ==> dataHead.prev == dataHead
      ensures IsFull() <==> numItem > 0 && free == []
      ensures numItem == |data| + |free| + |spare|
    {
      assert data == [] ==> [dataHead] + data == [dataHead];
      assert data != [] ==> ([dataHead] + data)[1] == data[0] && data[0] in Elems(data);
      assert free == [] ==> [freeHead] + free == [freeHead];
      assert free != [] ==> ([freeHead] + free)[1] == free[0] && free[0] in Elems(free);
      SetOfDistinct(data);
      SetOfDistinct(free);
      SetOfDistinct(pData);
    }

    predicate Empty()
      reads this, dataHead
    {
      dataHead.next == dataHead && dataHead.prev == dataHead
    }

    predicate IsFull()
      reads this, freeHead
    {
      freeHead.next == freeHead
    }

    function Size(): nat
      reads this
    {
      |valueTab|
    }

    function Capacity(): nat
      reads this
    {
      numItem
    }

    function Count(key: K): nat
      reads this
    {
      if key in valueTab then 1 else 0
    }

    constructor (numItem: nat, noKey: K, unset: V)
      ensures Valid() && fresh(Repr()) && entries == []
      ensures this.numItem == numItem && this.unset == unset && this.noKey == noKey
    {
      this.noKey, this.unset := noKey, unset;
      this.numItem, pData, valueTab := 0, [], map[];
      dataHead := new LinkNode(noKey, unset);
      freeHead := new LinkNode(noKey, unset);
      data, free, entries := [], [], [];
      new;
      dataHead.next := dataHead;
      dataHead.prev := dataHead;
      NothingHeld();
      hide *;
      if numItem > 0 {
        Allocate(numItem);
      }
    }

    lemma NothingHeld()
      requires numItem == 0 && pData == [] && valueTab == map[] && data == [] && free == [] && entries == []
      requires dataHead != freeHead && dataHead.next == dataHead == dataHead.prev && freeHead.next == null
      ensures Valid()
    {
      assert [dataHead] + data == [dataHead];
    }

    method NewBlock(n: nat) returns (block: seq<LinkNode<K, V>>)
      ensures |block| == n && forall i :: 0 <= i < n ==> fresh(block[i])
      ensures Distinct(block)
    {
      block := [];
      while |block| < n
        invariant |block| <= n
        invariant forall i :: 0 <= i < |block| ==> fresh(block[i])
        invariant Distinct(block)
      {
        var node := new LinkNode(noKey, unset);
        AddUnique(block, node);
        block := block + [node];
      }
    }

    // Threads the whole node block onto the free ring.
    method ThreadFree()
      requires |pData| > 0 && freeHead !in pData && Distinct(pData)
      modifies freeHead`next, Elems(pData)`next
      ensures Chain([freeHead] + pData)
    {
      freeHead.next := pData[0];
      var index, last := 0, |pData| - 1;
      while index < last
        invariant 0 <= index <= last
        invariant freeHead.next == pData[0]
        invariant forall i {:trigger pData[i].next} :: 0 <= i < index ==> pData[i].next == pData[i + 1]
      {
        var cur := pData[index];
        index := index + 1;
        cur.next := pData[index];
      }
      pData[last].next := freeHead;
      ghost var chain := [freeHead] + pData;
      assert forall i :: 0 < i < |chain| ==> chain[i] == pData[i - 1];
    }

    method Allocate(n: nat)
      requires Valid() && numItem == 0 && n > 0
      modifies this, Repr()
      ensures Valid() && numItem == n && entries == []
      ensures fresh(Repr() - old(Repr()))
    {
      HeadFacts({});
      pData := NewBlock(n);
      numItem := n;
      free := pData;
      ThreadFree();
    }

    // reserve: the capacity is returned as an int, whatever of it that keeps.
    method Reserve(n: nat) returns (r: B.int32)
      requires Valid()
      modifies this, Repr()
      ensures Valid() && fresh(Repr() - old(Repr())) && entries == old(entries)
      ensures old(numItem) != 0 ==> r == -1 && numItem == old(numItem)
      ensures old(numItem) == 0 ==> numItem == n && (n < 0x8000_0000 ==> r == n) && B.Unsigned(r) == B.U32(n)
    {
      if numItem != 0 {
        return -1;
      }
      if n > 0 {
        Allocate(n);
      }
      return B.Signed(B.U32(numItem));
    }

    // The unlinking step shared by the moves and by ReclaimNode.
    method Unlink(p: LinkNode<K, V>, ghost i: nat)
      requires Ring([dataHead] + data) && i < |data| && p == data[i]
      modifies this`data, dataHead`prev, dataHead`next, Elems(data)`prev, Elems(data)`next
      ensures data == Cut(old(data), i) && Ring([dataHead] + data)
    {
      ghost var s := [dataHead] + data;
      assert p == s[i + 1];
      var prev, next := p.prev, p.next;
      prev.next := next;
      next.prev := prev;
      data := Cut(data, i);
      assert [dataHead] + data == Cut(s, i + 1);
    }

    method LinkFirst(p: LinkNode<K, V>)
      requires Ring([dataHead] + data) && p !in data && p != dataHead
      modifies this`data, dataHead`prev, dataHead`next, Elems(data)`prev, Elems(data)`next, p`prev, p`next
      ensures data == [p] + old(data) && Ring([dataHead] + data)
    {
      ghost var s := [dataHead] + data;
      assert dataHead == s[0];
      p.next := dataHead.next;
      dataHead.next.prev := p;
      dataHead.next := p;
      p.prev := dataHead;
      data := [p] + data;
      assert [dataHead] + data == [dataHead, p] + s[1..];
    }

    method LinkLast(p: LinkNode<K, V>)
      requires Ring([dataHead] + data) && p !in data && p != dataHead
      modifies this`data, dataHead`prev, dataHead`next, Elems(data)`prev, Elems(data)`next, p`prev, p`next
      ensures data == old(data) + [p] && Ring([dataHead] + data)
    {
      ghost var s := [dataHead] + data;
      assert dataHead == s[0];
      p.prev := dataHead.prev;
      dataHead.prev.next := p;
      p.next := dataHead;
      dataHead.prev := p;
      data := data + [p];
      assert [dataHead] + data == s + [p];
    }

    // Puts a node on the front of the free ring.
    method LinkFree(p: LinkNode<K, V>)
      requires Chain([freeHead] + free) && p !in free && p != freeHead
      modifies this`free, freeHead`next, p`prev, p`next
      ensures free == [p] + old(free) && Chain([freeHead] + free)
    {
      ghost var s := [freeHead] + free;
      assert freeHead == s[0];
      p.prev := null;
      p.next := freeHead.next;
      freeHead.next := p;
      free := [p] + free;
      assert [freeHead] + free == [freeHead, p] + s[1..];
    }

    method ReclaimNode(p: LinkNode<K, V>, ghost i: nat)
      requires Wired({}) && i < |data| && p == data[i]
      modifies this`data, this`free, Repr()`prev, Repr()`next
      ensures Wired({}) && data == Cut(old(data), i) && free == [p] + old(free)
    {
      SplitReclaim(data, free, pData, i);
      Unlink(p, i);
      LinkFree(p);
    }

    // Takes data node i out of the index and out of the ring.
    method Remove(p: LinkNode<K, V>, ghost i: nat)
      requires Valid() && i < |data| && p == data[i]
      modifies this`data, this`free, this`entries, this`valueTab, Repr()`prev, Repr()`next
      ensures Valid() && data == Cut(old(data), i) && free == [p] + old(free)
      ensures |old(entries)| == |old(data)| && entries == Cut(old(entries), i)
      ensures valueTab == old(valueTab) - {p.key}
    {
      hide Wired, Split, Distinct;
      DataFacts(i);
      CutIndex(entries, data, valueTab, i);
      valueTab := valueTab - {p.key};
      ReclaimNode(p, i);
      entries := Cut(entries, i);
      HoldsCut(old(data), old(entries), i);
    }

    method PopFront()
      requires Valid()
      modifies this`data, this`free, this`entries, this`valueTab, Repr()`prev, Repr()`next
      ensures Valid()
      ensures entries == if old(entries) == [] then [] else old(entries)[1..]
    {
      hide Split, Distinct, Ring, Chain;
      HeadFacts({});
      if Empty() {
        return;
      }
      DataFacts(0);
      var p := dataHead.next;
      Remove(p, 0);
    }

    method PopBack()
      requires Valid()
      modifies this`data, this`free, this`entries, this`valueTab, Repr()`prev, Repr()`next
      ensures Valid()
      ensures entries == if old(entries) == [] then [] else old(entries)[..|old(entries)| - 1]
      ensures valueTab.Keys <= old(valueTab.Keys)
    {
      hide Split, Distinct, Ring, Chain;
      HeadFacts({});
      if Empty() {
        return;
      }
      DataFacts(|data| - 1);
      var p := dataHead.prev;
      Remove(p, |data| - 1);
    }

    // Takes the first node off the free ring.
    method Unfree() returns (p: LinkNode<K, V>)
      requires Wired({}) && free != []
      modifies this`free, Repr()`prev, Repr()`next
      ensures p == old(free)[0] && p in pData && p.prev == null && p.next == null
      ensures Wired({p}) && p !in data
    {
      ghost var s := [freeHead] + free;
      SplitAllocate(data, free, pData);
      p := freeHead.next;
      freeHead.next := freeHead.next.next;
      p.next := null;
      p.prev := null;
      free := free[1..];
      assert [freeHead] + free == Cut(s, 1);
    }

    // Where p stands for a move: data node i, or (i < 0) a node just allocated.
    ghost predicate Movable(p: LinkNode<K, V>, i: int)
      reads this`numItem, this`pData, this`data, this`free, Repr()`prev, Repr()`next, p`prev, p`next
    {
      if i < 0 then p.prev == null && p.next == null && p in pData && p !in data && Wired({p})
      else Wired({}) && i < |data| && p == data[i]
    }

    method MoveToHead(p: LinkNode<K, V>, ghost i: int)
      requires Movable(p, i)
      modifies this`data, Repr()`prev, Repr()`next
      ensures Wired({}) && data == [p] + if i < 0 then old(data) else Cut(old(data), i)
    {
      hide Ring, Chain, Distinct;
      if i >= 0 {
        DataFacts(i);
        CutUnique(data, i);
        SplitMove(data, free, pData, i);
      } else {
        SplitInsert(data, free, p, pData);
      }
      assert Elems([freeHead] + free) !! Elems(data) + {dataHead, p};
      if p.prev != null && p.next != null {
        Unlink(p, i);
      }
      LinkFirst(p);
    }

    method MoveToTail(p: LinkNode<K, V>, ghost i: int)
      requires Movable(p, i)
      modifies this`data, Repr()`prev, Repr()`next
      ensures Wired({}) && data == (if i < 0 then old(data) else Cut(old(data), i)) + [p]
    {
      hide Ring, Chain, Distinct;
      if i >= 0 {
        DataFacts(i);
        CutUnique(data, i);
        SplitMove(data, free, pData, i);
      } else {
        SplitInsert(data, free, p, pData);
      }
      assert Elems([freeHead] + free) !! Elems(data) + {dataHead, p};
      if p.prev != null && p.next != null {
        Unlink(p, i);
      }
      LinkLast(p);
    }

    method AllocateNode(key: K, val: V) returns (p: LinkNode<K, V>)
      requires Valid() && numItem > 0
      modifies this`data, this`free, this`entries, this`valueTab, Repr()
      ensures Movable(p, -1) && p.key == key && p.val == val
      ensures Index(entries, data, valueTab) && Holds(data, entries)
      ensures entries == MakeRoom(old(entries), numItem) && valueTab.Keys <= old(valueTab.Keys)
    {
      hide Wired, Split, Distinct, Index;
      HeadFacts({});
      if IsFull() {
        PopBack();
        HeadFacts({});
      }
      p := Unfree();
      p.key := key;
      p.val := val;
    }

    // Where a key that is present stands.
    lemma Locate(key: K) returns (i: nat)
      requires Valid() && key in valueTab
      ensures i < |entries| && |entries| == |data| && entries[i].0 == key && valueTab[key] == data[i]
      ensures data[i].key == key && data[i].val == entries[i].1
    {
      i :| 0 <= i < |entries| && entries[i].0 == key;
    }

    lemma DistinctData()
      requires Wired({})
      ensures Distinct(data)
    {
    }

    lemma MoveEntry(i: nat)
      requires Valid() && i < |entries|
      ensures |entries| == |data| && Movable(data[i], i)
      ensures Index([entries[i]] + Cut(entries, i), [data[i]] + Cut(data, i), valueTab)
      ensures Index(Cut(entries, i) + [entries[i]], Cut(data, i) + [data[i]], valueTab)
      ensures Holds([data[i]] + Cut(data, i), [entries[i]] + Cut(entries, i))
      ensures Holds(Cut(data, i) + [data[i]], Cut(entries, i) + [entries[i]])
      ensures HasKey(entries, entries[i].0)
      ensures [entries[i]] + Cut(entries, i) ==
              [(entries[i].0, Lookup(entries, entries[i].0))] + Without(entries, entries[i].0)
    {
      MoveIndex(entries, data, valueTab, i);
      IndexDistinct(entries, data, valueTab);
      MoveFront(entries, i);
      HoldsCut(data, entries, i);
    }

    // A node just allocated for a key that is absent goes in at the head.
    method InsertFirst(p: LinkNode<K, V>)
      requires Movable(p, -1) && Index(entries, data, valueTab) && Holds(data, entries) && p.key !in valueTab
      modifies this`data, this`entries, this`valueTab, Repr()`prev, Repr()`next
      ensures Valid() && data == [p] + old(data) && entries == [(p.key, p.val)] + old(entries)
    {
      hide Wired, Split, Distinct, Ring, Chain;
      AddIndex(entries, data, valueTab, p.key, p.val, p);
      valueTab := valueTab[p.key := p];
      MoveToHead(p, -1);
      entries := [(p.key, p.val)] + entries;
      assert Holds(old(data), old(entries));
    }

    method InsertLast(p: LinkNode<K, V>)
      requires Movable(p, -1) && Index(entries, data, valueTab) && Holds(data, entries) && p.key !in valueTab
      modifies this`data, this`entries, this`valueTab, Repr()`prev, Repr()`next
      ensures Valid() && data == old(data) + [p] && entries == old(entries) + [(p.key, p.val)]
    {
      hide Wired, Split, Distinct, Ring, Chain;
      AddIndex(entries, data, valueTab, p.key, p.val, p);
      valueTab := valueTab[p.key := p];
      MoveToTail(p, -1);
      entries := entries + [(p.key, p.val)];
      assert Holds(old(data), old(entries));
    }

    // A data node already indexed moves to the head.
    method RaiseFirst(p: LinkNode<K, V>, ghost i: nat)
      requires Valid() && i < |data| && p == data[i]
      modifies this`data, this`entries, Repr()`prev, Repr()`next
      ensures Valid() && data == [p] + Cut(old(data), i) && |old(entries)| == |old(data)|
      ensures entries == [old(entries[i])] + Cut(old(entries), i) && old(entries[i]) == (p.key, p.val)
    {
      hide Wired, Split, Distinct, Ring, Chain;
      MoveEntry(i);
      MoveToHead(p, i);
      entries := [entries[i]] + Cut(entries, i);
      assert Holds([p] + Cut(old(data), i), entries);
    }

    method RaiseLast(p: LinkNode<K, V>, ghost i: nat)
      requires Valid() && i < |data| && p == data[i]
      modifies this`data, this`entries, Repr()`prev, Repr()`next
      ensures Valid() && data == Cut(old(data), i) + [p] && |old(entries)| == |old(data)|
      ensures entries == Cut(old(entries), i) + [old(entries[i])] && old(entries[i]) == (p.key, p.val)
    {
      hide Wired, Split, Distinct, Ring, Chain;
      MoveEntry(i);
      MoveToTail(p, i);
      entries := Cut(entries, i) + [entries[i]];
      assert Holds(Cut(old(data), i) + [p], entries);
    }

    // operator[]: the node now at the head, through which the caller reads or writes the value.
    method At(key: K) returns (p: LinkNode<K, V>)
      requires Valid() && numItem > 0
      modifies this`data, this`free, this`entries, this`valueTab, Repr()
      ensures Valid() && data != [] && p == data[0] && p.key == key && p in Repr()
      ensures entries == Accessed(old(entries), numItem, key, unset)
    {
      hide Split, Distinct, Ring, Chain;
      KeysIndexed();
      if key !in valueTab {
        p := AllocateNode(key, unset);
        InsertFirst(p);
      } else {
        ghost var i := Locate(key);
        MoveEntry(i);
        p := valueTab[key];
        RaiseFirst(p, i);
      }
    }

    // The assignment through a reference to the head node's value.
    method SetFirst(p: LinkNode<K, V>, val: V)
      requires Valid() && data != [] && p == data[0]
      modifies this`entries, p`val
      ensures Valid() && |entries| == |data| > 0 && old(entries) != []
      ensures entries == [(p.key, val)] + old(entries)[1..]
    {
      hide Wired, Split, Ring, Chain;
      DistinctData();
      p.val := val;
      entries := [(p.key, val)] + entries[1..];
    }

    // list[key] = val for a key that is present.
    method Assign(key: K, val: V)
      requires Valid() && key in valueTab
      modifies this`data, this`free, this`entries, this`valueTab, Repr()
      ensures Valid()
      ensures entries == [(key, val)] + Without(old(entries), key)
    {
      hide Wired, Split, Distinct, Ring, Chain, Holds, Index;
      ghost var i := Locate(key);
      KeysIndexed();
      DataFacts(i);
      var p := At(key);
      SetFirst(p, val);
    }

    // Moves a present key to one end; the rest keeps its order.
    method RaiseKey(key: K, first: bool)
      requires Valid() && key in valueTab
      modifies this`data, this`entries, Repr()`prev, Repr()`next
      ensures Valid() && Without(entries, key) == Without(old(entries), key)
      ensures HasKey(old(entries), key)
    {
      hide Wired, Split, Distinct, Ring, Chain, Holds, Index;
      KeysIndexed();
      ghost var i := Locate(key);
      WithoutMoved(entries, i);
      if first {
        RaiseFirst(valueTab[key], i);
      } else {
        RaiseLast(valueTab[key], i);
      }
    }

    method PushFront(key: K, val: V)
      requires Valid() && numItem > 0
      modifies this`data, this`free, this`entries, this`valueTab, Repr()
      ensures Valid()
      ensures entries == PushedFront(old(entries), numItem, key, val)
    {
      hide Wired, Split, Distinct, Ring, Chain, Holds, Index, HasKey;
      KeysIndexed();
      if key !in valueTab {
        var p := AllocateNode(key, val);
        InsertFirst(p);
      } else {
        RaiseKey(key, true);
        Assign(key, val);
      }
    }

    method PushBack(key: K, val: V)
      requires Valid() && numItem > 0
      modifies this`data, this`free, this`entries, this`valueTab, Repr()
      ensures Valid()
      ensures entries == PushedBack(old(entries), numItem, key, val)
    {
      hide Wired, Split, Distinct, Ring, Chain, Holds, Index, HasKey;
      KeysIndexed();
      if key !in valueTab {
        var p := AllocateNode(key, val);
        InsertLast(p);
      } else {
        RaiseKey(key, false);
        Assign(key, val);
      }
    }

    method Erase(key: K)
      requires Valid()
      modifies this`data, this`free, this`entries, this`valueTab, Repr()`prev, Repr()`next
      ensures Valid() && entries == Without(old(entries), key)
    {
      hide Wired, Split, Distinct, Ring, Chain;
      KeysIndexed();
      if key !in valueTab {
        WithoutAbsent(entries, key);
        return;
      }
      ghost var i := Locate(key);
      MoveEntry(i);
      CutIsWithout(i);
      Remove(valueTab[key], i);
    }

    // back(prepend): the tail node, first moved to the head if asked.
    method Back(prepend: bool) returns (p: LinkNode<K, V>)
      requires Valid() && entries != []
      modifies this`data, this`entries, Repr()`prev, Repr()`next
      ensures Valid() && |old(entries)| == |entries| == |data| > 0 && (p.key, p.val) == old(entries)[|entries| - 1]
      ensures prepend ==> p == data[0] && entries == [old(entries)[|entries| - 1]] + old(entries)[..|entries| - 1]
      ensures !prepend ==> p == data[|data| - 1] && entries == old(entries)
    {
      hide Split, Distinct, Ring, Chain;
      ghost var i := |data| - 1;
      DataFacts(i);
      p := dataHead.prev;
      if prepend {
        RaiseFirst(p, i);
      }
    }

    method Front() returns (p: LinkNode<K, V>)
      requires Valid() && entries != []
      ensures p == data[0] && (p.key, p.val) == entries[0]
    {
      hide Split, Distinct, Ring, Chain;
      DataFacts(0);
      p := dataHead.next;
    }

    // The index holds exactly the keys of the entries, once each.
    lemma KeysIndexed()
      requires Valid()
      ensures DistinctKeys(entries) && forall k :: k in valueTab <==> HasKey(entries, k)
    {
      IndexDistinct(entries, data, valueTab);
    }

    lemma CutIsWithout(i: nat)
      requires Valid() && i < |entries|
      ensures Cut(entries, i) == Without(entries, entries[i].0)
    {
      KeysIndexed();
      WithoutCutsOne(entries, i);
    }

    // size(), empty(), IsFull() and count() agree with what the list holds.
    lemma Counts(key: K)
      requires Valid()
      ensures Size() == |entries| <= Capacity()
      ensures Empty() <==> entries == []
      ensures IsFull() <==> Capacity() > 0 && Size() == Capacity()
      ensures Count(key) == 1 <==> HasKey(entries, key)
    {
      HeadFacts({});
      KeysIndexed();
      SetOfDistinct(Keys(entries));
      assert valueTab.Keys == set k | k in Keys(entries) by {
        assert forall i :: 0 <= i < |entries| ==> Keys(entries)[i] == entries[i].0;
      }
    }
  }

  // One operation of an access trace.
  method Perform<K(==), V>(list: HashList<K, V>, op: Op<K, V>)
    requires list.Valid() && list.numItem > 0
    modifies list`data, list`free, list`entries, list`valueTab, list.Repr()
    ensures list.Valid() && list.entries == Step(old(list.entries), list.numItem, op, list.unset)
  {
    hide HashList.Valid, Accessed, PushedFront;
    match op {
      case Access(k) => var p := list.At(k);
      case PushFront(k, v) => list.PushFront(k, v);
    }
  }

  lemma NothingRun<K, V>(capacity: nat, unset: V)
    requires capacity > 0
    ensures Run<K, V>(capacity, [], unset) == []
  {
  }

  // A whole access trace on a list: its state is the one LruSpec gives, so LruSpec's theorems are about it.
  method Replay<K(==), V>(list: HashList<K, V>, trace: seq<Op<K, V>>)
    requires list.Valid() && list.numItem > 0 && list.entries == []
    modifies list`data, list`free, list`entries, list`valueTab, list.Repr()
    ensures list.Valid() && list.entries == Run(list.numItem, trace, list.unset)
  {
    hide *;
    var i := 0;
    NothingRun<K, V>(list.numItem, list.unset);
    while i < |trace|
      invariant i <= |trace| && list.Valid()
      invariant list.entries == Run(list.numItem, trace[..i], list.unset)
    {
      Perform(list, trace[i]);
      assert trace[..i + 1] == trace[..i] + [trace[i]];
      RunStep(list.numItem, trace[..i], trace[i], list.unset);
      i := i + 1;
    }
    assert trace[..i] == trace;
  }
}
