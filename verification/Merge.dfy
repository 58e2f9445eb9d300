/**
 Merging the resources of several modules: the first declaration of an id and limit key wins, whether
 whole tables are folded together or records are pushed one by one.
 */
module Merging {
  import opened Bytes
  import opened ResourceData
  import opened Sequences

  type Table = map<int, seq<Item>>

  predicate Has(items: seq<Item>, limitKey: Text) {
    exists i :: 0 <= i < |items| && items[i].limitKey == limitKey
  }

  predicate NoDuplicates(items: seq<Item>) {
    forall i, j :: 0 <= i < j < |items| ==> items[i].limitKey != items[j].limitKey
  }

  // The list with those items added whose limit key it does not have yet.
  function Appended(list: seq<Item>, items: seq<Item>): seq<Item> {
    if items == [] then list
    else
      var before, last := Appended(list, items[..|items| - 1]), items[|items| - 1];
      if Has(before, last.limitKey) then before else before + [last]
  }

  // Of every limit key the first item.
  function Firsts(items: seq<Item>): seq<Item> { Appended([], items) }

  predicate IsFirst(items: seq<Item>, i: nat)
    requires i < |items|
  {
    forall j :: 0 <= j < i ==> items[j].limitKey != items[i].limitKey
  }

  lemma HasPushed(list: seq<Item>, item: Item, key: Text)
    ensures Has(list + [item], key) <==> Has(list, key) || item.limitKey == key
  {
    var n := list + [item];
    assert n[|list|] == item && forall i :: 0 <= i < |list| ==> n[i] == list[i];
  }

  lemma {:induction false} AppendedHas(list: seq<Item>, items: seq<Item>, key: Text)
    ensures Has(Appended(list, items), key) <==> Has(list, key) || Has(items, key)
    ensures list <= Appended(list, items)
  {
    if items != [] {
      var init, last := items[..|items| - 1], items[|items| - 1];
      assert items == init + [last];
      AppendedHas(list, init, key);
      HasPushed(init, last, key);
      HasPushed(Appended(list, init), last, key);
      hide Has;
    }
  }

  lemma PushedNoDuplicates(list: seq<Item>, item: Item)
    ensures NoDuplicates(list + [item]) <==> NoDuplicates(list) && !Has(list, item.limitKey)
  {
    var n := list + [item];
    assert n[|list|] == item && forall i :: 0 <= i < |list| ==> n[i] == list[i];
    if Has(list, item.limitKey) {
      var i :| 0 <= i < |list| && list[i].limitKey == item.limitKey;
      assert n[i].limitKey == n[|list|].limitKey;
    }
  }

  lemma {:induction false} AppendedNoDuplicates(list: seq<Item>, items: seq<Item>)
    ensures NoDuplicates(Appended(list, items)) <==> NoDuplicates(list)
  {
    if items != [] {
      var before := Appended(list, items[..|items| - 1]);
      AppendedNoDuplicates(list, items[..|items| - 1]);
      PushedNoDuplicates(before, items[|items| - 1]);
    }
  }

  /** Firsts holds no limit key twice, and holds exactly the items before which none has their limit key. */
  lemma {:induction false} FirstsAre(items: seq<Item>, x: Item)
    ensures NoDuplicates(Firsts(items))
    ensures x in Firsts(items) <==> exists i :: 0 <= i < |items| && items[i] == x && IsFirst(items, i)
  {
    AppendedNoDuplicates([], items);
    if items != [] {
      var n := |items| - 1;
      var init, last := items[..n], items[n];
      FirstsAre(init, x);
      AppendedHas([], init, last.limitKey);
      assert Has(init, last.limitKey) <==> !IsFirst(items, n);
      forall i | 0 <= i < n ensures items[i] == init[i] && (IsFirst(items, i) <==> IsFirst(init, i)) {
      }
    }
  }

  // The item Firsts has at a place, in the list.
  lemma FirstFrom(items: seq<Item>, p: nat) returns (i: nat)
    requires p < |Firsts(items)|
    ensures i < |items| && items[i] == Firsts(items)[p] && IsFirst(items, i)
  {
    FirstsAre(items, Firsts(items)[p]);
    hide Firsts, IsFirst;
    i :| 0 <= i < |items| && items[i] == Firsts(items)[p] && IsFirst(items, i);
  }

  /** The items kept stay in their order. */
  lemma {:induction false} FirstsInOrder(items: seq<Item>, p: nat, q: nat) returns (i: nat, j: nat)
    requires p < q < |Firsts(items)|
    ensures i < j < |items| && items[i] == Firsts(items)[p] && items[j] == Firsts(items)[q]
    ensures IsFirst(items, i) && IsFirst(items, j)
  {
    var n := |items| - 1;
    AppendedStep([], items);
    if q < |Firsts(items[..n])| {
      i, j := FirstsInOrder(items[..n], p, q);
    } else {
      i := FirstFrom(items[..n], p);
      j := n;
      AppendedHas([], items[..n], items[n].limitKey);
      assert forall k :: 0 <= k < n ==> items[..n][k] == items[k];
    }
    hide Appended;
    assert forall k :: 0 <= k < n ==> items[..n][k] == items[k];
  }

  lemma {:induction false} AppendedConcat(list: seq<Item>, a: seq<Item>, b: seq<Item>)
    ensures Appended(list, a + b) == Appended(Appended(list, a), b)
  {
    if b == [] {
      assert a + b == a;
    } else {
      var n := |b| - 1;
      assert (a + b)[..|a| + n] == a + b[..n] && (a + b)[|a| + n] == b[n];
      AppendedConcat(list, a, b[..n]);
    }
  }

  lemma {:induction false} FirstsOfDistinct(items: seq<Item>)
    requires NoDuplicates(items)
    ensures Firsts(items) == items
  {
    if items != [] {
      var n := |items| - 1;
      FirstsOfDistinct(items[..n]);
      assert items == items[..n] + [items[n]];
    }
  }

  // ------------------------------------------------------------ whole tables

  function Merged(alls: Table, other: Table): Table {
    map id | id in alls.Keys + other.Keys ::
      if id !in other then alls[id] else if id !in alls then other[id] else Appended(alls[id], other[id])
  }

  // A limit key comes up again.
  ghost predicate Conflicts(list: seq<Item>, items: seq<Item>) {
    exists i :: 0 <= i < |items| && (Has(list, items[i].limitKey) || !IsFirst(items, i))
  }

  method AppendItems(list: seq<Item>, items: seq<Item>, tipError: bool) returns (r: seq<Item>, ok: bool)
    ensures ok <==> !tipError || !Conflicts(list, items)
    ensures ok ==> r == Appended(list, items)
  {
    r := list;
    for i := 0 to |items|
      invariant r == Appended(list, items[..i])
      invariant tipError ==> forall j :: 0 <= j < i ==> !Has(list, items[j].limitKey) && IsFirst(items, j)
    {
      var resourceItem := items[i];
      assert items[..i + 1][..i] == items[..i];
      AppendedHas(list, items[..i], resourceItem.limitKey);
      assert Has(items[..i], resourceItem.limitKey) <==> !IsFirst(items, i);
      hide Appended;
      if Has(r, resourceItem.limitKey) {
        if tipError {
          return r, false;
        }
      } else {
        r := r + [resourceItem];
      }
      assert r == Appended(list, items[..i + 1]) by { AppendedStep(list, items[..i + 1]); }
    }
    assert items[..|items|] == items;
    return r, true;
  }

  lemma AppendedStep(list: seq<Item>, items: seq<Item>)
    requires items != []
    ensures var before, last := Appended(list, items[..|items| - 1]), items[|items| - 1];
      Appended(list, items) == if Has(before, last.limitKey) then before else before + [last]
  {
  }

  // The tables merged but for the ids in rest, with nothing repeated so far.
  ghost predicate MergedBut(alls: Table, other: Table, rest: set<int>, r: Table) {
    && r.Keys == alls.Keys + (other.Keys - rest)
    && (forall id :: id in r ==> r[id] == if id in rest then alls[id] else Merged(alls, other)[id])
  }

  ghost predicate NoConflict(alls: Table, other: Table, done: set<int>) {
    forall id :: id in done && id in alls && id in other ==> !Conflicts(alls[id], other[id])
  }

  lemma MergeOne(alls: Table, other: Table, rest: set<int>, r: Table, id: int)
    requires rest <= other.Keys && id in rest && MergedBut(alls, other, rest, r)
    ensures id in r <==> id in alls
    ensures id in r ==> r[id] == alls[id] && MergedBut(alls, other, rest - {id}, r[id := Appended(alls[id], other[id])])
    ensures id !in r ==> MergedBut(alls, other, rest - {id}, r[id := other[id]])
  {
    hide Appended;
  }

  lemma ConflictStep(alls: Table, other: Table, done: set<int>, id: int)
    requires NoConflict(alls, other, done) && id in other
    ensures NoConflict(alls, other, done + {id}) <==> (id in alls ==> !Conflicts(alls[id], other[id]))
  {
    hide Conflicts;
  }

  lemma MergeStarts(alls: Table, other: Table)
    ensures MergedBut(alls, other, other.Keys, alls) && NoConflict(alls, other, {})
  {
    assert alls.Keys + (other.Keys - other.Keys) == alls.Keys;
    hide Conflicts, Appended;
  }

  lemma MergeEnds(alls: Table, other: Table, r: Table)
    requires MergedBut(alls, other, {}, r)
    ensures r == Merged(alls, other)
  {
    hide Conflicts, Appended;
    var m := Merged(alls, other);
    assert other.Keys - {} == other.Keys;
    assert forall id :: id in r <==> id in m;
    assert forall id :: id in r ==> r[id] == m[id];
  }

  lemma ConflictAnywhere(alls: Table, other: Table, done: set<int>)
    requires done <= other.Keys && !NoConflict(alls, other, done)
    ensures !NoConflict(alls, other, other.Keys)
  {
    hide Conflicts;
  }

  method Any<T(==)>(s: set<T>) returns (x: T)
    requires s != {}
    ensures x in s
  {
    x :| x in s;
  }

  /** Fails, when it is told to, exactly if some limit key of an id comes up again. */
  method MergeResourceItem(alls: Table, other: Table, tipError: bool) returns (r: Table, ok: bool)
    ensures ok <==> !tipError || NoConflict(alls, other, other.Keys)
    ensures ok ==> r == Merged(alls, other)
  {
    hide MergedBut, NoConflict, Merged, Conflicts, Appended;
    r := alls;
    var rest := other.Keys;
    MergeStarts(alls, other);
    assert other.Keys - rest == {};
    while rest != {}
      invariant rest <= other.Keys && MergedBut(alls, other, rest, r)
      invariant tipError ==> NoConflict(alls, other, other.Keys - rest)
      decreases |rest|
    {
      var id := Any(rest);
      MergeOne(alls, other, rest, r, id);
      assert (other.Keys - rest) + {id} == other.Keys - (rest - {id});
      if tipError { ConflictStep(alls, other, other.Keys - rest, id); }
      if id !in r {
        r := r[id := other[id]];
      } else {
        var list, fine := AppendItems(r[id], other[id], tipError);
        if !fine {
          ConflictAnywhere(alls, other, other.Keys - (rest - {id}));
          return r, false;
        }
        r := r[id := list];
      }
      rest := rest - {id};
    }
    assert other.Keys - rest == other.Keys;
    MergeEnds(alls, other, r);
    return r, true;
  }

  function Folded(modules: seq<Table>): Table {
    if modules == [] then map[] else Merged(Folded(modules[..|modules| - 1]), modules[|modules| - 1])
  }

  function ItemsIn(m: Table, id: int): seq<Item> { if id in m then m[id] else [] }

  // All items the modules declare for an id, in module order.
  function Declared(modules: seq<Table>, id: int): seq<Item> {
    if modules == [] then []
    else Declared(modules[..|modules| - 1], id) + ItemsIn(modules[|modules| - 1], id)
  }

  // The list of the first module that has the id.
  function FirstList(modules: seq<Table>, id: int): seq<Item> {
    if modules == [] then []
    else if exists m :: 0 <= m < |modules| - 1 && id in modules[m] then FirstList(modules[..|modules| - 1], id)
    else ItemsIn(modules[|modules| - 1], id)
  }

  predicate Declares(modules: seq<Table>, id: int) { exists m :: 0 <= m < |modules| && id in modules[m] }

  lemma DeclaresStep(modules: seq<Table>, id: int)
    requires modules != []
    ensures var init, last := modules[..|modules| - 1], modules[|modules| - 1];
      && (Declares(modules, id) <==> Declares(init, id) || id in last)
      && FirstList(modules, id) == if Declares(init, id) then FirstList(init, id) else ItemsIn(last, id)
  {
    var n := |modules| - 1;
    assert forall m :: 0 <= m < n ==> modules[..n][m] == modules[m];
  }

  lemma {:induction false} NotDeclared(modules: seq<Table>, id: int)
    requires !Declares(modules, id)
    ensures Declared(modules, id) == []
  {
    if modules != [] {
      DeclaresStep(modules, id);
      NotDeclared(modules[..|modules| - 1], id);
    }
  }

  lemma FoldedStep(modules: seq<Table>, id: int)
    requires modules != []
    ensures var init, last := modules[..|modules| - 1], modules[|modules| - 1];
      && (id in Folded(modules) <==> id in Folded(init) || id in last)
      && Declared(modules, id) == Declared(init, id) + ItemsIn(last, id)
      && (id in Folded(modules) ==>
            Folded(modules)[id] ==
            if id in Folded(init) then Appended(Folded(init)[id], ItemsIn(last, id)) else ItemsIn(last, id))
  {
  }

  // The first list stands as it is; what later modules declare goes through the limit key test.
  lemma {:induction false} FoldedIs(modules: seq<Table>, id: int) returns (rest: seq<Item>)
    ensures id in Folded(modules) <==> Declares(modules, id)
    ensures id in Folded(modules) ==> Folded(modules)[id] == Appended(FirstList(modules, id), rest)
    ensures Declared(modules, id) == FirstList(modules, id) + rest
  {
    hide *;
    rest := [];
    if modules == [] {
      NoModules(id);
    } else {
      var init, last := modules[..|modules| - 1], modules[|modules| - 1];
      DeclaresStep(modules, id);
      FoldedStep(modules, id);
      rest := FoldedIs(init, id);
      var more := ItemsIn(last, id);
      if Declares(init, id) {
        AppendedConcat(FirstList(init, id), rest, more);
        assert (FirstList(modules, id) + rest) + more == FirstList(modules, id) + (rest + more);
        rest := rest + more;
      } else {
        NotDeclared(init, id);
        NothingAppended(more);
        rest := [];
      }
    }
  }

  lemma NoModules(id: int)
    ensures Folded([]) == map[] && !Declares([], id) && Declared([], id) == [] && FirstList([], id) == []
  {
  }

  lemma NothingAppended(list: seq<Item>)
    ensures Appended(list, []) == list == list + [] == [] + list
  {
  }

  /**
   Of every id and limit key the merge keeps the item declared first, and no limit key twice, exactly
   when the first module with that id does not itself repeat a limit key under it: that list is taken
   over untested.
   */
  lemma EarliestWins(modules: seq<Table>, id: int)
    ensures id in Folded(modules) <==> Declares(modules, id)
    ensures id in Folded(modules) ==>
      (Folded(modules)[id] == Firsts(Declared(modules, id)) <==> NoDuplicates(FirstList(modules, id)))
    ensures id in Folded(modules) ==> (NoDuplicates(Folded(modules)[id]) <==> NoDuplicates(FirstList(modules, id)))
  {
    var rest := FoldedIs(modules, id);
    if id in Folded(modules) {
      var first := FirstList(modules, id);
      AppendedConcat([], first, rest);
      AppendedNoDuplicates(first, rest);
      AppendedNoDuplicates([], Declared(modules, id));
      if NoDuplicates(first) { FirstsOfDistinct(first); }
    }
  }

  // No declaration of the id and limit key in an earlier module, or earlier in the same one.
  ghost predicate IsEarliest(modules: seq<Table>, id: int, m: nat, i: nat) {
    && m < |modules| && id in modules[m] && i < |modules[m][id]|
    && forall n: nat, j: nat |
         n < |modules| && id in modules[n] && j < |modules[n][id]| && (n < m || (n == m && j < i)) ::
         modules[n][id][j].limitKey != modules[m][id][i].limitKey
  }

  function ListsOf(modules: seq<Table>, id: int): (lists: seq<seq<Item>>)
    ensures |lists| == |modules| && forall m :: 0 <= m < |modules| ==> lists[m] == ItemsIn(modules[m], id)
  {
    seq(|modules|, m requires 0 <= m < |modules| => ItemsIn(modules[m], id))
  }

  lemma {:induction false} DeclaredFlat(modules: seq<Table>, id: int)
    ensures Declared(modules, id) == Flatten(ListsOf(modules, id))
  {
    if modules != [] {
      var n := |modules| - 1;
      DeclaredFlat(modules[..n], id);
      assert ListsOf(modules, id)[..n] == ListsOf(modules[..n], id);
    }
  }

  // Where a declaration stands in the list of all of them; those before it are there the earlier ones.
  lemma DeclaredAt(modules: seq<Table>, id: int, m: nat, i: nat) returns (k: nat)
    requires m < |modules| && id in modules[m] && i < |modules[m][id]|
    ensures k == |Flatten(ListsOf(modules, id)[..m])| + i
    ensures k < |Declared(modules, id)| && Declared(modules, id)[k] == modules[m][id][i]
  {
    DeclaredFlat(modules, id);
    FlattenAt(ListsOf(modules, id), m, i);
    k := |Flatten(ListsOf(modules, id)[..m])| + i;
  }

  lemma DeclaredFrom(modules: seq<Table>, id: int, k: nat) returns (m: nat, i: nat)
    requires k < |Declared(modules, id)|
    ensures m < |modules| && id in modules[m] && i < |modules[m][id]| && modules[m][id][i] == Declared(modules, id)[k]
    ensures k == |Flatten(ListsOf(modules, id)[..m])| + i
  {
    DeclaredFlat(modules, id);
    m, i := FlattenFrom(ListsOf(modules, id), k);
    hide Declared, Flatten;
  }

  lemma DeclaredOrder(modules: seq<Table>, id: int, m: nat, i: nat, n: nat, j: nat)
    requires m < |modules| && id in modules[m] && i < |modules[m][id]|
    requires n < |modules| && id in modules[n] && j < |modules[n][id]|
    ensures var lists := ListsOf(modules, id);
      |Flatten(lists[..n])| + j < |Flatten(lists[..m])| + i <==> n < m || (n == m && j < i)
  {
    var lists := ListsOf(modules, id);
    hide Flatten;
    if n < m { FlattenGrows(lists, n, m); }
    if m < n { FlattenGrows(lists, m, n); }
  }

  // The first of a limit key in the list of all declarations is its earliest declaration.
  lemma EarliestIsFirst(modules: seq<Table>, id: int, m: nat, i: nat, k: nat)
    requires m < |modules| && id in modules[m] && i < |modules[m][id]|
    requires k == |Flatten(ListsOf(modules, id)[..m])| + i
    requires k < |Declared(modules, id)| && Declared(modules, id)[k] == modules[m][id][i]
    ensures IsFirst(Declared(modules, id), k) <==> IsEarliest(modules, id, m, i)
  {
    hide Declared, Flatten, ListsOf;
    var all := Declared(modules, id);
    if IsEarliest(modules, id, m, i) {
      forall h | 0 <= h < k ensures all[h].limitKey != all[k].limitKey {
        var n, j := DeclaredFrom(modules, id, h);
        DeclaredOrder(modules, id, m, i, n, j);
      }
    }
    if IsFirst(all, k) {
      forall n: nat, j: nat | n < |modules| && id in modules[n] && j < |modules[n][id]| && (n < m || (n == m && j < i))
        ensures modules[n][id][j].limitKey != modules[m][id][i].limitKey
      {
        var h := DeclaredAt(modules, id, n, j);
        DeclaredOrder(modules, id, m, i, n, j);
      }
    }
  }

  /**
   What the merge keeps, module by module: an item is in the merged list exactly if it is some module's earliest
   declaration of its limit key; provided the first module with the id repeats none.
   */
  lemma KeptIsEarliest(modules: seq<Table>, id: int, x: Item)
    requires Declares(modules, id) && NoDuplicates(FirstList(modules, id))
    ensures id in Folded(modules)
    ensures x in Folded(modules)[id] <==>
            exists m: nat, i: nat :: IsEarliest(modules, id, m, i) && modules[m][id][i] == x
  {
    EarliestWins(modules, id);
    FirstsAre(Declared(modules, id), x);
    hide Folded, Declared, FirstList, Firsts, NoDuplicates, IsFirst;
    var all := Declared(modules, id);
    if x in Folded(modules)[id] {
      var k :| 0 <= k < |all| && all[k] == x && IsFirst(all, k);
      var m, i := DeclaredFrom(modules, id, k);
      EarliestIsFirst(modules, id, m, i, k);
      assert IsEarliest(modules, id, m, i);
    }
    if m: nat, i: nat :| IsEarliest(modules, id, m, i) && modules[m][id][i] == x {
      var k := DeclaredAt(modules, id, m, i);
      EarliestIsFirst(modules, id, m, i, k);
    }
  }

  /** A first module that repeats a limit key under an id keeps both items, where the later test keeps one. */
  lemma RepeatedFirst(x: Item, y: Item)
    requires x.limitKey == y.limitKey
    ensures var modules := [map[1 := [x, y]]];
      && 1 in Folded(modules) && Folded(modules)[1] == [x, y]
      && Firsts(Declared(modules, 1)) == [x] && !NoDuplicates(Folded(modules)[1])
  {
    var m: Table := map[1 := [x, y]];
    var modules := [m];
    assert modules[..0] == [];
    NoModules(1);
    FoldedStep(modules, 1);
    assert Declared(modules, 1) == [x, y];
    assert [x, y][..1] == [x] && [x][..0] == [];
    AppendedStep([], [x]);
    AppendedStep([], [x, y]);
    assert [x, y][0].limitKey == [x, y][1].limitKey;
    assert Firsts([x]) == [x];
  }
}
