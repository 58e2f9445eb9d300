/** The append mode's merge: records pushed one by one, module after module, against the merge of whole tables. */
module AppendMerging {
  import opened Bytes
  import opened IdWorkers
  import opened Merging
  import opened ResourceData
  import opened Sequences

  // A loaded record with the id its name was given; a negative one means that there is none.
  datatype Loaded = Loaded(id: int, item: Item)

  function IdOf(ids: map<ResName, int>, item: Item): int {
    if IdName(item) in ids then ids[IdName(item)] else -1
  }

  lemma IdOfIs(ids: map<ResName, int>, item: Item)
    ensures IdOf(ids, item) == if IdName(item) in ids then ids[IdName(item)] else -1
  {
  }

  function Numbered(ids: map<ResName, int>, items: seq<Item>): (rs: seq<Loaded>)
    ensures |rs| == |items| && forall i :: 0 <= i < |rs| ==> rs[i] == Loaded(IdOf(ids, items[i]), items[i])
  {
    seq(|items|, i requires 0 <= i < |items| => Loaded(IdOf(ids, items[i]), items[i]))
  }

  function AllNumbered(ids: map<ResName, int>, modules: seq<seq<Item>>): (rs: seq<seq<Loaded>>)
    ensures |rs| == |modules| && forall m :: 0 <= m < |rs| ==> rs[m] == Numbered(ids, modules[m])
  {
    seq(|modules|, m requires 0 <= m < |modules| => Numbered(ids, modules[m]))
  }

  function AddOnce(m: Table, r: Loaded): Table { m[r.id := Appended(ItemsIn(m, r.id), [r.item])] }

  function Accumulated(m: Table, rs: seq<Loaded>): Table {
    if rs == [] then m else AddOnce(Accumulated(m, rs[..|rs| - 1]), rs[|rs| - 1])
  }

  // The items of one id.
  function Of(rs: seq<Loaded>, id: int): seq<Item> {
    if rs == [] then []
    else Of(rs[..|rs| - 1], id) + if rs[|rs| - 1].id == id then [rs[|rs| - 1].item] else []
  }

  // No id has one limit key twice.
  ghost predicate Consistent(rs: seq<Loaded>) {
    forall id :: NoDuplicates(Of(rs, id))
  }

  ghost predicate AllNamed(rs: seq<Loaded>) { forall i :: 0 <= i < |rs| ==> rs[i].id >= 0 }

  ghost predicate Acceptable(rs: seq<Loaded>) { AllNamed(rs) && Consistent(rs) }

  lemma AppendedOne(list: seq<Item>, item: Item)
    ensures Appended(list, [item]) == if Has(list, item.limitKey) then list else list + [item]
  {
    assert [item][..0] == [];
  }

  lemma AddOnceIs(m: Table, r: Loaded, id: int)
    ensures id in AddOnce(m, r) <==> id in m || id == r.id
    ensures ItemsIn(AddOnce(m, r), id) == Appended(ItemsIn(m, id), if id == r.id then [r.item] else [])
  {
  }

  lemma OfStep(rs: seq<Loaded>, r: Loaded, id: int)
    ensures Of(rs + [r], id) == Of(rs, id) + if r.id == id then [r.item] else []
    ensures r.id != id ==> Of(rs + [r], id) == Of(rs, id)
  {
    assert (rs + [r])[..|rs|] == rs;
  }

  // The items of one id stand in the order of their records.
  lemma {:induction false} OfInOrder(rs: seq<Loaded>, id: int, p: nat, q: nat) returns (a: nat, b: nat)
    requires p < q < |Of(rs, id)|
    ensures a < b < |rs| && rs[a] == Loaded(id, Of(rs, id)[p]) && rs[b] == Loaded(id, Of(rs, id)[q])
  {
    var n := |rs| - 1;
    assert rs == rs[..n] + [rs[n]];
    OfStep(rs[..n], rs[n], id);
    hide Of;
    if q < |Of(rs[..n], id)| {
      a, b := OfInOrder(rs[..n], id, p, q);
    } else {
      a := OfFrom(rs[..n], id, p);
      b := n;
    }
  }

  lemma {:induction false} OfFrom(rs: seq<Loaded>, id: int, p: nat) returns (a: nat)
    requires p < |Of(rs, id)|
    ensures a < |rs| && rs[a] == Loaded(id, Of(rs, id)[p])
  {
    var n := |rs| - 1;
    if p < |Of(rs[..n], id)| { a := OfFrom(rs[..n], id, p); } else { a := n; }
  }

  lemma AccumulatedStep(m: Table, rs: seq<Loaded>, r: Loaded)
    ensures Accumulated(m, rs + [r]) == AddOnce(Accumulated(m, rs), r)
  {
    assert (rs + [r])[..|rs|] == rs;
  }

  /** Under every id, accumulating appends its items, limit keys tested. */
  lemma {:induction false} AccumulatedIs(m: Table, rs: seq<Loaded>, id: int)
    ensures id in Accumulated(m, rs) <==> id in m || Of(rs, id) != []
    ensures ItemsIn(Accumulated(m, rs), id) == Appended(ItemsIn(m, id), Of(rs, id))
  {
    if rs != [] {
      var init, r := rs[..|rs| - 1], rs[|rs| - 1];
      assert rs == init + [r];
      AccumulatedIs(m, init, id);
      OfStep(init, r, id);
      AccumulatedStep(m, init, r);
      AddOnceIs(Accumulated(m, init), r, id);
      AppendedConcat(ItemsIn(m, id), Of(init, id), if r.id == id then [r.item] else []);
      hide *;
    }
  }

  lemma ConsistentStep(rs: seq<Loaded>, r: Loaded)
    requires Consistent(rs)
    ensures Consistent(rs + [r]) <==> !Has(Of(rs, r.id), r.item.limitKey)
  {
    hide Of, NoDuplicates, Has;
    forall id ensures NoDuplicates(Of(rs + [r], id)) <==> id != r.id || !Has(Of(rs, r.id), r.item.limitKey) {
      OfStep(rs, r, id);
      PushedNoDuplicates(Of(rs, id), r.item);
      assert NoDuplicates(Of(rs, id));
    }
    if Consistent(rs + [r]) { assert NoDuplicates(Of(rs + [r], r.id)); }
  }

  lemma ConsistentPrefix(rs: seq<Loaded>, i: nat)
    requires i <= |rs| && Consistent(rs)
    ensures Consistent(rs[..i])
    decreases |rs|
  {
    if i < |rs| {
      var init, r := rs[..|rs| - 1], rs[|rs| - 1];
      assert rs == init + [r];
      hide Of, NoDuplicates, Has;
      forall id ensures NoDuplicates(Of(init, id)) {
        OfStep(init, r, id);
        assert NoDuplicates(Of(rs, id));
        PushedNoDuplicates(Of(init, id), r.item);
      }
      ConsistentPrefix(init, i);
      assert init[..i] == rs[..i];
    } else {
      assert rs[..i] == rs;
    }
  }

  lemma AcceptableIs(rs: seq<Loaded>)
    ensures Acceptable(rs) <==> AllNamed(rs) && Consistent(rs)
  {
    hide Consistent;
  }

  lemma AcceptableStep(rs: seq<Loaded>, r: Loaded)
    requires Acceptable(rs)
    ensures Consistent(rs)
    ensures Acceptable(rs + [r]) <==> r.id >= 0 && !Has(Of(rs, r.id), r.item.limitKey)
  {
    var more := rs + [r];
    assert more[|rs|] == r && forall i :: 0 <= i < |rs| ==> more[i] == rs[i];
    ConsistentStep(rs, r);
    hide Consistent, Has, Of;
  }

  lemma AcceptablePrefix(rs: seq<Loaded>, i: nat)
    requires i <= |rs| && Acceptable(rs)
    ensures Acceptable(rs[..i])
  {
    ConsistentPrefix(rs, i);
    hide Consistent;
  }

  lemma AccumulatedFirsts(rs: seq<Loaded>, id: int)
    requires Consistent(rs)
    ensures ItemsIn(Accumulated(map[], rs), id) == Of(rs, id)
  {
    AccumulatedIs(map[], rs, id);
    FirstsOfDistinct(Of(rs, id));
    hide Accumulated, Of;
  }

  lemma {:induction false} AccumulatedConcat(m: Table, a: seq<Loaded>, b: seq<Loaded>)
    ensures Accumulated(m, a + b) == Accumulated(Accumulated(m, a), b)
  {
    if b == [] {
      assert a + b == a;
    } else {
      var n := |b| - 1;
      assert (a + b)[..|a| + n] == a + b[..n] && (a + b)[|a| + n] == b[n];
      AccumulatedConcat(m, a, b[..n]);
    }
  }

  // ------------------------------------------------------------ ids that stay

  // A name that has an id keeps it.
  lemma NumberedKept(before: map<ResName, int>, after: map<ResName, int>, items: seq<Item>)
    requires Kept(before, after) && AllNamed(Numbered(before, items))
    ensures Numbered(before, items) == Numbered(after, items)
  {
    hide IdName;
  }

  lemma AllNumberedKept(before: map<ResName, int>, after: map<ResName, int>, modules: seq<seq<Item>>)
    requires Kept(before, after) && forall m :: 0 <= m < |modules| ==> Acceptable(AllNumbered(before, modules)[m])
    ensures AllNumbered(before, modules) == AllNumbered(after, modules)
  {
    hide Consistent;
    forall m | 0 <= m < |modules| ensures AllNumbered(before, modules)[m] == AllNumbered(after, modules)[m] {
      assert Acceptable(AllNumbered(before, modules)[m]);
      NumberedKept(before, after, modules[m]);
    }
  }

  lemma NumberedStep(ids: map<ResName, int>, items: seq<Item>, i: nat)
    requires i < |items|
    ensures Numbered(ids, items[..i + 1]) == Numbered(ids, items[..i]) + [Loaded(IdOf(ids, items[i]), items[i])]
    ensures Numbered(ids, items)[..i + 1] == Numbered(ids, items[..i + 1]) && items[..i + 1] == items[..i] + [items[i]]
    ensures Numbered(ids, items)[i].id == IdOf(ids, items[i])
  {
    hide IdOf;
  }

  lemma NumberedPrefix(ids: map<ResName, int>, items: seq<Item>, n: nat)
    requires n <= |items|
    ensures Numbered(ids, items)[..n] == Numbered(ids, items[..n])
  {
    hide IdOf;
  }

  // ------------------------------------------------------------ the two ways agree

  // The modules' tables, each of them its records put under their ids.
  function Tables(modules: seq<seq<Loaded>>): (t: seq<Table>)
    ensures |t| == |modules|
  {
    seq(|modules|, m requires 0 <= m < |modules| => Accumulated(map[], modules[m]))
  }

  function AllRecords(modules: seq<seq<Loaded>>): seq<Loaded> { Flatten(modules) }

  lemma {:induction false} OfConcat(a: seq<Loaded>, b: seq<Loaded>, id: int)
    ensures Of(a + b, id) == Of(a, id) + Of(b, id)
  {
    if b == [] {
      assert a + b == a;
    } else {
      var n := |b| - 1;
      assert (a + b)[..|a| + n] == a + b[..n] && (a + b)[|a| + n] == b[n];
      OfConcat(a, b[..n], id);
      var tail := if b[n].id == id then [b[n].item] else [];
      assert (Of(a, id) + Of(b[..n], id)) + tail == Of(a, id) + (Of(b[..n], id) + tail);
    }
  }

  lemma ConsistentOf(rs: seq<Loaded>, id: int)
    requires Consistent(rs)
    ensures NoDuplicates(Of(rs, id))
  {
  }

  lemma TableAt(modules: seq<seq<Loaded>>, m: nat)
    requires m < |modules|
    ensures Tables(modules)[m] == Accumulated(map[], modules[m])
  {
  }

  lemma AllRecordsStep(modules: seq<seq<Loaded>>)
    requires modules != []
    ensures AllRecords(modules) == AllRecords(modules[..|modules| - 1]) + modules[|modules| - 1]
  {
  }

  lemma {:induction false} DeclaredIs(modules: seq<seq<Loaded>>, id: int)
    requires forall m :: 0 <= m < |modules| ==> Consistent(modules[m])
    ensures Declared(Tables(modules), id) == Of(AllRecords(modules), id)
    ensures Declares(Tables(modules), id) <==> Of(AllRecords(modules), id) != []
    ensures NoDuplicates(FirstList(Tables(modules), id))
  {
    if modules != [] {
      var n := |modules| - 1;
      var init, last := modules[..n], modules[n];
      assert Tables(modules)[..n] == Tables(init);
      hide *;
      TableAt(modules, n);
      DeclaredIs(init, id);
      DeclaresStep(Tables(modules), id);
      FoldedStep(Tables(modules), id);
      AllRecordsStep(modules);
      OfConcat(AllRecords(init), last, id);
      AccumulatedFirsts(last, id);
      AccumulatedIs(map[], last, id);
      assert NoDuplicates(Of(last, id)) by { ConsistentOf(last, id); }
    }
  }

  lemma SameTables(a: Table, b: Table)
    requires forall id :: (id in a <==> id in b) && ItemsIn(a, id) == ItemsIn(b, id)
    ensures a == b
  {
    forall id ensures id in a.Keys <==> id in b.Keys {
      assert id in a <==> id in b;
    }
    assert a.Keys == b.Keys;
    forall id | id in a ensures id in b && a[id] == b[id] {
      assert ItemsIn(a, id) == ItemsIn(b, id);
    }
  }

  lemma SameUnder(modules: seq<seq<Loaded>>, id: int)
    requires forall m :: 0 <= m < |modules| ==> Consistent(modules[m])
    ensures var pushed, folded := Accumulated(map[], AllRecords(modules)), Folded(Tables(modules));
      && (id in pushed <==> id in folded)
      && ItemsIn(pushed, id) == ItemsIn(folded, id) == Firsts(Of(AllRecords(modules), id))
  {
    AccumulatedIs(map[], AllRecords(modules), id);
    DeclaredIs(modules, id);
    EarliestWins(Tables(modules), id);
    hide Accumulated, Folded, Tables, AllRecords, Declared, Declares, Of, FirstList, NoDuplicates;
  }

  /**
   With no module in conflict with itself, pushing all records one by one gives what folding the
   modules' tables gives: of every id and limit key the item declared first.
   */
  lemma {:induction false} SameAsMerge(modules: seq<seq<Loaded>>)
    requires forall m :: 0 <= m < |modules| ==> Consistent(modules[m])
    ensures Accumulated(map[], AllRecords(modules)) == Folded(Tables(modules))
    ensures forall id :: ItemsIn(Folded(Tables(modules)), id) == Firsts(Of(AllRecords(modules), id))
  {
    hide *;
    var pushed, folded := Accumulated(map[], AllRecords(modules)), Folded(Tables(modules));
    forall id
      ensures (id in pushed <==> id in folded) && ItemsIn(pushed, id) == ItemsIn(folded, id)
      ensures ItemsIn(folded, id) == Firsts(Of(AllRecords(modules), id))
    {
      SameUnder(modules, id);
    }
    SameTables(pushed, folded);
  }

  lemma AllNumberedStep(ids: map<ResName, int>, modules: seq<seq<Item>>, m: nat)
    requires m < |modules|
    ensures AllNumbered(ids, modules)[m] == Numbered(ids, modules[m])
    ensures AllNumbered(ids, modules[..m + 1]) == AllNumbered(ids, modules[..m]) + [Numbered(ids, modules[m])]
    ensures AllRecords(AllNumbered(ids, modules[..m + 1]))
            == AllRecords(AllNumbered(ids, modules[..m])) + Numbered(ids, modules[m])
  {
    hide Numbered;
    var more := AllNumbered(ids, modules[..m + 1]);
    assert more == AllNumbered(ids, modules[..m]) + [Numbered(ids, modules[m])];
    AllRecordsStep(more);
    assert more[..m] == AllNumbered(ids, modules[..m]);
  }

  lemma ConsistentModules(modules: seq<seq<Loaded>>)
    requires forall m :: 0 <= m < |modules| ==> Acceptable(modules[m])
    ensures forall m :: 0 <= m < |modules| ==> Consistent(modules[m])
  {
    hide Consistent;
  }

  // ------------------------------------------------------------ items with references to resolve

  predicate EndsWith(t: Text, end: Text) { |t| >= |end| && t[|t| - |end|..] == end }

  // The extension of a path is that of its last segment; one separator at the end does not count.
  predicate IsJson(path: Text) {
    EndsWith(if path != [] && path[|path| - 1] == '/' as int then path[..|path| - 1] else path, AsBytes(".json"))
  }

  // One line, with a dollar sign and, not right behind it, a colon.
  predicate HoldsReference(data: Text) {
    && (forall i :: 0 <= i < |data| ==> data[i] != '\n' as int && data[i] != '\r' as int)
    && exists i, j :: 0 <= i && i + 1 < j < |data| && data[i] == '$' as int && data[j] == ':' as int
  }

  predicate NeedsRef(item: Item) {
    if item.resType == MEDIA then false
    else if item.resType == PROF then item.limitKey == AsBytes("base") && IsJson(item.filePath)
    else HoldsReference(item.data)
  }

  /**
   Spelled out in bytes: media never; of the JSON profiles those of the limit key "base"; anything else if it is one
   line with a "$" and, at least two bytes on, a ":".
   */
  lemma NeedsRefIs(item: Item)
    ensures item.resType == 19 ==> !NeedsRef(item)
    ensures item.resType == 20 ==>
      (NeedsRef(item) <==> item.limitKey == [98, 97, 115, 101] && PathEnds(item.filePath, [46, 106, 115, 111, 110]))
    ensures item.resType != 19 && item.resType != 20 ==>
      (NeedsRef(item) <==>
        && 10 !in item.data && 13 !in item.data
        && exists i: nat, j: nat :: i + 2 <= j < |item.data| && item.data[i] == 36 && item.data[j] == 58)
  {
    assert AsBytes("base") == [98, 97, 115, 101] && AsBytes(".json") == [46, 106, 115, 111, 110];
    if HoldsReference(item.data) {
      var i, j :| 0 <= i && i + 1 < j < |item.data| && item.data[i] == '$' as int && item.data[j] == ':' as int;
      assert i + 2 <= j;
    }
    PathEndsIs(item.filePath, [46, 106, 115, 111, 110]);
  }

  // The path is something and then these bytes, with or without one separator behind them.
  ghost predicate PathEnds(path: Text, end: Text) {
    exists t: Text :: path == t + end || path == t + end + [47]
  }

  lemma PathEndsIs(path: Text, end: Text)
    requires end != [] && end[|end| - 1] != 47
    ensures PathEnds(path, end) <==>
            EndsWith(if path != [] && path[|path| - 1] == 47 then path[..|path| - 1] else path, end)
  {
    var cut := if path != [] && path[|path| - 1] == 47 then path[..|path| - 1] else path;
    if EndsWith(cut, end) {
      var t := cut[..|cut| - |end|];
      assert cut == t + end && (cut == path || path == cut + [47]);
    }
    if t: Text :| path == t + end || path == t + end + [47] {
      assert path[|path| - 1] == if path == t + end then end[|end| - 1] else 47;
      assert cut == t + end;
    }
  }

  // What adding a record to m records: the item if it is added and needs it.
  function NewRef(m: Table, r: Loaded): seq<Item> {
    if Has(ItemsIn(m, r.id), r.item.limitKey) || !NeedsRef(r.item) then [] else [r.item]
  }

  // The references recorded while records are added to m: those of the items that are not left out.
  function RefsOf(m: Table, rs: seq<Loaded>): seq<Item> {
    if rs == [] then []
    else
      var before, r := rs[..|rs| - 1], rs[|rs| - 1];
      RefsOf(m, before) + NewRef(Accumulated(m, before), r)
  }

  lemma RefsStep(m: Table, rs: seq<Loaded>, r: Loaded)
    ensures RefsOf(m, []) == []
    ensures RefsOf(m, rs + [r]) == RefsOf(m, rs) + NewRef(Accumulated(m, rs), r)
  {
    assert (rs + [r])[..|rs|] == rs;
    hide Accumulated, NewRef;
  }

  ghost predicate Held(m: Table, x: Item) { exists id :: x in ItemsIn(m, id) }

  lemma HeldStep(m: Table, r: Loaded, x: Item)
    ensures Held(AddOnce(m, r), x) <==> Held(m, x) || (x == r.item && !Has(ItemsIn(m, r.id), r.item.limitKey))
  {
    hide Has, Appended;
    AppendedOne(ItemsIn(m, r.id), r.item);
    forall id
      ensures ItemsIn(AddOnce(m, r), id)
              == if id == r.id && !Has(ItemsIn(m, id), r.item.limitKey) then ItemsIn(m, id) + [r.item]
                 else ItemsIn(m, id)
    {
      AddOnceIs(m, r, id);
      NothingAppended(ItemsIn(m, id));
    }
    hide AddOnce, ItemsIn;
    if x == r.item && !Has(ItemsIn(m, r.id), r.item.limitKey) {
      assert x in ItemsIn(AddOnce(m, r), r.id);
    }
    if Held(m, x) {
      var id :| x in ItemsIn(m, id);
      assert x in ItemsIn(AddOnce(m, r), id);
    }
  }

  lemma NewRefHas(m: Table, r: Loaded, x: Item)
    ensures x in NewRef(m, r) <==> x == r.item && !Has(ItemsIn(m, r.id), r.item.limitKey) && NeedsRef(x)
  {
    hide Has, NeedsRef;
  }

  lemma NothingHeld(x: Item)
    ensures RefsOf(map[], []) == [] && !Held(Accumulated(map[], []), x)
  {
  }

  /** Recorded are exactly the items held that need it. */
  lemma {:induction false} RefsAre(rs: seq<Loaded>, x: Item)
    ensures x in RefsOf(map[], rs) <==> Held(Accumulated(map[], rs), x) && NeedsRef(x)
  {
    hide *;
    if rs == [] {
      NothingHeld(x);
    } else {
      var init, r := rs[..|rs| - 1], rs[|rs| - 1];
      assert rs == init + [r];
      RefsAre(init, x);
      RefsStep(map[], init, r);
      NewRefHas(Accumulated(map[], init), r, x);
      AccumulatedStep(map[], init, r);
      HeldStep(Accumulated(map[], init), r, x);
    }
  }

  /** References are recorded in the order of their records. */
  lemma {:induction false} RefsInOrder(m: Table, rs: seq<Loaded>, p: nat, q: nat) returns (a: nat, b: nat)
    requires p < q < |RefsOf(m, rs)|
    ensures a < b < |rs| && rs[a].item == RefsOf(m, rs)[p] && rs[b].item == RefsOf(m, rs)[q]
  {
    hide NewRef, Accumulated;
    var n := |rs| - 1;
    var added := NewRef(Accumulated(m, rs[..n]), rs[n]);
    NewRefIs(Accumulated(m, rs[..n]), rs[n]);
    if q < |RefsOf(m, rs[..n])| {
      a, b := RefsInOrder(m, rs[..n], p, q);
    } else {
      a := RefFrom(m, rs[..n], p);
      b := n;
    }
  }

  lemma {:induction false} RefFrom(m: Table, rs: seq<Loaded>, p: nat) returns (a: nat)
    requires p < |RefsOf(m, rs)|
    ensures a < |rs| && rs[a].item == RefsOf(m, rs)[p]
  {
    hide NewRef, Accumulated;
    var n := |rs| - 1;
    NewRefIs(Accumulated(m, rs[..n]), rs[n]);
    if p < |RefsOf(m, rs[..n])| { a := RefFrom(m, rs[..n], p); } else { a := n; }
  }

  lemma NewRefIs(m: Table, r: Loaded)
    ensures NewRef(m, r) == [] || NewRef(m, r) == [r.item]
  {
  }

  lemma RefsNone(m: Table)
    ensures RefsOf(m, []) == []
  {
  }

  lemma {:induction false} RefsConcat(m: Table, a: seq<Loaded>, b: seq<Loaded>)
    ensures RefsOf(m, a + b) == RefsOf(m, a) + RefsOf(Accumulated(m, a), b)
  {
    hide *;
    if b == [] {
      RefsNone(Accumulated(m, a));
      assert a + b == a && RefsOf(m, a) + [] == RefsOf(m, a);
    } else {
      var init, r := b[..|b| - 1], b[|b| - 1];
      assert a + b == (a + init) + [r] && b == init + [r];
      RefsConcat(m, a, init);
      RefsStep(m, a + init, r);
      RefsStep(Accumulated(m, a), init, r);
      AccumulatedConcat(m, a, init);
      Associate(RefsOf(m, a), RefsOf(Accumulated(m, a), init), NewRef(Accumulated(m, a + init), r));
    }
  }

  // ------------------------------------------------------------ what can be told from names

  function NamesOf(items: seq<Item>): set<ResName> { set i | 0 <= i < |items| :: IdName(items[i]) }

  lemma NamesOfConcat(a: seq<Item>, b: seq<Item>)
    ensures NamesOf(a + b) == NamesOf(a) + NamesOf(b) && NamesOf([]) == {}
  {
    hide IdName;
    forall x ensures x in NamesOf(a + b) <==> x in NamesOf(a) + NamesOf(b) {
      if x in NamesOf(a) {
        var i :| 0 <= i < |a| && IdName(a[i]) == x;
        assert IdName((a + b)[i]) == x;
      }
      if x in NamesOf(b) {
        var i :| 0 <= i < |b| && IdName(b[i]) == x;
        assert IdName((a + b)[|a| + i]) == x;
      }
    }
  }

  lemma NamesOfOne(item: Item)
    ensures NamesOf([item]) == {IdName(item)}
  {
    hide IdName;
    assert [item][0] == item;
  }

  // No two items have one name and one limit key.
  ghost predicate NameConsistent(items: seq<Item>) {
    forall i, j :: 0 <= i < j < |items| && IdName(items[i]) == IdName(items[j]) ==>
      items[i].limitKey != items[j].limitKey
  }

  lemma {:induction false} OfAt(rs: seq<Loaded>, id: int, key: Text)
    ensures Has(Of(rs, id), key) <==> exists i :: 0 <= i < |rs| && rs[i].id == id && rs[i].item.limitKey == key
  {
    if rs != [] {
      var n := |rs| - 1;
      assert rs == rs[..n] + [rs[n]];
      OfAt(rs[..n], id, key);
      OfStep(rs[..n], rs[n], id);
      HasPushed(Of(rs[..n], id), rs[n].item, key);
      assert forall i :: 0 <= i < n ==> rs[..n][i] == rs[i];
      hide Of, Has;
    }
  }

  lemma {:induction false} ConsistentIs(rs: seq<Loaded>)
    ensures Consistent(rs) <==>
      forall i, j :: 0 <= i < j < |rs| && rs[i].id == rs[j].id ==> rs[i].item.limitKey != rs[j].item.limitKey
  {
    if rs == [] {
      assert Consistent([]);
    } else {
      var n := |rs| - 1;
      var init, r := rs[..n], rs[n];
      assert rs == init + [r] && forall i :: 0 <= i < n ==> init[i] == rs[i];
      hide Consistent, Of, Has;
      ConsistentIs(init);
      OfAt(init, r.id, r.item.limitKey);
      if Consistent(rs) { ConsistentPrefix(rs, n); }
      if Consistent(init) { ConsistentStep(init, r); }
    }
  }

  /** With ids one to one, items that all have ids are consistent exactly if their names say so. */
  lemma ConsistentByName(ids: map<ResName, int>, items: seq<Item>)
    requires Injective(ids) && AllNamed(Numbered(ids, items))
    requires forall key :: key in ids ==> ids[key] >= 0
    ensures Consistent(Numbered(ids, items)) <==> NameConsistent(items)
  {
    ConsistentIs(Numbered(ids, items));
    hide Consistent, IdName;
  }

  lemma ConsistentPrefixNames(items: seq<Item>, i: nat)
    requires i <= |items| && NameConsistent(items)
    ensures NameConsistent(items[..i])
  {
    hide IdName;
  }
}
