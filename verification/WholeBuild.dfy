/** A whole build: modules scanned one after the other, merged, written to the index file and read back. */
module WholeBuilds {
  import opened Bytes
  import opened IdWorkers
  import opened Merging
  import opened ResourceCompilers
  import opened ResourceData
  import opened ResourceTableCreation
  import opened ResourceTableItems
  import L = ResourceTableLoads
  import opened ResourceTables

  // Each module's owner is what the scan left, the names it collected put under ids.
  ghost predicate Built(names: seq<NameTable>, ids: map<ResName, int>, owners: seq<Table>) {
    |names| == |owners| && forall m :: 0 <= m < |names| ==> Tidy(names[m]) && Emplaced(names[m], ids, owners[m])
  }

  /** One more module scanned, with ids kept, and the build so far stays one. */
  lemma BuiltStep(names: seq<NameTable>, before: map<ResName, int>, ids: map<ResName, int>, owners: seq<Table>,
                  tables: seq<NameTable>, owner: Table)
    requires Built(names, before, owners) && Kept(before, ids)
    requires AllTidy(tables) && Emplaced(FirstCollected(tables, |tables|), ids, owner)
    ensures Built(names + [FirstCollected(tables, |tables|)], ids, owners + [owner])
  {
    hide *;
    var name := FirstCollected(tables, |tables|);
    FirstTidy(tables, |tables|);
    BuiltIs(names, before, owners);
    BuiltIs(names + [name], ids, owners + [owner]);
    forall m: nat | m <= |names|
      ensures Tidy((names + [name])[m]) && Emplaced((names + [name])[m], ids, (owners + [owner])[m])
    {
      if m < |names| {
        assert (names + [name])[m] == names[m] && (owners + [owner])[m] == owners[m];
        EmplacedKept(names[m], before, ids, owners[m]);
      }
    }
  }

  lemma BuiltIs(names: seq<NameTable>, ids: map<ResName, int>, owners: seq<Table>)
    ensures Built(names, ids, owners) <==>
      |names| == |owners| && forall m :: 0 <= m < |names| ==> Tidy(names[m]) && Emplaced(names[m], ids, owners[m])
  {
    hide Tidy, Emplaced;
  }

  lemma {:induction false} FirstListOf(owners: seq<Table>, id: int) returns (m: nat)
    requires Declares(owners, id)
    ensures m < |owners| && id in owners[m] && FirstList(owners, id) == owners[m][id]
    ensures forall k :: 0 <= k < m ==> id !in owners[k]
  {
    DeclaresStep(owners, id);
    if Declares(owners[..|owners| - 1], id) {
      m := FirstListOf(owners[..|owners| - 1], id);
    } else {
      m := |owners| - 1;
    }
  }

  /** Merging what compilers collected keeps of every id and limit key the earliest declaration, without condition. */
  lemma MergedIsFirsts(names: seq<NameTable>, ids: map<ResName, int>, owners: seq<Table>, id: int)
    requires Built(names, ids, owners) && id in Folded(owners)
    ensures Folded(owners)[id] == Firsts(Declared(owners, id)) && NoDuplicates(Folded(owners)[id])
  {
    EarliestWins(owners, id);
    hide Folded, Declared, FirstList, Declares, NoDuplicates, Tidy, Emplaced;
    var m := FirstListOf(owners, id);
    EntriesTidy(names[m], ids, owners[m], id);
  }

  // The merged table with its ids as the int32 they are.
  function Narrowed(t: Table): (items: map<int32, seq<Item>>)
    requires forall id :: id in t ==> -0x8000_0000 <= id < 0x8000_0000
    ensures forall id :: id in items <==> id in t
    ensures forall id :: id in items ==> items[id] == t[id]
  {
    map id: int32 | id in t :: t[id]
  }

  lemma TakenApart(list: seq<Item>)
    requires NoDuplicates(list)
    ensures NoDuplicates(Taken(list))
  {
    TakenPrefix(list);
    hide Taken;
  }

  lemma BuildUnconflicting(names: seq<NameTable>, ids: map<ResName, int>, owners: seq<Table>)
    requires Built(names, ids, owners)
    requires forall id :: id in Folded(owners) ==> -0x8000_0000 <= id < 0x8000_0000
    ensures Unconflicting(Narrowed(Folded(owners)))
  {
    var items := Narrowed(Folded(owners));
    hide Folded, Narrowed, Built, Taken, NoDuplicates;
    forall id | id in items ensures NoDuplicates(Taken(items[id])) {
      MergedIsFirsts(names, ids, owners, id);
      TakenApart(items[id]);
    }
  }

  /**
   From the names compilers collected to the items a reader of the index file gets: under every id come back exactly
   the items declared first for their limit keys, up to the first of type ID, by ascending limit key.
   */
  lemma BuildComesBack(names: seq<NameTable>, ids: map<ResName, int>, owners: seq<Table>, keys: seq<Text>, id: int32)
    returns (order: seq<Item>)
    requires Built(names, ids, owners)
    requires forall x :: x in Folded(owners) ==> -0x8000_0000 <= x < 0x8000_0000
    requires KeysOf(Rows(Narrowed(Folded(owners))), keys) && AllStorable(Narrowed(Folded(owners)))
    requires Filled(ConfigsOf(Rows(Narrowed(Folded(owners))), keys))
    requires |Image(ConfigsOf(Rows(Narrowed(Folded(owners))), keys))| < 0x8000_0000
    ensures multiset(order) == multiset(Taken(Firsts(Declared(owners, id)))) && ByLimitKey(order)
    ensures var r := L.Loaded(Image(ConfigsOf(Rows(Narrowed(Folded(owners))), keys)));
      && r.Got? && (id in r.value <==> order != []) && (id in r.value ==> r.value[id] == AllRestored(order))
  {
    hide *;
    var items := Narrowed(Folded(owners));
    BuildUnconflicting(names, ids, owners);
    order := CreatedComesBack(items, keys, id);
    NarrowedHas(Folded(owners), id);
    if id in Folded(owners) {
      MergedIsFirsts(names, ids, owners, id);
    } else {
      EarliestWins(owners, id);
      NotDeclared(owners, id);
      NothingTaken();
    }
  }

  lemma NarrowedHas(t: Table, id: int32)
    requires forall x :: x in t ==> -0x8000_0000 <= x < 0x8000_0000
    ensures id in Narrowed(t) <==> id in t
    ensures id in t ==> Narrowed(t)[id] == t[id]
  {
  }

  lemma NothingTaken()
    ensures Taken(Firsts([])) == []
  {
  }
}
