/** A compiler of one resource kind: it collects items under their names and then puts them under ids. */
module ResourceCompilers {
  import opened IdDefinitions
  import opened IdRooms
  import opened IdWorkers
  import opened Merging
  import opened ResourceData
  import opened TextOrder

  type NameTable = map<ResName, seq<Item>>

  // A name's items bear the name, at least one of them, each with a limit key of its own.
  predicate Tidy(names: NameTable) {
    forall key :: key in names ==>
      && names[key] != [] && NoDuplicates(names[key])
      && forall i :: 0 <= i < |names[key]| ==> IdName(names[key][i]) == key
  }

  // The tables say the same, names in the one replaced by their ids in the other: nothing is lost.
  ghost predicate Committed(names: NameTable, ids: map<ResName, int>, infos: Table) {
    && (forall key :: key in names ==> key in ids && ids[key] in infos && infos[ids[key]] == names[key])
    && (forall id :: id in infos ==> exists key :: key in names && key in ids && ids[key] == id)
  }

  // Every name's id has an entry, and an entry is that of a name with the id, if not of every such name.
  ghost predicate Emplaced(names: NameTable, ids: map<ResName, int>, infos: Table) {
    && (forall key :: key in names ==> key in ids && ids[key] in infos)
    && (forall id :: id in infos ==>
          exists key :: key in names && key in ids && ids[key] == id && infos[id] == names[key])
  }

  // Of the names that share an id the first in the order of the names has its items under it.
  ghost predicate FirstKept(names: NameTable, ids: map<ResName, int>, infos: Table) {
    forall key :: key in names && key in ids && IsFirstWith(names.Keys, ids, key) ==>
      ids[key] in infos && infos[ids[key]] == names[key]
  }

  ghost predicate IsFirstWith(names: set<ResName>, ids: map<ResName, int>, key: ResName)
    requires key in ids
  {
    forall other :: other in names && other in ids && ids[other] == ids[key] ==> other == key || PairBefore(key, other)
  }

  // Names that had no id have ids in the order of the names.
  ghost predicate NewOnesRise(before: Ids, ids: map<ResName, int>, names: set<ResName>) {
    forall a, b | a in names && b in names && !HasId(before, a) && !HasId(before, b) && PairBefore(a, b) ::
      a in ids && b in ids && ids[a] < ids[b]
  }

  class ResourceCompiler {
    var nameInfos: NameTable
    var resourceInfos: Table

    constructor ()
      ensures nameInfos == map[] && resourceInfos == map[] && Tidy(nameInfos)
    {
      nameInfos, resourceInfos := map[], map[];
    }

    /**
     An item is refused exactly if its id name is no valid name or its limit key is already there under
     that name.
     */
    method MergeResourceItem(resourceItem: Item, idWorker: IdWorker) returns (ok: bool)
      requires Tidy(nameInfos)
      modifies this`nameInfos
      ensures Tidy(nameInfos)
      ensures var key := IdName(resourceItem);
        var list := if key in old(nameInfos) then old(nameInfos)[key] else [];
        && (ok <==> idWorker.IsValidName(key.1) && !Has(list, resourceItem.limitKey))
        && nameInfos == if ok then old(nameInfos)[key := list + [resourceItem]] else old(nameInfos)
    {
      if !idWorker.IsValidName(GetIdName(resourceItem.name, resourceItem.resType)) {
        return false;
      }
      hide IdName;
      var key := IdName(resourceItem);
      if key !in nameInfos {
        assert [] + [resourceItem] == [resourceItem];
        nameInfos := nameInfos[key := [resourceItem]];
        return true;
      }
      PushedNoDuplicates(nameInfos[key], resourceItem);
      if Has(nameInfos[key], resourceItem.limitKey) {
        return false;
      }
      hide Has, NoDuplicates;
      nameInfos := nameInfos[key := nameInfos[key] + [resourceItem]];
      return true;
    }

    /**
     Puts every name's items under its id, if that is free, names ascending: new ones get rising ids, and of those
     that share an id the first is kept.  From an empty result, success loses nothing
     exactly if no two of the names are defined with one id, which only a system build has to fear.
     A system build succeeds exactly if all names are defined, an application exactly if it has room for the
     new ones among them.
     */
    method PostCommit(idWorker: IdWorker) returns (ok: bool)
      requires idWorker.Valid() && resourceInfos == map[] && Tidy(nameInfos)
      modifies this`resourceInfos, idWorker`ids, idWorker`appId, idWorker`delIds
      ensures idWorker.Valid() && Kept(old(idWorker.ids), idWorker.ids)
      ensures ok ==> Emplaced(nameInfos, idWorker.ids, resourceInfos)
      ensures ok ==> (Committed(nameInfos, idWorker.ids, resourceInfos) <==>
                      idWorker.cluster.APP? || OneToOne(idWorker.definedIds, nameInfos.Keys))
      ensures ok && Committed(nameInfos, idWorker.ids, resourceInfos) ==> |resourceInfos| == |nameInfos|
      ensures !ok ==> exists key :: key in nameInfos && key !in idWorker.ids
      ensures ok <==> Nameable(idWorker.cluster, old(idWorker.State()), idWorker.definedIds, nameInfos.Keys)
      ensures idWorker.cluster.APP? && ok ==> Tracks(old(idWorker.State()), idWorker.State(), nameInfos.Keys)
      ensures ok ==> FirstKept(nameInfos, idWorker.ids, resourceInfos)
      ensures idWorker.cluster.APP? && ok ==> NewOnesRise(old(idWorker.State()), idWorker.ids, nameInfos.Keys)
    {
      hide *;
      PairsOrdered();
      var rest := nameInfos.Keys;
      ghost var done: NameTable := map[];
      ghost var first := idWorker.State();
      CommitStarts(nameInfos, idWorker.ids);
      NumberedNone(idWorker.cluster, first, idWorker.definedIds);
      assert done.Keys == {};
      while rest != {}
        invariant Split(nameInfos, rest, done) && AllBefore(done.Keys, rest) && idWorker.Valid()
        invariant Kept(old(idWorker.ids), idWorker.ids)
        invariant Emplaced(done, idWorker.ids, resourceInfos) && FirstKept(done, idWorker.ids, resourceInfos)
        invariant Numbered(idWorker.cluster, first, idWorker.State(), idWorker.definedIds, done.Keys)
        decreases |rest|
      {
        var key := FirstOf(rest, PairBefore);
        SplitStep(nameInfos, rest, done, key);
        BeforeStep(done.Keys, rest, key);
        ghost var before := idWorker.ids;
        ok := CommitName(idWorker, key, done, first);
        KeptOn(old(idWorker.ids), before, idWorker.ids);
        if !ok {
          return;
        }
        done := done[key := nameInfos[key]];
        rest := rest - {key};
      }
      SplitEnds(nameInfos, done);
      CommitEnds(idWorker, first, nameInfos, resourceInfos);
      return true;
    }

    // One round: the name's id, and an entry unless it has one.
    method CommitName(idWorker: IdWorker, key: ResName, ghost done: NameTable, ghost first: Ids) returns (ok: bool)
      requires idWorker.Valid() && key in nameInfos && key !in done && done.Keys + {key} <= nameInfos.Keys
      requires Emplaced(done, idWorker.ids, resourceInfos) && FirstKept(done, idWorker.ids, resourceInfos)
      requires forall other :: other in done ==> PairBefore(other, key)
      requires Numbered(idWorker.cluster, first, idWorker.State(), idWorker.definedIds, done.Keys)
      modifies this`resourceInfos, idWorker`ids, idWorker`appId, idWorker`delIds
      ensures idWorker.Valid() && Kept(old(idWorker.ids), idWorker.ids) && (ok <==> key in idWorker.ids)
      ensures ok ==> Emplaced(done[key := nameInfos[key]], idWorker.ids, resourceInfos)
      ensures ok ==> FirstKept(done[key := nameInfos[key]], idWorker.ids, resourceInfos)
      ensures ok ==> Numbered(idWorker.cluster, first, idWorker.State(), idWorker.definedIds, done.Keys + {key})
      ensures !ok ==> !Nameable(idWorker.cluster, first, idWorker.definedIds, nameInfos.Keys)
    {
      hide *;
      ghost var before := idWorker.ids;
      if idWorker.cluster.APP? { NextNumbered(idWorker, first, done.Keys, key, nameInfos.Keys); }
      NumberedIs(idWorker.cluster, first, idWorker.State(), idWorker.definedIds, done.Keys);
      var id := idWorker.GenerateId(key);
      if idWorker.cluster.SYS? {
        NextDefined(first, idWorker.State(), idWorker.definedIds, done.Keys, key, nameInfos.Keys);
      }
      if id < 0 {
        return false;
      }
      EmplaceOne(done, before, idWorker.ids, resourceInfos, key, nameInfos[key]);
      KeepFirst(done, before, idWorker.ids, resourceInfos, key, nameInfos[key]);
      if id !in resourceInfos {
        resourceInfos := resourceInfos[id := nameInfos[key]];
      }
      return true;
    }
  }

  // All names have ids: an application's as many as it had room for, rising; a system build's as defined.
  ghost predicate Numbered(cluster: Cluster, first: Ids, s: Ids, definedIds: map<ResName, int>, names: set<ResName>) {
    match cluster
    case APP => Tracks(first, s, names) && Rising(first, s, names)
    case SYS => names <= definedIds.Keys
  }

  // All names can have ids.
  ghost predicate Nameable(cluster: Cluster, first: Ids, definedIds: map<ResName, int>, names: set<ResName>) {
    if cluster.APP? then Enough(first, names) else names <= definedIds.Keys
  }

  lemma NameableIs(cluster: Cluster, first: Ids, definedIds: map<ResName, int>, names: set<ResName>)
    ensures Nameable(cluster, first, definedIds, names) <==>
            if cluster.APP? then Enough(first, names) else names <= definedIds.Keys
  {
    hide Enough;
  }

  lemma NumberedNone(cluster: Cluster, s: Ids, definedIds: map<ResName, int>)
    ensures Numbered(cluster, s, s, definedIds, {})
  {
    TracksNone(s);
    RisingNone(s);
    hide Tracks, Rising;
  }

  // What the next generation does for the names so far, in an application and in a system build.
  lemma NextNumbered(idWorker: IdWorker, first: Ids, done: set<ResName>, key: ResName, all: set<ResName>)
    requires idWorker.Valid() && idWorker.cluster.APP?
    requires done + {key} <= all && forall other :: other in done ==> PairBefore(other, key)
    requires Numbered(APP, first, idWorker.State(), idWorker.definedIds, done)
    ensures var (t, id) := Generated(idWorker.State(), key);
      if id == -1 then !Nameable(APP, first, idWorker.definedIds, all)
      else Numbered(APP, first, t, idWorker.definedIds, done + {key})
  {
    hide Tracks, Rising, Enough, Generated, Inv, IdWorker.State, PairBefore, IdWorker.Valid;
    ValidIs(idWorker);
    TracksOne(first, idWorker.State(), done, key);
    EnoughGrows(first, done + {key}, all);
    if Generated(idWorker.State(), key).1 != -1 { RisingOne(first, idWorker.State(), done, key); }
  }

  lemma NextDefined(first: Ids, s: Ids, definedIds: map<ResName, int>, done: set<ResName>, key: ResName,
                    all: set<ResName>)
    requires done + {key} <= all && done <= definedIds.Keys
    ensures if key in definedIds then Numbered(SYS, first, s, definedIds, done + {key})
            else !Nameable(SYS, first, definedIds, all)
  {
  }

  lemma RisingIs(first: Ids, idWorker: IdWorker, names: set<ResName>)
    requires Rising(first, idWorker.State(), names)
    ensures NewOnesRise(first, idWorker.ids, names)
  {
    hide HasId, PairBefore, Free;
  }

  ghost predicate AllBefore(done: set<ResName>, rest: set<ResName>) {
    forall a, b :: a in done && b in rest ==> PairBefore(a, b)
  }

  lemma BeforeStep(done: set<ResName>, rest: set<ResName>, key: ResName)
    requires AllBefore(done, rest) && IsLeast(rest, key, PairBefore)
    ensures AllBefore(done + {key}, rest - {key}) && forall other :: other in done ==> PairBefore(other, key)
  {
    hide PairBefore;
  }

  // A name behind all others is kept exactly if its id is free, and takes nothing from them.
  lemma KeepFirst(done: NameTable, before: map<ResName, int>, ids: map<ResName, int>, infos: Table,
                  key: ResName, items: seq<Item>)
    requires FirstKept(done, before, infos) && Emplaced(done, before, infos) && Kept(before, ids) && key in ids
    requires key !in done && forall other :: other in done ==> PairBefore(other, key)
    ensures FirstKept(done[key := items], ids, if ids[key] in infos then infos else infos[ids[key] := items])
  {
    PairsOrdered();
    hide PairBefore;
    var names, table := done[key := items], if ids[key] in infos then infos else infos[ids[key] := items];
    if ids[key] in infos {
      var other := NameOf(done, before, infos, ids[key]);
      assert other in names.Keys && ids[other] == ids[key] && !IsFirstWith(names.Keys, ids, key);
    }
    forall k | k in names && k in ids && IsFirstWith(names.Keys, ids, k)
      ensures ids[k] in table && table[ids[k]] == names[k]
    {
      if k != key { assert k in before && IsFirstWith(done.Keys, before, k); }
    }
  }

  // The names done and the names left.
  ghost predicate Split(names: NameTable, rest: set<ResName>, done: NameTable) {
    rest <= names.Keys && done.Keys == names.Keys - rest && forall key :: key in done ==> done[key] == names[key]
  }

  lemma SplitStep(names: NameTable, rest: set<ResName>, done: NameTable, key: ResName)
    requires Split(names, rest, done) && key in rest
    ensures key in names && key !in done && Split(names, rest - {key}, done[key := names[key]])
    ensures |done[key := names[key]]| == |done| + 1 && |rest - {key}| < |rest|
    ensures done[key := names[key]].Keys == done.Keys + {key} <= names.Keys
  {
    assert done[key := names[key]].Keys == done.Keys + {key};
  }

  lemma SplitEnds(names: NameTable, done: NameTable)
    requires Split(names, {}, done)
    ensures names == done
  {
    assert names.Keys == names.Keys - {};
  }

  lemma CommitStarts(names: NameTable, ids: map<ResName, int>)
    ensures Split(names, names.Keys, map[]) && Emplaced(map[], ids, map[]) && Kept(ids, ids)
    ensures FirstKept(map[], ids, map[]) && AllBefore({}, names.Keys)
  {
  }

  // The name an entry belongs to.
  lemma NameOf(names: NameTable, ids: map<ResName, int>, infos: Table, id: int) returns (key: ResName)
    requires Emplaced(names, ids, infos) && id in infos
    ensures key in names && key in ids && ids[key] == id && infos[id] == names[key]
  {
    key :| key in names && key in ids && ids[key] == id && infos[id] == names[key];
  }

  lemma EmplacedKept(names: NameTable, before: map<ResName, int>, ids: map<ResName, int>, infos: Table)
    requires Emplaced(names, before, infos) && Kept(before, ids)
    ensures Emplaced(names, ids, infos)
  {
    forall id | id in infos
      ensures exists key :: key in names && key in ids && ids[key] == id && infos[id] == names[key]
    {
      var key := NameOf(names, before, infos, id);
      assert key in ids && ids[key] == id;
    }
  }

  lemma EmplaceOne(done: NameTable, before: map<ResName, int>, ids: map<ResName, int>, infos: Table,
                   key: ResName, items: seq<Item>)
    requires Emplaced(done, before, infos) && key !in done && Kept(before, ids) && key in ids
    ensures Emplaced(done[key := items], ids, if ids[key] in infos then infos else infos[ids[key] := items])
  {
    EmplacedKept(done, before, ids, infos);
    var names, table := done[key := items], if ids[key] in infos then infos else infos[ids[key] := items];
    forall id | id in table
      ensures exists k :: k in names && k in ids && ids[k] == id && table[id] == names[k]
    {
      if id in infos {
        var k := NameOf(done, ids, infos, id);
        assert k in names && names[k] == done[k];
      } else {
        assert key in names && ids[key] == id && table[id] == names[key];
      }
    }
  }

  /** Tidy names are committed without loss exactly if no two of them have one id. */
  lemma EmplacedIsCommitted(names: NameTable, ids: map<ResName, int>, infos: Table)
    requires Tidy(names) && Emplaced(names, ids, infos)
    ensures Committed(names, ids, infos) <==> OneToOne(ids, names.Keys)
  {
    hide IdName, NoDuplicates;
    if OneToOne(ids, names.Keys) {
      forall key | key in names ensures infos[ids[key]] == names[key] {
        var other := NameOf(names, ids, infos, ids[key]);
        assert other in names.Keys && key in names.Keys;
      }
    } else {
      var a, b :| a in names.Keys && b in names.Keys && a in ids && b in ids && a != b && ids[a] == ids[b];
      assert IdName(names[a][0]) == a && IdName(names[b][0]) == b;
      assert names[a] != names[b];
    }
  }

  lemma NumberedIs(cluster: Cluster, first: Ids, s: Ids, definedIds: map<ResName, int>, names: set<ResName>)
    requires Numbered(cluster, first, s, definedIds, names)
    ensures Nameable(cluster, first, definedIds, names)
    ensures cluster.APP? ==> Tracks(first, s, names) && Rising(first, s, names)
    ensures cluster.SYS? ==> names <= definedIds.Keys
  {
    hide Rising;
    if cluster.APP? { TracksEnough(first, s, names); }
    hide Tracks, Enough;
  }

  lemma CommitEnds(idWorker: IdWorker, first: Ids, names: NameTable, infos: Table)
    requires idWorker.Valid() && Tidy(names) && Emplaced(names, idWorker.ids, infos)
    requires Numbered(idWorker.cluster, first, idWorker.State(), idWorker.definedIds, names.Keys)
    ensures Committed(names, idWorker.ids, infos) <==>
            idWorker.cluster.APP? || OneToOne(idWorker.definedIds, names.Keys)
    ensures Committed(names, idWorker.ids, infos) ==> |infos| == |names|
    ensures Nameable(idWorker.cluster, first, idWorker.definedIds, names.Keys)
    ensures idWorker.cluster.APP? ==>
      Tracks(first, idWorker.State(), names.Keys) && NewOnesRise(first, idWorker.ids, names.Keys)
  {
    hide *;
    NumberedIs(idWorker.cluster, first, idWorker.State(), idWorker.definedIds, names.Keys);
    if idWorker.cluster.APP? { RisingIs(first, idWorker, names.Keys); }
    EmplacedIsCommitted(names, idWorker.ids, infos);
    IdsOneToOne(idWorker, names, infos);
    OneEntryEach(names, idWorker.ids, infos);
  }

  /** Two inputs whose definitions start at one id, a resource of each: committing both loses one of them. */
  lemma SameStartLoses(a: ResName, b: ResName, names: NameTable, definedIds: map<ResName, int>,
                       ids: map<ResName, int>, infos: Table)
    requires a != b && IsValidSystemName(a.1) && IsValidSystemName(b.1) && names.Keys == {a, b} && Tidy(names)
    requires Lists(definedIds, Entries([DefinedFile(0x0780_0000, [a]), DefinedFile(0x0780_0000, [b])]))
    requires forall key :: key in ids ==> key in definedIds && ids[key] == definedIds[key]
    requires Emplaced(names, ids, infos)
    ensures !Committed(names, ids, infos)
  {
    SameStart(a, b);
    EmplacedIsCommitted(names, ids, infos);
    hide Lists, Entries, Tidy, Committed, IsValidSystemName;
    assert a in names && b in names;
  }

  // Ids handed out are one to one where the definitions are, and always in an application.
  lemma IdsOneToOne(idWorker: IdWorker, names: NameTable, infos: Table)
    requires idWorker.Valid() && Emplaced(names, idWorker.ids, infos)
    ensures OneToOne(idWorker.ids, names.Keys) <==>
            idWorker.cluster.APP? || OneToOne(idWorker.definedIds, names.Keys)
  {
    forall key | key in names ensures key in idWorker.ids {}
    hide Emplaced, Partition;
  }

  lemma OneEntryEach(names: NameTable, ids: map<ResName, int>, infos: Table)
    requires Emplaced(names, ids, infos)
    ensures OneToOne(ids, names.Keys) ==> |infos| == |names|
  {
    if OneToOne(ids, names.Keys) {
      ImageCount(ids, names.Keys);
      forall id | id in infos ensures id in IdsOf(ids, names.Keys) {
        var key := NameOf(names, ids, infos, id);
        assert key in names.Keys;
      }
      assert infos.Keys == IdsOf(ids, names.Keys);
    }
  }

  function IdsOf(ids: map<ResName, int>, names: set<ResName>): set<int> {
    set key | key in names && key in ids :: ids[key]
  }

  lemma {:induction false} ImageCount(ids: map<ResName, int>, names: set<ResName>)
    requires names <= ids.Keys && OneToOne(ids, names)
    ensures |IdsOf(ids, names)| == |names|
    decreases |names|
  {
    if names != {} {
      var key :| key in names;
      var rest := names - {key};
      ImageCount(ids, rest);
      assert IdsOf(ids, names) == IdsOf(ids, rest) + {ids[key]};
      assert ids[key] !in IdsOf(ids, rest);
    }
  }

  /** What was collected tidily is committed so: no entry has a limit key twice, or items of two names. */
  lemma EntriesTidy(names: NameTable, ids: map<ResName, int>, infos: Table, id: int)
    requires Tidy(names) && Emplaced(names, ids, infos) && id in infos
    ensures infos[id] != [] && NoDuplicates(infos[id])
    ensures exists key :: key in names && forall i :: 0 <= i < |infos[id]| ==> IdName(infos[id][i]) == key
  {
    var key := NameOf(names, ids, infos, id);
    hide IdName;
  }

  // ------------------------------------------------------------ the compilers of a module

  // Every id outside rest has been offered; one the owner has stays as it is.
  ghost predicate Offered(owner: Table, other: Table, rest: set<int>, r: Table) {
    && (forall id :: id in r <==> id in owner || (id in other && id !in rest))
    && (forall id :: id in r ==> r[id] == if id in owner then owner[id] else other[id])
  }

  lemma OfferOne(owner: Table, other: Table, rest: set<int>, r: Table, id: int)
    requires Offered(owner, other, rest, r) && id in rest && id in other
    ensures Offered(owner, other, rest - {id}, if id in r then r else r[id := other[id]])
  {
  }

  lemma OfferEnds(owner: Table, other: Table, r: Table)
    ensures Offered(owner, other, other.Keys, owner)
    ensures Offered(owner, other, {}, r) ==> r == other + owner
  {
    if Offered(owner, other, {}, r) {
      forall id ensures id in r.Keys <==> id in (other + owner).Keys {
        assert id in r <==> id in owner || id in other;
      }
      assert r.Keys == (other + owner).Keys;
      forall id | id in r ensures r[id] == (other + owner)[id] {
        assert r[id] == if id in owner then owner[id] else other[id];
      }
      assert r == other + owner;
    }
  }

  // ResourceModule::Push: an id the owner has already stays as it is.
  method Push(owner: Table, other: Table, previewMode: bool) returns (r: Table)
    ensures r == if previewMode then owner else other + owner
  {
    hide *;
    if previewMode {
      return owner;
    }
    r := owner;
    var rest := other.Keys;
    OfferEnds(owner, other, r);
    while rest != {}
      invariant rest <= other.Keys && Offered(owner, other, rest, r)
      decreases |rest|
    {
      var id := Any(rest);
      OfferOne(owner, other, rest, r, id);
      if id !in r {
        r := r[id := other[id]];
      }
      rest := rest - {id};
    }
    OfferEnds(owner, other, r);
  }

  /**
   Pushing another compiler's result keeps what the owner has: of a name that both have the owner's items, and
   else an entry goes only where ids collide.
   */
  lemma PushEmplaces(a: NameTable, b: NameTable, ids: map<ResName, int>, owner: Table, other: Table)
    requires Emplaced(a, ids, owner) && Emplaced(b, ids, other)
    ensures Emplaced(b + a, ids, other + owner)
    ensures OneToOne(ids, a.Keys + b.Keys) && a.Keys !! b.Keys ==> owner.Keys !! other.Keys
  {
    forall id | id in owner && id in other
      ensures !OneToOne(ids, a.Keys + b.Keys) || !(a.Keys !! b.Keys)
    {
      var x := NameOf(a, ids, owner, id);
      var y := NameOf(b, ids, other, id);
      assert x in a.Keys + b.Keys && y in a.Keys + b.Keys;
    }
    var names, table := b + a, other + owner;
    forall id | id in table
      ensures exists key :: key in names && key in ids && ids[key] == id && table[id] == names[key]
    {
      if id in owner {
        var x := NameOf(a, ids, owner, id);
        assert x in names && names[x] == a[x];
      } else {
        var y := NameOf(b, ids, other, id);
        assert y in names && names[y] == b[y];
      }
    }
  }

  // What compilers have collected.
  function Collected(compilers: seq<ResourceCompiler>): (tables: seq<NameTable>)
    reads compilers`nameInfos
    ensures |tables| == |compilers| && forall i :: 0 <= i < |tables| ==> tables[i] == compilers[i].nameInfos
  {
    if compilers == [] then []
    else Collected(compilers[..|compilers| - 1]) + [compilers[|compilers| - 1].nameInfos]
  }

  // All names of the first n compilers, each with the items of the first that collected it.
  function FirstCollected(tables: seq<NameTable>, n: nat): NameTable
    requires n <= |tables|
  {
    if n == 0 then map[] else tables[n - 1] + FirstCollected(tables, n - 1)
  }

  ghost predicate AllTidy(tables: seq<NameTable>) {
    forall i :: 0 <= i < |tables| ==> Tidy(tables[i])
  }

  lemma {:induction false} FirstTidy(tables: seq<NameTable>, n: nat)
    requires n <= |tables| && AllTidy(tables)
    ensures Tidy(FirstCollected(tables, n))
  {
    hide IdName, NoDuplicates;
    if n > 0 { FirstTidy(tables, n - 1); }
  }

  lemma FirstStep(tables: seq<NameTable>, n: nat)
    requires n < |tables|
    ensures FirstCollected(tables, 0) == map[]
    ensures FirstCollected(tables, n + 1) == tables[n] + FirstCollected(tables, n)
    ensures FirstCollected(tables, n + 1).Keys == FirstCollected(tables, n).Keys + tables[n].Keys
  {
  }

  // Where the first n collect a name, their table has the items of one of them.
  lemma {:induction false} FirstHas(tables: seq<NameTable>, n: nat, i: nat, key: ResName)
    requires i < n <= |tables| && key in tables[i]
    ensures key in FirstCollected(tables, n)
  {
    if i < n - 1 { FirstHas(tables, n - 1, i, key); }
  }

  lemma {:induction false} FirstFrom(tables: seq<NameTable>, n: nat, key: ResName) returns (i: nat)
    requires n <= |tables| && key in FirstCollected(tables, n)
    ensures i < n && key in tables[i] && FirstCollected(tables, n)[key] == tables[i][key]
    ensures forall j :: 0 <= j < i ==> key !in tables[j]
  {
    if key in FirstCollected(tables, n - 1) {
      i := FirstFrom(tables, n - 1, key);
    } else {
      i := n - 1;
      forall j: nat | j < i ensures key !in tables[j] {
        if key in tables[j] { FirstHas(tables, n - 1, j, key); }
      }
    }
  }

  // Every compiler's own items stand under the ids of its names.
  ghost predicate Whole(tables: seq<NameTable>, ids: map<ResName, int>, owner: Table) {
    forall i, key :: 0 <= i < |tables| && key in tables[i] ==>
      key in ids && ids[key] in owner && owner[ids[key]] == tables[i][key]
  }

  // Compilers that collect one name collect the same items for it.
  ghost predicate Agreeing(tables: seq<NameTable>) {
    forall i, j, key :: 0 <= i < |tables| && 0 <= j < |tables| && key in tables[i] && key in tables[j] ==>
      tables[i][key] == tables[j][key]
  }

  lemma WholeAt(tables: seq<NameTable>, ids: map<ResName, int>, owner: Table, i: nat, key: ResName)
    requires Whole(tables, ids, owner) && i < |tables| && key in tables[i]
    ensures key in ids && ids[key] in owner && owner[ids[key]] == tables[i][key]
  {
  }

  lemma WholeAgrees(tables: seq<NameTable>, ids: map<ResName, int>, owner: Table)
    requires Whole(tables, ids, owner)
    ensures Agreeing(tables)
  {
    hide Whole;
    forall i: nat, j: nat, key | i < |tables| && j < |tables| && key in tables[i] && key in tables[j]
      ensures tables[i][key] == tables[j][key]
    {
      WholeAt(tables, ids, owner, i, key);
      WholeAt(tables, ids, owner, j, key);
    }
  }

  lemma NotWhole(tables: seq<NameTable>, ids: map<ResName, int>, owner: Table) returns (i: nat, key: ResName)
    requires !Whole(tables, ids, owner)
    ensures i < |tables| && key in tables[i]
    ensures !(key in ids && ids[key] in owner && owner[ids[key]] == tables[i][key])
  {
    i, key :| 0 <= i < |tables| && key in tables[i]
      && !(key in ids && ids[key] in owner && owner[ids[key]] == tables[i][key]);
  }

  lemma AgreeAt(tables: seq<NameTable>, i: nat, j: nat, key: ResName)
    requires Agreeing(tables) && i < |tables| && j < |tables| && key in tables[i] && key in tables[j]
    ensures tables[i][key] == tables[j][key]
  {
  }

  lemma CommittedAt(names: NameTable, ids: map<ResName, int>, infos: Table, key: ResName)
    requires Committed(names, ids, infos) && key in names
    ensures key in ids && ids[key] in infos && infos[ids[key]] == names[key]
  {
  }

  lemma EmplacedCommits(names: NameTable, ids: map<ResName, int>, infos: Table)
    requires Emplaced(names, ids, infos)
    requires forall key :: key in names ==> key in ids && ids[key] in infos && infos[ids[key]] == names[key]
    ensures Committed(names, ids, infos)
  {
  }

  /** A module is taken over whole exactly if no two of its names have one id and no two compilers differ on a name. */
  lemma WholeIf(tables: seq<NameTable>, ids: map<ResName, int>, owner: Table)
    requires AllTidy(tables) && Emplaced(FirstCollected(tables, |tables|), ids, owner)
    ensures Whole(tables, ids, owner) <==>
            OneToOne(ids, FirstCollected(tables, |tables|).Keys) && Agreeing(tables)
  {
    hide *;
    var n, names := |tables|, FirstCollected(tables, |tables|);
    FirstTidy(tables, n);
    EmplacedIsCommitted(names, ids, owner);
    if Whole(tables, ids, owner) {
      WholeAgrees(tables, ids, owner);
      forall key | key in names
        ensures key in ids && ids[key] in owner && owner[ids[key]] == names[key]
      {
        var i := FirstFrom(tables, n, key);
        WholeAt(tables, ids, owner, i, key);
      }
      EmplacedCommits(names, ids, owner);
    } else if Committed(names, ids, owner) && Agreeing(tables) {
      var i, key := NotWhole(tables, ids, owner);
      FirstHas(tables, n, i, key);
      var j := FirstFrom(tables, n, key);
      AgreeAt(tables, i, j, key);
      CommittedAt(names, ids, owner, key);
      assert false;
    }
  }

  /** Of one name that two compilers collect differently, the second one's items are dropped. */
  lemma SecondDropped(key: ResName, x: Item, y: Item, ids: map<ResName, int>, owner: Table)
    requires x != y && IdName(x) == key == IdName(y)
    requires Emplaced(FirstCollected([map[key := [x]], map[key := [y]]], 2), ids, owner)
    ensures key in ids && ids[key] in owner && owner[ids[key]] == [x]
    ensures !Whole([map[key := [x]], map[key := [y]]], ids, owner)
  {
    var a: NameTable, b: NameTable := map[key := [x]], map[key := [y]];
    var tables := [a, b];
    assert FirstCollected(tables, 1) == a by { assert FirstCollected(tables, 0) == map[]; }
    assert FirstCollected(tables, 2) == b + a == a;
    var other := NameOf(a, ids, owner, ids[key]);
    assert key in tables[1] && tables[1][key] == [y];
    hide FirstCollected, IdName;
  }

  lemma NothingScanned(tables: seq<NameTable>, s: Ids, ids: map<ResName, int>)
    ensures FirstCollected(tables, 0) == map[] && Emplaced(map[], ids, map[]) && Kept(ids, ids)
    ensures Tracks(s, s, FirstCollected(tables, 0).Keys)
  {
    TracksNone(s);
  }

  /**
   ScanResource, from the compilers' collected names on: one after the other commits and is pushed.  It succeeds
   exactly if all names are defined or, in an application, there is room for the new ones.  The owner is then the
   whole module exactly if no two of its names are defined with one id and no two compilers differ on a name.
   */
  method ScanResource(compilers: seq<ResourceCompiler>, idWorker: IdWorker, previewMode: bool)
    returns (owner: Table, ok: bool)
    requires idWorker.Valid() && AllTidy(Collected(compilers))
    requires forall i, j :: 0 <= i < j < |compilers| ==> compilers[i] != compilers[j]
    requires forall i :: 0 <= i < |compilers| ==> compilers[i].resourceInfos == map[]
    modifies compilers`resourceInfos, idWorker`ids, idWorker`appId, idWorker`delIds
    ensures idWorker.Valid() && Kept(old(idWorker.ids), idWorker.ids)
    ensures previewMode ==> ok && owner == map[]
    ensures var tables := Collected(compilers);
      var names := FirstCollected(tables, |tables|);
      !previewMode ==>
        && (ok <==> Nameable(idWorker.cluster, old(idWorker.State()), idWorker.definedIds, names.Keys))
        && (ok ==> Emplaced(names, idWorker.ids, owner))
        && (ok ==> (Whole(tables, idWorker.ids, owner) <==>
                      (idWorker.cluster.APP? || OneToOne(idWorker.definedIds, names.Keys)) && Agreeing(tables)))
  {
    hide *;
    owner := map[];
    ghost var tables, first := Collected(compilers), idWorker.State();
    NameableIs(idWorker.cluster, first, idWorker.definedIds, FirstCollected(tables, |tables|).Keys);
    NothingScanned(tables, first, idWorker.ids);
    if previewMode {
      return owner, true;
    }
    var n := 0;
    while n < |compilers|
      invariant n <= |compilers| == |tables| && idWorker.Valid() && Kept(old(idWorker.ids), idWorker.ids)
      invariant forall i :: n <= i < |compilers| ==> compilers[i].resourceInfos == map[]
      invariant Emplaced(FirstCollected(tables, n), idWorker.ids, owner)
      invariant idWorker.cluster.APP? ==> Tracks(first, idWorker.State(), FirstCollected(tables, n).Keys)
      invariant idWorker.cluster.SYS? ==> FirstCollected(tables, n).Keys <= idWorker.definedIds.Keys
    {
      TidyAt(tables, n);
      FirstStep(tables, n);
      FirstGrows(tables, n + 1, |tables|);
      ghost var names := FirstCollected(tables, n);
      ghost var before := idWorker.State();
      NameableIs(idWorker.cluster, before, idWorker.definedIds, tables[n].Keys);
      owner, ok := ScanOne(compilers[n], idWorker, owner, names, old(idWorker.ids));
      if idWorker.cluster.APP? { TracksOn(first, before, idWorker.State(), names.Keys, tables[n].Keys); }
      if !ok {
        EnoughGrows(first, names.Keys + tables[n].Keys, FirstCollected(tables, |tables|).Keys);
        return;
      }
      n := n + 1;
    }
    if idWorker.cluster.APP? { TracksEnough(first, idWorker.State(), FirstCollected(tables, n).Keys); }
    WholeIf(tables, idWorker.ids, owner);
    IdsOneToOne(idWorker, FirstCollected(tables, n), owner);
    return owner, true;
  }

  method ScanOne(compiler: ResourceCompiler, idWorker: IdWorker, owner: Table,
                 ghost names: NameTable, ghost first: map<ResName, int>)
    returns (r: Table, ok: bool)
    requires idWorker.Valid() && Kept(first, idWorker.ids) && Emplaced(names, idWorker.ids, owner)
    requires Tidy(compiler.nameInfos) && compiler.resourceInfos == map[]
    modifies compiler`resourceInfos, idWorker`ids, idWorker`appId, idWorker`delIds
    ensures idWorker.Valid() && Kept(first, idWorker.ids)
    ensures ok <==> Nameable(idWorker.cluster, old(idWorker.State()), idWorker.definedIds, compiler.nameInfos.Keys)
    ensures idWorker.cluster.APP? && ok ==> Tracks(old(idWorker.State()), idWorker.State(), compiler.nameInfos.Keys)
    ensures ok ==> Emplaced(compiler.nameInfos + names, idWorker.ids, r)
  {
    hide *;
    ghost var before := idWorker.ids;
    ok := compiler.PostCommit(idWorker);
    KeptOn(first, before, idWorker.ids);
    if !ok {
      return owner, false;
    }
    EmplacedKept(names, before, idWorker.ids, owner);
    PushEmplaces(names, compiler.nameInfos, idWorker.ids, owner, compiler.resourceInfos);
    r := Push(owner, compiler.resourceInfos, false);
  }

  lemma TidyAt(tables: seq<NameTable>, n: nat)
    requires n < |tables| && AllTidy(tables)
    ensures Tidy(tables[n])
  {
    hide Tidy;
  }

  lemma {:induction false} FirstGrows(tables: seq<NameTable>, m: nat, n: nat)
    requires m <= n <= |tables|
    ensures FirstCollected(tables, m).Keys <= FirstCollected(tables, n).Keys
  {
    if m < n { FirstGrows(tables, m, n - 1); }
  }
}
