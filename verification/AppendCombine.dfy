/**
 The append mode's combination: the record files of all modules read and pushed item by item.  Whether it succeeds
 can be told beforehand.
 */
module AppendCombining {
  import opened AppendFiles
  import opened AppendMerging
  import opened Bytes
  import F = AppendFormat
  import opened IdRooms
  import opened IdWorkers
  import opened Merging
  import opened ResourceData

  // From state s0 to state s, an application's worker has generated exactly these names.
  ghost predicate Advanced(cluster: Cluster, s0: Ids, s: Ids, names: set<ResName>) {
    cluster.APP? ==> Tracks(s0, s, names)
  }

  // From state s0 on there are ids for the names, and the whole list has no conflict.
  ghost predicate Takes(cluster: Cluster, defined: map<ResName, int>, s0: Ids, names: set<ResName>, list: seq<Item>) {
    match cluster
    case APP => Enough(s0, names) && NameConsistent(list)
    case SYS => Acceptable(Numbered(defined, list))
  }

  // From state s0 on all modules can be taken: ids are for all of them together, conflicts within each.
  ghost predicate TakesAll(cluster: Cluster, defined: map<ResName, int>, s0: Ids, lists: seq<seq<Item>>) {
    match cluster
    case APP => Enough(s0, NamesOf(Joined(lists))) && forall m :: 0 <= m < |lists| ==> NameConsistent(lists[m])
    case SYS => forall m :: 0 <= m < |lists| ==> Acceptable(Numbered(defined, lists[m]))
  }

  lemma AdvancedIs(cluster: Cluster, s0: Ids, s: Ids, names: set<ResName>)
    ensures Advanced(cluster, s0, s, names) <==> (cluster.APP? ==> Tracks(s0, s, names))
  {
    hide Tracks;
  }

  lemma TakesIs(cluster: Cluster, defined: map<ResName, int>, s0: Ids, names: set<ResName>, list: seq<Item>)
    ensures cluster.APP? ==> (Takes(cluster, defined, s0, names, list) <==> Enough(s0, names) && NameConsistent(list))
    ensures cluster.SYS? ==> (Takes(cluster, defined, s0, names, list) <==> Acceptable(Numbered(defined, list)))
  {
    hide Enough, NameConsistent, Acceptable;
  }

  lemma TakesAllIs(cluster: Cluster, defined: map<ResName, int>, s0: Ids, lists: seq<seq<Item>>, m: nat)
    requires m < |lists| && TakesAll(cluster, defined, s0, lists)
    ensures cluster.APP? ==> Enough(s0, NamesOf(Joined(lists))) && NameConsistent(lists[m])
    ensures cluster.SYS? ==> Acceptable(Numbered(defined, lists[m]))
  {
    hide Enough, NameConsistent, Acceptable;
  }

  lemma SysIds(idWorker: IdWorker, key: ResName)
    requires idWorker.Valid() && idWorker.cluster.SYS?
    ensures key in idWorker.ids ==> key in idWorker.definedIds && idWorker.ids[key] == idWorker.definedIds[key]
    ensures key in idWorker.definedIds ==> idWorker.definedIds[key] >= 0
  {
  }

  // A system build's records are those the definitions give.
  lemma SysNumbered(idWorker: IdWorker, items: seq<Item>)
    requires idWorker.Valid() && idWorker.cluster.SYS?
    requires AllNamed(Numbered(idWorker.ids, items))
    ensures Numbered(idWorker.ids, items) == Numbered(idWorker.definedIds, items)
  {
    forall i | 0 <= i < |items|
      ensures Numbered(idWorker.ids, items)[i] == Numbered(idWorker.definedIds, items)[i]
    {
      SysIds(idWorker, IdName(items[i]));
    }
    hide IdName;
  }

  lemma AdvancedOn(cluster: Cluster, s0: Ids, s1: Ids, s2: Ids, a: seq<Item>, b: seq<Item>)
    requires Advanced(cluster, s0, s1, NamesOf(a))
    ensures Advanced(cluster, s1, s2, NamesOf(b)) ==> Advanced(cluster, s0, s2, NamesOf(a + b))
  {
    if cluster.APP? {
      TracksOn(s0, s1, s2, NamesOf(a), NamesOf(b));
      NamesOfConcat(a, b);
    }
    hide Tracks, NamesOf;
  }

  // What a whole list needs, a part of it needs when its turn comes.
  lemma TakesPart(cluster: Cluster, defined: map<ResName, int>, s0: Ids, s1: Ids, done: seq<Item>, part: seq<Item>,
                  all: seq<Item>)
    requires Advanced(cluster, s0, s1, NamesOf(done)) && done + part <= all
    requires Takes(cluster, defined, s0, NamesOf(all), all)
    ensures Takes(cluster, defined, s1, NamesOf(part), done + part)
  {
    hide *;
    var n := |done + part|;
    assert all[..n] == done + part && all == (done + part) + all[n..];
    TakesIs(cluster, defined, s0, NamesOf(all), all);
    TakesIs(cluster, defined, s1, NamesOf(part), done + part);
    if cluster.APP? {
      NamesOfConcat(done, part);
      NamesOfConcat(done + part, all[n..]);
      AdvancedIs(cluster, s0, s1, NamesOf(done));
      EnoughGrows(s0, NamesOf(done) + NamesOf(part), NamesOf(all));
      TracksOn(s0, s1, s1, NamesOf(done), NamesOf(part));
      ConsistentPrefixNames(all, n);
    } else {
      NumberedPrefix(defined, all, n);
      AcceptablePrefix(Numbered(defined, all), n);
    }
  }

  // A list taken shows that it could be.
  lemma Accepted(idWorker: IdWorker, first: Ids, list: seq<Item>, all: seq<Item>)
    requires idWorker.Valid() && Acceptable(Numbered(idWorker.ids, all))
    requires Advanced(idWorker.cluster, first, idWorker.State(), NamesOf(list))
    ensures Takes(idWorker.cluster, idWorker.definedIds, first, NamesOf(list), all)
  {
    hide *;
    AcceptableIs(Numbered(idWorker.ids, all));
    TakesIs(idWorker.cluster, idWorker.definedIds, first, NamesOf(list), all);
    if idWorker.cluster.APP? {
      ValidIs(idWorker);
      ConsistentByName(idWorker.ids, all);
      AdvancedIs(idWorker.cluster, first, idWorker.State(), NamesOf(list));
      TracksEnough(first, idWorker.State(), NamesOf(list));
    } else {
      SysNumbered(idWorker, all);
    }
  }

  // ------------------------------------------------------------ one item

  lemma PushStarts(idWorker: IdWorker, done: seq<Item>, list: seq<Item>)
    ensures done + list[..0] == done && Kept(idWorker.ids, idWorker.ids)
    ensures Advanced(idWorker.cluster, idWorker.State(), idWorker.State(), NamesOf(list[..0]))
  {
    TracksNone(idWorker.State());
    NamesOfConcat([], []);
    assert list[..0] == [];
    hide Tracks;
  }

  lemma TakenStep(ids: map<ResName, int>, done: seq<Item>, list: seq<Item>, i: nat)
    requires i < |list|
    ensures Numbered(ids, done + list[..i + 1])
            == Numbered(ids, done + list[..i]) + [Loaded(IdOf(ids, list[i]), list[i])]
    ensures done + list[..i + 1] == (done + list)[..|done| + i + 1]
    ensures Numbered(ids, done + list)[..|done| + i + 1] == Numbered(ids, done + list[..i + 1])
  {
    var all := done + list;
    NumberedStep(ids, all, |done| + i);
    assert all[..|done| + i] == done + list[..i] && all[..|done| + i + 1] == done + list[..i + 1];
    hide Numbered, IdOf;
  }

  lemma NamesStep(list: seq<Item>, i: nat)
    requires i < |list|
    ensures NamesOf(list[..i + 1]) == NamesOf(list[..i]) + {IdName(list[i])} <= NamesOf(list)
  {
    assert list[..i + 1] == list[..i] + [list[i]] && list == list[..i + 1] + list[i + 1..];
    NamesOfConcat(list[..i], [list[i]]);
    NamesOfConcat(list[..i + 1], list[i + 1..]);
    NamesOfOne(list[i]);
    hide NamesOf, IdName;
  }

  // What the generation to come will do.
  lemma Forecast(idWorker: IdWorker, first: Ids, list: seq<Item>, i: nat)
    requires i < |list| && idWorker.Valid() && Advanced(idWorker.cluster, first, idWorker.State(), NamesOf(list[..i]))
    ensures idWorker.cluster.APP? ==>
      var (t, id) := Generated(idWorker.State(), IdName(list[i]));
      if id == -1 then !Enough(first, NamesOf(list)) else Tracks(first, t, NamesOf(list[..i + 1]))
  {
    if idWorker.cluster.APP? {
      ValidIs(idWorker);
      NamesStep(list, i);
      hide *;
      AdvancedIs(idWorker.cluster, first, idWorker.State(), NamesOf(list[..i]));
      TracksOne(first, idWorker.State(), NamesOf(list[..i]), IdName(list[i]));
      EnoughGrows(first, NamesOf(list[..i + 1]), NamesOf(list));
    }
  }

  // A success leaves what was forecast.
  lemma AdvancedStep(idWorker: IdWorker, first: Ids, was: Ids, list: seq<Item>, i: nat)
    requires i < |list| && IdOf(idWorker.ids, list[i]) >= 0
    requires idWorker.cluster.APP? ==>
      && (idWorker.State(), IdOf(idWorker.ids, list[i])) == Generated(was, IdName(list[i]))
      && var (t, id) := Generated(was, IdName(list[i]));
        if id == -1 then !Enough(first, NamesOf(list)) else Tracks(first, t, NamesOf(list[..i + 1]))
    ensures Advanced(idWorker.cluster, first, idWorker.State(), NamesOf(list[..i + 1]))
  {
    hide Generated, Tracks, Enough, NamesOf, IdName, IdOf;
  }

  lemma AllHaveIds(ids: map<ResName, int>, done: seq<Item>, list: seq<Item>, i: nat)
    requires i < |list| && IdOf(ids, list[i]) != -1 && forall key :: key in ids ==> ids[key] >= 0
    requires AllNamed(Numbered(ids, done + list[..i]))
    ensures AllNamed(Numbered(ids, done + list[..i + 1]))
  {
    TakenStep(ids, done, list, i);
    hide IdName;
  }

  // A push that fails shows that the whole list could not be taken.
  lemma Refused(idWorker: IdWorker, first: Ids, was: Ids, done: seq<Item>, list: seq<Item>, i: nat)
    requires idWorker.Valid() && i < |list|
    requires Acceptable(Numbered(idWorker.ids, done + list[..i]))
    requires !Acceptable(Numbered(idWorker.ids, done + list[..i + 1]))
    requires idWorker.cluster.APP? ==>
      && (idWorker.State(), IdOf(idWorker.ids, list[i])) == Generated(was, IdName(list[i]))
      && var (t, id) := Generated(was, IdName(list[i]));
        if id == -1 then !Enough(first, NamesOf(list)) else Tracks(first, t, NamesOf(list[..i + 1]))
    requires idWorker.cluster.SYS? ==> IdOf(idWorker.ids, list[i]) == IdOf(idWorker.definedIds, list[i])
    ensures !Takes(idWorker.cluster, idWorker.definedIds, first, NamesOf(list), done + list)
  {
    hide *;
    var ids, upto := idWorker.ids, done + list[..i + 1];
    TakenStep(ids, done, list, i);
    AcceptableIs(Numbered(ids, done + list[..i]));
    TakesIs(idWorker.cluster, idWorker.definedIds, first, NamesOf(list), done + list);
    if idWorker.cluster.APP? {
      if IdOf(ids, list[i]) != -1 {
        ValidIs(idWorker);
        AllHaveIds(ids, done, list, i);
        ConsistentByName(ids, upto);
        AcceptableIs(Numbered(ids, upto));
        if NameConsistent(done + list) { ConsistentPrefixNames(done + list, |done| + i + 1); }
      }
    } else {
      SysNumbered(idWorker, done + list[..i]);
      TakenStep(idWorker.definedIds, done, list, i);
      if Acceptable(Numbered(idWorker.definedIds, done + list)) {
        AcceptablePrefix(Numbered(idWorker.definedIds, done + list), |done| + i + 1);
      }
    }
  }

  // ------------------------------------------------------------ one file, one module

  lemma ItemsOfIs(file: Text)
    ensures Signed(U32(|file|)) > 0 <==> Loadable(file)
    ensures Loadable(file) ==>
      Signed(U32(|file|)) <= |file| && ItemsOf(file) == F.Pushed(F.RecordsFrom(file[..Signed(U32(|file|))], 0))
  {
    hide F.Pushed, F.RecordsFrom;
  }

  lemma FileRefused(cluster: Cluster, defined: map<ResName, int>, s0: Ids, s1: Ids, files: seq<Text>, f: nat)
    requires f < |files| && Advanced(cluster, s0, s1, NamesOf(FileItems(files[..f])))
    requires var part := ItemsOf(files[f]);
      !(Loadable(files[f]) && Takes(cluster, defined, s1, NamesOf(part), FileItems(files[..f]) + part))
    ensures !(FilesLoadable(files) && Takes(cluster, defined, s0, NamesOf(FileItems(files)), FileItems(files)))
  {
    hide *;
    FilesStep(files, f);
    FilesPrefix(files, f + 1);
    if FilesLoadable(files) && Takes(cluster, defined, s0, NamesOf(FileItems(files)), FileItems(files)) {
      TakesPart(cluster, defined, s0, s1, FileItems(files[..f]), ItemsOf(files[f]), FileItems(files));
    }
  }

  lemma CombineStarts(idWorker: IdWorker, m: Table, refs: seq<Item>, files: seq<Text>)
    ensures FileItems(files[..0]) == [] && FilesLoadable(files[..0]) && Kept(idWorker.ids, idWorker.ids)
    ensures Acceptable(Numbered(idWorker.ids, FileItems(files[..0])))
    ensures Advanced(idWorker.cluster, idWorker.State(), idWorker.State(), NamesOf(FileItems(files[..0])))
    ensures var rs := Numbered(idWorker.ids, FileItems(files[..0]));
      rs == [] && Accumulated(map[], rs) == map[] && Accumulated(m, rs) == m && refs + RefsOf(m, rs) == refs
  {
    var none: seq<Item> := [];
    PushStarts(idWorker, none, none);
    assert none[..0] == none;
    assert Acceptable([]);
    hide Advanced, NamesOf, IdName;
  }

  class ResourceAppend {
    var items: Table
    var itemsForModule: Table
    var refs: seq<Item>

    constructor ()
      ensures items == map[] && itemsForModule == map[] && refs == []
    {
      items, itemsForModule, refs := map[], map[], [];
    }

    method CheckModuleResourceItem(r: Loaded) returns (ok: bool)
      modifies this`itemsForModule
      ensures ok <==> !Has(ItemsIn(old(itemsForModule), r.id), r.item.limitKey)
      ensures ok ==> itemsForModule == AddOnce(old(itemsForModule), r)
      ensures !ok ==> itemsForModule == old(itemsForModule)
    {
      AppendedOne(ItemsIn(itemsForModule, r.id), r.item);
      hide Appended;
      assert [] + [r.item] == [r.item];
      if r.id !in itemsForModule {
        itemsForModule := itemsForModule[r.id := [r.item]];
        return true;
      }
      if Has(itemsForModule[r.id], r.item.limitKey) {
        return false;
      }
      itemsForModule := itemsForModule[r.id := itemsForModule[r.id] + [r.item]];
      return true;
    }

    method AddRef(item: Item)
      modifies this`refs
      ensures refs == old(refs) + if NeedsRef(item) then [item] else []
    {
      if item.resType == MEDIA {
        return;
      }
      if item.resType == PROF {
        if item.limitKey != AsBytes("base") || !IsJson(item.filePath) {
          return;
        }
        refs := refs + [item];
        return;
      }
      if HoldsReference(item.data) {
        refs := refs + [item];
      }
    }

    method Push(idWorker: IdWorker, item: Item) returns (ok: bool)
      requires idWorker.Valid()
      modifies this, idWorker`ids, idWorker`appId, idWorker`delIds
      ensures idWorker.Valid() && Kept(old(idWorker.ids), idWorker.ids)
      ensures idWorker.cluster.APP? ==>
        (idWorker.State(), IdOf(idWorker.ids, item)) == Generated(old(idWorker.State()), IdName(item))
      ensures idWorker.cluster.SYS? ==> IdOf(idWorker.ids, item) == IdOf(idWorker.definedIds, item)
      ensures var r := Loaded(IdOf(idWorker.ids, item), item);
        && (ok <==> r.id >= 0 && !Has(ItemsIn(old(itemsForModule), r.id), item.limitKey))
        && (ok ==> items == AddOnce(old(items), r) && itemsForModule == AddOnce(old(itemsForModule), r))
        && (ok ==> refs == old(refs) + NewRef(old(items), r))
      ensures !ok ==> items == old(items) && itemsForModule == old(itemsForModule) && refs == old(refs)
    {
      hide *;
      if idWorker.cluster.SYS? { SysIds(idWorker, IdName(item)); }
      var id := idWorker.GenerateId(IdName(item));
      IdOfIs(idWorker.ids, item);
      IdOfIs(idWorker.definedIds, item);
      if idWorker.cluster.SYS? { SysIds(idWorker, IdName(item)); }
      if id < 0 {
        return false;
      }
      var r := Loaded(id, item);
      ok := CheckModuleResourceItem(r);
      if ok {
        Take(r);
      }
    }

    // An item whose limit key another module has declared under the id is left out.
    method Take(r: Loaded)
      modifies this`items, this`refs
      ensures items == AddOnce(old(items), r) && refs == old(refs) + NewRef(old(items), r)
    {
      AppendedOne(ItemsIn(items, r.id), r.item);
      hide Appended, NeedsRef;
      assert [] + [r.item] == [r.item];
      if r.id !in items {
        items := items[r.id := [r.item]];
        AddRef(r.item);
        return;
      }
      if Has(items[r.id], r.item.limitKey) {
        assert items[r.id := items[r.id]] == items;
        return;
      }
      items := items[r.id := items[r.id] + [r.item]];
      AddRef(r.item);
    }

    // Where a module's records so far have led, from the items and references there were before it.
    ghost predicate Holding(start: Table, startRefs: seq<Item>, rs: seq<Loaded>)
      reads this
    {
      && itemsForModule == Accumulated(map[], rs) && items == Accumulated(start, rs)
      && refs == startRefs + RefsOf(start, rs)
    }

    /**
     Pushes items one after the other.  Whether all are taken shows beforehand: an application must have room for
     their new names, and the names and limit keys of the module must not repeat; a system build must have all
     names defined, without conflict under the ids defined.
     */
    method PushAll(idWorker: IdWorker, list: seq<Item>, ghost done: seq<Item>, ghost start: Table,
                   ghost startRefs: seq<Item>)
      returns (ok: bool)
      requires idWorker.Valid() && Acceptable(Numbered(idWorker.ids, done))
      requires Holding(start, startRefs, Numbered(idWorker.ids, done))
      modifies this, idWorker`ids, idWorker`appId, idWorker`delIds
      ensures idWorker.Valid() && Kept(old(idWorker.ids), idWorker.ids)
      ensures ok ==> Acceptable(Numbered(idWorker.ids, done + list))
      ensures ok ==> Holding(start, startRefs, Numbered(idWorker.ids, done + list))
      ensures ok ==> Advanced(idWorker.cluster, old(idWorker.State()), idWorker.State(), NamesOf(list))
      ensures ok <==> Takes(idWorker.cluster, idWorker.definedIds, old(idWorker.State()), NamesOf(list), done + list)
    {
      hide *;
      ghost var first := idWorker.State();
      var i := 0;
      PushStarts(idWorker, done, list);
      while i < |list|
        invariant i <= |list| && idWorker.Valid() && Kept(old(idWorker.ids), idWorker.ids)
        invariant Acceptable(Numbered(idWorker.ids, done + list[..i]))
        invariant Holding(start, startRefs, Numbered(idWorker.ids, done + list[..i]))
        invariant Advanced(idWorker.cluster, first, idWorker.State(), NamesOf(list[..i]))
      {
        ghost var before := idWorker.ids;
        ghost var was := idWorker.State();
        ghost var rs := Numbered(before, done + list[..i]);
        HoldingIs(start, startRefs, rs);
        Forecast(idWorker, first, list, i);
        var fine := Push(idWorker, list[i]);
        ghost var ids := idWorker.ids;
        ghost var r := Loaded(IdOf(ids, list[i]), list[i]);
        KeptOn(old(idWorker.ids), before, ids);
        AcceptableIs(rs);
        NumberedKept(before, ids, done + list[..i]);
        TakenStep(ids, done, list, i);
        AccumulatedStep(map[], rs, r);
        AccumulatedStep(start, rs, r);
        RefsStep(start, rs, r);
        Associate(startRefs, RefsOf(start, rs), NewRef(Accumulated(start, rs), r));
        AcceptableStep(rs, r);
        AccumulatedFirsts(rs, r.id);
        if !fine {
          Refused(idWorker, first, was, done, list, i);
          return false;
        }
        AdvancedStep(idWorker, first, was, list, i);
        HoldingIs(start, startRefs, rs + [r]);
        i := i + 1;
      }
      assert list[..i] == list;
      Accepted(idWorker, first, list, done + list);
      return true;
    }

    // A file of a module: refused without content, else read, its items pushed.
    method LoadResourceItem(idWorker: IdWorker, file: Text, ghost done: seq<Item>, ghost start: Table,
                            ghost startRefs: seq<Item>)
      returns (ok: bool)
      requires idWorker.Valid() && Acceptable(Numbered(idWorker.ids, done))
      requires Holding(start, startRefs, Numbered(idWorker.ids, done))
      modifies this, idWorker`ids, idWorker`appId, idWorker`delIds
      ensures idWorker.Valid() && Kept(old(idWorker.ids), idWorker.ids)
      ensures ok ==> Acceptable(Numbered(idWorker.ids, done + ItemsOf(file)))
      ensures ok ==> Holding(start, startRefs, Numbered(idWorker.ids, done + ItemsOf(file)))
      ensures ok ==> Advanced(idWorker.cluster, old(idWorker.State()), idWorker.State(), NamesOf(ItemsOf(file)))
      ensures ok <==>
        && Loadable(file)
        && Takes(idWorker.cluster, idWorker.definedIds, old(idWorker.State()), NamesOf(ItemsOf(file)),
                 done + ItemsOf(file))
    {
      hide *;
      PushStarts(idWorker, done, done);
      ItemsOfIs(file);
      var length := Signed(U32(|file|));
      if length <= 0 {
        return false;
      }
      var list := F.LoadResourceItemFromMem(file[..length]);
      ok := PushAll(idWorker, list, done, start, startRefs);
    }

    /**
     A module is taken over exactly if none of its files is refused and its items can be taken.  Ids given on the
     way are for good, so the records are stated with those there are in the end.
     */
    method Combine(idWorker: IdWorker, files: seq<Text>) returns (ok: bool)
      requires idWorker.Valid()
      modifies this, idWorker`ids, idWorker`appId, idWorker`delIds
      ensures idWorker.Valid() && Kept(old(idWorker.ids), idWorker.ids)
      ensures ok ==> Acceptable(Numbered(idWorker.ids, FileItems(files)))
      ensures ok ==> items == Accumulated(old(items), Numbered(idWorker.ids, FileItems(files)))
      ensures ok ==> refs == old(refs) + RefsOf(old(items), Numbered(idWorker.ids, FileItems(files)))
      ensures ok ==> Advanced(idWorker.cluster, old(idWorker.State()), idWorker.State(), NamesOf(FileItems(files)))
      ensures ok <==>
        && FilesLoadable(files)
        && Takes(idWorker.cluster, idWorker.definedIds, old(idWorker.State()), NamesOf(FileItems(files)),
                 FileItems(files))
    {
      hide *;
      itemsForModule := map[];
      ghost var first, start, startRefs := idWorker.State(), items, refs;
      CombineStarts(idWorker, items, refs, files);
      HoldingIs(start, startRefs, Numbered(idWorker.ids, FileItems(files[..0])));
      var f := 0;
      while f < |files|
        invariant f <= |files| && idWorker.Valid() && Kept(old(idWorker.ids), idWorker.ids)
        invariant FilesLoadable(files[..f]) && Acceptable(Numbered(idWorker.ids, FileItems(files[..f])))
        invariant Holding(start, startRefs, Numbered(idWorker.ids, FileItems(files[..f])))
        invariant Advanced(idWorker.cluster, first, idWorker.State(), NamesOf(FileItems(files[..f])))
      {
        ghost var before, was, done := idWorker.ids, idWorker.State(), FileItems(files[..f]);
        FilesStep(files, f);
        ok := LoadResourceItem(idWorker, files[f], done, start, startRefs);
        KeptOn(old(idWorker.ids), before, idWorker.ids);
        AdvancedOn(idWorker.cluster, first, was, idWorker.State(), done, ItemsOf(files[f]));
        if !ok {
          FileRefused(idWorker.cluster, idWorker.definedIds, first, was, files, f);
          return;
        }
        f := f + 1;
      }
      assert files[..f] == files;
      HoldingIs(start, startRefs, Numbered(idWorker.ids, FileItems(files)));
      Accepted(idWorker, first, FileItems(files), FileItems(files));
      return true;
    }

    lemma HoldingIs(start: Table, startRefs: seq<Item>, rs: seq<Loaded>)
      ensures Holding(start, startRefs, rs) <==>
        && itemsForModule == Accumulated(map[], rs) && items == Accumulated(start, rs)
        && refs == startRefs + RefsOf(start, rs)
    {
      hide Accumulated, RefsOf;
    }
  }

  // ------------------------------------------------------------ all modules

  lemma {:induction false} JoinedPrefix(lists: seq<seq<Item>>, m: nat)
    requires m <= |lists|
    ensures Joined(lists[..m]) <= Joined(lists)
    decreases |lists|
  {
    if m < |lists| {
      JoinedPrefix(lists[..|lists| - 1], m);
      assert lists[..|lists| - 1][..m] == lists[..m];
    } else {
      assert lists[..m] == lists;
    }
  }

  // A module that cannot be taken when its turn comes shows that not all of them can.
  lemma ModuleRefused(cluster: Cluster, defined: map<ResName, int>, s0: Ids, s1: Ids, lists: seq<seq<Item>>, m: nat)
    requires m < |lists| && Advanced(cluster, s0, s1, NamesOf(Joined(lists[..m])))
    requires !Takes(cluster, defined, s1, NamesOf(lists[m]), lists[m])
    ensures !TakesAll(cluster, defined, s0, lists)
  {
    hide *;
    if TakesAll(cluster, defined, s0, lists) {
      TakesAllIs(cluster, defined, s0, lists, m);
      TakesIs(cluster, defined, s1, NamesOf(lists[m]), lists[m]);
      if cluster.APP? {
        JoinedStep(lists, m);
        JoinedPrefix(lists, m + 1);
        var done, all := Joined(lists[..m]), Joined(lists);
        var n := |done + lists[m]|;
        assert all == (done + lists[m]) + all[n..];
        NamesOfConcat(done, lists[m]);
        NamesOfConcat(done + lists[m], all[n..]);
        AdvancedIs(cluster, s0, s1, NamesOf(done));
        EnoughGrows(s0, NamesOf(done) + NamesOf(lists[m]), NamesOf(all));
        TracksOn(s0, s1, s1, NamesOf(done), NamesOf(lists[m]));
      }
    }
  }

  lemma LoadableAll(modules: seq<seq<Text>>)
    ensures AllLoadable(modules) <==> forall m :: 0 <= m < |modules| ==> FilesLoadable(modules[m])
  {
    hide FilesLoadable;
  }

  lemma ModuleFails(cluster: Cluster, defined: map<ResName, int>, s0: Ids, s1: Ids, modules: seq<seq<Text>>, m: nat)
    requires m < |modules| && Advanced(cluster, s0, s1, NamesOf(Joined(AllFileItems(modules)[..m])))
    requires !(FilesLoadable(modules[m])
               && Takes(cluster, defined, s1, NamesOf(FileItems(modules[m])), FileItems(modules[m])))
    ensures !(AllLoadable(modules) && TakesAll(cluster, defined, s0, AllFileItems(modules)))
  {
    LoadableAll(modules);
    hide *;
    if FilesLoadable(modules[m]) { ModuleRefused(cluster, defined, s0, s1, AllFileItems(modules), m); }
  }

  // Modules that were all taken show that they could be.
  lemma AllAccepted(idWorker: IdWorker, first: Ids, lists: seq<seq<Item>>)
    requires idWorker.Valid() && Advanced(idWorker.cluster, first, idWorker.State(), NamesOf(Joined(lists)))
    requires forall m :: 0 <= m < |lists| ==> Acceptable(AllNumbered(idWorker.ids, lists)[m])
    ensures TakesAll(idWorker.cluster, idWorker.definedIds, first, lists)
  {
    hide NamesOf, Joined, Acceptable, NameConsistent, Tracks, Enough, IdWorker.Valid, IdWorker.State;
    if idWorker.cluster.APP? {
      ValidIs(idWorker);
      TracksEnough(first, idWorker.State(), NamesOf(Joined(lists)));
    }
    forall m | 0 <= m < |lists|
      ensures idWorker.cluster.APP? ==> NameConsistent(lists[m])
      ensures idWorker.cluster.SYS? ==> Acceptable(Numbered(idWorker.definedIds, lists[m]))
    {
      assert Acceptable(AllNumbered(idWorker.ids, lists)[m]);
      AcceptableIs(Numbered(idWorker.ids, lists[m]));
      if idWorker.cluster.APP? {
        ConsistentByName(idWorker.ids, lists[m]);
      } else {
        SysNumbered(idWorker, lists[m]);
      }
    }
  }

  lemma AllStarts(idWorker: IdWorker, modules: seq<seq<Text>>, lists: seq<seq<Item>>)
    ensures Kept(idWorker.ids, idWorker.ids)
    ensures Advanced(idWorker.cluster, idWorker.State(), idWorker.State(), NamesOf(Joined(lists[..0])))
    ensures var rs := AllRecords(AllNumbered(idWorker.ids, lists[..0]));
      Accumulated(map[], rs) == map[] && RefsOf(map[], rs) == []
  {
    var none: seq<Item> := [];
    PushStarts(idWorker, none, none);
    assert none[..0] == none;
    assert lists[..0] == [] && Joined([]) == [];
    hide Advanced, NamesOf, IdName;
  }

  /**
   The whole combination, on any files.  It succeeds exactly when no file is refused and, as shows beforehand, all
   modules can be taken; the items are then those of the folding merge, and recorded are exactly those of them that
   hold references.
   */
  method CombineAll(idWorker: IdWorker, modules: seq<seq<Text>>) returns (append: ResourceAppend, ok: bool)
    requires idWorker.Valid()
    modifies idWorker`ids, idWorker`appId, idWorker`delIds
    ensures idWorker.Valid() && Kept(old(idWorker.ids), idWorker.ids)
    ensures ok <==>
      && AllLoadable(modules)
      && TakesAll(idWorker.cluster, idWorker.definedIds, old(idWorker.State()), AllFileItems(modules))
    ensures ok ==> forall m :: 0 <= m < |modules| ==> Acceptable(AllNumbered(idWorker.ids, AllFileItems(modules))[m])
    ensures ok ==> append.items == Folded(Tables(AllNumbered(idWorker.ids, AllFileItems(modules))))
    ensures ok ==> append.refs == RefsOf(map[], AllRecords(AllNumbered(idWorker.ids, AllFileItems(modules))))
    ensures ok ==> forall x :: x in append.refs <==> Held(append.items, x) && NeedsRef(x)
  {
    hide *;
    append := new ResourceAppend();
    ghost var first, lists := idWorker.State(), AllFileItems(modules);
    AllStarts(idWorker, modules, lists);
    var m := 0;
    while m < |modules|
      invariant m <= |modules| == |lists| && idWorker.Valid() && Kept(old(idWorker.ids), idWorker.ids)
      invariant forall k :: 0 <= k < m ==> FilesLoadable(modules[k])
      invariant forall k :: 0 <= k < m ==> Acceptable(AllNumbered(idWorker.ids, lists[..m])[k])
      invariant append.items == Accumulated(map[], AllRecords(AllNumbered(idWorker.ids, lists[..m])))
      invariant append.refs == RefsOf(map[], AllRecords(AllNumbered(idWorker.ids, lists[..m])))
      invariant Advanced(idWorker.cluster, first, idWorker.State(), NamesOf(Joined(lists[..m])))
    {
      ghost var before, was := idWorker.ids, idWorker.State();
      ok := append.Combine(idWorker, modules[m]);
      ghost var ids := idWorker.ids;
      ghost var records := AllRecords(AllNumbered(before, lists[..m]));
      KeptOn(old(idWorker.ids), before, ids);
      AllNumberedKept(before, ids, lists[..m]);
      AllNumberedStep(ids, lists, m);
      JoinedStep(lists, m);
      AdvancedOn(idWorker.cluster, first, was, idWorker.State(), Joined(lists[..m]), lists[m]);
      if !ok {
        ModuleFails(idWorker.cluster, idWorker.definedIds, first, was, modules, m);
        return;
      }
      AccumulatedConcat(map[], records, Numbered(ids, lists[m]));
      RefsConcat(map[], records, Numbered(ids, lists[m]));
      m := m + 1;
    }
    assert lists[..m] == lists;
    AllAccepted(idWorker, first, lists);
    LoadableAll(modules);
    ConsistentModules(AllNumbered(idWorker.ids, lists));
    SameAsMerge(AllNumbered(idWorker.ids, lists));
    forall x ensures x in append.refs <==> Held(append.items, x) && NeedsRef(x) {
      RefsAre(AllRecords(AllNumbered(idWorker.ids, lists)), x);
    }
    return append, true;
  }

  /**
   Combining files that were written combines the items written to them: none is refused, and of every id and limit
   key the folding merge keeps the item written first.
   */
  lemma WrittenCombine(modules: seq<seq<seq<Item>>>, ids: map<ResName, int>)
    requires AllWritable(modules) && AllShort(WrittenModules(modules))
    requires forall m :: 0 <= m < |modules| ==> Acceptable(AllNumbered(ids, JoinedAll(modules))[m])
    ensures AllLoadable(WrittenModules(modules)) && AllFileItems(WrittenModules(modules)) == JoinedAll(modules)
    ensures var folded := Folded(Tables(AllNumbered(ids, AllFileItems(WrittenModules(modules)))));
      var records := AllRecords(AllNumbered(ids, JoinedAll(modules)));
      forall id :: ItemsIn(folded, id) == Firsts(Of(records, id))
  {
    hide *;
    AllFilesBack(modules);
    ConsistentModules(AllNumbered(ids, JoinedAll(modules)));
    SameAsMerge(AllNumbered(ids, JoinedAll(modules)));
  }
}
