/** What reading a resources.index file back gives, id by id, and when it gives that. */
module ResourceTableItems {
  import opened Bytes
  import opened ResourceData
  import opened ResourceTables
  import opened ResourceTableOffsets
  import opened ResourceTableRoundTrip
  import L = ResourceTableLoads
  import LimitKeys
  import opened Merging
  import opened ResourceTableCreation
  import TextOrder

  // The items of one id among the first k rows, in the order written.
  ghost function Under(configs: seq<Config>, id: int32, k: nat): seq<Item>
    requires Filled(configs) && k <= |All(configs)|
  {
    if k == 0 then []
    else Under(configs, id, k - 1) + if All(configs)[k - 1].row.id == id then [RestoredAt(configs, k - 1)] else []
  }

  lemma GroupedPushes(configs: seq<Config>, k: nat)
    requires Filled(configs) && k < |All(configs)|
    ensures Grouped(configs, k + 1) == L.Push(Grouped(configs, k), All(configs)[k].row.id, RestoredAt(configs, k))
  {
    hide All, L.Push, RestoredAt;
  }

  lemma UnderStep(configs: seq<Config>, id: int32, k: nat)
    requires Filled(configs) && k < |All(configs)|
    ensures Under(configs, id, k + 1)
            == Under(configs, id, k) + if All(configs)[k].row.id == id then [RestoredAt(configs, k)] else []
  {
    hide All, RestoredAt;
  }

  lemma PushHas(items: map<int32, seq<Item>>, id: int32, item: Item, x: int32)
    ensures x in L.Push(items, id, item) <==> x == id || x in items
    ensures x in L.Push(items, id, item) ==>
      L.Push(items, id, item)[x] == (if x in items then items[x] else []) + if x == id then [item] else []
  {
  }

  lemma GroupedNone(configs: seq<Config>, id: int32)
    requires Filled(configs)
    ensures Grouped(configs, 0) == map[] && Under(configs, id, 0) == []
  {
  }

  lemma {:induction false} GroupedIs(configs: seq<Config>, id: int32, k: nat)
    requires Filled(configs) && k <= |All(configs)|
    ensures id in Grouped(configs, k) <==> Under(configs, id, k) != []
    ensures id in Grouped(configs, k) ==> Grouped(configs, k)[id] == Under(configs, id, k)
  {
    hide *;
    if k == 0 {
      GroupedNone(configs, id);
    } else {
      GroupedIs(configs, id, k - 1);
      GroupedPushes(configs, k - 1);
      UnderStep(configs, id, k - 1);
      PushHas(Grouped(configs, k - 1), All(configs)[k - 1].row.id, RestoredAt(configs, k - 1), id);
    }
  }

  // The rows of a limit key share its params, and names hold no NUL.
  ghost predicate Plain(configs: seq<Config>) {
    forall k :: 0 <= k < |All(configs)| ==> PlainRow(configs, All(configs)[k])
  }

  predicate PlainRow(configs: seq<Config>, p: Placed) {
    && p.group < |configs| && configs[p.group] != []
    && p.row.resourceItem.keyParams == KeyParams(configs[p.group])
    && 0 !in GetIdName(p.row.resourceItem.name, p.row.resourceItem.resType)
  }

  lemma RestoredIs(configs: seq<Config>, k: nat)
    requires Filled(configs) && Plain(configs) && k < |All(configs)|
    ensures var item := All(configs)[k].row.resourceItem;
      RestoredAt(configs, k) == Item(GetIdName(item.name, item.resType), AsBytes(LimitKeys.Printed(item.keyParams)), [],
                                     item.resType, item.keyParams, item.data + [0])
  {
    assert PlainRow(configs, All(configs)[k]);
    hide All, LimitKeys.Printed, KeyParams, GetIdName, Filled, Plain;
  }

  /**
   Every row comes back under its id, in the order written, with its type, its key params, its id
   name, and its value with one NUL behind it; and nothing else does.
   */
  lemma EveryItemBack(configs: seq<Config>, id: int32)
    requires Filled(configs) && DistinctIds(configs) && |Image(configs)| < 0x8000_0000
    requires AllKnown(configs) && Plain(configs) && AllFit(configs, |All(configs)|)
    ensures L.Loaded(Image(configs)).Got?
    ensures var m := L.Loaded(Image(configs)).value;
      && (id in m <==> Under(configs, id, |All(configs)|) != [])
      && (id in m ==> m[id] == Under(configs, id, |All(configs)|))
    ensures forall k :: 0 <= k < |All(configs)| ==>
      var item := All(configs)[k].row.resourceItem;
      RestoredAt(configs, k) == Item(GetIdName(item.name, item.resType), AsBytes(LimitKeys.Printed(item.keyParams)), [],
                                     item.resType, item.keyParams, item.data + [0])
  {
    hide *;
    RoundTrip(configs);
    GroupedIs(configs, id, |All(configs)|);
    forall k | 0 <= k < |All(configs)|
      ensures var item := All(configs)[k].row.resourceItem;
        RestoredAt(configs, k) == Item(GetIdName(item.name, item.resType), AsBytes(LimitKeys.Printed(item.keyParams)), [],
                                       item.resType, item.keyParams, item.data + [0])
    {
      RestoredIs(configs, k);
    }
  }

  // ------------------------------------------------------------ when a row does not fit

  // Lists only grow.
  ghost predicate Extends(before: map<int32, seq<Item>>, m: map<int32, seq<Item>>) {
    forall id :: id in before ==> id in m && before[id] <= m[id]
  }

  lemma ExtendsItself(m: map<int32, seq<Item>>)
    ensures Extends(m, m)
  {
  }

  lemma PushExtends(items: map<int32, seq<Item>>, id: int32, item: Item, m: map<int32, seq<Item>>)
    requires Extends(L.Push(items, id, item), m)
    ensures Extends(items, m)
    ensures id in m && |m[id]| > (if id in items then |items[id]| else 0)
    ensures m[id][if id in items then |items[id]| else 0] == item
  {
    var p := L.Push(items, id, item);
    assert p[id] <= m[id];
    forall x | x in items ensures x in m && items[x] <= m[x] {
      assert x in p && items[x] <= p[x] <= m[x];
    }
  }

  lemma {:induction false} GroupedExtends(configs: seq<Config>, k: nat, n: nat)
    requires Filled(configs) && k <= n <= |All(configs)|
    ensures Extends(Grouped(configs, k), Grouped(configs, n))
    decreases n - k
  {
    hide *;
    if k == n {
      ExtendsItself(Grouped(configs, k));
    } else {
      GroupedExtends(configs, k + 1, n);
      GroupedPushes(configs, k);
      PushExtends(Grouped(configs, k), All(configs)[k].row.id, RestoredAt(configs, k), Grouped(configs, n));
    }
  }

  lemma {:induction false} RecordFromPushes(b: Text, k: L.Keys, ids: L.Ids, s: L.Records, length: int32)
      returns (id: int32, item: Item)
    requires L.RecordFrom(b, k, ids, s, length).Got?
    ensures L.RecordFrom(b, k, ids, s, length).value.items == L.Push(s.items, id, item)
    ensures L.RecordHeadAt(b, s.at, s.pos, length).Got?
    ensures var head := L.RecordHeadAt(b, s.at, s.pos, length).value;
      id == head.id && |item.data| + |item.name| + 4 <= head.size
  {
    hide L.KeyParamsAt, L.Push, LimitKeys.Printed, KnownType;
    var head := L.RecordHeadAt(b, s.at, s.pos, length).value;
    var body := L.ValueAndNameAt(b, s.at, head.size).value;
    hide L.ValueAndNameAt, L.RecordHeadAt;
    id := head.id;
    var ps := L.KeyParamsAt(k, ids, s.at, head.id).value;
    item := Item(body.name, AsBytes(LimitKeys.Printed(ps)), [], head.resType, ps, body.data);
  }

  lemma {:induction false} RecordsExtend(b: Text, k: L.Keys, ids: L.Ids, s: L.Records, length: int32)
    requires s.at <= |b| && length <= |b| && L.RecordsFrom(b, k, ids, s, length).Got?
    ensures Extends(s.items, L.RecordsFrom(b, k, ids, s, length).value)
    decreases |b| - s.at
  {
    if s.at < length {
      var id, item := RecordFromPushes(b, k, ids, s, length);
      var next := L.RecordFrom(b, k, ids, s, length).value;
      RecordsExtend(b, k, ids, next, length);
      PushExtends(s.items, id, item, L.RecordsFrom(b, k, ids, next, length).value);
      hide L.RecordFrom, L.RecordHeadAt, Extends;
    }
  }

  lemma RecordsFromGot(b: Text, k: L.Keys, ids: L.Ids, s: L.Records, length: int32)
    requires s.at < length <= |b| && L.RecordsFrom(b, k, ids, s, length).Got?
    ensures L.RecordFrom(b, k, ids, s, length).Got? && L.RecordFrom(b, k, ids, s, length).value.at <= |b|
  {
    hide L.RecordHeadAt, L.ValueAndNameAt, L.KeyParamsAt, L.Push, LimitKeys.Printed, KnownType;
  }

  lemma FirstUnfit(configs: seq<Config>, n: nat) returns (k: nat)
    requires n <= |All(configs)| && !AllFit(configs, n)
    ensures k < n && AllFit(configs, k) && !FitsRecord(All(configs)[k].row.resourceItem)
  {
    hide FitsRecord, All;
    if n > 0 && AllFit(configs, n - 1) {
      k := n - 1;
    } else {
      k := FirstUnfit(configs, n - 1);
    }
  }

  lemma PlainAt(configs: seq<Config>, k: nat)
    requires Plain(configs) && k < |All(configs)|
    ensures 0 !in GetIdName(All(configs)[k].row.resourceItem.name, All(configs)[k].row.resourceItem.resType)
  {
    assert PlainRow(configs, All(configs)[k]);
    hide All, GetIdName;
  }

  ghost function RecordResult(configs: seq<Config>, b: Text, k: nat): L.Read<L.Records>
    requires Filled(configs) && Short(configs) && k <= |All(configs)| && |b| < 0x8000_0000
  {
    L.RecordFrom(b, KeysRead(configs, |configs|), IdsRead(configs, |configs|), RecordsRead(configs, k), |b|)
  }

  lemma RecordResultIs(configs: seq<Config>, b: Text, k: nat)
    requires Filled(configs) && Short(configs) && k <= |All(configs)| && |b| < 0x8000_0000
    ensures RecordResult(configs, b, k)
            == L.RecordFrom(b, KeysRead(configs, |configs|), IdsRead(configs, |configs|), RecordsRead(configs, k), |b|)
  {
    hide L.RecordFrom, KeysRead, IdsRead, RecordsRead, All, Filled, Short;
  }

  // The record of a row that does not fit is read as a row with next to nothing in it, if at all.
  lemma UnfitRecord(configs: seq<Config>, b: Text, k: nat) returns (id: int32, item: Item)
    requires Filled(configs) && DistinctIds(configs) && b == Image(configs) && |b| < 0x8000_0000 && Plain(configs)
    requires k < |All(configs)| && !FitsRecord(All(configs)[k].row.resourceItem) && Short(configs)
    requires RecordAt(configs, |All(configs)|) == |b|
    requires RecordResult(configs, b, k).Got?
    ensures RecordResult(configs, b, k).value.items == L.Push(Grouped(configs, k), id, item)
    ensures id == All(configs)[k].row.id && item != RestoredAt(configs, k)
  {
    hide *;
    var keys, ids, s := KeysRead(configs, |configs|), IdsRead(configs, |configs|), RecordsRead(configs, k);
    RecordResultIs(configs, b, k);
    id, item := RecordFromPushes(b, keys, ids, s, |b|);
    RecordsReadIs(configs, k);
    RecordsReadIs(configs, k + 1);
    RecordStands(configs, k);
    RecordEnds(configs, k);
    var row := All(configs)[k].row;
    ReadHead(b, RecordAt(configs, k), row, |b|);
    PayloadIs(row.resourceItem);
    FitsIs(row.resourceItem);
    RestoredIs(configs, k);
    PlainAt(configs, k);
  }

  /**
   A file comes back as its rows exactly when every row's value and id name fit the sixteen-bit
   lengths together: a row that does not fit is written without either, and nothing says so.
   */
  lemma ComesBackIfFits(configs: seq<Config>)
    requires Filled(configs) && DistinctIds(configs) && |Image(configs)| < 0x8000_0000
    requires AllKnown(configs) && Plain(configs)
    ensures L.Loaded(Image(configs)) == L.Got(Grouped(configs, |All(configs)|)) <==> AllFit(configs, |All(configs)|)
  {
    hide *;
    var n := |All(configs)|;
    if AllFit(configs, n) {
      RoundTrip(configs);
    } else if L.Loaded(Image(configs)) == L.Got(Grouped(configs, n)) {
      UnfitLoses(configs);
    }
  }

  lemma UnfitLoses(configs: seq<Config>)
    requires Filled(configs) && DistinctIds(configs) && |Image(configs)| < 0x8000_0000
    requires AllKnown(configs) && Plain(configs) && !AllFit(configs, |All(configs)|)
    ensures L.Loaded(Image(configs)) != L.Got(Grouped(configs, |All(configs)|))
  {
    hide *;
    var b, n := Image(configs), |All(configs)|;
    ReadTables(configs, b);
    var keys, ids := KeysRead(configs, |configs|), IdsRead(configs, |configs|);
    var k := FirstUnfit(configs, n);
    ReadRecords(configs, b, 0, k, |b|);
    RecordsReadIs(configs, k);
    RecordsApart(configs, k, n);
    var s := RecordsRead(configs, k);
    if L.Loaded(b) == L.Got(Grouped(configs, n)) {
      RecordsFromGot(b, keys, ids, s, |b|);
      RecordResultIs(configs, b, k);
      var id, item := UnfitRecord(configs, b, k);
      var next := L.RecordFrom(b, keys, ids, s, |b|).value;
      RecordsFromStep(b, keys, ids, s, next, |b|);
      RecordsExtend(b, keys, ids, next, |b|);
      PushExtends(Grouped(configs, k), id, item, Grouped(configs, n));
      GroupedExtends(configs, k + 1, n);
      GroupedPushes(configs, k);
      PushExtends(Grouped(configs, k), id, RestoredAt(configs, k), Grouped(configs, n));
      assert false;
    }
  }

  // ------------------------------------------------------------ merged items, written and read back

  predicate Storable(item: Item) {
    KnownType(item.resType) && FitsRecord(item) && 0 !in GetIdName(item.name, item.resType)
  }

  // What is written: every item taken can be stored, and a limit key stands for one list of key params.
  ghost predicate AllStorable(items: map<int32, seq<Item>>) {
    && (forall id, x :: id in items && x in Taken(items[id]) ==> Storable(x))
    && (forall id, x, id2, y ::
          (id in items && x in Taken(items[id]) && id2 in items && y in Taken(items[id2]) && x.limitKey == y.limitKey)
          ==> x.keyParams == y.keyParams)
  }

  lemma RowAt(items: map<int32, seq<Item>>, keys: seq<Text>, k: nat)
    requires KeysOf(Rows(items), keys) && k < |All(ConfigsOf(Rows(items), keys))| && AllStorable(items)
    ensures var row := All(ConfigsOf(Rows(items), keys))[k].row;
      && row.id in items && row.resourceItem in Taken(items[row.id]) && Storable(row.resourceItem)
  {
    CreatedRows(items, keys, All(ConfigsOf(Rows(items), keys))[k].row);
    hide Rows, KeysOf, ConfigsOf, All, Storable, Taken;
  }

  lemma FirstAgrees(items: map<int32, seq<Item>>, keys: seq<Text>, k: nat)
    requires KeysOf(Rows(items), keys) && k < |All(ConfigsOf(Rows(items), keys))| && AllStorable(items)
    ensures PlainRow(ConfigsOf(Rows(items), keys), All(ConfigsOf(Rows(items), keys))[k])
  {
    hide *;
    var rows, configs := Rows(items), ConfigsOf(Rows(items), keys);
    RowAt(items, keys, k);
    var p := All(configs)[k];
    var first := RowsFirst(rows, keys, k);
    RowsIs(items);
    RowsAre(items, |items.Keys|, first);
    SameParams(items, first, p.row);
    PlainRowIs(configs, p);
  }

  // The first row of the limit key of row k.
  lemma RowsFirst(rows: seq<TableData>, keys: seq<Text>, k: nat) returns (first: TableData)
    requires KeysOf(rows, keys) && k < |All(ConfigsOf(rows, keys))|
    ensures var configs, p := ConfigsOf(rows, keys), All(ConfigsOf(rows, keys))[k];
      && p.group < |configs| && configs[p.group] != [] && first == configs[p.group][0] && first in rows
      && first.resourceItem.limitKey == p.row.resourceItem.limitKey
  {
    var configs := ConfigsOf(rows, keys);
    var j := FlatIs(configs, |configs|, k);
    var p := All(configs)[k];
    first := configs[p.group][0];
    OfKeyIs(rows, keys[p.group], first);
    OfKeyIs(rows, keys[p.group], p.row);
    hide OfKey, All, KeysOf;
  }

  lemma SameParams(items: map<int32, seq<Item>>, a: TableData, b: TableData)
    requires AllStorable(items) && a.id in items && a.resourceItem in Taken(items[a.id])
    requires b.id in items && b.resourceItem in Taken(items[b.id])
    requires a.resourceItem.limitKey == b.resourceItem.limitKey
    ensures a.resourceItem.keyParams == b.resourceItem.keyParams && Storable(b.resourceItem)
  {
    hide Taken, Storable;
  }

  lemma PlainRowIs(configs: seq<Config>, p: Placed)
    requires p.group < |configs| && configs[p.group] != [] && Storable(p.row.resourceItem)
    requires configs[p.group][0].resourceItem.keyParams == p.row.resourceItem.keyParams
    ensures PlainRow(configs, p)
  {
    hide GetIdName, FitsRecord, KnownType;
  }

  lemma AllPlain(items: map<int32, seq<Item>>, keys: seq<Text>)
    requires KeysOf(Rows(items), keys) && AllStorable(items)
    ensures var configs := ConfigsOf(Rows(items), keys);
      AllKnown(configs) && Plain(configs) && AllFit(configs, |All(configs)|)
  {
    var configs := ConfigsOf(Rows(items), keys);
    forall k | 0 <= k < |All(configs)|
      ensures KnownType(All(configs)[k].row.resourceItem.resType) && FitsRecord(All(configs)[k].row.resourceItem)
      ensures PlainRow(configs, All(configs)[k])
    {
      RowAt(items, keys, k);
      FirstAgrees(items, keys, k);
      hide Rows, KeysOf, ConfigsOf, All, Taken, FitsRecord, GetIdName, KnownType, AllStorable, PlainRow;
    }
    hide Rows, KeysOf, ConfigsOf, All, PlainRow, FitsRecord, KnownType;
  }

  // The items as they were, of one id among the first k rows.
  ghost function Written(configs: seq<Config>, id: int32, k: nat): seq<Item>
    requires k <= |All(configs)|
  {
    if k == 0 then []
    else
      var row := All(configs)[k - 1].row;
      Written(configs, id, k - 1) + if row.id == id then [row.resourceItem] else []
  }

  // Each item as it comes back.
  function AllRestored(items: seq<Item>): seq<Item> {
    seq(|items|, i requires 0 <= i < |items| => Restored(items[i], items[i].keyParams))
  }

  lemma AllRestoredOne(items: seq<Item>, item: Item)
    ensures AllRestored([]) == []
    ensures AllRestored(items + [item]) == AllRestored(items) + [Restored(item, item.keyParams)]
  {
    hide Restored;
  }

  lemma RestoredOwn(configs: seq<Config>, k: nat)
    requires Filled(configs) && Plain(configs) && k < |All(configs)|
    ensures var item := All(configs)[k].row.resourceItem;
      RestoredAt(configs, k) == Restored(item, item.keyParams)
  {
    assert PlainRow(configs, All(configs)[k]);
    hide All, Restored, GetIdName, Plain, Filled;
  }

  lemma WrittenStep(configs: seq<Config>, id: int32, k: nat)
    requires k < |All(configs)|
    ensures Written(configs, id, 0) == []
    ensures Written(configs, id, k + 1) == Written(configs, id, k)
            + if All(configs)[k].row.id == id then [All(configs)[k].row.resourceItem] else []
  {
    hide All;
  }

  lemma {:induction false} UnderIsRestored(configs: seq<Config>, id: int32, k: nat)
    requires Filled(configs) && Plain(configs) && k <= |All(configs)|
    ensures Under(configs, id, k) == AllRestored(Written(configs, id, k))
  {
    hide *;
    if k == 0 {
      NothingUnder(configs, id);
    } else {
      UnderIsRestored(configs, id, k - 1);
      UnderStep(configs, id, k - 1);
      WrittenStep(configs, id, k - 1);
      RestoredOwn(configs, k - 1);
      var before := Written(configs, id, k - 1);
      assert before + [] == before && AllRestored(before) + [] == AllRestored(before);
      AllRestoredOne(before, All(configs)[k - 1].row.resourceItem);
    }
  }

  lemma NothingUnder(configs: seq<Config>, id: int32)
    requires Filled(configs)
    ensures Under(configs, id, 0) == [] == Written(configs, id, 0) && AllRestored([]) == []
  {
    hide All, RestoredAt;
  }

  // Among the first k rows is one of the id with the item.
  ghost predicate HasRowOf(configs: seq<Config>, id: int32, k: nat, x: Item)
    requires k <= |All(configs)|
  {
    exists m :: 0 <= m < k && All(configs)[m].row == TableData(id, x)
  }

  lemma HasRowStep(configs: seq<Config>, id: int32, k: nat, x: Item)
    requires k < |All(configs)|
    ensures !HasRowOf(configs, id, 0, x)
    ensures HasRowOf(configs, id, k + 1, x) <==> HasRowOf(configs, id, k, x) || All(configs)[k].row == TableData(id, x)
  {
    hide All;
  }

  lemma {:induction false} WrittenHas(configs: seq<Config>, id: int32, k: nat, x: Item)
    requires k <= |All(configs)|
    ensures x in Written(configs, id, k) <==> HasRowOf(configs, id, k, x)
  {
    if k == 0 {
      hide All;
    } else {
      hide *;
      WrittenHas(configs, id, k - 1, x);
      WrittenStep(configs, id, k - 1);
      HasRowStep(configs, id, k - 1, x);
    }
  }

  // Rows of one id stand under different limit keys.
  lemma KeysDiffer(rows: seq<TableData>, keys: seq<Text>, m: nat, k: nat)
    requires KeysOf(rows, keys) && DistinctIds(ConfigsOf(rows, keys)) && m < k < |All(ConfigsOf(rows, keys))|
    requires All(ConfigsOf(rows, keys))[m].row.id == All(ConfigsOf(rows, keys))[k].row.id
    ensures var all := All(ConfigsOf(rows, keys));
      all[m].row.resourceItem.limitKey != all[k].row.resourceItem.limitKey
  {
    hide *;
    var configs := ConfigsOf(rows, keys);
    GroupKey(rows, keys, m);
    GroupKey(rows, keys, k);
    if All(configs)[m].group == All(configs)[k].group { SameRow(configs, m, k); }
    KeysApart(rows, keys);
  }

  lemma KeysApart(rows: seq<TableData>, keys: seq<Text>)
    requires KeysOf(rows, keys)
    ensures forall i, j :: 0 <= i < |keys| && 0 <= j < |keys| && i != j ==> keys[i] != keys[j]
  {
    hide OfKey;
    KeysAscending(rows, keys);
  }

  lemma GroupKey(rows: seq<TableData>, keys: seq<Text>, k: nat)
    requires KeysOf(rows, keys) && k < |All(ConfigsOf(rows, keys))|
    ensures var p := All(ConfigsOf(rows, keys))[k];
      p.group < |keys| && p.row.resourceItem.limitKey == keys[p.group]
  {
    var configs := ConfigsOf(rows, keys);
    var j := FlatIs(configs, |configs|, k);
    var p := All(configs)[k];
    OfKeyIs(rows, keys[p.group], p.row);
    hide OfKey, All, KeysOf;
  }

  lemma {:induction false} WrittenOnce(rows: seq<TableData>, keys: seq<Text>, id: int32, k: nat)
    requires KeysOf(rows, keys) && DistinctIds(ConfigsOf(rows, keys)) && k <= |All(ConfigsOf(rows, keys))|
    ensures NoDuplicates(Written(ConfigsOf(rows, keys), id, k))
  {
    hide *;
    var configs := ConfigsOf(rows, keys);
    if k == 0 {
      NothingWritten(configs, id);
    } else {
      WrittenOnce(rows, keys, id, k - 1);
      WrittenStep(configs, id, k - 1);
      var before, row := Written(configs, id, k - 1), All(configs)[k - 1].row;
      assert before + [] == before;
      if row.id == id {
        PushedNoDuplicates(before, row.resourceItem);
        if Has(before, row.resourceItem.limitKey) {
          var x := WithKey(before, row.resourceItem.limitKey);
          WrittenHas(configs, id, k - 1, x);
          var m := RowOf(configs, id, k - 1, x);
          KeysDiffer(rows, keys, m, k - 1);
        }
      }
    }
  }

  // Each item's limit key is before those of the items behind it.
  ghost predicate ByLimitKey(list: seq<Item>) {
    forall i, j :: 0 <= i < j < |list| ==> TextOrder.Before(list[i].limitKey, list[j].limitKey)
  }

  lemma OneMoreKey(list: seq<Item>, x: Item)
    requires ByLimitKey(list) && forall y :: y in list ==> TextOrder.Before(y.limitKey, x.limitKey)
    ensures ByLimitKey(list + [x])
  {
    hide TextOrder.Before;
  }

  /** Rows of one id stand in the order of their limit keys. */
  lemma {:induction false} WrittenAscends(items: map<int32, seq<Item>>, keys: seq<Text>, id: int32, k: nat)
    requires KeysOf(Rows(items), keys) && Unconflicting(items) && k <= |All(ConfigsOf(Rows(items), keys))|
    ensures ByLimitKey(Written(ConfigsOf(Rows(items), keys), id, k))
  {
    hide *;
    var rows, configs := Rows(items), ConfigsOf(Rows(items), keys);
    if k == 0 {
      NothingWritten(configs, id);
    } else {
      WrittenAscends(items, keys, id, k - 1);
      WrittenStep(configs, id, k - 1);
      AllDistinctIds(items, keys);
      var before, row := Written(configs, id, k - 1), All(configs)[k - 1].row;
      assert before + [] == before;
      if row.id == id {
        forall y | y in before ensures TextOrder.Before(y.limitKey, row.resourceItem.limitKey) {
          WrittenHas(configs, id, k - 1, y);
          var m := RowOf(configs, id, k - 1, y);
          KeysDiffer(rows, keys, m, k - 1);
          FileOrder(items, keys, m, k - 1);
        }
        OneMoreKey(before, row.resourceItem);
      }
    }
  }

  lemma NothingWritten(configs: seq<Config>, id: int32)
    ensures NoDuplicates(Written(configs, id, 0)) && ByLimitKey(Written(configs, id, 0))
  {
    hide All;
  }

  lemma WithKey(items: seq<Item>, key: Text) returns (x: Item)
    requires Has(items, key)
    ensures x in items && x.limitKey == key
  {
    var i :| 0 <= i < |items| && items[i].limitKey == key;
    x := items[i];
  }

  lemma RowOf(configs: seq<Config>, id: int32, k: nat, x: Item) returns (m: nat)
    requires k <= |All(configs)| && HasRowOf(configs, id, k, x)
    ensures m < k && All(configs)[m].row == TableData(id, x)
  {
    m :| 0 <= m < k && All(configs)[m].row == TableData(id, x);
  }

  // Lists without repetition that hold the same items hold them equally often.
  lemma {:induction false} SameMultiset(a: seq<Item>, b: seq<Item>)
    requires NoDuplicates(a) && NoDuplicates(b) && forall x :: x in a <==> x in b
    ensures multiset(a) == multiset(b)
  {
    forall x ensures multiset(a)[x] == multiset(b)[x] {
      OnceIn(a, x);
      OnceIn(b, x);
    }
  }

  lemma {:induction false} OnceIn(a: seq<Item>, x: Item)
    requires NoDuplicates(a)
    ensures multiset(a)[x] == if x in a then 1 else 0
  {
    if a != [] {
      var n := |a| - 1;
      assert a == a[..n] + [a[n]];
      OnceIn(a[..n], x);
      if x == a[n] {
        assert forall i :: 0 <= i < n ==> a[..n][i] == a[i] && a[i].limitKey != a[n].limitKey;
      }
    }
  }

  /**
   From merged items to the file and back: under every id come back exactly the items taken, by ascending limit key,
   each with its type, key params and id name, its limit key printed from its params, and one NUL behind its value.
   */
  lemma CreatedComesBack(items: map<int32, seq<Item>>, keys: seq<Text>, id: int32) returns (order: seq<Item>)
    requires KeysOf(Rows(items), keys) && Filled(ConfigsOf(Rows(items), keys))
    requires Unconflicting(items) && AllStorable(items) && |Image(ConfigsOf(Rows(items), keys))| < 0x8000_0000
    ensures multiset(order) == multiset(if id in items then Taken(items[id]) else [])
    ensures ByLimitKey(order)
    ensures var r := L.Loaded(Image(ConfigsOf(Rows(items), keys)));
      && r.Got? && (id in r.value <==> order != []) && (id in r.value ==> r.value[id] == AllRestored(order))
  {
    hide *;
    var configs := ConfigsOf(Rows(items), keys);
    order := Written(configs, id, |All(configs)|);
    AllPlain(items, keys);
    AllDistinctIds(items, keys);
    EveryItemBack(configs, id);
    UnderIsRestored(configs, id, |All(configs)|);
    RestoredCount(order);
    WrittenOnce(Rows(items), keys, id, |All(configs)|);
    WrittenAscends(items, keys, id, |All(configs)|);
    TakenOnce(items, id);
    forall x ensures x in order <==> id in items && x in Taken(items[id]) {
      WrittenHas(configs, id, |All(configs)|, x);
      HasRowIs(configs, id, x);
      CreatedRows(items, keys, TableData(id, x));
    }
    SameMultiset(order, if id in items then Taken(items[id]) else []);
  }

  lemma RestoredCount(items: seq<Item>)
    ensures |AllRestored(items)| == |items|
  {
  }

  lemma TakenOnce(items: map<int32, seq<Item>>, id: int32)
    requires Unconflicting(items)
    ensures NoDuplicates(if id in items then Taken(items[id]) else [])
  {
    hide Taken;
  }

  lemma HasRowIs(configs: seq<Config>, id: int32, x: Item)
    ensures HasRowOf(configs, id, |All(configs)|, x) <==>
      exists k :: 0 <= k < |All(configs)| && All(configs)[k].row == TableData(id, x)
  {
    hide All;
  }

  lemma AllDistinctIds(items: map<int32, seq<Item>>, keys: seq<Text>)
    requires KeysOf(Rows(items), keys) && Unconflicting(items)
    ensures DistinctIds(ConfigsOf(Rows(items), keys))
  {
    var any := TableData(0, Item([], [], [], 0, [], []));
    hide *;
    CreatedRows(items, keys, any);
  }
}
