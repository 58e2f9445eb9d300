/** Building the index file from the merged resources: the items sorted into the rows of their limit keys. */
module ResourceTableCreation {
  import opened Bytes
  import opened ResourceData
  import opened Merging
  import opened ResourceTables
  import opened ResourceTableOffsets
  import TextOrder

  // An id's items up to the first of type ID, which ends them.
  function Taken(list: seq<Item>): seq<Item> {
    if list == [] || list[0].resType == ID then [] else [list[0]] + Taken(list[1..])
  }

  function RowsOf(id: int32, list: seq<Item>): seq<TableData> {
    seq(|list|, i requires 0 <= i < |list| => TableData(id, list[i]))
  }

  // The rows of the first n ids, in the order they are met.
  ghost function AllRows(items: map<int32, seq<Item>>, n: nat): seq<TableData>
    requires n <= |items.Keys|
  {
    if n == 0 then []
    else
      var id := Ascending(items.Keys)[n - 1];
      AllRows(items, n - 1) + RowsOf(id, Taken(items[id]))
  }

  ghost function Rows(items: map<int32, seq<Item>>): seq<TableData> { AllRows(items, |items.Keys|) }

  // The rows of one limit key.
  function OfKey(rows: seq<TableData>, key: Text): seq<TableData> {
    if rows == [] then []
    else
      var last := rows[|rows| - 1];
      OfKey(rows[..|rows| - 1], key) + if last.resourceItem.limitKey == key then [last] else []
  }

  lemma OfKeyStep(rows: seq<TableData>, row: TableData, key: Text)
    ensures OfKey(rows + [row], key)
            == if row.resourceItem.limitKey == key then OfKey(rows, key) + [row] else OfKey(rows, key)
  {
    assert (rows + [row])[..|rows|] == rows;
  }

  // The map from limit keys to their rows.
  ghost predicate Grouping(configs: map<Text, Config>, rows: seq<TableData>) {
    && (forall key :: key in configs ==> configs[key] != [])
    && (forall key :: (if key in configs then configs[key] else []) == OfKey(rows, key))
  }

  lemma GroupingStep(configs: map<Text, Config>, rows: seq<TableData>, row: TableData)
    requires Grouping(configs, rows)
    ensures var key := row.resourceItem.limitKey;
      Grouping(configs[key := (if key in configs then configs[key] else []) + [row]], rows + [row])
  {
    var key := row.resourceItem.limitKey;
    var after := configs[key := (if key in configs then configs[key] else []) + [row]];
    forall k ensures (if k in after then after[k] else []) == OfKey(rows + [row], k) {
      assert (if k in configs then configs[k] else []) == OfKey(rows, k);
      OfKeyStep(rows, row, k);
    }
    hide OfKey;
  }

  // The rows of each limit key in turn.
  function ConfigsOf(rows: seq<TableData>, keys: seq<Text>): seq<Config> {
    seq(|keys|, i requires 0 <= i < |keys| => OfKey(rows, keys[i]))
  }

  // Every limit key of a row, once, in the order of std::string.
  ghost predicate KeysOf(rows: seq<TableData>, keys: seq<Text>) {
    && TextOrder.Ascends(keys)
    && (forall key :: key in keys <==> OfKey(rows, key) != [])
  }

  lemma {:induction false} OfKeyIs(rows: seq<TableData>, key: Text, row: TableData)
    ensures row in OfKey(rows, key) <==> row in rows && row.resourceItem.limitKey == key
  {
    if rows != [] {
      var init, last := rows[..|rows| - 1], rows[|rows| - 1];
      assert rows == init + [last];
      OfKeyIs(init, key, row);
      OfKeyStep(init, last, key);
      hide OfKey;
    }
  }

  lemma RowPlaced(rows: seq<TableData>, keys: seq<Text>, row: TableData) returns (i: nat, j: nat)
    requires KeysOf(rows, keys) && row in rows
    ensures i < |keys| && j < |OfKey(rows, keys[i])| && OfKey(rows, keys[i])[j] == row
    ensures keys[i] == row.resourceItem.limitKey
  {
    OfKeyIs(rows, row.resourceItem.limitKey, row);
    hide OfKey;
    i :| 0 <= i < |keys| && keys[i] == row.resourceItem.limitKey;
    j :| 0 <= j < |OfKey(rows, keys[i])| && OfKey(rows, keys[i])[j] == row;
  }

  lemma {:induction false} FlatRow(configs: seq<Config>, i: nat, j: nat)
    requires i < |configs| && j < |configs[i]|
    ensures exists k :: 0 <= k < |All(configs)| && All(configs)[k].row == configs[i][j]
  {
    FlatAt(configs, i, j);
    var k := |Flat(configs, i)| + j;
    assert All(configs)[k].row == configs[i][j];
  }

  /** The file's rows are exactly the rows: none is lost and none is added. */
  lemma SameRows(rows: seq<TableData>, keys: seq<Text>, row: TableData)
    requires KeysOf(rows, keys)
    ensures var all := All(ConfigsOf(rows, keys));
      row in rows <==> exists k :: 0 <= k < |all| && all[k].row == row
    ensures Filled(ConfigsOf(rows, keys))
  {
    var configs := ConfigsOf(rows, keys);
    if row in rows {
      var i, j := RowPlaced(rows, keys, row);
      FlatRow(configs, i, j);
    }
    if k :| 0 <= k < |All(configs)| && All(configs)[k].row == row {
      var j := FlatIs(configs, |configs|, k);
      OfKeyIs(rows, keys[All(configs)[k].group], row);
    }
  }

  // No id has two rows of one limit key.
  ghost predicate Unrepeated(rows: seq<TableData>) {
    forall a, b :: 0 <= a < b < |rows| ==>
      !(rows[a].id == rows[b].id && rows[a].resourceItem.limitKey == rows[b].resourceItem.limitKey)
  }

  ghost predicate UnrepeatedIn(rows: seq<TableData>, key: Text) {
    forall a, b :: 0 <= a < b < |rows| ==>
      !(rows[a].id == rows[b].id && rows[a].resourceItem.limitKey == key && rows[b].resourceItem.limitKey == key)
  }

  lemma DistinctPushed(config: Config, row: TableData)
    ensures RowsApart(config + [row]) <==> RowsApart(config) && row.id !in Ids(config)
  {
    LastIsNew(config + [row]);
    assert (config + [row])[..|config|] == config;
    hide RowsApart, Ids;
  }

  lemma {:induction false} DistinctOfKey(rows: seq<TableData>, key: Text)
    ensures RowsApart(OfKey(rows, key)) <==> UnrepeatedIn(rows, key)
  {
    hide *;
    if rows == [] {
      NothingRepeated(key);
    } else {
      var init, last := rows[..|rows| - 1], rows[|rows| - 1];
      assert rows == init + [last];
      DistinctOfKey(init, key);
      OfKeyStep(init, last, key);
      LastRepeats(rows, key);
      if last.resourceItem.limitKey == key {
        DistinctPushed(OfKey(init, key), last);
        IdsOfKey(init, key, last.id);
      }
    }
  }

  ghost predicate HasRow(rows: seq<TableData>, id: int32, key: Text) {
    exists a :: 0 <= a < |rows| && rows[a].id == id && rows[a].resourceItem.limitKey == key
  }

  lemma IdsOfKey(rows: seq<TableData>, key: Text, id: int32)
    ensures id in Ids(OfKey(rows, key)) <==> HasRow(rows, id, key)
  {
    if id in Ids(OfKey(rows, key)) {
      var j :| 0 <= j < |OfKey(rows, key)| && OfKey(rows, key)[j].id == id;
      OfKeyIs(rows, key, OfKey(rows, key)[j]);
    }
    if HasRow(rows, id, key) {
      var a :| 0 <= a < |rows| && rows[a].id == id && rows[a].resourceItem.limitKey == key;
      OfKeyIs(rows, key, rows[a]);
      assert rows[a] in OfKey(rows, key);
      var j :| 0 <= j < |OfKey(rows, key)| && OfKey(rows, key)[j] == rows[a];
      assert OfKey(rows, key)[j].id == id;
    }
  }

  lemma LastRepeats(rows: seq<TableData>, key: Text)
    requires rows != []
    ensures var n := |rows| - 1;
      UnrepeatedIn(rows, key) <==>
        UnrepeatedIn(rows[..n], key) && (rows[n].resourceItem.limitKey == key ==> !HasRow(rows[..n], rows[n].id, key))
  {
    var n := |rows| - 1;
    assert forall a :: 0 <= a < n ==> rows[..n][a] == rows[a];
  }

  lemma UnrepeatedKeys(rows: seq<TableData>)
    ensures Unrepeated(rows) <==> forall key :: UnrepeatedIn(rows, key)
  {
    if forall key :: UnrepeatedIn(rows, key) {
      forall a, b | 0 <= a < b < |rows|
        ensures !(rows[a].id == rows[b].id && rows[a].resourceItem.limitKey == rows[b].resourceItem.limitKey)
      {
        assert UnrepeatedIn(rows, rows[a].resourceItem.limitKey);
      }
    }
  }

  /** The file can be laid out as predicted exactly when no id has two rows of one limit key. */
  lemma DistinctIfUnrepeated(rows: seq<TableData>, keys: seq<Text>)
    requires KeysOf(rows, keys)
    ensures DistinctIds(ConfigsOf(rows, keys)) <==> Unrepeated(rows)
  {
    UnrepeatedKeys(rows);
    hide Unrepeated, RowsApart, OfKey, UnrepeatedIn;
    forall key ensures RowsApart(OfKey(rows, key)) <==> UnrepeatedIn(rows, key) { DistinctOfKey(rows, key); }
    var configs := ConfigsOf(rows, keys);
    if DistinctIds(configs) {
      forall key ensures UnrepeatedIn(rows, key) {
        if key in keys {
          var i :| 0 <= i < |keys| && keys[i] == key;
          assert RowsApart(configs[i]);
        } else {
          assert OfKey(rows, key) == [];
          NothingRepeated(key);
        }
      }
    }
  }

  lemma NothingRepeated(key: Text)
    ensures RowsApart([]) && OfKey([], key) == [] && UnrepeatedIn([], key)
  {
  }

  // ------------------------------------------------------------ from the merged items

  /** Taken are the first items, up to one of type 15, ID, which is there if any is left out. */
  lemma {:induction false} TakenPrefix(list: seq<Item>)
    ensures Taken(list) <= list
    ensures forall i :: 0 <= i < |Taken(list)| ==> list[i].resType != 15
    ensures |Taken(list)| < |list| ==> list[|Taken(list)|].resType == 15
  {
    if list != [] && list[0].resType != ID { TakenPrefix(list[1..]); }
  }

  lemma AllRowsStep(items: map<int32, seq<Item>>, n: nat)
    requires n < |items.Keys|
    ensures Ascending(items.Keys)[n] in items
    ensures var id := Ascending(items.Keys)[n];
      AllRows(items, n + 1) == AllRows(items, n) + RowsOf(id, Taken(items[id]))
  {
    assert Ascending(items.Keys)[n] in Ascending(items.Keys);
    hide Ascending, RowsOf, Taken;
  }

  lemma InRowsOf(id: int32, list: seq<Item>, row: TableData)
    ensures row in RowsOf(id, list) <==> row.id == id && row.resourceItem in list
  {
    if row.id == id && row.resourceItem in list {
      var i :| 0 <= i < |list| && list[i] == row.resourceItem;
      assert RowsOf(id, list)[i] == row;
    }
  }

  /** The rows are, under every id, the items taken. */
  lemma {:induction false} RowsAre(items: map<int32, seq<Item>>, n: nat, row: TableData)
    requires n <= |items.Keys|
    ensures row in AllRows(items, n) <==>
      row.id in items && row.id in Ascending(items.Keys)[..n] && row.resourceItem in Taken(items[row.id])
  {
    hide *;
    if n == 0 {
      NoRows(items, row);
    } else {
      RowsAre(items, n - 1, row);
      AllRowsStep(items, n - 1);
      var id := Ascending(items.Keys)[n - 1];
      InRowsOf(id, Taken(items[id]), row);
      assert Ascending(items.Keys)[..n] == Ascending(items.Keys)[..n - 1] + [id];
    }
  }

  lemma NoRows(items: map<int32, seq<Item>>, row: TableData)
    ensures row !in AllRows(items, 0) && row.id !in Ascending(items.Keys)[..0]
  {
  }

  // Under no id do two taken items share a limit key.
  ghost predicate Unconflicting(items: map<int32, seq<Item>>) {
    forall id :: id in items ==> NoDuplicates(Taken(items[id]))
  }

  lemma UnrepeatedAppend(rows: seq<TableData>, id: int32, list: seq<Item>)
    requires forall a :: 0 <= a < |rows| ==> rows[a].id != id
    ensures Unrepeated(rows + RowsOf(id, list)) <==> Unrepeated(rows) && NoDuplicates(list)
  {
    var all := rows + RowsOf(id, list);
    assert forall a :: 0 <= a < |rows| ==> all[a] == rows[a];
    assert forall i :: 0 <= i < |list| ==> all[|rows| + i] == TableData(id, list[i]);
    if Unrepeated(all) {
      forall i, j | 0 <= i < j < |list| ensures list[i].limitKey != list[j].limitKey {
        assert all[|rows| + i].id == all[|rows| + j].id;
      }
    } else {
      var a, b :| 0 <= a < b < |all| && all[a].id == all[b].id
        && all[a].resourceItem.limitKey == all[b].resourceItem.limitKey;
      if b >= |rows| {
        assert all[b] == TableData(id, list[b - |rows|]);
        if a >= |rows| { assert all[a] == TableData(id, list[a - |rows|]); }
      }
    }
  }

  ghost predicate UnconflictingUpTo(items: map<int32, seq<Item>>, n: nat)
    requires n <= |items.Keys|
  {
    forall q :: 0 <= q < n ==> Ascending(items.Keys)[q] in items && NoDuplicates(Taken(items[Ascending(items.Keys)[q]]))
  }

  lemma UpToStep(items: map<int32, seq<Item>>, n: nat)
    requires n < |items.Keys| && Ascending(items.Keys)[n] in items
    ensures UnconflictingUpTo(items, n + 1) <==>
      UnconflictingUpTo(items, n) && NoDuplicates(Taken(items[Ascending(items.Keys)[n]]))
  {
    hide Ascending, Taken, NoDuplicates;
  }

  lemma UpToAll(items: map<int32, seq<Item>>)
    ensures UnconflictingUpTo(items, |items.Keys|) <==> Unconflicting(items)
  {
    var ids := Ascending(items.Keys);
    assert forall q :: 0 <= q < |ids| ==> ids[q] in ids;
    if UnconflictingUpTo(items, |items.Keys|) {
      forall id | id in items ensures NoDuplicates(Taken(items[id])) {
        assert id in ids;
        var q :| 0 <= q < |ids| && ids[q] == id;
      }
    }
    hide Ascending, Taken, NoDuplicates;
  }

  lemma RowIds(items: map<int32, seq<Item>>, n: nat)
    requires n < |items.Keys|
    ensures forall a :: 0 <= a < |AllRows(items, n)| ==> AllRows(items, n)[a].id != Ascending(items.Keys)[n]
  {
    hide AllRows, Taken, Ascending;
    var ids := Ascending(items.Keys);
    forall a | 0 <= a < |AllRows(items, n)| ensures AllRows(items, n)[a].id != ids[n] {
      var row := AllRows(items, n)[a];
      RowsAre(items, n, row);
      assert row.id in ids[..n];
    }
  }

  lemma {:induction false} RowsUnrepeated(items: map<int32, seq<Item>>, n: nat)
    requires n <= |items.Keys|
    ensures Unrepeated(AllRows(items, n)) <==> UnconflictingUpTo(items, n)
  {
    hide *;
    if n == 0 {
      NoRowsRepeated(items);
    } else {
      RowsUnrepeated(items, n - 1);
      AllRowsStep(items, n - 1);
      var id := Ascending(items.Keys)[n - 1];
      RowIds(items, n - 1);
      UnrepeatedAppend(AllRows(items, n - 1), id, Taken(items[id]));
      UpToStep(items, n - 1);
    }
  }

  lemma NoRowsRepeated(items: map<int32, seq<Item>>)
    ensures Unrepeated(AllRows(items, 0)) && UnconflictingUpTo(items, 0)
  {
  }

  /**
   From merged items to rows: the rows of the file are, under every id, exactly the items taken, and
   the file can be laid out as predicted exactly when no id has two taken items of one limit key.
   */
  lemma CreatedRows(items: map<int32, seq<Item>>, keys: seq<Text>, row: TableData)
    requires KeysOf(Rows(items), keys)
    ensures Filled(ConfigsOf(Rows(items), keys))
    ensures var all := All(ConfigsOf(Rows(items), keys));
      (exists k :: 0 <= k < |all| && all[k].row == row) <==>
      row.id in items && row.resourceItem in Taken(items[row.id])
    ensures DistinctIds(ConfigsOf(Rows(items), keys)) <==> Unconflicting(items)
  {
    hide *;
    RowsIs(items);
    SameRows(Rows(items), keys, row);
    RowsAre(items, |items.Keys|, row);
    WholeOrder(items, row.id);
    DistinctIfUnrepeated(Rows(items), keys);
    RowsUnrepeated(items, |items.Keys|);
    UpToAll(items);
  }

  lemma RowsIs(items: map<int32, seq<Item>>)
    ensures Rows(items) == AllRows(items, |items.Keys|)
  {
  }

  lemma WholeOrder(items: map<int32, seq<Item>>, id: int32)
    ensures id in items <==> id in Ascending(items.Keys)[..|items.Keys|]
  {
    assert Ascending(items.Keys)[..|items.Keys|] == Ascending(items.Keys);
  }

  // ------------------------------------------------------------ the order of the file

  // One row's id is the smaller one, or both are of one id and stand in the order in which its items were taken.
  ghost predicate InOrder(items: map<int32, seq<Item>>, x: TableData, y: TableData) {
    x.id < y.id
    || (x.id == y.id && x.id in items && TakenInOrder(Taken(items[x.id]), x.resourceItem, y.resourceItem))
  }

  ghost predicate TakenInOrder(taken: seq<Item>, x: Item, y: Item) {
    exists i, j :: 0 <= i < j < |taken| && taken[i] == x && taken[j] == y
  }

  lemma RowsInOrderWithin(items: map<int32, seq<Item>>, id: int32, a: nat, b: nat)
    requires id in items && a < b < |RowsOf(id, Taken(items[id]))|
    ensures InOrder(items, RowsOf(id, Taken(items[id]))[a], RowsOf(id, Taken(items[id]))[b])
  {
    assert TakenInOrder(Taken(items[id]), Taken(items[id])[a], Taken(items[id])[b]);
    hide Taken;
  }

  lemma IdsAscend(items: map<int32, seq<Item>>, n: nat, id: int32)
    requires n < |items.Keys| && id in Ascending(items.Keys)[..n]
    ensures id < Ascending(items.Keys)[n]
  {
    hide Ascending;
  }

  lemma {:induction false} RowsInOrder(items: map<int32, seq<Item>>, n: nat, a: nat, b: nat)
    requires n <= |items.Keys| && a < b < |AllRows(items, n)|
    ensures InOrder(items, AllRows(items, n)[a], AllRows(items, n)[b])
    decreases n
  {
    hide *;
    if n == 0 {
      NoRows(items, AllRows(items, n)[a]);
    } else {
      AllRowsStep(items, n - 1);
      var id, before := Ascending(items.Keys)[n - 1], AllRows(items, n - 1);
      var added := RowsOf(id, Taken(items[id]));
      if b < |before| {
        RowsInOrder(items, n - 1, a, b);
      } else if a < |before| {
        RowsAre(items, n - 1, before[a]);
        IdsAscend(items, n - 1, before[a].id);
        InRowsOf(id, Taken(items[id]), added[b - |before|]);
        SmallerInOrder(items, before[a], added[b - |before|]);
      } else {
        RowsInOrderWithin(items, id, a - |before|, b - |before|);
      }
    }
  }

  lemma SmallerInOrder(items: map<int32, seq<Item>>, x: TableData, y: TableData)
    requires x.id < y.id
    ensures InOrder(items, x, y)
  {
  }

  // Sorting rows into limit keys keeps the order of those of one key.
  lemma {:induction false} OfKeyKeepsOrder(rows: seq<TableData>, key: Text, i: nat, j: nat) returns (a: nat, b: nat)
    requires i < j < |OfKey(rows, key)|
    ensures a < b < |rows| && rows[a] == OfKey(rows, key)[i] && rows[b] == OfKey(rows, key)[j]
  {
    var n := |rows| - 1;
    assert rows == rows[..n] + [rows[n]];
    if j < |OfKey(rows[..n], key)| {
      a, b := OfKeyKeepsOrder(rows[..n], key, i, j);
    } else {
      OfKeyIs(rows[..n], key, OfKey(rows[..n], key)[i]);
      a :| 0 <= a < n && rows[..n][a] == OfKey(rows[..n], key)[i];
      b := n;
    }
  }

  lemma FlatOrder(configs: seq<Config>, m: nat, k: nat) returns (i: nat, j: nat)
    requires m < k < |All(configs)|
    ensures var p, q := All(configs)[m], All(configs)[k];
      && p.group <= q.group < |configs| && i < |configs[p.group]| && j < |configs[q.group]|
      && p.row == configs[p.group][i] && q.row == configs[q.group][j] && (p.group == q.group ==> i < j)
  {
    i := FlatIs(configs, |configs|, m);
    j := FlatIs(configs, |configs|, k);
    var g, h := All(configs)[m].group, All(configs)[k].group;
    FlatAt(configs, h, j);
    if h < g { FlatPrefix(configs, h + 1, g); }
  }

  /**
   Where the rows stand: by ascending limit key, under one limit key by ascending id, and rows of one id and one limit
   key, should there be any, in the order of their items.
   */
  lemma FileOrder(items: map<int32, seq<Item>>, keys: seq<Text>, m: nat, k: nat)
    requires KeysOf(Rows(items), keys) && m < k < |All(ConfigsOf(Rows(items), keys))|
    ensures var x, y := All(ConfigsOf(Rows(items), keys))[m].row, All(ConfigsOf(Rows(items), keys))[k].row;
      || TextOrder.Before(x.resourceItem.limitKey, y.resourceItem.limitKey)
      || (x.resourceItem.limitKey == y.resourceItem.limitKey && InOrder(items, x, y))
  {
    hide *;
    var rows, configs := Rows(items), ConfigsOf(Rows(items), keys);
    var i, j := FlatOrder(configs, m, k);
    var g, h := All(configs)[m].group, All(configs)[k].group;
    ConfigsAre(rows, keys);
    OfKeyIs(rows, keys[g], configs[g][i]);
    OfKeyIs(rows, keys[h], configs[h][j]);
    KeysAscending(rows, keys);
    if g == h {
      var a, b := OfKeyKeepsOrder(rows, keys[g], i, j);
      RowsIs(items);
      RowsInOrder(items, |items.Keys|, a, b);
    }
  }

  lemma ConfigsAre(rows: seq<TableData>, keys: seq<Text>)
    ensures |ConfigsOf(rows, keys)| == |keys|
    ensures forall i :: 0 <= i < |keys| ==> ConfigsOf(rows, keys)[i] == OfKey(rows, keys[i])
  {
  }

  // ------------------------------------------------------------ the loops

  method TakeItems(id: int32, list: seq<Item>, before: map<Text, Config>, ghost rows: seq<TableData>)
    returns (configs: map<Text, Config>)
    requires Grouping(before, rows)
    ensures Grouping(configs, rows + RowsOf(id, Taken(list)))
  {
    hide Grouping, RowsOf, Taken;
    configs := before;
    TakenPrefix(list);
    RowsStep(id, list, 0);
    assert rows + [] == rows;
    var i := 0;
    while i < |list|
      invariant 0 <= i <= |list| && Grouping(configs, rows + RowsOf(id, list[..i]))
      invariant forall j :: 0 <= j < i ==> list[j].resType != ID
    {
      if list[i].resType == ID {
        break;
      }
      var tableData := TableData(id, list[i]);
      var key := list[i].limitKey;
      GroupingStep(configs, rows + RowsOf(id, list[..i]), tableData);
      RowsStep(id, list, i);
      assert (rows + RowsOf(id, list[..i])) + [tableData] == rows + (RowsOf(id, list[..i]) + [tableData]);
      configs := configs[key := (if key in configs then configs[key] else []) + [tableData]];
      i := i + 1;
    }
    assert i == |Taken(list)| && list[..i] == Taken(list);
  }

  lemma RowsStep(id: int32, list: seq<Item>, i: nat)
    requires i <= |list|
    ensures RowsOf(id, list[..0]) == []
    ensures i < |list| ==> RowsOf(id, list[..i + 1]) == RowsOf(id, list[..i]) + [TableData(id, list[i])]
  {
  }

  lemma KeysAscending(rows: seq<TableData>, keys: seq<Text>)
    requires KeysOf(rows, keys)
    ensures forall i, j :: 0 <= i < j < |keys| ==> TextOrder.Before(keys[i], keys[j])
    ensures forall i, j :: 0 <= i < j < |keys| ==> keys[i] != keys[j]
  {
    TextOrder.AscendsApart(keys);
    hide OfKey, TextOrder.Before;
  }

  lemma KeysFound(configs: map<Text, Config>, rows: seq<TableData>, keys: seq<Text>)
    requires Grouping(configs, rows)
    requires TextOrder.Ascends(keys) && forall key :: key in keys <==> key in configs
    ensures KeysOf(rows, keys)
    ensures forall i :: 0 <= i < |keys| ==> keys[i] in configs && configs[keys[i]] == OfKey(rows, keys[i])
  {
    forall key ensures key in keys <==> OfKey(rows, key) != [] {
      assert (if key in configs then configs[key] else []) == OfKey(rows, key);
    }
    forall i | 0 <= i < |keys| ensures keys[i] in configs && configs[keys[i]] == OfKey(rows, keys[i]) {
      assert keys[i] in keys;
    }
    hide OfKey, TextOrder.Ascends;
  }

  /**
   The whole creation: the rows of all ids by ascending id, sorted into their limit keys, and the file of those, limit
   keys in the order of std::string.
   */
  method CreateResourceTable(items: map<int32, seq<Item>>) returns (file: Text, keys: seq<Text>)
    ensures KeysOf(Rows(items), keys) && Filled(ConfigsOf(Rows(items), keys))
    ensures file == Image(ConfigsOf(Rows(items), keys))
    ensures forall i, j :: 0 <= i < j < |keys| ==> TextOrder.Before(keys[i], keys[j])
  {
    hide *;
    var configs: map<Text, Config> := map[];
    var rest := items.Keys;
    ghost var n := 0;
    WalkStarts(items.Keys);
    CreationStarts(items);
    while rest != {}
      invariant WalkedTo(items.Keys, rest, n) && n <= |items.Keys| && Grouping(configs, AllRows(items, n))
      decreases |rest|
    {
      var id := Smallest(rest);
      WalkOn(items.Keys, rest, n, id);
      AllRowsStep(items, n);
      configs := TakeItems(id, items[id], configs, AllRows(items, n));
      rest := rest - {id};
      n := n + 1;
    }
    WalkEnds(items.Keys, n);
    RowsIs(items);
    keys := TextOrder.Enumerate(configs.Keys);
    KeysFound(configs, Rows(items), keys);
    KeysAscending(Rows(items), keys);
    var list := seq(|keys|, i requires 0 <= i < |keys| => configs[keys[i]]);
    ListIs(configs, Rows(items), keys, list);
    file := SaveToResouorceIndex(list);
  }

  lemma ListIs(configs: map<Text, Config>, rows: seq<TableData>, keys: seq<Text>, list: seq<Config>)
    requires KeysOf(rows, keys) && |list| == |keys|
    requires forall i :: 0 <= i < |keys| ==> keys[i] in configs && configs[keys[i]] == OfKey(rows, keys[i])
    requires forall i :: 0 <= i < |keys| ==> list[i] == configs[keys[i]]
    ensures list == ConfigsOf(rows, keys) && Filled(list)
  {
    forall i | 0 <= i < |keys| ensures list[i] != [] { assert keys[i] in keys; }
    hide OfKey;
  }

  lemma CreationStarts(items: map<int32, seq<Item>>)
    ensures Grouping(map[], AllRows(items, 0))
  {
  }
}
