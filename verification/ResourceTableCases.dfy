/** Two small index files that show what the conditions of the resource table's theorems are about. */
module ResourceTableCases {
  import opened Bytes
  import opened ResourceData
  import opened ResourceTables
  import opened ResourceTableItems
  import opened ResourceTableOffsets
  import opened ResourceTableRoundTrip
  import opened ResourceTableWords
  import L = ResourceTableLoads

  // A string resource s with a value of n bytes.
  function StringRow(id: int32, n: nat): TableData {
    TableData(id, Item(AsBytes("s"), AsBytes("base"), [], STRING, [], seq(n, i => 'x' as int)))
  }

  lemma StringRowIs(id: int32, n: nat)
    ensures var item := StringRow(id, n).resourceItem;
      && GetIdName(item.name, item.resType) == [115] && |item.data| == n && KnownType(item.resType)
      && item.keyParams == [] && (FitsRecord(item) <==> n + 7 <= 0xffff)
      && |Payload(item)| <= n + 7
  {
    var item := StringRow(id, n).resourceItem;
    assert AsBytes("s") == [115];
    FitsIs(item);
    PayloadIs(item);
  }

  // ------------------------------------------------------------ one row

  lemma OneRow(row: TableData)
    requires row.resourceItem.keyParams == []
    ensures var configs := [[row]];
      && Filled(configs) && DistinctIds(configs) && All(configs) == [Placed(0, row)]
      && KeyParams(configs[0]) == []
      && RecordAt(configs, 1) == 136 + 12 + 16 + 12 + |Payload(row.resourceItem)|
  {
    var configs := [[row]];
    assert Flat(configs, 0) == [];
    assert Flat(configs, 1) == [Placed(0, row)];
    hide Payload, All, Flat;
    assert All(configs) == Flat(configs, 1) by { AllIs(configs); }
    assert Sum(RecordSizes([Placed(0, row)]), 0) == 0;
    assert Sum(KeysSizes(configs), 0) == 0 && Sum(IdsSizes(configs), 0) == 0;
  }

  lemma AllIs(configs: seq<Config>)
    ensures All(configs) == Flat(configs, |configs|)
  {
    hide Flat;
  }

  /** A string whose value and name together are too long for the lengths is written without either and lost. */
  lemma LongValueLost(id: int32)
    ensures var configs := [[StringRow(id, 0xffff)]];
      && Filled(configs) && L.Loaded(Image(configs)) != L.Got(Grouped(configs, |All(configs)|))
  {
    hide *;
    var row := StringRow(id, 0xffff);
    var configs := [[row]];
    LongRow(id);
    OneRow(row);
    assert configs[0] == [row];
    PredictedSize(configs);
    OneRowStands(configs, row);
    ComesBackIfFits(configs);
  }

  lemma LongRow(id: int32)
    ensures var item := StringRow(id, 0xffff).resourceItem;
      !FitsRecord(item) && item.keyParams == [] && KnownType(item.resType) && Payload(item) == []
      && 0 !in GetIdName(item.name, item.resType)
  {
    StringRowIs(id, 0xffff);
    PayloadIs(StringRow(id, 0xffff).resourceItem);
    hide StringRow, Payload, GetIdName, FitsRecord;
  }

  lemma OneRowStands(configs: seq<Config>, row: TableData)
    requires configs == [[row]] && All(configs) == [Placed(0, row)] && Filled(configs)
    requires row.resourceItem.keyParams == [] && !FitsRecord(row.resourceItem) && KnownType(row.resourceItem.resType)
    requires 0 !in GetIdName(row.resourceItem.name, row.resourceItem.resType)
    ensures AllKnown(configs) && Plain(configs) && !AllFit(configs, |All(configs)|)
  {
    hide All, GetIdName, FitsRecord, KnownType;
    assert All(configs)[0] == Placed(0, row);
    assert PlainRow(configs, Placed(0, row));
  }

  // ------------------------------------------------------------ two rows of one id

  lemma TwoKeysRows(row: TableData)
    ensures var configs := [[row, row], [row]];
      && Filled(configs) && !DistinctIds(configs) && !RowsApart(configs[0])
      && All(configs) == [Placed(0, row), Placed(0, row), Placed(1, row)]
  {
    var configs := [[row, row], [row]];
    assert !RowsApart(configs[0]) by { assert configs[0][0].id == configs[0][1].id; }
    assert Flat(configs, 1) == [Placed(0, row), Placed(0, row)] by { assert Flat(configs, 0) == []; }
    assert Flat(configs, 2) == [Placed(0, row), Placed(0, row), Placed(1, row)];
    AllIs(configs);
    hide All, Flat;
  }

  lemma TwoKeysSizes(row: TableData)
    requires row.resourceItem.keyParams == []
    ensures var configs, flat := [[row, row], [row]], [Placed(0, row), Placed(0, row), Placed(1, row)];
      && Filled(configs) && Sum(KeysSizes(configs), 2) == 24 && Sum(IdsSizes(configs), 2) == 40
      && Sum(RecordSizes(flat), 3) == 36 + 3 * |Payload(row.resourceItem)|
  {
    var configs, flat := [[row, row], [row]], [Placed(0, row), Placed(0, row), Placed(1, row)];
    hide Payload, Sum;
    SumOfTwo(KeysSizes(configs));
    SumOfTwo(IdsSizes(configs));
    SumOfThree(RecordSizes(flat));
  }

  lemma TwoKeys(row: TableData)
    requires row.resourceItem.keyParams == []
    ensures var configs := [[row, row], [row]];
      && Filled(configs) && !RowsApart(configs[0]) && !DistinctIds(configs)
      && |Image(configs)| <= 136 + 24 + 40 + 36 + 3 * |Payload(row.resourceItem)|
  {
    hide *;
    var configs := [[row, row], [row]];
    WordsAre();
    TwoKeysRows(row);
    TwoKeysSizes(row);
    PredictedSize(configs);
    PositionSums(configs, 2, 3);
  }

  lemma SumOfTwo(sizes: seq<nat>)
    requires |sizes| == 2
    ensures Sum(sizes, 2) == sizes[0] + sizes[1]
  {
    assert Sum(sizes, 1) == sizes[0] by { assert Sum(sizes, 0) == 0; }
  }

  lemma SumOfThree(sizes: seq<nat>)
    requires |sizes| == 3
    ensures Sum(sizes, 3) == sizes[0] + sizes[1] + sizes[2]
  {
    assert Sum(sizes, 1) == sizes[0] by { assert Sum(sizes, 0) == 0; }
    assert Sum(sizes, 2) == sizes[0] + sizes[1];
  }

  /**
   With two rows of one id under the first of two limit keys, neither the size in the header nor the position in
   the second KEYS entry nor the one beside the id in the second id set is right.
   */
  lemma RepeatedIdMisplaces(id: int32) returns (at: nat, offset: nat)
    ensures var configs := [[StringRow(id, 1), StringRow(id, 1)], [StringRow(id, 1)]];
      && Filled(configs) && 132 <= |Image(configs)| && KeysAt(configs, 1) + 8 <= |Image(configs)|
      && Word(Image(configs), 128) != |Image(configs)|
      && Holds(Image(configs), IdsStandAt(configs, 1), IDSS)
      && Word(Image(configs), KeysAt(configs, 1) + 4) != IdsStandAt(configs, 1)
      && at + 8 <= |Image(configs)| && Holds(Image(configs), at, I32(id))
      && Holds(Image(configs), offset, Record(StringRow(id, 1))) && Word(Image(configs), at + 4) != offset
  {
    hide *;
    var row := StringRow(id, 1);
    var configs := [[row, row], [row]];
    StringRowIs(id, 1);
    TwoKeys(row);
    WordsAre();
    SizeStored(configs);
    KeysOffsetStored(configs, 1);
    assert configs[1] == [row];
    OneIsLast(row);
    at, offset := IdOffsetStored(configs, 1, 0);
    RowId(id);
  }

  lemma OneIsLast(row: TableData)
    ensures LastOfId([row], 0)
  {
  }

  lemma RowId(id: int32)
    ensures StringRow(id, 1).id == id
  {
  }
}
