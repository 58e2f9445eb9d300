/**
 The 32-bit words in which a resources.index file stores its size and positions: when they say what is
 the case.  A word is right only below 4 GiB, and only as far as no limit key has two rows of one id.
 */
module ResourceTableWords {
  import opened Bytes
  import opened ResourceTables
  import opened ResourceTableOffsets

  const WORDS := 0x1_0000_0000

  lemma StandsWithin(b: Text, at: nat, piece: Text)
    requires Holds(b, at, piece)
    ensures at <= at + |piece| <= |b|
  {
  }

  lemma StoredIs(predicted: nat, actual: nat)
    requires actual <= predicted < actual + WORDS
    ensures U32(predicted) == actual <==> predicted == actual && actual < WORDS
  {
  }

  // ------------------------------------------------------------ how far off a prediction can be

  lemma {:induction false} IdsSizesCount(configs: seq<Config>, n: nat)
    requires n <= |configs|
    ensures Sum(IdsSizes(configs), n) == 8 * n + 8 * |Flat(configs, n)|
  {
    if n > 0 { IdsSizesCount(configs, n - 1); }
  }

  lemma {:induction false} WrittenAtLeast(configs: seq<Config>, n: nat)
    requires Filled(configs) && n <= |configs|
    ensures Sum(WrittenIdsSizes(configs), n) >= 8 * n
  {
    hide IdTable;
    if n > 0 { WrittenAtLeast(configs, n - 1); }
  }

  lemma {:induction false} RecordsAtLeast(flat: seq<Placed>, k: nat)
    requires k <= |flat|
    ensures Sum(RecordSizes(flat), k) >= 12 * k
  {
    hide Payload;
    if k > 0 { RecordsAtLeast(flat, k - 1); }
  }

  lemma FlatGrows(configs: seq<Config>, n: nat)
    requires n <= |configs|
    ensures |Flat(configs, n)| <= |All(configs)|
  {
    FlatPrefix(configs, n, |configs|);
  }

  // A predicted position is past the actual one by less than the file takes.
  lemma Slack(configs: seq<Config>, n: nat)
    requires Filled(configs) && n <= |configs|
    ensures Sum(WrittenIdsSizes(configs), n) <= Sum(IdsSizes(configs), n)
    ensures Sum(IdsSizes(configs), n) < Sum(WrittenIdsSizes(configs), n) + |Image(configs)|
  {
    hide *;
    IdsSizesCount(configs, n);
    WrittenAtLeast(configs, n);
    FlatGrows(configs, n);
    RecordsAtLeast(All(configs), |All(configs)|);
    PartSizes(configs);
    ImageSize(configs);
    WordsAre();
    IdsSizesCompare(configs, n);
  }

  lemma WordsAre()
    ensures HEADER == 136 && WORDS == 0x1_0000_0000
  {
  }

  // ------------------------------------------------------------ size

  /**
   The size in the header is the number of bytes written exactly if no limit key has two rows of one id and
   the file is below 4 GiB.
   */
  lemma SizeStored(configs: seq<Config>)
    requires Filled(configs)
    ensures 132 <= |Image(configs)|
    ensures Word(Image(configs), 128) == |Image(configs)| <==> DistinctIds(configs) && |Image(configs)| < WORDS
  {
    hide *;
    var predicted, actual := RecordAt(configs, |All(configs)|), |Image(configs)|;
    WordsAre();
    HeaderStands(configs);
    WordIs(Image(configs), 128, U32(predicted));
    PredictedSize(configs);
    SizeSlack(configs);
    if actual < WORDS { StoredIs(predicted, actual); }
  }

  lemma SizeSlack(configs: seq<Config>)
    requires Filled(configs)
    ensures RecordAt(configs, |All(configs)|) < 2 * |Image(configs)|
  {
    hide *;
    Slack(configs, |configs|);
    PartSizes(configs);
    ImageSize(configs);
    PositionSums(configs, |configs|, |All(configs)|);
  }

  // ------------------------------------------------------------ id sets

  /**
   The position in a KEYS entry is where its own id set stands, tag first: in a file below 4 GiB exactly if no
   earlier limit key has two rows of one id, and without such exactly if it is below 4 GiB itself.
   */
  lemma KeysOffsetStored(configs: seq<Config>, i: nat)
    requires Filled(configs) && i < |configs|
    ensures Holds(Image(configs), IdsStandAt(configs, i), IDSS) && KeysAt(configs, i) + 8 <= |Image(configs)|
    ensures var word := Word(Image(configs), KeysAt(configs, i) + 4);
      var distinct := forall j :: 0 <= j < i ==> RowsApart(configs[j]);
      && (|Image(configs)| < WORDS ==> (word == IdsStandAt(configs, i) <==> distinct))
      && (distinct ==> (word == IdsStandAt(configs, i) <==> IdsStandAt(configs, i) < WORDS))
  {
    hide *;
    WordsAre();
    KeysOffsetIsReal(configs, i);
    WordIs(Image(configs), KeysAt(configs, i) + 4, U32(IdsAt(configs, i)));
    Slack(configs, i);
    PositionSums(configs, i, 0);
    IdsStandWhere(configs, i);
    StandsWithin(Image(configs), IdsStandAt(configs, i), IDSS);
    if IdsAt(configs, i) < IdsStandAt(configs, i) + WORDS { StoredIs(IdsAt(configs, i), IdsStandAt(configs, i)); }
  }

  // ------------------------------------------------------------ records

  // The position of record k in the file.
  ghost function RecordStandsAt(configs: seq<Config>, k: nat): nat
    requires Filled(configs) && k <= |All(configs)|
  {
    IdsStandAt(configs, |configs|) + Sum(RecordSizes(All(configs)), k)
  }

  lemma RecordStandsWhere(configs: seq<Config>, k: nat)
    requires Filled(configs) && k <= |All(configs)|
    ensures RecordStandsAt(configs, k) == IdsStandAt(configs, |configs|) + Sum(RecordSizes(All(configs)), k)
  {
  }

  lemma EveryRecordStands(configs: seq<Config>, k: nat)
    requires Filled(configs) && k < |All(configs)|
    ensures Holds(Image(configs), RecordStandsAt(configs, k), Record(All(configs)[k].row))
  {
    hide *;
    PartsStand(configs);
    PartSizes(configs);
    PositionSums(configs, |configs|, k);
    IdsStandWhere(configs, |configs|);
    RecordStandsWhere(configs, k);
    RecordPiece(configs, k);
    ConcatHolds(Image(configs), IdsStandAt(configs, |configs|), Records(All(configs)), |All(configs)|, k);
  }

  lemma RecordPiece(configs: seq<Config>, k: nat)
    requires k < |All(configs)|
    ensures |Records(All(configs))| == |All(configs)| && Records(All(configs))[k] == Record(All(configs)[k].row)
  {
    hide Record, All;
  }

  // No later row of the limit key has the id of row j, so the id set keeps the position of that row.
  predicate LastOfId(config: Config, j: nat) {
    j < |config| && forall h :: j < h < |config| ==> config[h].id != config[j].id
  }

  lemma {:induction false} OffsetsOfLast(flat: seq<Placed>, at: nat, n: nat, k: nat)
    requires k < n <= |flat|
    requires forall m :: k < m < n ==> flat[m].group != flat[k].group || flat[m].row.id != flat[k].row.id
    ensures var m := Offsets(flat, at, flat[k].group, n);
      flat[k].row.id in m && m[flat[k].row.id] == U32(at + Sum(RecordSizes(flat), k))
    decreases n
  {
    hide RecordSizes, Sum, U32;
    if k < n - 1 { OffsetsOfLast(flat, at, n - 1, k); }
  }

  // Where row j of limit key i is, in the list of records and in the id set.
  lemma RowPlace(configs: seq<Config>, i: nat, j: nat) returns (k: nat, q: nat)
    requires Filled(configs) && i < |configs| && LastOfId(configs[i], j)
    ensures j < |configs[i]| && k < |All(configs)| && All(configs)[k] == Placed(i, configs[i][j])
    ensures var m := IdTable(configs, i);
      && configs[i][j].id in m && m[configs[i][j].id] == U32(RecordAt(configs, k))
      && q < |Pairs(m)| && Ascending(m.Keys)[q] == configs[i][j].id
  {
    hide *;
    k := |Flat(configs, i)| + j;
    LastPlaced(configs, i, j);
    OffsetsOfLast(All(configs), IdsAt(configs, |configs|), |All(configs)|, k);
    IdTableIs(configs, i);
    RecordAtIs(configs, k);
    q := KeyOrder(IdTable(configs, i), configs[i][j].id);
  }

  lemma LastPlaced(configs: seq<Config>, i: nat, j: nat)
    requires i < |configs| && LastOfId(configs[i], j)
    ensures var k := |Flat(configs, i)| + j;
      && j < |configs[i]| && k < |All(configs)| && All(configs)[k] == Placed(i, configs[i][j])
      && forall m :: k < m < |All(configs)| ==> All(configs)[m].group != i || All(configs)[m].row.id != configs[i][j].id
  {
    var k := |Flat(configs, i)| + j;
    FlatAt(configs, i, j);
    forall m | k < m < |All(configs)|
      ensures All(configs)[m].group != i || All(configs)[m].row.id != configs[i][j].id
    {
      var h := FlatIs(configs, |configs|, m);
    }
  }

  lemma RecordSlack(configs: seq<Config>, k: nat)
    requires Filled(configs) && k <= |All(configs)|
    ensures RecordStandsAt(configs, k) <= RecordAt(configs, k) < RecordStandsAt(configs, k) + |Image(configs)|
    ensures RecordStandsAt(configs, k) == RecordAt(configs, k) <==> DistinctIds(configs)
  {
    hide *;
    Slack(configs, |configs|);
    IdsSizesCompare(configs, |configs|);
    DistinctIdsIs(configs);
    PositionSums(configs, |configs|, k);
    IdsStandWhere(configs, |configs|);
    RecordStandsWhere(configs, k);
  }

  /**
   Beside a row's id in its id set stands the first byte of the row's record: in a file below 4 GiB exactly if no
   limit key has two rows of one id, and without such exactly if the record starts below 4 GiB.  Of rows of one
   limit key and id it is the last whose position is kept.
   */
  lemma IdOffsetStored(configs: seq<Config>, i: nat, j: nat) returns (at: nat, offset: nat)
    requires Filled(configs) && i < |configs| && LastOfId(configs[i], j)
    ensures j < |configs[i]| && IdsStandAt(configs, i) + 8 <= at && Holds(Image(configs), at, I32(configs[i][j].id))
    ensures Holds(Image(configs), offset, Record(configs[i][j])) && at + 8 <= |Image(configs)|
    ensures var word := Word(Image(configs), at + 4);
      && (|Image(configs)| < WORDS ==> (word == offset <==> DistinctIds(configs)))
      && (DistinctIds(configs) ==> (word == offset <==> offset < WORDS))
  {
    hide *;
    WordsAre();
    var k, q := RowPlace(configs, i, j);
    var m := IdTable(configs, i);
    offset := RecordStandsAt(configs, k);
    at := IdsStandAt(configs, i) + 8 + 8 * q;
    EveryRecordStands(configs, k);
    StandsWithin(Image(configs), offset, Record(configs[i][j]));
    IdsEntryStands(configs, i);
    PairStands(Image(configs), IdsStandAt(configs, i) + 8, m, q);
    WordIs(Image(configs), at + 4, U32(RecordAt(configs, k)));
    RecordSlack(configs, k);
    if RecordAt(configs, k) < offset + WORDS { StoredIs(RecordAt(configs, k), offset); }
  }
}
