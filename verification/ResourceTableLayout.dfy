/** The resources.index file as it is written, byte by byte: where what stands, by number. */
module ResourceTableLayout {
  import opened Bytes
  import opened ResourceData
  import opened ResourceTables
  import opened ResourceTableOffsets
  import opened ResourceTableWords
  import S = StringCodec

  lemma HoldsBytes(b: Text, at: nat, piece: Text)
    requires Holds(b, at, piece)
    ensures at + |piece| <= |b| && b[at..at + |piece|] == piece
  {
  }

  lemma CountStands(b: Text, at: nat, n: nat)
    requires Holds(b, at, Le32(U32(n)))
    ensures at + 4 <= |b| && Word(b, at) == n % 0x1_0000_0000
  {
    WordIs(b, at, U32(n));
    hide Le32, FromLe32, Holds;
  }

  lemma TagsAre()
    ensures KEYS == [75, 69, 89, 83] && IDSS == [73, 68, 83, 83]
  {
  }

  // ------------------------------------------------------------ header

  lemma VersionIs()
    ensures Version()[..13] == [82, 101, 115, 116, 111, 111, 108, 32, 50, 46, 48, 49, 48]
    ensures forall i :: 13 <= i < 128 ==> Version()[i] == 0
  {
  }

  /** "Restool 2.010", NULs up to byte 128, the size, the number of limit keys, and the first tag, if there is one. */
  lemma HeaderBytes(configs: seq<Config>)
    requires Filled(configs)
    ensures |Image(configs)| >= 136
    ensures Image(configs)[..13] == [82, 101, 115, 116, 111, 111, 108, 32, 50, 46, 48, 49, 48]
    ensures forall i :: 13 <= i < 128 ==> Image(configs)[i] == 0
    ensures Word(Image(configs), 132) == |configs| % 0x1_0000_0000
    ensures configs != [] ==> |Image(configs)| >= 140 && Image(configs)[136..140] == [75, 69, 89, 83]
  {
    hide Image, Header, Version, Holds, IdsAt, RecordAt, KeysEntry, IdsEntry, Concat;
    HeaderStands(configs);
    WordIs(Image(configs), 132, U32(|configs|));
    VersionStands(configs);
    VersionIs();
    var b := Image(configs);
    assert b[..13] == b[..128][..13];
    assert forall i :: 13 <= i < 128 ==> b[i] == b[..128][i];
    if configs != [] {
      KeysEntryStands(configs, 0);
      TagsAre();
      KeysPlaces(configs, 0);
      HoldsBytes(b, 136, KEYS);
    }
  }

  lemma VersionStands(configs: seq<Config>)
    requires Filled(configs)
    ensures |Image(configs)| >= 128 && Image(configs)[..128] == Version()
  {
    hide Image, Version, RecordAt, Concat, Le32, U32, All;
    PartsStand(configs);
    assert Image(configs)[..128] == Image(configs)[0..136][..128];
  }

  // ------------------------------------------------------------ KEYS entries

  /** The KEYS entries stand one after the other from byte 136 on. */
  lemma KeysPlaces(configs: seq<Config>, i: nat)
    requires Filled(configs) && i < |configs|
    ensures KeysAt(configs, 0) == 136 && configs[i] != []
    ensures KeysAt(configs, i + 1) == KeysAt(configs, i) + 12 + 8 * |configs[i][0].resourceItem.keyParams|
  {
    KeysAtStep(configs, i);
    assert Sum(KeysSizes(configs), 0) == 0;
  }

  lemma {:induction false} ParamStands(b: Text, at: nat, ps: seq<KeyParam>, j: nat)
    requires j < |ps| && Holds(b, at, Params(ps))
    ensures Holds(b, at + 8 * j, I32(ps[j].keyType)) && Holds(b, at + 8 * j + 4, Le32(ps[j].value))
    decreases |ps|
  {
    hide Params, I32, Le32, Holds;
    ParamsStep(ps);
    var n := |ps| - 1;
    HoldsBoth(b, at, Params(ps[..n]), Param(ps[n]));
    if j < n {
      ParamStands(b, at, ps[..n], j);
    } else {
      ParamsSize(ps[..n]);
      HoldsBoth(b, at + 8 * n, I32(ps[n].keyType), Le32(ps[n].value));
    }
  }

  lemma ParamsSize(ps: seq<KeyParam>)
    ensures |Params(ps)| == 8 * |ps|
  {
  }

  /** The tag, a position (see KeysOffsetStored), the number of params, and each param's type and value. */
  lemma KeysEntryBytes(configs: seq<Config>, i: nat, j: nat)
    requires Filled(configs) && i < |configs|
    ensures configs[i] != []
    ensures var b, at, ps := Image(configs), KeysAt(configs, i), configs[i][0].resourceItem.keyParams;
      && at + 12 + 8 * |ps| <= |b| && b[at..at + 4] == [75, 69, 89, 83]
      && Word(b, at + 8) == |ps| % 0x1_0000_0000
      && (j < |ps| ==> Signed(Word(b, at + 12 + 8 * j)) == ps[j].keyType && Word(b, at + 16 + 8 * j) == ps[j].value)
  {
    hide *;
    var b, at := Image(configs), KeysAt(configs, i);
    var ps := OwnParams(configs, i);
    TagsAre();
    KeysEntryStands(configs, i);
    HoldsBytes(b, at, KEYS);
    ParamsSize(ps);
    HoldsBytes(b, at + 12, Params(ps));
    CountStands(b, at + 8, |ps|);
    if j < |ps| {
      ParamStands(b, at + 12, ps, j);
      SignedWordIs(b, at + 12 + 8 * j, ps[j].keyType);
      WordIs(b, at + 16 + 8 * j, ps[j].value);
    }
  }

  lemma OwnParams(configs: seq<Config>, i: nat) returns (ps: seq<KeyParam>)
    requires Filled(configs) && i < |configs|
    ensures configs[i] != [] && ps == KeyParams(configs[i]) == configs[i][0].resourceItem.keyParams
  {
    ps := KeyParams(configs[i]);
  }

  // ------------------------------------------------------------ id sets

  /** The id sets stand one after the other behind the KEYS entries, one pair for each id. */
  lemma IdsPlaces(configs: seq<Config>, i: nat)
    requires Filled(configs) && i < |configs|
    ensures IdsStandAt(configs, 0) == KeysAt(configs, |configs|)
    ensures IdsStandAt(configs, i + 1) == IdsStandAt(configs, i) + 8 + 8 * |Ids(configs[i])|
  {
    hide KeysAt, IdTable, Ids;
    TableIds(configs, i);
    assert Sum(WrittenIdsSizes(configs), 0) == 0;
    SumStep(WrittenIdsSizes(configs), i);
  }

  /** The tag and the number of rows. */
  lemma IdsTag(configs: seq<Config>, i: nat)
    requires Filled(configs) && i < |configs|
    ensures var b, at := Image(configs), IdsStandAt(configs, i);
      at + 8 <= |b| && b[at..at + 4] == [73, 68, 83, 83] && Word(b, at + 4) == |configs[i]| % 0x1_0000_0000
  {
    hide *;
    var b, at := Image(configs), IdsStandAt(configs, i);
    TagsAre();
    IdsEntryStands(configs, i);
    HoldsBytes(b, at, IDSS);
    CountStands(b, at + 4, |configs[i]|);
  }

  /** Behind them the ids, each once and ascending, eight bytes apart. */
  lemma IdsEntryBytes(configs: seq<Config>, i: nat, q: nat, r: nat)
    requires Filled(configs) && i < |configs| && q < r < |Ids(configs[i])|
    ensures var b, at := Image(configs), IdsStandAt(configs, i);
      && at + 8 * r + 16 <= |b|
      && Signed(Word(b, at + 8 + 8 * q)) in Ids(configs[i]) && Signed(Word(b, at + 8 + 8 * r)) in Ids(configs[i])
      && Signed(Word(b, at + 8 + 8 * q)) < Signed(Word(b, at + 8 + 8 * r))
  {
    hide *;
    var b, at, m := Image(configs), IdsStandAt(configs, i), IdTable(configs, i);
    IdsTag(configs, i);
    TableIds(configs, i);
    IdsEntryStands(configs, i);
    PairStands(b, at + 8, m, q);
    PairStands(b, at + 8, m, r);
    IdsRise(m, q, r);
    SignedWordIs(b, at + 8 + 8 * q, Ascending(m.Keys)[q]);
    SignedWordIs(b, at + 8 + 8 * r, Ascending(m.Keys)[r]);
    WordIs(b, at + 8 + 8 * r + 4, m[Ascending(m.Keys)[r]]);
  }

  lemma TableIds(configs: seq<Config>, i: nat)
    requires Filled(configs) && i < |configs|
    ensures IdTable(configs, i).Keys == Ids(configs[i]) && |Pairs(IdTable(configs, i))| == |Ids(configs[i])|
  {
    IdTableKeys(configs, i);
    hide IdTable, Ids, Pairs;
    assert IdTable(configs, i).Keys == Ids(configs[i]);
  }

  lemma IdsRise(m: map<int32, uint32>, q: nat, r: nat)
    requires q < r < |m.Keys|
    ensures Ascending(m.Keys)[q] in m && Ascending(m.Keys)[r] in m && Ascending(m.Keys)[q] < Ascending(m.Keys)[r]
  {
    assert Ascending(m.Keys)[q] in Ascending(m.Keys) && Ascending(m.Keys)[r] in Ascending(m.Keys);
    hide Ascending;
  }

  // ------------------------------------------------------------ records

  // What a record holds behind its id, as long as its length words and both texts fit 65535 bytes.
  predicate Fits(item: Item) { |item.data| + |GetIdName(item.name, item.resType)| + 6 <= 65535 }

  lemma PayloadSize(item: Item)
    ensures |Payload(item)| == if Fits(item) then |item.data| + |GetIdName(item.name, item.resType)| + 6 else 0
    ensures Fits(item) ==> |Payload(item)| <= 65535
    ensures Payload(item) == if Fits(item) then S.Entries([item.data, GetIdName(item.name, item.resType)], true) else []
  {
    var contents := [item.data, GetIdName(item.name, item.resType)];
    hide GetIdName, S.Entries;
    var none: seq<Text> := [];
    assert contents[..1] == [item.data] && [item.data][..0] == none && S.Total(none) == 0;
    assert S.Total(contents) == S.Total([item.data]) + |contents[1]| + 3;
  }

  lemma PayloadIs(item: Item)
    requires Fits(item)
    ensures |Payload(item)| == |item.data| + |GetIdName(item.name, item.resType)| + 6
    ensures var p, data, idName := Payload(item), item.data, GetIdName(item.name, item.resType);
      && p[0] as int + 0x100 * p[1] as int == |data| + 1
      && p[2..2 + |data|] == data && p[2 + |data|] == 0
      && p[|data| + 3] as int + 0x100 * p[|data| + 4] as int == |idName| + 1
      && p[|data| + 5..|data| + 5 + |idName|] == idName && p[|data| + 5 + |idName|] == 0
  {
    var contents := [item.data, GetIdName(item.name, item.resType)];
    hide Payload, GetIdName, S.Entries, S.Total;
    PayloadSize(item);
    S.EntryBytes(contents, true, 0);
    S.EntryBytes(contents, true, 1);
  }

  /** The records stand one after the other behind the id sets. */
  lemma RecordPlaces(configs: seq<Config>, k: nat)
    requires Filled(configs) && k < |All(configs)|
    ensures var item := All(configs)[k].row.resourceItem;
      && RecordStandsAt(configs, 0) == IdsStandAt(configs, |configs|)
      && RecordStandsAt(configs, k + 1) == RecordStandsAt(configs, k) + 12
         + if Fits(item) then |item.data| + |GetIdName(item.name, item.resType)| + 6 else 0
  {
    var sizes := RecordSizes(All(configs));
    PayloadSize(All(configs)[k].row.resourceItem);
    assert Sum(sizes, 0) == 0;
    SumStep(sizes, k);
    hide All, IdsStandAt, Payload, Fits;
  }

  /**
   The size behind the size word, modulo 2^32, the type and the id, and, if they fit, the value and the id name, each
   with its length, NUL included, before it and the NUL behind it.
   */
  lemma RecordBytes(configs: seq<Config>, k: nat)
    requires Filled(configs) && k < |All(configs)|
    ensures var row, b, at := All(configs)[k].row, Image(configs), RecordStandsAt(configs, k);
      var item := row.resourceItem;
      var data, idName := item.data, GetIdName(item.name, item.resType);
      && at + 12 <= |b| && Signed(Word(b, at + 4)) == item.resType && Signed(Word(b, at + 8)) == row.id
      && (!Fits(item) ==> Word(b, at) == 8)
      && (Fits(item) ==>
           && at + 18 + |data| + |idName| <= |b| && Word(b, at) == 14 + |data| + |idName|
           && b[at + 12] as int + 0x100 * b[at + 13] as int == |data| + 1
           && b[at + 14..at + 14 + |data|] == data && b[at + 14 + |data|] == 0
           && b[at + 15 + |data|] as int + 0x100 * b[at + 16 + |data|] as int == |idName| + 1
           && b[at + 17 + |data|..at + 17 + |data| + |idName|] == idName && b[at + 17 + |data| + |idName|] == 0)
  {
    hide *;
    var row, b, at := All(configs)[k].row, Image(configs), RecordStandsAt(configs, k);
    var item := row.resourceItem;
    var p := Payload(item);
    EveryRecordStands(configs, k);
    PayloadSize(item);
    RecordSplits(row);
    HoldsFour(b, at, Le32(U32(8 + |p|)), I32(item.resType), I32(row.id), p);
    CountStands(b, at, 8 + |p|);
    SignedWordIs(b, at + 4, item.resType);
    SignedWordIs(b, at + 8, row.id);
    HoldsBytes(b, at + 12, p);
    if Fits(item) { Within(b, at, item, p); }
  }

  lemma RecordSplits(row: TableData)
    ensures var p := Payload(row.resourceItem);
      && Record(row) == Le32(U32(8 + |p|)) + (I32(row.resourceItem.resType) + (I32(row.id) + p))
      && |Le32(U32(8 + |p|))| == 4 == |I32(row.resourceItem.resType)| == |I32(row.id)|
  {
    hide Payload, Le32, I32, U32;
  }

  lemma Within(b: Text, at: nat, item: Item, p: Text)
    requires Fits(item) && p == Payload(item) && at + 12 + |p| <= |b| && b[at + 12..at + 12 + |p|] == p
    ensures var data, idName := item.data, GetIdName(item.name, item.resType);
      && at + 18 + |data| + |idName| <= |b|
      && b[at + 12] as int + 0x100 * b[at + 13] as int == |data| + 1
      && b[at + 14..at + 14 + |data|] == data && b[at + 14 + |data|] == 0
      && b[at + 15 + |data|] as int + 0x100 * b[at + 16 + |data|] as int == |idName| + 1
      && b[at + 17 + |data|..at + 17 + |data| + |idName|] == idName && b[at + 17 + |data| + |idName|] == 0
  {
    PayloadIs(item);
    hide Payload, GetIdName;
    var data, idName := item.data, GetIdName(item.name, item.resType);
    assert forall i :: 0 <= i < |p| ==> p[i] == b[at + 12 + i];
    Inside(b, at + 12, p, 2, |data|);
    Inside(b, at + 12, p, |data| + 5, |idName|);
  }

  lemma Inside(b: Text, at: nat, p: Text, from: nat, n: nat)
    requires at + |p| <= |b| && b[at..at + |p|] == p && from + n <= |p|
    ensures b[at + from..at + from + n] == p[from..from + n]
  {
    HoldsWithin(b, at, p, from, p[from..from + n]);
  }
}
