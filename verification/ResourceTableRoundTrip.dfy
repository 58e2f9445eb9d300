/** Reading back the resources.index file that was written. */
module ResourceTableRoundTrip {
  import opened Bytes
  import opened ResourceData
  import opened ResourceTables
  import opened ResourceTableOffsets
  import opened StringCodec
  import L = ResourceTableLoads
  import LimitKeys

  // ------------------------------------------------------------ key params

  lemma {:induction false} ParamHolds(b: Text, at: nat, ps: seq<KeyParam>, i: nat)
    requires i < |ps| && Holds(b, at, Params(ps))
    ensures Holds(b, at + 8 * i, Param(ps[i]))
    decreases |ps|
  {
    var init, p := ps[..|ps| - 1], ps[|ps| - 1];
    ParamsStep(ps);
    HoldsBoth(b, at, Params(init), Param(p));
    hide Holds, Params;
    if i < |init| { ParamHolds(b, at, init, i); }
  }

  lemma ParamIs(b: Text, at: nat, p: KeyParam)
    requires Holds(b, at, Param(p))
    ensures at + 8 <= |b| && KeyParam(Signed(Word(b, at)), Word(b, at + 4)) == p
  {
    HoldsBoth(b, at, I32(p.keyType), Le32(p.value));
    SignedWordIs(b, at, p.keyType);
    WordIs(b, at + 4, p.value);
  }

  lemma {:induction false} ReadParams(b: Text, at: nat, ps: seq<KeyParam>, i: nat, length: int32)
    requires i <= |ps| && Holds(b, at, Params(ps)) && at + 8 * |ps| <= length <= |b|
    ensures L.ParamsFrom(b, L.Params(ps[..i], at + 8 * i), |ps| - i, length) == L.Got(L.Params(ps, at + 8 * |ps|))
    decreases |ps| - i
  {
    if i == |ps| {
      assert ps[..i] == ps;
    } else {
      ParamHolds(b, at, ps, i);
      ParamIs(b, at + 8 * i, ps[i]);
      assert ps[..i + 1] == ps[..i] + [ps[i]];
      ReadParams(b, at, ps, i + 1, length);
      hide Holds, Params, Word;
    }
  }

  // ------------------------------------------------------------ the KEYS entries

  lemma KeysEntryIs(b: Text, k: L.Keys, p: int32, n: uint32, ps: L.Params, length: int32)
    requires p >= 0 && k.at + 12 <= length <= |b| && Holds(b, k.at, KEYS)
    requires Word(b, k.at + 4) == p && Word(b, k.at + 8) == n
    requires L.ParamsFrom(b, L.Params([], k.at + 12), n, length) == L.Got(ps)
    ensures L.KeysEntryFrom(b, k, length) == L.Got(L.Keys(k.table[p := ps.list], ps.at))
  {
    assert b[k.at..k.at + 4] == KEYS;
    hide Holds, Word, L.ParamsFrom;
  }

  lemma ReadKeysEntry(b: Text, k: L.Keys, p: int32, ps: seq<KeyParam>, length: int32)
    requires p >= 0 && k.at + 12 + 8 * |ps| <= length <= |b|
    requires Holds(b, k.at, KEYS) && Holds(b, k.at + 4, Le32(p))
    requires Holds(b, k.at + 8, Le32(U32(|ps|))) && Holds(b, k.at + 12, Params(ps))
    ensures L.KeysEntryFrom(b, k, length) == L.Got(L.Keys(k.table[p := ps], k.at + 12 + 8 * |ps|))
  {
    hide *;
    WordIs(b, k.at + 4, p);
    WordIs(b, k.at + 8, U32(|ps|));
    NoWrap(|ps|);
    assert ps[..0] == [];
    ReadParams(b, k.at + 12, ps, 0, length);
    KeysEntryIs(b, k, p, |ps|, L.Params(ps, k.at + 12 + 8 * |ps|), length);
  }

  // Short enough for the int32 positions of the reader.
  ghost predicate Short(configs: seq<Config>)
    requires Filled(configs)
  {
    RecordAt(configs, |All(configs)|) < 0x8000_0000
  }

  lemma ShortBounds(configs: seq<Config>, i: nat, k: nat)
    requires Filled(configs) && i <= |configs| && k <= |All(configs)|
    ensures HEADER <= KeysAt(configs, i) <= KeysAt(configs, |configs|) <= IdsAt(configs, i) <= IdsAt(configs, |configs|)
    ensures IdsAt(configs, |configs|) <= RecordAt(configs, k) <= RecordAt(configs, |All(configs)|)
  {
    hide Sum, KeysSizes, IdsSizes, RecordSizes;
    PositionSums(configs, i, k);
    assert |KeysSizes(configs)| == |IdsSizes(configs)| == |configs| by { SizesLength(configs); }
    SumMonotone(KeysSizes(configs), i, |configs|);
    SumMonotone(IdsSizes(configs), i, |configs|);
    SumMonotone(RecordSizes(All(configs)), k, |All(configs)|);
  }

  lemma SizesLength(configs: seq<Config>)
    requires Filled(configs)
    ensures |KeysSizes(configs)| == |IdsSizes(configs)| == |configs|
  {
  }

  lemma NoWrap(n: nat)
    requires n < 0x8000_0000
    ensures U32(n) == n && Signed(U32(n)) == n
  {
  }

  ghost function KeyTable(configs: seq<Config>, i: nat): map<int32, seq<KeyParam>>
    requires Filled(configs) && i <= |configs| && Short(configs)
  {
    ShortBounds(configs, if i == 0 then 0 else i - 1, 0);
    if i == 0 then map[] else KeyTable(configs, i - 1)[IdsAt(configs, i - 1) := KeyParams(configs[i - 1])]
  }

  lemma KeyTableStep(configs: seq<Config>, i: nat)
    requires Filled(configs) && i < |configs| && Short(configs)
    ensures IdsAt(configs, i) < 0x8000_0000
    ensures KeyTable(configs, i + 1) == KeyTable(configs, i)[IdsAt(configs, i) := KeyParams(configs[i])]
    ensures KeysAt(configs, i + 1) == KeysAt(configs, i) + 12 + 8 * |KeyParams(configs[i])|
    ensures KeysAt(configs, i + 1) <= RecordAt(configs, |All(configs)|)
  {
    ShortBounds(configs, i, 0);
    ShortBounds(configs, i + 1, 0);
    KeysAtStep(configs, i);
    hide IdsAt, KeysAt, RecordAt, KeyParams;
  }

  ghost function KeysRead(configs: seq<Config>, i: nat): L.Keys
    requires Filled(configs) && i <= |configs| && Short(configs)
  {
    L.Keys(KeyTable(configs, i), KeysAt(configs, i))
  }

  lemma KeysReadIs(configs: seq<Config>, i: nat)
    requires Filled(configs) && i <= |configs| && Short(configs)
    ensures KeysRead(configs, i) == L.Keys(KeyTable(configs, i), KeysAt(configs, i))
    ensures i < |configs| ==> configs[i] != []
  {
    hide KeyTable, KeysAt, Short;
  }

  lemma ReadKeysAt(configs: seq<Config>, b: Text, i: nat, length: int32)
    requires Filled(configs) && i < |configs| && Short(configs) && b == Image(configs)
    requires RecordAt(configs, |All(configs)|) == length == |b|
    ensures KeysAt(configs, i) <= length && KeysAt(configs, i + 1) <= length
    ensures L.KeysEntryFrom(b, KeysRead(configs, i), length) == L.Got(KeysRead(configs, i + 1))
  {
    hide *;
    KeysReadIs(configs, i);
    KeysReadIs(configs, i + 1);
    ShortBounds(configs, i, 0);
    KeysEntryStands(configs, i);
    KeyTableStep(configs, i);
    NoWrap(IdsAt(configs, i));
    ReadKeysEntry(b, KeysRead(configs, i), IdsAt(configs, i), KeyParams(configs[i]), length);
  }

  lemma {:induction false} ReadKeys(configs: seq<Config>, b: Text, i: nat, length: int32)
    requires Filled(configs) && i <= |configs| && Short(configs) && b == Image(configs)
    requires RecordAt(configs, |All(configs)|) == length == |b|
    ensures KeysRead(configs, i).at <= length
    ensures L.KeysFrom(b, KeysRead(configs, i), |configs| - i, length) == L.Got(KeysRead(configs, |configs|))
    decreases |configs| - i
  {
    hide *;
    KeysReadIs(configs, i);
    ShortBounds(configs, i, 0);
    if i < |configs| {
      ReadKeysAt(configs, b, i, length);
      ReadKeys(configs, b, i + 1, length);
    }
    L.KeysFromStep(b, KeysRead(configs, i), |configs| - i, length);
  }

  lemma {:induction false} KeyTableHolds(configs: seq<Config>, i: nat, g: nat)
    requires Filled(configs) && g < i <= |configs| && Short(configs)
    ensures IdsAt(configs, g) in KeyTable(configs, i)
    ensures KeyTable(configs, i)[IdsAt(configs, g)] == KeyParams(configs[g])
    decreases i
  {
    hide *;
    KeyTableStep(configs, i - 1);
    KeyTableStep(configs, g);
    if g < i - 1 {
      KeyTableHolds(configs, i - 1, g);
      IdsApart(configs, g, i - 1);
    }
  }

  lemma IdsApart(configs: seq<Config>, g: nat, h: nat)
    requires Filled(configs) && g < h <= |configs|
    ensures IdsAt(configs, g) < IdsAt(configs, h)
  {
    SizesLength(configs);
    hide Sum;
    SumMonotone(IdsSizes(configs), g, h);
  }

  // ------------------------------------------------------------ the id sets

  // The reader's table once q pairs of an id set standing at offset are read.
  ghost function PairsRead(t: map<int32, (int32, int32)>, m: map<int32, uint32>, offset: int32, q: nat):
    map<int32, (int32, int32)>
    requires q <= |Pairs(m)|
  {
    if q == 0 then t
    else
      var id := Ascending(m.Keys)[q - 1];
      PairsRead(t, m, offset, q - 1)[Signed(m[id]) := (id, offset)]
  }

  lemma PairsReadStep(t: map<int32, (int32, int32)>, m: map<int32, uint32>, offset: int32, q: nat)
    requires q < |Pairs(m)|
    ensures Ascending(m.Keys)[q] in m
    ensures var id := Ascending(m.Keys)[q];
      PairsRead(t, m, offset, q + 1) == PairsRead(t, m, offset, q)[Signed(m[id]) := (id, offset)]
  {
    PairsIndexed(m, q);
    hide Ascending, Signed;
  }

  lemma PairsFromStep(b: Text, ids: L.Ids, n: nat, offset: int32, length: int32)
    requires n > 0 && ids.at + 8 <= length <= |b|
    ensures var id, dataOffset := Signed(Word(b, ids.at)), Signed(Word(b, ids.at + 4));
      L.PairsFrom(b, ids, n, offset, length)
      == L.PairsFrom(b, L.Ids(ids.table[dataOffset := (id, offset)], ids.at + 8), n - 1, offset, length)
  {
    hide Word, Signed;
  }

  lemma NoMorePairs(b: Text, ids: L.Ids, offset: int32, length: int32)
    requires ids.at <= length <= |b|
    ensures L.PairsFrom(b, ids, 0, offset, length) == L.Got(ids)
  {
  }

  lemma {:induction false} ReadPairs(b: Text, at: nat, t: map<int32, (int32, int32)>, m: map<int32, uint32>,
                                     offset: int32, q: nat, length: int32)
    requires q <= |Pairs(m)| && at + 8 * |Pairs(m)| <= length <= |b|
    requires Holds(b, at, Concat(Pairs(m), |Pairs(m)|))
    ensures L.PairsFrom(b, L.Ids(PairsRead(t, m, offset, q), at + 8 * q), |Pairs(m)| - q, offset, length)
            == L.Got(L.Ids(PairsRead(t, m, offset, |Pairs(m)|), at + 8 * |Pairs(m)|))
    decreases |Pairs(m)| - q
  {
    hide *;
    var ids := L.Ids(PairsRead(t, m, offset, q), at + 8 * q);
    if q < |Pairs(m)| {
      PairStands(b, at, m, q);
      var id := Ascending(m.Keys)[q];
      SignedWordIs(b, at + 8 * q, id);
      WordIs(b, at + 8 * q + 4, m[id]);
      PairsFromStep(b, ids, |Pairs(m)| - q, offset, length);
      PairsReadStep(t, m, offset, q);
      ReadPairs(b, at, t, m, offset, q + 1, length);
    } else {
      NoMorePairs(b, ids, offset, length);
    }
  }

  lemma IdsEntryIs(b: Text, ids: L.Ids, n: uint32, r: L.Ids, length: int32)
    requires ids.at + 8 <= length <= |b| && Holds(b, ids.at, IDSS) && Word(b, ids.at + 4) == n
    requires L.PairsFrom(b, L.Ids(ids.table, ids.at + 8), n, ids.at, length) == L.Got(r)
    ensures L.IdsEntryFrom(b, ids, length) == L.Got(r)
  {
    assert b[ids.at..ids.at + 4] == IDSS;
    hide Holds, Word, L.PairsFrom;
  }

  // The reader's state behind the first i id sets.
  ghost function IdsTable(configs: seq<Config>, i: nat): map<int32, (int32, int32)>
    requires Filled(configs) && i <= |configs| && Short(configs)
  {
    if i == 0 then map[]
    else
      ShortBounds(configs, i - 1, 0);
      var m := IdTable(configs, i - 1);
      PairsRead(IdsTable(configs, i - 1), m, IdsAt(configs, i - 1), |Pairs(m)|)
  }

  ghost function IdsRead(configs: seq<Config>, i: nat): L.Ids
    requires Filled(configs) && i <= |configs| && Short(configs)
  {
    L.Ids(IdsTable(configs, i), IdsAt(configs, i))
  }

  lemma IdsReadIs(configs: seq<Config>, i: nat)
    requires Filled(configs) && i <= |configs| && Short(configs)
    ensures IdsRead(configs, i) == L.Ids(IdsTable(configs, i), IdsAt(configs, i))
    ensures 0 <= IdsAt(configs, i) <= RecordAt(configs, |All(configs)|) < 0x8000_0000
  {
    ShortBounds(configs, i, 0);
    hide IdsTable, IdsAt, RecordAt;
  }

  lemma IdsTableStep(configs: seq<Config>, i: nat)
    requires Filled(configs) && i < |configs| && Short(configs)
    ensures IdsAt(configs, i) < 0x8000_0000
    ensures var m := IdTable(configs, i);
      IdsTable(configs, i + 1) == PairsRead(IdsTable(configs, i), m, IdsAt(configs, i), |Pairs(m)|)
  {
    ShortBounds(configs, i, 0);
    hide PairsRead, IdsAt, IdTable, RecordAt, Pairs;
  }

  lemma PairCount(configs: seq<Config>, i: nat)
    requires Filled(configs) && DistinctIds(configs) && i < |configs|
    ensures |Pairs(IdTable(configs, i))| == |configs[i]|
    ensures IdsAt(configs, i) == IdsStandAt(configs, i)
  {
    hide *;
    AllDistinct(configs, i);
    IdTableSize(configs, i);
    KeysOffsetIsReal(configs, i);
  }

  lemma ReadIdsAt(configs: seq<Config>, b: Text, i: nat, length: int32)
    requires Filled(configs) && DistinctIds(configs) && i < |configs| && Short(configs) && b == Image(configs)
    requires RecordAt(configs, |All(configs)|) == length == |b|
    ensures IdsRead(configs, i).at <= length && IdsRead(configs, i + 1).at <= length
    ensures L.IdsEntryFrom(b, IdsRead(configs, i), length) == L.Got(IdsRead(configs, i + 1))
  {
    hide *;
    IdsReadIs(configs, i);
    IdsReadIs(configs, i + 1);
    IdsTableStep(configs, i);
    IdsAtStep(configs, i);
    IdsEntryStands(configs, i);
    PairCount(configs, i);
    var at, m := IdsAt(configs, i), IdTable(configs, i);
    WordIs(b, at + 4, U32(|configs[i]|));
    NoWrap(|configs[i]|);
    NoPairsYet(IdsTable(configs, i), m, at);
    ReadPairs(b, at + 8, IdsTable(configs, i), m, at, 0, length);
    IdsEntryIs(b, IdsRead(configs, i), |configs[i]|, IdsRead(configs, i + 1), length);
  }

  lemma NoPairsYet(t: map<int32, (int32, int32)>, m: map<int32, uint32>, offset: int32)
    ensures PairsRead(t, m, offset, 0) == t
  {
  }

  lemma {:induction false} ReadIds(configs: seq<Config>, b: Text, i: nat, length: int32)
    requires Filled(configs) && DistinctIds(configs) && i <= |configs| && Short(configs) && b == Image(configs)
    requires RecordAt(configs, |All(configs)|) == length == |b|
    ensures IdsRead(configs, i).at <= length
    ensures L.IdsFrom(b, IdsRead(configs, i), |configs| - i, length) == L.Got(IdsRead(configs, |configs|))
    decreases |configs| - i
  {
    hide *;
    IdsReadIs(configs, i);
    if i < |configs| {
      ReadIdsAt(configs, b, i, length);
      ReadIds(configs, b, i + 1, length);
    }
    L.IdsFromStep(b, IdsRead(configs, i), |configs| - i, length);
  }

  // ------------------------------------------------------------ what the tables say of a record

  lemma {:induction false} PairsMiss(t: map<int32, (int32, int32)>, m: map<int32, uint32>, offset: int32, q: nat, x: int32)
    requires q <= |Pairs(m)| && forall id :: id in m ==> Signed(m[id]) != x
    requires x in t
    ensures x in PairsRead(t, m, offset, q) && PairsRead(t, m, offset, q)[x] == t[x]
  {
    hide *;
    if q == 0 {
      NoPairsYet(t, m, offset);
    } else {
      PairsMiss(t, m, offset, q - 1, x);
      PairsReadStep(t, m, offset, q - 1);
    }
  }

  lemma {:induction false} PairsHit(t: map<int32, (int32, int32)>, m: map<int32, uint32>, offset: int32, q: nat, p: nat)
    requires p < q <= |Pairs(m)| && Ascending(m.Keys)[p] in m
    requires forall id :: id in m && id != Ascending(m.Keys)[p] ==> Signed(m[id]) != Signed(m[Ascending(m.Keys)[p]])
    ensures var id := Ascending(m.Keys)[p];
      Signed(m[id]) in PairsRead(t, m, offset, q) && PairsRead(t, m, offset, q)[Signed(m[id])] == (id, offset)
    decreases q
  {
    hide *;
    PairsReadStep(t, m, offset, q - 1);
    if p < q - 1 { PairsHit(t, m, offset, q - 1, p); }
  }

  lemma RecordsApart(configs: seq<Config>, k: nat, k2: nat)
    requires Filled(configs) && k < k2 <= |All(configs)|
    ensures RecordAt(configs, k) < RecordAt(configs, k2)
  {
    PositionSums(configs, 0, k);
    PositionSums(configs, 0, k2);
    SumMonotone(RecordSizes(All(configs)), k, k2);
    assert RecordSizes(All(configs))[k] > 0;
    hide Sum, All, IdsAt, Payload;
  }

  // An offset of id set g is the position of a record of group g.
  lemma OffsetOf(configs: seq<Config>, g: nat, id: int32) returns (k: nat)
    requires Filled(configs) && Short(configs) && g < |configs| && id in IdTable(configs, g)
    ensures k < |All(configs)| && All(configs)[k].group == g && All(configs)[k].row.id == id
    ensures Signed(IdTable(configs, g)[id]) == RecordAt(configs, k)
  {
    hide *;
    IdTableIs(configs, g);
    k := OffsetsFromRows(All(configs), IdsAt(configs, |configs|), g, |All(configs)|, id);
    RecordAtIs(configs, k);
    ShortBounds(configs, 0, k);
    ShortIs(configs);
    NoWrap(RecordAt(configs, k));
  }

  lemma ShortIs(configs: seq<Config>)
    requires Filled(configs)
    ensures Short(configs) <==> RecordAt(configs, |All(configs)|) < 0x8000_0000
  {
    hide RecordAt, All;
  }

  lemma DifferentOffsets(configs: seq<Config>, g: nat, k: nat, id: int32)
    requires Filled(configs) && Short(configs) && k < |All(configs)| && g < |configs| && id in IdTable(configs, g)
    requires All(configs)[k].group != g || All(configs)[k].row.id != id
    ensures Signed(IdTable(configs, g)[id]) != RecordAt(configs, k)
  {
    hide *;
    var k2 := OffsetOf(configs, g, id);
    if k2 < k {
      RecordsApart(configs, k2, k);
    } else {
      assert k < k2;
      RecordsApart(configs, k, k2);
    }
  }

  lemma {:induction false} IdsTableHolds(configs: seq<Config>, i: nat, k: nat)
    requires Filled(configs) && DistinctIds(configs) && Short(configs) && i <= |configs|
    requires k < |All(configs)| && All(configs)[k].group < i
    ensures RecordAt(configs, k) < 0x8000_0000 && IdsAt(configs, All(configs)[k].group) < 0x8000_0000
    ensures RecordAt(configs, k) in IdsTable(configs, i)
    ensures IdsTable(configs, i)[RecordAt(configs, k)] == (All(configs)[k].row.id, IdsAt(configs, All(configs)[k].group))
    decreases i
  {
    hide *;
    ShortIs(configs);
    ShortBounds(configs, i, k);
    IdsTableStep(configs, i - 1);
    var g, id, m := All(configs)[k].group, All(configs)[k].row.id, IdTable(configs, i - 1);
    IdsReadIs(configs, g);
    forall id2 | id2 in m && !(g == i - 1 && id2 == id) ensures Signed(m[id2]) != RecordAt(configs, k) {
      DifferentOffsets(configs, i - 1, k, id2);
    }
    if g < i - 1 {
      IdsTableHolds(configs, i - 1, k);
      PairsMiss(IdsTable(configs, i - 1), m, IdsAt(configs, i - 1), |Pairs(m)|, RecordAt(configs, k));
    } else {
      OffsetIs(configs, k);
      NoWrap(RecordAt(configs, k));
      var p := KeyOrder(m, id);
      PairsHit(IdsTable(configs, i - 1), m, IdsAt(configs, i - 1), |Pairs(m)|, p);
    }
  }

  lemma GroupInRange(configs: seq<Config>, k: nat)
    requires k < |All(configs)|
    ensures All(configs)[k].group < |configs|
  {
    var j := FlatIs(configs, |configs|, k);
  }

  // The tables lead from a record's position to its limit key's params.
  lemma TablesLead(configs: seq<Config>, k: nat)
    requires Filled(configs) && DistinctIds(configs) && Short(configs) && k < |All(configs)|
    ensures RecordAt(configs, k) < 0x8000_0000 && All(configs)[k].group < |configs|
    ensures L.KeyParamsAt(KeysRead(configs, |configs|), IdsRead(configs, |configs|), RecordAt(configs, k),
                          All(configs)[k].row.id)
            == Some(KeyParams(configs[All(configs)[k].group]))
  {
    hide *;
    GroupInRange(configs, k);
    var g := All(configs)[k].group;
    IdsTableHolds(configs, |configs|, k);
    KeyTableHolds(configs, |configs|, g);
    KeysReadIs(configs, |configs|);
    IdsReadIs(configs, |configs|);
    FilledAt(configs, g);
    Leads(KeysRead(configs, |configs|), IdsRead(configs, |configs|), RecordAt(configs, k), All(configs)[k].row.id,
          IdsAt(configs, g));
  }

  lemma Leads(k: L.Keys, ids: L.Ids, at: int32, id: int32, p: int32)
    requires at in ids.table && ids.table[at] == (id, p) && p in k.table
    ensures L.KeyParamsAt(k, ids, at, id) == Some(k.table[p])
  {
  }

  // ------------------------------------------------------------ the records

  predicate FitsRecord(item: Item) {
    |item.data| + 3 + |GetIdName(item.name, item.resType)| + 3 <= LIMIT
  }

  lemma TwoEntries(t: Text, u: Text)
    ensures Total([t, u]) == |t| + 3 + |u| + 3 && Entries([t, u], true) == Entry(t, true) + Entry(u, true)
  {
    hide Entry;
    var none: seq<Text> := [];
    assert [t, u][..2] == [t, u] && [t, u][..1] == [t] && [t, u][..0] == none;
    EntriesStep([t, u], 0, true);
    EntriesStep([t, u], 1, true);
  }

  lemma PayloadIs(item: Item)
    ensures var name := GetIdName(item.name, item.resType);
      Payload(item) == if FitsRecord(item) then Entry(item.data, true) + Entry(name, true) else []
  {
    TwoEntries(item.data, GetIdName(item.name, item.resType));
    hide Entries, Entry, GetIdName, Total;
  }

  lemma RecordPieces(row: TableData)
    ensures Record(row) == Le32(U32(8 + |Payload(row.resourceItem)|))
      + (I32(row.resourceItem.resType) + (I32(row.id) + Payload(row.resourceItem)))
  {
    hide Payload, Le32, U32;
  }

  lemma ReadHead(b: Text, at: nat, row: TableData, length: int32)
    requires Holds(b, at, Record(row)) && at + |Record(row)| <= length <= |b|
    ensures L.RecordHeadAt(b, at, at, length)
            == L.Got(L.Record(8 + |Payload(row.resourceItem)|, row.resourceItem.resType, row.id, at + |Record(row)|))
    ensures Holds(b, at + 12, Payload(row.resourceItem))
  {
    hide *;
    RecordPieces(row);
    var data := Payload(row.resourceItem);
    var size, resType, id := Le32(U32(8 + |data|)), I32(row.resourceItem.resType), I32(row.id);
    HoldsBoth(b, at, size, resType + (id + data));
    HoldsBoth(b, at + 4, resType, id + data);
    HoldsBoth(b, at + 8, id, data);
    NoWrap(8 + |data|);
    WordIs(b, at, 8 + |data|);
    SignedWordIs(b, at + 4, row.resourceItem.resType);
    SignedWordIs(b, at + 8, row.id);
    NoWrap(at + 12 + |data|);
    HeadIs(b, at, 8 + |data|, row.resourceItem.resType, row.id, length);
  }

  lemma HeadIs(b: Text, at: nat, size: uint32, resType: int32, id: int32, length: int32)
    requires at + 4 + size <= length <= |b| && size >= 8
    requires Word(b, at) == size && Signed(Word(b, at + 4)) == resType && Signed(Word(b, at + 8)) == id
    ensures L.RecordHeadAt(b, at, at, length) == L.Got(L.Record(size, resType, id, at + 4 + size))
  {
    hide Word;
  }

  lemma HalfIs(b: Text, at: nat, x: uint16)
    requires Holds(b, at, Le16(x))
    ensures at + 2 <= |b| && FromLe16(b[at..at + 2]) == x
  {
  }

  lemma EntryHolds(b: Text, at: nat, t: Text)
    requires |t| + 1 < 0x1_0000 && Holds(b, at, Entry(t, true))
    ensures at + 2 + |t| + 1 <= |b| && FromLe16(b[at..at + 2]) == |t| + 1
    ensures b[at + 2..at + 2 + |t| + 1] == t + [0]
  {
    assert Entry(t, true) == Le16(|t| + 1) + (t + [0]);
    HoldsBoth(b, at, Le16(|t| + 1), t + [0]);
    HalfIs(b, at, |t| + 1);
    hide Le16, FromLe16;
  }

  lemma {:induction false} CutAtNul(t: Text)
    ensures L.UpToNul(t + [0]) == L.UpToNul(t)
  {
    if t != [] {
      assert (t + [0])[1..] == t[1..] + [0];
      CutAtNul(t[1..]);
    }
  }

  lemma ReadBody(b: Text, at: nat, item: Item)
    requires FitsRecord(item) && at + 12 <= |b| && Holds(b, at + 12, Payload(item))
    ensures var name := GetIdName(item.name, item.resType);
      L.ValueAndNameAt(b, at, 8 + |Payload(item)|)
      == L.Got(L.Body(item.data + [0], L.UpToNul(name), at + 12 + |Payload(item)|))
  {
    hide *;
    var v, n := item.data, GetIdName(item.name, item.resType);
    PayloadIs(item);
    FitsIs(item);
    HoldsBoth(b, at + 12, Entry(v, true), Entry(n, true));
    EntryHolds(b, at + 12, v);
    EntryHolds(b, at + 15 + |v|, n);
    CutAtNul(n);
    BodyIs(b, at, 8 + |Payload(item)|, v + [0], n + [0]);
  }

  lemma FitsIs(item: Item)
    ensures FitsRecord(item) <==> |item.data| + 3 + |GetIdName(item.name, item.resType)| + 3 <= 0xffff
  {
    hide GetIdName;
  }

  lemma BodyIs(b: Text, at: nat, size: uint32, v: Text, n: Text)
    requires |v| + |n| + 4 <= size && |v| < 0x1_0000 && |n| < 0x1_0000 && 0 in n
    requires at + 16 + |v| + |n| <= |b|
    requires FromLe16(b[at + 12..at + 14]) == |v| && b[at + 14..at + 14 + |v|] == v
    requires FromLe16(b[at + 14 + |v|..at + 16 + |v|]) == |n|
    requires b[at + 16 + |v|..at + 16 + |v| + |n|] == n
    ensures L.ValueAndNameAt(b, at, size) == L.Got(L.Body(v, L.UpToNul(n), at + 16 + |v| + |n|))
  {
    hide FromLe16, L.UpToNul;
  }

  // ------------------------------------------------------------ the round trip

  // The item a row comes back as: its id name up to a NUL, its limit key's first row's params, and one NUL more.
  function Restored(item: Item, ps: seq<KeyParam>): Item {
    var name := L.UpToNul(GetIdName(item.name, item.resType));
    Item(name, AsBytes(LimitKeys.Printed(ps)), [], item.resType, ps, item.data + [0])
  }

  ghost function RestoredAt(configs: seq<Config>, k: nat): Item
    requires Filled(configs) && k < |All(configs)|
  {
    GroupInRange(configs, k);
    Restored(All(configs)[k].row.resourceItem, KeyParams(configs[All(configs)[k].group]))
  }

  // The rows as they come back: each under its id, in the order they were written.
  ghost function Grouped(configs: seq<Config>, k: nat): map<int32, seq<Item>>
    requires Filled(configs) && k <= |All(configs)|
  {
    if k == 0 then map[] else L.Push(Grouped(configs, k - 1), All(configs)[k - 1].row.id, RestoredAt(configs, k - 1))
  }

  ghost predicate AllKnown(configs: seq<Config>) {
    forall k :: 0 <= k < |All(configs)| ==> KnownType(All(configs)[k].row.resourceItem.resType)
  }

  ghost predicate AllFit(configs: seq<Config>, n: nat)
    requires n <= |All(configs)|
  {
    forall k :: 0 <= k < n ==> FitsRecord(All(configs)[k].row.resourceItem)
  }

  ghost function RecordsRead(configs: seq<Config>, k: nat): L.Records
    requires Filled(configs) && k <= |All(configs)| && Short(configs)
  {
    ShortBounds(configs, 0, k);
    L.Records(RecordAt(configs, k), RecordAt(configs, k), Grouped(configs, k))
  }

  lemma RecordsReadIs(configs: seq<Config>, k: nat)
    requires Filled(configs) && k <= |All(configs)| && Short(configs)
    ensures RecordAt(configs, k) <= RecordAt(configs, |All(configs)|) < 0x8000_0000
    ensures RecordsRead(configs, k) == L.Records(RecordAt(configs, k), RecordAt(configs, k), Grouped(configs, k))
  {
    ShortBounds(configs, 0, k);
    hide RecordAt, Grouped, All;
  }

  lemma RecordFromIs(b: Text, k: L.Keys, ids: L.Ids, s: L.Records, head: L.Record, body: L.Body, ps: seq<KeyParam>,
                     length: int32)
    requires s.at <= 0x7fff_ffff - 12 && L.RecordHeadAt(b, s.at, s.pos, length) == L.Got(head)
    requires s.at + 12 <= |b| && L.ValueAndNameAt(b, s.at, head.size) == L.Got(body)
    requires L.KeyParamsAt(k, ids, s.at, head.id) == Some(ps) && KnownType(head.resType)
    ensures L.RecordFrom(b, k, ids, s, length)
            == L.Got(L.Records(body.at, head.pos, L.Push(s.items, head.id,
                 Item(body.name, AsBytes(LimitKeys.Printed(ps)), [], head.resType, ps, body.data))))
  {
    hide L.RecordHeadAt, L.ValueAndNameAt, L.KeyParamsAt, L.Push, LimitKeys.Printed, KnownType;
  }

  lemma GroupedStep(configs: seq<Config>, k: nat)
    requires Filled(configs) && k < |All(configs)|
    ensures All(configs)[k].group < |configs| && configs[All(configs)[k].group] != []
    ensures var row, g := All(configs)[k].row, All(configs)[k].group;
      var name := L.UpToNul(GetIdName(row.resourceItem.name, row.resourceItem.resType));
      var ps := KeyParams(configs[g]);
      var item := Item(name, AsBytes(LimitKeys.Printed(ps)), [], row.resourceItem.resType, ps, row.resourceItem.data + [0]);
      && RestoredAt(configs, k) == item
      && Grouped(configs, k + 1) == L.Push(Grouped(configs, k), row.id, item)
  {
    GroupInRange(configs, k);
    FilledAt(configs, All(configs)[k].group);
    hide All, KeyParams, LimitKeys.Printed, L.UpToNul, GetIdName, L.Push, Filled;
  }

  lemma RecordEnds(configs: seq<Config>, k: nat)
    requires Filled(configs) && k < |All(configs)|
    ensures RecordAt(configs, k + 1) == RecordAt(configs, k) + |Record(All(configs)[k].row)|
    ensures |Record(All(configs)[k].row)| == 12 + |Payload(All(configs)[k].row.resourceItem)|
  {
    PositionSums(configs, 0, k);
    PositionSums(configs, 0, k + 1);
    SumStep(RecordSizes(All(configs)), k);
    hide Sum, All, IdsAt, Payload, RecordAt;
  }

  lemma KnownAt(configs: seq<Config>, k: nat)
    requires AllKnown(configs) && k < |All(configs)|
    ensures KnownType(All(configs)[k].row.resourceItem.resType)
  {
    hide All, KnownType;
  }

  lemma ReadRecordAt(configs: seq<Config>, b: Text, k: nat, length: int32)
    requires Filled(configs) && DistinctIds(configs) && Short(configs) && AllKnown(configs) && b == Image(configs)
    requires RecordAt(configs, |All(configs)|) == length == |b| && k < |All(configs)|
    requires FitsRecord(All(configs)[k].row.resourceItem)
    ensures L.RecordFrom(b, KeysRead(configs, |configs|), IdsRead(configs, |configs|), RecordsRead(configs, k), length)
            == L.Got(RecordsRead(configs, k + 1))
  {
    hide *;
    RecordsReadIs(configs, k);
    RecordsReadIs(configs, k + 1);
    RecordStands(configs, k);
    RecordEnds(configs, k);
    var at, row := RecordAt(configs, k), All(configs)[k].row;
    var item := row.resourceItem;
    ReadHead(b, at, row, length);
    ReadBody(b, at, item);
    TablesLead(configs, k);
    GroupedStep(configs, k);
    KnownAt(configs, k);
    var head := L.Record(8 + |Payload(item)|, item.resType, row.id, at + |Record(row)|);
    var name := L.UpToNul(GetIdName(item.name, item.resType));
    var body := L.Body(item.data + [0], name, at + 12 + |Payload(item)|);
    RecordFromIs(b, KeysRead(configs, |configs|), IdsRead(configs, |configs|), RecordsRead(configs, k), head, body,
                 KeyParams(configs[All(configs)[k].group]), length);
  }

  lemma {:induction false} ReadRecords(configs: seq<Config>, b: Text, k: nat, n: nat, length: int32)
    requires Filled(configs) && DistinctIds(configs) && Short(configs) && AllKnown(configs) && b == Image(configs)
    requires RecordAt(configs, |All(configs)|) == length == |b| && k <= n <= |All(configs)| && AllFit(configs, n)
    ensures RecordsRead(configs, k).at <= length && RecordsRead(configs, n).at <= length
    ensures L.RecordsFrom(b, KeysRead(configs, |configs|), IdsRead(configs, |configs|), RecordsRead(configs, k), length)
            == L.RecordsFrom(b, KeysRead(configs, |configs|), IdsRead(configs, |configs|), RecordsRead(configs, n), length)
    decreases n - k
  {
    hide *;
    RecordsReadIs(configs, k);
    RecordsReadIs(configs, n);
    if k < n {
      FitsAt(configs, n, k);
      ReadRecordAt(configs, b, k, length);
      RecordsApart(configs, k, |All(configs)|);
      RecordsReadIs(configs, k + 1);
      ReadRecords(configs, b, k + 1, n, length);
      RecordsFromStep(b, KeysRead(configs, |configs|), IdsRead(configs, |configs|), RecordsRead(configs, k),
                      RecordsRead(configs, k + 1), length);
    }
  }

  lemma FitsAt(configs: seq<Config>, n: nat, k: nat)
    requires k < n <= |All(configs)| && AllFit(configs, n)
    ensures FitsRecord(All(configs)[k].row.resourceItem)
  {
    hide All, FitsRecord;
  }

  lemma RecordsFromStep(b: Text, k: L.Keys, ids: L.Ids, s: L.Records, next: L.Records, length: int32)
    requires s.at < length <= |b| && L.RecordFrom(b, k, ids, s, length) == L.Got(next) && next.at <= |b|
    ensures L.RecordsFrom(b, k, ids, s, length) == L.RecordsFrom(b, k, ids, next, length)
  {
    hide L.RecordFrom;
  }

  lemma RecordsFromEnd(b: Text, k: L.Keys, ids: L.Ids, s: L.Records, length: int32)
    requires s.at == length == |b|
    ensures L.RecordsFrom(b, k, ids, s, length) == L.Got(s.items)
  {
  }

  lemma {:induction false} LoadedIs(b: Text, k: L.Keys, ids: L.Ids, count: uint32)
    requires 136 <= |b| < 0x8000_0000 && Word(b, 132) == count && k.at <= |b| && ids.at <= |b|
    requires L.KeysFrom(b, L.Keys(map[], 136), count, |b|) == L.Got(k)
    requires L.IdsFrom(b, L.Ids(map[], k.at), count, |b|) == L.Got(ids)
    ensures L.Loaded(b) == L.RecordsFrom(b, k, ids, L.Records(ids.at, ids.at, map[]), |b|)
  {
    hide L.KeysFrom, L.IdsFrom, L.RecordsFrom, Word;
  }

  lemma Starts(configs: seq<Config>)
    requires Filled(configs) && Short(configs)
    ensures KeysRead(configs, 0) == L.Keys(map[], 136)
    ensures IdsRead(configs, 0) == L.Ids(map[], KeysRead(configs, |configs|).at)
    ensures RecordsRead(configs, 0)
            == L.Records(IdsRead(configs, |configs|).at, IdsRead(configs, |configs|).at, map[])
    ensures |configs| < 0x8000_0000
  {
    CountBound(configs, |configs|);
    ShortBounds(configs, |configs|, 0);
    hide All, Filled;
  }

  lemma {:induction false} CountBound(configs: seq<Config>, n: nat)
    requires Filled(configs) && n <= |configs|
    ensures n <= KeysAt(configs, n)
  {
    hide KeysSizes;
    if n > 0 {
      CountBound(configs, n - 1);
      KeysAtStep(configs, n - 1);
      hide *;
    }
  }

  /** The tables of a written file, read back, lead to its records. */
  lemma ReadTables(configs: seq<Config>, b: Text)
    requires Filled(configs) && DistinctIds(configs) && b == Image(configs) && |b| < 0x8000_0000
    ensures Short(configs) && RecordAt(configs, |All(configs)|) == |b| && RecordsRead(configs, 0).at <= |b|
    ensures L.Loaded(b)
            == L.RecordsFrom(b, KeysRead(configs, |configs|), IdsRead(configs, |configs|), RecordsRead(configs, 0), |b|)
  {
    hide *;
    PredictedSize(configs);
    ShortIs(configs);
    Starts(configs);
    ShortBounds(configs, 0, 0);
    RecordsReadIs(configs, 0);
    KeysReadIs(configs, |configs|);
    IdsReadIs(configs, |configs|);
    HeaderStands(configs);
    NoWrap(|configs|);
    WordIs(b, 132, |configs|);
    ReadKeys(configs, b, 0, |b|);
    ReadIds(configs, b, 0, |b|);
    HeaderSize(configs);
    LoadedIs(b, KeysRead(configs, |configs|), IdsRead(configs, |configs|), |configs|);
  }

  lemma HeaderSize(configs: seq<Config>)
    requires Filled(configs)
    ensures |Image(configs)| >= 136 && KeysAt(configs, 0) == 136
  {
    ImageSize(configs);
    hide Image, Concat, KeysPieces, IdsPieces, Records, All;
  }

  /** Every row comes back under its id, in the order written; nothing is added or lost. */
  lemma RoundTrip(configs: seq<Config>)
    requires Filled(configs) && DistinctIds(configs) && |Image(configs)| < 0x8000_0000
    requires AllKnown(configs) && AllFit(configs, |All(configs)|)
    ensures L.Loaded(Image(configs)) == L.Got(Grouped(configs, |All(configs)|))
  {
    hide *;
    var b, n := Image(configs), |All(configs)|;
    ReadTables(configs, b);
    ReadRecords(configs, b, 0, n, |b|);
    RecordsReadIs(configs, n);
    RecordsFromEnd(b, KeysRead(configs, |configs|), IdsRead(configs, |configs|), RecordsRead(configs, n), |b|);
  }
}
