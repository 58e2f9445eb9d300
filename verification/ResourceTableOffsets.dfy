/** The positions added up before writing are where things stand in the file that is written. */
module ResourceTableOffsets {
  import opened Bytes
  import opened ResourceData
  import opened ResourceTables

  // No limit key has two rows of one id.
  predicate DistinctIds(configs: seq<Config>) {
    forall i :: 0 <= i < |configs| ==> RowsApart(configs[i])
  }

  predicate RowsApart(config: Config) {
    forall j, k :: 0 <= j < k < |config| ==> config[j].id != config[k].id
  }

  lemma {:induction false} IdsCount(config: Config)
    ensures |Ids(config)| <= |config|
    ensures |Ids(config)| == |config| <==> RowsApart(config)
  {
    if config == [] {
      assert Ids(config) == {};
    } else {
      var n := |config| - 1;
      var init, last := config[..n], config[n].id;
      IdsCount(init);
      assert Ids(config) == Ids(init) + {last} by {
        forall x | x in Ids(config) ensures x in Ids(init) + {last} {
          var j :| 0 <= j < |config| && config[j].id == x;
          if j < n { assert init[j].id == x; }
        }
        forall x | x in Ids(init) ensures x in Ids(config) {
          var j :| 0 <= j < n && init[j].id == x;
          assert config[j].id == x;
        }
      }
      LastIsNew(config);
    }
  }

  lemma LastIsNew(config: Config)
    requires config != []
    ensures var n := |config| - 1;
      RowsApart(config) <==> RowsApart(config[..n]) && config[n].id !in Ids(config[..n])
  {
    var n := |config| - 1;
    if RowsApart(config) {
      assert forall j :: 0 <= j < n ==> config[..n][j].id != config[n].id;
    } else {
      var j, k :| 0 <= j < k < |config| && config[j].id == config[k].id;
      if k < n {
        assert config[..n][j].id == config[..n][k].id;
      } else {
        assert config[..n][j].id == config[n].id;
      }
    }
  }

  lemma {:induction false} OffsetsFromRows(flat: seq<Placed>, at: nat, g: nat, n: nat, id: int32) returns (k: nat)
    requires n <= |flat| && id in Offsets(flat, at, g, n)
    ensures k < n && flat[k].group == g && flat[k].row.id == id
    ensures Offsets(flat, at, g, n)[id] == U32(at + Sum(RecordSizes(flat), k))
  {
    hide U32, Sum, RecordSizes;
    if flat[n - 1].group == g && flat[n - 1].row.id == id {
      k := n - 1;
    } else {
      k := OffsetsFromRows(flat, at, g, n - 1, id);
    }
  }

  lemma IdTableKeys(configs: seq<Config>, g: nat)
    requires Filled(configs) && g < |configs|
    ensures IdTable(configs, g).Keys == Ids(configs[g])
  {
    ZerosCovered(configs, g);
    forall id | id in IdTable(configs, g) ensures id in Ids(configs[g]) {
      var k := OffsetsFromRows(All(configs), IdsAt(configs, |configs|), g, |All(configs)|, id);
      var j := FlatIs(configs, |configs|, k);
      assert configs[g][j].id == id;
    }
    forall id | id in Ids(configs[g]) ensures id in IdTable(configs, g) {
      assert id in Zeros(configs[g]) + IdTable(configs, g);
    }
  }

  lemma IdTableSize(configs: seq<Config>, g: nat)
    requires Filled(configs) && g < |configs|
    ensures |IdTable(configs, g).Keys| <= |configs[g]|
    ensures |IdTable(configs, g).Keys| == |configs[g]| <==> RowsApart(configs[g])
  {
    IdTableKeys(configs, g);
    IdsCount(configs[g]);
  }

  // ------------------------------------------------------------ sizes

  lemma {:induction false} SumCompare(a: seq<nat>, b: seq<nat>, n: nat)
    requires n <= |a| == |b| && forall i :: 0 <= i < |a| ==> a[i] <= b[i]
    ensures Sum(a, n) <= Sum(b, n)
    ensures Sum(a, n) == Sum(b, n) <==> forall i :: 0 <= i < n ==> a[i] == b[i]
  {
    if n > 0 { SumCompare(a, b, n - 1); }
  }

  // What the id sets really take: eight bytes for every different id.
  ghost function WrittenIdsSizes(configs: seq<Config>): (sizes: seq<nat>)
    requires Filled(configs)
    ensures |sizes| == |configs|
  {
    seq(|configs|, i requires 0 <= i < |configs| => 8 + 8 * |IdTable(configs, i).Keys|)
  }

  lemma {:induction false} PairsSize(pairs: seq<Text>, n: nat)
    requires n <= |pairs| && forall i :: 0 <= i < |pairs| ==> |pairs[i]| == 8
    ensures |Concat(pairs, n)| == 8 * n
  {
    if n > 0 { PairsSize(pairs, n - 1); }
  }

  lemma IdsEntrySize(idCount: nat, m: map<int32, uint32>)
    ensures |IdsEntry(idCount, m)| == 8 + 8 * |m.Keys|
  {
    hide Le32, Pairs;
    PairsSize(Pairs(m), |Pairs(m)|);
  }

  lemma PartSizes(configs: seq<Config>)
    requires Filled(configs)
    ensures forall i :: 0 <= i <= |configs| ==>
      && |Concat(KeysPieces(configs), i)| == Sum(KeysSizes(configs), i)
      && |Concat(IdsPieces(configs), i)| == Sum(WrittenIdsSizes(configs), i)
    ensures forall k :: 0 <= k <= |All(configs)| ==>
      |Concat(Records(All(configs)), k)| == Sum(RecordSizes(All(configs)), k)
  {
    hide KeysEntry, IdsEntry, Record, IdsAt, IdTable, Payload, All, Sum, Concat, U32;
    forall i | 0 <= i < |configs|
      ensures |IdsPieces(configs)[i]| == WrittenIdsSizes(configs)[i]
    {
      IdsEntrySize(|configs[i]|, IdTable(configs, i));
    }
    forall i | 0 <= i <= |configs|
      ensures |Concat(KeysPieces(configs), i)| == Sum(KeysSizes(configs), i)
      ensures |Concat(IdsPieces(configs), i)| == Sum(WrittenIdsSizes(configs), i)
    {
      ConcatSize(KeysPieces(configs), KeysSizes(configs), i);
      ConcatSize(IdsPieces(configs), WrittenIdsSizes(configs), i);
    }
    forall k | 0 <= k <= |All(configs)|
      ensures |Concat(Records(All(configs)), k)| == Sum(RecordSizes(All(configs)), k)
    {
      ConcatSize(Records(All(configs)), RecordSizes(All(configs)), k);
    }
  }

  lemma IdsSizesCompare(configs: seq<Config>, n: nat)
    requires Filled(configs) && n <= |configs|
    ensures Sum(WrittenIdsSizes(configs), n) <= Sum(IdsSizes(configs), n)
    ensures Sum(WrittenIdsSizes(configs), n) == Sum(IdsSizes(configs), n) <==>
            forall i :: 0 <= i < n ==> RowsApart(configs[i])
  {
    hide Sum, RowsApart, IdTable;
    forall i | 0 <= i < |configs|
      ensures WrittenIdsSizes(configs)[i] <= IdsSizes(configs)[i]
      ensures WrittenIdsSizes(configs)[i] == IdsSizes(configs)[i] <==> RowsApart(configs[i])
    {
      IdTableSize(configs, i);
    }
    SumCompare(WrittenIdsSizes(configs), IdsSizes(configs), n);
  }

  lemma DistinctIdsIs(configs: seq<Config>)
    ensures DistinctIds(configs) <==> forall i :: 0 <= i < |configs| ==> RowsApart(configs[i])
  {
    hide RowsApart;
  }

  lemma PositionSums(configs: seq<Config>, i: nat, k: nat)
    requires Filled(configs) && i <= |configs| && k <= |All(configs)|
    ensures KeysAt(configs, i) == HEADER + Sum(KeysSizes(configs), i)
    ensures IdsAt(configs, i) == KeysAt(configs, |configs|) + Sum(IdsSizes(configs), i)
    ensures RecordAt(configs, k) == IdsAt(configs, |configs|) + Sum(RecordSizes(All(configs)), k)
  {
  }

  lemma ImageSize(configs: seq<Config>)
    requires Filled(configs)
    ensures |Image(configs)| == HEADER + |Concat(KeysPieces(configs), |configs|)|
      + |Concat(IdsPieces(configs), |configs|)| + |Concat(Records(All(configs)), |All(configs)|)|
  {
    hide Concat, KeysPieces, IdsPieces, Records, Header, All;
  }

  /**
   The predicted size is the number of bytes written exactly when no limit key has two rows of one
   id; otherwise fewer bytes are written.
   */
  lemma PredictedSize(configs: seq<Config>)
    requires Filled(configs)
    ensures |Image(configs)| <= RecordAt(configs, |All(configs)|)
    ensures |Image(configs)| == RecordAt(configs, |All(configs)|) <==> DistinctIds(configs)
  {
    hide *;
    DistinctIdsIs(configs);
    PartSizes(configs);
    ImageSize(configs);
    IdsSizesCompare(configs, |configs|);
    PositionSums(configs, |configs|, |All(configs)|);
  }

  // ------------------------------------------------------------ where things stand

  lemma FourStand(p: Text, q: Text, r: Text, s: Text)
    ensures var b := p + (q + (r + s));
      && Holds(b, 0, p) && Holds(b, |p|, q) && Holds(b, |p| + |q|, r) && Holds(b, |p| + |q| + |r|, s)
  {
    hide *;
    var b := p + (q + (r + s));
    HoldsWhole(b);
    HoldsFour(b, 0, p, q, r, s);
  }

  lemma PartsStand(configs: seq<Config>)
    requires Filled(configs)
    ensures var keys, ids := Concat(KeysPieces(configs), |configs|), Concat(IdsPieces(configs), |configs|);
      var b := Image(configs);
      && Holds(b, 0, Header(configs)) && Holds(b, HEADER, keys) && Holds(b, HEADER + |keys|, ids)
      && Holds(b, HEADER + |keys| + |ids|, Concat(Records(All(configs)), |All(configs)|))
  {
    hide Concat, KeysPieces, IdsPieces, Records, Header, All, Holds;
    FourStand(Header(configs), Concat(KeysPieces(configs), |configs|), Concat(IdsPieces(configs), |configs|),
              Concat(Records(All(configs)), |All(configs)|));
  }

  // The position of id set i in the file.
  ghost function IdsStandAt(configs: seq<Config>, i: nat): nat
    requires Filled(configs) && i <= |configs|
  {
    KeysAt(configs, |configs|) + Sum(WrittenIdsSizes(configs), i)
  }

  lemma PiecesAre(configs: seq<Config>, i: nat)
    requires Filled(configs) && i < |configs|
    ensures KeysPieces(configs)[i] == KeysEntry(U32(IdsAt(configs, i)), KeyParams(configs[i]))
    ensures IdsPieces(configs)[i] == IdsEntry(|configs[i]|, IdTable(configs, i))
  {
  }

  lemma EntryStands(configs: seq<Config>, i: nat)
    requires Filled(configs) && i < |configs|
    ensures Holds(Image(configs), KeysAt(configs, i), KeysEntry(U32(IdsAt(configs, i)), KeyParams(configs[i])))
    ensures Holds(Image(configs), IdsStandAt(configs, i), IdsEntry(|configs[i]|, IdTable(configs, i)))
  {
    hide Concat, KeysPieces, IdsPieces, WrittenIdsSizes, Records, Header, All, Holds, IdTable, Image, KeysEntry, IdsEntry,
      IdsAt, Sum, U32, KeyParams, KeysSizes;
    PartsStand(configs);
    PartSizes(configs);
    ConcatHolds(Image(configs), HEADER, KeysPieces(configs), |configs|, i);
    ConcatHolds(Image(configs), KeysAt(configs, |configs|), IdsPieces(configs), |configs|, i);
    PiecesAre(configs, i);
  }

  lemma {:induction false} KeysStart(p: uint32, ps: seq<KeyParam>)
    ensures Holds(KeysEntry(p, ps), 0, KEYS) && Holds(KeysEntry(p, ps), 4, Le32(p))
    ensures Holds(KeysEntry(p, ps), 8, Le32(U32(|ps|))) && Holds(KeysEntry(p, ps), 12, Params(ps))
  {
    hide Params, Le32, Holds, U32;
    FourStand(KEYS, Le32(p), Le32(U32(|ps|)), Params(ps));
  }

  lemma IdsStart(idCount: nat, m: map<int32, uint32>)
    ensures var e := IdsEntry(idCount, m);
      && Holds(e, 0, IDSS) && Holds(e, 4, Le32(U32(idCount))) && Holds(e, 8, Concat(Pairs(m), |Pairs(m)|))
  {
    hide Concat, Pairs, Le32, Holds, U32;
    var pairs := Concat(Pairs(m), |Pairs(m)|);
    FourStand(IDSS, Le32(U32(idCount)), pairs, []);
    assert pairs + [] == pairs;
  }

  lemma HoldsWithin(b: Text, at: nat, e: Text, k: nat, piece: Text)
    requires Holds(b, at, e) && Holds(e, k, piece)
    ensures Holds(b, at + k, piece)
  {
    assert e == e[..k] + (e[k..k + |piece|] + e[k + |piece|..]);
    HoldsBoth(b, at, e[..k], e[k..k + |piece|] + e[k + |piece|..]);
    HoldsBoth(b, at + k, e[k..k + |piece|], e[k + |piece|..]);
  }

  lemma FilledAt(configs: seq<Config>, i: nat)
    requires Filled(configs) && i < |configs|
    ensures configs[i] != []
  {
  }

  lemma KeysEntryStands(configs: seq<Config>, i: nat)
    requires Filled(configs) && i < |configs|
    ensures var b, at, ps := Image(configs), KeysAt(configs, i), KeyParams(configs[i]);
      && Holds(b, at, KEYS) && Holds(b, at + 4, Le32(U32(IdsAt(configs, i))))
      && Holds(b, at + 8, Le32(U32(|ps|))) && Holds(b, at + 12, Params(ps))
  {
    hide *;
    FilledAt(configs, i);
    var b, at, ps := Image(configs), KeysAt(configs, i), KeyParams(configs[i]);
    var p := U32(IdsAt(configs, i));
    EntryStands(configs, i);
    KeysStart(p, ps);
    HoldsWithin(b, at, KeysEntry(p, ps), 0, KEYS);
    HoldsWithin(b, at, KeysEntry(p, ps), 4, Le32(p));
    HoldsWithin(b, at, KeysEntry(p, ps), 8, Le32(U32(|ps|)));
    HoldsWithin(b, at, KeysEntry(p, ps), 12, Params(ps));
  }

  lemma IdsEntryStands(configs: seq<Config>, i: nat)
    requires Filled(configs) && i < |configs|
    ensures var b, at, m := Image(configs), IdsStandAt(configs, i), IdTable(configs, i);
      && Holds(b, at, IDSS) && Holds(b, at + 4, Le32(U32(|configs[i]|)))
      && Holds(b, at + 8, Concat(Pairs(m), |Pairs(m)|))
  {
    hide *;
    var b, at, m := Image(configs), IdsStandAt(configs, i), IdTable(configs, i);
    EntryStands(configs, i);
    IdsStart(|configs[i]|, m);
    var e := IdsEntry(|configs[i]|, m);
    HoldsWithin(b, at, e, 0, IDSS);
    HoldsWithin(b, at, e, 4, Le32(U32(|configs[i]|)));
    HoldsWithin(b, at, e, 8, Concat(Pairs(m), |Pairs(m)|));
  }

  lemma IdsStandWhere(configs: seq<Config>, i: nat)
    requires Filled(configs) && i <= |configs|
    ensures IdsStandAt(configs, i) == KeysAt(configs, |configs|) + Sum(WrittenIdsSizes(configs), i)
  {
  }

  /**
   The position stored in a KEYS entry is where its own id set stands, tag first, exactly when no
   earlier limit key has two rows of one id.
   */
  lemma KeysOffsetIsReal(configs: seq<Config>, i: nat)
    requires Filled(configs) && i < |configs|
    ensures Holds(Image(configs), KeysAt(configs, i) + 4, Le32(U32(IdsAt(configs, i))))
    ensures Holds(Image(configs), IdsStandAt(configs, i), IDSS)
    ensures Holds(Image(configs), IdsStandAt(configs, i) + 4, Le32(U32(|configs[i]|)))
    ensures IdsAt(configs, i) == IdsStandAt(configs, i) <==> forall j :: 0 <= j < i ==> RowsApart(configs[j])
  {
    hide *;
    KeysEntryStands(configs, i);
    IdsEntryStands(configs, i);
    IdsSizesCompare(configs, i);
    PositionSums(configs, i, 0);
    IdsStandWhere(configs, i);
  }

  lemma PairStands(b: Text, at: nat, m: map<int32, uint32>, q: nat)
    requires q < |Pairs(m)| && Holds(b, at, Concat(Pairs(m), |Pairs(m)|))
    ensures Ascending(m.Keys)[q] in m
    ensures Holds(b, at + 8 * q, I32(Ascending(m.Keys)[q])) && Holds(b, at + 8 * q + 4, Le32(m[Ascending(m.Keys)[q]]))
  {
    hide Concat, Pairs, Ascending, Le32, I32, Holds;
    ConcatHolds(b, at, Pairs(m), |Pairs(m)|, q);
    PairsSize(Pairs(m), q);
    PairsIndexed(m, q);
    var id := Ascending(m.Keys)[q];
    HoldsBoth(b, at + 8 * q, I32(id), Le32(m[id]));
  }

  lemma RecordStands(configs: seq<Config>, k: nat)
    requires Filled(configs) && DistinctIds(configs) && k < |All(configs)|
    ensures Holds(Image(configs), RecordAt(configs, k), Record(All(configs)[k].row))
  {
    hide Concat, KeysPieces, IdsPieces, Header, All, Holds, IdTable, Image, Sum, KeysSizes, IdsSizes, RecordSizes,
      WrittenIdsSizes, Record, RowsApart;
    PartsStand(configs);
    PartSizes(configs);
    IdsSizesCompare(configs, |configs|);
    PositionSums(configs, |configs|, k);
    ConcatHolds(Image(configs), IdsAt(configs, |configs|), Records(All(configs)), |All(configs)|, k);
  }

  lemma HeaderStands(configs: seq<Config>)
    requires Filled(configs)
    ensures Holds(Image(configs), 128, Le32(U32(RecordAt(configs, |All(configs)|))))
    ensures Holds(Image(configs), 132, Le32(U32(|configs|)))
  {
    hide Concat, KeysPieces, IdsPieces, Records, All, Holds, Image, Le32, U32, Version, RecordAt;
    PartsStand(configs);
    var size, count := Le32(U32(RecordAt(configs, |All(configs)|))), Le32(U32(|configs|));
    HoldsBoth(Image(configs), 0, Version(), size + count);
    HoldsBoth(Image(configs), 128, size, count);
  }

  lemma SameRow(configs: seq<Config>, k: nat, k2: nat)
    requires DistinctIds(configs) && k < |All(configs)| && k2 < |All(configs)|
    requires All(configs)[k].group == All(configs)[k2].group && All(configs)[k].row.id == All(configs)[k2].row.id
    ensures k == k2 && All(configs)[k].group < |configs|
  {
    var j := FlatIs(configs, |configs|, k);
    var j2 := FlatIs(configs, |configs|, k2);
    assert RowsApart(configs[All(configs)[k].group]);
    assert j == j2;
  }

  lemma IdTableIs(configs: seq<Config>, g: nat)
    requires Filled(configs)
    ensures IdTable(configs, g) == Offsets(All(configs), IdsAt(configs, |configs|), g, |All(configs)|)
  {
  }

  lemma OffsetIs(configs: seq<Config>, k: nat)
    requires Filled(configs) && DistinctIds(configs) && k < |All(configs)|
    ensures All(configs)[k].group < |configs|
    ensures var p := All(configs)[k];
      p.row.id in IdTable(configs, p.group) && IdTable(configs, p.group)[p.row.id] == U32(RecordAt(configs, k))
  {
    hide *;
    var flat, at := All(configs), IdsAt(configs, |configs|);
    var g, id := flat[k].group, flat[k].row.id;
    IdTableIs(configs, g);
    OffsetsHold(flat, at, g, |flat|, k);
    var k2 := OffsetsFromRows(flat, at, g, |flat|, id);
    SameRow(configs, k, k2);
    RecordAtIs(configs, k);
  }

  lemma KeyOrder(m: map<int32, uint32>, id: int32) returns (q: nat)
    requires id in m
    ensures q < |Pairs(m)| && Ascending(m.Keys)[q] == id && |Pairs(m)| == |m.Keys|
  {
    q :| 0 <= q < |Ascending(m.Keys)| && Ascending(m.Keys)[q] == id;
  }

  lemma AllDistinct(configs: seq<Config>, i: nat)
    requires DistinctIds(configs) && i < |configs|
    ensures RowsApart(configs[i]) && forall g :: 0 <= g < i ==> RowsApart(configs[g])
  {
    hide RowsApart;
  }
}
