/**
 The resources.index file as it is written: a header, one KEYS entry and one IDSS entry per limit
 key, and the records. One pass adds up every position, a second pass writes.
 */
module ResourceTables {
  import opened Bytes
  import opened ResourceData
  import opened StringCodec

  const HEADER := 136
  const KEYS := AsBytes("KEYS")
  const IDSS := AsBytes("IDSS")

  function Version(): (v: Text)
    ensures |v| == 128
  {
    AsBytes("Restool 2.010") + seq(115, i => 0)
  }

  datatype TableData = TableData(id: int32, resourceItem: Item)

  // The rows of one limit key. A file is made from a list of them, in limit key order.
  type Config = seq<TableData>

  // A limit key enters the table with its first row.
  predicate Filled(configs: seq<Config>) {
    forall i :: 0 <= i < |configs| ==> configs[i] != []
  }

  function KeyParams(config: Config): seq<KeyParam>
    requires config != []
  {
    config[0].resourceItem.keyParams
  }

  datatype LimitKeyConfig = LimitKeyConfig(offset: uint32, keyCount: uint32, data: seq<int32>)
  datatype IdSet = IdSet(idCount: uint32, data: map<int32, uint32>)

  // ------------------------------------------------------------ positions

  function KeysSizes(configs: seq<Config>): seq<nat>
    requires Filled(configs)
  {
    seq(|configs|, i requires 0 <= i < |configs| => 12 + 8 * |KeyParams(configs[i])|)
  }

  function IdsSizes(configs: seq<Config>): seq<nat> {
    seq(|configs|, i requires 0 <= i < |configs| => 8 + 8 * |configs[i]|)
  }

  function KeysAt(configs: seq<Config>, i: nat): nat
    requires Filled(configs) && i <= |configs|
  {
    HEADER + Sum(KeysSizes(configs), i)
  }

  function IdsAt(configs: seq<Config>, i: nat): nat
    requires Filled(configs) && i <= |configs|
  {
    KeysAt(configs, |configs|) + Sum(IdsSizes(configs), i)
  }

  // A row with the number of its limit key.
  datatype Placed = Placed(group: nat, row: TableData)

  function Flat(configs: seq<Config>, n: nat): seq<Placed>
    requires n <= |configs|
  {
    if n == 0 then []
    else
      var last := configs[n - 1];
      Flat(configs, n - 1) + seq(|last|, j requires 0 <= j < |last| => Placed(n - 1, last[j]))
  }

  function All(configs: seq<Config>): seq<Placed> { Flat(configs, |configs|) }

  // The value and the id name, or nothing at all when they are too long.
  function Payload(item: Item): Text {
    var contents := [item.data, GetIdName(item.name, item.resType)];
    if Total(contents) > LIMIT then [] else Entries(contents, true)
  }

  function Record(row: TableData): (r: Text)
    ensures |r| == 12 + |Payload(row.resourceItem)|
  {
    var data := Payload(row.resourceItem);
    Le32(U32(8 + |data|)) + (I32(row.resourceItem.resType) + (I32(row.id) + data))
  }

  function Records(flat: seq<Placed>): (r: seq<Text>)
    ensures |r| == |flat|
  {
    seq(|flat|, k requires 0 <= k < |flat| => Record(flat[k].row))
  }

  function RecordSizes(flat: seq<Placed>): (r: seq<nat>)
    ensures |r| == |flat|
  {
    seq(|flat|, k requires 0 <= k < |flat| => 12 + |Payload(flat[k].row.resourceItem)|)
  }

  function RecordAt(configs: seq<Config>, k: nat): nat
    requires Filled(configs) && k <= |All(configs)|
  {
    IdsAt(configs, |configs|) + Sum(RecordSizes(All(configs)), k)
  }

  // The id set of limit key g once the first k records are placed, the first of them at position at.
  function Offsets(flat: seq<Placed>, at: nat, g: nat, k: nat): map<int32, uint32>
    requires k <= |flat|
  {
    if k == 0 then map[]
    else
      var m := Offsets(flat, at, g, k - 1);
      if flat[k - 1].group == g then m[flat[k - 1].row.id := U32(at + Sum(RecordSizes(flat), k - 1))] else m
  }

  function IdTable(configs: seq<Config>, g: nat): map<int32, uint32>
    requires Filled(configs)
  {
    Offsets(All(configs), IdsAt(configs, |configs|), g, |All(configs)|)
  }

  // ------------------------------------------------------------ the image

  function KeysEntry(offset: uint32, ps: seq<KeyParam>): (b: Text)
    ensures |b| == 12 + 8 * |ps|
  {
    KEYS + (Le32(offset) + (Le32(U32(|ps|)) + Params(ps)))
  }

  ghost predicate Least(s: set<int32>, m: int32) {
    m in s && forall x :: x in s ==> m <= x
  }

  lemma LeastExists(s: set<int32>) returns (m: int32)
    requires s != {}
    ensures Least(s, m)
  {
    m :| m in s;
    var rest := s - {m};
    if rest != {} {
      var n := LeastExists(rest);
      assert forall x :: x in s ==> x == m || x in rest;
      m := if m < n then m else n;
    } else {
      assert forall x :: x in s ==> x == m || x in rest;
    }
  }

  ghost function First(s: set<int32>): (m: int32)
    requires s != {}
    ensures Least(s, m)
  {
    assert exists m :: Least(s, m) by {
      var m := LeastExists(s);
    }
    var m :| Least(s, m);
    m
  }

  lemma PutFirst(s: set<int32>, m: int32, rest: seq<int32>)
    requires Least(s, m) && |rest| == |s - {m}| && forall x :: x in rest <==> x in s - {m}
    requires forall i, j :: 0 <= i < j < |rest| ==> rest[i] < rest[j]
    ensures |[m] + rest| == |s| && forall x :: x in [m] + rest <==> x in s
    ensures forall i, j :: 0 <= i < j < |[m] + rest| ==> ([m] + rest)[i] < ([m] + rest)[j]
  {
    forall i, j | 0 <= i < j < |[m] + rest| ensures ([m] + rest)[i] < ([m] + rest)[j] {
      assert rest[j - 1] in rest;
    }
  }

  // The order a std::map runs through its keys.
  ghost function Ascending(s: set<int32>): (ids: seq<int32>)
    ensures |ids| == |s| && forall x :: x in ids <==> x in s
    ensures forall i, j :: 0 <= i < j < |ids| ==> ids[i] < ids[j]
  {
    if s == {} then []
    else
      PutFirst(s, First(s), Ascending(s - {First(s)}));
      [First(s)] + Ascending(s - {First(s)})
  }

  function Pair(m: map<int32, uint32>, id: int32): (b: Text)
    requires id in m
    ensures |b| == 8
  {
    I32(id) + Le32(m[id])
  }

  function PairsOf(m: map<int32, uint32>, ids: seq<int32>): (p: seq<Text>)
    requires forall i :: 0 <= i < |ids| ==> ids[i] in m
    ensures |p| == |ids| && forall i :: 0 <= i < |p| ==> |p[i]| == 8
  {
    seq(|ids|, i requires 0 <= i < |ids| => Pair(m, ids[i]))
  }

  ghost function Pairs(m: map<int32, uint32>): (p: seq<Text>)
    ensures |p| == |m.Keys| && forall i :: 0 <= i < |p| ==> |p[i]| == 8
  {
    PairsOf(m, Ascending(m.Keys))
  }

  ghost function IdsEntry(idCount: nat, m: map<int32, uint32>): Text {
    IDSS + (Le32(U32(idCount)) + Concat(Pairs(m), |Pairs(m)|))
  }

  function KeysPieces(configs: seq<Config>): (p: seq<Text>)
    requires Filled(configs)
    ensures |p| == |configs|
  {
    seq(|configs|, i requires 0 <= i < |configs| => KeysEntry(U32(IdsAt(configs, i)), KeyParams(configs[i])))
  }

  ghost function IdsPieces(configs: seq<Config>): (p: seq<Text>)
    requires Filled(configs)
    ensures |p| == |configs|
  {
    seq(|configs|, i requires 0 <= i < |configs| => IdsEntry(|configs[i]|, IdTable(configs, i)))
  }

  function Header(configs: seq<Config>): (h: Text)
    requires Filled(configs)
    ensures |h| == HEADER
  {
    Version() + (Le32(U32(RecordAt(configs, |All(configs)|))) + Le32(U32(|configs|)))
  }

  ghost function Image(configs: seq<Config>): Text
    requires Filled(configs)
  {
    Header(configs) + (Concat(KeysPieces(configs), |configs|)
      + (Concat(IdsPieces(configs), |configs|) + Concat(Records(All(configs)), |All(configs)|)))
  }

  // ------------------------------------------------------------ writing

  function Ids(config: Config): set<int32> { set j | 0 <= j < |config| :: config[j].id }

  // Before the records are placed every id stands at 0.
  function Zeros(config: Config): map<int32, uint32> { map id | id in Ids(config) :: 0 }

  function Words(ps: seq<KeyParam>): seq<int32> {
    if ps == [] then [] else Words(ps[..|ps| - 1]) + [ps[|ps| - 1].keyType, Signed(ps[|ps| - 1].value)]
  }

  // The KEYS entries when the first i of them know where their id sets stand.
  predicate Prepared(configs: seq<Config>, cs: seq<LimitKeyConfig>, i: nat)
    requires Filled(configs)
  {
    |cs| == |configs| && forall k :: 0 <= k < |configs| ==>
      cs[k] == LimitKeyConfig(if k < i then U32(IdsAt(configs, k)) else 0,
                              U32(|KeyParams(configs[k])|), Words(KeyParams(configs[k])))
  }

  // The id sets of the first i limit keys, no record placed.
  predicate Unplaced(configs: seq<Config>, idSets: seq<IdSet>, i: nat) {
    i == |idSets| <= |configs| && forall k :: 0 <= k < i ==> idSets[k] == IdSet(U32(|configs[k]|), Zeros(configs[k]))
  }

  lemma UnplacedStep(configs: seq<Config>, idSets: seq<IdSet>, i: nat)
    requires i < |configs| && Unplaced(configs, idSets, i)
    ensures Unplaced(configs, idSets + [IdSet(U32(|configs[i]|), Zeros(configs[i]))], i + 1)
  {
    hide Zeros, U32;
  }

  lemma PreparedStep(configs: seq<Config>, cs: seq<LimitKeyConfig>, i: nat)
    requires Filled(configs) && i < |configs| && Prepared(configs, cs, i)
    ensures |cs| == |configs| && Prepared(configs, cs[i := cs[i].(offset := U32(IdsAt(configs, i)))], i + 1)
  {
    hide IdsAt, KeyParams, Words, U32;
  }

  method PrepareKeyParams(keyParams: seq<KeyParam>, ghost before: nat, start: uint32)
    returns (data: seq<int32>, pos: uint32)
    requires start == U32(before)
    ensures data == Words(keyParams) && pos == U32(before + 8 * |keyParams|)
  {
    hide U32;
    data, pos := [], start;
    for j := 0 to |keyParams|
      invariant data == Words(keyParams[..j]) && pos == U32(before + 8 * j)
    {
      assert keyParams[..j + 1][..j] == keyParams[..j];
      data := data + [keyParams[j].keyType, Signed(keyParams[j].value)];
      U32Sum(before + 8 * j, 8);
      pos := U32(pos + 8);
    }
    assert keyParams[..|keyParams|] == keyParams;
  }

  method PrepareLimitKeys(configs: seq<Config>, start: uint32)
    returns (limitKeyConfigs: seq<LimitKeyConfig>, pos: uint32)
    requires Filled(configs) && start == HEADER
    ensures pos == U32(KeysAt(configs, |configs|)) && Prepared(configs, limitKeyConfigs, 0)
  {
    limitKeyConfigs, pos := [], start;
    for i := 0 to |configs|
      invariant |limitKeyConfigs| == i && pos == U32(KeysAt(configs, i))
      invariant forall k :: 0 <= k < i ==>
        limitKeyConfigs[k] == LimitKeyConfig(0, U32(|KeyParams(configs[k])|), Words(KeyParams(configs[k])))
    {
      KeysAtStep(configs, i);
      hide U32, Words, KeysAt, KeyParams;
      var keyParams := configs[i][0].resourceItem.keyParams;
      ghost var before := KeysAt(configs, i);
      U32Sum(before, 12);
      pos := U32(pos + 12);
      var data;
      data, pos := PrepareKeyParams(keyParams, before + 12, pos);
      limitKeyConfigs := limitKeyConfigs + [LimitKeyConfig(0, U32(|keyParams|), data)];
    }
  }

  lemma KeysAtStep(configs: seq<Config>, i: nat)
    requires Filled(configs) && i < |configs|
    ensures KeyParams(configs[i]) == configs[i][0].resourceItem.keyParams
    ensures KeysAt(configs, i + 1) == KeysAt(configs, i) + 12 + 8 * |KeyParams(configs[i])|
  {
  }

  lemma IdsAtStep(configs: seq<Config>, i: nat)
    requires Filled(configs) && i < |configs|
    ensures IdsAt(configs, i + 1) == IdsAt(configs, i) + 8 + 8 * |configs[i]|
  {
  }

  lemma SumStep(sizes: seq<nat>, i: nat)
    requires i < |sizes|
    ensures Sum(sizes, i + 1) == Sum(sizes, i) + sizes[i]
  {
  }

  lemma PrepareStarts(configs: seq<Config>)
    requires Filled(configs)
    ensures IdsAt(configs, 0) == KeysAt(configs, |configs|) && Unplaced(configs, [], 0)
  {
  }

  method Prepare(configs: seq<Config>, start: uint32)
    returns (limitKeyConfigs: seq<LimitKeyConfig>, idSets: seq<IdSet>, pos: uint32)
    requires Filled(configs) && start == HEADER
    ensures pos == U32(IdsAt(configs, |configs|))
    ensures Prepared(configs, limitKeyConfigs, |configs|) && Unplaced(configs, idSets, |configs|)
  {
    hide *;
    limitKeyConfigs, pos := PrepareLimitKeys(configs, start);
    idSets := [];
    PrepareStarts(configs);
    for i := 0 to |configs|
      invariant pos == U32(IdsAt(configs, i))
      invariant Prepared(configs, limitKeyConfigs, i) && Unplaced(configs, idSets, i)
    {
      IdsAtStep(configs, i);
      PreparedStep(configs, limitKeyConfigs, i);
      limitKeyConfigs := limitKeyConfigs[i := limitKeyConfigs[i].(offset := pos)];
      var data;
      data, pos := PrepareIds(configs[i], IdsAt(configs, i), pos);
      UnplacedStep(configs, idSets, i);
      idSets := idSets + [IdSet(U32(|configs[i]|), data)];
    }
  }

  method PrepareIds(config: Config, ghost before: nat, start: uint32) returns (data: map<int32, uint32>, pos: uint32)
    requires start == U32(before)
    ensures data == Zeros(config) && pos == U32(before + 8 + 8 * |config|)
  {
    hide U32;
    U32Sum(before, 8);
    data, pos := map[], U32(start + 8);
    for j := 0 to |config|
      invariant pos == U32(before + 8 + 8 * j) && data == Zeros(config[..j])
    {
      assert Ids(config[..j + 1]) == Ids(config[..j]) + {config[j].id} by {
        assert forall k :: 0 <= k < j ==> config[..j + 1][k] == config[..j][k];
        assert config[..j + 1][j] == config[j];
      }
      data := data[config[j].id := 0];
      U32Sum(before + 8 + 8 * j, 8);
      pos := U32(pos + 8);
    }
    assert config[..|config|] == config;
  }

  method SaveHeader(fileSize: uint32, limitKeyConfigSize: uint32) returns (out: Text)
    ensures out == Version() + (Le32(fileSize) + Le32(limitKeyConfigSize))
  {
    out := Version();
    out := out + Le32(fileSize);
    out := out + Le32(limitKeyConfigSize);
  }

  lemma {:induction false} WordsStep(ps: seq<KeyParam>, i: nat)
    requires i < |ps|
    ensures |Words(ps)| == 2 * |ps|
    ensures Words(ps)[2 * i] == ps[i].keyType && Words(ps)[2 * i + 1] == Signed(ps[i].value)
    decreases |ps|
  {
    if i < |ps| - 1 {
      WordsStep(ps[..|ps| - 1], i);
    } else if i > 0 {
      WordsStep(ps[..|ps| - 1], i - 1);
    }
  }

  lemma {:induction false} WordsLength(ps: seq<KeyParam>)
    ensures |Words(ps)| == 2 * |ps|
  {
    if ps != [] { WordsStep(ps, 0); }
  }

  method SaveKeysEntry(c: LimitKeyConfig, ghost ps: seq<KeyParam>) returns (entry: Text)
    requires c.data == Words(ps) && c.keyCount == U32(|ps|)
    ensures entry == KeysEntry(c.offset, ps)
  {
    hide Words, U32, Le32, Params;
    entry := KEYS;
    entry := entry + Le32(c.offset);
    entry := entry + Le32(c.keyCount);
    ghost var before := entry;
    WordsLength(ps);
    assert before + Params([]) == before by { NoParams(before); }
    var j := 0;
    while j < |c.data|
      invariant 0 <= j <= |c.data| && j % 2 == 0
      invariant entry == before + Params(ps[..j / 2])
    {
      WordsStep(ps, j / 2);
      ParamsUpTo(before, ps, j / 2);
      entry := entry + I32(c.data[j]);
      entry := entry + I32(c.data[j + 1]);
      j := j + 2;
    }
    assert ps[..|ps|] == ps;
    AssociateFour(KEYS, Le32(c.offset), Le32(c.keyCount), Params(ps));
  }

  lemma NoParams(before: Text)
    ensures before + Params([]) == before
  {
  }

  function KeysEntries(cs: seq<LimitKeyConfig>, ps: seq<seq<KeyParam>>): seq<Text>
    requires |ps| == |cs|
  {
    seq(|cs|, i requires 0 <= i < |cs| => KeysEntry(cs[i].offset, ps[i]))
  }

  method SaveLimitKeyConfigs(limitKeyConfigs: seq<LimitKeyConfig>, ghost ps: seq<seq<KeyParam>>) returns (out: Text)
    requires |ps| == |limitKeyConfigs|
    requires forall i :: 0 <= i < |ps| ==>
      limitKeyConfigs[i].data == Words(ps[i]) && limitKeyConfigs[i].keyCount == U32(|ps[i]|)
    ensures out == Concat(KeysEntries(limitKeyConfigs, ps), |ps|)
  {
    hide Words, U32, KeysEntry;
    out := [];
    for i := 0 to |limitKeyConfigs|
      invariant out == Concat(KeysEntries(limitKeyConfigs, ps), i)
    {
      var entry := SaveKeysEntry(limitKeyConfigs[i], ps[i]);
      out := out + entry;
    }
  }

  lemma ParamsUpTo(before: Text, ps: seq<KeyParam>, i: nat)
    requires i < |ps|
    ensures before + Params(ps[..i + 1]) == ((before + Params(ps[..i])) + I32(ps[i].keyType)) + I32(Signed(ps[i].value))
  {
    assert ps[..i + 1][..i] == ps[..i];
    ParamsStep(ps[..i + 1]);
    hide Params, Le32;
  }

  lemma ConcatStep(pieces: seq<Text>, i: nat)
    requires i < |pieces|
    ensures Concat(pieces, i + 1) == Concat(pieces, i) + pieces[i]
  {
  }

  method SaveIdSet(idSet: IdSet, ghost rows: nat) returns (entry: Text)
    requires idSet.idCount == U32(rows)
    ensures entry == IdsEntry(rows, idSet.data)
  {
    hide U32, Le32, Concat, Pairs;
    entry := IDSS;
    entry := entry + Le32(idSet.idCount);
    var pairs := SavePairs(idSet.data);
    AssociateFour(IDSS, Le32(idSet.idCount), pairs, []);
    entry := entry + pairs;
  }

  ghost function IdsEntries(idSets: seq<IdSet>, rows: seq<nat>): seq<Text>
    requires |rows| == |idSets|
  {
    seq(|rows|, i requires 0 <= i < |rows| => IdsEntry(rows[i], idSets[i].data))
  }

  method SaveIdSets(idSets: seq<IdSet>, ghost rows: seq<nat>) returns (out: Text)
    requires |rows| == |idSets| && forall i :: 0 <= i < |rows| ==> idSets[i].idCount == U32(rows[i])
    ensures out == Concat(IdsEntries(idSets, rows), |rows|)
  {
    hide U32, IdsEntry;
    out := [];
    for i := 0 to |idSets|
      invariant out == Concat(IdsEntries(idSets, rows), i)
    {
      var entry := SaveIdSet(idSets[i], rows[i]);
      out := out + entry;
    }
  }

  lemma AscendingStep(s: set<int32>, m: int32)
    requires Least(s, m)
    ensures Ascending(s) == [m] + Ascending(s - {m})
  {
  }

  // How far the walk through the ids in ascending order has come.
  ghost predicate WalkedTo(ids: set<int32>, rest: set<int32>, n: nat) {
    rest <= ids && n + |rest| == |ids| && Ascending(ids)[n..] == Ascending(rest)
  }

  lemma WalkOn(ids: set<int32>, rest: set<int32>, n: nat, id: int32)
    requires WalkedTo(ids, rest, n) && Least(rest, id)
    ensures n < |ids| && Ascending(ids)[n] == id && id in ids
    ensures WalkedTo(ids, rest - {id}, n + 1) && |rest - {id}| < |rest|
  {
    var all := Ascending(ids);
    AscendingStep(rest, id);
    assert all[n] == all[n..][0] == id;
    assert all[n + 1..] == all[n..][1..];
    hide Ascending;
  }

  lemma WalkStarts(ids: set<int32>)
    ensures WalkedTo(ids, ids, 0)
  {
    assert Ascending(ids)[0..] == Ascending(ids);
  }

  lemma WalkEnds(ids: set<int32>, n: nat)
    requires WalkedTo(ids, {}, n)
    ensures n == |ids|
  {
  }

  lemma PairsIndexed(m: map<int32, uint32>, q: nat)
    requires q < |Pairs(m)|
    ensures Ascending(m.Keys)[q] in m && Pairs(m)[q] == Pair(m, Ascending(m.Keys)[q])
  {
    assert Ascending(m.Keys)[q] in Ascending(m.Keys);
    hide Ascending, Pair;
  }

  method Smallest(s: set<int32>) returns (m: int32)
    requires s != {}
    ensures Least(s, m)
  {
    ghost var least := LeastExists(s);
    m :| m in s && forall x :: x in s ==> m <= x;
  }

  method SavePairs(m: map<int32, uint32>) returns (out: Text)
    ensures out == Concat(Pairs(m), |Pairs(m)|)
  {
    hide WalkedTo, Pairs, Ascending, Least, Pair;
    out := [];
    var rest := m.Keys;
    ghost var n := 0;
    WalkStarts(m.Keys);
    while rest != {}
      invariant WalkedTo(m.Keys, rest, n) && n <= |Pairs(m)| == |m.Keys|
      invariant out == Concat(Pairs(m), n)
      decreases |rest|
    {
      hide Concat;
      var id := Smallest(rest);
      WalkOn(m.Keys, rest, n, id);
      PairsIndexed(m, n);
      ConcatStep(Pairs(m), n);
      out := out + Pair(m, id);
      rest := rest - {id};
      n := n + 1;
    }
    WalkEnds(m.Keys, n);
  }

  method ComposeRecord(row: TableData) returns (size: uint32, bytes: Text)
    ensures bytes == Record(row) && size == U32(8 + |Payload(row.resourceItem)|)
  {
    var item := row.resourceItem;
    var data := ComposeStrings([item.data, GetIdName(item.name, item.resType)], true);
    hide U32;
    assert data == Payload(item);
    size := U32(8 + |data|);
    bytes := Le32(size);
    bytes := bytes + I32(item.resType);
    bytes := bytes + I32(row.id);
    bytes := bytes + data;
    AssociateFour(Le32(size), I32(item.resType), I32(row.id), data);
  }

  lemma {:induction false} FlatPrefix(configs: seq<Config>, i: nat, n: nat)
    requires i <= n <= |configs|
    ensures |Flat(configs, i)| <= |Flat(configs, n)| && Flat(configs, n)[..|Flat(configs, i)|] == Flat(configs, i)
    decreases n
  {
    if i < n { FlatPrefix(configs, i, n - 1); }
  }

  lemma FlatAt(configs: seq<Config>, i: nat, j: nat)
    requires i < |configs| && j < |configs[i]|
    ensures var k := |Flat(configs, i)| + j;
      k < |Flat(configs, i + 1)| <= |All(configs)| && All(configs)[k] == Placed(i, configs[i][j])
    ensures |Flat(configs, i + 1)| == |Flat(configs, i)| + |configs[i]|
  {
    FlatPrefix(configs, i + 1, |configs|);
    var k := |Flat(configs, i)| + j;
    assert Flat(configs, i + 1)[k] == Placed(i, configs[i][j]);
    assert All(configs)[k] == All(configs)[..|Flat(configs, i + 1)|][k];
  }

  // Every placed row is some row of its group.
  lemma {:induction false} FlatIs(configs: seq<Config>, n: nat, k: nat) returns (j: nat)
    requires n <= |configs| && k < |Flat(configs, n)|
    ensures var p := Flat(configs, n)[k];
      p.group < n && j < |configs[p.group]| && p.row == configs[p.group][j] && k == |Flat(configs, p.group)| + j
  {
    if k < |Flat(configs, n - 1)| {
      j := FlatIs(configs, n - 1, k);
    } else {
      j := k - |Flat(configs, n - 1)|;
    }
  }

  lemma {:induction false} OffsetsOutside(flat: seq<Placed>, at: nat, g: nat, k: nat, n: nat)
    requires k <= n <= |flat| && forall m :: k <= m < n ==> flat[m].group != g
    ensures Offsets(flat, at, g, n) == Offsets(flat, at, g, k)
    decreases n
  {
    if k < n { OffsetsOutside(flat, at, g, k, n - 1); }
  }

  // A group's offsets are fixed by its own records.
  lemma GroupDone(configs: seq<Config>, g: nat, i: nat)
    requires Filled(configs) && i <= |configs| && g < |configs|
    ensures |Flat(configs, i)| <= |All(configs)|
    ensures var m := Offsets(All(configs), IdsAt(configs, |configs|), g, |Flat(configs, i)|);
      m == if g < i then IdTable(configs, g) else map[]
  {
    FlatPrefix(configs, i, |configs|);
    var flat, k, at := All(configs), |Flat(configs, i)|, IdsAt(configs, |configs|);
    forall m | 0 <= m < |flat| ensures m < k <==> flat[m].group < i {
      var j := FlatIs(configs, |configs|, m);
      var h := flat[m].group;
      FlatAt(configs, h, j);
      if h < i { FlatPrefix(configs, h + 1, i); } else { FlatPrefix(configs, i, h); }
    }
    if g < i {
      OffsetsOutside(flat, at, g, k, |flat|);
    } else {
      OffsetsOutside(flat, at, g, 0, k);
    }
  }

  // What placing record k changes.
  lemma PlaceStep(configs: seq<Config>, i: nat, j: nat)
    requires Filled(configs) && i < |configs| && j < |configs[i]|
    ensures var k := |Flat(configs, i)| + j;
      var flat, at, row := All(configs), IdsAt(configs, |configs|), configs[i][j];
      && k < |flat|
      && Offsets(flat, at, i, k + 1) == Offsets(flat, at, i, k)[row.id := U32(RecordAt(configs, k))]
      && RecordAt(configs, k + 1) == RecordAt(configs, k) + |Record(row)|
      && Concat(Records(flat), k + 1) == Concat(Records(flat), k) + Record(row)
      && row.id in Zeros(configs[i])
  {
    hide *;
    var k, flat, at := |Flat(configs, i)| + j, All(configs), IdsAt(configs, |configs|);
    FlatAt(configs, i, j);
    OffsetsStep(flat, at, i, k);
    RecordAtIs(configs, k);
    RecordAtIs(configs, k + 1);
    ZeroAt(configs[i], j);
  }

  lemma RecordAtIs(configs: seq<Config>, k: nat)
    requires Filled(configs) && k <= |All(configs)|
    ensures RecordAt(configs, k) == IdsAt(configs, |configs|) + Sum(RecordSizes(All(configs)), k)
  {
  }

  lemma ZeroAt(config: Config, j: nat)
    requires j < |config|
    ensures config[j].id in Zeros(config)
  {
    assert config[j].id in Ids(config);
  }

  lemma OffsetsStep(flat: seq<Placed>, at: nat, g: nat, k: nat)
    requires k < |flat| && flat[k].group == g
    ensures Offsets(flat, at, g, k + 1)
            == Offsets(flat, at, g, k)[flat[k].row.id := U32(at + Sum(RecordSizes(flat), k))]
    ensures Sum(RecordSizes(flat), k + 1) == Sum(RecordSizes(flat), k) + |Record(flat[k].row)|
    ensures Concat(Records(flat), k + 1) == Concat(Records(flat), k) + Record(flat[k].row)
  {
    hide U32, Payload;
  }

  method SaveGroup(configs: seq<Config>, i: nat, idSet: IdSet, start: uint32)
    returns (r: IdSet, out: Text, pos: uint32)
    requires Filled(configs) && i < |configs| && idSet.data == Zeros(configs[i])
    requires |Flat(configs, i)| <= |All(configs)| && start == U32(RecordAt(configs, |Flat(configs, i)|))
    ensures |Flat(configs, i + 1)| <= |All(configs)| && pos == U32(RecordAt(configs, |Flat(configs, i + 1)|))
    ensures r == IdSet(idSet.idCount, IdTable(configs, i))
    ensures Concat(Records(All(configs)), |Flat(configs, i)|) + out
            == Concat(Records(All(configs)), |Flat(configs, i + 1)|)
  {
    hide *;
    r, out, pos := idSet, [], start;
    ghost var flat, first, at := All(configs), |Flat(configs, i)|, IdsAt(configs, |configs|);
    ghost var before := Concat(Records(flat), first);
    GroupEnds(configs, i);
    assert r.data + map[] == r.data && before + out == before;
    for j := 0 to |configs[i]|
      invariant first + j <= |flat| && pos == U32(RecordAt(configs, first + j))
      invariant r.idCount == idSet.idCount
      invariant r.data == Zeros(configs[i]) + Offsets(flat, at, i, first + j)
      invariant before + out == Concat(Records(flat), first + j)
    {
      var row := configs[i][j];
      PlaceStep(configs, i, j);
      // The source's test for a missing id never fires.
      assert row.id in r.data;
      r := r.(data := r.data[row.id := pos]);
      var size, bytes := ComposeRecord(row);
      AddSize(RecordAt(configs, first + j), size, |Payload(row.resourceItem)|);
      pos := U32(pos + size + 4);
      AssociateFour(before, out, bytes, []);
      out := out + bytes;
    }
  }

  lemma AddSize(before: nat, size: uint32, n: nat)
    requires size == U32(8 + n)
    ensures U32(U32(before) + size + 4) == U32(before + 12 + n)
  {
  }

  lemma GroupEnds(configs: seq<Config>, i: nat)
    requires Filled(configs) && i < |configs|
    ensures |Flat(configs, i)| + |configs[i]| == |Flat(configs, i + 1)| <= |All(configs)|
    ensures Offsets(All(configs), IdsAt(configs, |configs|), i, |Flat(configs, i)|) == map[]
    ensures Zeros(configs[i]) + Offsets(All(configs), IdsAt(configs, |configs|), i, |Flat(configs, i + 1)|)
            == IdTable(configs, i)
  {
    GroupDone(configs, i, i);
    GroupDone(configs, i, i + 1);
    FlatAt(configs, i, 0);
    ZerosCovered(configs, i);
  }

  lemma {:induction false} OffsetsHold(flat: seq<Placed>, at: nat, g: nat, n: nat, k: nat)
    requires k < n <= |flat| && flat[k].group == g
    ensures flat[k].row.id in Offsets(flat, at, g, n)
    decreases n
  {
    if k < n - 1 { OffsetsHold(flat, at, g, n - 1, k); }
  }

  // Every id of the group gets an offset, so nothing is left of the zeros.
  lemma ZerosCovered(configs: seq<Config>, g: nat)
    requires Filled(configs) && g < |configs|
    ensures Zeros(configs[g]) + IdTable(configs, g) == IdTable(configs, g)
  {
    forall id | id in Ids(configs[g]) ensures id in IdTable(configs, g) {
      IdPlaced(configs, g, id);
    }
    hide IdTable, Ids;
  }

  lemma IdPlaced(configs: seq<Config>, g: nat, id: int32)
    requires Filled(configs) && g < |configs| && id in Ids(configs[g])
    ensures id in IdTable(configs, g)
  {
    var j :| 0 <= j < |configs[g]| && configs[g][j].id == id;
    FlatAt(configs, g, j);
    hide All, Flat, IdsAt, Offsets, Ids;
    OffsetsHold(All(configs), IdsAt(configs, |configs|), g, |All(configs)|, |Flat(configs, g)| + j);
  }

  method SaveRecordItem(configs: seq<Config>, idSets: seq<IdSet>, start: uint32)
    returns (out: Text, r: seq<IdSet>, pos: uint32)
    requires Filled(configs) && |idSets| == |configs| && start == U32(RecordAt(configs, 0))
    requires forall i :: 0 <= i < |configs| ==> idSets[i].data == Zeros(configs[i])
    ensures out == Concat(Records(All(configs)), |All(configs)|) && pos == U32(RecordAt(configs, |All(configs)|))
    ensures |r| == |configs|
    ensures forall i :: 0 <= i < |configs| ==> r[i] == IdSet(idSets[i].idCount, IdTable(configs, i))
  {
    out, r, pos := [], idSets, start;
    for i := 0 to |configs|
      invariant |r| == |configs| && |Flat(configs, i)| <= |All(configs)|
      invariant pos == U32(RecordAt(configs, |Flat(configs, i)|))
      invariant out == Concat(Records(All(configs)), |Flat(configs, i)|)
      invariant forall k :: 0 <= k < i ==> r[k] == IdSet(idSets[k].idCount, IdTable(configs, k))
      invariant forall k :: i <= k < |configs| ==> r[k] == idSets[k]
    {
      hide *;
      var idSet, bytes;
      idSet, bytes, pos := SaveGroup(configs, i, r[i], pos);
      out := out + bytes;
      r := r[i := idSet];
    }
  }

  lemma SamePieces(configs: seq<Config>, cs: seq<LimitKeyConfig>, idSets: seq<IdSet>,
                   ps: seq<seq<KeyParam>>, rows: seq<nat>)
    requires Filled(configs) && |cs| == |idSets| == |ps| == |rows| == |configs|
    requires forall i :: 0 <= i < |configs| ==>
      cs[i].offset == U32(IdsAt(configs, i)) && idSets[i].data == IdTable(configs, i)
    requires forall i :: 0 <= i < |configs| ==> ps[i] == KeyParams(configs[i]) && rows[i] == |configs[i]|
    ensures KeysEntries(cs, ps) == KeysPieces(configs) && IdsEntries(idSets, rows) == IdsPieces(configs)
  {
    hide U32, IdsAt, IdTable, KeysEntry, IdsEntry, KeyParams;
  }

  method SaveToResouorceIndex(configs: seq<Config>) returns (file: Text)
    requires Filled(configs)
    ensures file == Image(configs)
  {
    ghost var ps := seq(|configs|, i requires 0 <= i < |configs| => KeyParams(configs[i]));
    ghost var rows := seq(|configs|, i requires 0 <= i < |configs| => |configs[i]|);
    assert IdsAt(configs, |configs|) == RecordAt(configs, 0);
    hide Sum, U32, IdTable, Concat, KeysEntries, IdsEntries, KeysPieces, IdsPieces, Records, All, KeyParams, RecordAt,
      IdsAt, Words, Zeros, Le32, Version;
    var limitKeyConfigs, idSets, pos := Prepare(configs, HEADER);
    var data;
    data, idSets, pos := SaveRecordItem(configs, idSets, pos);
    var header := SaveHeader(pos, U32(|configs|));
    SamePieces(configs, limitKeyConfigs, idSets, ps, rows);
    var keys := SaveLimitKeyConfigs(limitKeyConfigs, ps);
    var ids := SaveIdSets(idSets, rows);
    file := header + keys;
    file := file + ids;
    AssociateFour(header, keys, ids, data);
    file := file + data;
  }
}
