/** The resources.index file as it is read back, on arbitrary bytes. */
module ResourceTableLoads {
  import opened Bytes
  import opened ResourceData
  import ResourceTables
  import LimitKeys

  // Undefined: the source goes on with bytes it could not read, or leaves what C++ defines.
  datatype Read<T> = Got(value: T) | Failed | Undefined

  datatype Params = Params(list: seq<KeyParam>, at: nat)
  datatype Keys = Keys(table: map<int32, seq<KeyParam>>, at: nat)

  // A record's position maps to its id and the position of its id set.
  datatype Ids = Ids(table: map<int32, (int32, int32)>, at: nat)

  // The next record's position, the position as the size checks count it, and the items so far.
  datatype Records = Records(at: nat, pos: int32, items: map<int32, seq<Item>>)

  datatype Record = Record(size: uint32, resType: int32, id: int32, pos: int32)

  datatype Body = Body(data: Text, name: Text, at: nat)

  // Every read is announced against the file length; the sum is an int32.
  function Passed(pos: int32, n: nat, length: int32): (r: Read<int32>)
    ensures r.Got? ==> r.value == pos + n <= length
  {
    if pos + n > 0x7fff_ffff then Undefined else if pos + n > length then Failed else Got(pos + n)
  }

  function ParamsFrom(b: Text, ps: Params, n: nat, length: int32): (r: Read<Params>)
    requires ps.at <= length <= |b|
    ensures r.Got? ==> ps.at <= r.value.at <= length
    decreases n
  {
    if n == 0 then Got(ps)
    else match Passed(ps.at, 8, length)
      case Failed => Failed
      case Undefined => Undefined
      case Got(next) =>
        ParamsFrom(b, Params(ps.list + [KeyParam(Signed(Word(b, ps.at)), Word(b, ps.at + 4))], next), n - 1, length)
  }

  function KeysEntryFrom(b: Text, k: Keys, length: int32): (r: Read<Keys>)
    requires k.at <= length <= |b|
    ensures r.Got? ==> k.at <= r.value.at <= length
  {
    match Passed(k.at, 12, length)
    case Failed => Failed
    case Undefined => Undefined
    case Got(next) =>
      if b[k.at..k.at + 4] != ResourceTables.KEYS then Failed
      else match ParamsFrom(b, Params([], next), Word(b, k.at + 8), length)
        case Failed => Failed
        case Undefined => Undefined
        case Got(ps) => Got(Keys(k.table[Signed(Word(b, k.at + 4)) := ps.list], ps.at))
  }

  function KeysFrom(b: Text, k: Keys, count: nat, length: int32): (r: Read<Keys>)
    requires k.at <= length <= |b|
    ensures r.Got? ==> k.at <= r.value.at <= length
    decreases count
  {
    if count == 0 then Got(k)
    else match KeysEntryFrom(b, k, length)
      case Failed => Failed
      case Undefined => Undefined
      case Got(next) => KeysFrom(b, next, count - 1, length)
  }

  function PairsFrom(b: Text, ids: Ids, n: nat, offset: int32, length: int32): (r: Read<Ids>)
    requires ids.at <= length <= |b|
    ensures r.Got? ==> ids.at <= r.value.at <= length
    decreases n
  {
    if n == 0 then Got(ids)
    else match Passed(ids.at, 8, length)
      case Failed => Failed
      case Undefined => Undefined
      case Got(next) =>
        var id, dataOffset := Signed(Word(b, ids.at)), Signed(Word(b, ids.at + 4));
        PairsFrom(b, Ids(ids.table[dataOffset := (id, offset)], next), n - 1, offset, length)
  }

  function IdsEntryFrom(b: Text, ids: Ids, length: int32): (r: Read<Ids>)
    requires ids.at <= length <= |b|
    ensures r.Got? ==> ids.at <= r.value.at <= length
  {
    match Passed(ids.at, 8, length)
    case Failed => Failed
    case Undefined => Undefined
    case Got(next) =>
      if b[ids.at..ids.at + 4] != ResourceTables.IDSS then Failed
      else PairsFrom(b, ids.(at := next), Word(b, ids.at + 4), ids.at, length)
  }

  function IdsFrom(b: Text, ids: Ids, count: nat, length: int32): (r: Read<Ids>)
    requires ids.at <= length <= |b|
    ensures r.Got? ==> ids.at <= r.value.at <= length
    decreases count
  {
    if count == 0 then Got(ids)
    else match IdsEntryFrom(b, ids, length)
      case Failed => Failed
      case Undefined => Undefined
      case Got(next) => IdsFrom(b, next, count - 1, length)
  }

  // A C string ends at its first NUL.
  function UpToNul(t: Text): (r: Text)
    ensures |r| <= |t|
    ensures 0 !in t ==> r == t
  {
    if t == [] || t[0] == 0 then [] else [t[0]] + UpToNul(t[1..])
  }

  function RecordHeadAt(b: Text, at: nat, pos: int32, length: int32): (r: Read<Record>)
    ensures r.Got? ==> at + 12 <= |b|
  {
    match Passed(pos, 4, length)
    case Failed => Failed
    case Undefined => Undefined
    case Got(next) =>
      if at + 4 > |b| then Undefined
      else
        var size := Word(b, at);
        var end := Signed(U32(Unsigned(next) + size));
        if end > length then Failed
        else if at + 12 > |b| then Undefined
        else Got(Record(size, Signed(Word(b, at + 4)), Signed(Word(b, at + 8)), end))
  }

  // What a record's position says about it.
  function KeyParamsAt(k: Keys, ids: Ids, at: int32, id: int32): Option<seq<KeyParam>> {
    if at !in ids.table then None
    else if ids.table[at].0 != id then None
    else if ids.table[at].1 !in k.table then None
    else Some(k.table[ids.table[at].1])
  }

  function Push(items: map<int32, seq<Item>>, id: int32, item: Item): map<int32, seq<Item>> {
    items[id := (if id in items then items[id] else []) + [item]]
  }

  // The value and the name of a record whose fixed part was read, and the position behind them.
  function ValueAndNameAt(b: Text, at: nat, size: uint32): (r: Read<Body>)
    requires at + 12 <= |b|
    ensures r.Got? ==> at < r.value.at <= |b| && |r.value.data| + |r.value.name| + 4 <= size
  {
    if at + 14 > |b| then Undefined
    else
      var valueSize := FromLe16(b[at + 12..at + 14]) as int;
      if valueSize + 2 > size then Failed
      else if at + 14 + valueSize + 2 > |b| then Undefined
      else
        var nameAt := at + 14 + valueSize;
        var nameSize := FromLe16(b[nameAt..nameAt + 2]) as int;
        if valueSize + 2 + nameSize + 2 > size then Failed
        else if nameAt + 2 + nameSize > |b| then Undefined
        else if 0 !in b[nameAt + 2..nameAt + 2 + nameSize] then Undefined
        else Got(Body(b[at + 14..nameAt], UpToNul(b[nameAt + 2..nameAt + 2 + nameSize]), nameAt + 2 + nameSize))
  }

  function RecordFrom(b: Text, k: Keys, ids: Ids, s: Records, length: int32): (r: Read<Records>)
    ensures r.Got? ==> s.at < r.value.at <= |b|
  {
    match RecordHeadAt(b, s.at, s.pos, length)
    case Failed => Failed
    case Undefined => Undefined
    case Got(head) =>
      if s.at + 12 > 0x7fff_ffff then Undefined
      else match ValueAndNameAt(b, s.at, head.size)
        case Failed => Failed
        case Undefined => Undefined
        case Got(body) =>
          var keyParams := KeyParamsAt(k, ids, s.at, head.id);
          if keyParams.None? then Failed
          else if !KnownType(head.resType) then Undefined
          else
            var limitKey := AsBytes(LimitKeys.Printed(keyParams.value));
            var item := Item(body.name, limitKey, [], head.resType, keyParams.value, body.data);
            Got(Records(body.at, head.pos, Push(s.items, head.id, item)))
  }

  function RecordsFrom(b: Text, k: Keys, ids: Ids, s: Records, length: int32): Read<map<int32, seq<Item>>>
    requires s.at <= |b| && length <= |b|
    decreases |b| - s.at
  {
    if s.at >= length then Got(s.items)
    else match RecordFrom(b, k, ids, s, length)
      case Failed => Failed
      case Undefined => Undefined
      case Got(next) => RecordsFrom(b, k, ids, next, length)
  }

  function Loaded(b: Text): Read<map<int32, seq<Item>>> {
    var length := Signed(U32(|b|));
    if length < ResourceTables.HEADER then Failed
    else
      var count := Word(b, 132);
      match KeysFrom(b, Keys(map[], ResourceTables.HEADER), count, length)
      case Failed => Failed
      case Undefined => Undefined
      case Got(k) =>
        match IdsFrom(b, Ids(map[], k.at), count, length)
        case Failed => Failed
        case Undefined => Undefined
        case Got(ids) => RecordsFrom(b, k, ids, Records(ids.at, ids.at, map[]), length)
  }

  // ------------------------------------------------------------ the loops

  lemma KeysFromStep(b: Text, k: Keys, count: nat, length: int32)
    requires k.at <= length <= |b|
    ensures KeysFrom(b, k, count, length)
            == if count == 0 then Got(k)
               else match KeysEntryFrom(b, k, length)
                 case Failed => Failed
                 case Undefined => Undefined
                 case Got(next) => KeysFrom(b, next, count - 1, length)
  {
    hide KeysEntryFrom;
  }

  lemma IdsFromStep(b: Text, ids: Ids, count: nat, length: int32)
    requires ids.at <= length <= |b|
    ensures IdsFrom(b, ids, count, length)
            == if count == 0 then Got(ids)
               else match IdsEntryFrom(b, ids, length)
                 case Failed => Failed
                 case Undefined => Undefined
                 case Got(next) => IdsFrom(b, next, count - 1, length)
  {
    hide IdsEntryFrom;
  }

  method ReadLimitKeys(b: Text, count: uint32, length: int32) returns (r: Read<Keys>)
    requires ResourceTables.HEADER <= length <= |b|
    ensures r == KeysFrom(b, Keys(map[], ResourceTables.HEADER), count, length)
  {
    hide KeysFrom, KeysEntryFrom;
    var k := Keys(map[], ResourceTables.HEADER);
    var i := 0;
    while i < count
      invariant 0 <= i <= count && k.at <= length
      invariant KeysFrom(b, Keys(map[], ResourceTables.HEADER), count, length) == KeysFrom(b, k, count - i, length)
    {
      KeysFromStep(b, k, count - i, length);
      var entry := ReadLimitKey(b, k, length);
      match entry {
        case Failed => return Failed;
        case Undefined => return Undefined;
        case Got(next) => k := next;
      }
      i := i + 1;
    }
    KeysFromStep(b, k, 0, length);
    return Got(k);
  }

  method ReadLimitKey(b: Text, k: Keys, length: int32) returns (r: Read<Keys>)
    requires k.at <= length <= |b|
    ensures r == KeysEntryFrom(b, k, length)
  {
    match Passed(k.at, 12, length) {
      case Failed => return Failed;
      case Undefined => return Undefined;
      case Got(next) =>
        var keyTag := b[k.at..k.at + 4];
        if keyTag != ResourceTables.KEYS {
          return Failed;
        }
        var offset, keyCount := Signed(Word(b, k.at + 4)), Word(b, k.at + 8);
        var ps := Params([], next);
        var j := 0;
        while j < keyCount
          invariant 0 <= j <= keyCount && ps.at <= length
          invariant ParamsFrom(b, Params([], next), keyCount, length) == ParamsFrom(b, ps, keyCount - j, length)
        {
          match Passed(ps.at, 8, length) {
            case Failed => return Failed;
            case Undefined => return Undefined;
            case Got(behind) =>
              var keyParam := KeyParam(Signed(Word(b, ps.at)), Word(b, ps.at + 4));
              ps := Params(ps.list + [keyParam], behind);
          }
          j := j + 1;
        }
        return Got(Keys(k.table[offset := ps.list], ps.at));
    }
  }

  method ReadIdTables(b: Text, start: nat, count: uint32, length: int32) returns (r: Read<Ids>)
    requires start <= length <= |b|
    ensures r == IdsFrom(b, Ids(map[], start), count, length)
  {
    hide IdsFrom, IdsEntryFrom;
    var ids := Ids(map[], start);
    var i := 0;
    while i < count
      invariant 0 <= i <= count && ids.at <= length
      invariant IdsFrom(b, Ids(map[], start), count, length) == IdsFrom(b, ids, count - i, length)
    {
      IdsFromStep(b, ids, count - i, length);
      var entry := ReadIdTable(b, ids, length);
      match entry {
        case Failed => return Failed;
        case Undefined => return Undefined;
        case Got(next) => ids := next;
      }
      i := i + 1;
    }
    IdsFromStep(b, ids, 0, length);
    return Got(ids);
  }

  method ReadIdTable(b: Text, before: Ids, length: int32) returns (r: Read<Ids>)
    requires before.at <= length <= |b|
    ensures r == IdsEntryFrom(b, before, length)
  {
    match Passed(before.at, 8, length) {
      case Failed => return Failed;
      case Undefined => return Undefined;
      case Got(next) =>
        var offset := before.at;
        var idTag := b[offset..offset + 4];
        if idTag != ResourceTables.IDSS {
          return Failed;
        }
        var idCount := Word(b, offset + 4);
        var ids := before.(at := next);
        var j := 0;
        while j < idCount
          invariant 0 <= j <= idCount && ids.at <= length
          invariant PairsFrom(b, before.(at := next), idCount, offset, length)
                    == PairsFrom(b, ids, idCount - j, offset, length)
        {
          match Passed(ids.at, 8, length) {
            case Failed => return Failed;
            case Undefined => return Undefined;
            case Got(behind) =>
              var id, dataOffset := Signed(Word(b, ids.at)), Signed(Word(b, ids.at + 4));
              ids := Ids(ids.table[dataOffset := (id, offset)], behind);
          }
          j := j + 1;
        }
        return Got(ids);
    }
  }

  method ReadDataRecordPrepare(b: Text, at: nat, pos: int32, length: int32) returns (r: Read<Record>)
    ensures r == RecordHeadAt(b, at, pos, length)
  {
    match Passed(pos, 4, length) {
      case Failed => return Failed;
      case Undefined => return Undefined;
      case Got(next) =>
        if at + 4 > |b| {
          return Undefined;
        }
        var size := Word(b, at);
        var end := Signed(U32(Unsigned(next) + size));
        if end > length {
          return Failed;
        }
        if at + 12 > |b| {
          return Undefined;
        }
        return Got(Record(size, Signed(Word(b, at + 4)), Signed(Word(b, at + 8)), end));
    }
  }

  method ReadDataRecordStart(b: Text, head: Record, k: Keys, ids: Ids, s: Records, length: int32)
    returns (r: Read<Records>)
    requires s.at + 12 <= |b| && RecordHeadAt(b, s.at, s.pos, length) == Got(head)
    ensures r == RecordFrom(b, k, ids, s, length)
  {
    var offset := s.at;
    if offset + 12 > 0x7fff_ffff {
      return Undefined;
    }
    var body := ValueAndNameAt(b, offset, head.size);
    match body {
      case Failed => return Failed;
      case Undefined => return Undefined;
      case Got(read) =>
        if offset !in ids.table {
          return Failed;
        }
        if ids.table[offset].0 != head.id {
          return Failed;
        }
        if ids.table[offset].1 !in k.table {
          return Failed;
        }
        var keyParams := k.table[ids.table[offset].1];
        if !KnownType(head.resType) {
          return Undefined;
        }
        var limitKey := LimitKeys.PaserKeyParam(keyParams);
        var item := Item(read.name, AsBytes(limitKey), [], head.resType, keyParams, read.data);
        return Got(Records(read.at, head.pos, Push(s.items, head.id, item)));
    }
  }

  method LoadResTable(b: Text) returns (r: Read<map<int32, seq<Item>>>)
    ensures r == Loaded(b)
  {
    var length := Signed(U32(|b|));
    if length <= 0 {
      return Failed;
    }
    if ResourceTables.HEADER > length {
      return Failed;
    }
    var count := Word(b, 132);
    var keys := ReadLimitKeys(b, count, length);
    if !keys.Got? {
      return if keys.Failed? then Failed else Undefined;
    }
    var ids := ReadIdTables(b, keys.value.at, count, length);
    if !ids.Got? {
      return if ids.Failed? then Failed else Undefined;
    }
    var s := Records(ids.value.at, ids.value.at, map[]);
    while s.at < length
      invariant s.at <= |b|
      invariant Loaded(b) == RecordsFrom(b, keys.value, ids.value, s, length)
      decreases |b| - s.at
    {
      var head := ReadDataRecordPrepare(b, s.at, s.pos, length);
      if !head.Got? {
        return if head.Failed? then Failed else Undefined;
      }
      var next := ReadDataRecordStart(b, head.value, keys.value, ids.value, s, length);
      if !next.Got? {
        return if next.Failed? then Failed else Undefined;
      }
      s := next.value;
    }
    return Got(s.items);
  }

  // ------------------------------------------------------------ what a table entry that is let through says

  /** So many params are read exactly if they lie within the length, each its type and its value. */
  lemma {:induction false} ParamsRead(b: Text, ps: Params, n: nat, length: int32, j: nat)
    requires ps.at <= length <= |b|
    ensures ParamsFrom(b, ps, n, length).Got? <==> ps.at + 8 * n <= length
    ensures ParamsFrom(b, ps, n, length).Got? ==>
      var r := ParamsFrom(b, ps, n, length).value;
      && r.at == ps.at + 8 * n && |r.list| == |ps.list| + n && ps.list <= r.list
      && (j < n ==>
            r.list[|ps.list| + j] == KeyParam(Signed(Word(b, ps.at + 8 * j)), Word(b, ps.at + 8 * j + 4)))
    decreases n
  {
    hide Word, Signed;
    if n > 0 && ps.at + 8 <= length {
      var p := KeyParam(Signed(Word(b, ps.at)), Word(b, ps.at + 4));
      ParamsRead(b, Params(ps.list + [p], ps.at + 8), n - 1, length, if j == 0 then 0 else j - 1);
      hide ParamsFrom;
      assert (ps.list + [p])[|ps.list|] == p;
    }
  }

  /**
   On any bytes: a KEYS entry is let through exactly if it begins with its tag and lies, with as many params as it says,
   within the length; it then adds those params, under the position it gives.
   */
  lemma KeysEntryRead(b: Text, k: Keys, length: int32, j: nat)
    requires k.at <= length <= |b|
    ensures KeysEntryFrom(b, k, length).Got? <==>
      k.at + 12 <= length && b[k.at..k.at + 4] == [75, 69, 89, 83] && k.at + 12 + 8 * Word(b, k.at + 8) <= length
    ensures KeysEntryFrom(b, k, length).Got? ==>
      var r, n, place := KeysEntryFrom(b, k, length).value, Word(b, k.at + 8), Signed(Word(b, k.at + 4));
      && r.at == k.at + 12 + 8 * n && place in r.table && r.table == k.table[place := r.table[place]]
      && |r.table[place]| == n
      && (j < n ==>
            r.table[place][j] == KeyParam(Signed(Word(b, k.at + 12 + 8 * j)), Word(b, k.at + 16 + 8 * j)))
  {
    assert ResourceTables.KEYS == [75, 69, 89, 83];
    if k.at + 12 <= length { ParamsRead(b, Params([], k.at + 12), Word(b, k.at + 8), length, j); }
    hide ParamsFrom, Word, Signed;
  }

  ghost predicate PlaceAt(b: Text, at: nat, j: nat, place: int32) {
    at + 8 * j + 8 <= |b| && Signed(Word(b, at + 8 * j + 4)) == place
  }

  ghost predicate PairAt(b: Text, at: nat, j: nat, place: int32, id: int32) {
    PlaceAt(b, at, j, place) && Signed(Word(b, at + 8 * j)) == id
  }

  // None of the n pairs from a position on names the place, from pair j on.
  ghost predicate NoneNames(b: Text, at: nat, j: nat, n: int, place: int32) {
    forall h: nat :: j <= h < n ==> !PlaceAt(b, at, h, place)
  }

  // The last of the n pairs that names the place gives it the id.
  ghost predicate IsPair(b: Text, at: nat, n: nat, place: int32, id: int32) {
    exists j: nat :: j < n && PairAt(b, at, j, place, id) && NoneNames(b, at, j + 1, n, place)
  }

  /** So many pairs are read exactly if they lie within the length; of those for one place the last one counts. */
  lemma {:induction false} PairsRead(b: Text, ids: Ids, n: nat, offset: int32, length: int32, place: int32, id: int32)
    requires ids.at <= length <= |b|
    ensures PairsFrom(b, ids, n, offset, length).Got? <==> ids.at + 8 * n <= length
    ensures PairsFrom(b, ids, n, offset, length).Got? ==>
      var r := PairsFrom(b, ids, n, offset, length).value;
      && r.at == ids.at + 8 * n
      && (IsPair(b, ids.at, n, place, id) ==> place in r.table && r.table[place] == (id, offset))
      && (NoneNames(b, ids.at, 0, n, place) ==>
            (place in r.table <==> place in ids.table) && (place in ids.table ==> r.table[place] == ids.table[place]))
    decreases n
  {
    hide Word, Signed;
    if n > 0 && ids.at + 8 <= length {
      var x, at := Signed(Word(b, ids.at)), Signed(Word(b, ids.at + 4));
      var next := Ids(ids.table[at := (x, offset)], ids.at + 8);
      PairsRead(b, next, n - 1, offset, length, place, id);
      PairsShift(b, ids.at, n, place, id);
      hide PairsFrom, IsPair, NoneNames;
    }
  }

  // The first pair and the others.
  lemma PairShift(b: Text, at: nat, h: nat, place: int32, id: int32)
    ensures PlaceAt(b, at + 8, h, place) <==> PlaceAt(b, at, h + 1, place)
    ensures PairAt(b, at + 8, h, place, id) <==> PairAt(b, at, h + 1, place, id)
  {
  }

  lemma NoneShift(b: Text, at: nat, j: nat, n: nat, place: int32)
    ensures NoneNames(b, at + 8, j, n - 1, place) <==> NoneNames(b, at, j + 1, n, place)
  {
    hide PlaceAt;
    if NoneNames(b, at + 8, j, n - 1, place) {
      forall h: nat | j + 1 <= h < n ensures !PlaceAt(b, at, h, place) { PairShift(b, at, h - 1, place, 0); }
    }
    if NoneNames(b, at, j + 1, n, place) {
      var next := at + 8;
      forall h: nat | j <= h < n - 1 ensures !PlaceAt(b, next, h, place) { PairShift(b, at, h, place, 0); }
    }
  }

  lemma PairsShift(b: Text, at: nat, n: nat, place: int32, id: int32)
    requires n > 0 && at + 8 <= |b|
    ensures IsPair(b, at, n, place, id) <==>
      IsPair(b, at + 8, n - 1, place, id) || (PairAt(b, at, 0, place, id) && NoneNames(b, at + 8, 0, n - 1, place))
    ensures NoneNames(b, at, 0, n, place) <==> !PlaceAt(b, at, 0, place) && NoneNames(b, at + 8, 0, n - 1, place)
  {
    hide PairAt, PlaceAt;
    NoneShift(b, at, 0, n, place);
    NoneMore(b, at, n, place);
    hide NoneNames;
    if IsPair(b, at, n, place, id) {
      var j: nat :| j < n && PairAt(b, at, j, place, id) && NoneNames(b, at, j + 1, n, place);
      if j > 0 {
        PairShift(b, at, j - 1, place, id);
        NoneShift(b, at, j, n, place);
      }
    }
    if IsPair(b, at + 8, n - 1, place, id) {
      var j: nat :| j < n - 1 && PairAt(b, at + 8, j, place, id) && NoneNames(b, at + 8, j + 1, n - 1, place);
      PairShift(b, at, j, place, id);
      NoneShift(b, at, j + 1, n, place);
    }
  }

  lemma NoneMore(b: Text, at: nat, n: nat, place: int32)
    requires n > 0
    ensures NoneNames(b, at, 0, n, place) <==> !PlaceAt(b, at, 0, place) && NoneNames(b, at, 1, n, place)
  {
    hide PlaceAt;
  }

  /**
   On any bytes: an IDSS entry is let through exactly if it begins with its tag and lies, with as many pairs as it says,
   within the length; it then leads from every place a pair names to the id of the last such pair and to itself.
   */
  lemma IdsEntryRead(b: Text, ids: Ids, length: int32, place: int32, id: int32)
    requires ids.at <= length <= |b|
    ensures IdsEntryFrom(b, ids, length).Got? <==>
      && ids.at + 8 <= length && b[ids.at..ids.at + 4] == [73, 68, 83, 83]
      && ids.at + 8 + 8 * Word(b, ids.at + 4) <= length
    ensures IdsEntryFrom(b, ids, length).Got? ==>
      var r, n := IdsEntryFrom(b, ids, length).value, Word(b, ids.at + 4);
      && r.at == ids.at + 8 + 8 * n
      && (IsPair(b, ids.at + 8, n, place, id) ==> place in r.table && r.table[place] == (id, ids.at))
      && (NoneNames(b, ids.at + 8, 0, n, place) ==>
            (place in r.table <==> place in ids.table) && (place in ids.table ==> r.table[place] == ids.table[place]))
  {
    assert ResourceTables.IDSS == [73, 68, 83, 83];
    if ids.at + 8 <= length {
      PairsRead(b, ids.(at := ids.at + 8), Word(b, ids.at + 4), ids.at, length, place, id);
    }
    hide PairsFrom, Word, IsPair, NoneNames;
  }

  // ------------------------------------------------------------ what a record that is let through says

  lemma WordStands(b: Text, at: nat)
    requires at + 4 <= |b|
    ensures Holds(b, at, Le32(Word(b, at))) && Holds(b, at, I32(Signed(Word(b, at))))
  {
    Le32OfWord(b[at..at + 4]);
  }

  lemma HeadRead(b: Text, at: nat, pos: int32, length: int32)
    requires RecordHeadAt(b, at, pos, length).Got?
    ensures var head := RecordHeadAt(b, at, pos, length).value;
      && Holds(b, at, Le32(head.size)) && Holds(b, at + 4, I32(head.resType)) && Holds(b, at + 8, I32(head.id))
      && head.pos <= length && head.pos == Signed(U32(pos + 4 + head.size + 0x1_0000_0000))
  {
    hide Word, Holds, Le32, I32;
    WordStands(b, at);
    WordStands(b, at + 4);
    WordStands(b, at + 8);
  }

  lemma {:induction false} NulFollows(t: Text)
    requires 0 in t
    ensures |UpToNul(t)| < |t| && UpToNul(t) <= t && t[|UpToNul(t)|] == 0 && 0 !in UpToNul(t)
  {
    if t[0] != 0 { NulFollows(t[1..]); }
  }

  lemma BodyRead(b: Text, at: nat, size: uint32) returns (nameSize: uint16)
    requires at + 12 <= |b| && ValueAndNameAt(b, at, size).Got?
    ensures var body := ValueAndNameAt(b, at, size).value;
      && |body.data| < 0x1_0000 && Holds(b, at + 12, Le16(|body.data|)) && Holds(b, at + 14, body.data)
      && Holds(b, at + 14 + |body.data|, Le16(nameSize)) && Holds(b, at + 16 + |body.data|, body.name + [0])
      && 0 !in body.name && |body.name| < nameSize && body.at == at + 16 + |body.data| + nameSize
      && |body.data| + nameSize + 4 <= size
  {
    nameSize := BodyStands(b, at, size);
    NulFollows(b[at + 16 + |ValueAndNameAt(b, at, size).value.data|..][..nameSize]);
    NameStands(b, at, size, nameSize);
    hide ValueAndNameAt, UpToNul, Le16;
  }

  lemma BodyStands(b: Text, at: nat, size: uint32) returns (nameSize: uint16)
    requires at + 12 <= |b| && ValueAndNameAt(b, at, size).Got?
    ensures var body := ValueAndNameAt(b, at, size).value;
      && |body.data| < 0x1_0000 && Holds(b, at + 12, Le16(|body.data|)) && Holds(b, at + 14, body.data)
      && Holds(b, at + 14 + |body.data|, Le16(nameSize)) && body.at == at + 16 + |body.data| + nameSize <= |b|
      && |body.data| + nameSize + 4 <= size
      && var text := b[at + 16 + |body.data|..][..nameSize]; 0 in text && body.name == UpToNul(text)
  {
    var valueSize := FromLe16(b[at + 12..at + 14]);
    var nameAt := at + 14 + valueSize;
    nameSize := FromLe16(b[nameAt..nameAt + 2]);
    FromLe16Injective(b[at + 12..at + 14]);
    FromLe16Injective(b[nameAt..nameAt + 2]);
    assert b[nameAt + 2..nameAt + 2 + nameSize] == b[nameAt + 2..][..nameSize];
    hide UpToNul, FromLe16, Le16;
  }

  lemma NameStands(b: Text, at: nat, size: uint32, nameSize: uint16)
    requires at + 12 <= |b| && ValueAndNameAt(b, at, size).Got?
    requires var body := ValueAndNameAt(b, at, size).value;
      && at + 16 + |body.data| + nameSize <= |b|
      && var text := b[at + 16 + |body.data|..][..nameSize];
      0 in text && body.name == UpToNul(text) && |body.name| < |text| && body.name <= text && text[|body.name|] == 0
    ensures var body := ValueAndNameAt(b, at, size).value; Holds(b, at + 16 + |body.data|, body.name + [0])
  {
    var body := ValueAndNameAt(b, at, size).value;
    hide ValueAndNameAt, UpToNul;
    var n, from := |body.name|, at + 16 + |body.data|;
    var text := b[from..][..nameSize];
    assert text[..n + 1] == body.name + [0];
    assert b[from..from + n + 1] == text[..n + 1];
  }

  /**
   On any bytes: a record that is let through gives an item whose id, type, value and name stand in the file at the
   record's place, in the form they are written in, and whose key params are those its place leads to.
   */
  lemma RecordRead(b: Text, k: Keys, ids: Ids, s: Records, length: int32)
    returns (id: int32, item: Item, size: uint32, nameSize: uint16)
    requires RecordFrom(b, k, ids, s, length).Got?
    ensures RecordFrom(b, k, ids, s, length).value.items == Push(s.items, id, item)
    ensures Holds(b, s.at, Le32(size)) && Holds(b, s.at + 4, I32(item.resType)) && Holds(b, s.at + 8, I32(id))
    ensures |item.data| < 0x1_0000 && Holds(b, s.at + 12, Le16(|item.data|)) && Holds(b, s.at + 14, item.data)
    ensures Holds(b, s.at + 14 + |item.data|, Le16(nameSize)) && Holds(b, s.at + 16 + |item.data|, item.name + [0])
    ensures |item.name| < nameSize && |item.data| + nameSize + 4 <= size
    ensures RecordFrom(b, k, ids, s, length).value.at == s.at + 16 + |item.data| + nameSize
    ensures s.at < 0x8000_0000 && s.at in ids.table && ids.table[s.at].0 == id && ids.table[s.at].1 in k.table
    ensures item.resType in {-1, 0, 1, 3, 6, 8, 9, 10, 11, 12, 14, 15, 16, 17, 18, 19, 20, 21, 22}
    ensures item.keyParams == k.table[ids.table[s.at].1] && item.limitKey == AsBytes(LimitKeys.Printed(item.keyParams))
  {
    hide ValueAndNameAt, RecordHeadAt, Push, LimitKeys.Printed, Holds, Le32, Le16, I32;
    var head := RecordHeadAt(b, s.at, s.pos, length).value;
    HeadRead(b, s.at, s.pos, length);
    nameSize := BodyRead(b, s.at, head.size);
    var body := ValueAndNameAt(b, s.at, head.size).value;
    var ps := KeyParamsAt(k, ids, s.at, head.id).value;
    id, size := head.id, head.size;
    item := Item(body.name, AsBytes(LimitKeys.Printed(ps)), [], head.resType, ps, body.data);
  }
}
