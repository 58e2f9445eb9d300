/**
 The intermediate record files of the append mode: each item as length-prefixed fields, read back by
 a cursor that a bad length throws to the end of the buffer.
 */
module AppendFormat {
  import opened Bytes
  import opened ResourceData

  function Field(t: Text): Text
    requires |t| < 0x8000_0000
  {
    I32(|t|) + t
  }

  // The lengths are stored as int32.
  predicate Fits(item: Item) {
    && |item.name| < 0x8000_0000 && |item.limitKey| < 0x8000_0000 && |item.filePath| < 0x8000_0000
    && |item.keyParams| < 0x8000_0000 && |item.data| < 0x8000_0000
  }

  function Head(item: Item): Text
    requires Fits(item)
  {
    Field(item.name) + (Field(item.limitKey) + (Field(item.filePath) + I32(item.resType)))
  }

  function Tail(item: Item): Text
    requires Fits(item)
  {
    I32(|item.keyParams|) + (Params(item.keyParams) + Field(item.data))
  }

  function Record(item: Item): (r: Text)
    requires Fits(item)
  {
    Head(item) + Tail(item)
  }

  lemma FieldStands(b: Text, at: nat, t: Text)
    requires |t| < 0x8000_0000 && Holds(b, at, Field(t))
    ensures at + 4 + |t| <= |b| && Word(b, at) == |t| && b[at + 4..at + 4 + |t|] == t && |Field(t)| == 4 + |t|
  {
    HoldsBoth(b, at, I32(|t|), t);
    WordIs(b, at, |t|);
  }

  lemma {:induction false} ParamStands(b: Text, at: nat, ps: seq<KeyParam>, j: nat)
    requires Holds(b, at, Params(ps)) && j < |ps|
    ensures at + 8 * j + 8 <= |b|
    ensures Signed(Word(b, at + 8 * j)) == ps[j].keyType && Word(b, at + 8 * j + 4) == ps[j].value
    decreases |ps|
  {
    hide *;
    ParamsStep(ps);
    var n := |ps| - 1;
    HoldsBoth(b, at, Params(ps[..n]), Param(ps[n]));
    if j < n {
      ParamStands(b, at, ps[..n], j);
    } else {
      ParamsSize(ps[..n]);
      ParamWords(b, at + 8 * n, ps[n]);
    }
  }

  lemma ParamsSize(ps: seq<KeyParam>)
    ensures |Params(ps)| == 8 * |ps|
  {
  }

  lemma ParamWords(b: Text, at: nat, p: KeyParam)
    requires Holds(b, at, Param(p))
    ensures at + 8 <= |b| && Signed(Word(b, at)) == p.keyType && Word(b, at + 4) == p.value
  {
    HoldsBoth(b, at, I32(p.keyType), Le32(p.value));
    SignedWordIs(b, at, p.keyType);
    WordIs(b, at + 4, p.value);
  }

  /**
   A record word by word: name, limit key and file path, each behind its length; the type; the number of key params,
   and of each its type and its value; the data behind its length.
   */
  lemma RecordBytes(item: Item, j: nat)
    requires Fits(item)
    ensures var b, n, l, f := Record(item), |item.name|, |item.limitKey|, |item.filePath|;
      var c, d := |item.keyParams|, |item.data|;
      && |b| == 24 + n + l + f + 8 * c + d
      && Word(b, 0) == n && b[4..4 + n] == item.name
      && Word(b, 4 + n) == l && b[8 + n..8 + n + l] == item.limitKey
      && Word(b, 8 + n + l) == f && b[12 + n + l..12 + n + l + f] == item.filePath
      && Signed(Word(b, 12 + n + l + f)) == item.resType && Word(b, 16 + n + l + f) == c
      && (j < c ==>
           && Signed(Word(b, 20 + n + l + f + 8 * j)) == item.keyParams[j].keyType
           && Word(b, 24 + n + l + f + 8 * j) == item.keyParams[j].value)
      && Word(b, 20 + n + l + f + 8 * c) == d && b[24 + n + l + f + 8 * c..] == item.data
  {
    hide *;
    var b := Record(item);
    RecordSplits(item);
    HoldsWhole(b);
    HoldsBoth(b, 0, Head(item), Tail(item));
    HeadStands(b, 0, item);
    TailStands(b, |Head(item)|, item, j);
  }

  lemma HeadStands(b: Text, at: nat, item: Item)
    requires Fits(item) && Holds(b, at, Head(item))
    ensures var n, l, f := |item.name|, |item.limitKey|, |item.filePath|;
      && at + 16 + n + l + f <= |b|
      && Word(b, at) == n && b[at + 4..at + 4 + n] == item.name
      && Word(b, at + 4 + n) == l && b[at + 8 + n..at + 8 + n + l] == item.limitKey
      && Word(b, at + 8 + n + l) == f && b[at + 12 + n + l..at + 12 + n + l + f] == item.filePath
      && Signed(Word(b, at + 12 + n + l + f)) == item.resType
  {
    hide *;
    FitsIs(item);
    RecordSplits(item);
    HoldsFour(b, at, Field(item.name), Field(item.limitKey), Field(item.filePath), I32(item.resType));
    FieldStands(b, at, item.name);
    FieldStands(b, at + 4 + |item.name|, item.limitKey);
    FieldStands(b, at + 8 + |item.name| + |item.limitKey|, item.filePath);
    SignedWordIs(b, at + 12 + |item.name| + |item.limitKey| + |item.filePath|, item.resType);
  }

  lemma TailStands(b: Text, at: nat, item: Item, j: nat)
    requires Fits(item) && Holds(b, at, Tail(item))
    ensures var c, d := |item.keyParams|, |item.data|;
      && at + 8 + 8 * c + d <= |b| && Word(b, at) == c
      && (j < c ==>
           && Signed(Word(b, at + 4 + 8 * j)) == item.keyParams[j].keyType
           && Word(b, at + 8 + 8 * j) == item.keyParams[j].value)
      && Word(b, at + 4 + 8 * c) == d && b[at + 8 + 8 * c..at + 8 + 8 * c + d] == item.data
  {
    hide *;
    FitsIs(item);
    RecordSplits(item);
    ParamsSize(item.keyParams);
    HoldsBoth(b, at, I32(|item.keyParams|), Params(item.keyParams) + Field(item.data));
    HoldsBoth(b, at + 4, Params(item.keyParams), Field(item.data));
    CountWord(b, at, |item.keyParams|);
    if j < |item.keyParams| { ParamStands(b, at + 4, item.keyParams, j); }
    FieldStands(b, at + 4 + 8 * |item.keyParams|, item.data);
  }

  lemma CountWord(b: Text, at: nat, c: nat)
    requires c < 0x8000_0000 && Holds(b, at, I32(c))
    ensures at + 4 <= |b| && Word(b, at) == c
  {
    WordIs(b, at, c);
  }

  lemma FitsIs(item: Item)
    requires Fits(item)
    ensures |item.name| < 0x8000_0000 && |item.limitKey| < 0x8000_0000 && |item.filePath| < 0x8000_0000
    ensures |item.keyParams| < 0x8000_0000 && |item.data| < 0x8000_0000
  {
  }

  lemma RecordSplits(item: Item)
    requires Fits(item)
    ensures Record(item) == Head(item) + Tail(item)
    ensures Head(item) == Field(item.name) + (Field(item.limitKey) + (Field(item.filePath) + I32(item.resType)))
    ensures Tail(item) == I32(|item.keyParams|) + (Params(item.keyParams) + Field(item.data))
    ensures |Head(item)| == 16 + |item.name| + |item.limitKey| + |item.filePath| && |I32(item.resType)| == 4
    ensures |Record(item)| == 24 + |item.name| + |item.limitKey| + |item.filePath| + 8 * |item.keyParams| + |item.data|
    ensures |I32(|item.keyParams|)| == 4
  {
    ParamsSize(item.keyParams);
    hide Params, I32;
  }

  method WriteField(t: Text, out: Text) returns (r: Text)
    requires |t| < 0x8000_0000
    ensures r == out + Field(t)
  {
    r := out + I32(|t|);
    r := r + t;
  }

  method WriteResourceItem(item: Item, out: Text) returns (r: Text)
    requires Fits(item)
    ensures r == out + Record(item)
  {
    var body := WriteField(item.name, []);
    body := WriteField(item.limitKey, body);
    body := WriteField(item.filePath, body);
    body := body + I32(item.resType);
    assert body == Head(item) by {
      AssociateFour(Field(item.name), Field(item.limitKey), Field(item.filePath), I32(item.resType));
    }
    hide Head, Field;
    body := body + I32(|item.keyParams|);
    ghost var before := body;
    for i := 0 to |item.keyParams|
      invariant body == before + Params(item.keyParams[..i])
    {
      var p := item.keyParams[i];
      assert item.keyParams[..i + 1][..i] == item.keyParams[..i];
      Associate(before, Params(item.keyParams[..i]), Param(p));
      Associate(body, I32(p.keyType), Le32(p.value));
      body := body + I32(p.keyType);
      body := body + Le32(p.value);
    }
    assert item.keyParams[..|item.keyParams|] == item.keyParams;
    body := WriteField(item.data, body);
    AssociateFour(Head(item), I32(|item.keyParams|), Params(item.keyParams), Field(item.data));
    r := out + body;
  }

  // ------------------------------------------------------------ reading

  function Int32At(b: Text, offset: nat): (int32, nat) {
    if offset + 4 > |b| then (-1, |b|) else (Signed(FromLe32(b[offset..offset + 4])), offset + 4)
  }

  function StringAt(b: Text, offset: nat): (Text, nat) {
    var (size, at) := Int32At(b, offset);
    if size < 0 || at + size > |b| then ([], |b|)
    else if size == 0 then ([], at)
    else (b[at..at + size], at + size)
  }

  function ParamsAt(b: Text, offset: nat, n: int): (seq<KeyParam>, nat)
    decreases n
  {
    if n <= 0 then ([], offset)
    else
      var (ps, at) := ParamsAt(b, offset, n - 1);
      var (keyType, at1) := Int32At(b, at);
      var (value, at2) := Int32At(b, at1);
      (ps + [KeyParam(keyType, Unsigned(value))], at2)
  }

  function RecordAt(b: Text, offset: nat): (Item, nat) {
    var (name, o1) := StringAt(b, offset);
    var (limitKey, o2) := StringAt(b, o1);
    var (filePath, o3) := StringAt(b, o2);
    var (resType, o4) := Int32At(b, o3);
    var (size, o5) := Int32At(b, o4);
    var (keyParams, o6) := ParamsAt(b, o5, size);
    var (data, o7) := StringAt(b, o6);
    (Item(name, limitKey, filePath, resType, keyParams, data), o7)
  }

  // The fields one after the other, as the record cursor meets them.
  lemma RecordFrom(b: Text, o0: nat, item: Item, size: int32,
                   o1: nat, o2: nat, o3: nat, o4: nat, o5: nat, o6: nat, o7: nat)
    requires StringAt(b, o0) == (item.name, o1) && StringAt(b, o1) == (item.limitKey, o2)
    requires StringAt(b, o2) == (item.filePath, o3) && Int32At(b, o3) == (item.resType, o4)
    requires Int32At(b, o4) == (size, o5)
    requires ParamsAt(b, o5, size) == (item.keyParams, o6) && StringAt(b, o6) == (item.data, o7)
    ensures RecordAt(b, o0) == (item, o7)
  {
    hide StringAt, Int32At, ParamsAt;
  }

  lemma {:induction false} ParamsAdvance(b: Text, offset: nat, n: int)
    requires offset <= |b|
    ensures offset <= ParamsAt(b, offset, n).1 <= |b|
    decreases n
  {
    if n > 0 { ParamsAdvance(b, offset, n - 1); }
  }

  lemma TwoWords(b: Text, offset: nat)
    requires offset <= |b|
    ensures var (x, at) := Int32At(b, offset); var (y, end) := Int32At(b, at);
      if offset + 8 <= |b| then end == offset + 8 && x == Signed(Word(b, offset)) && Unsigned(y) == Word(b, offset + 4)
      else end == |b|
  {
    hide FromLe32;
  }

  lemma ParamsNone(b: Text, offset: nat, n: int)
    requires n <= 0
    ensures ParamsAt(b, offset, n) == ([], offset)
  {
  }

  lemma ParamsOne(b: Text, offset: nat, n: int)
    requires n > 0 && ParamsAt(b, offset, n - 1).1 <= |b|
    ensures var (before, at) := ParamsAt(b, offset, n - 1); var (ps, end) := ParamsAt(b, offset, n);
      && ps[..|ps| - 1] == before && |ps| == |before| + 1
      && (if at + 8 <= |b| then end == at + 8 && ps[|ps| - 1] == KeyParam(Signed(Word(b, at)), Word(b, at + 4))
          else end == |b|)
  {
    TwoWords(b, ParamsAt(b, offset, n - 1).1);
    hide Int32At, Word, Signed, Unsigned;
  }

  /** As many params as the count says, none for a negative one; those within the buffer are read as they stand. */
  lemma {:induction false} ParamsAre(b: Text, offset: nat, n: int, i: nat)
    requires offset <= |b|
    ensures var (ps, at) := ParamsAt(b, offset, n);
      && |ps| == (if n > 0 then n else 0) && at == (if offset + 8 * |ps| <= |b| then offset + 8 * |ps| else |b|)
      && (i < |ps| && offset + 8 * i + 8 <= |b| ==>
            ps[i] == KeyParam(Signed(Word(b, offset + 8 * i)), Word(b, offset + 8 * i + 4)))
    decreases n
  {
    hide *;
    if n > 0 {
      ParamsAre(b, offset, n - 1, i);
      ParamsOne(b, offset, n);
    } else {
      ParamsNone(b, offset, n);
    }
  }

  /** Whatever the buffer holds, reading a record stays inside it and moves the cursor on. */
  lemma RecordAdvances(b: Text, offset: nat)
    requires offset <= |b|
    ensures offset <= RecordAt(b, offset).1 <= |b|
    ensures offset < |b| ==> offset < RecordAt(b, offset).1
  {
    var o1 := StringAt(b, offset).1;
    var o2 := StringAt(b, o1).1;
    var o3 := StringAt(b, o2).1;
    var o4 := Int32At(b, o3).1;
    var (size, o5) := Int32At(b, o4);
    ParamsAdvance(b, o5, size);
  }

  // The records of a buffer, at least one: the loop tests the cursor at its end.
  function RecordsFrom(b: Text, offset: nat): seq<Item>
    requires offset <= |b|
    decreases |b| - offset
  {
    RecordAdvances(b, offset);
    var (item, at) := RecordAt(b, offset);
    if at < |b| then [item] + RecordsFrom(b, at) else [item]
  }

  // Raw file records are copied, not pushed.
  function Pushed(items: seq<Item>): seq<Item> {
    if items == [] then []
    else if items[|items| - 1].resType == RAW then Pushed(items[..|items| - 1])
    else Pushed(items[..|items| - 1]) + [items[|items| - 1]]
  }

  method ParseInt32(b: Text, offset: nat) returns (value: int32, at: nat)
    requires offset <= |b|
    ensures (value, at) == Int32At(b, offset) && offset <= at <= |b|
    ensures if offset + 4 <= |b| then value == Signed(Word(b, offset)) && at == offset + 4 else value == -1 && at == |b|
  {
    if offset + 4 > |b| {
      return -1, |b|;
    }
    return Signed(FromLe32(b[offset..offset + 4])), offset + 4;
  }

  method ParseString(b: Text, offset: nat) returns (t: Text, at: nat)
    requires offset <= |b|
    ensures (t, at) == StringAt(b, offset) && offset <= at <= |b|
    ensures if offset + 4 <= |b| && 0 <= Signed(Word(b, offset)) <= |b| - offset - 4
      then Signed(Word(b, offset)) == |t| && at == offset + 4 + |t| && t == b[offset + 4..at]
      else t == [] && at == |b|
  {
    var size;
    size, at := ParseInt32(b, offset);
    if size < 0 || at + size > |b| {
      return [], |b|;
    }
    if size == 0 {
      return [], at;
    }
    return b[at..at + size], at + size;
  }

  // LoadResourceItemFromMem up to the push of each item.
  method LoadResourceItemFromMem(b: Text) returns (items: seq<Item>)
    ensures items == Pushed(RecordsFrom(b, 0))
  {
    hide *;
    items := [];
    var offset := 0;
    ghost var read: seq<Item> := [];
    var more := true;
    NothingRead(RecordsFrom(b, 0));
    while more
      invariant offset <= |b| && items == Pushed(read)
      invariant RecordsFrom(b, 0) == if more then read + RecordsFrom(b, offset) else read
      decreases more, |b| - offset
    {
      ghost var start := offset;
      var name, limitKey, filePath, data;
      name, offset := ParseString(b, offset);
      ghost var o1 := offset;
      limitKey, offset := ParseString(b, offset);
      ghost var o2 := offset;
      filePath, offset := ParseString(b, offset);
      ghost var o3 := offset;
      var resType, size;
      resType, offset := ParseInt32(b, offset);
      ghost var o4 := offset;
      size, offset := ParseInt32(b, offset);
      ghost var o5 := offset;
      var keyParams;
      keyParams, offset := ParseKeyParams(b, offset, size);
      ghost var o6 := offset;
      data, offset := ParseString(b, offset);
      var item := Item(name, limitKey, filePath, resType, keyParams, data);
      RecordFrom(b, start, item, size, o1, o2, o3, o4, o5, o6, offset);
      PushedOne(read, item);
      RecordsStep(b, start, read);
      RecordAdvances(b, start);
      if resType != RAW {
        items := items + [item];
      }
      read := read + [item];
      more := offset < |b|;
    }
  }

  method ParseKeyParams(b: Text, offset: nat, size: int32) returns (keyParams: seq<KeyParam>, at: nat)
    requires offset <= |b|
    ensures (keyParams, at) == ParamsAt(b, offset, size) && offset <= at <= |b|
  {
    keyParams, at := [], offset;
    var i := 0;
    while i < size
      invariant 0 <= i && (i <= size || i == 0) && offset <= at <= |b|
      invariant (keyParams, at) == ParamsAt(b, offset, i)
    {
      var keyType, value;
      keyType, at := ParseInt32(b, at);
      value, at := ParseInt32(b, at);
      keyParams := keyParams + [KeyParam(keyType, Unsigned(value))];
      i := i + 1;
    }
  }

  lemma NothingRead(items: seq<Item>)
    ensures Pushed([]) == [] && [] + items == items
  {
  }

  lemma PushedOne(read: seq<Item>, item: Item)
    ensures Pushed(read + [item]) == if item.resType == RAW then Pushed(read) else Pushed(read) + [item]
  {
    assert (read + [item])[..|read|] == read;
  }

  /** Raw records, of type 6, are left out; all others stay, in their order. */
  lemma {:induction false} PushedIs(items: seq<Item>, more: seq<Item>)
    ensures Pushed(items + more) == Pushed(items) + Pushed(more)
    ensures |more| == 1 ==> Pushed(more) == if more[0].resType == 6 then [] else more
    decreases more
  {
    if more == [] {
      assert items + more == items;
    } else {
      var n := |more| - 1;
      assert (items + more)[..|items| + n] == items + more[..n] && (items + more)[|items| + n] == more[n];
      PushedIs(items, more[..n]);
      if n == 0 {
        assert more == [more[0]] && more[..0] == [];
      }
    }
  }

  lemma RecordsStep(b: Text, offset: nat, read: seq<Item>)
    requires offset <= |b|
    ensures var (item, at) := RecordAt(b, offset);
      at <= |b| && read + RecordsFrom(b, offset) == (read + [item]) + if at < |b| then RecordsFrom(b, at) else []
  {
    RecordAdvances(b, offset);
    hide RecordAt;
    var (item, at) := RecordAt(b, offset);
    if at < |b| { Associate(read, [item], RecordsFrom(b, at)); }
  }

  // ------------------------------------------------------------ round trip

  lemma ReadInt32(b: Text, at: nat, x: int32)
    requires Holds(b, at, I32(x))
    ensures Int32At(b, at) == (x, at + 4)
  {
    I32RoundTrip(x);
  }

  lemma ReadField(b: Text, at: nat, t: Text)
    requires |t| < 0x8000_0000 && Holds(b, at, Field(t))
    ensures StringAt(b, at) == (t, at + |Field(t)|)
  {
    HoldsBoth(b, at, I32(|t|), t);
    ReadInt32(b, at, |t|);
  }

  lemma ReadParam(b: Text, at: nat, p: KeyParam)
    requires Holds(b, at, Param(p))
    ensures Int32At(b, at) == (p.keyType, at + 4)
    ensures Int32At(b, at + 4).1 == at + 8 && Unsigned(Int32At(b, at + 4).0) == p.value
  {
    HoldsBoth(b, at, I32(p.keyType), Le32(p.value));
    ReadInt32(b, at, p.keyType);
    ReadInt32(b, at + 4, Signed(p.value));
  }

  lemma {:induction false} ReadParams(b: Text, at: nat, ps: seq<KeyParam>)
    requires Holds(b, at, Params(ps))
    ensures ParamsAt(b, at, |ps|) == (ps, at + |Params(ps)|)
  {
    hide *;
    if ps == [] {
      ReadNoParams(b, at);
    } else {
      var init, p := ps[..|ps| - 1], ps[|ps| - 1];
      ParamsStep(ps);
      var o1 := at + |Params(init)|;
      HoldsBoth(b, at, Params(init), Param(p));
      ReadParams(b, at, init);
      ReadParam(b, o1, p);
      ParamsAtOne(b, at, init, p, o1);
    }
  }

  lemma ReadNoParams(b: Text, at: nat)
    ensures ParamsAt(b, at, 0) == ([], at) && Params([]) == []
  {
  }

  lemma ParamsAtOne(b: Text, at: nat, init: seq<KeyParam>, p: KeyParam, o1: nat)
    requires ParamsAt(b, at, |init|) == (init, o1) && Int32At(b, o1) == (p.keyType, o1 + 4)
    requires Int32At(b, o1 + 4).1 == o1 + 8 && Unsigned(Int32At(b, o1 + 4).0) == p.value
    ensures ParamsAt(b, at, |init| + 1) == (init + [p], o1 + 8)
  {
    hide Int32At, Unsigned;
  }

  lemma ReadHead(b: Text, at: nat, item: Item) returns (o1: nat, o2: nat, o3: nat, o4: nat)
    requires Fits(item) && Holds(b, at, Head(item))
    ensures StringAt(b, at) == (item.name, o1) && StringAt(b, o1) == (item.limitKey, o2)
    ensures StringAt(b, o2) == (item.filePath, o3) && Int32At(b, o3) == (item.resType, o4)
    ensures o4 == at + |Head(item)|
  {
    var n, l, f, t := Field(item.name), Field(item.limitKey), Field(item.filePath), I32(item.resType);
    o1, o2, o3, o4 := at + |n|, at + |n| + |l|, at + |n| + |l| + |f|, at + |Head(item)|;
    HoldsFour(b, at, n, l, f, t);
    hide Holds, Field;
    ReadField(b, at, item.name);
    ReadField(b, o1, item.limitKey);
    ReadField(b, o2, item.filePath);
    ReadInt32(b, o3, item.resType);
  }

  lemma ReadTail(b: Text, at: nat, item: Item) returns (o5: nat, o6: nat, o7: nat)
    requires Fits(item) && Holds(b, at, Tail(item))
    ensures Int32At(b, at) == (|item.keyParams|, o5)
    ensures ParamsAt(b, o5, |item.keyParams|) == (item.keyParams, o6) && StringAt(b, o6) == (item.data, o7)
    ensures o7 == at + |Tail(item)|
  {
    hide Holds, Params, Field, StringAt, Int32At, ParamsAt, Le32;
    var c, ps, d := I32(|item.keyParams|), Params(item.keyParams), Field(item.data);
    o5, o6, o7 := at + 4, at + 4 + |ps|, at + 4 + |ps| + |d|;
    HoldsBoth(b, at, c, ps + d);
    HoldsBoth(b, o5, ps, d);
    ReadInt32(b, at, |item.keyParams|);
    ReadParams(b, o5, item.keyParams);
    ReadField(b, o6, item.data);
  }

  lemma RecordIs(item: Item)
    requires Fits(item)
    ensures Record(item) == Head(item) + Tail(item)
  {
    hide Head, Tail, Fits;
  }

  lemma ReadRecord(b: Text, at: nat, item: Item)
    requires Fits(item) && Holds(b, at, Record(item))
    ensures RecordAt(b, at) == (item, at + |Record(item)|)
  {
    hide *;
    RecordIs(item);
    HoldsBoth(b, at, Head(item), Tail(item));
    var o1, o2, o3, o4 := ReadHead(b, at, item);
    var o5, o6, o7 := ReadTail(b, o4, item);
    RecordFrom(b, at, item, |item.keyParams|, o1, o2, o3, o4, o5, o6, o7);
  }

  function Written(items: seq<Item>): Text
    requires forall i :: 0 <= i < |items| ==> Fits(items[i])
  {
    if items == [] then [] else Record(items[0]) + Written(items[1..])
  }

  lemma WrittenStep(items: seq<Item>)
    requires items != [] && forall i :: 0 <= i < |items| ==> Fits(items[i])
    ensures forall i :: 0 <= i < |items[1..]| ==> Fits(items[1..][i])
    ensures Written(items) == Record(items[0]) + Written(items[1..])
    ensures |Record(items[0])| > 0 && (items[1..] == [] <==> Written(items[1..]) == [])
    ensures items == [items[0]] + items[1..]
  {
    RecordNonempty(items[0]);
    if items[1..] != [] {
      RecordNonempty(items[1..][0]);
    }
  }

  lemma RecordsFromStep(b: Text, at: nat, item: Item, next: nat)
    requires at <= |b| && RecordAt(b, at) == (item, next)
    ensures at <= next <= |b|
    ensures RecordsFrom(b, at) == if next < |b| then [item] + RecordsFrom(b, next) else [item]
  {
    RecordAdvances(b, at);
    hide RecordAt;
  }

  lemma {:induction false} ReadWritten(b: Text, at: nat, items: seq<Item>)
    requires items != [] && forall i :: 0 <= i < |items| ==> Fits(items[i])
    requires Holds(b, at, Written(items)) && at + |Written(items)| == |b|
    ensures RecordsFrom(b, at) == items
    decreases items
  {
    hide *;
    var item, rest := items[0], items[1..];
    WrittenStep(items);
    var r := Record(item);
    HoldsBoth(b, at, r, Written(rest));
    ReadRecord(b, at, item);
    RecordsFromStep(b, at, item, at + |r|);
    if rest != [] {
      ReadWritten(b, at + |r|, rest);
    }
  }

  lemma RecordNonempty(item: Item)
    requires Fits(item)
    ensures |Record(item)| > 0
  {
  }

  lemma {:induction false} PushedAll(items: seq<Item>)
    requires forall i :: 0 <= i < |items| ==> items[i].resType != RAW
    ensures Pushed(items) == items
  {
    if items != [] { PushedAll(items[..|items| - 1]); }
  }

  /** Loading a file of any written items, at least one and none of them raw, gives back those items. */
  lemma LoadWritten(items: seq<Item>)
    requires items != []
    requires forall i :: 0 <= i < |items| ==> Fits(items[i]) && items[i].resType != RAW
    ensures Pushed(RecordsFrom(Written(items), 0)) == items
  {
    hide *;
    var b := Written(items);
    HoldsWhole(b);
    ReadWritten(b, 0, items);
    PushedAll(items);
  }
}
