/**
 The resource id allocator.  Ids is its state as a value; class IdWorker updates the same state in
 place.  Ids read back from an earlier build are pushed into a cache; the ids they skip are reused
 before new ones are taken.
 */
module IdWorkers {
  import opened Bytes
  import opened IdDefinitions
  import opened ResourceData
  import opened Sequences

  datatype Ids = Ids(
    start: int,
    maxId: int,
    appId: int,
    ids: map<ResName, int>,
    cacheIds: map<ResName, int>,
    delIds: seq<int>)

  // ------------------------------------------------------------ the id range

  // The largest power of two dividing n.
  function LowBit(n: nat): (b: nat)
    requires n > 0
    ensures 0 < b <= n
  {
    if n % 2 == 1 then 1 else 2 * LowBit(n / 2)
  }

  function MaxId(start: nat): nat
    requires start > 0
  {
    start + LowBit(start) - 1
  }

  function Pow2(k: nat): (p: nat)
    ensures p > 0
  {
    if k == 0 then 1 else 2 * Pow2(k - 1)
  }

  lemma {:induction false} LowBitDivides(n: nat) returns (q: nat)
    requires n > 0
    ensures n == q * LowBit(n) && q % 2 == 1
  {
    if n % 2 == 0 {
      q := LowBitDivides(n / 2);
      assert n == 2 * (q * LowBit(n / 2)) == q * (2 * LowBit(n / 2));
    } else {
      q := n;
    }
  }

  lemma LowBitStep(n: nat, q: nat, flag: nat)
    requires flag > 0 && q > 0 && q % 2 == 0 && n == q * flag
    ensures n == (q / 2) * (flag * 2) && n / (flag * 2) == q / 2
    ensures LowBit(q) * flag == LowBit(q / 2) * (flag * 2)
  {
    var h := q / 2;
    assert q * flag == (2 * h) * flag == h * (flag * 2);
    assert LowBit(q) * flag == (2 * LowBit(h)) * flag == LowBit(h) * (flag * 2);
    DivBlock(h, flag * 2, n);
  }

  // Below 2^k there is room above n for its whole low-bit block.
  lemma {:induction false} LowBitFits(n: nat, k: nat)
    requires 0 < n < Pow2(k)
    ensures n + LowBit(n) <= Pow2(k)
  {
    if n % 2 == 0 {
      LowBitFits(n / 2, k - 1);
    }
  }

  lemma {:induction false} Pow2Sum(a: nat, b: nat)
    ensures Pow2(a + b) == Pow2(a) * Pow2(b)
  {
    if a > 0 {
      Pow2Sum(a - 1, b);
      Doubled(Pow2(a - 1), Pow2(b));
    }
  }

  lemma Doubled(x: int, y: int)
    ensures 2 * (x * y) == (2 * x) * y
  {
  }

  lemma Pow2Of31()
    ensures Pow2(31) == 0x8000_0000
  {
    assert Pow2(4) == 16 && Pow2(3) == 8;
    Pow2Sum(4, 4);
    Pow2Sum(8, 8);
    Pow2Sum(4, 3);
    Pow2Sum(8, 7);
    Pow2Sum(16, 15);
  }

  /** For every positive start id, the top of the range is found without int32 overflow. */
  lemma MaxIdFits(start: nat)
    requires 0 < start < 0x8000_0000
    ensures start <= MaxId(start) < 0x8000_0000
  {
    Pow2Of31();
    LowBitFits(start, 31);
  }

  lemma MulMonotone(x: int, y: int, b: int)
    requires x <= y && b >= 0
    ensures x * b <= y * b
  {
    assert (y - x) * b == y * b - x * b;
    assert (y - x) * b >= 0;
  }

  lemma DivBlock(q: int, b: int, i: int)
    requires b > 0
    ensures q * b <= i < q * b + b <==> i / b == q
  {
    var d, r := i / b, i % b;
    assert i == d * b + r && 0 <= r < b;
    if d < q {
      MulMonotone(d + 1, q, b);
      assert (d + 1) * b == d * b + b;
    } else if d > q {
      MulMonotone(q + 1, d, b);
      assert (q + 1) * b == q * b + b;
    }
  }

  /** The range is the block of ids that agree with start above its lowest set bit. */
  lemma RangeIsBlock(start: nat, i: int)
    requires start > 0
    ensures start <= i <= MaxId(start) <==> i / LowBit(start) == start / LowBit(start)
  {
    var q := LowBitDivides(start);
    DivBlock(q, LowBit(start), i);
    DivBlock(q, LowBit(start), start);
  }

  // ------------------------------------------------------------ cache and allocation

  function InitialIds(start: nat): Ids
    requires start > 0
  {
    Ids(start, MaxId(start), start, map[], map[], [])
  }

  function Upto(lo: int, hi: int): (s: seq<int>)
    ensures |s| == (if lo < hi then hi - lo else 0) && forall i :: 0 <= i < |s| ==> s[i] == lo + i
  {
    if lo < hi then seq(hi - lo, i => lo + i) else []
  }

  lemma UptoHolds(lo: int, hi: int, i: int)
    ensures i in Upto(lo, hi) <==> lo <= i < hi
  {
    if lo <= i < hi { assert Upto(lo, hi)[i - lo] == i; }
  }

  // PushCache; when it fails the entry is in the cache all the same unless the name was there.
  function Pushed(s: Ids, key: ResName, id: int): (Ids, bool) {
    if key in s.cacheIds then (s, false)
    else
      var t := s.(cacheIds := s.cacheIds[key := id]);
      if s.appId == id then (t.(appId := id + 1), true)
      else if id < s.appId then (t, false)
      else (t.(delIds := s.delIds + Upto(s.appId, id), appId := id + 1), true)
  }

  // GenerateAppId: the state and the id, -1 if the range is used up.
  function Generated(s: Ids, key: ResName): (Ids, int) {
    if key in s.ids then (s, s.ids[key])
    else if key in s.cacheIds then (s.(ids := s.ids[key := s.cacheIds[key]]), s.cacheIds[key])
    else if s.appId > s.maxId then (s, -1)
    else if s.delIds != [] then (s.(ids := s.ids[key := s.delIds[0]], delIds := s.delIds[1..]), s.delIds[0])
    else (s.(ids := s.ids[key := s.appId], appId := s.appId + 1), s.appId)
  }

  ghost predicate Injective(m: map<ResName, int>) {
    forall a, b :: a in m && b in m && a != b ==> m[a] != m[b]
  }

  ghost function Range(lo: int, hi: int): (r: set<int>)
    ensures forall i :: i in r <==> lo <= i < hi
  {
    assert forall i {:trigger i in Upto(lo, hi)} :: i in Upto(lo, hi) <==> lo <= i < hi by {
      forall i ensures i in Upto(lo, hi) <==> lo <= i < hi { UptoHolds(lo, hi, i); }
    }
    Elems(Upto(lo, hi))
  }

  // Ids handed out that are nobody's cached id.
  ghost function Handed(s: Ids): set<int> { s.ids.Values - s.cacheIds.Values }

  // No two names share an id.
  ghost predicate Names(s: Ids) {
    && Injective(s.ids) && Injective(s.cacheIds)
    && (forall k :: k in s.ids && s.ids[k] in s.cacheIds.Values ==> k in s.cacheIds && s.cacheIds[k] == s.ids[k])
  }

  // [start, appId) is the disjoint union of cached ids, gap ids and non-cached ids handed out; gaps rise.
  ghost predicate Partition(s: Ids) {
    && 0 <= s.start <= s.appId
    && (forall i, j :: 0 <= i < j < |s.delIds| ==> s.delIds[i] < s.delIds[j])
    && s.cacheIds.Values !! Elems(s.delIds) !! Handed(s)
    && s.cacheIds.Values + Elems(s.delIds) + Handed(s) == Range(s.start, s.appId)
    && (forall id :: id in Handed(s) ==> id <= s.maxId)
  }

  ghost predicate Inv(s: Ids) {
    Names(s) && Partition(s)
  }

  lemma AddedValues(m: map<ResName, int>, key: ResName, id: int)
    requires key !in m
    ensures m[key := id].Values == m.Values + {id}
  {
    var n := m[key := id];
    assert n[key] == id && forall k :: k in m ==> n[k] == m[k];
    forall v | v in m.Values + {id}
      ensures v in n.Values
    {
      if v != id { var k :| k in m && m[k] == v; assert n[k] == v; }
    }
  }

  lemma InRange(s: Ids, key: ResName)
    requires Partition(s)
    ensures key in s.ids ==> s.start <= s.ids[key] < s.appId && s.ids[key] in s.ids.Values && s.ids[key] !in s.delIds
    ensures key in s.cacheIds ==> s.start <= s.cacheIds[key] < s.appId && s.cacheIds[key] in s.cacheIds.Values
    ensures forall i :: 0 <= i < |s.delIds| ==> s.start <= s.delIds[i] < s.appId && s.delIds[i] !in s.ids.Values
  {
    assert forall i :: 0 <= i < |s.delIds| ==> s.delIds[i] in Elems(s.delIds);
    assert s.ids.Values <= s.cacheIds.Values + Handed(s) <= Range(s.start, s.appId);
    assert key in s.ids ==> s.ids[key] in s.ids.Values;
    assert key in s.cacheIds ==> s.cacheIds[key] in s.cacheIds.Values;
  }

  lemma PushKeepsNames(s: Ids, key: ResName, id: int)
    requires Inv(s) && Pushed(s, key, id).1
    ensures Names(Pushed(s, key, id).0)
  {
    AddedValues(s.cacheIds, key, id);
    forall k ensures k in s.ids ==> s.ids[k] < s.appId { InRange(s, k); }
    forall k ensures k in s.cacheIds ==> s.cacheIds[k] < s.appId { InRange(s, k); }
    assert s.appId <= id;
  }

  lemma PushKeepsPartition(s: Ids, key: ResName, id: int)
    requires Partition(s) && Pushed(s, key, id).1
    ensures Partition(Pushed(s, key, id).0)
  {
    var t := Pushed(s, key, id).0;
    AddedValues(s.cacheIds, key, id);
    GapElems(s.delIds, s.appId, id);
    assert Elems(t.delIds) == Elems(s.delIds) + Range(s.appId, id);
    assert Handed(t) == Handed(s) by { UsedInRange(s); }
    GapsRise(s, id);
  }

  lemma UsedInRange(s: Ids)
    requires Partition(s)
    ensures s.ids.Values <= Range(s.start, s.appId)
  {
  }

  lemma GapElems(d: seq<int>, lo: int, hi: int)
    ensures Elems(d + Upto(lo, hi)) == Elems(d) + Range(lo, hi)
  {
    assert forall i :: i in d + Upto(lo, hi) <==> i in d || i in Upto(lo, hi);
  }

  lemma GapsRise(s: Ids, id: int)
    requires Partition(s)
    ensures var d := s.delIds + Upto(s.appId, id); forall i, j :: 0 <= i < j < |d| ==> d[i] < d[j]
  {
    assert forall i :: 0 <= i < |s.delIds| ==> s.delIds[i] in Elems(s.delIds);
    assert Elems(s.delIds) <= Range(s.start, s.appId);
  }

  lemma GenerateKeepsNames(s: Ids, key: ResName)
    requires Inv(s)
    ensures Names(Generated(s, key).0)
  {
    var (t, id) := Generated(s, key);
    if key !in s.ids && id != -1 {
      InRange(s, key);
      forall k ensures k in s.ids ==> s.start <= s.ids[k] < s.appId && s.ids[k] in s.ids.Values { InRange(s, k); }
      forall k ensures k in s.cacheIds ==> s.start <= s.cacheIds[k] < s.appId { InRange(s, k); }
      assert key !in s.cacheIds && s.delIds != [] ==> id in Elems(s.delIds);
    }
  }

  lemma GenerateKeepsPartition(s: Ids, key: ResName)
    requires Partition(s)
    ensures Partition(Generated(s, key).0)
  {
    if key !in s.ids && key in s.cacheIds {
      var id := s.cacheIds[key];
      InRange(s, key);
      AddedValues(s.ids, key, id);
      assert Handed(s.(ids := s.ids[key := id])) == Handed(s);
    } else if key !in s.ids && s.appId <= s.maxId {
      if s.delIds != [] { ReuseKeepsPartition(s, key); } else { TakeKeepsPartition(s, key); }
    }
  }

  lemma ReuseKeepsPartition(s: Ids, key: ResName)
    requires Partition(s) && key !in s.ids && s.appId <= s.maxId && s.delIds != []
    ensures Partition(s.(ids := s.ids[key := s.delIds[0]], delIds := s.delIds[1..]))
  {
    var id, rest := s.delIds[0], s.delIds[1..];
    InRange(s, key);
    AddedValues(s.ids, key, id);
    assert s.delIds == [id] + rest;
    assert Elems(s.delIds) == Elems(rest) + {id};
    assert Handed(s.(ids := s.ids[key := id], delIds := rest)) == Handed(s) + {id};
  }

  lemma TakeKeepsPartition(s: Ids, key: ResName)
    requires Partition(s) && key !in s.ids && s.appId <= s.maxId && s.delIds == []
    ensures Partition(s.(ids := s.ids[key := s.appId], appId := s.appId + 1))
  {
    InRange(s, key);
    AddedValues(s.ids, key, s.appId);
    assert Handed(s.(ids := s.ids[key := s.appId], appId := s.appId + 1)) == Handed(s) + {s.appId};
  }

  datatype Op = Push(key: ResName, id: int) | Generate(key: ResName)

  // A run of calls; a failing push ends it.
  function Run(start: nat, ops: seq<Op>): Option<Ids>
    requires start > 0
  {
    if ops == [] then Some(InitialIds(start))
    else
      var before := Run(start, ops[..|ops| - 1]);
      if before.None? then None
      else match ops[|ops| - 1]
        case Push(key, id) => if Pushed(before.value, key, id).1 then Some(Pushed(before.value, key, id).0) else None
        case Generate(key) => Some(Generated(before.value, key).0)
  }

  lemma RunStep(start: nat, ops: seq<Op>, op: Op)
    requires start > 0 && Run(start, ops).Some?
    ensures var s := Run(start, ops).value;
      Run(start, ops + [op]) ==
      match op
      case Push(key, id) => if Pushed(s, key, id).1 then Some(Pushed(s, key, id).0) else None
      case Generate(key) => Some(Generated(s, key).0)
  {
    assert (ops + [op])[..|ops|] == ops;
  }

  /** Through every run of pushes and generations, cached ids, gaps and other ids handed out split the
      range used so far, and no two names share an id. */
  lemma {:induction false} RunKeepsInv(start: nat, ops: seq<Op>)
    requires start > 0 && Run(start, ops).Some?
    ensures Inv(Run(start, ops).value)
    ensures Run(start, ops).value.start == start && Run(start, ops).value.maxId == MaxId(start)
  {
    if ops == [] {
      assert Elems<int>([]) == {} && Range(start, start) == {};
    } else {
      RunKeepsInv(start, ops[..|ops| - 1]);
      var s := Run(start, ops[..|ops| - 1]).value;
      match ops[|ops| - 1]
      case Push(key, id) => PushKeepsNames(s, key, id); PushKeepsPartition(s, key, id);
      case Generate(key) => GenerateKeepsNames(s, key); GenerateKeepsPartition(s, key);
    }
  }

  /** What a generation returns after any run: the name's id for good if it has one, else its cached id,
      else an id of the range [start, MaxId(start)] that no other name has, or -1. */
  lemma {:induction false} GenerateReturns(start: nat, ops: seq<Op>, key: ResName)
    requires start > 0 && Run(start, ops).Some?
    ensures var s := Run(start, ops).value; var (t, id) := Generated(s, key);
      && (id != -1 ==> key in t.ids && t.ids[key] == id && start <= id < t.appId)
      && (forall k :: k in s.ids ==> k in t.ids && t.ids[k] == s.ids[k])
      && (forall k :: k in t.ids && k != key ==> k in s.ids && t.ids[k] != id)
      && (key in s.ids ==> id == s.ids[key])
      && (key !in s.ids && key in s.cacheIds ==> id == s.cacheIds[key])
      && (key !in s.ids && key !in s.cacheIds ==>
            && (id == -1 <==> s.appId > MaxId(start)) && (id == -1 || start <= id <= MaxId(start))
            && id !in s.cacheIds.Values)
  {
    var s := Run(start, ops).value;
    var (t, id) := Generated(s, key);
    RunKeepsInv(start, ops);
    InRange(s, key);
    assert Injective(t.ids) by { GenerateKeepsNames(s, key); }
    if key in s.ids {
      assert id == s.ids[key];
    }
    assert -1 !in s.cacheIds.Values;
    assert key !in s.ids && key !in s.cacheIds && id != -1 ==> id in Elems(s.delIds) || id == s.appId;
    assert s.cacheIds.Values <= Range(s.start, s.appId);
  }

  // An id of the range used so far, or the next one, that is nobody's: neither cached nor handed out.
  ghost predicate Free(s: Ids, id: int) {
    s.start <= id <= s.appId && id !in s.cacheIds.Values && id !in s.ids.Values
  }

  lemma FreeIs(s: Ids, id: int)
    requires Partition(s)
    ensures Free(s, id) <==> id in s.delIds || id == s.appId
  {
    UsedInRange(s);
    assert s.cacheIds.Values <= Range(s.start, s.appId) && Elems(s.delIds) <= Range(s.start, s.appId);
    if id in s.delIds { assert id in Elems(s.delIds); }
    if Free(s, id) && id != s.appId { assert id in Range(s.start, s.appId); }
  }

  // A generation for a new name takes the least free id, and leaves those above it, one of them new.
  lemma TakesLeast(s: Ids, key: ResName)
    requires Inv(s) && key !in s.ids && key !in s.cacheIds && Generated(s, key).1 != -1
    ensures var (t, id) := Generated(s, key);
      && Free(s, id) && (forall i :: Free(s, i) ==> id <= i)
      && (forall i :: Free(t, i) ==> id < i)
  {
    var (t, id) := Generated(s, key);
    GenerateKeepsPartition(s, key);
    forall i ensures Free(s, i) <==> i in s.delIds || i == s.appId { FreeIs(s, i); }
    forall i ensures Free(t, i) <==> i in t.delIds || i == t.appId { FreeIs(t, i); }
    InRange(s, key);
    InRange(t, key);
    hide Partition, Names, Free;
  }

  // Other generations leave the free ids as they are.
  lemma TakesNone(s: Ids, key: ResName)
    requires Inv(s) && (key in s.ids || key in s.cacheIds || Generated(s, key).1 == -1)
    ensures forall i :: Free(Generated(s, key).0, i) ==> Free(s, i)
  {
    var t := Generated(s, key).0;
    GenerateKeepsPartition(s, key);
    forall i ensures Free(t, i) ==> Free(s, i) {
      FreeIs(s, i);
      FreeIs(t, i);
    }
  }

  /** After any run, a new name gets the least id that is neither cached nor handed out. */
  lemma LeastFree(start: nat, ops: seq<Op>, key: ResName)
    requires start > 0 && Run(start, ops).Some?
    requires key !in Run(start, ops).value.ids && key !in Run(start, ops).value.cacheIds
    requires Generated(Run(start, ops).value, key).1 != -1
    ensures var s := Run(start, ops).value; var id := Generated(s, key).1;
      Free(s, id) && forall i :: Free(s, i) ==> id <= i
  {
    RunKeepsInv(start, ops);
    TakesLeast(Run(start, ops).value, key);
    hide Run, Inv, Free, Generated;
  }

  // ------------------------------------------------------------ the counter's width

  const INT32_MAX := 0x7fff_ffff

  predicate Width(op: Op) { op.Push? ==> op.id <= INT32_MAX }

  // The state after a call, whether it succeeds or not.
  function After(s: Ids, op: Op): Ids {
    match op
    case Push(key, id) => Pushed(s, key, id).0
    case Generate(key) => Generated(s, key).0
  }

  // A call adds one to the last int32: a new name cached with that id, or a new one given it.
  predicate Overflows(s: Ids, op: Op) {
    match op
    case Push(key, id) => key !in s.cacheIds && id == INT32_MAX
    case Generate(key) =>
      key !in s.ids && key !in s.cacheIds && s.delIds == [] && s.appId == INT32_MAX && INT32_MAX <= s.maxId
  }

  /** After any run that has kept the counter within int32, what the next call must be to carry it beyond. */
  lemma {:induction false} AppIdOverflow(start: nat, ops: seq<Op>, op: Op)
    requires start > 0 && Run(start, ops).Some? && Width(op)
    requires Run(start, ops).value.appId <= INT32_MAX
    ensures After(Run(start, ops).value, op).appId > INT32_MAX <==> Overflows(Run(start, ops).value, op)
    ensures After(Run(start, ops).value, op).appId <= INT32_MAX + 1
  {
    hide Run;
  }

  lemma PrefixRuns(start: nat, ops: seq<Op>)
    requires start > 0 && Run(start, ops).Some? && ops != []
    ensures var init, op := ops[..|ops| - 1], ops[|ops| - 1];
      && Run(start, init).Some?
      && Run(start, ops).value == After(Run(start, init).value, op)
      && (op.Push? ==> Pushed(Run(start, init).value, op.key, op.id).1)
  {
  }

  lemma CounterGrows(s: Ids, op: Op)
    requires op.Push? ==> Pushed(s, op.key, op.id).1
    ensures After(s, op).appId >= s.appId
  {
  }

  lemma {:induction false} EveryPrefixRuns(start: nat, ops: seq<Op>, i: nat)
    requires start > 0 && Run(start, ops).Some? && i <= |ops|
    ensures Run(start, ops[..i]).Some? && Run(start, ops[..i]).value.appId <= Run(start, ops).value.appId
    decreases |ops|
  {
    hide Run, Pushed, Generated, After;
    if i == |ops| {
      assert ops[..i] == ops;
    } else {
      var n := |ops| - 1;
      PrefixRuns(start, ops);
      CounterGrows(Run(start, ops[..n]).value, ops[n]);
      EveryPrefixRuns(start, ops[..n], i);
      assert ops[..n][..i] == ops[..i];
    }
  }

  // Some call of the run, met by a counter within int32, overflows it.
  ghost predicate OverflowsAt(start: nat, ops: seq<Op>, i: nat)
    requires start > 0
  {
    && i < |ops| && Run(start, ops[..i]).Some?
    && Run(start, ops[..i]).value.appId <= INT32_MAX && Overflows(Run(start, ops[..i]).value, ops[i])
  }

  /** A run leaves int32 exactly if one of its calls does. */
  lemma {:induction false} RunOverflows(start: nat, ops: seq<Op>)
    requires 0 < start <= INT32_MAX && Run(start, ops).Some?
    requires forall i :: 0 <= i < |ops| ==> Width(ops[i])
    ensures Run(start, ops).value.appId > INT32_MAX <==> exists i: nat :: OverflowsAt(start, ops, i)
  {
    hide *;
    if ops == [] {
      NoCalls(start);
    } else {
      var n := |ops| - 1;
      var init := ops[..n];
      PrefixRuns(start, ops);
      RunOverflows(start, init);
      var s := Run(start, init).value;
      if s.appId <= INT32_MAX {
        AppIdOverflow(start, init, ops[n]);
      } else {
        CounterGrows(s, ops[n]);
      }
      forall i: nat
        ensures OverflowsAt(start, ops, i) <==> OverflowsAt(start, init, i) || (i == n && OverflowsAt(start, ops, n))
      {
        OverflowsEarlier(start, ops, i);
      }
      OverflowsLast(start, ops);
    }
  }

  lemma NoCalls(start: nat)
    requires 0 < start <= INT32_MAX
    ensures Run(start, []).Some? && Run(start, []).value.appId <= INT32_MAX
    ensures forall i: nat :: !OverflowsAt(start, [], i)
  {
  }

  lemma OverflowsEarlier(start: nat, ops: seq<Op>, i: nat)
    requires start > 0 && ops != []
    ensures OverflowsAt(start, ops, i) <==>
      if i < |ops| - 1 then OverflowsAt(start, ops[..|ops| - 1], i) else i == |ops| - 1 && OverflowsAt(start, ops, i)
    ensures i >= |ops| - 1 ==> !OverflowsAt(start, ops[..|ops| - 1], i)
  {
    hide Run, Overflows;
    if i < |ops| - 1 { assert ops[..|ops| - 1][..i] == ops[..i]; }
  }

  lemma OverflowsLast(start: nat, ops: seq<Op>)
    requires start > 0 && ops != []
    ensures var init, n := ops[..|ops| - 1], |ops| - 1;
      OverflowsAt(start, ops, n) <==>
      Run(start, init).Some? && Run(start, init).value.appId <= INT32_MAX && Overflows(Run(start, init).value, ops[n])
  {
    hide Run, Overflows;
  }

  /** Replaying a saved table with the last int32 in it does overflow the counter. */
  lemma LastIdOverflows(key: ResName)
    ensures Run(0x0100_0000, [Push(key, INT32_MAX)]).Some?
    ensures Run(0x0100_0000, [Push(key, INT32_MAX)]).value.appId == INT32_MAX + 1
  {
    assert [Push(key, INT32_MAX)][..0] == [];
  }

  // ------------------------------------------------------------ the allocator object

  // Ids given stay given.
  ghost predicate Kept(before: map<ResName, int>, after: map<ResName, int>) {
    forall key :: key in before ==> key in after && after[key] == before[key]
  }

  lemma KeptOn(a: map<ResName, int>, b: map<ResName, int>, c: map<ResName, int>)
    requires Kept(a, b) && Kept(b, c)
    ensures Kept(a, c)
  {
  }

  datatype Cluster = APP | SYS

  class IdWorker {
    var cluster: Cluster
    var appId: int
    var maxId: int
    var ids: map<ResName, int>
    var definedIds: map<ResName, int>
    var delIds: seq<int>
    var cacheIds: map<ResName, int>
    ghost var start: int

    constructor ()
      ensures ids == map[] && cacheIds == map[] && delIds == [] && definedIds == map[] && cluster == APP
    {
      cluster, appId, maxId, start := APP, 0, 0, 0;
      ids, definedIds, cacheIds, delIds := map[], map[], map[], [];
    }

    ghost function State(): Ids
      reads this
    {
      Ids(start, maxId, appId, ids, cacheIds, delIds)
    }

    predicate IsValidName(name: Text)
      reads this`cluster
    {
      IsPlainName(name) && (cluster == SYS ==> IsValidSystemName(name))
    }

    // Init, with the shape of the definition files checked: a system build reads one for each input, an
    // application build at most one.
    method Init(kind: Cluster, startId: nat, files: seq<DefinedFile>) returns (ok: bool)
      requires startId > 0 && ids == map[] && definedIds == map[] && cacheIds == map[] && delIds == []
      modifies this
      ensures cluster == kind && ids == map[]
      ensures ok <==> (forall f :: 0 <= f < |files| ==> Acceptable(files[f])) && NamesApart(Entries(files))
      ensures ok ==> Valid() && Lists(definedIds, Entries(files))
      ensures ok && kind == APP ==> State() == InitialIds(startId)
    {
      cluster := kind;
      ok := InitIdDefined(files);
      if !ok {
        return;
      }
      if kind == APP {
        appId, start := startId, startId;
        maxId := GetMaxId(startId);
        RunKeepsInv(startId, []);
      }
    }

    method InitIdDefined(files: seq<DefinedFile>) returns (ok: bool)
      requires definedIds == map[]
      modifies this`definedIds
      ensures ok <==> (forall f :: 0 <= f < |files| ==> Acceptable(files[f])) && NamesApart(Entries(files))
      ensures ok ==> Lists(definedIds, Entries(files)) && forall k :: k in definedIds ==> definedIds[k] >= 0
      ensures ok ==> forall f: nat, j: nat :: f < |files| && j < |files[f].record| ==>
        files[f].record[j] in definedIds && definedIds[files[f].record[j]] == files[f].startId + j
    {
      hide Acceptable, NamesApart, Lists, EntriesOf, Entries;
      NoEntries();
      for f := 0 to |files|
        invariant forall g :: 0 <= g < f ==> Acceptable(files[g])
        invariant NamesApart(Entries(files[..f])) && Lists(definedIds, Entries(files[..f]))
        invariant forall k :: k in definedIds ==> definedIds[k] >= 0
      {
        EntriesStep(files, f);
        var fine := ReadDefined(files[f], Entries(files[..f]));
        if !fine {
          if NamesApart(Entries(files)) { EntriesPrefix(files, f + 1); }
          return false;
        }
      }
      assert files[..|files|] == files;
      DefinedAre(files, definedIds);
      return true;
    }

    method ReadDefined(file: DefinedFile, ghost done: seq<(ResName, int)>) returns (ok: bool)
      requires NamesApart(done) && Lists(definedIds, done) && forall k :: k in definedIds ==> definedIds[k] >= 0
      modifies this`definedIds
      ensures ok <==> Acceptable(file) && NamesApart(done + EntriesOf(file))
      ensures ok ==> Lists(definedIds, done + EntriesOf(file)) && forall k :: k in definedIds ==> definedIds[k] >= 0
    {
      hide *;
      if file.startId < 0 || file.record == [] {
        assert !Acceptable(file) by { AcceptableIs(file); }
        return false;
      }
      var i := 0;
      ReadStarts(file, done);
      while i < |file.record|
        invariant i <= |file.record|
        invariant NamesApart(done + EntriesOf(file)[..i]) && Lists(definedIds, done + EntriesOf(file)[..i])
        invariant SystemStart(file.startId) ==> forall j :: 0 <= j < i ==> IsValidSystemName(file.record[j].1)
        invariant forall k :: k in definedIds ==> definedIds[k] >= 0
      {
        var key := file.record[i];
        ReadStep(file, done, i);
        OneMore(definedIds, done + EntriesOf(file)[..i], key, file.startId + i);
        if SystemStart(file.startId) && !IsValidSystemName(key.1) {
          assert !Acceptable(file) by { AcceptableIs(file); }
          return false;
        }
        if key in definedIds {
          return false;
        }
        definedIds := definedIds[key := file.startId + i];
        i := i + 1;
      }
      AcceptableIs(file);
      ReadStarts(file, done);
      return true;
    }

    // The scan for the lowest set bit; a bit test on a positive number is a parity of the quotient.
    method GetMaxId(startId: nat) returns (max: nat)
      requires startId > 0
      ensures max == MaxId(startId)
    {
      var flag := 1;
      ghost var q := startId;
      while (startId / flag) % 2 == 0
        invariant flag > 0 && q > 0 && startId == q * flag && startId / flag == q
        invariant LowBit(startId) == LowBit(q) * flag
        decreases q
      {
        LowBitStep(startId, q, flag);
        flag, q := flag * 2, q / 2;
      }
      return startId + flag - 1;
    }

    method PushCache(key: ResName, id: int) returns (ok: bool)
      modifies this`cacheIds, this`appId, this`delIds
      ensures (State(), ok) == Pushed(old(State()), key, id)
    {
      if key in cacheIds {
        return false;
      }
      cacheIds := cacheIds[key := id];
      if appId == id {
        appId := id + 1;
        return true;
      }
      if id < appId {
        return false;
      }
      var i := appId;
      while i < id
        invariant appId <= i <= id
        invariant delIds == old(delIds) + Upto(appId, i)
        modifies this`delIds
      {
        delIds := delIds + [i];
        assert Upto(appId, i + 1) == Upto(appId, i) + [i];
        i := i + 1;
      }
      appId := id + 1;
      return true;
    }

    method GenerateAppId(key: ResName) returns (id: int)
      modifies this`ids, this`appId, this`delIds
      ensures (State(), id) == Generated(old(State()), key)
    {
      if key in ids {
        return ids[key];
      }
      if key in cacheIds {
        ids := ids[key := cacheIds[key]];
        return cacheIds[key];
      }
      if appId > maxId {
        return -1;
      }
      if delIds != [] {
        id := delIds[0];
        delIds := delIds[1..];
      } else {
        id := appId;
        appId := appId + 1;
      }
      ids := ids[key := id];
    }

    method GenerateSysId(key: ResName) returns (id: int)
      modifies this`ids
      ensures key in old(ids) ==> id == old(ids)[key] && ids == old(ids)
      ensures key !in old(ids) && key in definedIds ==> id == definedIds[key] && ids == old(ids)[key := id]
      ensures key !in old(ids) && key !in definedIds ==> id == -1 && ids == old(ids)
    {
      if key in ids {
        return ids[key];
      }
      if key in definedIds {
        ids := ids[key := definedIds[key]];
        return definedIds[key];
      }
      return -1;
    }

    // Between calls.  An application's names and ids are one to one; a system build draws on definedIds
    // alone, where nothing keeps two names from having one id.
    ghost predicate Valid()
      reads this
    {
      match cluster
      case APP => Inv(State())
      case SYS =>
        && (forall k :: k in ids ==> k in definedIds && ids[k] == definedIds[k])
        && (forall k :: k in definedIds ==> definedIds[k] >= 0)
    }

    method GenerateId(key: ResName) returns (id: int)
      requires Valid()
      modifies this`ids, this`appId, this`delIds
      ensures Valid() && (cluster == APP ==> Injective(ids))
      ensures id >= 0 ==> ids == old(ids)[key := id] && (key in old(ids) ==> id == old(ids)[key])
      ensures id < 0 ==> id == -1 && ids == old(ids) && key !in ids
      ensures cluster == APP ==> (State(), id) == Generated(old(State()), key)
      ensures cluster == SYS ==> (id >= 0 <==> key in definedIds)
      ensures Kept(old(ids), ids)
    {
      if cluster == APP {
        GenerateKeepsNames(State(), key);
        GenerateKeepsPartition(State(), key);
        InRange(State(), key);
        assert Injective(ids);
        id := GenerateAppId(key);
      } else {
        id := GenerateSysId(key);
      }
    }

    // Valid states have no negative ids, so -1 says that there is none.
    method GetId(key: ResName) returns (id: int)
      ensures key in ids ==> id == ids[key]
      ensures Valid() ==> (id == -1 <==> key !in ids)
      ensures Valid() && cluster == APP && id != -1 ==> forall k :: k in ids && ids[k] == id ==> k == key
    {
      if key in ids {
        if cluster == APP && Valid() { InRange(State(), key); }
        return ids[key];
      }
      return -1;
    }
  }

  // What a valid allocator of an application is.
  lemma ValidIs(idWorker: IdWorker)
    requires idWorker.Valid() && idWorker.cluster.APP?
    ensures Inv(idWorker.State()) && Injective(idWorker.ids)
    ensures forall key :: key in idWorker.ids ==> idWorker.ids[key] >= 0
  {
    forall key | key in idWorker.ids ensures idWorker.ids[key] >= 0 { InRange(idWorker.State(), key); }
  }
}
