/**
 What a HashList holds, as a sequence of (key, value) entries from head to tail, and what each
 operation does to that sequence.  The heap structure in module HashLists is proved against
 these functions; the facts about whole access traces are proved here.
 */
module LruSpec {
  import opened Sequences

  predicate HasKey<K(==), V>(es: seq<(K, V)>, k: K) {
    exists i :: 0 <= i < |es| && es[i].0 == k
  }

  ghost predicate DistinctKeys<K, V>(es: seq<(K, V)>) {
    forall i, j :: 0 <= i < j < |es| ==> es[i].0 != es[j].0
  }

  function Lookup<K(==), V>(es: seq<(K, V)>, k: K): V
    requires HasKey(es, k)
  {
    if es[0].0 == k then es[0].1 else Lookup(es[1..], k)
  }

  function Without<K(==), V>(es: seq<(K, V)>, k: K): seq<(K, V)> {
    if es == [] then []
    else if es[0].0 == k then Without(es[1..], k)
    else [es[0]] + Without(es[1..], k)
  }

  // A full list gives up its tail entry before a new one goes in.
  function MakeRoom<K, V>(es: seq<(K, V)>, cap: nat): seq<(K, V)>
    requires cap > 0
  {
    if |es| >= cap then es[..cap - 1] else es
  }

  function Accessed<K(==), V>(es: seq<(K, V)>, cap: nat, k: K, unset: V): seq<(K, V)>
    requires cap > 0
  {
    if HasKey(es, k) then [(k, Lookup(es, k))] + Without(es, k) else [(k, unset)] + MakeRoom(es, cap)
  }

  function PushedFront<K(==), V>(es: seq<(K, V)>, cap: nat, k: K, v: V): seq<(K, V)>
    requires cap > 0
  {
    if HasKey(es, k) then [(k, v)] + Without(es, k) else [(k, v)] + MakeRoom(es, cap)
  }

  // A key that is already present ends at the head, not at the tail.
  function PushedBack<K(==), V>(es: seq<(K, V)>, cap: nat, k: K, v: V): seq<(K, V)>
    requires cap > 0
  {
    if HasKey(es, k) then [(k, v)] + Without(es, k) else MakeRoom(es, cap) + [(k, v)]
  }

  // With distinct keys, dropping a key is cutting its one position out.
  lemma {:induction false} WithoutCutsOne<K, V>(es: seq<(K, V)>, i: nat)
    requires DistinctKeys(es) && i < |es|
    ensures HasKey(es, es[i].0) && Lookup(es, es[i].0) == es[i].1
    ensures Without(es, es[i].0) == es[..i] + es[i + 1..]
  {
    if i == 0 {
      WithoutAbsent(es[1..], es[0].0);
    } else {
      WithoutCutsOne(es[1..], i - 1);
      assert es[1..][i - 1] == es[i];
      assert es[..i] + es[i + 1..] == [es[0]] + (es[1..][..i - 1] + es[1..][i..]);
    }
  }

  lemma {:induction false} WithoutAbsent<K, V>(es: seq<(K, V)>, k: K)
    requires !HasKey(es, k)
    ensures Without(es, k) == es
  {
    if es != [] {
      assert forall i :: 0 <= i < |es[1..]| ==> es[1..][i] == es[i + 1];
      WithoutAbsent(es[1..], k);
    }
  }

  // ------------------------------------------------------------ access traces

  datatype Op<K, V> = Access(key: K) | PushFront(key: K, val: V)

  function Step<K(==), V>(es: seq<(K, V)>, cap: nat, op: Op<K, V>, unset: V): seq<(K, V)>
    requires cap > 0
  {
    match op
    case Access(k) => Accessed(es, cap, k, unset)
    case PushFront(k, v) => PushedFront(es, cap, k, v)
  }

  // The list after a whole trace, starting empty.
  function Run<K(==), V>(cap: nat, trace: seq<Op<K, V>>, unset: V): seq<(K, V)>
    requires cap > 0
  {
    if trace == [] then []
    else Step(Run(cap, trace[..|trace| - 1], unset), cap, trace[|trace| - 1], unset)
  }

  function Keys<K, V>(es: seq<(K, V)>): (ks: seq<K>)
    ensures |ks| == |es| && forall i :: 0 <= i < |es| ==> ks[i] == es[i].0
  {
    seq(|es|, i requires 0 <= i < |es| => es[i].0)
  }

  // Position of the most recent use of k.
  ghost function LastUse<K, V>(trace: seq<Op<K, V>>, k: K): (u: int)
    ensures -1 <= u < |trace|
    ensures u == -1 <==> forall i :: 0 <= i < |trace| ==> trace[i].key != k
    ensures u >= 0 ==> trace[u].key == k && forall i :: u < i < |trace| ==> trace[i].key != k
  {
    if trace == [] then -1
    else if trace[|trace| - 1].key == k then |trace| - 1
    else LastUse(trace[..|trace| - 1], k)
  }

  ghost predicate Used<K, V>(trace: seq<Op<K, V>>, k: K) { LastUse(trace, k) >= 0 }

  ghost function UsedKeys<K, V>(trace: seq<Op<K, V>>): set<K> {
    set i | 0 <= i < |trace| :: trace[i].key
  }

  function Take<T>(s: seq<T>, n: nat): seq<T> { if |s| <= n then s else s[..n] }

  function Drop<K(==)>(ks: seq<K>, k: K): seq<K> {
    if ks == [] then [] else if ks[0] == k then Drop(ks[1..], k) else [ks[0]] + Drop(ks[1..], k)
  }

  // All keys of a trace, most recently used first: the move-to-front list without a bound.
  function Recency<K(==), V>(trace: seq<Op<K, V>>): seq<K> {
    if trace == [] then []
    else [trace[|trace| - 1].key] + Drop(Recency(trace[..|trace| - 1]), trace[|trace| - 1].key)
  }

  lemma {:induction false} DropAbsent<K>(ks: seq<K>, k: K)
    requires k !in ks
    ensures Drop(ks, k) == ks
  {
    if ks != [] { DropAbsent(ks[1..], k); }
  }

  lemma {:induction false} DropKeepsRest<K>(ks: seq<K>, k: K)
    requires Distinct(ks)
    ensures k !in Drop(ks, k) && Distinct(Drop(ks, k))
    ensures forall x :: x in Drop(ks, k) <==> x in ks && x != k
    ensures |Drop(ks, k)| == if k in ks then |ks| - 1 else |ks|
  {
    if ks != [] {
      var rest := ks[1..];
      assert forall i :: 0 <= i < |rest| ==> rest[i] == ks[i + 1];
      DropKeepsRest(rest, k);
      assert ks[0] !in rest;
      assert forall x :: x in ks <==> x == ks[0] || x in rest;
    }
  }

  // Moving a kept key to the front of a cut list is cutting one later.
  lemma {:induction false} DropOfTake<K>(ks: seq<K>, k: K, n: nat)
    requires Distinct(ks) && n > 0
    ensures k in Take(ks, n) ==> Drop(Take(ks, n), k) == Take(Drop(ks, k), n - 1)
    ensures k !in Take(ks, n) ==> Take(ks, n - 1) == Take(Drop(ks, k), n - 1)
  {
    hide Drop;
    if k in ks {
      var i :| 0 <= i < |ks| && ks[i] == k;
      DropCutsOne(ks, i);
      if i < n {
        DropCutsOne(Take(ks, n), i);
        assert Take(ks, n)[..i] + Take(ks, n)[i + 1..] == Take(ks[..i] + ks[i + 1..], n - 1);
      } else {
        assert Take(ks, n - 1) == Take(ks[..i] + ks[i + 1..], n - 1);
      }
    } else {
      DropAbsent(ks, k);
    }
  }

  lemma {:induction false} DropCutsOne<K>(ks: seq<K>, i: nat)
    requires Distinct(ks) && i < |ks|
    ensures Drop(ks, ks[i]) == ks[..i] + ks[i + 1..]
  {
    if i == 0 {
      DropAbsent(ks[1..], ks[0]);
    } else {
      DropCutsOne(ks[1..], i - 1);
      assert ks[..i] + ks[i + 1..] == [ks[0]] + (ks[1..][..i - 1] + ks[1..][i..]);
    }
  }

  lemma {:induction false} RecencyDistinct<K, V>(trace: seq<Op<K, V>>)
    ensures Distinct(Recency(trace))
    ensures forall k :: k in Recency(trace) <==> Used(trace, k)
  {
    if trace != [] {
      var init := trace[..|trace| - 1];
      RecencyDistinct(init);
      DropKeepsRest(Recency(init), trace[|trace| - 1].key);
    }
  }

  lemma {:induction false} RecencyOrdered<K, V>(trace: seq<Op<K, V>>, i: nat, j: nat)
    requires i < j < |Recency(trace)|
    ensures LastUse(trace, Recency(trace)[i]) > LastUse(trace, Recency(trace)[j])
  {
    hide Drop;
    var init, k := trace[..|trace| - 1], trace[|trace| - 1].key;
    RecencyDistinct(trace);
    RecencyDistinct(init);
    if i > 0 {
      var a, b := DropKeepsOrder(Recency(init), k, i - 1, j - 1);
      RecencyOrdered(init, a, b);
    }
  }

  lemma {:induction false} DropKeepsOrder<K>(ks: seq<K>, k: K, i: nat, j: nat) returns (a: nat, b: nat)
    requires i < j < |Drop(ks, k)|
    ensures a < b < |ks| && ks[a] == Drop(ks, k)[i] && ks[b] == Drop(ks, k)[j]
    ensures ks[a] != k && ks[b] != k
  {
    if ks[0] == k {
      a, b := DropKeepsOrder(ks[1..], k, i, j);
      a, b := a + 1, b + 1;
    } else if i > 0 {
      a, b := DropKeepsOrder(ks[1..], k, i - 1, j - 1);
      a, b := a + 1, b + 1;
    } else {
      b := DropAt(ks[1..], k, j - 1);
      a, b := 0, b + 1;
    }
  }

  lemma {:induction false} DropAt<K>(ks: seq<K>, k: K, j: nat) returns (b: nat)
    requires j < |Drop(ks, k)|
    ensures b < |ks| && ks[b] == Drop(ks, k)[j] && ks[b] != k
  {
    if ks[0] == k {
      b := DropAt(ks[1..], k, j);
      b := b + 1;
    } else if j > 0 {
      b := DropAt(ks[1..], k, j - 1);
      b := b + 1;
    } else {
      b := 0;
    }
  }

  lemma {:induction false} KeysWithout<K, V>(es: seq<(K, V)>, k: K)
    ensures Keys(Without(es, k)) == Drop(Keys(es), k)
  {
    if es != [] {
      KeysWithout(es[1..], k);
      KeysOfCons(es);
      hide Keys;
      if es[0].0 != k {
        assert Without(es, k)[1..] == Without(es[1..], k);
        KeysOfCons(Without(es, k));
      }
    }
  }

  lemma KeysOfStep<K, V>(es: seq<(K, V)>, cap: nat, op: Op<K, V>, unset: V)
    requires cap > 0
    ensures HasKey(es, op.key) <==> op.key in Keys(es)
    ensures Keys(Step(es, cap, op, unset)) ==
            [op.key] + if op.key in Keys(es) then Drop(Keys(es), op.key) else Keys(MakeRoom(es, cap))
  {
    assert forall i :: 0 <= i < |es| ==> Keys(es)[i] == es[i].0;
    KeysWithout(es, op.key);
    KeysOfCons(Step(es, cap, op, unset));
  }

  lemma KeysOfCons<K, V>(es: seq<(K, V)>)
    requires es != []
    ensures Keys(es) == [es[0].0] + Keys(es[1..])
  {
  }

  lemma KeysOfMakeRoom<K, V>(es: seq<(K, V)>, cap: nat)
    requires cap > 0 && |es| <= cap
    ensures Keys(MakeRoom(es, cap)) == Take(Keys(es), cap - 1)
  {
  }

  lemma StepCutsRecency<K, V>(es: seq<(K, V)>, cap: nat, op: Op<K, V>, unset: V, r: seq<K>)
    requires cap > 0 && Distinct(r) && Keys(es) == Take(r, cap)
    ensures Keys(Step(es, cap, op, unset)) == Take([op.key] + Drop(r, op.key), cap)
  {
    var k, after := op.key, Keys(Step(es, cap, op, unset));
    assert after == [k] + if k in Keys(es) then Drop(Keys(es), k) else Take(Keys(es), cap - 1) by {
      KeysOfStep(es, cap, op, unset);
      KeysOfMakeRoom(es, cap);
    }
    assert Take(Take(r, cap), cap - 1) == Take(r, cap - 1);
    assert Take([k] + Drop(r, k), cap) == [k] + Take(Drop(r, k), cap - 1);
    DropOfTake(r, k, cap);
  }

  // The bounded list is the unbounded recency list cut at its capacity.
  lemma {:induction false} RunIsRecency<K, V>(cap: nat, trace: seq<Op<K, V>>, unset: V)
    requires cap > 0
    ensures Keys(Run(cap, trace, unset)) == Take(Recency(trace), cap)
  {
    if trace != [] {
      var init, op := trace[..|trace| - 1], trace[|trace| - 1];
      RunIsRecency(cap, init, unset);
      RecencyDistinct(init);
      StepCutsRecency(Run(cap, init, unset), cap, op, unset, Recency(init));
    }
  }

  // ks is the cap most recently used keys of the trace, most recently used first.
  ghost predicate MostRecent<K(!new), V>(ks: seq<K>, trace: seq<Op<K, V>>, cap: nat) {
    && Distinct(ks)
    && (forall i :: 0 <= i < |ks| ==> Used(trace, ks[i]))
    && (forall i, j :: 0 <= i < j < |ks| ==> LastUse(trace, ks[i]) > LastUse(trace, ks[j]))
    && (forall k, i :: Used(trace, k) && k !in ks && 0 <= i < |ks| ==> LastUse(trace, k) < LastUse(trace, ks[i]))
    && |ks| == if |UsedKeys(trace)| < cap then |UsedKeys(trace)| else cap
  }

  /** After any trace the list holds exactly the min(cap, d) most recently used of the d distinct
      keys, most recently used first: nothing held is older than anything dropped. */
  lemma {:induction false} HoldsMostRecent<K(!new), V>(cap: nat, trace: seq<Op<K, V>>, unset: V)
    requires cap > 0
    ensures MostRecent(Keys(Run(cap, trace, unset)), trace, cap)
  {
    hide Run, Recency, LastUse, Keys;
    var ks, r := Keys(Run(cap, trace, unset)), Recency(trace);
    RunIsRecency(cap, trace, unset);
    RecencyDistinct(trace);
    forall i, j | 0 <= i < j < |r|
      ensures LastUse(trace, r[i]) > LastUse(trace, r[j])
    {
      RecencyOrdered(trace, i, j);
    }
    forall k, i | Used(trace, k) && k !in ks && 0 <= i < |ks|
      ensures LastUse(trace, k) < LastUse(trace, ks[i])
    {
      var j :| 0 <= j < |r| && r[j] == k;
      assert j >= |ks|;
    }
    DistinctCount(r, UsedKeys(trace), trace);
  }

  // The last of the most recent keys is the oldest of them.
  lemma OldestIsLast<K(!new), V>(ks: seq<K>, trace: seq<Op<K, V>>, cap: nat)
    requires MostRecent(ks, trace, cap) && ks != []
    ensures forall k :: k in ks ==> LastUse(trace, ks[|ks| - 1]) <= LastUse(trace, k)
  {
    forall k | k in ks
      ensures LastUse(trace, ks[|ks| - 1]) <= LastUse(trace, k)
    {
      var i :| 0 <= i < |ks| && ks[i] == k;
    }
  }

  lemma {:induction false} DistinctCount<K, V>(ks: seq<K>, used: set<K>, trace: seq<Op<K, V>>)
    requires Distinct(ks) && used == UsedKeys(trace)
    requires forall k :: k in ks <==> Used(trace, k)
    ensures |ks| == |used|
  {
    assert forall k :: k in used <==> Used(trace, k);
    SetOfDistinct(ks);
    assert used == set k | k in ks;
  }

  lemma {:induction false} SetOfDistinct<K>(ks: seq<K>)
    requires Distinct(ks)
    ensures |set k | k in ks| == |ks|
  {
    if ks != [] {
      var n := |ks| - 1;
      SetOfDistinct(ks[..n]);
      assert (set k | k in ks) == (set k | k in ks[..n]) + {ks[n]};
    }
  }

  /** Stack property: on the same trace, a smaller list holds a prefix of what a larger one holds. */
  lemma {:induction false} SmallerIsPrefix<K, V>(cap: nat, larger: nat, trace: seq<Op<K, V>>, unset: V)
    requires 0 < cap <= larger
    ensures Keys(Run(cap, trace, unset)) <= Keys(Run(larger, trace, unset))
  {
    RunIsRecency(cap, trace, unset);
    RunIsRecency(larger, trace, unset);
  }

  /** When an access has to make room, the key that goes is the least recently used of those held. */
  lemma {:induction false} EvictsLeastRecent<K(!new), V>(
      cap: nat, trace: seq<Op<K, V>>, op: Op<K, V>, unset: V, gone: K)
    requires cap > 0
    requires gone in Keys(Run(cap, trace, unset)) && gone !in Keys(Run(cap, trace + [op], unset))
    ensures |Run(cap, trace, unset)| == cap && op.key !in Keys(Run(cap, trace, unset))
    ensures forall k :: k in Keys(Run(cap, trace, unset)) ==> LastUse(trace, gone) <= LastUse(trace, k)
  {
    var es := Run(cap, trace, unset);
    RunStep(cap, trace, op, unset);
    hide Run, Step, LastUse, Keys;
    HoldsMostRecent(cap, trace, unset);
    assert |es| <= cap && Distinct(Keys(es));
    hide MostRecent;
    StepDropsOnlyTail(es, cap, op, unset, gone);
    OldestIsLast(Keys(es), trace, cap);
  }

  lemma RunStep<K, V>(cap: nat, trace: seq<Op<K, V>>, op: Op<K, V>, unset: V)
    requires cap > 0
    ensures Run(cap, trace + [op], unset) == Step(Run(cap, trace, unset), cap, op, unset)
  {
    assert (trace + [op])[..|trace|] == trace;
  }

  lemma StepDropsOnlyTail<K, V>(es: seq<(K, V)>, cap: nat, op: Op<K, V>, unset: V, gone: K)
    requires 0 < cap && |es| <= cap && Distinct(Keys(es))
    requires gone in Keys(es) && gone !in Keys(Step(es, cap, op, unset))
    ensures |es| == cap && op.key !in Keys(es) && gone == Keys(es)[cap - 1]
  {
    hide Step, Keys, Drop, MakeRoom;
    var ks, after := Keys(es), Keys(Step(es, cap, op, unset));
    var kept := Take(ks, cap - 1);
    assert forall j :: 0 <= j < |kept| ==> kept[j] == ks[j] && ks[j] in kept;
    assert after == [op.key] + if op.key in ks then Drop(ks, op.key) else kept by {
      KeysOfStep(es, cap, op, unset);
      KeysOfMakeRoom(es, cap);
    }
    DropKeepsRest(ks, op.key);
    var i :| 0 <= i < |ks| && ks[i] == gone;
    assert i == cap - 1;
  }
}
