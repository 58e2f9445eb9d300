/**
 Runs of every operation of a HashList in any order, starting from the empty list: what the runs
 keep, which keys each call takes away, and that a held key has the value last written to it.
 */
module HashListRuns {
  import opened LruSpec
  import opened HashLists
  import opened HashListIterators

  // Traced is operator[] or push_front; EraseAt erases by position; RaiseBack is back(true).
  datatype Call<K, V> =
    | Traced(op: Op<K, V>)
    | PushBack(key: K, val: V)
    | PopFront
    | PopBack
    | Erase(gone: K)
    | EraseAt(pos: nat)
    | RaiseBack

  // A position that is not there is not erased, and the tail of an empty list is not raised.
  function Changed<K(==), V>(es: seq<(K, V)>, cap: nat, c: Call<K, V>, unset: V): seq<(K, V)>
    requires cap > 0
  {
    match c
    case Traced(op) => Step(es, cap, op, unset)
    case PushBack(k, v) => PushedBack(es, cap, k, v)
    case PopFront => if es == [] then es else es[1..]
    case PopBack => if es == [] then es else es[..|es| - 1]
    case Erase(k) => Without(es, k)
    case EraseAt(i) => if i < |es| then es[..i] + es[i + 1..] else es
    case RaiseBack => if es == [] then es else [es[|es| - 1]] + es[..|es| - 1]
  }

  // The entries after a whole run of calls.
  function After<K(==), V>(cap: nat, cs: seq<Call<K, V>>, unset: V): seq<(K, V)>
    requires cap > 0
  {
    if cs == [] then []
    else Changed(After(cap, cs[..|cs| - 1], unset), cap, cs[|cs| - 1], unset)
  }

  ghost predicate Sound<K, V>(es: seq<(K, V)>, cap: nat) { DistinctKeys(es) && |es| <= cap }

  // The key a call leaves in the list, whatever was there.
  predicate Brings<K(==), V>(c: Call<K, V>, k: K) {
    (c.Traced? && c.op.key == k) || (c.PushBack? && c.key == k)
  }

  // A push writes its key's value; an access writes the default one if the key is not held.
  predicate Writes<K(==), V>(es: seq<(K, V)>, c: Call<K, V>, k: K) {
    Brings(c, k) && (c == Traced(Access(k)) ==> !HasKey(es, k))
  }

  function Written<K, V>(c: Call<K, V>, unset: V): V {
    match c
    case Traced(PushFront(_, v)) => v
    case PushBack(_, v) => v
    case _ => unset
  }

  // A call takes away the key it names, or the one at its place, or the tail to make room for another.
  predicate Takes<K(==), V>(es: seq<(K, V)>, cap: nat, c: Call<K, V>, k: K) {
    && es != []
    && match c
       case Traced(op) => !HasKey(es, op.key) && |es| == cap && k == es[|es| - 1].0
       case PushBack(x, _) => !HasKey(es, x) && |es| == cap && k == es[|es| - 1].0
       case PopFront => k == es[0].0
       case PopBack => k == es[|es| - 1].0
       case Erase(x) => k == x
       case EraseAt(i) => i < |es| && k == es[i].0
       case RaiseBack => false
  }

  // Cutting one entry out keeps exactly the entries of other keys.
  lemma CutKeeps<K, V>(es: seq<(K, V)>, cap: nat, i: nat)
    requires Sound(es, cap) && i < |es|
    ensures Sound(Cut(es, i), cap) && |Cut(es, i)| < |es|
    ensures forall e :: e in Cut(es, i) <==> e in es && e.0 != es[i].0
  {
    var rest := Cut(es, i);
    forall e | e in es && e.0 != es[i].0
      ensures e in rest
    {
      var j :| 0 <= j < |es| && es[j] == e;
      assert rest[if j < i then j else j - 1] == e;
    }
  }

  lemma {:induction false} WithoutKeeps<K, V>(es: seq<(K, V)>, cap: nat, k: K)
    requires Sound(es, cap)
    ensures Sound(Without(es, k), cap) && (HasKey(es, k) ==> |Without(es, k)| < |es|)
    ensures forall e :: e in Without(es, k) <==> e in es && e.0 != k
  {
    hide Without, Sound;
    if HasKey(es, k) {
      var i :| 0 <= i < |es| && es[i].0 == k;
      CutKeeps(es, cap, i);
      assert Cut(es, i) == Without(es, k) by { SoundDistinct(es, cap); WithoutCutsOne(es, i); }
    } else {
      WithoutAbsent(es, k);
    }
  }

  lemma SoundDistinct<K, V>(es: seq<(K, V)>, cap: nat)
    requires Sound(es, cap)
    ensures DistinctKeys(es) && |es| <= cap
  {
  }

  lemma {:induction false} MakeRoomKeeps<K, V>(es: seq<(K, V)>, cap: nat)
    requires Sound(es, cap) && cap > 0
    ensures Sound(MakeRoom(es, cap), cap) && |MakeRoom(es, cap)| < cap
    ensures forall e :: e in MakeRoom(es, cap) <==> e in es && (|es| < cap || e != es[|es| - 1])
  {
    var kept := MakeRoom(es, cap);
    forall e | e in es && (|es| < cap || e != es[|es| - 1])
      ensures e in kept
    {
      var j :| 0 <= j < |es| && es[j] == e;
      assert kept[j] == e;
    }
  }

  // An entry for a key that is not there goes to the head or to the tail.
  lemma PutKeeps<K, V>(rest: seq<(K, V)>, cap: nat, e: (K, V), after: seq<(K, V)>)
    requires Sound(rest, cap) && |rest| < cap && forall x :: x in rest ==> x.0 != e.0
    requires after == [e] + rest || after == rest + [e]
    ensures Sound(after, cap) && forall x :: x in after <==> x == e || x in rest
  {
  }

  // The entries beside the one a call puts at an end.
  function Rest<K(==), V>(es: seq<(K, V)>, cap: nat, k: K): seq<(K, V)>
    requires cap > 0
  {
    if HasKey(es, k) then Without(es, k) else MakeRoom(es, cap)
  }

  lemma {:induction false} RestIs<K, V>(es: seq<(K, V)>, cap: nat, c: Call<K, V>, k: K)
    requires cap > 0 && Sound(es, cap) && Brings(c, k)
    ensures Sound(Rest(es, cap, k), cap) && |Rest(es, cap, k)| < cap
    ensures forall e :: e in Rest(es, cap, k) <==> e in es && e.0 != k && !Takes(es, cap, c, e.0)
  {
    hide Without, MakeRoom;
    if HasKey(es, k) {
      WithoutKeeps(es, cap, k);
    } else {
      MakeRoomKeeps(es, cap);
      assert forall e :: e in es ==> e.0 != k;
      assert es != [] ==> forall e :: e in es && e.0 == es[|es| - 1].0 ==> e == es[|es| - 1];
    }
  }

  lemma BringsOne<K, V>(c: Call<K, V>, k: K, x: K)
    requires Brings(c, k)
    ensures Brings(c, x) <==> x == k
  {
  }

  // After a call the list holds exactly the key it brings, with the value it had or is given, and
  // the entries of all other keys that the call does not take away.
  ghost predicate Explained<K(!new), V(!new)>(
      es: seq<(K, V)>, cap: nat, c: Call<K, V>, unset: V, after: seq<(K, V)>)
  {
    && Sound(after, cap)
    && forall e :: e in after <==>
         if !Brings(c, e.0) then e in es && !Takes(es, cap, c, e.0)
         else if Writes(es, c, e.0) then e.1 == Written(c, unset)
         else e in es
  }

  lemma {:induction false} PutExplained<K(!new), V(!new)>(
      es: seq<(K, V)>, cap: nat, c: Call<K, V>, unset: V, e: (K, V), after: seq<(K, V)>)
    requires cap > 0 && Sound(es, cap) && Brings(c, e.0)
    requires if Writes(es, c, e.0) then e.1 == Written(c, unset) else e in es
    requires after == [e] + Rest(es, cap, e.0) || after == Rest(es, cap, e.0) + [e]
    ensures Explained(es, cap, c, unset, after)
  {
    hide Rest, Sound, Takes, Brings, Writes, Written;
    RestIs(es, cap, c, e.0);
    PutKeeps(Rest(es, cap, e.0), cap, e, after);
    SoundDistinct(es, cap);
    forall x ensures Brings(c, x) <==> x == e.0 { BringsOne(c, e.0, x); }
    forall x, y | x in es && y in es && x.0 == y.0
      ensures x == y
    {
      SameEntry(es, x, y);
    }
  }

  lemma SameEntry<K, V>(es: seq<(K, V)>, x: (K, V), y: (K, V))
    requires DistinctKeys(es) && x in es && y in es && x.0 == y.0
    ensures x == y
  {
  }

  lemma CutExplained<K(!new), V(!new)>(es: seq<(K, V)>, cap: nat, c: Call<K, V>, unset: V, i: nat)
    requires Sound(es, cap) && i < |es|
    requires forall k :: !Brings(c, k) && (Takes(es, cap, c, k) <==> k == es[i].0)
    ensures Explained(es, cap, c, unset, Cut(es, i))
  {
    CutKeeps(es, cap, i);
  }

  lemma RaiseExplained<K(!new), V(!new)>(es: seq<(K, V)>, cap: nat, unset: V)
    requires cap > 0 && Sound(es, cap)
    ensures Explained(es, cap, RaiseBack, unset, Changed(es, cap, RaiseBack, unset))
  {
    if es != [] {
      var n := |es| - 1;
      CutKeeps(es, cap, n);
      PutKeeps(Cut(es, n), cap, es[n], Changed(es, cap, RaiseBack, unset));
      assert Cut(es, n) == es[..n];
      SoundDistinct(es, cap);
      forall x | x in es && x.0 == es[n].0 ensures x == es[n] { SameEntry(es, x, es[n]); }
    }
  }

  lemma {:induction false} TracedExplained<K(!new), V(!new)>(es: seq<(K, V)>, cap: nat, op: Op<K, V>, unset: V)
    requires cap > 0 && Sound(es, cap)
    ensures Explained(es, cap, Traced(op), unset, Changed(es, cap, Traced(op), unset))
  {
    hide Explained, Sound, Takes, Without, MakeRoom, Lookup;
    var c, k := Traced(op), op.key;
    if op.Access? && HasKey(es, k) {
      var i :| 0 <= i < |es| && es[i].0 == k;
      SoundDistinct(es, cap);
      WithoutCutsOne(es, i);
      PutExplained(es, cap, c, unset, es[i], [es[i]] + Rest(es, cap, k));
    } else {
      var e := (k, Written(c, unset));
      PutExplained(es, cap, c, unset, e, [e] + Rest(es, cap, k));
    }
  }

  /** Every call leaves exactly what it should. */
  lemma {:induction false} CallExplained<K(!new), V(!new)>(es: seq<(K, V)>, cap: nat, c: Call<K, V>, unset: V)
    requires cap > 0 && Sound(es, cap)
    ensures Explained(es, cap, c, unset, Changed(es, cap, c, unset))
  {
    match c
    case Traced(op) => TracedExplained(es, cap, op, unset);
    case PushBack(k, v) =>
      var rest := Rest(es, cap, k);
      PutExplained(es, cap, c, unset, (k, v), if HasKey(es, k) then [(k, v)] + rest else rest + [(k, v)]);
    case Erase(k) => WithoutKeeps(es, cap, k);
    case RaiseBack => RaiseExplained(es, cap, unset);
    case EraseAt(i) => if i < |es| { CutExplained(es, cap, c, unset, i); }
    case PopFront => if es != [] { CutExplained(es, cap, c, unset, 0); }
    case PopBack => if es != [] { CutExplained(es, cap, c, unset, |es| - 1); }
  }

  // The key whose entry a call puts to an end of the list.
  predicate Moves<K(==), V>(es: seq<(K, V)>, c: Call<K, V>, k: K) {
    Brings(c, k) || (c.RaiseBack? && es != [] && es[|es| - 1].0 == k)
  }

  /**
   An access or a push to the front ends at the head, and so does a raised tail. A push to the back ends at the tail
   only if the key is new, and at the head if it was there.
   */
  lemma CallPlaces<K, V>(es: seq<(K, V)>, cap: nat, c: Call<K, V>, unset: V)
    requires cap > 0
    ensures c.Traced? ==> Changed(es, cap, c, unset) != [] && Changed(es, cap, c, unset)[0].0 == c.op.key
    ensures c.RaiseBack? && es != [] ==>
      Changed(es, cap, c, unset) != [] && Changed(es, cap, c, unset)[0] == es[|es| - 1]
    ensures c.PushBack? ==> Changed(es, cap, c, unset) != []
    ensures c.PushBack? && HasKey(es, c.key) ==> Changed(es, cap, c, unset)[0] == (c.key, c.val)
    ensures c.PushBack? && !HasKey(es, c.key) ==>
      Changed(es, cap, c, unset)[|Changed(es, cap, c, unset)| - 1] == (c.key, c.val)
  {
    hide Without, MakeRoom, Lookup;
  }

  lemma {:induction false} WithoutKeepsOrder<K, V>(es: seq<(K, V)>, k: K, p: nat, q: nat) returns (r: nat, s: nat)
    requires DistinctKeys(es) && p < q < |Without(es, k)|
    ensures r < s < |es| && es[r] == Without(es, k)[p] && es[s] == Without(es, k)[q]
  {
    hide Without;
    r, s := p, q;
    if HasKey(es, k) {
      var i :| 0 <= i < |es| && es[i].0 == k;
      WithoutCutsOne(es, i);
      r, s := if p < i then p else p + 1, if q < i then q else q + 1;
    } else {
      WithoutAbsent(es, k);
    }
  }

  // What stands beside a moved entry keeps its order.
  lemma {:induction false} RestKeepsOrder<K, V>(es: seq<(K, V)>, cap: nat, k: K, p: nat, q: nat)
    returns (r: nat, s: nat)
    requires cap > 0 && DistinctKeys(es) && p < q < |Rest(es, cap, k)|
    ensures r < s < |es| && es[r] == Rest(es, cap, k)[p] && es[s] == Rest(es, cap, k)[q]
  {
    hide Without;
    r, s := p, q;
    if HasKey(es, k) { r, s := WithoutKeepsOrder(es, k, p, q); }
  }

  lemma BringsToAnEnd<K, V>(es: seq<(K, V)>, cap: nat, c: Call<K, V>, unset: V, k: K) returns (e: (K, V))
    requires cap > 0 && Brings(c, k)
    ensures e.0 == k
    ensures var rest := Rest(es, cap, k);
      Changed(es, cap, c, unset) == [e] + rest || Changed(es, cap, c, unset) == rest + [e]
  {
    hide Without, MakeRoom, Lookup;
    var after := Changed(es, cap, c, unset);
    e := if c.PushBack? && !HasKey(es, k) then after[|after| - 1] else after[0];
  }

  /** Entries a call does not move keep their order. */
  lemma {:induction false} CallKeepsOrder<K, V>(
      es: seq<(K, V)>, cap: nat, c: Call<K, V>, unset: V, p: nat, q: nat)
    returns (r: nat, s: nat)
    requires cap > 0 && Sound(es, cap) && p < q < |Changed(es, cap, c, unset)|
    requires !Moves(es, c, Changed(es, cap, c, unset)[p].0) && !Moves(es, c, Changed(es, cap, c, unset)[q].0)
    ensures r < s < |es| && es[r] == Changed(es, cap, c, unset)[p] && es[s] == Changed(es, cap, c, unset)[q]
  {
    hide Without, Rest, MakeRoom, Lookup, Accessed, PushedFront, PushedBack, Sound;
    SoundDistinct(es, cap);
    var after := Changed(es, cap, c, unset);
    match c
    case Traced(op) =>
      var e := BringsToAnEnd(es, cap, c, unset, op.key);
      r, s := EndKeepsOrder(es, cap, e, after, p, q);
    case PushBack(k, v) =>
      var e := BringsToAnEnd(es, cap, c, unset, k);
      r, s := EndKeepsOrder(es, cap, e, after, p, q);
    case PopFront => r, s := p + 1, q + 1;
    case PopBack => r, s := p, q;
    case Erase(k) => r, s := WithoutKeepsOrder(es, k, p, q);
    case EraseAt(i) => r, s := if p < i then p else p + 1, if q < i then q else q + 1;
    case RaiseBack => r, s := p - 1, q - 1;
  }

  lemma EndKeepsOrder<K, V>(es: seq<(K, V)>, cap: nat, e: (K, V), after: seq<(K, V)>, p: nat, q: nat)
    returns (r: nat, s: nat)
    requires cap > 0 && DistinctKeys(es) && p < q < |after| && after[p].0 != e.0 && after[q].0 != e.0
    requires after == [e] + Rest(es, cap, e.0) || after == Rest(es, cap, e.0) + [e]
    ensures r < s < |es| && es[r] == after[p] && es[s] == after[q]
  {
    hide Rest;
    var rest := Rest(es, cap, e.0);
    if after == [e] + rest {
      r, s := RestKeepsOrder(es, cap, e.0, p - 1, q - 1);
    } else {
      r, s := RestKeepsOrder(es, cap, e.0, p, q);
    }
  }

  lemma AfterNothing<K, V>(cap: nat, unset: V)
    requires cap > 0
    ensures After<K, V>(cap, [], unset) == []
  {
  }

  lemma AfterOne<K, V>(cap: nat, cs: seq<Call<K, V>>, i: nat, unset: V)
    requires cap > 0 && i < |cs|
    ensures After(cap, cs[..i + 1], unset) == Changed(After(cap, cs[..i], unset), cap, cs[i], unset)
  {
    assert cs[..i + 1][..i] == cs[..i];
  }

  lemma NothingSound<K, V>(cap: nat)
    ensures Sound<K, V>([], cap)
  {
  }

  lemma ExplainedSound<K(!new), V(!new)>(es: seq<(K, V)>, cap: nat, c: Call<K, V>, unset: V, after: seq<(K, V)>)
    requires Explained(es, cap, c, unset, after)
    ensures Sound(after, cap)
  {
  }

  /** Every run keeps the keys distinct and the entries within the capacity. */
  lemma {:induction false} RunSound<K(!new), V(!new)>(cap: nat, cs: seq<Call<K, V>>, unset: V)
    requires cap > 0
    ensures Sound(After(cap, cs, unset), cap)
  {
    hide Changed, Explained, Sound;
    if cs == [] {
      NothingSound<K, V>(cap);
    } else {
      var init, c := cs[..|cs| - 1], cs[|cs| - 1];
      RunSound(cap, init, unset);
      var es := After(cap, init, unset);
      CallExplained(es, cap, c, unset);
      ExplainedSound(es, cap, c, unset, Changed(es, cap, c, unset));
    }
  }

  ghost predicate IsLast<K, V>(es: seq<(K, V)>, k: K) { es != [] && es[|es| - 1].0 == k }

  // An access or a push to the front of another key leaves the tail the tail, or takes it away.
  lemma {:induction false} StaysLast<K(!new), V(!new)>(es: seq<(K, V)>, cap: nat, op: Op<K, V>, unset: V, k: K)
    requires cap > 0 && Sound(es, cap) && (HasKey(es, k) ==> IsLast(es, k)) && op.key != k
    ensures var after := Changed(es, cap, Traced(op), unset); HasKey(after, k) ==> IsLast(after, k)
  {
    hide Changed, Takes, Sound;
    var c := Traced(op);
    var after := Changed(es, cap, c, unset);
    CallExplained(es, cap, c, unset);
    ExplainedSound(es, cap, c, unset, after);
    SoundDistinct(after, cap);
    SoundDistinct(es, cap);
    CallPlaces(es, cap, c, unset);
    if HasKey(after, k) {
      var p, q :| 0 <= p < |after| && after[p].0 == k && q == |after| - 1;
      if p != q { var r, s := CallKeepsOrder(es, cap, c, unset, p, q); }
    }
  }

  /** A new key pushed to the back stays last while other keys are accessed or pushed to the front. */
  lemma {:induction false} PushedBackStaysLast<K(!new), V(!new)>(cap: nat, cs: seq<Call<K, V>>, unset: V, j: nat)
    requires cap > 0 && j < |cs| && cs[j].PushBack? && !HasKey(After(cap, cs[..j], unset), cs[j].key)
    requires forall m :: j < m < |cs| ==> cs[m].Traced? && cs[m].op.key != cs[j].key
    ensures HasKey(After(cap, cs, unset), cs[j].key) ==> IsLast(After(cap, cs, unset), cs[j].key)
  {
    hide *;
    var n := |cs| - 1;
    AfterOne(cap, cs, n, unset);
    assert cs[..n + 1] == cs;
    RunSound(cap, cs[..n], unset);
    if j == n {
      CallPlaces(After(cap, cs[..n], unset), cap, cs[j], unset);
      LastIs(After(cap, cs, unset), cs[j].key);
    } else {
      assert cs[..n][..j] == cs[..j];
      PushedBackStaysLast(cap, cs[..n], unset, j);
      StaysLast(After(cap, cs[..n], unset), cap, cs[n].op, unset, cs[j].key);
    }
  }

  lemma LastIs<K, V>(es: seq<(K, V)>, k: K)
    ensures IsLast(es, k) <==> es != [] && es[|es| - 1].0 == k
  {
  }

  /** So it is the one key that goes when the next new key comes into the full list. */
  lemma {:induction false} PushedBackGoesNext<K(!new), V(!new)>(
      cap: nat, cs: seq<Call<K, V>>, unset: V, j: nat, c: Call<K, V>, x: K, y: K)
    requires cap > 0 && j < |cs| && cs[j].PushBack? && !HasKey(After(cap, cs[..j], unset), cs[j].key)
    requires forall m :: j < m < |cs| ==> cs[m].Traced? && cs[m].op.key != cs[j].key
    requires HasKey(After(cap, cs, unset), cs[j].key) && |After(cap, cs, unset)| == cap
    requires Brings(c, x) && !HasKey(After(cap, cs, unset), x)
    ensures HasKey(After(cap, cs + [c], unset), y) <==>
      y == x || (HasKey(After(cap, cs, unset), y) && y != cs[j].key)
  {
    hide *;
    var es, k := After(cap, cs, unset), cs[j].key;
    PushedBackStaysLast(cap, cs, unset, j);
    LastIs(es, k);
    RunSound(cap, cs, unset);
    assert (cs + [c])[..|cs|] == cs && (cs + [c])[..|cs| + 1] == cs + [c];
    AfterOne(cap, cs + [c], |cs|, unset);
    CallExplained(es, cap, c, unset);
    TakesTail(es, cap, c, x);
    HeldAfter(es, cap, c, unset, Changed(es, cap, c, unset), x, k, y);
  }

  lemma TakesTail<K(!new), V>(es: seq<(K, V)>, cap: nat, c: Call<K, V>, x: K)
    requires Brings(c, x) && !HasKey(es, x) && |es| == cap > 0
    ensures forall y :: Takes(es, cap, c, y) <==> y == es[|es| - 1].0
  {
  }

  lemma {:induction false} HeldAfter<K(!new), V(!new)>(
      es: seq<(K, V)>, cap: nat, c: Call<K, V>, unset: V, after: seq<(K, V)>, x: K, k: K, y: K)
    requires Explained(es, cap, c, unset, after) && Brings(c, x) && !HasKey(es, x)
    requires forall z :: Takes(es, cap, c, z) <==> z == k
    ensures HasKey(after, y) <==> y == x || (HasKey(es, y) && y != k)
  {
    hide Takes, Sound;
    BringsOne(c, x, y);
    if HasKey(after, y) && y != x {
      var p :| 0 <= p < |after| && after[p].0 == y;
      assert after[p] in after;
    }
    if y == x {
      assert (x, Written(c, unset)) in after;
    } else if HasKey(es, y) && y != k {
      var p :| 0 <= p < |es| && es[p].0 == y;
      assert es[p] in after;
    }
  }

  lemma WritesBrings<K, V>(es: seq<(K, V)>, c: Call<K, V>, k: K)
    ensures Writes(es, c, k) ==> Brings(c, k)
  {
  }

  // A call changes the value of no key but one it writes.
  lemma {:induction false} ValueAfter<K(!new), V(!new)>(es: seq<(K, V)>, cap: nat, c: Call<K, V>, unset: V, k: K)
    requires cap > 0 && Sound(es, cap) && HasKey(Changed(es, cap, c, unset), k)
    ensures if Writes(es, c, k) then Lookup(Changed(es, cap, c, unset), k) == Written(c, unset)
            else HasKey(es, k) && Lookup(Changed(es, cap, c, unset), k) == Lookup(es, k)
  {
    hide Changed, Lookup, Writes, Takes, Written;
    var after := Changed(es, cap, c, unset);
    CallExplained(es, cap, c, unset);
    var i :| 0 <= i < |after| && after[i].0 == k;
    WithoutCutsOne(after, i);
    WritesBrings(es, c, k);
    assert after[i] in after;
    if !Writes(es, c, k) {
      var j :| 0 <= j < |es| && es[j] == after[i];
      WithoutCutsOne(es, j);
    }
  }

  lemma NothingHeld<K, V>(k: K)
    ensures !HasKey<K, V>([], k)
  {
  }

  /** A key held after a run was written by some call, has been held and not written since, and has
      the value that call wrote. */
  lemma {:induction false} LastWritten<K(!new), V(!new)>(cap: nat, cs: seq<Call<K, V>>, unset: V, k: K)
    returns (j: nat)
    requires cap > 0 && HasKey(After(cap, cs, unset), k)
    ensures j < |cs| && Writes(After(cap, cs[..j], unset), cs[j], k)
    ensures Lookup(After(cap, cs, unset), k) == Written(cs[j], unset)
    ensures forall m :: j < m < |cs| ==> HasKey(After(cap, cs[..m], unset), k)
    ensures forall m :: j < m < |cs| ==> !Writes(After(cap, cs[..m], unset), cs[m], k)
  {
    hide *;
    if cs == [] {
      AfterNothing<K, V>(cap, unset);
      NothingHeld<K, V>(k);
    } else {
      var n := |cs| - 1;
      AfterOne(cap, cs, n, unset);
      assert cs[..n + 1] == cs;
      RunSound(cap, cs[..n], unset);
      ValueAfter(After(cap, cs[..n], unset), cap, cs[n], unset, k);
      if Writes(After(cap, cs[..n], unset), cs[n], k) {
        return n;
      }
      j := LastWritten(cap, cs[..n], unset, k);
      assert forall m :: 0 <= m <= n ==> cs[..n][..m] == cs[..m];
    }
  }

  // One call on the list itself; an erasure by position walks an iterator there from the start.
  method Perform<K(==), V>(list: HashList<K, V>, c: Call<K, V>)
    requires list.Valid() && list.numItem > 0
    modifies list`data, list`free, list`entries, list`valueTab, list.Repr()
    ensures list.Valid() && list.entries == Changed(old(list.entries), list.numItem, c, list.unset)
  {
    hide HashList.Valid, Accessed, PushedFront, PushedBack, Without;
    match c {
      case Traced(Access(k)) => var p := list.At(k);
      case Traced(PushFront(k, v)) => list.PushFront(k, v);
      case PushBack(k, v) => list.PushBack(k, v);
      case PopFront => list.PopFront();
      case PopBack => list.PopBack();
      case Erase(k) => list.Erase(k);
      case EraseAt(i) => ErasePosition(list, i);
      case RaiseBack =>
        var size := Held(list);
        if size > 0 {
          var p := list.Back(true);
        }
    }
  }

  method Held<K(==), V>(list: HashList<K, V>) returns (size: nat)
    requires list.Valid()
    ensures size == |list.entries| == |list.data|
  {
    list.Counts(list.noKey);
    return list.Size();
  }

  method ErasePosition<K(==), V>(list: HashList<K, V>, i: nat)
    requires list.Valid()
    modifies list`data, list`free, list`entries, list`valueTab, list.Repr()`prev, list.Repr()`next
    ensures list.Valid()
    ensures list.entries == if i < |old(list.entries)| then Cut(old(list.entries), i) else old(list.entries)
  {
    hide HashList.Valid;
    var size := Held(list);
    if i >= size {
      return;
    }
    var it := Begin(list);
    var at := 0;
    while at < i
      invariant at <= i && it.list == list && it.Live() && it.Pos() == at
      invariant unchanged(list)
    {
      it.Next();
      at := at + 1;
    }
    var behind := HashListIterators.EraseAt(list, it);
  }

  // A whole run on an empty list: it stays valid, and the theorems about After are about it.
  method Replay<K(==), V>(list: HashList<K, V>, cs: seq<Call<K, V>>)
    requires list.Valid() && list.numItem > 0 && list.entries == []
    modifies list`data, list`free, list`entries, list`valueTab, list.Repr()
    ensures list.Valid() && list.entries == After(list.numItem, cs, list.unset)
  {
    hide *;
    var i := 0;
    AfterNothing<K, V>(list.numItem, list.unset);
    while i < |cs|
      invariant i <= |cs| && list.Valid()
      invariant list.entries == After(list.numItem, cs[..i], list.unset)
    {
      Perform(list, cs[i]);
      AfterOne(list.numItem, cs, i, list.unset);
      i := i + 1;
    }
    assert cs[..i] == cs;
  }
}
