/** How many new names an application's range has ids for, and when a whole set of names gets them. */
module IdRooms {
  import opened IdWorkers
  import opened ResourceData
  import opened TextOrder

  predicate HasId(s: Ids, key: ResName) { key in s.ids || key in s.cacheIds }

  // The ids left for new names: gaps count, but only while the counter is within the range.
  function Room(s: Ids): nat {
    if s.appId > s.maxId then 0 else |s.delIds| + s.maxId + 1 - s.appId
  }

  function NewNames(s: Ids, names: set<ResName>): set<ResName> { set key | key in names && !HasId(s, key) }

  predicate Enough(s: Ids, names: set<ResName>) { |NewNames(s, names)| <= Room(s) }

  // From s0 on exactly these names have been generated, each with success.
  ghost predicate Tracks(s0: Ids, s: Ids, names: set<ResName>) {
    && |NewNames(s0, names)| + Room(s) == Room(s0)
    && forall key :: HasId(s, key) <==> HasId(s0, key) || key in names
  }

  lemma TracksNone(s: Ids)
    ensures Tracks(s, s, {})
  {
    assert NewNames(s, {}) == {};
  }

  // A generation takes room for a new name alone, and fails on one exactly if there is none.
  lemma GenerateTakes(s: Ids, key: ResName)
    requires Inv(s)
    ensures var (t, id) := Generated(s, key);
      && (id == -1 <==> !HasId(s, key) && Room(s) == 0)
      && (id == -1 ==> t == s)
      && (id != -1 ==> Room(t) == Room(s) - (if HasId(s, key) then 0 else 1))
      && (id != -1 ==> forall k :: HasId(t, k) <==> HasId(s, k) || k == key)
  {
    InRange(s, key);
    hide Names;
  }

  lemma NewNamesOne(s: Ids, names: set<ResName>, key: ResName)
    ensures NewNames(s, names + {key}) == NewNames(s, names) + if HasId(s, key) then {} else {key}
  {
  }

  lemma TracksIs(s0: Ids, s: Ids, names: set<ResName>)
    requires Tracks(s0, s, names)
    ensures |NewNames(s0, names)| + Room(s) == Room(s0)
    ensures forall key :: HasId(s, key) <==> HasId(s0, key) || key in names
  {
  }

  lemma TracksOne(s0: Ids, s: Ids, names: set<ResName>, key: ResName)
    requires Inv(s) && Tracks(s0, s, names)
    ensures var (t, id) := Generated(s, key);
      if id == -1 then !Enough(s0, names + {key}) else Tracks(s0, t, names + {key})
  {
    hide *;
    GenerateTakes(s, key);
    NewNamesOne(s0, names, key);
    TracksIs(s0, s, names);
    TracksTo(s0, s, names, key, Generated(s, key).0);
  }

  lemma TracksTo(s0: Ids, s: Ids, names: set<ResName>, key: ResName, t: Ids)
    requires |NewNames(s0, names)| + Room(s) == Room(s0)
    requires NewNames(s0, names + {key}) == NewNames(s0, names) + if HasId(s0, key) then {} else {key}
    requires forall k :: HasId(s, k) <==> HasId(s0, k) || k in names
    ensures !HasId(s, key) && Room(s) == 0 ==> !Enough(s0, names + {key})
    ensures Room(t) == Room(s) - (if HasId(s, key) then 0 else 1) ==>
      (forall k :: HasId(t, k) <==> HasId(s, k) || k == key) ==> Tracks(s0, t, names + {key})
  {
    hide HasId, Room;
    if HasId(s, key) && !HasId(s0, key) { Already(s0, names, key); }
    if !HasId(s, key) { NotYet(s0, names, key); }
  }

  lemma Already(s: Ids, names: set<ResName>, key: ResName)
    requires key in names
    ensures NewNames(s, names + {key}) == NewNames(s, names)
  {
    assert names + {key} == names;
  }

  lemma NotYet(s: Ids, names: set<ResName>, key: ResName)
    requires key !in names && NewNames(s, names + {key}) == NewNames(s, names) + {key}
    ensures |NewNames(s, names + {key})| == |NewNames(s, names)| + 1
  {
    assert key !in NewNames(s, names);
  }

  lemma TracksEnough(s0: Ids, s: Ids, names: set<ResName>)
    requires Tracks(s0, s, names)
    ensures Enough(s0, names)
  {
  }

  lemma EnoughGrows(s: Ids, names: set<ResName>, more: set<ResName>)
    requires names <= more
    ensures Enough(s, more) ==> Enough(s, names)
  {
    assert NewNames(s, names) <= NewNames(s, more);
    Smaller(NewNames(s, names), NewNames(s, more));
  }

  lemma Smaller<T>(a: set<T>, b: set<T>)
    requires a <= b
    ensures |a| <= |b|
  {
    assert b == a + (b - a);
  }

  // Two runs of generations, one after the other.
  lemma TracksOn(s0: Ids, s1: Ids, s2: Ids, a: set<ResName>, b: set<ResName>)
    requires Tracks(s0, s1, a)
    ensures Tracks(s1, s2, b) ==> Tracks(s0, s2, a + b)
    ensures !Enough(s1, b) ==> !Enough(s0, a + b)
  {
    assert NewNames(s0, a + b) == NewNames(s0, a) + NewNames(s1, b);
  }

  // Generates ids for names one after the other, up to the first that gets none.
  function GeneratedAll(s: Ids, names: seq<ResName>): (Ids, bool)
    decreases |names|
  {
    if names == [] then (s, true)
    else
      var (t, id) := Generated(s, names[0]);
      if id == -1 then (t, false) else GeneratedAll(t, names[1..])
  }

  ghost function SetOf(names: seq<ResName>): set<ResName> { set key | key in names }

  lemma NoneGenerated(s: Ids)
    ensures GeneratedAll(s, []) == (s, true) && Tracks(s, s, SetOf([])) && Enough(s, SetOf([]))
  {
    TracksNone(s);
    assert SetOf([]) == {} == NewNames(s, {});
  }

  lemma AllStep(s: Ids, names: seq<ResName>)
    requires names != []
    ensures var (t, id) := Generated(s, names[0]);
      GeneratedAll(s, names) == if id == -1 then (t, false) else GeneratedAll(t, names[1..])
    ensures SetOf(names) == {names[0]} + SetOf(names[1..]) && |names[1..]| < |names|
  {
    hide Generated;
  }

  lemma InvIs(s: Ids)
    requires Inv(s)
    ensures Partition(s)
  {
  }

  lemma GenerateKeepsInv(s: Ids, key: ResName)
    requires Inv(s)
    ensures Inv(Generated(s, key).0)
  {
    GenerateKeepsNames(s, key);
    InvIs(s);
    GenerateKeepsPartition(s, key);
    hide Generated, Names, Partition;
  }

  /**
   Names all get ids exactly if no more of them are new than there is room, in whatever order they come and
   however often.
   */
  lemma {:induction false} AllGetIds(s: Ids, names: seq<ResName>)
    requires Inv(s)
    ensures GeneratedAll(s, names).1 <==> Enough(s, SetOf(names))
    ensures GeneratedAll(s, names).1 ==> Tracks(s, GeneratedAll(s, names).0, SetOf(names))
    decreases |names|
  {
    hide *;
    if names == [] {
      NoneGenerated(s);
    } else {
      var key, rest := names[0], names[1..];
      var (t, id) := Generated(s, key);
      AllStep(s, names);
      TracksNone(s);
      TracksOne(s, s, {}, key);
      assert {} + {key} == {key};
      if id == -1 {
        EnoughGrows(s, {key}, SetOf(names));
      } else {
        GenerateKeepsInv(s, key);
        AllGetIds(t, rest);
        TracksOn(s, t, GeneratedAll(t, rest).0, {key}, SetOf(rest));
        if GeneratedAll(s, names).1 { TracksEnough(s, GeneratedAll(s, names).0, SetOf(names)); }
      }
    }
  }

  // Of these names, those that were new in s0 have ids in their order, and what is free now is above them all.
  ghost predicate Rising(s0: Ids, s: Ids, names: set<ResName>) {
    && (forall a, b :: a in names && b in names && !HasId(s0, a) && !HasId(s0, b) && PairBefore(a, b) ==>
          a in s.ids && b in s.ids && s.ids[a] < s.ids[b])
    && (forall a, i :: a in names && !HasId(s0, a) && Free(s, i) ==> a in s.ids && s.ids[a] < i)
  }

  // One more name, after all those before it in the order.
  lemma RisingOne(s0: Ids, s: Ids, names: set<ResName>, key: ResName)
    requires Inv(s) && Tracks(s0, s, names) && Rising(s0, s, names) && Generated(s, key).1 != -1
    requires forall a :: a in names ==> PairBefore(a, key)
    ensures Rising(s0, Generated(s, key).0, names + {key})
  {
    hide Inv, Free, Room, PairBefore;
    var (t, id) := Generated(s, key);
    PairsOrdered();
    TracksIs(s0, s, names);
    KeepsIds(s, key);
    hide Tracks, Generated;
    if HasId(s, key) { TakesNone(s, key); } else { TakesLeast(s, key); }
  }

  lemma KeepsIds(s: Ids, key: ResName)
    ensures var (t, id) := Generated(s, key);
      && (forall k :: k in s.ids ==> k in t.ids && t.ids[k] == s.ids[k])
      && (id != -1 ==> key in t.ids && t.ids[key] == id)
  {
  }

  lemma RisingNone(s: Ids)
    ensures Rising(s, s, {})
  {
  }
}
