/** The elements of a sequence, sequences that hold none of theirs twice, and lists one after the other. */
module Sequences {
  ghost function Elems<T>(s: seq<T>): set<T> { set x | x in s }

  ghost predicate Distinct<T>(s: seq<T>) { forall i, j :: 0 <= i < j < |s| ==> s[i] != s[j] }

  function Flatten<T>(lists: seq<seq<T>>): seq<T> {
    if lists == [] then [] else Flatten(lists[..|lists| - 1]) + lists[|lists| - 1]
  }

  // Element i of list m stands behind all lists before it.
  lemma {:induction false} FlattenAt<T>(lists: seq<seq<T>>, m: nat, i: nat)
    requires m < |lists| && i < |lists[m]|
    ensures var at := |Flatten(lists[..m])| + i; at < |Flatten(lists)| && Flatten(lists)[at] == lists[m][i]
    decreases |lists|
  {
    var n := |lists| - 1;
    if m < n {
      FlattenAt(lists[..n], m, i);
      assert lists[..n][..m] == lists[..m];
    }
  }

  lemma {:induction false} FlattenFrom<T>(lists: seq<seq<T>>, k: nat) returns (m: nat, i: nat)
    requires k < |Flatten(lists)|
    ensures m < |lists| && i < |lists[m]| && k == |Flatten(lists[..m])| + i && Flatten(lists)[k] == lists[m][i]
  {
    var n := |lists| - 1;
    if k < |Flatten(lists[..n])| {
      m, i := FlattenFrom(lists[..n], k);
      assert lists[..n][..m] == lists[..m];
    } else {
      m, i := n, k - |Flatten(lists[..n])|;
    }
  }

  // Later lists stand behind earlier ones.
  lemma {:induction false} FlattenGrows<T>(lists: seq<seq<T>>, m: nat, n: nat)
    requires m < n <= |lists|
    ensures |Flatten(lists[..m])| + |lists[m]| <= |Flatten(lists[..n])|
    decreases n
  {
    assert lists[..n][..n - 1] == lists[..n - 1];
    if m < n - 1 { FlattenGrows(lists, m, n - 1); }
  }
}
