/** The order of std::string, in which a std::map runs through its keys and a JSON object through its members. */
module TextOrder {
  import opened Bytes

  predicate Before(a: Text, b: Text) {
    b != [] && (a == [] || a[0] < b[0] || (a[0] == b[0] && Before(a[1..], b[1..])))
  }

  // Up to n the texts agree; there a ends, or its byte is the smaller one.
  ghost predicate SmallerAt(a: Text, b: Text, n: nat) {
    n <= |a| && n < |b| && a[..n] == b[..n] && (n < |a| ==> a[n] < b[n])
  }

  /** The first byte that differs decides, bytes taken unsigned; a text comes before every longer one it begins. */
  lemma {:induction false} BeforeIs(a: Text, b: Text)
    ensures Before(a, b) <==> exists n: nat :: SmallerAt(a, b, n)
  {
    if a != [] && b != [] && a[0] == b[0] {
      BeforeIs(a[1..], b[1..]);
      if Before(a[1..], b[1..]) {
        var n: nat :| SmallerAt(a[1..], b[1..], n);
        assert a[..n + 1] == [a[0]] + a[1..][..n] && b[..n + 1] == [b[0]] + b[1..][..n];
        assert SmallerAt(a, b, n + 1);
      }
      if n: nat :| SmallerAt(a, b, n) {
        assert a[1..][..n - 1] == a[..n][1..] && b[1..][..n - 1] == b[..n][1..];
        assert SmallerAt(a[1..], b[1..], n - 1);
      }
    } else if a != [] && b != [] {
      forall n: nat | 0 < n <= |a| && n <= |b| ensures a[..n] != b[..n] { assert a[..n][0] != b[..n][0]; }
      assert SmallerAt(a, b, 0) <==> a[0] < b[0];
    } else {
      assert SmallerAt(a, b, 0) <==> b != [];
    }
  }

  /** Of two texts one comes before the other, or they are the same; never both. */
  lemma {:induction false} OneBefore(a: Text, b: Text)
    ensures a == b <==> !Before(a, b) && !Before(b, a)
    ensures !(Before(a, b) && Before(b, a))
  {
    if a != [] && b != [] {
      OneBefore(a[1..], b[1..]);
      assert a == [a[0]] + a[1..] && b == [b[0]] + b[1..];
    }
  }

  lemma {:induction false} BeforeAll(a: Text, b: Text, c: Text)
    requires Before(a, b) && Before(b, c)
    ensures Before(a, c)
  {
    if a != [] && a[0] == b[0] == c[0] { BeforeAll(a[1..], b[1..], c[1..]); }
  }

  lemma {:induction false} BeforeLast(a: Text, b: Text, x: Byte, y: Byte)
    requires |a| == |b|
    ensures Before(a + [x], b + [y]) <==> Before(a, b) || (a == b && x < y)
  {
    if a != [] {
      BeforeLast(a[1..], b[1..], x, y);
      assert (a + [x])[1..] == a[1..] + [x] && (b + [y])[1..] == b[1..] + [y];
      assert a == [a[0]] + a[1..] && b == [b[0]] + b[1..];
    } else {
      assert !Before([], []);
    }
  }

  // The order of std::pair.
  predicate PairBefore(a: (int32, Text), b: (int32, Text)) { a.0 < b.0 || (a.0 == b.0 && Before(a.1, b.1)) }

  // ------------------------------------------------------------ running through a set in order

  ghost predicate TotalOrder<T(!new)>(less: (T, T) -> bool) {
    && (forall a, b :: less(a, b) ==> !less(b, a))
    && (forall a, b :: a != b ==> less(a, b) || less(b, a))
    && (forall a, b, c :: less(a, b) && less(b, c) ==> less(a, c))
  }

  lemma TextsOrdered()
    ensures TotalOrder(Before)
  {
    hide Before;
    forall a, b ensures a == b <==> !Before(a, b) && !Before(b, a) ensures !(Before(a, b) && Before(b, a)) {
      OneBefore(a, b);
    }
    forall a, b, c | Before(a, b) && Before(b, c) ensures Before(a, c) { BeforeAll(a, b, c); }
  }

  lemma PairsOrdered()
    ensures TotalOrder(PairBefore)
  {
    TextsOrdered();
    hide Before;
    assert forall a: Text, b: Text, c: Text :: Before(a, b) && Before(b, c) ==> Before(a, c);
  }

  ghost predicate IsLeast<T>(s: set<T>, m: T, less: (T, T) -> bool) {
    m in s && forall x :: x in s ==> x == m || less(m, x)
  }

  lemma FirstExists<T(!new)>(s: set<T>, less: (T, T) -> bool) returns (m: T)
    requires s != {} && TotalOrder(less)
    ensures IsLeast(s, m, less)
  {
    m :| m in s;
    var rest := s - {m};
    assert forall x :: x in s ==> x == m || x in rest;
    if rest != {} {
      var n := FirstExists(rest, less);
      if less(n, m) {
        m := n;
      } else {
        assert less(m, n);
      }
    }
  }

  method FirstOf<T(==, !new)>(s: set<T>, less: (T, T) -> bool) returns (m: T)
    requires s != {} && TotalOrder(less)
    ensures IsLeast(s, m, less)
  {
    ghost var first := FirstExists(s, less);
    m :| m in s && forall x :: x in s ==> x == m || less(m, x);
  }

  ghost predicate Ascends(keys: seq<Text>) { forall i, j :: 0 <= i < j < |keys| ==> Before(keys[i], keys[j]) }

  lemma AscendsApart(keys: seq<Text>)
    requires Ascends(keys)
    ensures forall i, j :: 0 <= i < j < |keys| ==> keys[i] != keys[j]
  {
    hide Before;
    forall i, j | 0 <= i < j < |keys| ensures keys[i] != keys[j] { OneBefore(keys[i], keys[j]); }
  }

  /** Keys run through from the first on: they ascend, and are all there are. */
  method Enumerate(s: set<Text>) returns (keys: seq<Text>)
    ensures Ascends(keys) && forall key :: key in keys <==> key in s
  {
    hide Before;
    TextsOrdered();
    keys := [];
    var rest := s;
    while rest != {}
      invariant rest <= s && forall key :: key in keys <==> key in s && key !in rest
      invariant Ascends(keys) && forall a, b :: a in keys && b in rest ==> Before(a, b)
      decreases |rest|
    {
      var key := FirstOf(rest, Before);
      keys := keys + [key];
      rest := rest - {key};
    }
  }
}
