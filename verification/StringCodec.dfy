/**
 The string-array codec of the resource compiler: each string as a 16-bit length, its bytes and a
 NUL, at most 65535 bytes in all.
 */
module StringCodec {
  import opened Bytes
  import opened ResourceData

  const LIMIT := 0xffff

  // Bytes a list takes: three more than each string.
  function Total(contents: seq<Text>): nat {
    if contents == [] then 0 else Total(contents[..|contents| - 1]) + |contents[|contents| - 1]| + 3
  }

  // With addNull the stored length counts the NUL, in 16 bits.
  function StoredLength(t: Text, addNull: bool): uint16 {
    (|t| + if addNull then 1 else 0) % 0x1_0000
  }

  function Entry(t: Text, addNull: bool): (e: Text)
    ensures |e| == |t| + 3
  {
    Le16(StoredLength(t, addNull)) + t + [0]
  }

  function Entries(contents: seq<Text>, addNull: bool): (e: Text)
    ensures |e| == Total(contents)
  {
    if contents == [] then []
    else Entries(contents[..|contents| - 1], addNull) + Entry(contents[|contents| - 1], addNull)
  }

  lemma EntriesStep(contents: seq<Text>, i: nat, addNull: bool)
    requires i < |contents|
    ensures Entries(contents[..i + 1], addNull) == Entries(contents[..i], addNull) + Entry(contents[i], addNull)
    ensures Total(contents[..i + 1]) == Total(contents[..i]) + |contents[i]| + 3
  {
    assert contents[..i + 1][..i] == contents[..i];
  }

  /** Byte by byte: the length, its low byte first and with addNull counting the NUL, then the string, then a NUL. */
  lemma {:induction false} EntryBytes(contents: seq<Text>, addNull: bool, i: nat)
    requires i < |contents|
    ensures var e, at, t := Entries(contents, addNull), Total(contents[..i]), contents[i];
      var size := if addNull then |t| + 1 else |t|;
      && at + |t| + 3 <= |e| && e[at] as int + 0x100 * e[at + 1] as int == size % 0x1_0000
      && e[at + 2..at + 2 + |t|] == t && e[at + 2 + |t|] == 0
    ensures Total(contents[..i + 1]) == Total(contents[..i]) + |contents[i]| + 3 && Total(contents[..0]) == 0
  {
    hide Entries, Entry, Total;
    EntriesStep(contents, i, addNull);
    EntriesPrefix(contents, i + 1, addNull);
    NothingTakes(contents);
    EntryWithin(Entries(contents, addNull), Total(contents[..i]), contents[i], addNull);
  }

  lemma NothingTakes(contents: seq<Text>)
    ensures Total(contents[..0]) == 0
  {
  }

  lemma EntryWithin(e: Text, at: nat, t: Text, addNull: bool)
    requires at + |t| + 3 <= |e| && e[at..at + |t| + 3] == Entry(t, addNull)
    ensures e[at] as int + 0x100 * e[at + 1] as int == (if addNull then |t| + 1 else |t|) % 0x1_0000
    ensures e[at + 2..at + 2 + |t|] == t && e[at + 2 + |t|] == 0
  {
    var entry, size := Entry(t, addNull), StoredLength(t, addNull);
    assert entry == Le16(size) + t + [0] && FromLe16(Le16(size)) == size;
    assert entry[2..2 + |t|] == t && entry[2 + |t|] == 0;
    assert e[at] == entry[0] == Le16(size)[0] && e[at + 1] == entry[1] == Le16(size)[1];
    hide Entry, Le16;
    assert forall k :: 0 <= k < |t| + 3 ==> e[at + k] == e[at..at + |t| + 3][k] == entry[k];
    forall k | 0 <= k < |t| ensures e[at + 2..at + 2 + |t|][k] == t[k] {
      assert e[at + (2 + k)] == entry[2 + k] == entry[2..2 + |t|][k];
    }
  }

  lemma {:induction false} EntriesPrefix(contents: seq<Text>, n: nat, addNull: bool)
    requires n <= |contents|
    ensures Entries(contents[..n], addNull) <= Entries(contents, addNull)
    decreases |contents|
  {
    if n < |contents| {
      var init := contents[..|contents| - 1];
      assert contents[..n] == init[..n];
      EntriesPrefix(init, n, addNull);
    } else {
      assert contents[..n] == contents;
    }
  }

  lemma {:induction false} TotalMonotone(contents: seq<Text>, n: nat)
    requires n <= |contents|
    ensures Total(contents[..n]) <= Total(contents)
  {
    if n < |contents| {
      var init := contents[..|contents| - 1];
      assert contents[..n] == init[..n];
      TotalMonotone(init, n);
    } else {
      assert contents[..n] == contents;
    }
  }

  /** Gives the empty text exactly for the empty list and, as a failure, for one that takes more than 65535 bytes. */
  method ComposeStrings(contents: seq<Text>, addNull: bool) returns (result: Text)
    ensures result == [] <==> contents == [] || Total(contents) > LIMIT
    ensures result == if Total(contents) > LIMIT then [] else Entries(contents, addNull)
    ensures result == [] <==> contents == [] || |Entries(contents, addNull)| > 65535
  {
    result := [];
    var i := 0;
    while i < |contents|
      invariant i <= |contents| && |result| <= LIMIT
      invariant result == Entries(contents[..i], addNull)
    {
      hide Entries, Total, Le16;
      var iter := contents[i];
      EntriesStep(contents, i, addNull);
      TotalMonotone(contents, i + 1);
      if |iter| > LIMIT {
        return [];
      }
      var size := |iter|;
      if addNull {
        size := (size + 1) % 0x1_0000;
      }
      assert size == StoredLength(iter, addNull);
      hide StoredLength;
      result := result + (Le16(size) + iter + [0]);
      if |result| > LIMIT {
        return [];
      }
      i := i + 1;
    }
    assert contents[..i] == contents;
  }

  // What a scan of c finds: the strings, or None where an entry does not fit.
  function Scanned(c: Text): Option<seq<Text>>
    decreases |c|
  {
    if c == [] then Some([])
    else if |c| <= 2 then None
    else
      var size := FromLe16(c[..2]) as int;
      if 2 + size >= |c| then None
      else
        var rest := Scanned(c[2 + size + 1..]);
        if rest.None? then None else Some([c[2..2 + size]] + rest.value)
  }

  function Prepend(head: seq<Text>, o: Option<seq<Text>>): Option<seq<Text>> {
    if o.None? then None else Some(head + o.value)
  }

  lemma PrependNone(o: Option<seq<Text>>)
    ensures Prepend([], o) == o
  {
    if o.Some? { assert [] + o.value == o.value; }
  }

  lemma PrependOne(head: seq<Text>, t: Text, o: Option<seq<Text>>)
    ensures Prepend(head, Prepend([t], o)) == Prepend(head + [t], o)
  {
    if o.Some? { assert head + ([t] + o.value) == (head + [t]) + o.value; }
  }

  lemma ScanStep(content: Text, pos: nat)
    requires pos < |content|
    ensures pos + 2 >= |content| ==> Scanned(content[pos..]).None?
    ensures pos + 2 < |content| ==>
      var size := FromLe16(content[pos..pos + 2]) as int;
      if pos + 2 + size >= |content| then Scanned(content[pos..]).None?
      else Scanned(content[pos..]) ==
           Prepend([content[pos + 2..pos + 2 + size]], Scanned(content[pos + 2 + size + 1..]))
  {
    var c := content[pos..];
    if pos + 2 < |content| {
      assert c[..2] == content[pos..pos + 2];
      var size := FromLe16(c[..2]) as int;
      if 2 + size < |c| {
        assert c[2..2 + size] == content[pos + 2..pos + 2 + size];
        assert c[2 + size + 1..] == content[pos + 2 + size + 1..];
      }
    }
  }

  method DecomposeStrings(content: Text) returns (result: seq<Text>)
    ensures result == if Scanned(content).Some? then Scanned(content).value else []
  {
    result := [];
    var pos := 0;
    assert content[0..] == content;
    PrependNone(Scanned(content));
    while pos < |content|
      invariant pos <= |content|
      invariant Scanned(content) == Prepend(result, Scanned(content[pos..]))
    {
      hide Scanned, FromLe16;
      ScanStep(content, pos);
      if pos + 2 >= |content| {
        return [];
      }
      var size := FromLe16(content[pos..pos + 2]) as int;
      pos := pos + 2;
      if pos + size >= |content| {
        return [];
      }
      var buffer := content[pos..pos + size];
      PrependOne(result, buffer, Scanned(content[pos + size + 1..]));
      hide Prepend;
      result := result + [buffer];
      pos := pos + size + 1;
    }
    assert content[pos..] == [];
  }

  lemma {:induction false} EntriesConcat(a: seq<Text>, b: seq<Text>, addNull: bool)
    ensures Entries(a + b, addNull) == Entries(a, addNull) + Entries(b, addNull)
    ensures Total(a + b) == Total(a) + Total(b)
  {
    if b == [] {
      assert a + b == a;
    } else {
      hide Entry;
      var n := |b| - 1;
      assert (a + b)[..|a| + n] == a + b[..n] && (a + b)[|a| + n] == b[n];
      EntriesConcat(a, b[..n], addNull);
      Associate(Entries(a, addNull), Entries(b[..n], addNull), Entry(b[n], addNull));
    }
  }

  lemma OneEntry(t: Text)
    ensures Entries([t], false) == Entry(t, false)
  {
    var none: seq<Text> := [];
    assert [t][..0] == none;
    assert Entries(none, false) == [];
  }

  lemma EntriesCons(t: Text, rest: seq<Text>)
    requires |t| < 0x1_0000
    ensures Entries([t] + rest, false) == Le16(|t|) + t + [0] + Entries(rest, false)
  {
    OneEntry(t);
    EntriesConcat([t], rest, false);
    hide Entries;
  }

  lemma ScanEntry(t: Text, tail: Text)
    requires |t| < 0x1_0000
    ensures Scanned(Entry(t, false) + tail) ==
            if Scanned(tail).None? then None else Some([t] + Scanned(tail).value)
  {
    var c := Entry(t, false) + tail;
    assert c[..2] == Le16(|t|) && FromLe16(c[..2]) == |t|;
    assert c[2..2 + |t|] == t && c[2 + |t| + 1..] == tail;
  }

  /** Decomposing undoes composing. */
  lemma {:induction false} DecomposeCompose(contents: seq<Text>)
    requires Total(contents) <= LIMIT
    ensures Scanned(Entries(contents, false)) == Some(contents)
  {
    if contents != [] {
      var t, rest := contents[0], contents[1..];
      assert contents == [t] + rest;
      EntriesConcat([t], rest, false);
      OneEntry(t);
      DecomposeCompose(rest);
      ScanEntry(t, Entries(rest, false));
    }
  }

  // Every entry of c ends in a NUL.
  predicate Terminated(c: Text)
    requires Scanned(c).Some?
    decreases |c|
  {
    c == [] || (var size := FromLe16(c[..2]) as int; c[2 + size] == 0 && Terminated(c[2 + size + 1..]))
  }

  /** Composing undoes decomposing on texts whose entries end in NULs; the scan itself ignores the end bytes. */
  lemma {:induction false} ComposeDecompose(c: Text)
    requires Scanned(c).Some?
    ensures |Entries(Scanned(c).value, false)| == |c|
    ensures Entries(Scanned(c).value, false) == c <==> Terminated(c)
    decreases |c|
  {
    if c != [] {
      hide Scanned, Terminated, Entries, FromLe16, Entry;
      var size, rest := FirstEntry(c);
      ComposeDecompose(c[2 + size + 1..]);
      SameBytes(c, size, Entries(rest, false));
    }
  }

  lemma FirstEntry(c: Text) returns (size: nat, rest: seq<Text>)
    requires c != [] && Scanned(c).Some?
    ensures 2 + size < |c| && Scanned(c[2 + size + 1..]) == Some(rest)
    ensures Terminated(c) <==> c[2 + size] == 0 && Terminated(c[2 + size + 1..])
    ensures Entries(Scanned(c).value, false) == c[..2] + c[2..2 + size] + [0] + Entries(rest, false)
  {
    size := FromLe16(c[..2]);
    rest := Scanned(c[2 + size + 1..]).value;
    FromLe16Injective(c[..2]);
    assert Scanned(c).value == [c[2..2 + size]] + rest;
    hide Entries, Scanned, Terminated, Entry, Le16;
    EntriesCons(c[2..2 + size], rest);
  }

  lemma SameBytes(c: Text, size: nat, rest: Text)
    requires 2 + size < |c| && |rest| == |c| - 2 - size - 1
    ensures var e := c[..2] + c[2..2 + size] + [0] + rest;
      |e| == |c| && (e == c <==> c[2 + size] == 0 && rest == c[2 + size + 1..])
  {
    var e := c[..2] + c[2..2 + size] + [0] + rest;
    assert c == c[..2] + c[2..2 + size] + [c[2 + size]] + c[2 + size + 1..];
    assert e[2 + size] == 0 && e[2 + size + 1..] == rest;
  }

  /** An empty string that ends in a 1 is decomposed, and composed with a NUL. */
  lemma EndByteLost()
    ensures Scanned([0, 0, 1]) == Some([[]]) && Entries([[]], false) == [0, 0, 0]
  {
    var c: Text := [0, 0, 1];
    assert c[..2] == [0, 0] && c[2..2] == [] && c[2 + 0 + 1..] == [];
    assert FromLe16(c[..2]) == 0;
    assert Scanned(c[2 + 0 + 1..]) == Some([]);
    assert [c[2..2]] + [] == [[]];
    OneEntry([]);
  }
}
