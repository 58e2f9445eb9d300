/**
 The definition files an id allocator starts from: names numbered from a start id on.  What several of
 them define together is one to one only if their ranges are.
 */
module IdDefinitions {
  import opened Bytes
  import opened ResourceData

  // An id_defined.json: its start id and the names of its record, in order.
  datatype DefinedFile = DefinedFile(startId: int, record: seq<ResName>)

  // The bits 0x07800000 are all set.
  predicate SystemStart(id: nat) { id / 0x80_0000 % 0x10 == 0xF }

  // The text "ohos" and something behind it that is no line break.
  predicate IsValidSystemName(name: Text) {
    && |name| > 4 && name[..4] == AsBytes("ohos")
    && forall i :: 4 <= i < |name| ==> name[i] != '\n' as int && name[i] != '\r' as int
  }

  // One at least of the characters from 'A' to 'z', which takes in some signs, and the digits.
  predicate IsPlainName(name: Text) {
    && name != []
    && forall i :: 0 <= i < |name| ==> 'A' as int <= name[i] <= 'z' as int || '0' as int <= name[i] <= '9' as int
  }

  predicate Acceptable(file: DefinedFile) {
    && file.startId >= 0 && file.record != []
    && (SystemStart(file.startId) ==> forall i :: 0 <= i < |file.record| ==> IsValidSystemName(file.record[i].1))
  }

  /** In numbers: system ids start in the top sixteenth of a block of 2^27. */
  lemma SystemStartIs(id: nat)
    ensures SystemStart(id) <==> id % 0x0800_0000 >= 0x0780_0000
  {
    assert id / 0x80_0000 % 0x10 == id % 0x0800_0000 / 0x80_0000;
  }

  /** In bytes: "ohos" and one line of something behind it. */
  lemma SystemNameIs(name: Text)
    ensures IsValidSystemName(name) <==>
      exists rest: Text :: name == [111, 104, 111, 115] + rest && rest != [] && 10 !in rest && 13 !in rest
  {
    assert AsBytes("ohos") == [111, 104, 111, 115];
    if IsValidSystemName(name) {
      assert name == name[..4] + name[4..];
    }
    if rest: Text :| name == [111, 104, 111, 115] + rest && rest != [] && 10 !in rest && 13 !in rest {
      assert name[..4] == [111, 104, 111, 115];
      assert forall i :: 4 <= i < |name| ==> name[i] == rest[i - 4];
    }
  }

  /** In bytes: those from 65 to 122 and from 48 to 57, one at least. */
  lemma PlainNameIs(name: Text)
    ensures IsPlainName(name) <==> name != [] && forall c :: c in name ==> 65 <= c <= 122 || 48 <= c <= 57
  {
    if IsPlainName(name) {
      forall c | c in name ensures 65 <= c <= 122 || 48 <= c <= 57 { var i :| 0 <= i < |name| && name[i] == c; }
    } else if name != [] {
      var i :| 0 <= i < |name| && !(65 <= name[i] <= 122 || 48 <= name[i] <= 57);
      assert name[i] in name;
    }
  }

  // The names of a file, numbered from its start id on.
  function EntriesOf(file: DefinedFile): (es: seq<(ResName, int)>)
    ensures |es| == |file.record| && forall i :: 0 <= i < |es| ==> es[i] == (file.record[i], file.startId + i)
  {
    seq(|file.record|, i requires 0 <= i < |file.record| => (file.record[i], file.startId + i))
  }

  function Entries(files: seq<DefinedFile>): seq<(ResName, int)> {
    if files == [] then [] else Entries(files[..|files| - 1]) + EntriesOf(files[|files| - 1])
  }

  predicate NamesApart(es: seq<(ResName, int)>) {
    forall i, j :: 0 <= i < j < |es| ==> es[i].0 != es[j].0
  }

  ghost predicate Lists(m: map<ResName, int>, es: seq<(ResName, int)>) {
    && (forall i :: 0 <= i < |es| ==> es[i].0 in m && m[es[i].0] == es[i].1)
    && (forall k :: k in m ==> exists i :: 0 <= i < |es| && es[i].0 == k)
  }

  lemma NoEntries()
    ensures Entries([]) == [] && NamesApart([]) && Lists(map[], [])
  {
  }

  lemma EntriesStep(files: seq<DefinedFile>, f: nat)
    requires f < |files|
    ensures Entries(files[..f + 1]) == Entries(files[..f]) + EntriesOf(files[f])
  {
    assert files[..f + 1][..f] == files[..f];
  }

  lemma ApartPrefix(es: seq<(ResName, int)>, n: nat)
    requires n <= |es| && NamesApart(es)
    ensures NamesApart(es[..n])
  {
  }

  lemma {:induction false} EntriesPrefix(files: seq<DefinedFile>, f: nat)
    requires f <= |files| && NamesApart(Entries(files))
    ensures NamesApart(Entries(files[..f]))
    decreases |files|
  {
    if f < |files| {
      var n := |files| - 1;
      EntriesStep(files, n);
      assert files[..n + 1] == files && files[..n][..f] == files[..f];
      ApartPrefix(Entries(files), |Entries(files[..n])|);
      assert Entries(files)[..|Entries(files[..n])|] == Entries(files[..n]);
      EntriesPrefix(files[..n], f);
    } else {
      assert files[..f] == files;
    }
  }

  lemma AcceptableIs(file: DefinedFile)
    ensures Acceptable(file) <==>
      && file.startId >= 0 && file.record != []
      && (SystemStart(file.startId) ==> forall i :: 0 <= i < |file.record| ==> IsValidSystemName(file.record[i].1))
  {
    hide IsValidSystemName, SystemStart;
  }

  lemma ReadStarts(file: DefinedFile, done: seq<(ResName, int)>)
    ensures done + EntriesOf(file)[..0] == done && EntriesOf(file)[..|file.record|] == EntriesOf(file)
  {
  }

  lemma ReadStep(file: DefinedFile, done: seq<(ResName, int)>, i: nat)
    requires i < |file.record|
    ensures var all := EntriesOf(file);
      && done + all[..i + 1] == (done + all[..i]) + [(file.record[i], file.startId + i)]
      && (NamesApart(done + all) ==> NamesApart(done + all[..i + 1]))
  {
    var all := EntriesOf(file);
    assert (done + all)[..|done| + i + 1] == done + all[..i + 1];
  }

  lemma OneMore(m: map<ResName, int>, es: seq<(ResName, int)>, key: ResName, id: int)
    requires NamesApart(es) && Lists(m, es)
    ensures key !in m <==> NamesApart(es + [(key, id)])
    ensures key !in m ==> Lists(m[key := id], es + [(key, id)])
  {
    var more := es + [(key, id)];
    assert more[|es|] == (key, id) && forall i :: 0 <= i < |es| ==> more[i] == es[i];
    if key in m {
      var i :| 0 <= i < |es| && es[i].0 == key;
      assert more[i].0 == more[|es|].0;
    } else {
      forall k | k in m ensures exists i :: 0 <= i < |more| && more[i].0 == k {
        var i :| 0 <= i < |es| && es[i].0 == k;
        assert more[i].0 == k;
      }
    }
  }

  /** Defined are the files' names, each as its place in its file counts from the start id, and no others. */
  lemma DefinedAre(files: seq<DefinedFile>, m: map<ResName, int>)
    requires Lists(m, Entries(files))
    ensures forall f: nat, j: nat :: f < |files| && j < |files[f].record| ==>
      files[f].record[j] in m && m[files[f].record[j]] == files[f].startId + j
    ensures forall k :: k in m ==>
      exists f: nat, j: nat :: f < |files| && j < |files[f].record| && files[f].record[j] == k
  {
    hide Entries;
    forall f: nat, j: nat | f < |files| && j < |files[f].record|
      ensures files[f].record[j] in m && m[files[f].record[j]] == files[f].startId + j
    {
      EntryAt(files, f, j);
    }
    forall k | k in m ensures exists f: nat, j: nat :: f < |files| && j < |files[f].record| && files[f].record[j] == k {
      var i :| 0 <= i < |Entries(files)| && Entries(files)[i].0 == k;
      var f, j := EntryFrom(files, i);
    }
  }

  // No two of the names have one id.
  ghost predicate OneToOne(m: map<ResName, int>, names: set<ResName>) {
    forall a, b :: a in names && b in names && a in m && b in m && a != b ==> m[a] != m[b]
  }

  // No two files number the same ids.
  predicate RangesApart(files: seq<DefinedFile>) {
    forall f, g :: 0 <= f < g < |files| ==>
      || files[f].startId + |files[f].record| <= files[g].startId
      || files[g].startId + |files[g].record| <= files[f].startId
  }

  // Where an entry comes from, and where it goes.
  lemma {:induction false} EntryFrom(files: seq<DefinedFile>, i: nat) returns (f: nat, j: nat)
    requires i < |Entries(files)|
    ensures f < |files| && j < |files[f].record| && Entries(files)[i] == (files[f].record[j], files[f].startId + j)
    ensures i == |Entries(files[..f])| + j
  {
    var n := |files| - 1;
    var before := |Entries(files[..n])|;
    if i < before {
      f, j := EntryFrom(files[..n], i);
      assert files[..n][..f] == files[..f];
    } else {
      f, j := n, i - before;
    }
  }

  lemma {:induction false} EntryAt(files: seq<DefinedFile>, f: nat, j: nat)
    requires f < |files| && j < |files[f].record|
    ensures |Entries(files[..f])| + j < |Entries(files)|
    ensures Entries(files)[|Entries(files[..f])| + j] == (files[f].record[j], files[f].startId + j)
    decreases |files|
  {
    var n := |files| - 1;
    if f < n {
      EntryAt(files[..n], f, j);
      assert files[..n][..f] == files[..f];
    }
  }

  lemma {:induction false} EntriesGrow(files: seq<DefinedFile>, f: nat, g: nat)
    requires f < g <= |files|
    ensures |Entries(files[..f])| + |files[f].record| <= |Entries(files[..g])|
    decreases g
  {
    EntriesStep(files, g - 1);
    if f < g - 1 { EntriesGrow(files, f, g - 1); }
  }

  /** Definition files that are read give every name an id of its own exactly if they number disjoint ranges. */
  lemma {:induction false} DefinedOneToOne(files: seq<DefinedFile>, m: map<ResName, int>)
    requires NamesApart(Entries(files)) && Lists(m, Entries(files))
    requires forall f :: 0 <= f < |files| ==> Acceptable(files[f])
    ensures OneToOne(m, m.Keys) <==> RangesApart(files)
  {
    hide Entries, Acceptable, SystemStart, IsValidSystemName;
    forall f: nat, g: nat | f < g < |files|
      ensures OneToOne(m, m.Keys) ==>
        || files[f].startId + |files[f].record| <= files[g].startId
        || files[g].startId + |files[g].record| <= files[f].startId
    {
      SharedId(files, m, f, g);
    }
    if RangesApart(files) {
      forall a, b | a in m && b in m && a != b ensures m[a] != m[b] {
        DifferentIds(files, m, a, b);
      }
    }
  }

  lemma SharedId(files: seq<DefinedFile>, m: map<ResName, int>, f: nat, g: nat)
    requires NamesApart(Entries(files)) && Lists(m, Entries(files)) && f < g < |files|
    requires Acceptable(files[f]) && Acceptable(files[g])
    ensures OneToOne(m, m.Keys) ==>
      || files[f].startId + |files[f].record| <= files[g].startId
      || files[g].startId + |files[g].record| <= files[f].startId
  {
    hide *;
    var x, y := files[f], files[g];
    AcceptableIs(x);
    AcceptableIs(y);
    if x.startId + |x.record| > y.startId && y.startId + |y.record| > x.startId {
      var id := if x.startId < y.startId then y.startId else x.startId;
      var i, j := id - x.startId, id - y.startId;
      EntryAt(files, f, i);
      EntryAt(files, g, j);
      EntriesGrow(files, f, g);
      SharedBy(m, Entries(files), |Entries(files[..f])| + i, |Entries(files[..g])| + j);
    }
  }

  lemma SharedBy(m: map<ResName, int>, es: seq<(ResName, int)>, p: nat, q: nat)
    requires NamesApart(es) && Lists(m, es) && p < q < |es| && es[p].1 == es[q].1
    ensures !OneToOne(m, m.Keys)
  {
    assert m[es[p].0] == m[es[q].0];
  }

  lemma DifferentIds(files: seq<DefinedFile>, m: map<ResName, int>, a: ResName, b: ResName)
    requires NamesApart(Entries(files)) && Lists(m, Entries(files)) && RangesApart(files)
    requires a in m && b in m && a != b
    ensures m[a] != m[b]
  {
    hide Entries;
    var es := Entries(files);
    var p :| 0 <= p < |es| && es[p].0 == a;
    var q :| 0 <= q < |es| && es[q].0 == b;
    var f, i := EntryFrom(files, p);
    var g, j := EntryFrom(files, q);
    if f == g { assert i != j; }
  }

  /** Two inputs that start at the same id: both files are read, and their first names share it. */
  lemma SameStart(a: ResName, b: ResName)
    requires a != b && IsValidSystemName(a.1) && IsValidSystemName(b.1)
    ensures var files := [DefinedFile(0x0780_0000, [a]), DefinedFile(0x0780_0000, [b])];
      && (forall f :: 0 <= f < 2 ==> Acceptable(files[f])) && NamesApart(Entries(files))
      && forall m :: Lists(m, Entries(files)) ==> !OneToOne(m, {a, b})
  {
    var x, y := DefinedFile(0x0780_0000, [a]), DefinedFile(0x0780_0000, [b]);
    var files := [x, y];
    assert files[..1] == [x] && [x][..0] == [];
    var es := Entries(files);
    assert es == [(a, 0x0780_0000), (b, 0x0780_0000)] by {
      assert Entries([x]) == [] + EntriesOf(x);
      assert es == Entries([x]) + EntriesOf(y);
    }
    assert es[0].0 == a && es[1].0 == b && es[0].1 == es[1].1;
    hide Entries;
    forall m | Lists(m, es) ensures !OneToOne(m, {a, b}) {
      assert m[es[0].0] == m[es[1].0];
      assert a in {a, b} && b in {a, b};
    }
  }
}
