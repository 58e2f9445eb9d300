/** The record files of a module: which of them are read, what they hold, and that what is written is read back. */
module AppendFiles {
  import opened Bytes
  import F = AppendFormat
  import opened ResourceData
  import opened Sequences

  // The file's length, as the int32 the source keeps it in.
  function Length(b: Text): int32 { Signed(U32(|b|)) }

  // A file without content is refused.
  predicate Loadable(b: Text) { Length(b) > 0 }

  // As many bytes as the length says.
  function Content(b: Text): Text
    requires Loadable(b)
  {
    b[..Length(b)]
  }

  /** Below 2 GiB that is every file but the empty one, read whole; up to 4 GiB none, then the length starts over. */
  lemma LoadableIs(b: Text)
    ensures Loadable(b) <==> 0 < |b| % 0x1_0000_0000 < 0x8000_0000
    ensures |b| < 0x8000_0000 ==> (Loadable(b) <==> b != []) && (Loadable(b) ==> Content(b) == b)
  {
  }

  // What a file holds; raw file records are copied, not pushed.
  function ItemsOf(b: Text): seq<Item> { if Loadable(b) then F.Pushed(F.RecordsFrom(Content(b), 0)) else [] }

  // What a module's files hold, one file after the other.
  function FileItems(files: seq<Text>): seq<Item> {
    if files == [] then [] else FileItems(files[..|files| - 1]) + ItemsOf(files[|files| - 1])
  }

  /** Files are read in their order. */
  lemma {:induction false} FileItemsFlat(files: seq<Text>)
    ensures FileItems(files) == Flatten(seq(|files|, f requires 0 <= f < |files| => ItemsOf(files[f])))
  {
    hide ItemsOf;
    var lists := seq(|files|, f requires 0 <= f < |files| => ItemsOf(files[f]));
    if files != [] {
      var n := |files| - 1;
      FileItemsFlat(files[..n]);
      assert lists[..n] == seq(n, f requires 0 <= f < n => ItemsOf(files[..n][f]));
    }
  }

  function AllFileItems(modules: seq<seq<Text>>): (lists: seq<seq<Item>>)
    ensures |lists| == |modules| && forall m :: 0 <= m < |lists| ==> lists[m] == FileItems(modules[m])
  {
    seq(|modules|, m requires 0 <= m < |modules| => FileItems(modules[m]))
  }

  ghost predicate FilesLoadable(files: seq<Text>) { forall f :: 0 <= f < |files| ==> Loadable(files[f]) }

  ghost predicate AllLoadable(modules: seq<seq<Text>>) {
    forall m :: 0 <= m < |modules| ==> FilesLoadable(modules[m])
  }

  lemma FilesStep(files: seq<Text>, f: nat)
    requires f < |files|
    ensures FileItems(files[..0]) == [] && FilesLoadable(files[..0])
    ensures FileItems(files[..f + 1]) == FileItems(files[..f]) + ItemsOf(files[f])
    ensures FilesLoadable(files[..f + 1]) <==> FilesLoadable(files[..f]) && Loadable(files[f])
    ensures FilesLoadable(files) ==> Loadable(files[f])
  {
    assert files[..f + 1][..f] == files[..f];
    LoadableStep(files, f);
    hide ItemsOf, Loadable, FilesLoadable;
  }

  lemma LoadableStep(files: seq<Text>, f: nat)
    requires f < |files|
    ensures FilesLoadable(files[..0]) && (FilesLoadable(files) ==> Loadable(files[f]))
    ensures FilesLoadable(files[..f + 1]) <==> FilesLoadable(files[..f]) && Loadable(files[f])
  {
    hide Loadable;
    var more, fewer := files[..f + 1], files[..f];
    assert more[f] == files[f] && forall g :: 0 <= g < f ==> more[g] == fewer[g];
  }

  lemma {:induction false} FilesPrefix(files: seq<Text>, f: nat)
    requires f <= |files|
    ensures FileItems(files[..f]) <= FileItems(files)
    decreases |files|
  {
    hide ItemsOf;
    if f < |files| {
      FilesPrefix(files[..|files| - 1], f);
      assert files[..|files| - 1][..f] == files[..f];
    } else {
      assert files[..f] == files;
    }
  }

  /** An empty file is refused, where reading it would have made up a record of empty fields. */
  lemma EmptyRefused()
    ensures !AllLoadable([[[]]])
    ensures F.Pushed(F.RecordsFrom([], 0)) == [Item([], [], [], -1, [], [])]
  {
    var none: Text := [];
    assert !Loadable(none);
    assert !FilesLoadable([none]) by { assert [none][0] == none; }
    assert [[none]][0] == [none];
    var item := Item([], [], [], -1, [], []);
    assert F.RecordAt(none, 0) == (item, 0);
    assert F.RecordsFrom(none, 0) == [item];
    assert [item][..0] == [];
  }

  // ------------------------------------------------------------ files as they were written

  // A file is written with one item at least; all of them are to be pushed, and their lengths fit.
  predicate Writable(items: seq<Item>) {
    items != [] && forall i :: 0 <= i < |items| ==> F.Fits(items[i]) && items[i].resType != RAW
  }

  function WrittenFiles(parts: seq<seq<Item>>): (files: seq<Text>)
    requires forall p :: 0 <= p < |parts| ==> Writable(parts[p])
    ensures |files| == |parts|
  {
    seq(|parts|, p requires 0 <= p < |parts| => assert Writable(parts[p]); F.Written(parts[p]))
  }

  // All files are below 2 GiB, so that their lengths are what they are.
  ghost predicate Short(files: seq<Text>) { forall f :: 0 <= f < |files| ==> |files[f]| < 0x8000_0000 }

  function Joined(parts: seq<seq<Item>>): seq<Item> { Flatten(parts) }

  lemma JoinedStep(parts: seq<seq<Item>>, p: nat)
    requires p < |parts|
    ensures Joined(parts[..0]) == []
    ensures Joined(parts[..p + 1]) == Joined(parts[..p]) + parts[p]
  {
    assert parts[..p + 1][..p] == parts[..p];
  }

  /** The files of a module hold the items written to them. */
  lemma {:induction false} FilesBack(parts: seq<seq<Item>>)
    requires forall p :: 0 <= p < |parts| ==> Writable(parts[p])
    requires Short(WrittenFiles(parts))
    ensures FilesLoadable(WrittenFiles(parts)) && FileItems(WrittenFiles(parts)) == Joined(parts)
  {
    hide F.Written, F.Pushed, F.RecordsFrom, Loadable, Content;
    var files := WrittenFiles(parts);
    if parts != [] {
      var n := |parts| - 1;
      assert files[..n] == WrittenFiles(parts[..n]);
      FilesBack(parts[..n]);
      F.LoadWritten(parts[n]);
      NotEmpty(parts[n]);
      LoadableIs(files[n]);
      FilesStep(files, n);
      assert files[..n + 1] == files;
    }
  }

  lemma NotEmpty(items: seq<Item>)
    requires Writable(items)
    ensures F.Written(items) != []
  {
    F.WrittenStep(items);
    hide F.Written, F.Record;
  }

  function JoinedAll(modules: seq<seq<seq<Item>>>): (lists: seq<seq<Item>>)
    ensures |lists| == |modules|
  {
    seq(|modules|, m requires 0 <= m < |modules| => Joined(modules[m]))
  }

  ghost predicate AllWritable(modules: seq<seq<seq<Item>>>) {
    forall m, p :: 0 <= m < |modules| && 0 <= p < |modules[m]| ==> Writable(modules[m][p])
  }

  function WrittenModules(modules: seq<seq<seq<Item>>>): (files: seq<seq<Text>>)
    requires AllWritable(modules)
    ensures |files| == |modules|
  {
    seq(|modules|, m requires 0 <= m < |modules| => WrittenFiles(modules[m]))
  }

  ghost predicate AllShort(modules: seq<seq<Text>>) { forall m :: 0 <= m < |modules| ==> Short(modules[m]) }

  lemma AllFilesBack(modules: seq<seq<seq<Item>>>)
    requires AllWritable(modules) && AllShort(WrittenModules(modules))
    ensures AllLoadable(WrittenModules(modules)) && AllFileItems(WrittenModules(modules)) == JoinedAll(modules)
  {
    hide FileItems, WrittenFiles, Joined, FilesLoadable, Short, Writable;
    var files := WrittenModules(modules);
    forall m | 0 <= m < |modules|
      ensures FilesLoadable(files[m]) && AllFileItems(files)[m] == JoinedAll(modules)[m]
    {
      assert Short(files[m]);
      FilesBack(modules[m]);
    }
  }
}
