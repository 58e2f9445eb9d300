/** Resolving the references inside an array resource: decompose, resolve each element, recompose. */
module ReferenceParsers {
  import opened Bytes
  import opened ResourceData
  import opened StringCodec

  // What the resolver says of one string; which strings are references and what they name is not modelled.
  datatype Reference = NotRef | Resolved(text: Text) | Undefined

  type Resolver = Text -> Reference

  function Replaced(resolve: Resolver, t: Text): Text {
    match resolve(t)
    case Resolved(u) => u
    case _ => t
  }

  function ReplacedAll(resolve: Resolver, ts: seq<Text>): (us: seq<Text>)
    ensures |us| == |ts| && forall i :: 0 <= i < |ts| ==> us[i] == Replaced(resolve, ts[i])
  {
    seq(|ts|, i requires 0 <= i < |ts| => Replaced(resolve, ts[i]))
  }

  predicate AllDefined(resolve: Resolver, ts: seq<Text>) {
    forall i :: 0 <= i < |ts| ==> !resolve(ts[i]).Undefined?
  }

  predicate AnyReference(resolve: Resolver, ts: seq<Text>) {
    exists i :: 0 <= i < |ts| && resolve(ts[i]).Resolved?
  }

  /** The data of an array resource that is in the codec's form: resolving keeps the count and order of
      its elements and every element that is no reference, and fails only on an undefined reference or
      when the resolved elements no longer fit. */
  method ParseRefResourceItemData(itemData: Text, resolve: Resolver) returns (ok: bool, data: Text, update: bool)
    ensures var c := Scanned(itemData);
      ok <==> c.Some? && c.value != [] && AllDefined(resolve, c.value)
              && (AnyReference(resolve, c.value) ==> Total(ReplacedAll(resolve, c.value)) <= LIMIT)
    ensures ok ==> update == AnyReference(resolve, Scanned(itemData).value)
    ensures ok && !update ==> data == itemData
    ensures ok && update ==> data == Entries(ReplacedAll(resolve, Scanned(itemData).value), false)
    ensures ok ==> Scanned(data) == Some(ReplacedAll(resolve, Scanned(itemData).value))
    // Element by element: a reference gives way to the resolver's text, all else stays.
    ensures ok ==> |Scanned(data).value| == |Scanned(itemData).value|
    ensures ok ==> forall i :: 0 <= i < |Scanned(itemData).value| ==>
      var was, now := Scanned(itemData).value[i], Scanned(data).value[i];
      now == if resolve(was).Resolved? then resolve(was).text else was
    ensures ok ==> forall i :: 0 <= i < |Scanned(itemData).value| ==> !resolve(Scanned(itemData).value[i]).Undefined?
    ensures ok ==> (update <==>
      exists i :: 0 <= i < |Scanned(itemData).value| && resolve(Scanned(itemData).value[i]).Resolved?)
  {
    data, update := itemData, false;
    var contents := DecomposeStrings(data);
    if contents == [] {
      return false, data, update;
    }
    ghost var was := contents;
    ok, contents, update := ResolveAll(contents, resolve);
    if !ok {
      return false, data, update;
    }
    hide Entries, Total, Scanned;
    if !update {
      Unchanged(resolve, was);
      return true, data, update;
    }
    data := ComposeStrings(contents, false);
    if data == [] {
      Nonempty(contents);
      return false, data, update;
    }
    DecomposeCompose(contents);
    return true, data, update;
  }

  // The loop over the elements.
  method ResolveAll(was: seq<Text>, resolve: Resolver) returns (ok: bool, contents: seq<Text>, update: bool)
    ensures ok <==> AllDefined(resolve, was)
    ensures ok ==> contents == ReplacedAll(resolve, was) && update == AnyReference(resolve, was)
    ensures ok <==> forall i :: 0 <= i < |was| ==> !resolve(was[i]).Undefined?
    ensures ok ==> forall i :: 0 <= i < |was| ==>
      contents[i] == if resolve(was[i]).Resolved? then resolve(was[i]).text else was[i]
    ensures ok ==> (update <==> exists i :: 0 <= i < |was| && resolve(was[i]).Resolved?)
  {
    contents, update := was, false;
    var i := 0;
    while i < |contents|
      invariant i <= |contents| == |was|
      invariant forall j :: 0 <= j < i ==> contents[j] == Replaced(resolve, was[j]) && !resolve(was[j]).Undefined?
      invariant forall j :: i <= j < |was| ==> contents[j] == was[j]
      invariant update <==> exists j :: 0 <= j < i && resolve(was[j]).Resolved?
    {
      match resolve(contents[i]) {
        case Undefined =>
          return false, contents, update;
        case Resolved(text) =>
          contents := contents[i := text];
          update := true;
        case NotRef =>
      }
      i := i + 1;
    }
    return true, contents, update;
  }

  lemma Unchanged(resolve: Resolver, ts: seq<Text>)
    requires !AnyReference(resolve, ts)
    ensures ReplacedAll(resolve, ts) == ts
  {
  }

  lemma Nonempty(ts: seq<Text>)
    requires ts != []
    ensures Total(ts) > 0
  {
  }
}
