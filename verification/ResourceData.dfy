/** The enumerations and small records the resource compiler's components share. */
module ResourceData {
  import opened Bytes

  datatype Option<+T> = None | Some(value: T)

  // Resource types are kept as the enumerator's number: a record may hold any int32.
  const ANIMATION := 1
  const LAYOUT := 3
  const RAW := 6
  const STRING := 9
  const ID := 15
  const MEDIA := 19
  const PROF := 20
  const GRAPHIC := 21

  // The numbers the table from numbers to resource types has an entry for.
  predicate KnownType(t: int) {
    t in {-1, 0, 1, 3, 6, 8, 9, 10, 11, 12, 14, 15, 16, 17, 18, 19, 20, 21, 22}
  }

  // A resource's name within its type, extension stripped.
  type ResName = (int32, Text)

  // The keyType field holds the enumerator's number; a file may put any int32 there.
  const LANGUAGE := 0
  const REGION := 1
  const RESOLUTION := 2
  const ORIENTATION := 3
  const DEVICETYPE := 4
  const SCRIPT := 5
  const NIGHTMODE := 6
  const MCC := 7
  const MNC := 8
  const INPUTDEVICE := 10

  datatype KeyParam = KeyParam(keyType: int32, value: uint32)

  datatype Item = Item(
    name: Text,
    limitKey: Text,
    filePath: Text,
    resType: int32,
    keyParams: seq<KeyParam>,
    data: Text)

  function LastDot(name: Text): (i: int)
    ensures -1 <= i < |name|
    ensures i >= 0 ==> name[i] == '.' as int && forall j :: i < j < |name| ==> name[j] != '.' as int
    ensures i == -1 ==> forall j :: 0 <= j < |name| ==> name[j] != '.' as int
  {
    if name == [] then -1
    else if name[|name| - 1] == '.' as int then |name| - 1
    else LastDot(name[..|name| - 1])
  }

  // File resources are named without their extension.
  function GetIdName(name: Text, resType: int32): Text {
    if resType != MEDIA && resType != LAYOUT && resType != PROF && resType != ANIMATION && resType != GRAPHIC
      then name
    else if LastDot(name) >= 0 then name[..LastDot(name)]
    else name
  }

  /**
   Only a file kind's name loses something: what stands from its last dot on. Files are the types animation, layout,
   media, profile and graphic, here by number.
   */
  lemma GetIdNameIs(name: Text, resType: int32)
    ensures var r := GetIdName(name, resType);
      var isFile := resType in {1, 3, 19, 20, 21};
      && r <= name
      && (!isFile ==> r == name)
      && (isFile && |r| < |name| ==> name[|r|] == 46)
      && (isFile ==> forall j :: |r| < j < |name| ==> name[j] != 46)
      && (isFile && r == name ==> forall j :: 0 <= j < |name| ==> name[j] != 46)
  {
    var i := LastDot(name);
    hide LastDot;
  }

  function IdName(item: Item): ResName { (item.resType, GetIdName(item.name, item.resType)) }

  // A key param as both file formats store it.
  function Param(p: KeyParam): (b: Text)
    ensures |b| == 8
  {
    I32(p.keyType) + Le32(p.value)
  }

  function Params(ps: seq<KeyParam>): (b: Text)
    ensures |b| == 8 * |ps|
  {
    if ps == [] then [] else Params(ps[..|ps| - 1]) + Param(ps[|ps| - 1])
  }

  lemma ParamsStep(ps: seq<KeyParam>)
    requires ps != []
    ensures var init, p := ps[..|ps| - 1], ps[|ps| - 1];
      Params(ps) == Params(init) + Param(p) && |Param(p)| == 8 && init + [p] == ps && |init| + 1 == |ps|
      && |Params(ps)| == |Params(init)| + 8
  {
  }
}
