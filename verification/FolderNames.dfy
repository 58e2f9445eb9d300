/**
 What a resource folder's name means, character by character: which names the parser takes, and the key params it gives
 for each.
 */
module FolderNames {
  import opened Bytes
  import opened ResourceData
  import opened KeyParsers
  import opened LimitKeys
  import Decimal

  // ------------------------------------------------------------ pieces

  predicate IsNumber(d: string) { forall i :: 0 <= i < |d| ==> '0' <= d[i] <= '9' }

  // Two or three small letters that name no device.
  predicate IsLanguage(s: string) {
    2 <= |s| <= 3 && (forall i :: 0 <= i < |s| ==> 'a' <= s[i] <= 'z') && s != "tv" && s != "car"
  }

  predicate IsScript(s: string) {
    |s| == 4 && 'A' <= s[0] <= 'Z' && forall i :: 1 <= i < 4 ==> 'a' <= s[i] <= 'z'
  }

  predicate IsRegion(s: string) {
    || (2 <= |s| <= 3 && forall i :: 0 <= i < |s| ==> 'A' <= s[i] <= 'Z')
    || (|s| == 3 && IsNumber(s))
  }

  function Number(d: string): uint32
    requires 2 <= |d| <= 3 && IsNumber(d)
  {
    var tens := 10 * (d[0] as int - '0' as int) + (d[1] as int - '0' as int);
    if |d| == 2 then tens else 10 * tens + (d[2] as int - '0' as int)
  }

  // The characters as the bytes of a word, the last one lowest.
  function Letters(s: string): uint32
    requires 2 <= |s| <= 4 && Ascii(s)
  {
    var two := 0x100 * s[0] as int + s[1] as int;
    if |s| == 2 then two
    else if |s| == 3 then 0x100 * two + s[2] as int
    else 0x1_0000 * two + 0x100 * s[2] as int + s[3] as int
  }

  // Key types are given by number, as the files hold them: 0 language, 1 region, 2 resolution, 3 orientation, 4 device,
  // 5 script, 6 night mode, 7 country code, 8 network code, 10 input device.
  function WordParam(w: string): Option<KeyParam> {
    match w
    case "vertical" => Some(KeyParam(3, 0))
    case "horizontal" => Some(KeyParam(3, 1))
    case "phone" => Some(KeyParam(4, 0))
    case "tablet" => Some(KeyParam(4, 1))
    case "car" => Some(KeyParam(4, 2))
    case "tv" => Some(KeyParam(4, 4))
    case "wearable" => Some(KeyParam(4, 6))
    case "dark" => Some(KeyParam(6, 0))
    case "light" => Some(KeyParam(6, 1))
    case "pointingdevice" => Some(KeyParam(10, 0))
    case "sdpi" => Some(KeyParam(2, 120))
    case "mdpi" => Some(KeyParam(2, 160))
    case "ldpi" => Some(KeyParam(2, 240))
    case "xldpi" => Some(KeyParam(2, 320))
    case "xxldpi" => Some(KeyParam(2, 480))
    case "xxxldpi" => Some(KeyParam(2, 640))
    case _ => None
  }

  // ------------------------------------------------------------ parts

  // What may stand between two dashes.
  datatype Part =
    | Nothing
    | Mcc(mcc: string)
    | MccMnc(mcc: string, mnc: string)
    | Language(l: string)
    | LanguageScript(l: string, s: string)
    | LanguageRegion(l: string, r: string)
    | LanguageScriptRegion(l: string, s: string, r: string)
    | Word(w: string)

  predicate Sound(p: Part) {
    match p
    case Nothing => true
    case Mcc(d) => |d| == 3 && IsNumber(d)
    case MccMnc(d, e) => |d| == 3 && IsNumber(d) && 2 <= |e| <= 3 && IsNumber(e)
    case Language(l) => IsLanguage(l)
    case LanguageScript(l, s) => IsLanguage(l) && IsScript(s)
    case LanguageRegion(l, r) => IsLanguage(l) && IsRegion(r)
    case LanguageScriptRegion(l, s, r) => IsLanguage(l) && IsScript(s) && IsRegion(r)
    case Word(w) => WordParam(w).Some?
  }

  function PartText(p: Part): string {
    match p
    case Nothing => ""
    case Mcc(d) => "mcc" + d
    case MccMnc(d, e) => "mcc" + d + "_mnc" + e
    case Language(l) => l
    case LanguageScript(l, s) => l + "_" + s
    case LanguageRegion(l, r) => l + "_" + r
    case LanguageScriptRegion(l, s, r) => l + "_" + s + "_" + r
    case Word(w) => w
  }

  // One underscore may follow the codes and the locales.
  predicate Names(t: string, p: Part) {
    t == PartText(p) || (!p.Nothing? && !p.Word? && t == PartText(p) + "_")
  }

  function Meaning(p: Part): seq<KeyParam>
    requires Sound(p)
  {
    match p
    case Nothing => []
    case Mcc(d) => [KeyParam(7, Number(d))]
    case MccMnc(d, e) => [KeyParam(7, Number(d)), KeyParam(8, Number(e))]
    case Language(l) => [KeyParam(0, Letters(l))]
    case LanguageScript(l, s) => [KeyParam(0, Letters(l)), KeyParam(5, Letters(s))]
    case LanguageRegion(l, r) => [KeyParam(0, Letters(l)), KeyParam(1, Letters(r))]
    case LanguageScriptRegion(l, s, r) =>
      [KeyParam(0, Letters(l)), KeyParam(5, Letters(s)), KeyParam(1, Letters(r))]
    case Word(w) => [WordParam(w).value]
  }

  function WordStage(p: KeyParam): nat {
    if p.keyType == ORIENTATION then 2
    else if p.keyType == DEVICETYPE then 3
    else if p.keyType == NIGHTMODE then 4
    else if p.keyType == INPUTDEVICE then 5
    else 6
  }

  // The kinds in the order they must come; an empty part goes with codes and with locales.
  function FirstPlace(p: Part): nat
    requires Sound(p)
  {
    match p
    case Nothing => 0
    case Mcc(_) => 0
    case MccMnc(_, _) => 0
    case Word(w) => WordStage(WordParam(w).value)
    case _ => 1
  }

  function LastPlace(p: Part): (n: nat)
    requires Sound(p)
    ensures FirstPlace(p) <= n < STAGES
  {
    if p.Nothing? then 1 else FirstPlace(p)
  }

  // ------------------------------------------------------------ pieces and leaves

  lemma LeafIsPiece(s: string)
    ensures LeafMatches(LLanguage, s) <==> IsLanguage(s)
    ensures LeafMatches(LScript, s) <==> IsScript(s)
    ensures LeafMatches(LRegion, s) <==> IsRegion(s)
  {
    if |s| == 4 {
      assert s[..1][0] == s[0] && forall i :: 0 <= i < 3 ==> s[1..][i] == s[i + 1];
      assert (forall i :: 1 <= i < 4 ==> 'a' <= s[i] <= 'z') ==> Lower(s[1..]);
      if Lower(s[1..]) {
        forall i | 1 <= i < 4 ensures 'a' <= s[i] <= 'z' { assert s[1..][i - 1] == s[i]; }
      }
    }
  }

  lemma LettersPacked(s: string)
    requires 2 <= |s| <= 4 && Ascii(s)
    ensures Packed(s) == Letters(s)
  {
    hide Packed, Pow256;
    assert s[..|s| - 1][..|s| - 2] == s[..|s| - 2];
    PackedStep(s);
    PackedStep(s[..|s| - 1]);
    PackedIs(s[..1]);
    if |s| > 2 { PackedStep(s[..2]); assert s[..2][..1] == s[..1]; }
    PackedStep(s[..1]);
  }

  lemma LocaleLeaf(s: string)
    ensures IsLanguage(s) || IsScript(s) || IsRegion(s) ==> Ascii(s) && 2 <= |s| <= 4 && '_' !in s && '-' !in s
    ensures IsLanguage(s) ==> LeafMatches(LLanguage, s) && LeafParam(LLanguage, s) == KeyParam(LANGUAGE, Letters(s))
    ensures IsScript(s) ==> LeafMatches(LScript, s) && LeafParam(LScript, s) == KeyParam(SCRIPT, Letters(s))
    ensures IsRegion(s) ==> LeafMatches(LRegion, s) && LeafParam(LRegion, s) == KeyParam(REGION, Letters(s))
    ensures !(IsScript(s) && IsRegion(s)) && (IsLanguage(s) ==> !LeafMatches(LMcc, s))
  {
    LeafIsPiece(s);
    if IsLanguage(s) || IsScript(s) || IsRegion(s) { LettersPacked(s); }
    hide Letters, Packed;
  }

  lemma NumberIs(d: string)
    requires 2 <= |d| <= 3 && IsNumber(d)
    ensures Decimal.Atoi(d) == Number(d) && Digits(d) && '_' !in d && '-' !in d
  {
    assert d[..|d| - 1][..|d| - 2] == d[..|d| - 2];
    assert Decimal.Atoi("") == 0;
    if |d| == 3 { assert d[..2][..1][..0] == ""; } else { assert d[..1][..0] == ""; }
  }

  lemma CodeLeaf(d: string)
    requires 2 <= |d| <= 3 && IsNumber(d)
    ensures LeafMatches(LMnc, "mnc" + d) && LeafParam(LMnc, "mnc" + d) == KeyParam(MNC, Number(d))
    ensures |d| == 3 ==> LeafMatches(LMcc, "mcc" + d) && LeafParam(LMcc, "mcc" + d) == KeyParam(MCC, Number(d))
    ensures '_' !in "mnc" + d && '_' !in "mcc" + d
  {
    NumberIs(d);
    assert ("mnc" + d)[..3] == "mnc" && ("mnc" + d)[3..] == d;
    assert ("mcc" + d)[..3] == "mcc" && ("mcc" + d)[3..] == d;
    hide Number, Decimal.Atoi;
  }

  lemma CodePiece(t: string)
    ensures LeafMatches(LMcc, t) ==> t == "mcc" + t[3..] && |t[3..]| == 3 && IsNumber(t[3..])
    ensures LeafMatches(LMnc, t) ==> t == "mnc" + t[3..] && 2 <= |t[3..]| <= 3 && IsNumber(t[3..])
  {
    if |t| >= 3 { assert t == t[..3] + t[3..]; }
  }

  lemma WordClean(w: string)
    requires WordParam(w).Some?
    ensures '_' !in w && '-' !in w && w != "" && w != "base" && !IsLanguage(w)
    ensures |w| >= 6 ==> w[0] != 'm'
  {
  }

  lemma WordNoCode(w: string)
    requires WordParam(w).Some?
    ensures !LeafMatches(LMcc, w)
  {
    WordClean(w);
    hide WordParam;
    if |w| == 6 { assert w[..3][0] == w[0]; }
  }

  // The tables, one by one, are the words of one place.
  lemma WordTables(w: string)
    ensures var p := WordParam(w);
      && OrientationOf(w) == (if p.Some? && p.value.keyType == ORIENTATION then Some(p.value.value) else None)
      && DeviceOf(w) == (if p.Some? && p.value.keyType == DEVICETYPE then Some(p.value.value) else None)
      && NightModeOf(w) == (if p.Some? && p.value.keyType == NIGHTMODE then Some(p.value.value) else None)
      && InputDeviceOf(w) == (if p.Some? && p.value.keyType == INPUTDEVICE then Some(p.value.value) else None)
      && ResolutionOf(w) == (if p.Some? && p.value.keyType == RESOLUTION then Some(p.value.value) else None)
      && (p.Some? ==> p.value.keyType in {ORIENTATION, DEVICETYPE, NIGHTMODE, INPUTDEVICE, RESOLUTION})
  {
  }

  lemma WordIs(w: string, stage: nat, ps: seq<KeyParam>)
    requires 2 <= stage < STAGES
    ensures StageOf(stage, w, ps) ==
      if WordParam(w).Some? && WordStage(WordParam(w).value) == stage then Matched(ps + [WordParam(w).value])
      else Unmatched(ps)
  {
    WordTables(w);
    hide WordParam, OrientationOf, DeviceOf, NightModeOf, InputDeviceOf, ResolutionOf;
  }

  // ------------------------------------------------------------ parts and their pieces

  function PartPieces(p: Part): seq<string> {
    match p
    case Nothing => []
    case Mcc(d) => ["mcc" + d]
    case MccMnc(d, e) => ["mcc" + d, "mnc" + e]
    case Language(l) => [l]
    case LanguageScript(l, s) => [l, s]
    case LanguageRegion(l, r) => [l, r]
    case LanguageScriptRegion(l, s, r) => [l, s, r]
    case Word(w) => [w]
  }

  lemma PiecesJoined(p: Part)
    ensures Join(PartPieces(p), '_') == PartText(p)
  {
    match p
    case MccMnc(d, e) =>
      JoinOfTwo(PartPieces(p));
      assert "mcc" + d + ['_'] + ("mnc" + e) == "mcc" + d + "_mnc" + e;
    case LanguageScriptRegion(l, s, r) =>
      JoinUnfold([l, s, r], '_');
      assert [l, s, r][1..] == [s, r];
      JoinOfTwo([s, r]);
      assert l + ['_'] + (s + ['_'] + r) == l + "_" + s + "_" + r;
    case _ =>
      JoinOfTwo(PartPieces(p));
  }

  lemma PiecesClean(p: Part)
    requires Sound(p)
    ensures forall i :: 0 <= i < |PartPieces(p)| ==> '_' !in PartPieces(p)[i] && PartPieces(p)[i] != ""
  {
    hide Letters, Number;
    match p
    case Nothing =>
    case Mcc(d) => CodeLeaf(d);
    case MccMnc(d, e) => CodeLeaf(d); CodeLeaf(e);
    case Language(l) => LocaleLeaf(l);
    case LanguageScript(l, s) => LocaleLeaf(l); LocaleLeaf(s);
    case LanguageRegion(l, r) => LocaleLeaf(l); LocaleLeaf(r);
    case LanguageScriptRegion(l, s, r) => LocaleLeaf(l); LocaleLeaf(s); LocaleLeaf(r);
    case Word(w) => WordClean(w);
  }

  lemma NamedParts(t: string, p: Part)
    requires Sound(p) && Names(t, p)
    ensures Parts(t, '_') == PartPieces(p)
  {
    hide Sound, PartText, PartPieces, Parts, Join;
    PiecesClean(p);
    PiecesJoined(p);
    if t == PartText(p) {
      SplitJoin(PartPieces(p), '_');
    } else {
      PiecesSome(p);
      SplitTrailing(PartPieces(p), '_');
    }
  }

  lemma PiecesSome(p: Part)
    ensures PartPieces(p) == [] <==> p.Nothing?
  {
  }

  // A text that splits into a part's pieces names it.
  lemma PartsNamed(t: string, p: Part)
    requires Sound(p) && !p.Word? && Parts(t, '_') == PartPieces(p)
    ensures Names(t, p)
  {
    hide Sound, PartText, PartPieces, Parts, Join;
    PartsSpell(t, '_');
    PiecesJoined(p);
    PiecesSome(p);
    NothingText();
  }

  lemma NothingText()
    ensures PartText(Nothing) == ""
  {
  }

  // ------------------------------------------------------------ what the stages make of a part

  lemma CodesTaken(t: string, p: Part, ps: seq<KeyParam>)
    requires Sound(p) && Names(t, p)
    ensures MccMncOf(t, ps) == if FirstPlace(p) == 0 then Matched(ps + Meaning(p)) else Unmatched(ps)
  {
    NamedParts(t, p);
    hide Parts, Names, LeafMatches, LeafParam, Letters, Number;
    assert ps + [] == ps;
    match p
    case Nothing => NoPieces([LMcc, LMnc], ps);
    case Mcc(d) => CodeLeaf(d); OneLeaf(LMcc, "mcc" + d, [LMcc, LMnc], ps);
    case MccMnc(d, e) => CodeLeaf(d); CodeLeaf(e); TwoLeaves("mcc" + d, "mnc" + e, [LMcc, LMnc], ps);
    case Language(l) => LocaleLeaf(l); OneLeaf(LMcc, l, [LMcc, LMnc], ps);
    case LanguageScript(l, s) => LocaleLeaf(l); TwoLeaves(l, s, [LMcc, LMnc], ps);
    case LanguageRegion(l, r) => LocaleLeaf(l); TwoLeaves(l, r, [LMcc, LMnc], ps);
    case LanguageScriptRegion(_, _, _) =>
    case Word(w) => WordNoCode(w); OneLeaf(LMcc, w, [LMcc, LMnc], ps);
  }

  lemma NoPieces(leaves: seq<Leaf>, ps: seq<KeyParam>)
    ensures BySeq([], leaves, ps) == Matched(ps) && LsrFrom([], ps, 0) == Matched(ps)
  {
    assert ps + [] == ps;
  }

  lemma ThreeLeaves(l: string, s: string, r: string, ps: seq<KeyParam>)
    requires LeafMatches(LLanguage, l) && LeafMatches(LScript, s) && LeafMatches(LRegion, r)
    ensures LsrFrom([l, s, r], ps, 0)
            == Matched(ps + [LeafParam(LLanguage, l), LeafParam(LScript, s), LeafParam(LRegion, r)])
  {
    LsrStep([l, s, r], ps, 0);
    hide LeafMatches, LeafParam, LsrFrom;
    var leaves, p := LsrModel(0), [LeafParam(LLanguage, l)];
    assert [l, s, r][1..] == [s, r] && leaves[1..] == [LScript, LRegion] && [] + p == p;
    TwoLeaves(s, r, leaves[1..], p);
    assert p + [LeafParam(LScript, s), LeafParam(LRegion, r)]
           == [LeafParam(LLanguage, l), LeafParam(LScript, s), LeafParam(LRegion, r)];
  }

  lemma ScriptLeaves(l: string, s: string, ps: seq<KeyParam>)
    requires LeafMatches(LLanguage, l) && LeafMatches(LScript, s)
    ensures LsrFrom([l, s], ps, 0) == Matched(ps + [LeafParam(LLanguage, l), LeafParam(LScript, s)])
  {
    LsrStep([l, s], ps, 0);
    hide LeafMatches, LeafParam, LsrFrom, BySeq;
    TwoLeaves(l, s, LsrModel(0), []);
  }

  lemma LocaleTaken(t: string, p: Part, ps: seq<KeyParam>)
    requires Sound(p) && Names(t, p) && FirstPlace(p) >= 1
    ensures LsrOf(t, ps) == if FirstPlace(p) == 1 then Matched(ps + Meaning(p)) else Unmatched(ps)
  {
    NamedParts(t, p);
    hide Parts, Names, LeafMatches, LeafParam, Letters, Number, LsrFrom;
    match p
    case Language(l) => LocaleLeaf(l); LsrOfOne(l, ps);
    case LanguageScript(l, s) => LocaleLeaf(l); LocaleLeaf(s); ScriptLeaves(l, s, ps);
    case LanguageRegion(l, r) => LocaleLeaf(l); LocaleLeaf(r); LsrOfTwo(l, r, ps);
    case LanguageScriptRegion(l, s, r) => LocaleLeaf(l); LocaleLeaf(s); LocaleLeaf(r); ThreeLeaves(l, s, r, ps);
    case Word(w) => WordClean(w); LeafIsPiece(w); LsrOfOne(w, ps);
  }

  // The empty text, for which both stages have nothing to do.
  lemma NothingTaken(ps: seq<KeyParam>)
    ensures MccMncOf("", ps) == Matched(ps) == LsrOf("", ps)
  {
    NoPieces([LMcc, LMnc], ps);
  }

  // A part's own stage takes it for exactly its meaning, and those before refuse it and push nothing.
  lemma StageTakes(t: string, p: Part, stage: nat, ps: seq<KeyParam>)
    requires Sound(p) && Names(t, p) && stage <= LastPlace(p)
    ensures StageOf(stage, t, ps) == if stage >= FirstPlace(p) then Matched(ps + Meaning(p)) else Unmatched(ps)
  {
    hide Meaning, WordParam, Parts, LsrFrom, BySeq;
    if p.Nothing? {
      NothingTaken(ps);
      NothingMeans();
      assert ps + [] == ps;
    } else if stage == 0 {
      CodesTaken(t, p, ps);
    } else if stage == 1 {
      LocaleTaken(t, p, ps);
    } else {
      WordIs(t, stage, ps);
      WordMeans(t);
    }
  }

  lemma NothingMeans()
    ensures Meaning(Nothing) == []
  {
  }

  lemma WordMeans(w: string)
    requires WordParam(w).Some?
    ensures Meaning(Word(w)) == [WordParam(w).value]
  {
  }

  lemma {:induction false} FirstTakes(t: string, p: Part, next: nat, ps: seq<KeyParam>)
    requires Sound(p) && Names(t, p) && next <= LastPlace(p)
    ensures FirstStage(t, next, ps) == (Matched(ps + Meaning(p)), if next < FirstPlace(p) then FirstPlace(p) else next)
    decreases STAGES - next
  {
    hide *;
    StageCount();
    PlaceBound(p);
    StageTakes(t, p, next, ps);
    FirstStageStep(t, next, ps);
    if next < FirstPlace(p) { FirstTakes(t, p, next + 1, ps); }
  }

  lemma PlaceBound(p: Part)
    requires Sound(p)
    ensures FirstPlace(p) <= LastPlace(p) < STAGES
  {
  }

  // What a stage takes is a part of its kind.
  lemma CodesRead(t: string) returns (p: Part)
    requires MccMncPart(t)
    ensures Sound(p) && Names(t, p) && FirstPlace(p) == 0
  {
    var q := Parts(t, '_');
    hide Parts, LeafMatches, Names;
    if |q| == 0 {
      p := Nothing;
    } else {
      CodePiece(q[0]);
      p := Mcc(q[0][3..]);
      if |q| == 2 {
        CodePiece(q[1]);
        p := MccMnc(q[0][3..], q[1][3..]);
      }
    }
    PartsNamed(t, p);
  }

  lemma LocaleRead(t: string) returns (p: Part)
    requires LocalePart(t)
    ensures Sound(p) && Names(t, p) && FirstPlace(p) <= 1 <= LastPlace(p)
  {
    var q := Parts(t, '_');
    hide Parts, LeafMatches, Names;
    forall i | 0 <= i < |q|
      ensures LeafMatches(LLanguage, q[i]) <==> IsLanguage(q[i])
      ensures LeafMatches(LScript, q[i]) <==> IsScript(q[i])
      ensures LeafMatches(LRegion, q[i]) <==> IsRegion(q[i])
    {
      LeafIsPiece(q[i]);
    }
    p := if |q| == 0 then Nothing
         else if |q| == 1 then Language(q[0])
         else if |q| == 3 then LanguageScriptRegion(q[0], q[1], q[2])
         else if IsScript(q[1]) then LanguageScript(q[0], q[1])
         else LanguageRegion(q[0], q[1]);
    PartsNamed(t, p);
  }

  lemma StageReads(t: string, stage: nat, ps: seq<KeyParam>) returns (p: Part)
    requires stage < STAGES && StageOf(stage, t, ps).Matched?
    ensures Sound(p) && Names(t, p) && FirstPlace(p) <= stage <= LastPlace(p)
  {
    StageKinds(stage, t, ps);
    if stage == 0 {
      p := CodesRead(t);
    } else if stage == 1 {
      p := LocaleRead(t);
    } else {
      hide StageOf, WordParam;
      WordIs(t, stage, ps);
      p := Word(t);
    }
  }

  lemma {:induction false} FirstReads(t: string, next: nat, ps: seq<KeyParam>) returns (p: Part)
    requires next <= STAGES && FirstStage(t, next, ps).0.Matched?
    ensures Sound(p) && Names(t, p) && next <= LastPlace(p)
    decreases STAGES - next
  {
    var r := StageOf(next, t, ps);
    hide StageOf, Sound, Names, FirstPlace, LastPlace;
    if r.Matched? {
      p := StageReads(t, next, ps);
    } else {
      p := FirstReads(t, next + 1, r.ps);
    }
  }

  // ------------------------------------------------------------ whole names

  // Each text names its part, and the parts come in the order of their kinds.
  ghost predicate Reads(keys: seq<string>, parts: seq<Part>) {
    && |keys| == |parts|
    && (forall i :: 0 <= i < |parts| ==> Sound(parts[i]) && Names(keys[i], parts[i]))
    && (forall i, j :: 0 <= i < j < |parts| ==> FirstPlace(parts[i]) <= LastPlace(parts[j]))
  }

  // None of the parts must have come before.
  ghost predicate NotBefore(parts: seq<Part>, next: nat) {
    forall i :: 0 <= i < |parts| ==> Sound(parts[i]) && next <= LastPlace(parts[i])
  }

  ghost function Meanings(parts: seq<Part>): seq<KeyParam>
    requires forall i :: 0 <= i < |parts| ==> Sound(parts[i])
  {
    if parts == [] then [] else Meaning(parts[0]) + Meanings(parts[1..])
  }

  lemma ReadsStep(keys: seq<string>, parts: seq<Part>, next: nat)
    requires keys != [] && Reads(keys, parts) && NotBefore(parts, next)
    ensures |keys| == |parts| && forall i :: 0 <= i < |parts[1..]| ==> Sound(parts[1..][i])
    ensures Sound(parts[0]) && Names(keys[0], parts[0]) && next <= LastPlace(parts[0])
    ensures Reads(keys[1..], parts[1..])
    ensures NotBefore(parts[1..], if next < FirstPlace(parts[0]) then FirstPlace(parts[0]) else next)
    ensures Meanings(parts) == Meaning(parts[0]) + Meanings(parts[1..])
  {
    hide Sound, Names, Meaning, LastPlace, FirstPlace;
  }

  lemma NothingRead(parts: seq<Part>, next: nat, ps: seq<KeyParam>)
    requires next < STAGES
    ensures Reads([], []) && NotBefore([], next) && Meanings([]) == [] && (Reads([], parts) ==> parts == [])
    ensures MatchFrom([], next, ps) == Matched(ps)
  {
  }

  lemma {:induction false} MatchMeans(keys: seq<string>, parts: seq<Part>, next: nat, ps: seq<KeyParam>)
    requires next < STAGES && Reads(keys, parts) && NotBefore(parts, next)
    ensures MatchFrom(keys, next, ps) == Matched(ps + Meanings(parts))
  {
    hide *;
    if keys == [] {
      NothingRead(parts, next, ps);
      assert ps + [] == ps;
    } else {
      var p := parts[0] by { ReadsStep(keys, parts, next); }
      ReadsStep(keys, parts, next);
      PlaceBound(p);
      MatchStep(keys, next, ps);
      FirstTakes(keys[0], p, next, ps);
      var i := if next < FirstPlace(p) then FirstPlace(p) else next;
      MatchMeans(keys[1..], parts[1..], i, ps + Meaning(p));
      Associate(ps, Meaning(p), Meanings(parts[1..]));
    }
  }

  lemma ReadsMore(key: string, p: Part, keys: seq<string>, parts: seq<Part>, next: nat)
    requires Sound(p) && Names(key, p) && next <= LastPlace(p) && Reads(keys, parts)
    requires NotBefore(parts, if next < FirstPlace(p) then FirstPlace(p) else next)
    ensures Reads([key] + keys, [p] + parts) && NotBefore([p] + parts, next)
  {
    hide Sound, Names, LastPlace, FirstPlace;
  }

  lemma {:induction false} MatchReads(keys: seq<string>, next: nat, ps: seq<KeyParam>) returns (parts: seq<Part>)
    requires next < STAGES && MatchFrom(keys, next, ps).Matched?
    ensures Reads(keys, parts) && NotBefore(parts, next)
  {
    hide *;
    if keys == [] {
      parts := [];
      NothingRead(parts, next, ps);
    } else {
      MatchStep(keys, next, ps);
      StageCount();
      var p := FirstReads(keys[0], next, ps);
      FirstTakes(keys[0], p, next, ps);
      var rest := MatchReads(keys[1..], if next < FirstPlace(p) then FirstPlace(p) else next, ps + Meaning(p));
      ReadsMore(keys[0], p, keys[1..], rest, next);
      assert [keys[0]] + keys[1..] == keys;
      parts := [p] + rest;
    }
  }

  lemma AnyNext(parts: seq<Part>)
    requires forall i :: 0 <= i < |parts| ==> Sound(parts[i])
    ensures NotBefore(parts, 0)
  {
  }

  lemma ReadsIs(keys: seq<string>, parts: seq<Part>)
    requires Reads(keys, parts)
    ensures forall i :: 0 <= i < |parts| ==> Sound(parts[i])
  {
  }

  /**
   A folder's name parses exactly if what stands between its dashes are parts of the kinds above, in their order, and it
   then gives the parts' meanings, one after the other.
   */
  lemma FolderMeans(folder: string, ps: seq<KeyParam>, parts: seq<Part>)
    requires folder != "base" && Reads(Parts(folder, '-'), parts)
    ensures FreshParse(folder, ps) == Matched(ps + Meanings(parts))
  {
    hide *;
    StageCount();
    FreshIs(folder, ps);
    ReadsIs(Parts(folder, '-'), parts);
    AnyNext(parts);
    MatchMeans(Parts(folder, '-'), parts, 0, ps);
  }

  lemma FolderReads(folder: string, ps: seq<KeyParam>)
    ensures FreshParse(folder, ps).Matched? <==>
            folder == "base" || exists parts :: Reads(Parts(folder, '-'), parts)
  {
    hide *;
    StageCount();
    FreshIs(folder, ps);
    if folder != "base" {
      if FreshParse(folder, ps).Matched? {
        var parts := MatchReads(Parts(folder, '-'), 0, ps);
      }
      if parts :| Reads(Parts(folder, '-'), parts) { FolderMeans(folder, ps, parts); }
    }
  }

  // A name of one part.
  lemma OnePart(p: Part, ps: seq<KeyParam>)
    requires Sound(p) && PartText(p) != "" && PartText(p) != "base" && '-' !in PartText(p)
    ensures FreshParse(PartText(p), ps) == Matched(ps + Meaning(p))
  {
    hide Parts, PartText, Meaning, Sound, FreshParse;
    var t := PartText(p);
    SplitJoin([t], '-');
    assert Join([t], '-') == t;
    assert [p][1..] == [];
    assert Meanings([p]) == Meaning(p) + Meanings([]) == Meaning(p);
    FolderMeans(t, ps, [p]);
  }

  /** A locale gives one param for each piece: language, script, region, with the piece's letters as the value. */
  lemma LocaleFolder(l: string, s: string, r: string, ps: seq<KeyParam>)
    requires IsLanguage(l) && IsScript(s) && IsRegion(r)
    ensures Ascii(l) && Ascii(s) && Ascii(r)
    ensures FreshParse(l, ps) == Matched(ps + [KeyParam(0, Letters(l))])
    ensures FreshParse(l + "_" + s, ps) == Matched(ps + [KeyParam(0, Letters(l)), KeyParam(5, Letters(s))])
    ensures FreshParse(l + "_" + r, ps) == Matched(ps + [KeyParam(0, Letters(l)), KeyParam(1, Letters(r))])
    ensures FreshParse(l + "_" + s + "_" + r, ps)
            == Matched(ps + [KeyParam(0, Letters(l)), KeyParam(5, Letters(s)), KeyParam(1, Letters(r))])
  {
    LocaleLeaf(l);
    LocaleLeaf(s);
    LocaleLeaf(r);
    hide FreshParse, Letters, IsLanguage, IsScript, IsRegion;
    LocaleClean(Language(l));
    LocaleClean(LanguageScript(l, s));
    LocaleClean(LanguageRegion(l, r));
    LocaleClean(LanguageScriptRegion(l, s, r));
    OnePart(Language(l), ps);
    OnePart(LanguageScript(l, s), ps);
    OnePart(LanguageRegion(l, r), ps);
    OnePart(LanguageScriptRegion(l, s, r), ps);
  }

  lemma LocaleClean(p: Part)
    requires Sound(p) && FirstPlace(p) == 1
    ensures PartText(p) != "" && PartText(p) != "base" && '-' !in PartText(p)
  {
    PiecesClean(p);
    hide WordParam;
    assert '_' !in "base";
    match p
    case Language(l) => LocaleLeaf(l);
    case LanguageScript(l, s) => LocaleLeaf(l); LocaleLeaf(s); assert PartText(p)[|l|] == '_';
    case LanguageRegion(l, r) => LocaleLeaf(l); LocaleLeaf(r); assert PartText(p)[|l|] == '_';
    case LanguageScriptRegion(l, s, r) => LocaleLeaf(l); LocaleLeaf(s); LocaleLeaf(r); assert PartText(p)[|l|] == '_';
    case Word(_) =>
  }

  /** A word gives its one param; so does the only one of its table, for pointing devices. */
  lemma WordFolder(w: string, ps: seq<KeyParam>)
    requires WordParam(w).Some?
    ensures FreshParse(w, ps) == Matched(ps + [WordParam(w).value])
  {
    WordClean(w);
    hide FreshParse, WordParam;
    OnePart(Word(w), ps);
  }

  lemma PointingDevice(ps: seq<KeyParam>)
    ensures FreshParse("pointingdevice", ps) == Matched(ps + [KeyParam(10, 0)])
  {
    hide FreshParse;
    WordFolder("pointingdevice", ps);
  }
}
