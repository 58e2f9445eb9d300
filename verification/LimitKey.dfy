/** Printing key params as a limit key, and the round trip through the parser. */
module LimitKeys {
  import opened Bytes
  import opened ResourceData
  import opened KeyParsers
  import Decimal

  // The bytes of value up to its first zero byte, last character first: at most n of them.
  function LocaleText(value: nat, n: nat): string {
    if n == 0 || value % 0x100 == 0 then "" else LocaleText(value / 0x100, n - 1) + [(value % 0x100) as char]
  }

  function DeviceName(v: uint32): string {
    if v == 0 then "phone" else if v == 1 then "tablet" else if v == 2 then "car"
    else if v == 4 then "tv" else if v == 6 then "wearable" else ""
  }

  function ResolutionName(v: uint32): string {
    if v == 120 then "sdpi" else if v == 160 then "mdpi" else if v == 240 then "ldpi"
    else if v == 320 then "xldpi" else if v == 480 then "xxldpi" else if v == 640 then "xxxldpi" else ""
  }

  function GetKeyParamValue(p: KeyParam): string {
    if p.keyType == ORIENTATION then (if p.value == 0 then "vertical" else "horizontal")
    else if p.keyType == NIGHTMODE then (if p.value == 0 then "dark" else "light")
    else if p.keyType == DEVICETYPE then DeviceName(p.value)
    else if p.keyType == RESOLUTION then ResolutionName(p.value)
    else if p.keyType == LANGUAGE || p.keyType == REGION then LocaleText(p.value, 4)
    else Decimal.ToString(p.value)
  }

  function Tagged(keyType: int32, text: string): string {
    if keyType == MCC then "mcc" + text else if keyType == MNC then "mnc" + text else text
  }

  function Separator(keyType: int32): char { if keyType == REGION || keyType == MNC then '_' else '-' }

  // What one param adds to the key, separator first; params that print empty add nothing.
  function Piece(p: KeyParam): string {
    var text := GetKeyParamValue(p);
    if text == "" then "" else [Separator(p.keyType)] + Tagged(p.keyType, text)
  }

  function Pieces(ps: seq<KeyParam>): string {
    if ps == [] then "" else Pieces(ps[..|ps| - 1]) + Piece(ps[|ps| - 1])
  }

  function Printed(ps: seq<KeyParam>): string {
    if ps == [] then "base" else if Pieces(ps) == "" then "" else Pieces(ps)[1..]
  }

  method PaserKeyParam(ps: seq<KeyParam>) returns (result: string)
    ensures result == Printed(ps)
  {
    if |ps| == 0 {
      return "base";
    }
    result := "";
    for i := 0 to |ps|
      invariant result == Pieces(ps[..i])
    {
      assert ps[..i + 1] == ps[..i] + [ps[i]];
      PiecesOne(ps[..i], ps[i]);
      hide Pieces, GetKeyParamValue;
      var limitKey := GetKeyParamValue(ps[i]);
      if limitKey == "" {
        assert Pieces(ps[..i]) + "" == Pieces(ps[..i]);
        continue;
      }
      if ps[i].keyType == MCC {
        limitKey := "mcc" + limitKey;
      }
      if ps[i].keyType == MNC {
        limitKey := "mnc" + limitKey;
      }
      assert limitKey == Tagged(ps[i].keyType, GetKeyParamValue(ps[i]));
      if ps[i].keyType == REGION || ps[i].keyType == MNC {
        result := result + (['_'] + limitKey);
      } else {
        result := result + (['-'] + limitKey);
      }
    }
    assert ps[..|ps|] == ps;
    if result != "" {
      result := result[1..];
    }
  }

  // ------------------------------------------------------------ canonical lists

  // One part of a limit key.  A region hangs on a language, a network code on a country code.
  datatype Group =
    | GMcc(mcc: nat)
    | GMccMnc(mcc: nat, mnc: nat)
    | GLanguage(language: string)
    | GLocale(language: string, region: string)
    | GOrientation(v: uint32)
    | GDevice(v: uint32)
    | GNightMode(v: uint32)
    | GResolution(v: uint32)

  predicate GroupOk(g: Group) {
    match g
    case GMcc(mcc) => 100 <= mcc <= 999
    case GMccMnc(mcc, mnc) => 100 <= mcc <= 999 && 10 <= mnc <= 999
    case GLanguage(l) => LeafMatches(LLanguage, l)
    case GLocale(l, r) => LeafMatches(LLanguage, l) && LeafMatches(LRegion, r)
    case GOrientation(v) => v <= 1
    case GDevice(v) => DeviceName(v) != ""
    case GNightMode(v) => v <= 1
    case GResolution(v) => ResolutionName(v) != ""
  }

  function GroupParams(g: Group): seq<KeyParam>
    requires GroupOk(g)
  {
    match g
    case GMcc(mcc) => [KeyParam(MCC, mcc)]
    case GMccMnc(mcc, mnc) => [KeyParam(MCC, mcc), KeyParam(MNC, mnc)]
    case GLanguage(l) => [KeyParam(LANGUAGE, Packed(l))]
    case GLocale(l, r) => [KeyParam(LANGUAGE, Packed(l)), KeyParam(REGION, Packed(r))]
    case GOrientation(v) => [KeyParam(ORIENTATION, v)]
    case GDevice(v) => [KeyParam(DEVICETYPE, v)]
    case GNightMode(v) => [KeyParam(NIGHTMODE, v)]
    case GResolution(v) => [KeyParam(RESOLUTION, v)]
  }

  function GroupText(g: Group): string {
    match g
    case GMcc(mcc) => "mcc" + Decimal.ToString(mcc)
    case GMccMnc(mcc, mnc) => "mcc" + Decimal.ToString(mcc) + ['_'] + ("mnc" + Decimal.ToString(mnc))
    case GLanguage(l) => l
    case GLocale(l, r) => l + ['_'] + r
    case GOrientation(v) => if v == 0 then "vertical" else "horizontal"
    case GDevice(v) => DeviceName(v)
    case GNightMode(v) => if v == 0 then "dark" else "light"
    case GResolution(v) => ResolutionName(v)
  }

  function GroupStage(g: Group): nat {
    match g
    case GMcc(_) => 0
    case GMccMnc(_, _) => 0
    case GLanguage(_) => 1
    case GLocale(_, _) => 1
    case GOrientation(_) => 2
    case GDevice(_) => 3
    case GNightMode(_) => 4
    case GResolution(_) => 6
  }

  // Groups in the order the stages take them; several of one kind may stand side by side.
  predicate Canonical(gs: seq<Group>) {
    && (forall i :: 0 <= i < |gs| ==> GroupOk(gs[i]))
    && (forall i, j :: 0 <= i < j < |gs| ==> GroupStage(gs[i]) <= GroupStage(gs[j]))
  }

  function Params(gs: seq<Group>): seq<KeyParam>
    requires forall i :: 0 <= i < |gs| ==> GroupOk(gs[i])
  {
    if gs == [] then [] else GroupParams(gs[0]) + Params(gs[1..])
  }

  function Texts(gs: seq<Group>): (ts: seq<string>)
    ensures |ts| == |gs| && forall i :: 0 <= i < |gs| ==> ts[i] == GroupText(gs[i])
  {
    seq(|gs|, i requires 0 <= i < |gs| => GroupText(gs[i]))
  }

  // ------------------------------------------------------------ one group

  predicate Ascii(s: string) { forall i :: 0 <= i < |s| ==> 0 < s[i] as int < 0x80 }

  function Pow256(k: nat): nat { if k == 0 then 1 else 0x100 * Pow256(k - 1) }

  // Up to four characters the packing loses nothing.
  lemma {:induction false} PackedStep(s: string)
    requires Ascii(s) && 0 < |s| <= 4
    ensures Packed(s) == Packed(s[..|s| - 1]) * 0x100 + s[|s| - 1] as int
    ensures Packed(s[..|s| - 1]) < Pow256(|s| - 1)
    ensures Packed(s) < Pow256(|s|)
  {
    hide *;
    var init, c := s[..|s| - 1], s[|s| - 1] as int;
    PackedIs(s);
    Pow256Of(|s|);
    if |s| > 1 { PackedStep(init); }
    NotCut(Packed(init), c);
  }

  lemma Pow256Of(k: nat)
    requires 0 < k <= 4
    ensures Pow256(k) == 0x100 * Pow256(k - 1) && Pow256(k - 1) <= 0x100_0000 && Pow256(0) == 1
  {
    assert Pow256(1) == 0x100 && Pow256(2) == 0x1_0000 && Pow256(3) == 0x100_0000;
  }

  lemma PackedIs(s: string)
    requires Ascii(s) && s != ""
    ensures var init, c := s[..|s| - 1], s[|s| - 1] as int;
      && 0 < c < 0x80 && Ascii(init) && (|s| == 1 ==> Packed(init) == 0)
      && Packed(s) == (Packed(init) as int * 0x100 + c % 0x100) % 0x1_0000_0000
  {
    if |s| == 1 { assert s[..0] == "" && Packed("") == 0; }
  }

  lemma NotCut(p: nat, c: nat)
    requires p < 0x100_0000 && c < 0x80
    ensures (p * 0x100 + c % 0x100) % 0x1_0000_0000 == p * 0x100 + c
  {
  }

  lemma {:induction false} LocaleRoundTrip(s: string, n: nat)
    requires Ascii(s) && |s| <= n <= 4
    ensures LocaleText(Packed(s), n) == s
  {
    if s != "" {
      var init, c := s[..|s| - 1], s[|s| - 1] as int;
      PackedStep(s);
      hide Packed;
      LocaleRoundTrip(init, n - 1);
      LocaleStep(Packed(init), c, n);
      hide LocaleText;
      assert s == init + [c as char];
    } else {
      assert Packed("") == 0;
    }
  }

  lemma LocaleStep(p: nat, c: nat, n: nat)
    requires 0 < c < 0x80 && n > 0
    ensures LocaleText(p * 0x100 + c, n) == LocaleText(p, n - 1) + [c as char]
  {
    Digits256(p, c);
  }

  lemma Digits256(p: nat, c: nat)
    requires c < 0x100
    ensures (p * 0x100 + c) % 0x100 == c && (p * 0x100 + c) / 0x100 == p
  {
  }

  lemma LocaleLeafPrints(leaf: Leaf, s: string)
    requires leaf.LLanguage? || leaf.LRegion?
    requires LeafMatches(leaf, s)
    ensures LocaleText(Packed(s), 4) == s && s != "" && '-' !in s && '_' !in s
  {
    LocaleRoundTrip(s, 4);
  }

  lemma {:induction false} NumberLeaf(tag: string, n: nat)
    requires (tag == "mcc" && 100 <= n <= 999) || (tag == "mnc" && 10 <= n <= 999)
    ensures var s := tag + Decimal.ToString(n); var leaf := if tag == "mcc" then LMcc else LMnc;
      && LeafMatches(leaf, s) && LeafParam(leaf, s) == KeyParam(if tag == "mcc" then MCC else MNC, n)
      && s != "" && '-' !in s && '_' !in s
  {
    Decimal.DigitCounts(n);
    Decimal.AtoiToString(n);
    var s := tag + Decimal.ToString(n);
    assert s[..3] == tag && s[3..] == Decimal.ToString(n);
  }

  lemma PiecesOne(ps: seq<KeyParam>, p: KeyParam)
    ensures Pieces(ps + [p]) == Pieces(ps) + Piece(p)
  {
    assert (ps + [p])[..|ps|] == ps;
  }

  predicate TableName(s: string) {
    OrientationOf(s).Some? || DeviceOf(s).Some? || NightModeOf(s).Some? || ResolutionOf(s).Some?
  }

  // The fixed names are no locale and no country code.
  lemma NameFacts(s: string)
    requires TableName(s)
    ensures s != "" && '-' !in s && '_' !in s && s != "base"
    ensures !LeafMatches(LMcc, s) && !LeafMatches(LLanguage, s)
  {
    assert |s| == 6 ==> s[0] != 'm' && s[..3][0] == s[0];
  }

  // No name is in two tables.
  lemma NamesApart(s: string)
    ensures OrientationOf(s).Some? ==> DeviceOf(s).None? && NightModeOf(s).None? && ResolutionOf(s).None?
    ensures DeviceOf(s).Some? ==> NightModeOf(s).None? && ResolutionOf(s).None?
    ensures NightModeOf(s).Some? ==> ResolutionOf(s).None?
    ensures TableName(s) ==> InputDeviceOf(s).None?
  {
  }

  lemma TableGroup(g: Group)
    requires GroupOk(g) && GroupStage(g) >= 2
    ensures var s := GroupText(g);
      && TableName(s)
      && (g.GOrientation? ==> OrientationOf(s) == Some(g.v))
      && (g.GDevice? ==> DeviceOf(s) == Some(g.v))
      && (g.GNightMode? ==> NightModeOf(s) == Some(g.v))
      && (g.GResolution? ==> ResolutionOf(s) == Some(g.v))
  {
  }

  lemma GroupPrints(ps: seq<KeyParam>, g: Group)
    requires GroupOk(g)
    ensures Pieces(ps + GroupParams(g)) == Pieces(ps) + (['-'] + GroupText(g))
    ensures GroupText(g) != "" && '-' !in GroupText(g) && GroupText(g) != "base"
  {
    GroupPieces(g);
    hide LeafMatches, LocaleText, Packed, Decimal.ToString, GroupText, Piece, Pieces;
    match g
    case GMccMnc(mcc, mnc) => PiecesTwo(ps, KeyParam(MCC, mcc), KeyParam(MNC, mnc));
    case GLocale(l, r) => PiecesTwo(ps, KeyParam(LANGUAGE, Packed(l)), KeyParam(REGION, Packed(r)));
    case _ => PiecesOne(ps, GroupParams(g)[0]);
  }

  lemma GroupPieces(g: Group)
    requires GroupOk(g)
    ensures |GroupParams(g)| == 1 ==> Piece(GroupParams(g)[0]) == ['-'] + GroupText(g)
    ensures |GroupParams(g)| == 2 ==> Piece(GroupParams(g)[0]) + Piece(GroupParams(g)[1]) == ['-'] + GroupText(g)
    ensures GroupText(g) != "" && '-' !in GroupText(g) && GroupText(g) != "base"
  {
    hide LeafMatches, TableName, Decimal.ToString, LocaleText, Packed, Piece;
    match g
    case GMcc(mcc) => NumberPiece("mcc", mcc); NotBase("mcc", Decimal.ToString(mcc));
    case GMccMnc(mcc, mnc) =>
      NumberPiece("mcc", mcc);
      NumberPiece("mnc", mnc);
      TwoPieces("mcc" + Decimal.ToString(mcc), "mnc" + Decimal.ToString(mnc));
    case GLanguage(l) => LocalePiece(LLanguage, l); ShortNotBase(l);
    case GLocale(l, r) =>
      LocalePiece(LLanguage, l);
      LocalePiece(LRegion, r);
      TwoPieces(l, r);
    case _ => TablePiece(g);
  }

  lemma TablePiece(g: Group)
    requires GroupOk(g) && GroupStage(g) >= 2
    ensures |GroupParams(g)| == 1 && Piece(GroupParams(g)[0]) == ['-'] + GroupText(g)
    ensures GroupText(g) != "" && '-' !in GroupText(g) && GroupText(g) != "base"
  {
    TableGroup(g);
    NameFacts(GroupText(g));
  }

  lemma NumberPiece(tag: string, n: nat)
    requires (tag == "mcc" && 100 <= n <= 999) || (tag == "mnc" && 10 <= n <= 999)
    ensures Piece(KeyParam(if tag == "mcc" then MCC else MNC, n)) ==
            [if tag == "mcc" then '-' else '_'] + (tag + Decimal.ToString(n))
    ensures tag + Decimal.ToString(n) != "" && '-' !in tag + Decimal.ToString(n)
  {
    NumberLeaf(tag, n);
    hide LeafMatches, Decimal.ToString;
  }

  lemma LocalePiece(leaf: Leaf, s: string)
    requires (leaf.LLanguage? || leaf.LRegion?) && LeafMatches(leaf, s)
    ensures Piece(KeyParam(if leaf.LLanguage? then LANGUAGE else REGION, Packed(s))) ==
            [if leaf.LLanguage? then '-' else '_'] + s
    ensures s != "" && '-' !in s
  {
    LocaleLeafPrints(leaf, s);
    hide LeafMatches, LocaleText, Packed;
  }

  lemma NotBase(a: string, b: string)
    requires a == "mcc"
    ensures a + b != "base"
  {
    assert (a + b)[0] == 'm';
  }

  lemma ShortNotBase(l: string)
    requires LeafMatches(LLanguage, l)
    ensures l != "base"
  {
  }

  lemma TwoPieces(a: string, b: string)
    ensures (['-'] + a) + (['_'] + b) == ['-'] + (a + ['_'] + b)
    ensures a + ['_'] + b != "base"
    ensures '-' !in a && '-' !in b ==> '-' !in a + ['_'] + b
  {
    assert (a + ['_'] + b)[|a|] == '_';
    assert '_' !in "base";
  }

  lemma PiecesTwo(ps: seq<KeyParam>, p: KeyParam, q: KeyParam)
    ensures Pieces(ps + [p, q]) == Pieces(ps) + (Piece(p) + Piece(q))
  {
    hide Pieces, Piece;
    PiecesOne(ps, p);
    PiecesOne(ps + [p], q);
    assert ps + [p, q] == ps + [p] + [q];
    assert (Pieces(ps) + Piece(p)) + Piece(q) == Pieces(ps) + (Piece(p) + Piece(q));
  }

  // The parts of a group's text at its underscore.
  function GroupParts(g: Group): seq<string> {
    match g
    case GMccMnc(mcc, mnc) => ["mcc" + Decimal.ToString(mcc), "mnc" + Decimal.ToString(mnc)]
    case GLocale(l, r) => [l, r]
    case _ => [GroupText(g)]
  }

  lemma GroupSplits(g: Group)
    requires GroupOk(g)
    ensures Parts(GroupText(g), '_') == GroupParts(g)
  {
    hide LeafMatches, LocaleText, Packed, Decimal.ToString, Parts;
    SplitJoin(GroupParts(g), '_') by {
      match g
      case GMcc(mcc) => NumberLeaf("mcc", mcc);
      case GMccMnc(mcc, mnc) => NumberLeaf("mcc", mcc); NumberLeaf("mnc", mnc);
      case GLanguage(l) => LocaleLeafPrints(LLanguage, l);
      case GLocale(l, r) => LocaleLeafPrints(LLanguage, l); LocaleLeafPrints(LRegion, r);
      case _ => TableGroup(g); NameFacts(GroupText(g));
    }
    JoinOfTwo(GroupParts(g));
  }

  lemma JoinOfTwo(parts: seq<string>)
    ensures |parts| == 1 ==> Join(parts, '_') == parts[0]
    ensures |parts| == 2 ==> Join(parts, '_') == parts[0] + ['_'] + parts[1]
  {
    if |parts| == 2 { assert parts[1..] == [parts[1]]; }
  }

  // ------------------------------------------------------------ what the stages do with a group's text

  lemma OneLeaf(leaf: Leaf, s: string, leaves: seq<Leaf>, ps: seq<KeyParam>)
    requires leaves != [] && leaves[0] == leaf
    ensures BySeq([s], leaves, ps) == if LeafMatches(leaf, s) then Matched(ps + [LeafParam(leaf, s)]) else Unmatched(ps)
  {
  }

  lemma TwoLeaves(s: string, t: string, leaves: seq<Leaf>, ps: seq<KeyParam>)
    requires |leaves| >= 2
    ensures LeafMatches(leaves[0], s) && LeafMatches(leaves[1], t) ==>
            BySeq([s, t], leaves, ps) == Matched(ps + [LeafParam(leaves[0], s), LeafParam(leaves[1], t)])
    ensures LeafMatches(leaves[0], s) && !LeafMatches(leaves[1], t) ==>
            BySeq([s, t], leaves, ps) == Unmatched(ps + [LeafParam(leaves[0], s)])
    ensures !LeafMatches(leaves[0], s) ==> BySeq([s, t], leaves, ps) == Unmatched(ps)
  {
    assert [s, t][1..] == [t];
    hide LeafMatches, LeafParam;
    if LeafMatches(leaves[0], s) {
      var p := LeafParam(leaves[0], s);
      OneLeaf(leaves[1], t, leaves[1..], ps + [p]);
      if LeafMatches(leaves[1], t) {
        assert (ps + [p]) + [LeafParam(leaves[1], t)] == ps + [p, LeafParam(leaves[1], t)];
      }
    }
  }

  lemma MccMncStage(g: Group, ps: seq<KeyParam>)
    requires GroupOk(g)
    ensures MccMncOf(GroupText(g), ps) == if GroupStage(g) == 0 then Matched(ps + GroupParams(g)) else Unmatched(ps)
  {
    GroupSplits(g);
    hide Parts, Decimal.ToString, LeafParam, BySeq, Packed;
    match g
    case GMcc(mcc) =>
      NumberLeaf("mcc", mcc);
      OneLeaf(LMcc, "mcc" + Decimal.ToString(mcc), [LMcc, LMnc], ps);
    case GMccMnc(mcc, mnc) =>
      NumberLeaf("mcc", mcc);
      NumberLeaf("mnc", mnc);
      TwoLeaves("mcc" + Decimal.ToString(mcc), "mnc" + Decimal.ToString(mnc), [LMcc, LMnc], ps);
    case GLanguage(l) => OneLeaf(LMcc, l, [LMcc, LMnc], ps);
    case GLocale(l, r) => TwoLeaves(l, r, [LMcc, LMnc], ps);
    case _ =>
      TableGroup(g);
      NameFacts(GroupText(g));
      OneLeaf(LMcc, GroupText(g), [LMcc, LMnc], ps);
  }

  lemma LsrOfOne(s: string, ps: seq<KeyParam>)
    ensures LsrFrom([s], ps, 0) ==
            if LeafMatches(LLanguage, s) then Matched(ps + [LeafParam(LLanguage, s)]) else Unmatched(ps)
  {
    LsrStep([s], ps, 0);
    LsrStep([s], ps, 1);
    LsrStep([s], ps, 2);
    assert LsrFrom([s], ps, 3) == Unmatched(ps);
    hide LeafMatches, LeafParam, LsrFrom, BySeq;
    OneLeaf(LLanguage, s, LsrModel(0), []);
    OneLeaf(LLanguage, s, LsrModel(1), []);
    OneLeaf(LLanguage, s, LsrModel(2), []);
  }

  lemma LsrOfTwo(l: string, r: string, ps: seq<KeyParam>)
    requires LeafMatches(LLanguage, l) && LeafMatches(LRegion, r)
    ensures LsrFrom([l, r], ps, 0) == Matched(ps + [LeafParam(LLanguage, l), LeafParam(LRegion, r)])
  {
    LsrStep([l, r], ps, 0);
    LsrStep([l, r], ps, 1);
    LocaleParams(l, r);
    hide LeafMatches, LeafParam, LsrFrom, BySeq;
    TwoLeaves(l, r, LsrModel(0), []);
    TwoLeaves(l, r, LsrModel(1), []);
  }

  lemma LsrStage(g: Group, ps: seq<KeyParam>)
    requires GroupOk(g) && GroupStage(g) >= 1
    ensures LsrOf(GroupText(g), ps) == if GroupStage(g) == 1 then Matched(ps + GroupParams(g)) else Unmatched(ps)
  {
    GroupSplits(g);
    hide Parts, LsrFrom, LeafMatches, LeafParam, Packed;
    match g
    case GLanguage(l) => LsrOfOne(l, ps); LocaleParams(l, l);
    case GLocale(l, r) => LsrOfTwo(l, r, ps); LocaleParams(l, r);
    case _ =>
      TableGroup(g);
      NameFacts(GroupText(g));
      LsrOfOne(GroupText(g), ps);
  }

  lemma LocaleParams(l: string, r: string)
    ensures LeafMatches(LLanguage, l) ==> LeafParam(LLanguage, l) == KeyParam(LANGUAGE, Packed(l))
    ensures LeafMatches(LRegion, r) ==> LeafParam(LRegion, r) == KeyParam(REGION, Packed(r)) && !LeafMatches(LScript, r)
  {
  }

  // A group's own stage takes its text for exactly its params; the stages before refuse it and push nothing.
  lemma GroupParses(g: Group, stage: nat, ps: seq<KeyParam>)
    requires GroupOk(g) && stage <= GroupStage(g)
    ensures StageOf(stage, GroupText(g), ps) ==
            if stage == GroupStage(g) then Matched(ps + GroupParams(g)) else Unmatched(ps)
  {
    if stage == 0 {
      MccMncStage(g, ps);
    } else if stage == 1 {
      LsrStage(g, ps);
    } else {
      TableGroup(g);
      NamesApart(GroupText(g));
      hide OrientationOf, DeviceOf, NightModeOf, InputDeviceOf, ResolutionOf;
    }
  }

  lemma {:induction false} GroupTaken(g: Group, next: nat, ps: seq<KeyParam>)
    requires GroupOk(g) && next <= GroupStage(g)
    ensures FirstStage(GroupText(g), next, ps) == (Matched(ps + GroupParams(g)), GroupStage(g))
    decreases GroupStage(g) - next
  {
    GroupParses(g, next, ps);
    hide StageOf, GroupText, GroupParams;
    if next < GroupStage(g) { GroupTaken(g, next + 1, ps); }
  }

  // ------------------------------------------------------------ whole keys

  lemma ParamsStep(gs: seq<Group>)
    requires gs != [] && forall i :: 0 <= i < |gs| ==> GroupOk(gs[i])
    ensures Params(gs) == GroupParams(gs[0]) + Params(gs[1..])
    ensures Texts(gs)[1..] == Texts(gs[1..])
  {
  }

  lemma {:induction false} TextsParse(gs: seq<Group>, next: nat, ps: seq<KeyParam>)
    requires Canonical(gs) && next <= STAGES
    requires gs != [] ==> next <= GroupStage(gs[0])
    ensures MatchFrom(Texts(gs), next, ps) == Matched(ps + Params(gs))
  {
    if gs != [] {
      hide GroupOk, GroupParams, GroupText, FirstStage, MatchFrom, Params;
      var g, rest := gs[0], gs[1..];
      GroupTaken(g, next, ps);
      ParamsStep(gs);
      MatchStep(Texts(gs), next, ps);
      assert forall i :: 0 <= i < |rest| ==> rest[i] == gs[i + 1];
      TextsParse(rest, GroupStage(g), ps + GroupParams(g));
      Associate(ps, GroupParams(g), Params(rest));
    } else {
      assert ps + [] == ps;
    }
  }

  lemma {:induction false} PiecesJoin(gs: seq<Group>, ps: seq<KeyParam>)
    requires gs != [] && forall i :: 0 <= i < |gs| ==> GroupOk(gs[i])
    ensures Pieces(ps + Params(gs)) == Pieces(ps) + (['-'] + Join(Texts(gs), '-'))
  {
    hide Pieces, GroupParams, GroupText, GroupOk, Params;
    var g, rest := gs[0], gs[1..];
    GroupPrints(ps, g);
    ParamsStep(gs);
    if rest == [] {
      NoParams();
      assert GroupParams(g) + [] == GroupParams(g);
      assert Texts(gs) == [GroupText(g)];
    } else {
      assert forall i :: 0 <= i < |rest| ==> rest[i] == gs[i + 1];
      PiecesJoin(rest, ps + GroupParams(g));
      Associate(ps, GroupParams(g), Params(rest));
      JoinStep(Texts(gs));
      hide Join;
      DashAssociate(Pieces(ps), GroupText(g), Join(Texts(rest), '-'));
    }
  }

  lemma NoParams()
    ensures Params([]) == []
  {
  }

  lemma JoinStep(ts: seq<string>)
    requires |ts| > 1
    ensures Join(ts, '-') == ts[0] + ['-'] + Join(ts[1..], '-')
  {
  }

  lemma DashAssociate(p: string, t: string, j: string)
    ensures (p + (['-'] + t)) + (['-'] + j) == p + (['-'] + (t + ['-'] + j))
  {
  }

  lemma TextsClean(gs: seq<Group>)
    requires forall i :: 0 <= i < |gs| ==> GroupOk(gs[i])
    ensures forall i :: 0 <= i < |gs| ==> Texts(gs)[i] != "" && '-' !in Texts(gs)[i] && Texts(gs)[i] != "base"
  {
    forall i | 0 <= i < |gs|
      ensures Texts(gs)[i] != "" && '-' !in Texts(gs)[i] && Texts(gs)[i] != "base"
    {
      GroupPrints([], gs[i]);
    }
  }

  /** A canonical list of key params, printed and parsed again, comes back as it was. */
  lemma ParsePrinted(gs: seq<Group>)
    requires Canonical(gs)
    ensures FreshParse(Printed(Params(gs)), []) == Matched(Params(gs))
  {
    if gs == [] {
      assert Params(gs) == [];
    } else {
      var key := Join(Texts(gs), '-');
      PrintedIs(gs);
      TextsClean(gs);
      SplitJoin(Texts(gs), '-');
      TextsParse(gs, 0, []);
      assert [] + Params(gs) == Params(gs);
      hide Printed, Params, Parts, MatchFrom, GroupText;
      assert key != "base" by {
        if key == "base" { OnePartBase(); }
      }
    }
  }

  lemma OnePartBase()
    ensures Parts("base", '-') == ["base"]
  {
    assert Join(["base"], '-') == "base";
    SplitJoin(["base"], '-');
  }

  // What a canonical list prints as: its groups' texts with dashes between.
  lemma {:induction false} PrintedIs(gs: seq<Group>)
    requires gs != [] && forall i :: 0 <= i < |gs| ==> GroupOk(gs[i])
    ensures Printed(Params(gs)) == Join(Texts(gs), '-')
  {
    hide Pieces, Params, GroupParams, GroupText, GroupOk, Join;
    ParamsStep(gs);
    SomeParams(gs[0]);
    PiecesJoin(gs, []);
    assert [] + Params(gs) == Params(gs);
    AfterDash(Join(Texts(gs), '-'));
  }

  lemma SomeParams(g: Group)
    requires GroupOk(g)
    ensures |GroupParams(g)| > 0 && Pieces([]) == ""
  {
  }

  lemma AfterDash(j: string)
    ensures "" + (['-'] + j) != "" && ("" + (['-'] + j))[1..] == j
  {
  }

  /** Two canonical lists with the same printed key are the same list. */
  lemma PrintedInjective(a: seq<Group>, b: seq<Group>)
    requires Canonical(a) && Canonical(b) && Printed(Params(a)) == Printed(Params(b))
    ensures Params(a) == Params(b)
  {
    ParsePrinted(a);
    ParsePrinted(b);
  }
}
