/**
 Limit keys: the folder name that says which configuration a resource is for.  Parsing turns it into
 key params; printing turns key params back into a name.
 */
module KeyParsers {
  import opened Bytes
  import opened ResourceData
  import Decimal

  // ------------------------------------------------------------ splitting

  function Find(s: string, c: char): (i: nat)
    ensures i <= |s| && c !in s[..i] && (i < |s| ==> s[i] == c)
  {
    if s == "" || s[0] == c then 0 else 1 + Find(s[1..], c)
  }

  // Nothing follows a trailing separator, and the empty text has no parts.
  function Parts(s: string, c: char): seq<string>
    decreases |s|
  {
    if s == "" then []
    else
      var end := Find(s, c);
      if end == |s| then [s] else [s[..end]] + Parts(s[end + 1..], c)
  }

  method FindFrom(s: string, c: char, begin: nat) returns (end: nat)
    requires begin <= |s|
    ensures end == begin + Find(s[begin..], c)
  {
    end := begin;
    while end < |s| && s[end] != c
      invariant begin <= end <= |s|
      invariant begin + Find(s[begin..], c) == end + Find(s[end..], c)
    {
      assert s[end..][1..] == s[end + 1..];
      end := end + 1;
    }
  }

  method Split(s: string, c: char) returns (out: seq<string>)
    ensures out == Parts(s, c)
  {
    hide *;
    out := [];
    var begin := 0;
    var end := FindFrom(s, c, 0);
    assert s[0..] == s && [] + Parts(s, c) == Parts(s, c);
    PartsEnd(s, c);
    while end < |s|
      invariant begin <= |s| && end == begin + Find(s[begin..], c)
      invariant begin < |s| || end == |s|
      invariant Parts(s, c) == out + Parts(s[begin..], c)
      decreases |s| - begin
    {
      PartsStep(s, c, begin, end, out);
      out := out + [s[begin..end]];
      begin := end + 1;
      if begin >= |s| {
        assert s[begin..] == "";
        break;
      }
      end := FindFrom(s, c, begin);
    }
    PartsEnd(s[begin..], c);
    assert out + [] == out;
    if begin < |s| {
      out := out + [s[begin..]];
    }
  }

  lemma PartsEnd(t: string, c: char)
    ensures Find(t, c) <= |t|
    ensures t == "" ==> Parts(t, c) == []
    ensures t != "" && Find(t, c) == |t| ==> Parts(t, c) == [t]
  {
  }

  lemma PartsStep(s: string, c: char, begin: nat, end: nat, out: seq<string>)
    requires begin < |s| && end == begin + Find(s[begin..], c) && end < |s|
    ensures out + Parts(s[begin..], c) == (out + [s[begin..end]]) + Parts(s[end + 1..], c)
  {
    hide Parts, Find;
    var t, e := s[begin..], end - begin;
    PartsUnfold(t, c);
    assert t[..e] == s[begin..end] && t[e + 1..] == s[end + 1..];
    Associate(out, [s[begin..end]], Parts(s[end + 1..], c));
  }

  lemma {:induction false} PartsUnfold(t: string, c: char)
    requires Find(t, c) < |t|
    ensures Parts(t, c) == [t[..Find(t, c)]] + Parts(t[Find(t, c) + 1..], c)
  {
  }

  function Join(parts: seq<string>, c: char): string {
    if parts == [] then "" else if |parts| == 1 then parts[0] else parts[0] + [c] + Join(parts[1..], c)
  }

  lemma {:induction false} FindPrefix(s: string, c: char, tail: string)
    requires c !in s
    ensures Find(s + [c] + tail, c) == |s| && Find(s, c) == |s|
  {
    if s != "" {
      FindPrefix(s[1..], c, tail);
      assert (s + [c] + tail)[1..] == s[1..] + [c] + tail;
    }
  }

  /** Splitting undoes joining, as long as the last part is not empty. */
  lemma {:induction false} SplitJoin(parts: seq<string>, c: char)
    requires forall i :: 0 <= i < |parts| ==> c !in parts[i]
    requires parts != [] ==> parts[|parts| - 1] != ""
    ensures Parts(Join(parts, c), c) == parts
  {
    if |parts| == 1 {
      FindPrefix(parts[0], c, "");
    } else if |parts| > 1 {
      SplitJoin(parts[1..], c);
      PartsOfMore(parts[0], c, Join(parts[1..], c));
    }
  }

  /** One separator at the end adds no part, and lets the last one be empty. */
  lemma {:induction false} SplitTrailing(parts: seq<string>, c: char)
    requires parts != [] && forall i :: 0 <= i < |parts| ==> c !in parts[i]
    ensures Parts(Join(parts, c) + [c], c) == parts
  {
    hide *;
    JoinUnfold(parts, c);
    if |parts| == 1 {
      PartsOfMore(parts[0], c, "");
      PartsEnd("", c);
      assert parts[0] + [c] + "" == parts[0] + [c];
    } else {
      var rest := Join(parts[1..], c);
      SplitTrailing(parts[1..], c);
      PartsOfMore(parts[0], c, rest + [c]);
      assert parts[0] + [c] + (rest + [c]) == (parts[0] + [c] + rest) + [c];
    }
  }

  lemma {:induction false} JoinUnfold(parts: seq<string>, c: char)
    requires parts != []
    ensures Join(parts, c) == if |parts| == 1 then parts[0] else parts[0] + [c] + Join(parts[1..], c)
    ensures parts == [parts[0]] + parts[1..]
  {
  }

  lemma {:induction false} PartsOfMore(part: string, c: char, rest: string)
    requires c !in part
    ensures Parts(part + [c] + rest, c) == [part] + Parts(rest, c)
  {
    FindPrefix(part, c, rest);
    var s := part + [c] + rest;
    assert s[..|part|] == part && s[|part| + 1..] == rest;
  }

  // The parts, joined, with or without one separator behind them, are the text.
  ghost predicate Spelled(s: string, parts: seq<string>, c: char) {
    if parts == [] then s == ""
    else (parts[|parts| - 1] != "" && s == Join(parts, c)) || s == Join(parts, c) + [c]
  }

  /** A text is its parts joined, up to one separator at its end: with the two laws above, that is what splitting is. */
  lemma {:induction false} PartsSpell(s: string, c: char)
    ensures forall i :: 0 <= i < |Parts(s, c)| ==> c !in Parts(s, c)[i]
    ensures Spelled(s, Parts(s, c), c)
    decreases |s|
  {
    hide Parts, Find, Join;
    PartsEnd(s, c);
    var end := Find(s, c);
    if s == "" {
    } else if end == |s| {
      JoinUnfold([s], c);
      assert s[..end] == s;
    } else {
      var rest := s[end + 1..];
      PartsUnfold(s, c);
      PartsSpell(rest, c);
      PartsEnd(rest, c);
      JoinUnfold(Parts(s, c), c);
      assert Parts(s, c)[1..] == Parts(rest, c);
      assert s == s[..end] + [c] + rest;
      SpelledMore(s[..end], rest, Parts(rest, c), c);
    }
  }

  lemma SpelledMore(part: string, rest: string, parts: seq<string>, c: char)
    requires Spelled(rest, parts, c)
    ensures Spelled(part + [c] + rest, [part] + parts, c)
  {
    hide Join;
    JoinUnfold([part] + parts, c);
    assert ([part] + parts)[1..] == parts;
    if parts == [] {
      assert part + [c] + rest == part + [c];
    } else {
      assert part + [c] + (Join(parts, c) + [c]) == (part + [c] + Join(parts, c)) + [c];
    }
  }

  // ------------------------------------------------------------ leaf parsers

  predicate Digits(s: string) { forall i :: 0 <= i < |s| ==> '0' <= s[i] <= '9' }
  predicate Lower(s: string) { forall i :: 0 <= i < |s| ==> 'a' <= s[i] <= 'z' }
  predicate Upper(s: string) { forall i :: 0 <= i < |s| ==> 'A' <= s[i] <= 'Z' }

  function DeviceOf(s: string): Option<uint32> {
    if s == "phone" then Some(0) else if s == "tablet" then Some(1) else if s == "car" then Some(2)
    else if s == "tv" then Some(4) else if s == "wearable" then Some(6) else None
  }

  function OrientationOf(s: string): Option<uint32> {
    if s == "vertical" then Some(0) else if s == "horizontal" then Some(1) else None
  }

  function NightModeOf(s: string): Option<uint32> {
    if s == "dark" then Some(0) else if s == "light" then Some(1) else None
  }

  function InputDeviceOf(s: string): Option<uint32> {
    if s == "pointingdevice" then Some(0) else None
  }

  function ResolutionOf(s: string): Option<uint32> {
    if s == "sdpi" then Some(120) else if s == "mdpi" then Some(160) else if s == "ldpi" then Some(240)
    else if s == "xldpi" then Some(320) else if s == "xxldpi" then Some(480) else if s == "xxxldpi" then Some(640)
    else None
  }

  datatype Leaf = LMcc | LMnc | LLanguage | LScript | LRegion

  // The uint32 a locale part is packed into, eight bits a character.
  function Packed(s: string): uint32 {
    if s == "" then 0 else (Packed(s[..|s| - 1]) as int * 0x100 + s[|s| - 1] as int % 0x100) % 0x1_0000_0000
  }

  method PushLSR(s: string) returns (value: uint32)
    ensures value == Packed(s)
  {
    value := 0;
    for i := 0 to |s|
      invariant value == Packed(s[..i])
    {
      assert s[..i + 1][..i] == s[..i];
      value := ((value as int) * 0x100 + s[i] as int % 0x100) % 0x1_0000_0000;
    }
    assert s[..|s|] == s;
  }

  predicate LeafMatches(leaf: Leaf, s: string) {
    match leaf
    case LMcc => |s| == 6 && s[..3] == "mcc" && Digits(s[3..])
    case LMnc => 5 <= |s| <= 6 && s[..3] == "mnc" && Digits(s[3..])
    case LLanguage => DeviceOf(s).None? && 2 <= |s| <= 3 && Lower(s)
    case LScript => |s| == 4 && Upper(s[..1]) && Lower(s[1..])
    case LRegion => 2 <= |s| <= 3 && ((|s| == 3 && Digits(s)) || Upper(s))
  }

  function LeafParam(leaf: Leaf, s: string): KeyParam
    requires LeafMatches(leaf, s)
  {
    match leaf
    case LMcc => NumberBound(s[3..]); KeyParam(MCC, Decimal.Atoi(s[3..]))
    case LMnc => NumberBound(s[3..]); KeyParam(MNC, Decimal.Atoi(s[3..]))
    case LLanguage => KeyParam(LANGUAGE, Packed(s))
    case LScript => KeyParam(SCRIPT, Packed(s))
    case LRegion => KeyParam(REGION, Packed(s))
  }

  lemma NumberBound(s: string)
    requires |s| <= 3 && Digits(s)
    ensures Decimal.Atoi(s) < 1000
  {
    Decimal.AtoiBound(s);
    assert Decimal.Pow10(1) == 10 && Decimal.Pow10(2) == 100 && Decimal.Pow10(3) == 1000;
  }

  // ------------------------------------------------------------ sequences of leaves

  // A parser's result: the params so far in either case, or an index past the end of a parser list.
  datatype Outcome = Matched(ps: seq<KeyParam>) | Unmatched(ps: seq<KeyParam>) | OutOfBounds

  function BySeq(keys: seq<string>, leaves: seq<Leaf>, ps: seq<KeyParam>): Outcome {
    if keys == [] then Matched(ps)
    else if leaves == [] then OutOfBounds
    else if LeafMatches(leaves[0], keys[0]) then BySeq(keys[1..], leaves[1..], ps + [LeafParam(leaves[0], keys[0])])
    else Unmatched(ps)
  }

  method ParseMatchBySeq(keys: seq<string>, leaves: seq<Leaf>, ps: seq<KeyParam>) returns (r: Outcome)
    ensures r == BySeq(keys, leaves, ps)
  {
    var acc := ps;
    var i := 0;
    while i < |keys|
      invariant i <= |keys| && i <= |leaves|
      invariant BySeq(keys, leaves, ps) == BySeq(keys[i..], leaves[i..], acc)
    {
      if i >= |leaves| {
        return OutOfBounds;
      }
      if !LeafMatches(leaves[i], keys[i]) {
        return Unmatched(acc);
      }
      assert keys[i..][1..] == keys[i + 1..] && leaves[i..][1..] == leaves[i + 1..];
      acc := acc + [LeafParam(leaves[i], keys[i])];
      i := i + 1;
    }
    return Matched(acc);
  }

  // A failing second half leaves the mcc param pushed.
  function MccMncOf(s: string, ps: seq<KeyParam>): Outcome {
    var parts := Parts(s, '_');
    if |parts| > 2 then Unmatched(ps) else BySeq(parts, [LMcc, LMnc], ps)
  }

  // The locale models in the order of their map.
  function LsrModel(m: nat): seq<Leaf>
    requires m < 3
  {
    if m == 0 then [LLanguage, LScript, LRegion] else if m == 1 then [LLanguage, LRegion] else [LLanguage, LScript]
  }

  function LsrFrom(parts: seq<string>, ps: seq<KeyParam>, m: nat): Outcome
    requires m <= 3
    decreases 3 - m
  {
    if m == 3 then Unmatched(ps)
    else match BySeq(parts, LsrModel(m), [])
      case Matched(tmp) => Matched(ps + tmp)
      case Unmatched(_) => LsrFrom(parts, ps, m + 1)
      case OutOfBounds => OutOfBounds
  }

  function LsrOf(s: string, ps: seq<KeyParam>): Outcome {
    var parts := Parts(s, '_');
    if |parts| > 3 then Unmatched(ps) else LsrFrom(parts, ps, 0)
  }

  method ParseLSR(s: string, ps: seq<KeyParam>) returns (r: Outcome)
    ensures r == LsrOf(s, ps)
  {
    var parts := Split(s, '_');
    if |parts| > 3 {
      return Unmatched(ps);
    }
    var m := 0;
    while m < 3
      invariant m <= 3 && LsrOf(s, ps) == LsrFrom(parts, ps, m)
    {
      r := ParseMatchBySeq(parts, LsrModel(m), []);
      match r {
        case Matched(tmp) => return Matched(ps + tmp);
        case Unmatched(_) =>
        case OutOfBounds => return;
      }
      m := m + 1;
    }
    return Unmatched(ps);
  }

  lemma {:induction false} BySeqEnds(p: seq<string>, leaves: seq<Leaf>, ps: seq<KeyParam>)
    ensures BySeq(p, leaves, ps).Matched? <==>
            |p| <= |leaves| && forall i :: 0 <= i < |p| ==> LeafMatches(leaves[i], p[i])
    ensures BySeq(p, leaves, ps).OutOfBounds? <==>
            |p| > |leaves| && forall i :: 0 <= i < |leaves| ==> LeafMatches(leaves[i], p[i])
  {
    if p != [] && leaves != [] && LeafMatches(leaves[0], p[0]) {
      hide LeafMatches;
      BySeqEnds(p[1..], leaves[1..], ps + [LeafParam(leaves[0], p[0])]);
      assert forall i :: 1 <= i < |p| ==> p[i] == p[1..][i - 1];
      assert forall i :: 1 <= i < |leaves| ==> leaves[i] == leaves[1..][i - 1];
    }
  }

  // Three parts of which the first is a language and the second a region, or a script whose third part is no region.
  predicate Overruns(s: string) {
    var p := Parts(s, '_');
    |p| == 3 && LeafMatches(LLanguage, p[0]) &&
    (LeafMatches(LRegion, p[1]) || (LeafMatches(LScript, p[1]) && !LeafMatches(LRegion, p[2])))
  }

  /** The locale parser runs past the end of a two-parser model on exactly these texts. */
  lemma LsrOutOfBounds(s: string, ps: seq<KeyParam>)
    ensures LsrOf(s, ps).OutOfBounds? <==> Overruns(s)
  {
    var p := Parts(s, '_');
    BySeqEnds(p, LsrModel(0), []);
    BySeqEnds(p, LsrModel(1), []);
    BySeqEnds(p, LsrModel(2), []);
    if |p| <= 3 {
      assert LsrFrom(p, ps, 3) == Unmatched(ps);
      LsrStep(p, ps, 2);
      LsrStep(p, ps, 1);
      LsrStep(p, ps, 0);
    }
    hide BySeq, LsrFrom;
  }

  lemma LsrStep(parts: seq<string>, ps: seq<KeyParam>, m: nat)
    requires m < 3
    ensures LsrFrom(parts, ps, m) ==
      match BySeq(parts, LsrModel(m), [])
      case Matched(tmp) => Matched(ps + tmp)
      case Unmatched(_) => LsrFrom(parts, ps, m + 1)
      case OutOfBounds => OutOfBounds
  {
  }

  // ------------------------------------------------------------ the parser stages

  function TableOutcome(v: Option<uint32>, keyType: int32, ps: seq<KeyParam>): Outcome {
    if v.Some? then Matched(ps + [KeyParam(keyType, v.value)]) else Unmatched(ps)
  }

  const STAGES := 7

  function StageOf(stage: nat, s: string, ps: seq<KeyParam>): Outcome
    requires stage < STAGES
  {
    if stage == 0 then MccMncOf(s, ps)
    else if stage == 1 then LsrOf(s, ps)
    else if stage == 2 then TableOutcome(OrientationOf(s), ORIENTATION, ps)
    else if stage == 3 then TableOutcome(DeviceOf(s), DEVICETYPE, ps)
    else if stage == 4 then TableOutcome(NightModeOf(s), NIGHTMODE, ps)
    else if stage == 5 then TableOutcome(InputDeviceOf(s), INPUTDEVICE, ps)
    else TableOutcome(ResolutionOf(s), RESOLUTION, ps)
  }

  method ParseStage(stage: nat, s: string, ps: seq<KeyParam>) returns (r: Outcome)
    requires stage < STAGES
    ensures r == StageOf(stage, s, ps)
  {
    if stage == 0 {
      var parts := Split(s, '_');
      if |parts| > 2 {
        return Unmatched(ps);
      }
      r := ParseMatchBySeq(parts, [LMcc, LMnc], ps);
    } else if stage == 1 {
      r := ParseLSR(s, ps);
    } else {
      r := StageOf(stage, s, ps);
    }
  }

  // The first stage from next on that takes the part; refusing stages may have pushed params.
  function FirstStage(s: string, next: nat, ps: seq<KeyParam>): (Outcome, nat)
    requires next <= STAGES
    decreases STAGES - next
  {
    if next == STAGES then (Unmatched(ps), next)
    else match StageOf(next, s, ps)
      case Matched(qs) => (Matched(qs), next)
      case Unmatched(qs) => FirstStage(s, next + 1, qs)
      case OutOfBounds => (OutOfBounds, next)
  }

  function MatchFrom(keys: seq<string>, next: nat, ps: seq<KeyParam>): Outcome
    requires next <= STAGES
  {
    if keys == [] then Matched(ps)
    else
      var (r, i) := FirstStage(keys[0], next, ps);
      if r.Matched? then (StageBound(keys[0], next, ps); MatchFrom(keys[1..], i, r.ps)) else r
  }

  lemma {:induction false} StageBound(s: string, next: nat, ps: seq<KeyParam>)
    requires next <= STAGES
    ensures next <= FirstStage(s, next, ps).1 <= STAGES
    ensures FirstStage(s, next, ps).0.Matched? ==> FirstStage(s, next, ps).1 < STAGES
    decreases STAGES - next
  {
    if next < STAGES && StageOf(next, s, ps).Unmatched? {
      StageBound(s, next + 1, StageOf(next, s, ps).ps);
    }
  }

  method ParseMatch(keys: seq<string>, ps: seq<KeyParam>) returns (r: Outcome)
    ensures r == MatchFrom(keys, 0, ps)
  {
    var acc, next, k := ps, 0, 0;
    while k < |keys|
      invariant k <= |keys| && next < STAGES
      invariant MatchFrom(keys, 0, ps) == MatchFrom(keys[k..], next, acc)
    {
      ghost var rest, was := keys[k..], acc;
      var parseMatch := false;
      var i := next;
      while i < STAGES && !parseMatch
        invariant next <= i <= STAGES && (parseMatch ==> i < STAGES)
        invariant !parseMatch ==> FirstStage(keys[k], next, was) == FirstStage(keys[k], i, acc)
        invariant parseMatch ==> FirstStage(keys[k], next, was) == (Matched(acc), i)
        decreases STAGES - i, !parseMatch
      {
        var one := ParseStage(i, keys[k], acc);
        match one {
          case Matched(qs) => acc, parseMatch := qs, true;
          case Unmatched(qs) => acc, i := qs, i + 1;
          case OutOfBounds => return OutOfBounds;
        }
      }
      if !parseMatch {
        return Unmatched(acc);
      }
      assert rest[0] == keys[k] && rest[1..] == keys[k + 1..];
      next := i;
      k := k + 1;
    }
    return Matched(acc);
  }

  // A parse with nothing cached.
  function FreshParse(folder: string, ps: seq<KeyParam>): Outcome {
    if folder == "base" then Matched(ps) else MatchFrom(Parts(folder, '-'), 0, ps)
  }

  // ------------------------------------------------------------ the cache

  function Shift(pre: seq<KeyParam>, o: Outcome): Outcome {
    match o
    case Matched(ps) => Matched(pre + ps)
    case Unmatched(ps) => Unmatched(pre + ps)
    case OutOfBounds => OutOfBounds
  }

  lemma {:induction false} BySeqShift(keys: seq<string>, leaves: seq<Leaf>, pre: seq<KeyParam>, ps: seq<KeyParam>)
    ensures BySeq(keys, leaves, pre + ps) == Shift(pre, BySeq(keys, leaves, ps))
  {
    if keys != [] && leaves != [] && LeafMatches(leaves[0], keys[0]) {
      var p := LeafParam(leaves[0], keys[0]);
      hide LeafMatches, LeafParam;
      assert (pre + ps) + [p] == pre + (ps + [p]);
      BySeqShift(keys[1..], leaves[1..], pre, ps + [p]);
    }
  }

  lemma {:induction false} LsrShift(parts: seq<string>, m: nat, pre: seq<KeyParam>, ps: seq<KeyParam>)
    requires m <= 3
    ensures LsrFrom(parts, pre + ps, m) == Shift(pre, LsrFrom(parts, ps, m))
    decreases 3 - m
  {
    if m < 3 {
      var r := BySeq(parts, LsrModel(m), []);
      hide BySeq, LsrModel;
      if r.Unmatched? { LsrShift(parts, m + 1, pre, ps); }
      if r.Matched? { assert (pre + ps) + r.ps == pre + (ps + r.ps); }
    }
  }

  lemma StageShift(stage: nat, s: string, pre: seq<KeyParam>, ps: seq<KeyParam>)
    requires stage < STAGES
    ensures StageOf(stage, s, pre + ps) == Shift(pre, StageOf(stage, s, ps))
  {
    hide BySeq, LsrFrom, Parts;
    BySeqShift(Parts(s, '_'), [LMcc, LMnc], pre, ps);
    LsrShift(Parts(s, '_'), 0, pre, ps);
    hide OrientationOf, DeviceOf, NightModeOf, InputDeviceOf, ResolutionOf;
    assert forall p: KeyParam :: (pre + ps) + [p] == pre + (ps + [p]);
  }

  lemma {:induction false} FirstStageShift(s: string, next: nat, pre: seq<KeyParam>, ps: seq<KeyParam>)
    requires next <= STAGES
    ensures FirstStage(s, next, pre + ps).0 == Shift(pre, FirstStage(s, next, ps).0)
    ensures FirstStage(s, next, pre + ps).1 == FirstStage(s, next, ps).1
    decreases STAGES - next
  {
    if next < STAGES {
      StageShift(next, s, pre, ps);
      var r := StageOf(next, s, ps);
      hide StageOf;
      if r.Unmatched? { FirstStageShift(s, next + 1, pre, r.ps); }
    }
  }

  lemma {:induction false} MatchShift(keys: seq<string>, next: nat, pre: seq<KeyParam>, ps: seq<KeyParam>)
    requires next <= STAGES
    ensures MatchFrom(keys, next, pre + ps) == Shift(pre, MatchFrom(keys, next, ps))
  {
    if keys != [] {
      FirstStageShift(keys[0], next, pre, ps);
      StageBound(keys[0], next, ps);
      var (r, i) := FirstStage(keys[0], next, ps);
      hide FirstStage;
      if r.Matched? { MatchShift(keys[1..], i, pre, r.ps); }
    }
  }

  // ------------------------------------------------------------ when a whole parse runs out of bounds

  // Nothing, an mcc code, or an mcc code and an mnc code.
  predicate MccMncPart(s: string) {
    var p := Parts(s, '_');
    |p| <= 2 && (|p| > 0 ==> LeafMatches(LMcc, p[0])) && (|p| == 2 ==> LeafMatches(LMnc, p[1]))
  }

  // Nothing, or a language, alone or with a script, a region, or both in this order.
  predicate LocalePart(s: string) {
    var p := Parts(s, '_');
    && |p| <= 3 && (|p| > 0 ==> LeafMatches(LLanguage, p[0]))
    && (|p| == 2 ==> LeafMatches(LScript, p[1]) || LeafMatches(LRegion, p[1]))
    && (|p| == 3 ==> LeafMatches(LScript, p[1]) && LeafMatches(LRegion, p[2]))
  }

  lemma PartsMatch(s: string)
    ensures MccMncOf(s, []).Matched? <==> MccMncPart(s)
    ensures LsrOf(s, []).Matched? <==> LocalePart(s)
  {
    var p := Parts(s, '_');
    BySeqEnds(p, [LMcc, LMnc], []);
    BySeqEnds(p, LsrModel(0), []);
    BySeqEnds(p, LsrModel(1), []);
    BySeqEnds(p, LsrModel(2), []);
    assert LsrFrom(p, [], 3) == Unmatched([]);
    LsrStep(p, [], 2);
    LsrStep(p, [], 1);
    LsrStep(p, [], 0);
    hide BySeq, LsrFrom, Parts, LeafMatches;
  }

  lemma StageKinds(stage: nat, s: string, ps: seq<KeyParam>)
    requires stage < STAGES
    ensures StageOf(stage, s, ps).OutOfBounds? <==> stage == 1 && Overruns(s)
    ensures stage == 0 ==> (StageOf(stage, s, ps).Matched? <==> MccMncPart(s)) && !(MccMncPart(s) && Overruns(s))
    ensures stage == 1 ==> (StageOf(stage, s, ps).Matched? <==> LocalePart(s)) && !(LocalePart(s) && Overruns(s))
  {
    LsrOutOfBounds(s, []);
    assert ps + [] == ps;
    StageShift(stage, s, ps, []);
    BySeqEnds(Parts(s, '_'), [LMcc, LMnc], []);
    PartsMatch(s);
    hide BySeq, LsrFrom, LeafMatches, Parts, MccMncPart, LocalePart, Overruns;
    hide OrientationOf, DeviceOf, NightModeOf, InputDeviceOf, ResolutionOf;
  }

  lemma {:induction false} LateStages(s: string, next: nat, ps: seq<KeyParam>)
    requires 2 <= next <= STAGES
    ensures !FirstStage(s, next, ps).0.OutOfBounds?
    decreases STAGES - next
  {
    if next < STAGES {
      StageKinds(next, s, ps);
      var r := StageOf(next, s, ps);
      hide StageOf;
      if r.Unmatched? { LateStages(s, next + 1, r.ps); }
    }
  }

  lemma FirstStageStep(s: string, next: nat, ps: seq<KeyParam>)
    requires next < STAGES
    ensures FirstStage(s, next, ps) ==
      match StageOf(next, s, ps)
      case Matched(qs) => (Matched(qs), next)
      case Unmatched(qs) => FirstStage(s, next + 1, qs)
      case OutOfBounds => (OutOfBounds, next)
  {
  }

  // What the first two stages make of a part, as far as the third stage is not reached.
  lemma EarlyStages(s: string, next: nat, ps: seq<KeyParam>)
    requires next <= 1
    ensures FirstStage(s, next, ps).0.OutOfBounds? <==> Overruns(s)
    ensures FirstStage(s, next, ps).0.Matched? && FirstStage(s, next, ps).1 == 0 <==> next == 0 && MccMncPart(s)
    ensures FirstStage(s, next, ps).0.Matched? && FirstStage(s, next, ps).1 == 1 <==>
            LocalePart(s) && !(next == 0 && MccMncPart(s))
  {
    hide *;
    StageCount();
    FirstStageStep(s, next, ps);
    StageKinds(next, s, ps);
    StageKinds(1, s, ps);
    var r := StageOf(next, s, ps);
    if r.Unmatched? {
      if next == 0 {
        FirstStageStep(s, 1, r.ps);
        StageKinds(1, s, r.ps);
        var q := StageOf(1, s, r.ps);
        if q.Unmatched? {
          LateStages(s, 2, q.ps);
          StageBound(s, 2, q.ps);
        }
      } else {
        LateStages(s, 2, r.ps);
        StageBound(s, 2, r.ps);
      }
    }
  }

  lemma StageCount()
    ensures STAGES == 7
  {
  }

  // Parts for the first stage (while next is 0), then for the second, lead to one that overruns.
  predicate Leads(keys: seq<string>, next: nat) {
    keys != [] &&
    (Overruns(keys[0])
    || (next == 0 && MccMncPart(keys[0]) && Leads(keys[1..], 0))
    || (LocalePart(keys[0]) && Leads(keys[1..], 1)))
  }

  lemma {:induction false} LeadsFromBoth(keys: seq<string>)
    requires Leads(keys, 1)
    ensures Leads(keys, 0)
  {
  }

  lemma MatchStep(keys: seq<string>, next: nat, ps: seq<KeyParam>)
    requires keys != [] && next < STAGES
    ensures var (r, i) := FirstStage(keys[0], next, ps);
      && (r.Matched? ==> next <= i < STAGES)
      && MatchFrom(keys, next, ps) == if r.Matched? then MatchFrom(keys[1..], i, r.ps) else r
  {
    StageBound(keys[0], next, ps);
    hide FirstStage;
  }

  lemma NoKeys(next: nat, ps: seq<KeyParam>)
    requires next < STAGES
    ensures MatchFrom([], next, ps) == Matched(ps) && !Leads([], next)
  {
  }

  lemma LeadsStep(keys: seq<string>, next: nat)
    requires keys != []
    ensures Leads(keys, next) <==>
      (Overruns(keys[0])
      || (next == 0 && MccMncPart(keys[0]) && Leads(keys[1..], 0))
      || (LocalePart(keys[0]) && Leads(keys[1..], 1)))
  {
    hide Overruns, MccMncPart, LocalePart;
  }

  lemma {:induction false} OutFrom(keys: seq<string>, next: nat, ps: seq<KeyParam>)
    requires next < STAGES
    ensures MatchFrom(keys, next, ps).OutOfBounds? <==> next <= 1 && Leads(keys, next)
  {
    hide *;
    StageCount();
    if keys == [] {
      NoKeys(next, ps);
    } else {
      MatchStep(keys, next, ps);
      LeadsStep(keys, next);
      var (r, i) := FirstStage(keys[0], next, ps);
      if next <= 1 { EarlyStages(keys[0], next, ps); } else { LateStages(keys[0], next, ps); }
      if next == 0 { StageKinds(0, keys[0], ps); }
      StageKinds(1, keys[0], ps);
      if r.Matched? { OutFrom(keys[1..], i, r.ps); }
      if Leads(keys[1..], 1) { LeadsFromBoth(keys[1..]); }
    }
  }

  // The first m parts are for the mcc and mnc stage, the next ones up to part k for the locale stage, and part k
  // overruns.
  predicate Reaches(keys: seq<string>, m: nat, k: nat) {
    && m <= k < |keys| && Overruns(keys[k])
    && (forall j :: 0 <= j < m ==> MccMncPart(keys[j]))
    && (forall j :: m <= j < k ==> LocalePart(keys[j]))
  }

  lemma {:induction false} LeadsIs(keys: seq<string>)
    ensures Leads(keys, 1) <==> exists k: nat :: Reaches(keys, 0, k)
    ensures Leads(keys, 0) <==> exists m: nat, k: nat :: Reaches(keys, m, k)
  {
    hide Overruns, MccMncPart, LocalePart;
    if keys != [] {
      LeadsIs(keys[1..]);
      LeadsForward(keys);
      forall m: nat, k: nat | Reaches(keys, m, k)
        ensures Leads(keys, 0) && (m == 0 ==> Leads(keys, 1))
      {
        if k > 0 {
          assert forall j :: 0 <= j < k ==> keys[1..][j] == keys[j + 1];
          assert Reaches(keys[1..], if m == 0 then 0 else m - 1, k - 1);
        }
      }
    }
  }

  lemma LeadsForward(keys: seq<string>)
    requires keys != []
    requires Leads(keys[1..], 1) <==> exists k: nat :: Reaches(keys[1..], 0, k)
    requires Leads(keys[1..], 0) <==> exists m: nat, k: nat :: Reaches(keys[1..], m, k)
    ensures Leads(keys, 1) ==> exists k: nat :: Reaches(keys, 0, k)
    ensures Leads(keys, 0) ==> exists m: nat, k: nat :: Reaches(keys, m, k)
  {
    hide Overruns, MccMncPart, LocalePart;
    var rest := keys[1..];
    assert forall j :: 0 <= j < |rest| ==> rest[j] == keys[j + 1];
    if Overruns(keys[0]) {
      assert Reaches(keys, 0, 0);
    } else {
      if LocalePart(keys[0]) && Leads(rest, 1) {
        var k: nat :| Reaches(rest, 0, k);
        assert Reaches(keys, 0, k + 1);
      }
      if MccMncPart(keys[0]) && Leads(rest, 0) {
        var m: nat, k: nat :| Reaches(rest, m, k);
        assert Reaches(keys, m + 1, k + 1);
      }
    }
  }

  lemma FreshIs(folder: string, ps: seq<KeyParam>)
    ensures folder == "base" ==> FreshParse(folder, ps) == Matched(ps)
    ensures folder != "base" ==> FreshParse(folder, ps) == MatchFrom(Parts(folder, '-'), 0, ps)
  {
    hide MatchFrom, Parts;
  }

  /**
   A fresh parse indexes past its leaves exactly on a name of whose dash-separated parts the first are empty or mcc
   codes with or without an mnc code, the next empty or locales, and then one overruns: no later stage has been
   reached by then.
   */
  lemma FreshOutOfBounds(folder: string, ps: seq<KeyParam>)
    ensures FreshParse(folder, ps).OutOfBounds? <==>
            folder != "base" && exists m: nat, k: nat :: Reaches(Parts(folder, '-'), m, k)
  {
    hide *;
    StageCount();
    FreshIs(folder, ps);
    OutFrom(Parts(folder, '-'), 0, ps);
    LeadsIs(Parts(folder, '-'));
  }

  /** "en_US_x" does: a language, a region, and a third part for a parser list of two. */
  lemma EnUsX(ps: seq<KeyParam>)
    ensures FreshParse(EN_US_X, ps).OutOfBounds?
  {
    hide *;
    EnUsXParts();
    assert [EN_US_X][0] == EN_US_X;
    ReachesAtOnce(EN_US_X);
    FreshOutOfBounds(EN_US_X, ps);
    assert Reaches(Parts(EN_US_X, '-'), 0, 0);
  }

  const EN_US_X := "en_US_x"

  lemma ReachesAtOnce(s: string)
    requires Overruns(s)
    ensures Reaches([s], 0, 0)
  {
    hide Overruns;
  }

  lemma EnUsXJoins()
    ensures Join(["en", "US", "x"], '_') == EN_US_X && Join([EN_US_X], '-') == EN_US_X
  {
    var p := ["en", "US", "x"];
    assert p[1..] == ["US", "x"] && p[1..][1..] == ["x"];
  }

  lemma EnUsXLeaves()
    ensures LeafMatches(LLanguage, "en") && LeafMatches(LRegion, "US")
  {
  }

  lemma OverrunsIs(s: string, p: seq<string>)
    requires Parts(s, '_') == p && |p| == 3 && LeafMatches(LLanguage, p[0]) && LeafMatches(LRegion, p[1])
    ensures Overruns(s)
  {
    hide Parts, LeafMatches;
  }

  lemma EnUsXSplit()
    ensures Parts(EN_US_X, '_') == ["en", "US", "x"] && Parts(EN_US_X, '-') == [EN_US_X] && EN_US_X != "base"
  {
    hide Parts, Join;
    EnUsXJoins();
    SplitJoin(["en", "US", "x"], '_');
    SplitJoin([EN_US_X], '-');
  }

  lemma EnUsXParts()
    ensures Overruns(EN_US_X) && Parts(EN_US_X, '-') == [EN_US_X] && EN_US_X != "base"
  {
    hide *;
    EnUsXSplit();
    EnUsXLeaves();
    OverrunsIs(EN_US_X, ["en", "US", "x"]);
  }

  // ------------------------------------------------------------ runs of Parse

  type Caches = map<string, seq<KeyParam>>

  // A call with its folder name and the list it is given.
  datatype ParseCall = ParseCall(folder: string, list: seq<KeyParam>)

  function Parsed(caches: Caches, folder: string, ps: seq<KeyParam>): (Outcome, Caches) {
    if folder == "base" then (Matched(ps), caches)
    else if folder in caches then (Matched(caches[folder]), caches)
    else
      var r := FreshParse(folder, ps);
      (r, if r.Matched? then caches[folder := r.ps] else caches)
  }

  // The cache after a run of calls that started with an empty one.
  function CachesAfter(calls: seq<ParseCall>): Caches {
    if calls == [] then map[]
    else
      var last := calls[|calls| - 1];
      Parsed(CachesAfter(calls[..|calls| - 1]), last.folder, last.list).1
  }

  // The first call with the folder name, or the number of calls.
  function FirstWith(calls: seq<ParseCall>, folder: string): (i: nat)
    ensures i <= |calls| && (i < |calls| ==> calls[i].folder == folder)
    ensures forall j :: 0 <= j < i ==> calls[j].folder != folder
  {
    if calls == [] then 0
    else
      var i := FirstWith(calls[..|calls| - 1], folder);
      if i < |calls| - 1 || calls[|calls| - 1].folder == folder then i else |calls|
  }

  lemma FreshShift(folder: string, ps: seq<KeyParam>)
    ensures FreshParse(folder, ps) == Shift(ps, FreshParse(folder, []))
  {
    MatchShift(Parts(folder, '-'), 0, ps, []);
    assert ps + [] == ps;
    hide MatchFrom, Parts;
  }

  // Cached is what the first call with the name parsed, into the list that call was given.
  lemma {:induction false} CachedIs(calls: seq<ParseCall>, folder: string)
    ensures var i := FirstWith(calls, folder);
      && (folder in CachesAfter(calls) <==> folder != "base" && i < |calls| && FreshParse(folder, []).Matched?)
      && (folder in CachesAfter(calls) ==> Matched(CachesAfter(calls)[folder]) == FreshParse(folder, calls[i].list))
  {
    if calls != [] {
      var init, last := calls[..|calls| - 1], calls[|calls| - 1];
      CachedIs(init, folder);
      FreshShift(last.folder, last.list);
      hide FreshParse;
    }
  }

  /**
   After any run of calls, parsing a name into a list gives what a fresh parse gives exactly if the name is
   "base", or does not parse, or comes up for the first time, or has the list its first call had: a hit replaces
   the list with what that call left in its own.
   */
  lemma {:induction false} CachedEqualsFresh(calls: seq<ParseCall>, folder: string, now: seq<KeyParam>)
    ensures var i := FirstWith(calls, folder);
      Parsed(CachesAfter(calls), folder, now).0 == FreshParse(folder, now) <==>
      folder == "base" || !FreshParse(folder, []).Matched? || i == |calls| || now == calls[i].list
  {
    CachedIs(calls, folder);
    FreshShift(folder, now);
    var i := FirstWith(calls, folder);
    if i < |calls| { FreshShift(folder, calls[i].list); }
    var base := FreshParse("base", now);
    assert base == Matched(now);
    hide FreshParse, FirstWith, CachesAfter;
    if folder in CachesAfter(calls) && FreshParse(folder, now) == FreshParse(folder, calls[i].list) {
      assert now + FreshParse(folder, []).ps == calls[i].list + FreshParse(folder, []).ps;
      SamePrefix(now, calls[i].list, FreshParse(folder, []).ps);
    }
  }

  lemma SamePrefix<T>(a: seq<T>, b: seq<T>, tail: seq<T>)
    requires a + tail == b + tail
    ensures a == b
  {
    assert |a| == |b|;
    assert a == (a + tail)[..|a|] && b == (b + tail)[..|b|];
  }

  // The text of a single part that only the night mode stage takes.
  lemma DarkParses()
    ensures FreshParse("dark", []).Matched?
  {
    hide *;
    var s, none: seq<KeyParam> := "dark", [];
    DarkParts();
    DarkStages(none);
    StageCount();
    FirstStageStep(s, 0, none);
    FirstStageStep(s, 1, none);
    FirstStageStep(s, 2, none);
    FirstStageStep(s, 3, none);
    FirstStageStep(s, 4, none);
    assert [s] != [] && [s][0] == s && [s][1..] == [];
    MatchStep([s], 0, none);
    NoKeys(4, StageOf(4, s, none).ps);
    FreshIs(s, none);
  }

  lemma DarkParts()
    ensures Parts("dark", '-') == ["dark"] == Parts("dark", '_') && "dark" != "base"
  {
    SplitJoin(["dark"], '-');
    SplitJoin(["dark"], '_');
    hide Parts;
  }

  lemma DarkStages(ps: seq<KeyParam>)
    requires ps == [] && Parts("dark", '_') == ["dark"]
    ensures forall stage: nat :: stage < 4 ==> StageOf(stage, "dark", ps) == Unmatched(ps)
    ensures StageOf(4, "dark", ps) == Matched(ps + [KeyParam(NIGHTMODE, 0)])
  {
    var s := "dark";
    assert LsrFrom([s], [], 0) == Unmatched([]) by { DarkIsNoLocale(); }
    hide Parts, LsrFrom;
  }

  lemma DarkIsNoLocale()
    ensures LsrFrom(["dark"], [], 0) == Unmatched([])
  {
    assert !LeafMatches(LLanguage, "dark");
    LsrStep(["dark"], [], 2);
    LsrStep(["dark"], [], 1);
    LsrStep(["dark"], [], 0);
    assert LsrFrom(["dark"], [], 3) == Unmatched([]);
  }

  lemma FirstOfOne(c: ParseCall)
    ensures FirstWith([c], c.folder) == 0
  {
  }

  /** Filled with a list that was not empty, the cache answers a call with the empty list differently. */
  lemma CacheDiffers(p: KeyParam)
    ensures Parsed(CachesAfter([ParseCall("dark", [p])]), "dark", []).0 != FreshParse("dark", [])
    ensures Parsed(CachesAfter([ParseCall("dark", [p])]), "dark", [p]).0 == FreshParse("dark", [p])
  {
    hide *;
    DarkParses();
    var calls, no: seq<KeyParam> := [ParseCall("dark", [p])], [];
    FirstOfOne(calls[0]);
    CachedEqualsFresh(calls, "dark", no);
    CachedEqualsFresh(calls, "dark", [p]);
  }

  class KeyParser {
    var caches: Caches
    ghost var calls: seq<ParseCall>      // so far, the cache being empty before them

    constructor ()
      ensures caches == map[] && calls == [] && Valid()
    {
      caches, calls := map[], [];
    }

    ghost predicate Valid()
      reads this
    {
      caches == CachesAfter(calls)
    }

    method Parse(folder: string, ps: seq<KeyParam>) returns (r: Outcome)
      requires Valid()
      modifies this
      ensures Valid() && calls == old(calls) + [ParseCall(folder, ps)]
      ensures (r, caches) == Parsed(old(caches), folder, ps)
      ensures var i := FirstWith(old(calls), folder);
        r == FreshParse(folder, ps) <==>
        folder == "base" || !FreshParse(folder, []).Matched? || i == |old(calls)| || ps == old(calls)[i].list
    {
      CachedEqualsFresh(calls, folder, ps);
      calls := calls + [ParseCall(folder, ps)];
      assert calls[..|calls| - 1] == old(calls);
      if folder == "base" {
        return Matched(ps);
      }
      if folder in caches {
        return Matched(caches[folder]);
      }
      var keyParts := Split(folder, '-');
      r := ParseMatch(keyParts, ps);
      if r.Matched? {
        caches := caches[folder := r.ps];
      }
    }
  }
}
