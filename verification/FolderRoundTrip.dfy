/**
 A folder's name against the limit key printed from its key params, which is what a built resource table is sorted by:
 for which names the printed key parses to the same params again.
 */
module FolderRoundTrips {
  import opened Bytes
  import opened ResourceData
  import opened KeyParsers
  import opened LimitKeys
  import opened FolderNames
  import Decimal

  // A script and a pointing device are printed as numbers, and a code without its leading zeros.
  predicate Printable(p: Part)
    requires Sound(p)
  {
    match p
    case Mcc(d) => Number(d) >= 100
    case MccMnc(d, e) => Number(d) >= 100 && Number(e) >= 10
    case LanguageScript(_, _) => false
    case LanguageScriptRegion(_, _, _) => false
    case Word(w) => w != "pointingdevice"
    case _ => true
  }

  // What a part is printed as, between the dashes: two texts where a script is.
  function Keys(p: Part): (keys: seq<string>)
    requires Sound(p)
  {
    match p
    case Nothing => []
    case Mcc(d) => ["mcc" + Decimal.ToString(Number(d))]
    case MccMnc(d, e) => ["mcc" + Decimal.ToString(Number(d)) + ['_'] + ("mnc" + Decimal.ToString(Number(e)))]
    case Language(l) => [l]
    case LanguageScript(l, s) => [l, Decimal.ToString(Letters(s))]
    case LanguageRegion(l, r) => [l + ['_'] + r]
    case LanguageScriptRegion(l, s, r) => [l, Decimal.ToString(Letters(s)) + ['_'] + r]
    case Word(w) => if w == "pointingdevice" then ["0"] else [w]
  }

  ghost predicate AllSound(parts: seq<Part>) { forall i :: 0 <= i < |parts| ==> Sound(parts[i]) }

  ghost function AllKeys(parts: seq<Part>): seq<string>
    requires AllSound(parts)
  {
    if parts == [] then [] else Keys(parts[0]) + AllKeys(parts[1..])
  }

  // Each text behind a dash.
  function Dashed(keys: seq<string>): string {
    if keys == [] then "" else ['-'] + keys[0] + Dashed(keys[1..])
  }

  // ------------------------------------------------------------ what is printed

  lemma DashedOne(a: string)
    ensures Dashed([a]) == ['-'] + a
  {
    assert [a][1..] == [] && Dashed([]) == "";
  }

  lemma DashedTwo(a: string, b: string)
    ensures Dashed([a, b]) == ['-'] + a + (['-'] + b)
  {
    assert [a, b][1..] == [b];
    DashedOne(b);
  }

  lemma {:induction false} DashedBoth(a: seq<string>, b: seq<string>)
    ensures Dashed(a + b) == Dashed(a) + Dashed(b)
  {
    if a == [] {
      assert a + b == b && Dashed(a) == "";
    } else {
      assert (a + b)[1..] == a[1..] + b;
      DashedBoth(a[1..], b);
    }
  }

  lemma {:induction false} DashedIsJoin(keys: seq<string>)
    requires keys != []
    ensures Dashed(keys) == ['-'] + Join(keys, '-')
  {
    if |keys| == 1 {
      assert keys == [keys[0]];
      DashedOne(keys[0]);
    } else {
      DashedIsJoin(keys[1..]);
    }
  }

  lemma LocalePieces(s: string)
    ensures IsLanguage(s) || IsScript(s) || IsRegion(s) ==> 2 <= |s| <= 4 && Ascii(s)
    ensures IsLanguage(s) ==> Piece(KeyParam(LANGUAGE, Letters(s))) == ['-'] + s
    ensures IsRegion(s) ==> Piece(KeyParam(REGION, Letters(s))) == ['_'] + s
    ensures IsScript(s) ==> Piece(KeyParam(SCRIPT, Letters(s))) == ['-'] + Decimal.ToString(Letters(s))
  {
    hide IsLanguage, IsScript, IsRegion, Letters, LocaleText, Decimal.ToString;
    LocaleLeaf(s);
    if IsLanguage(s) || IsRegion(s) { LocaleBack(s); }
  }

  lemma LocaleBack(s: string)
    requires 2 <= |s| <= 4 && Ascii(s)
    ensures LocaleText(Letters(s), 4) == s
  {
    LettersPacked(s);
    hide Letters, LocaleText, Packed;
    LocaleRoundTrip(s, 4);
  }

  lemma CodePieces(n: uint32)
    ensures Piece(KeyParam(MCC, n)) == ['-'] + ("mcc" + Decimal.ToString(n))
    ensures Piece(KeyParam(MNC, n)) == ['_'] + ("mnc" + Decimal.ToString(n))
  {
    hide Decimal.ToString;
  }

  lemma WordPiece(w: string)
    requires WordParam(w).Some?
    ensures Piece(WordParam(w).value) == ['-'] + if w == "pointingdevice" then "0" else w
  {
    assert Decimal.ToString(0) == "0";
  }

  lemma OnePrints(ps: seq<KeyParam>, a: KeyParam, t: string)
    requires Piece(a) == ['-'] + t
    ensures Pieces(ps + [a]) == Pieces(ps) + Dashed([t])
  {
    hide *;
    PiecesOne(ps, a);
    DashedOne(t);
  }

  lemma TwoPrint(ps: seq<KeyParam>, a: KeyParam, b: KeyParam, t: string, u: string)
    requires Piece(a) == ['-'] + t
    ensures Piece(b) == ['_'] + u ==> Pieces(ps + [a, b]) == Pieces(ps) + Dashed([t + ['_'] + u])
    ensures Piece(b) == ['-'] + u ==> Pieces(ps + [a, b]) == Pieces(ps) + Dashed([t, u])
  {
    hide *;
    PiecesTwo(ps, a, b);
    DashedOne(t + ['_'] + u);
    DashedTwo(t, u);
    assert ['-'] + t + (['_'] + u) == ['-'] + (t + ['_'] + u);
    Associate(Pieces(ps), Piece(a), Piece(b));
  }

  lemma ThreePrint(ps: seq<KeyParam>, a: KeyParam, b: KeyParam, c: KeyParam, t: string, u: string, v: string)
    requires Piece(a) == ['-'] + t && Piece(b) == ['-'] + u && Piece(c) == ['_'] + v
    ensures Pieces(ps + [a, b, c]) == Pieces(ps) + Dashed([t, u + ['_'] + v])
  {
    hide *;
    PiecesTwo(ps, a, b);
    PiecesOne(ps + [a, b], c);
    DashedTwo(t, u + ['_'] + v);
    assert ps + [a, b, c] == (ps + [a, b]) + [c];
    assert ['-'] + u + (['_'] + v) == ['-'] + (u + ['_'] + v);
    Associate(Pieces(ps), Piece(a), Piece(b));
    Associate(Pieces(ps), Piece(a) + Piece(b), Piece(c));
    Associate(Piece(a), Piece(b), Piece(c));
  }

  // A part adds its texts, each behind a dash.
  lemma PartPrints(ps: seq<KeyParam>, p: Part)
    requires Sound(p)
    ensures Pieces(ps + Meaning(p)) == Pieces(ps) + Dashed(Keys(p))
  {
    hide Pieces, Piece, Dashed, Letters, Number, WordParam, IsLanguage, IsScript, IsRegion, Decimal.ToString;
    match p
    case Nothing => NothingPrints(ps);
    case Mcc(d) =>
      CodePieces(Number(d));
      OnePrints(ps, Meaning(p)[0], Keys(p)[0]);
    case MccMnc(d, e) =>
      CodePieces(Number(d));
      CodePieces(Number(e));
      TwoPrint(ps, Meaning(p)[0], Meaning(p)[1],
               "mcc" + Decimal.ToString(Number(d)), "mnc" + Decimal.ToString(Number(e)));
    case Language(l) =>
      LocalePieces(l);
      OnePrints(ps, Meaning(p)[0], l);
    case LanguageScript(l, s) =>
      LocalePieces(l);
      LocalePieces(s);
      TwoPrint(ps, Meaning(p)[0], Meaning(p)[1], l, Keys(p)[1]);
    case LanguageRegion(l, r) =>
      LocalePieces(l);
      LocalePieces(r);
      TwoPrint(ps, Meaning(p)[0], Meaning(p)[1], l, r);
    case LanguageScriptRegion(l, s, r) =>
      LocalePieces(l);
      LocalePieces(s);
      LocalePieces(r);
      ThreePrint(ps, Meaning(p)[0], Meaning(p)[1], Meaning(p)[2], l, Decimal.ToString(Letters(s)), r);
    case Word(w) =>
      WordPiece(w);
      OnePrints(ps, Meaning(p)[0], Keys(p)[0]);
  }

  lemma NothingPrints(ps: seq<KeyParam>)
    ensures Pieces(ps + Meaning(Nothing)) == Pieces(ps) + Dashed(Keys(Nothing))
  {
    assert ps + [] == ps;
  }

  lemma {:induction false} PartsPrint(ps: seq<KeyParam>, parts: seq<Part>)
    requires AllSound(parts)
    ensures Pieces(ps + Meanings(parts)) == Pieces(ps) + Dashed(AllKeys(parts))
    decreases |parts|
  {
    hide *;
    if parts == [] {
      NoPartsPrint(ps);
    } else {
      var p, rest := parts[0], parts[1..];
      AllStep(parts);
      PartPrints(ps, p);
      PartsPrint(ps + Meaning(p), rest);
      DashedBoth(Keys(p), AllKeys(rest));
      Associate(ps, Meaning(p), Meanings(rest));
      Associate(Pieces(ps), Dashed(Keys(p)), Dashed(AllKeys(rest)));
    }
  }

  lemma NoPartsPrint(ps: seq<KeyParam>)
    ensures AllSound([]) && Pieces(ps + Meanings([])) == Pieces(ps) + Dashed(AllKeys([]))
  {
    assert ps + [] == ps;
  }

  lemma AllStep(parts: seq<Part>)
    requires AllSound(parts) && parts != []
    ensures Sound(parts[0]) && AllSound(parts[1..])
    ensures forall i :: 0 <= i < |parts| ==> Sound(parts[i])
    ensures forall i :: 0 <= i < |parts[1..]| ==> Sound(parts[1..][i])
    ensures AllKeys(parts) == Keys(parts[0]) + AllKeys(parts[1..])
    ensures Meanings(parts) == Meaning(parts[0]) + Meanings(parts[1..])
  {
    hide Sound, Keys, Meaning;
  }

  // ------------------------------------------------------------ what the printed texts split into

  lemma DigitsClean(n: nat)
    ensures '-' !in Decimal.ToString(n) && '_' !in Decimal.ToString(n) && '0' <= Decimal.ToString(n)[0] <= '9'
  {
    hide Decimal.ToString;
  }

  lemma KeysClean(p: Part)
    requires Sound(p)
    ensures forall i :: 0 <= i < |Keys(p)| ==> '-' !in Keys(p)[i] && Keys(p)[i] != "" && Keys(p)[i] != "base"
  {
    hide Letters, Number, WordParam, IsLanguage, IsScript, IsRegion, Decimal.ToString;
    match p
    case Nothing =>
    case Mcc(d) => DigitsClean(Number(d)); NotBase("mcc", Decimal.ToString(Number(d)));
    case MccMnc(d, e) =>
      DigitsClean(Number(d));
      DigitsClean(Number(e));
      assert Keys(p)[0][0] == 'm';
    case Language(l) => LocaleLeaf(l); ShortLanguage(l);
    case LanguageScript(l, s) => LocaleLeaf(l); ShortLanguage(l); LocaleLeaf(s); DigitsClean(Letters(s));
    case LanguageRegion(l, r) => LocaleLeaf(l); LocaleLeaf(r); assert Keys(p)[0][|l|] == '_';
    case LanguageScriptRegion(l, s, r) =>
      LocaleLeaf(l);
      ShortLanguage(l);
      LocaleLeaf(s);
      LocaleLeaf(r);
      DigitsClean(Letters(s));
      assert Keys(p)[1][0] == Decimal.ToString(Letters(s))[0];
    case Word(w) => WordClean(w);
  }

  lemma ShortLanguage(l: string)
    requires IsLanguage(l)
    ensures 2 <= |l| <= 3
  {
  }

  lemma {:induction false} AllClean(parts: seq<Part>)
    requires AllSound(parts)
    ensures forall i :: 0 <= i < |AllKeys(parts)| ==>
      '-' !in AllKeys(parts)[i] && AllKeys(parts)[i] != "" && AllKeys(parts)[i] != "base"
  {
    hide Keys, Sound;
    if parts != [] {
      AllStep(parts);
      KeysClean(parts[0]);
      AllClean(parts[1..]);
    }
  }

  // The printed key, and the texts between its dashes; without any param it is "base".
  lemma PrintedParts(parts: seq<Part>)
    requires AllSound(parts)
    ensures forall i :: 0 <= i < |parts| ==> Sound(parts[i])
    ensures AllKeys(parts) == [] <==> Meanings(parts) == []
    ensures AllKeys(parts) != [] ==>
      Printed(Meanings(parts)) != "base" && Parts(Printed(Meanings(parts)), '-') == AllKeys(parts)
  {
    hide *;
    MeaningsNone(parts);
    var keys := AllKeys(parts);
    if keys != [] {
      PrintedJoin(parts);
      AllClean(parts);
      SplitJoin(keys, '-');
      JoinNotBase(keys);
    }
  }

  lemma PrintedJoin(parts: seq<Part>)
    requires AllSound(parts) && AllKeys(parts) != []
    ensures forall i :: 0 <= i < |parts| ==> Sound(parts[i])
    ensures Printed(Meanings(parts)) == Join(AllKeys(parts), '-')
  {
    PartsPrint([], parts);
    MeaningsNone(parts);
    hide Sound, AllKeys, Meanings, Join;
    var keys, ps := AllKeys(parts), Meanings(parts);
    assert [] + ps == ps && Pieces([]) == "";
    hide Pieces, Dashed;
    DashedIsJoin(keys);
    assert "" + Dashed(keys) == Dashed(keys) && (['-'] + Join(keys, '-'))[1..] == Join(keys, '-');
  }

  lemma JoinNotBase(keys: seq<string>)
    requires keys != [] && Parts(Join(keys, '-'), '-') == keys && keys[0] != "base"
    ensures Join(keys, '-') != "base"
  {
    OnePartBase();
    hide Parts, Join;
  }

  lemma {:induction false} MeaningsNone(parts: seq<Part>)
    requires AllSound(parts)
    ensures forall i :: 0 <= i < |parts| ==> Sound(parts[i])
    ensures AllKeys(parts) == [] <==> Meanings(parts) == []
  {
    hide Sound, Keys, Meaning;
    if parts != [] {
      AllStep(parts);
      MeaningsNone(parts[1..]);
      MeaningNone(parts[0]);
    }
  }

  lemma MeaningNone(p: Part)
    requires Sound(p)
    ensures Keys(p) == [] <==> Meaning(p) == []
  {
    hide Letters, Number, Decimal.ToString;
  }

  // ------------------------------------------------------------ texts that read as before

  // The part that a printable part's text names.
  function Again(p: Part): Part
    requires Sound(p)
  {
    match p
    case Mcc(d) => Mcc(Decimal.ToString(Number(d)))
    case MccMnc(d, e) => MccMnc(Decimal.ToString(Number(d)), Decimal.ToString(Number(e)))
    case _ => p
  }

  lemma NumberAgain(n: nat, tag: string)
    requires (tag == "mcc" && 100 <= n <= 999) || (tag == "mnc" && 10 <= n <= 999)
    ensures var d := Decimal.ToString(n); 2 <= |d| <= 3 && (tag == "mcc" ==> |d| == 3) && IsNumber(d) && Number(d) == n
  {
    Decimal.DigitCounts(n);
    Decimal.AtoiToString(n);
    hide Decimal.ToString;
    NumberIs(Decimal.ToString(n));
    hide Number;
  }

  lemma NumberSmall(d: string)
    requires 2 <= |d| <= 3 && IsNumber(d)
    ensures Number(d) <= 999 && (|d| == 2 ==> Number(d) <= 99)
  {
  }

  lemma PrintableAgain(p: Part)
    requires Sound(p) && Printable(p) && !p.Nothing?
    ensures Sound(Again(p)) && Meaning(Again(p)) == Meaning(p)
    ensures FirstPlace(Again(p)) == FirstPlace(p) && LastPlace(Again(p)) == LastPlace(p)
    ensures |Keys(p)| == 1 && Names(Keys(p)[0], Again(p))
  {
    hide Letters, Number, WordParam, Decimal.ToString;
    match p
    case Mcc(d) =>
      NumberSmall(d);
      NumberAgain(Number(d), "mcc");
    case MccMnc(d, e) =>
      NumberSmall(d);
      NumberSmall(e);
      NumberAgain(Number(d), "mcc");
      NumberAgain(Number(e), "mnc");
      assert Keys(p)[0] == PartText(Again(p));
    case _ =>
  }

  // ------------------------------------------------------------ texts that do not read at all

  ghost predicate Unread(t: string) { forall q :: Sound(q) ==> !Names(t, q) }

  lemma DigitUnread(t: string)
    requires t != "" && '0' <= t[0] <= '9'
    ensures Unread(t)
  {
    hide Sound, Names;
    forall q | Sound(q) ensures !Names(t, q) {
      if Names(t, q) { StartsWithLetter(t, q); }
    }
  }

  lemma StartsWithLetter(t: string, q: Part)
    requires Sound(q) && Names(t, q) && t != ""
    ensures 'a' <= t[0] <= 'z'
  {
    hide WordParam, IsLanguage, IsScript, IsRegion;
    match q
    case Nothing =>
    case Mcc(_) =>
    case MccMnc(_, _) =>
    case Word(w) => WordStart(w);
    case _ => LocaleStart(q);
  }

  lemma WordStart(w: string)
    requires WordParam(w).Some?
    ensures w != "" && 'a' <= w[0] <= 'z' && (w[0] == 'm' ==> w == "mdpi")
  {
  }

  lemma LocaleStart(q: Part)
    requires Sound(q) && !q.Nothing? && !q.Mcc? && !q.MccMnc? && !q.Word?
    ensures 2 <= |q.l| <= 3 && |PartText(q)| >= |q.l| && PartText(q)[..|q.l|] == q.l && IsLanguage(q.l)
    ensures 'a' <= PartText(q)[0] <= 'z'
  {
    assert PartText(q)[0] == q.l[0];
  }

  // A code whose number has too few digits.
  lemma CodeUnread(a: string, b: seq<string>)
    requires |b| <= 1 && '_' !in a && |a| > 3 && a[..3] == "mcc" && (forall i :: 3 <= i < |a| ==> '0' <= a[i] <= '9')
    requires |b| == 1 ==> '_' !in b[0] && |b[0]| > 3 && b[0][..3] == "mnc"
    requires |a| != 6 || (|b| == 1 && |b[0]| < 5)
    ensures Unread(Join([a] + b, '_'))
  {
    var t := Join([a] + b, '_');
    SplitJoin([a] + b, '_');
    forall q | Sound(q) ensures !Names(t, q) {
      if Names(t, q) {
        NamedParts(t, q);
        PieceUnread(a, b, q);
      }
    }
  }

  lemma PieceUnread(a: string, b: seq<string>, q: Part)
    requires Sound(q) && |b| <= 1 && |a| > 3 && a[..3] == "mcc" && (forall i :: 3 <= i < |a| ==> '0' <= a[i] <= '9')
    requires |b| == 1 ==> |b[0]| > 3 && b[0][..3] == "mnc"
    requires |a| != 6 || (|b| == 1 && |b[0]| < 5)
    ensures PartPieces(q) != [a] + b
  {
    hide WordParam;
    assert a[0] == a[..3][0] == 'm' && '0' <= a[3] <= '9';
    var both := [a] + b;
    assert both[0] == a && (|b| == 1 ==> both[1] == b[0]);
    match q
    case Mcc(d) => assert |"mcc" + d| == 6;
    case MccMnc(d, e) => assert |"mcc" + d| == 6 && |"mnc" + e| >= 5;
    case Word(w) => WordStart(w);
    case _ =>
  }

  lemma SmallNumbers(n: nat)
    ensures n < 100 ==> |Decimal.ToString(n)| < 3
    ensures n < 10 ==> |Decimal.ToString(n)| == 1
    ensures 100 <= n <= 999 ==> |Decimal.ToString(n)| == 3
  {
    Decimal.DigitCounts(n);
  }

  lemma CodeText(tag: string, n: nat)
    requires tag == "mcc" || tag == "mnc"
    ensures var t := tag + Decimal.ToString(n);
      '_' !in t && |t| > 3 && t[..3] == tag && forall i :: 3 <= i < |t| ==> '0' <= t[i] <= '9'
  {
    DigitsClean(n);
    hide Decimal.ToString;
    var t := tag + Decimal.ToString(n);
    forall i | 3 <= i < |t| ensures '0' <= t[i] <= '9' { assert t[i] == Decimal.ToString(n)[i - 3]; }
  }

  lemma UnprintableUnread(p: Part)
    requires Sound(p) && !Printable(p)
    ensures exists i :: 0 <= i < |Keys(p)| && Unread(Keys(p)[i])
  {
    hide Letters, Number, WordParam, Decimal.ToString, Unread;
    match p
    case Mcc(d) =>
      var a := "mcc" + Decimal.ToString(Number(d));
      SmallNumbers(Number(d));
      CodeText("mcc", Number(d));
      JoinOfTwo([a]);
      CodeUnread(a, []);
      assert [a] + [] == [a] && Unread(Keys(p)[0]);
    case MccMnc(d, e) =>
      var a, b := "mcc" + Decimal.ToString(Number(d)), "mnc" + Decimal.ToString(Number(e));
      SmallNumbers(Number(d));
      SmallNumbers(Number(e));
      CodeText("mcc", Number(d));
      CodeText("mnc", Number(e));
      JoinOfTwo([a, b]);
      CodeUnread(a, [b]);
      assert [a] + [b] == [a, b] && Unread(Keys(p)[0]);
    case LanguageScript(l, s) =>
      DigitsClean(Letters(s));
      DigitUnread(Keys(p)[1]);
    case LanguageScriptRegion(l, s, r) =>
      DigitsClean(Letters(s));
      assert Keys(p)[1][0] == Decimal.ToString(Letters(s))[0];
      DigitUnread(Keys(p)[1]);
    case Word(w) =>
      DigitUnread(Keys(p)[0]);
  }

  // ------------------------------------------------------------ whole names

  ghost predicate AllPrintable(parts: seq<Part>)
    requires AllSound(parts)
  {
    forall i :: 0 <= i < |parts| ==> Printable(parts[i])
  }

  // The parts in their order.
  ghost predicate Ordered(parts: seq<Part>)
    requires AllSound(parts)
  {
    forall i, j :: 0 <= i < j < |parts| ==> FirstPlace(parts[i]) <= LastPlace(parts[j])
  }

  lemma {:induction false} ReadAgain(parts: seq<Part>, next: nat) returns (again: seq<Part>)
    requires AllSound(parts) && AllPrintable(parts) && Ordered(parts) && NotBefore(parts, next)
    ensures Reads(AllKeys(parts), again) && NotBefore(again, next) && Meanings(again) == Meanings(parts)
  {
    hide *;
    again := [];
    if parts == [] {
      NoneAgain(next);
    } else {
      var p, rest := parts[0], parts[1..];
      AllStep(parts);
      OrderedStep(parts, next);
      var i := if next < FirstPlace(p) then FirstPlace(p) else next;
      var more := ReadAgain(rest, i);
      if p.Nothing? {
        NothingAgain(p, more, next);
        assert [] + AllKeys(rest) == AllKeys(rest) && [] + Meanings(rest) == Meanings(rest);
        again := more;
      } else {
        PrintableAgain(p);
        ReadsMore(Keys(p)[0], Again(p), AllKeys(rest), more, next);
        assert [Keys(p)[0]] == Keys(p);
        again := [Again(p)] + more;
        ReadsIs(AllKeys(rest), more);
        MeaningsMore(Again(p), more);
      }
    }
  }

  lemma NoneAgain(next: nat)
    ensures AllSound([]) && Reads(AllKeys([]), []) && NotBefore([], next) && Meanings([]) == []
  {
  }

  lemma NothingAgain(p: Part, more: seq<Part>, next: nat)
    requires Sound(p) && p.Nothing? && NotBefore(more, if next < FirstPlace(p) then FirstPlace(p) else next)
    ensures NotBefore(more, next) && Keys(p) == [] && Meaning(p) == []
  {
  }

  lemma MeaningsMore(p: Part, parts: seq<Part>)
    requires Sound(p) && forall i :: 0 <= i < |parts| ==> Sound(parts[i])
    ensures AllSound([p] + parts) && forall i :: 0 <= i < |[p] + parts| ==> Sound(([p] + parts)[i])
    ensures Meanings([p] + parts) == Meaning(p) + Meanings(parts)
  {
    hide Sound, Meaning;
    assert ([p] + parts)[1..] == parts;
  }

  lemma OrderedStep(parts: seq<Part>, next: nat)
    requires AllSound(parts) && parts != [] && AllPrintable(parts) && Ordered(parts) && NotBefore(parts, next)
    ensures AllSound(parts[1..]) && Sound(parts[0]) && Printable(parts[0]) && next <= LastPlace(parts[0])
    ensures AllPrintable(parts[1..]) && Ordered(parts[1..])
    ensures NotBefore(parts[1..], if next < FirstPlace(parts[0]) then FirstPlace(parts[0]) else next)
  {
    hide Sound, Printable, FirstPlace, LastPlace;
  }

  lemma {:induction false} UnreadKey(parts: seq<Part>, i: nat) returns (k: nat)
    requires AllSound(parts) && i < |parts| && !Printable(parts[i])
    ensures k < |AllKeys(parts)| && Unread(AllKeys(parts)[k])
  {
    hide Sound, Printable, Keys, Unread;
    AllStep(parts);
    if i == 0 {
      UnprintableUnread(parts[0]);
      k :| 0 <= k < |Keys(parts[0])| && Unread(Keys(parts[0])[k]);
    } else {
      k := UnreadKey(parts[1..], i - 1);
      k := |Keys(parts[0])| + k;
    }
  }

  lemma UnreadFails(keys: seq<string>, k: nat, parts: seq<Part>)
    requires k < |keys| && Unread(keys[k])
    ensures !Reads(keys, parts)
  {
    hide Sound, Names, FirstPlace, LastPlace;
    if k < |parts| { assert Sound(parts[k]) ==> !Names(keys[k], parts[k]); }
  }

  lemma ReadsSound(keys: seq<string>, parts: seq<Part>)
    requires Reads(keys, parts)
    ensures AllSound(parts) && Ordered(parts) && NotBefore(parts, 0)
  {
    hide Sound, Names, FirstPlace, LastPlace;
  }

  /**
   The limit key printed from a folder's params parses to the same params exactly if no part of the name holds a script,
   a pointing device, a country code below 100 or a network code below 10; with any of those it does not parse at all.
   */
  lemma KeyComesBack(folder: string, parts: seq<Part>)
    requires folder != "base" && Reads(Parts(folder, '-'), parts)
    ensures forall i :: 0 <= i < |parts| ==> Sound(parts[i])
    ensures FreshParse(folder, []) == Matched(Meanings(parts))
    ensures var again := FreshParse(Printed(Meanings(parts)), []);
      && (again.Matched? <==> forall i :: 0 <= i < |parts| ==> Printable(parts[i]))
      && (again.Matched? ==> again == FreshParse(folder, []))
  {
    hide *;
    ReadsSound(Parts(folder, '-'), parts);
    ReadsIs(Parts(folder, '-'), parts);
    PrintableIs(parts);
    FolderMeans(folder, [], parts);
    PrintedParts(parts);
    var ms, keys := Meanings(parts), AllKeys(parts);
    assert [] + ms == ms;
    if AllPrintable(parts) {
      var more := ReadAgain(parts, 0);
      if keys == [] {
        BaseAgain(ms);
      } else {
        FolderMeans(Printed(ms), [], more);
      }
    } else {
      var i := NotPrintable(parts);
      var k := UnreadKey(parts, i);
      FolderReads(Printed(ms), []);
      forall more ensures !Reads(keys, more) { UnreadFails(keys, k, more); }
    }
  }

  /** "zh_Hans" is a folder's name, but the key printed from its params is none. */
  lemma ZhHans()
    ensures FreshParse("zh_Hans", []).Matched? && !FreshParse(Printed(FreshParse("zh_Hans", []).ps), []).Matched?
  {
    var p := LanguageScript("zh", "Hans");
    assert Sound(p) && !Printable(p) && PartText(p) == "zh_Hans";
    hide *;
    OneReads(p);
    KeyComesBack("zh_Hans", [p]);
    assert [p][0] == p;
  }

  lemma OneReads(p: Part)
    requires Sound(p) && PartText(p) != "" && '-' !in PartText(p)
    ensures Reads(Parts(PartText(p), '-'), [p])
  {
    hide Sound, PartText, Parts;
    SplitJoin([PartText(p)], '-');
    assert Join([PartText(p)], '-') == PartText(p);
  }

  lemma PrintableIs(parts: seq<Part>)
    requires AllSound(parts)
    ensures AllPrintable(parts) <==> forall i :: 0 <= i < |parts| ==> Printable(parts[i])
  {
    hide Printable, Sound;
  }

  lemma NotPrintable(parts: seq<Part>) returns (i: nat)
    requires AllSound(parts) && !AllPrintable(parts)
    ensures i < |parts| && !Printable(parts[i])
  {
    hide Printable, Sound;
    i :| 0 <= i < |parts| && !Printable(parts[i]);
  }

  lemma BaseAgain(ms: seq<KeyParam>)
    requires ms == []
    ensures FreshParse(Printed(ms), []) == Matched(ms)
  {
  }
}
