/** The recogniser of UTF-8 text, and the encoding it guesses for a block of bytes. */
module Utf8 {
  import opened Bytes
  import opened ResourceData

  datatype Encode = ANSI | UTF16_LE | UTF16_BE | UTF8_BOM | UTF8

  // How many bytes follow a byte at the start of a character.  0xFE and 0xFF count as starting five.
  function Following(ch: Byte): (n: nat)
    ensures n <= 5
  {
    if 0xFC <= ch <= 0xFD then 5
    else if ch >= 0xF8 then 4
    else if ch >= 0xF0 then 3
    else if ch >= 0xE0 then 2
    else 1
  }

  predicate Continues(ch: Byte) { 0x80 <= ch < 0xC0 }

  // One ASCII byte, or a leading byte and as many continuation bytes as it announces.
  predicate Character(p: Text) {
    if |p| == 1 then p[0] < 0x80
    else |p| > 1 && p[0] >= 0xC0 && |p| == 1 + Following(p[0]) && forall i :: 1 <= i < |p| ==> Continues(p[i])
  }

  /** By ranges: what may lead a group of which length.  That 0xFE and 0xFF lead groups of five is the code's. */
  lemma CharacterIs(p: Text)
    ensures Character(p) <==>
      || (|p| == 1 && p[0] <= 0x7F)
      || (2 <= |p| <= 6 && (forall i :: 1 <= i < |p| ==> 0x80 <= p[i] <= 0xBF)
          && match |p|
             case 2 => 0xC0 <= p[0] <= 0xDF
             case 3 => 0xE0 <= p[0] <= 0xEF
             case 4 => 0xF0 <= p[0] <= 0xF7
             case 5 => 0xF8 <= p[0] <= 0xFB || 0xFE <= p[0]
             case _ => 0xFC <= p[0] <= 0xFD)
  {
  }

  function Joined(parts: seq<Text>): Text {
    if parts == [] then [] else parts[0] + Joined(parts[1..])
  }

  ghost predicate Splits(data: Text) {
    exists parts: seq<Text> :: Joined(parts) == data && forall i :: 0 <= i < |parts| ==> Character(parts[i])
  }

  predicate Ascii(data: Text) { forall i :: 0 <= i < |data| ==> data[i] < 0x80 }

  // What is still to follow after one more byte, if the byte may stand there.
  function Step(n: nat, ch: Byte): Option<nat> {
    if n > 0 then if Continues(ch) then Some(n - 1) else None
    else if ch < 0x80 then Some(0)
    else if ch < 0xC0 then None
    else Some(Following(ch))
  }

  function Scan(n: nat, data: Text): Option<nat>
    decreases |data|
  {
    if data == [] then Some(n)
    else match Step(n, data[0])
      case None => None
      case Some(m) => Scan(m, data[1..])
  }

  // A mask test on a byte is a test of its quotient by the mask's lowest bit.
  method IsUtf8Data(data: Text) returns (encode: Encode)
    ensures encode == Recognised(data)
  {
    var bAnsi := true;
    var nBytes: nat := 0;
    assert data[0..] == data;
    for i := 0 to |data|
      invariant bAnsi <==> Ascii(data[..i])
      invariant Scan(0, data) == Scan(nBytes, data[i..])
    {
      var ch := data[i];
      assert data[i..][0] == ch && data[i..][1..] == data[i + 1..];
      assert Ascii(data[..i + 1]) <==> Ascii(data[..i]) && ch < 0x80 by {
        assert data[..i + 1] == data[..i] + [ch] && data[..i + 1][i] == ch;
      }
      if ch / 0x80 != 0 {
        bAnsi := false;
      }
      if nBytes == 0 {
        if ch < 0x80 {
          continue;
        }
        if ch >= 0xFC && ch <= 0xFD {
          nBytes := 6;
        } else if ch >= 0xF8 {
          nBytes := 5;
        } else if ch >= 0xF0 {
          nBytes := 4;
        } else if ch >= 0xE0 {
          nBytes := 3;
        } else if ch >= 0xC0 {
          nBytes := 2;
        } else {
          return ANSI;
        }
        nBytes := nBytes - 1;
      } else {
        if ch / 0x40 != 2 {
          return ANSI;
        }
        nBytes := nBytes - 1;
      }
    }
    assert data[..|data|] == data && data[|data|..] == [];
    if nBytes > 0 || bAnsi {
      return ANSI;
    }
    return UTF8;
  }

  lemma {:induction false} ScanContinuations(n: nat, c: Text, rest: Text)
    requires |c| == n && forall i :: 0 <= i < n ==> Continues(c[i])
    ensures Scan(n, c + rest) == Scan(0, rest)
  {
    if n == 0 {
      assert c + rest == rest;
    } else {
      assert (c + rest)[0] == c[0] && (c + rest)[1..] == c[1..] + rest;
      ScanContinuations(n - 1, c[1..], rest);
    }
  }

  lemma ScanCharacter(p: Text, rest: Text)
    requires Character(p)
    ensures Scan(0, p + rest) == Scan(0, rest)
  {
    assert (p + rest)[0] == p[0] && (p + rest)[1..] == p[1..] + rest;
    if |p| == 1 {
      assert p[1..] + rest == rest;
    } else {
      ScanContinuations(|p| - 1, p[1..], rest);
    }
  }

  lemma {:induction false} ScanJoined(parts: seq<Text>)
    requires forall i :: 0 <= i < |parts| ==> Character(parts[i])
    ensures Scan(0, Joined(parts)) == Some(0)
  {
    if parts != [] {
      ScanJoined(parts[1..]);
      ScanCharacter(parts[0], Joined(parts[1..]));
    }
  }

  lemma OneAnnounced(n: nat, data: Text)
    requires n > 0 && Scan(n, data) == Some(0)
    ensures data != [] && Continues(data[0]) && Scan(n - 1, data[1..]) == Some(0)
  {
  }

  lemma {:induction false} Announced(n: nat, data: Text)
    requires Scan(n, data) == Some(0)
    ensures n <= |data| && (forall i :: 0 <= i < n ==> Continues(data[i])) && Scan(0, data[n..]) == Some(0)
    decreases n
  {
    hide *;
    if n == 0 {
      assert data[0..] == data;
    } else {
      OneAnnounced(n, data);
      var rest := data[1..];
      assert data == [data[0]] + rest;
      Announced(n - 1, rest);
      assert rest[n - 1..] == data[n..];
    }
  }

  lemma {:induction false} SplitScanned(data: Text) returns (parts: seq<Text>)
    requires Scan(0, data) == Some(0)
    ensures Joined(parts) == data && forall i :: 0 <= i < |parts| ==> Character(parts[i])
    decreases |data|
  {
    if data == [] {
      parts := [];
    } else {
      var n := 1 + if data[0] < 0x80 then 0 else Following(data[0]);
      Announced(n - 1, data[1..]);
      assert data[1..][n - 1..] == data[n..];
      var p := data[..n];
      assert Character(p) by {
        forall i | 1 <= i < n ensures Continues(p[i]) { assert p[i] == data[1..][i - 1]; }
      }
      var rest := SplitScanned(data[n..]);
      parts := [p] + rest;
      assert parts[1..] == rest && p + data[n..] == data;
    }
  }

  /** The answer is UTF8 exactly if the bytes split into characters, not all of them ASCII. */
  lemma RecognisesCharacters(data: Text)
    ensures Scan(0, data) == Some(0) <==> Splits(data)
  {
    if Scan(0, data) == Some(0) {
      var parts := SplitScanned(data);
    }
    if Splits(data) {
      var parts: seq<Text> :| Joined(parts) == data && forall i :: 0 <= i < |parts| ==> Character(parts[i]);
      ScanJoined(parts);
    }
  }

  // ------------------------------------------------------------ encoded text

  // Section 3 of RFC 3629: code points but surrogates, and their octets.
  predicate Scalar(c: nat) { c < 0xD800 || 0xE000 <= c < 0x11_0000 }

  function Octets(c: nat): (p: Text)
    requires Scalar(c)
  {
    if c < 0x80 then [c]
    else if c < 0x800 then [0xC0 + c / 0x40, 0x80 + c % 0x40]
    else if c < 0x1_0000 then [0xE0 + c / 0x1000, 0x80 + c / 0x40 % 0x40, 0x80 + c % 0x40]
    else [0xF0 + c / 0x4_0000, 0x80 + c / 0x1000 % 0x40, 0x80 + c / 0x40 % 0x40, 0x80 + c % 0x40]
  }

  // The code point of a group of octets, by the table in that section: six bits from each continuation.
  function Decoded(p: Text): int
    requires 1 <= |p| <= 4
  {
    match |p|
    case 1 => p[0]
    case 2 => (p[0] as int - 0xC0) * 0x40 + (p[1] as int - 0x80)
    case 3 => (p[0] as int - 0xE0) * 0x1000 + (p[1] as int - 0x80) * 0x40 + (p[2] as int - 0x80)
    case _ => (p[0] as int - 0xF0) * 0x4_0000 + (p[1] as int - 0x80) * 0x1000 + (p[2] as int - 0x80) * 0x40
              + (p[3] as int - 0x80)
  }

  lemma Bits(c: nat)
    ensures c == c / 0x40 * 0x40 + c % 0x40
    ensures c == c / 0x1000 * 0x1000 + c / 0x40 % 0x40 * 0x40 + c % 0x40
    ensures c == c / 0x4_0000 * 0x4_0000 + c / 0x1000 % 0x40 * 0x1000 + c / 0x40 % 0x40 * 0x40 + c % 0x40
  {
    assert c / 0x40 / 0x40 == c / 0x1000 && c / 0x1000 / 0x40 == c / 0x4_0000;
  }

  /** The octets give their code point back, and are as many as its range says. */
  lemma OctetsDecode(c: nat)
    requires Scalar(c)
    ensures |Octets(c)| == if c <= 0x7F then 1 else if c <= 0x7FF then 2 else if c <= 0xFFFF then 3 else 4
    ensures Decoded(Octets(c)) == c
  {
    Bits(c);
  }

  predicate Scalars(text: seq<nat>) { forall i :: 0 <= i < |text| ==> Scalar(text[i]) }

  function Encoded(text: seq<nat>): Text
    requires Scalars(text)
  {
    if text == [] then [] else Octets(text[0]) + Encoded(text[1..])
  }

  lemma OctetsAre(c: nat)
    requires Scalar(c)
    ensures Character(Octets(c)) && (Ascii(Octets(c)) <==> c < 0x80)
    ensures |Octets(c)| >= 1 && Octets(c)[0] < 0xF8
  {
    if c >= 0x80 { assert Octets(c)[0] >= 0x80; }
  }

  lemma AsciiConcat(a: Text, b: Text)
    ensures Ascii(a + b) <==> Ascii(a) && Ascii(b)
  {
    if Ascii(a + b) {
      assert forall i :: 0 <= i < |a| ==> a[i] == (a + b)[i];
      assert forall i :: 0 <= i < |b| ==> b[i] == (a + b)[|a| + i];
    }
  }

  /** Encoded text is recognised, as UTF8 exactly if some character is not ASCII. */
  lemma {:induction false} EncodedRecognised(text: seq<nat>)
    requires Scalars(text)
    ensures Scan(0, Encoded(text)) == Some(0)
    ensures Ascii(Encoded(text)) <==> forall i :: 0 <= i < |text| ==> text[i] < 0x80
  {
    if text != [] {
      EncodedRecognised(text[1..]);
      OctetsAre(text[0]);
      ScanCharacter(Octets(text[0]), Encoded(text[1..]));
      AsciiConcat(Octets(text[0]), Encoded(text[1..]));
      hide Octets, Scan;
      assert text == [text[0]] + text[1..];
    }
  }

  // ------------------------------------------------------------ the guess

  function Recognised(data: Text): Encode {
    if Scan(0, data) == Some(0) && !Ascii(data) then UTF8 else ANSI
  }

  function Detected(data: Text): Encode {
    if |data| > 2 && data[..2] == [0xFF, 0xFE] then UTF16_LE
    else if |data| > 2 && data[..2] == [0xFE, 0xFF] then UTF16_BE
    else if |data| > 3 && data[..3] == [0xEF, 0xBB, 0xBF] then UTF8_BOM
    else Recognised(data)
  }

  method DetectEncode(data: Text) returns (encode: Encode)
    ensures encode == Detected(data)
    ensures encode == UTF16_LE <==> |data| > 2 && data[0] == 0xFF && data[1] == 0xFE
    ensures encode == UTF16_BE <==> |data| > 2 && data[0] == 0xFE && data[1] == 0xFF
    ensures encode == UTF8_BOM <==> |data| > 3 && data[0] == 0xEF && data[1] == 0xBB && data[2] == 0xBF
    ensures encode == UTF8 ==> Scan(0, data) == Some(0) && !Ascii(data)
    ensures encode == ANSI ==> !(Scan(0, data) == Some(0) && !Ascii(data))
  {
    var size := |data|;
    if size > 2 && data[0] == 0xFF && data[1] == 0xFE {
      assert data[..2] == [0xFF, 0xFE];
      return UTF16_LE;
    } else if size > 2 && data[0] == 0xFE && data[1] == 0xFF {
      assert data[..2] == [0xFE, 0xFF];
      return UTF16_BE;
    } else if size > 3 && data[0] == 0xEF && data[1] == 0xBB && data[2] == 0xBF {
      assert data[..3] == [0xEF, 0xBB, 0xBF];
      return UTF8_BOM;
    } else {
      assert size > 2 ==> data[..2] == [data[0], data[1]];
      assert size > 3 ==> data[..3] == [data[0], data[1], data[2]];
      encode := IsUtf8Data(data);
    }
  }

  lemma MarkOctets(c: nat, rest: Text)
    requires Scalar(c) && |Octets(c) + rest| > 3
    ensures (Octets(c) + rest)[..3] == [0xEF, 0xBB, 0xBF] <==> c == 0xFEFF
  {
    var b := Octets(c) + rest;
    assert b[..3] == [b[0], b[1], b[2]];
    if c < 0x1_0000 && c >= 0x800 {
      assert Octets(c) == [b[0], b[1], b[2]];
      assert c == (b[0] as int - 0xE0) * 0x1000 + (b[1] as int - 0x80) * 0x40 + (b[2] as int - 0x80);
    }
  }

  lemma NotWide(data: Text)
    requires data != [] && data[0] < 0xF8
    ensures Detected(data) == if |data| > 3 && data[..3] == [0xEF, 0xBB, 0xBF] then UTF8_BOM else Recognised(data)
  {
    assert |data| > 2 ==> data[..2][0] == data[0];
    hide Recognised;
  }

  lemma FirstOctets(text: seq<nat>)
    requires Scalars(text) && text != []
    ensures Encoded(text) != [] && Encoded(text)[0] < 0xF8
    ensures |Encoded(text)| > 3 ==> (Encoded(text)[..3] == [0xEF, 0xBB, 0xBF] <==> text[0] == 0xFEFF)
    ensures text[0] == 0xFEFF ==> (|Encoded(text)| > 3 <==> |text| > 1)
  {
    var first, rest := Octets(text[0]), Encoded(text[1..]);
    OctetsAre(text[0]);
    assert Encoded(text) == first + rest;
    if |text| > 1 { OctetsAre(text[1]); }
    assert |rest| > 0 <==> |text| > 1;
    if |first + rest| > 3 { MarkOctets(text[0], rest); }
  }

  /**
   Encoded text with a character outside ASCII is guessed to be UTF-8, never UTF-16: with a byte order
   mark exactly if its first character is the mark and anything follows.
   */
  lemma {:induction false} EncodedDetected(text: seq<nat>)
    requires Scalars(text) && exists i :: 0 <= i < |text| && text[i] >= 0x80
    ensures Detected(Encoded(text)) == if text[0] == 0xFEFF && |text| > 1 then UTF8_BOM else UTF8
  {
    hide *;
    EncodedRecognised(text);
    FirstOctets(text);
    NotWide(Encoded(text));
    RecognisedIs(Encoded(text));
  }

  lemma RecognisedIs(data: Text)
    ensures Recognised(data) == if Scan(0, data) == Some(0) && !Ascii(data) then UTF8 else ANSI
  {
    hide Scan, Ascii;
  }
}
