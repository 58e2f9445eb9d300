/** Decimal text of natural numbers: to_string, atoi, and the order of such texts as strings. */
module Decimal {
  import opened Bytes
  import TextOrder

  predicate IsDigit(c: char) { '0' <= c <= '9' }

  function DigitChar(d: nat): (c: char)
    requires d < 10
    ensures IsDigit(c)
  {
    '0' + d as char
  }

  function DigitValue(c: char): (d: nat)
    requires IsDigit(c)
    ensures d < 10
  {
    (c - '0') as nat
  }

  function ToString(n: nat): (s: string)
    ensures |s| > 0 && forall i :: 0 <= i < |s| ==> IsDigit(s[i])
  {
    if n < 10 then [DigitChar(n)] else ToString(n / 10) + [DigitChar(n % 10)]
  }

  // atoi on a text of digits.
  function Atoi(s: string): nat
    requires forall i :: 0 <= i < |s| ==> IsDigit(s[i])
  {
    if s == "" then 0 else 10 * Atoi(s[..|s| - 1]) + DigitValue(s[|s| - 1])
  }

  function Pow10(k: nat): nat { if k == 0 then 1 else 10 * Pow10(k - 1) }

  lemma {:induction false} AtoiBound(s: string)
    requires forall i :: 0 <= i < |s| ==> IsDigit(s[i])
    ensures Atoi(s) < Pow10(|s|)
  {
    if s != "" { AtoiBound(s[..|s| - 1]); }
  }

  lemma {:induction false} AtoiToString(n: nat)
    ensures Atoi(ToString(n)) == n
  {
    assert DigitValue(DigitChar(n % 10)) == n % 10;
    if n >= 10 {
      AtoiToString(n / 10);
      assert ToString(n)[..|ToString(n)| - 1] == ToString(n / 10);
    } else {
      assert ToString(n)[..0] == "";
      assert Atoi("") == 0;
    }
  }

  lemma DigitCounts(n: nat)
    ensures 10 <= n < 100 ==> |ToString(n)| == 2
    ensures 100 <= n < 1000 ==> |ToString(n)| == 3
  {
  }

  // The order of such texts as strings.
  predicate Before(a: string, b: string) { TextOrder.Before(AsBytes(a), AsBytes(b)) }

  lemma BeforeLast(a: string, b: string, x: char, y: char)
    requires |a| == |b| && forall i :: 0 <= i < |a| ==> IsDigit(a[i]) && IsDigit(b[i])
    requires IsDigit(x) && IsDigit(y)
    ensures Before(a + [x], b + [y]) <==> Before(a, b) || (a == b && x < y)
  {
    hide TextOrder.Before;
    assert AsBytes(a + [x]) == AsBytes(a) + [x as int] && AsBytes(b + [y]) == AsBytes(b) + [y as int];
    TextOrder.BeforeLast(AsBytes(a), AsBytes(b), x as int, y as int);
    if AsBytes(a) == AsBytes(b) {
      forall i | 0 <= i < |a| ensures a[i] == b[i] { assert AsBytes(a)[i] == AsBytes(b)[i]; }
    }
  }

  lemma FirstDecides(a: string, b: string)
    requires a != "" && b != "" && IsDigit(a[0]) && IsDigit(b[0]) && a[0] < b[0]
    ensures Before(a, b)
  {
  }

  /** Among numbers with the same count of digits, string order is numeric order. */
  lemma {:induction false} StringOrder(m: nat, n: nat)
    requires |ToString(m)| == |ToString(n)|
    ensures Before(ToString(m), ToString(n)) <==> m < n
  {
    hide Before;
    if m < 10 {
      BeforeDiffers("");
      assert ToString(m) == "" + [DigitChar(m)] && ToString(n) == "" + [DigitChar(n)];
      BeforeLast("", "", DigitChar(m), DigitChar(n));
    } else {
      StringOrder(m / 10, n / 10);
      BeforeLast(ToString(m / 10), ToString(n / 10), DigitChar(m % 10), DigitChar(n % 10));
      if ToString(m / 10) == ToString(n / 10) {
        AtoiToString(m / 10);
        AtoiToString(n / 10);
      }
    }
  }

  /** More digits, larger number. */
  lemma {:induction false} LengthOrder(m: nat, n: nat)
    requires m <= n
    ensures |ToString(m)| <= |ToString(n)|
  {
    if n >= 10 && m >= 10 { LengthOrder(m / 10, n / 10); }
  }

  lemma BeforeDiffers(a: string)
    ensures !Before(a, a)
  {
    TextOrder.OneBefore(AsBytes(a), AsBytes(a));
  }
}
