/**
 * JavaScript's global `parseInt(string)` with the radix omitted, as
 * ECMAScript defines it: leading white space is skipped, one sign is read,
 * a "0x"/"0X" prefix switches to base 16, and the longest run of digits of
 * that base is read. No digit at all gives NaN, written here as None.
 */
module JsParse {
  import opened Wrappers
  import opened Strings

  /** StrWhiteSpaceChar: the white space and line terminators parseInt skips. */
  predicate IsJsSpace(c: char)
  {
    || c == '\t' || c == '\n' || c == '\U{000B}' || c == '\U{000C}' || c == '\r' || c == ' '
    || c == '\U{00A0}' || c == '\U{1680}' || '\U{2000}' <= c <= '\U{200A}'
    || c == '\U{2028}' || c == '\U{2029}' || c == '\U{202F}' || c == '\U{205F}'
    || c == '\U{3000}' || c == '\U{FEFF}'
  }

  /** The string without its leading white space. */
  function TrimStart(s: string): string
  {
    if s != [] && IsJsSpace(s[0]) then TrimStart(s[1..]) else s
  }

  /** TrimStart drops a run of white space from the front, and only that. */
  lemma {:induction false} TrimStartDropsLeadingSpace(s: string)
    ensures |TrimStart(s)| <= |s| && TrimStart(s) == s[|s| - |TrimStart(s)|..]
    ensures forall i :: 0 <= i < |s| - |TrimStart(s)| ==> IsJsSpace(s[i])
    ensures TrimStart(s) == [] || !IsJsSpace(TrimStart(s)[0])
  {
    if s != [] && IsJsSpace(s[0]) {
      TrimStartDropsLeadingSpace(s[1..]);
      forall i | 0 <= i < |s| - |TrimStart(s)| ensures IsJsSpace(s[i]) {
        if i > 0 {
          assert s[i] == s[1..][i - 1];
        }
      }
    }
  }

  /** A digit of base `radix`, which is 10 or 16. */
  predicate IsRadixDigit(c: char, radix: nat)
  {
    IsDigit(c) || (radix == 16 && ('a' <= c <= 'f' || 'A' <= c <= 'F'))
  }

  function RadixDigitValue(c: char, radix: nat): (d: nat)
    requires IsRadixDigit(c, radix)
    ensures d < 16
  {
    if IsDigit(c) then DigitValue(c)
    else if 'a' <= c <= 'f' then c as int - 'a' as int + 10
    else c as int - 'A' as int + 10
  }

  /** The longest prefix of `s` made of digits of base `radix`. */
  function LeadingDigits(s: string, radix: nat): (z: string)
    ensures z <= s
    ensures forall i :: 0 <= i < |z| ==> IsRadixDigit(z[i], radix)
    ensures z == s || !IsRadixDigit(s[|z|], radix)
  {
    if s != [] && IsRadixDigit(s[0], radix) then [s[0]] + LeadingDigits(s[1..], radix) else []
  }

  /** The number a run of digits of base `radix` denotes, most significant digit first. */
  function DigitsValue(z: string, radix: nat): nat
    requires forall i :: 0 <= i < |z| ==> IsRadixDigit(z[i], radix)
  {
    if z == [] then 0
    else DigitsValue(z[..|z| - 1], radix) * radix + RadixDigitValue(z[|z| - 1], radix)
  }

  function ParseInt(s: string): Option<int>
  {
    var t := TrimStart(s);
    var negative := t != [] && t[0] == '-';
    var u := if t != [] && (t[0] == '-' || t[0] == '+') then t[1..] else t;
    var hex := |u| >= 2 && u[0] == '0' && (u[1] == 'x' || u[1] == 'X');
    var radix := if hex then 16 else 10;
    var z := LeadingDigits(if hex then u[2..] else u, radix);
    if z == [] then None
    else
      var n: int := DigitsValue(z, radix);
      Some(if negative then -n else n)
  }

  /** A string made only of decimal digits is read whole, in base 10. */
  lemma {:induction false} LeadingDigitsOfDigits(s: string)
    requires forall i :: 0 <= i < |s| ==> IsDigit(s[i])
    ensures LeadingDigits(s, 10) == s
  {
    if s != [] {
      LeadingDigitsOfDigits(s[1..]);
    }
  }

  /** The value of a run of digits grows by one decimal place per digit appended. */
  lemma DigitsValueAppend(z: string, c: char)
    requires forall i :: 0 <= i < |z| ==> IsDigit(z[i])
    requires IsDigit(c)
    ensures DigitsValue(z + [c], 10) == 10 * DigitsValue(z, 10) + DigitValue(c)
  {
    assert (z + [c])[..|z|] == z;
  }

  /** Four decimal digits denote their decimal value. */
  lemma FourDigitsValue(s: string)
    requires |s| == 4 && forall i :: 0 <= i < 4 ==> IsDigit(s[i])
    ensures DigitsValue(s, 10) ==
      1000 * DigitValue(s[0]) + 100 * DigitValue(s[1]) + 10 * DigitValue(s[2]) + DigitValue(s[3])
  {
    var a, b, c := DigitValue(s[0]), DigitValue(s[1]), DigitValue(s[2]);
    assert DigitsValue(s[..1], 10) == a by {
      DigitsValueAppend([], s[0]);
      assert [] + [s[0]] == s[..1];
    }
    assert DigitsValue(s[..2], 10) == 10 * a + b by {
      DigitsValueAppend(s[..1], s[1]);
      assert s[..1] + [s[1]] == s[..2];
    }
    assert DigitsValue(s[..3], 10) == 100 * a + 10 * b + c by {
      DigitsValueAppend(s[..2], s[2]);
      assert s[..2] + [s[2]] == s[..3];
    }
    DigitsValueAppend(s[..3], s[3]);
    assert s[..3] + [s[3]] == s;
  }

  /** parseInt of four decimal digits is their decimal value. */
  lemma ParseIntFourDigits(s: string)
    requires |s| == 4 && forall i :: 0 <= i < 4 ==> IsDigit(s[i])
    ensures ParseInt(s) ==
      Some(1000 * DigitValue(s[0]) + 100 * DigitValue(s[1]) + 10 * DigitValue(s[2]) + DigitValue(s[3]))
  {
    assert TrimStart(s) == s;
    LeadingDigitsOfDigits(s);
    FourDigitsValue(s);
  }
}
