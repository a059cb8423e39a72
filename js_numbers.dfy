/**
 * JavaScript's `parseInt(s, 10)` and the decimal rendering of a non-negative
 * integer, with the round trip between them.
 */
module JsNumbers {
  import opened Types

  predicate IsDigit(c: char) { '0' <= c <= '9' }

  predicate AllDigits(s: string) { forall i :: 0 <= i < |s| ==> IsDigit(s[i]) }

  /**
   * The white space parseInt skips before the number: ECMAScript's
   * WhiteSpace (tab, vertical tab, form feed, the byte-order mark and every
   * space separator of Unicode category Zs) and its LineTerminator.
   */
  predicate IsJsSpace(c: char) {
    c == '\t' || c == '\U{000B}' || c == '\U{000C}' || c == '\U{FEFF}'
    || IsSpaceSeparator(c)
    || c == '\n' || c == '\r' || c == '\U{2028}' || c == '\U{2029}'
  }

  /** Unicode category Zs. */
  predicate IsSpaceSeparator(c: char) {
    c == ' ' || c == '\U{00A0}' || c == '\U{1680}' || '\U{2000}' <= c <= '\U{200A}'
    || c == '\U{202F}' || c == '\U{205F}' || c == '\U{3000}'
  }

  function TrimStart(s: string): (r: string)
    ensures |r| <= |s| && r == s[|s| - |r|..]
    ensures r == [] || !IsJsSpace(r[0])
  {
    if s != [] && IsJsSpace(s[0]) then TrimStart(s[1..]) else s
  }

  /** The number of leading decimal digits of `s`. */
  function DigitPrefix(s: string): (k: nat)
    ensures k <= |s| && AllDigits(s[..k])
    ensures k < |s| ==> !IsDigit(s[k])
  {
    if s != [] && IsDigit(s[0]) then
      var k := 1 + DigitPrefix(s[1..]);
      assert s[..k] == [s[0]] + s[1..][..k - 1];
      k
    else 0
  }

  /** The value of a string of decimal digits. */
  function DigitsValue(s: string): (v: nat)
    requires AllDigits(s)
  {
    if s == [] then 0
    else DigitsValue(s[..|s| - 1]) * 10 + (s[|s| - 1] as int - '0' as int)
  }

  function ParseDigits(s: string): JsInt {
    var k := DigitPrefix(s);
    if k == 0 then NaN else Int(DigitsValue(s[..k]))
  }

  /**
   * parseInt(s, 10): skip leading white space, read an optional sign and
   * then the longest run of digits; NaN when there is none.
   */
  function ParseInt(s: string): (r: JsInt)
    ensures r == NaN <==> DigitPrefix(SignFree(TrimStart(s))) == 0
  {
    var t := TrimStart(s);
    if t != [] && t[0] == '-' then
      match ParseDigits(t[1..])
      case NaN => NaN
      case Int(n) => Int(-n)
    else ParseDigits(SignFree(t))
  }

  function SignFree(t: string): string {
    if t != [] && (t[0] == '-' || t[0] == '+') then t[1..] else t
  }

  /** The decimal rendering JavaScript's String(n) gives a non-negative integer. */
  function NatToString(n: nat): (s: string)
    ensures |s| >= 1 && AllDigits(s)
  {
    if n < 10 then [('0' as int + n) as char]
    else NatToString(n / 10) + [('0' as int + n % 10) as char]
  }

  lemma {:induction false} DigitsValueOfNatToString(n: nat)
    ensures DigitsValue(NatToString(n)) == n
  {
    if n >= 10 {
      var s := NatToString(n);
      assert s[..|s| - 1] == NatToString(n / 10);
      DigitsValueOfNatToString(n / 10);
    }
  }

  lemma {:induction false} DigitPrefixOfDigits(s: string)
    requires AllDigits(s)
    ensures DigitPrefix(s) == |s|
  {
    if s != [] {
      DigitPrefixOfDigits(s[1..]);
    }
  }

  /** A string made of digits only parses to its decimal value. */
  lemma ParseIntOfDigits(s: string)
    requires |s| >= 1 && AllDigits(s)
    ensures ParseInt(s) == Int(DigitsValue(s))
  {
    assert IsDigit(s[0]);
    assert !IsJsSpace(s[0]);
    assert TrimStart(s) == s;
    assert SignFree(s) == s;
    DigitPrefixOfDigits(s);
    assert s[..|s|] == s;
    assert ParseDigits(s) == Int(DigitsValue(s));
  }

  /** A leading white-space character does not change what parseInt reads. */
  lemma ParseIntSkipsSpace(c: char, s: string)
    requires IsJsSpace(c)
    ensures ParseInt([c] + s) == ParseInt(s)
  {
    assert ([c] + s)[1..] == s;
  }

  /** An ideographic space (U+3000) before an id's text is skipped: the id still reads back. */
  lemma ParseIntAfterIdeographicSpace(n: nat)
    ensures ParseInt(['\U{3000}'] + NatToString(n)) == Int(n)
  {
    assert IsSpaceSeparator('\U{3000}');
    ParseIntSkipsSpace('\U{3000}', NatToString(n));
    ParseIntNatToString(n);
  }

  /** parseInt undoes String(n): an id stored as text reads back as the same id. */
  lemma ParseIntNatToString(n: nat)
    ensures ParseInt(NatToString(n)) == Int(n)
  {
    ParseIntOfDigits(NatToString(n));
    DigitsValueOfNatToString(n);
  }
}
