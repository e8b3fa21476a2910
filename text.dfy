/**
 * String helpers the components rely on: ECMAScript `String.prototype.trim`,
 * the blank-name test `s.trim() !== ''`, and the decimal rendering of integers
 * that template literals (`${n}`) perform, together with a parser that undoes it.
 */
module Text {

  /** The ECMAScript WhiteSpace and LineTerminator code points, which `trim` strips. */
  const Whitespace: set<char> :=
    {'\t', '\n', '\U{000B}', '\U{000C}', '\r', ' ', '\U{00A0}', '\U{1680}',
     '\U{2000}', '\U{2001}', '\U{2002}', '\U{2003}', '\U{2004}', '\U{2005}', '\U{2006}',
     '\U{2007}', '\U{2008}', '\U{2009}', '\U{200A}',
     '\U{2028}', '\U{2029}', '\U{202F}', '\U{205F}', '\U{3000}', '\U{FEFF}'}

  /*
   * Trimming is defined for any set `ws` of characters to strip and then used
   * with `Whitespace`: none of its properties depends on which characters those are.
   */

  /** Every character of `s` is in `ws`. */
  predicate AllIn(s: string, ws: set<char>) {
    forall i :: 0 <= i < |s| ==> s[i] in ws
  }

  /** `s.trim() === ''`: every character of `s` is whitespace. */
  predicate IsBlank(s: string) {
    AllIn(s, Whitespace)
  }

  /** Where the text starts once the characters in `ws` from position `i` on are dropped. */
  function TrimStartFrom(s: string, ws: set<char>, i: nat): (a: nat)
    requires i <= |s|
    ensures i <= a <= |s| && (a == |s| || s[a] !in ws)
    ensures forall k :: i <= k < a ==> s[k] in ws
    decreases |s| - i
  {
    if i < |s| && s[i] in ws then TrimStartFrom(s, ws, i + 1) else i
  }

  /** Where the text ends once the characters in `ws` before position `j`, down to `a`, are dropped. */
  function TrimEndFrom(s: string, ws: set<char>, a: nat, j: nat): (b: nat)
    requires a <= j <= |s|
    ensures a <= b <= j && (b == a || s[b - 1] !in ws)
    ensures forall k :: b <= k < j ==> s[k] in ws
    decreases j
  {
    if j > a && s[j - 1] in ws then TrimEndFrom(s, ws, a, j - 1) else j
  }

  /**
   * Strips the characters in `ws` from both ends: what is left neither starts
   * nor ends with one of them, and is empty exactly when all of `s` was.
   */
  function TrimWith(s: string, ws: set<char>): (r: string)
    ensures r == [] || (r[0] !in ws && r[|r| - 1] !in ws)
    ensures r == [] <==> AllIn(s, ws)
  {
    var a := TrimStartFrom(s, ws, 0);
    var b := TrimEndFrom(s, ws, a, |s|);
    assert b > a ==> s[a] !in ws;
    s[a..b]
  }

  /** ECMAScript `s.trim()`. */
  function Trim(s: string): string {
    TrimWith(s, Whitespace)
  }

  /** The trimmed text is a piece of `s` with only stripped characters around it. */
  lemma TrimIsPiece(s: string, ws: set<char>)
    ensures var r := TrimWith(s, ws);
            exists a, b :: 0 <= a <= b <= |s| && r == s[a..b]
                           && (forall k :: 0 <= k < a ==> s[k] in ws)
                           && (forall k :: b <= k < |s| ==> s[k] in ws)
  {
    var a := TrimStartFrom(s, ws, 0);
    var b := TrimEndFrom(s, ws, a, |s|);
    assert TrimWith(s, ws) == s[a..b];
  }

  /** Trimming twice is trimming once. */
  lemma TrimIdempotent(s: string, ws: set<char>)
    ensures TrimWith(TrimWith(s, ws), ws) == TrimWith(s, ws)
  {
    var r := TrimWith(s, ws);
    if r != [] {
      assert TrimStartFrom(r, ws, 0) == 0;
      assert TrimEndFrom(r, ws, 0, |r|) == |r|;
      assert r[0..|r|] == r;
    }
  }

  /** `s.trim() === ''` holds exactly for the blank texts. */
  lemma TrimEmptyIffBlank(s: string)
    ensures Trim(s) == [] <==> IsBlank(s)
  {
  }

  predicate IsDigit(c: char) {
    '0' <= c <= '9'
  }

  predicate AllDigits(s: string) {
    forall i :: 0 <= i < |s| ==> IsDigit(s[i])
  }

  function DigitChar(d: nat): (c: char)
    requires d < 10
    ensures IsDigit(c) && c as int - '0' as int == d
  {
    ['0', '1', '2', '3', '4', '5', '6', '7', '8', '9'][d]
  }

  /** The decimal rendering of a natural number, as `${n}` produces it. */
  function NatToString(n: nat): (r: string)
    ensures |r| >= 1 && AllDigits(r)
    ensures r[0] == '0' ==> n == 0
  {
    if n < 10 then [DigitChar(n)] else NatToString(n / 10) + [DigitChar(n % 10)]
  }

  /** The decimal rendering of an integer: a minus sign before the magnitude. */
  function IntToString(i: int): (r: string)
    ensures |r| >= 1
  {
    if i < 0 then "-" + NatToString(-i) else NatToString(i)
  }

  /** The value of a string of decimal digits. */
  function DigitsValue(s: string): nat
    requires AllDigits(s)
  {
    if s == [] then 0 else DigitsValue(s[..|s| - 1]) * 10 + (s[|s| - 1] as int - '0' as int)
  }

  /** Reading back a rendered natural number gives the number. */
  lemma {:induction false} DigitsValueOfNatToString(n: nat)
    ensures DigitsValue(NatToString(n)) == n
  {
    if n >= 10 {
      var s := NatToString(n);
      assert s[..|s| - 1] == NatToString(n / 10);
      DigitsValueOfNatToString(n / 10);
    }
  }

  /** The number of leading decimal digits of `s`. */
  function LeadingDigits(s: string): (k: nat)
    ensures k <= |s| && AllDigits(s[..k])
    ensures k < |s| ==> !IsDigit(s[k])
  {
    if |s| > 0 && IsDigit(s[0]) then
      var k := 1 + LeadingDigits(s[1..]);
      assert s[..k] == [s[0]] + s[1..][..k - 1];
      k
    else 0
  }

  /** A number rendered in front of a non-digit is read back in full. */
  lemma {:induction false} LeadingDigitsOfNumber(n: nat, rest: string)
    requires rest == [] || !IsDigit(rest[0])
    ensures LeadingDigits(NatToString(n) + rest) == |NatToString(n)|
  {
    LeadingDigitsOfAllDigits(NatToString(n), rest);
  }

  lemma {:induction false} LeadingDigitsOfAllDigits(d: string, rest: string)
    requires AllDigits(d)
    requires rest == [] || !IsDigit(rest[0])
    ensures LeadingDigits(d + rest) == |d|
  {
    if d != [] {
      assert (d + rest)[1..] == d[1..] + rest;
      LeadingDigitsOfAllDigits(d[1..], rest);
    }
  }
}
