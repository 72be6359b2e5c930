/** ASCII character classes and decimal numerals. */
module Texts {
  import opened Machine

  predicate IsDigit(c: char) {
    '0' <= c <= '9'
  }

  predicate IsAlpha(c: char) {
    'a' <= c <= 'z' || 'A' <= c <= 'Z'
  }

  predicate IsAlnum(c: char) {
    IsAlpha(c) || IsDigit(c)
  }

  /** The ASCII part of Unicode's White_Space. */
  predicate IsSpace(c: char) {
    c == ' ' || '\t' <= c <= '\r'
  }

  function ToUpper(c: char): char {
    if 'a' <= c <= 'z' then c - 'a' + 'A' else c
  }

  function Upper(s: string): (r: string)
    ensures |r| == |s|
  {
    if s == "" then "" else [ToUpper(s[0])] + Upper(s[1..])
  }

  lemma {:induction false} UpperAt(s: string)
    ensures forall i :: 0 <= i < |s| ==> Upper(s)[i] == ToUpper(s[i])
  {
    if s != "" {
      UpperAt(s[1..]);
      forall i | 0 <= i < |s| ensures Upper(s)[i] == ToUpper(s[i]) {
        assert i > 0 ==> Upper(s)[i] == Upper(s[1..])[i - 1];
      }
    }
  }

  predicate AllDigits(s: string) {
    forall i :: 0 <= i < |s| ==> IsDigit(s[i])
  }

  /** The number a digit string denotes. */
  function Digits(s: string): nat
    requires AllDigits(s)
  {
    if s == "" then 0 else 10 * Digits(s[..|s| - 1]) + (s[|s| - 1] - '0') as nat
  }

  /** A number's decimal digits, without leading zeros. */
  function Decimal(n: nat): (s: string)
    ensures s != "" && AllDigits(s)
  {
    if n < 10 then ['0' + n as char] else Decimal(n / 10) + ['0' + (n % 10) as char]
  }

  lemma {:induction false} DecimalRoundTrip(n: nat)
    ensures Digits(Decimal(n)) == n
  {
    if n >= 10 {
      DecimalRoundTrip(n / 10);
      var s := Decimal(n / 10);
      assert Decimal(n)[..|s|] == s;
    } else {
      assert Decimal(n)[..0] == "";
    }
  }

  function SignedDecimal(n: int): string {
    if n < 0 then "-" + Decimal(-n) else Decimal(n)
  }

  /** str::parse for an integer type: an optional sign (a minus only where negatives exist), digits, and a range. */
  function ParseInteger(s: string, lo: int, hi: int): Option<int> {
    var negative := s != "" && s[0] == '-' && lo < 0;
    var digits := if s != "" && (s[0] == '+' || negative) then s[1..] else s;
    if digits == "" || !AllDigits(digits) then None
    else
      var n: int := if negative then 0 - Digits(digits) else Digits(digits);
      if lo <= n <= hi then Some(n) else None
  }

  lemma IntegerRoundTrip(n: int, lo: int, hi: int)
    requires lo <= n <= hi
    ensures ParseInteger(SignedDecimal(n), lo, hi) == Some(n)
  {
    DecimalRoundTrip(Abs(n));
    var s := Decimal(Abs(n));
    assert ("-" + s)[1..] == s;
    assert IsDigit(s[0]);
  }

  // ---------------------------------------------------------------- runs of characters

  /** The length of the longest prefix whose characters all satisfy a predicate. */
  function PrefixLength(p: char -> bool, s: string): (n: nat)
    ensures n <= |s| && (forall i :: 0 <= i < n ==> p(s[i]))
    ensures n < |s| ==> !p(s[n])
  {
    if s != "" && p(s[0]) then 1 + PrefixLength(p, s[1..]) else 0
  }

  /** Those two facts say exactly what the length is. */
  lemma {:induction false} PrefixLengthUnique(p: char -> bool, s: string, n: nat)
    requires n <= |s| && forall i :: 0 <= i < n ==> p(s[i])
    requires n < |s| ==> !p(s[n])
    ensures PrefixLength(p, s) == n
  {
    if n > 0 {
      PrefixLengthUnique(p, s[1..], n - 1);
    }
  }

  predicate Blank(s: string) {
    forall i :: 0 <= i < |s| ==> IsSpace(s[i])
  }

  function TrimEnd(s: string): (r: string)
    ensures r <= s && Blank(s[|r|..])
    ensures r == "" || !IsSpace(r[|r| - 1])
  {
    if s != "" && IsSpace(s[|s| - 1]) then
      var r := TrimEnd(s[..|s| - 1]);
      assert s == s[..|s| - 1] + [s[|s| - 1]];
      r
    else s
  }

  // ---------------------------------------------------------------- quoted text

  /** A text with every quote doubled, as a literal of that quote writes it. */
  function Doubled(quote: char, s: string): string {
    if s == "" then ""
    else (if s[0] == quote then [quote, quote] else [s[0]]) + Doubled(quote, s[1..])
  }

  function Quoted(quote: char, s: string): string {
    [quote] + (Doubled(quote, s) + [quote])
  }
}
