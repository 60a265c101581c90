/** Bytes, the few ASCII codes the JSON dialect and the framing use, and decimal numerals. */
module Octets {
  datatype Option<+T> = None | Some(value: T)

  type Byte = b: int | 0 <= b < 256
  type Bytes = seq<Byte>

  const TAB: Byte := 0x09
  const LF: Byte := 0x0A
  const CR: Byte := 0x0D
  const SPACE: Byte := 0x20
  const QUOTE: Byte := 0x22
  const PLUS: Byte := 0x2B
  const COMMA: Byte := 0x2C
  const MINUS: Byte := 0x2D
  const DOT: Byte := 0x2E
  const SLASH: Byte := 0x2F
  const ZERO: Byte := 0x30
  const COLON: Byte := 0x3A
  const LBRACKET: Byte := 0x5B
  const BACKSLASH: Byte := 0x5C
  const RBRACKET: Byte := 0x5D
  const LOWER_I: Byte := 0x69
  const LOWER_U: Byte := 0x75
  const LBRACE: Byte := 0x7B
  const RBRACE: Byte := 0x7D
  const CRLF: Bytes := [CR, LF]

  predicate IsDigit(b: Byte) { 0x30 <= b <= 0x39 }

  predicate IsDigit19(b: Byte) { 0x31 <= b <= 0x39 }

  predicate AllDigits(s: Bytes) { forall i :: 0 <= i < |s| ==> IsDigit(s[i]) }

  /** What is left of a text; wrapped, so that proofs treat it as one thing. */
  datatype Rest = Rest(bytes: Bytes)

  /** From position p on, the text s reads k. */
  ghost predicate Reads(s: Bytes, p: nat, k: Rest) { p <= |s| && s[p..] == k.bytes }

  /** a followed by k. The reader's proofs see a text only through this and Reads. */
  function Then(a: Bytes, k: Rest): Rest { Rest(a + k.bytes) }

  /** A text that reads a and then k reads k after a. */
  lemma Peel(s: Bytes, p: nat, a: Bytes, k: Rest)
    requires Reads(s, p, Then(a, k))
    ensures Reads(s, p + |a|, k) && p + |a| <= |s|
    ensures forall i :: 0 <= i < |a| ==> s[p + i] == a[i]
  {
    assert |s[p..]| == |a| + |k.bytes|;
    forall i | 0 <= i < |a|
      ensures s[p + i] == a[i]
    {
      assert s[p + i] == s[p..][i] == (a + k.bytes)[i];
    }
    assert s[p + |a|..] == s[p..][|a|..] == (a + k.bytes)[|a|..] == k.bytes;
  }

  /** Peel for a single byte. */
  lemma PeelOne(s: Bytes, p: nat, c: Byte, k: Rest)
    requires Reads(s, p, Then([c], k))
    ensures p < |s| && s[p] == c && Reads(s, p + 1, k)
  {
    Peel(s, p, [c], k);
    assert s[p + 0] == c;
  }

  lemma ThenSplits(a: Bytes, b: Bytes, k: Rest)
    ensures Then(a + b, k) == Then(a, Then(b, k))
  {
    assert a + b + k.bytes == a + (b + k.bytes);
  }

  lemma ThenNothing(k: Rest)
    ensures Then([], k) == k
  {
    assert [] + k.bytes == k.bytes;
  }

  // ----- quotients -----

  lemma {:induction false} NextMultiple(a: nat, b: nat, m: nat)
    requires a < b
    ensures m * a + m <= m * b
    decreases b
  {
    assert m * b == m * (b - 1) + m;
    if a + 1 < b { NextMultiple(a, b - 1, m); }
  }

  /** The quotient and the remainder are the only ones. */
  lemma QuotientIs(n: nat, m: nat, q: nat, r: nat)
    requires r < m && n == m * q + r
    ensures n / m == q && n % m == r
  {
    var p := n / m;
    assert n == m * p + n % m;
    if p < q { NextMultiple(p, q, m); }
    if q < p { NextMultiple(q, p, m); }
  }

  // ----- decimal numerals -----

  /** The decimal numeral of n, as std::to_string prints it. */
  function Digits(n: nat): (r: Bytes)
    ensures |r| > 0 && AllDigits(r)
  {
    if n < 10 then [0x30 + n] else Digits(n / 10) + [0x30 + n % 10]
  }

  function Decimal(n: int): Bytes {
    if n < 0 then [MINUS] + Digits(-n) else Digits(n)
  }

  /** The number a run of digits denotes, most significant digit first. */
  function Numeral(s: Bytes): nat
    requires AllDigits(s)
  {
    if s == [] then 0 else Numeral(s[..|s| - 1]) * 10 + (s[|s| - 1] - 0x30)
  }

  lemma {:induction false} NumeralOfDigits(n: nat)
    ensures Numeral(Digits(n)) == n
    ensures Digits(n)[0] == ZERO <==> n == 0
    ensures n == 0 ==> Digits(n) == [ZERO]
  {
    if n >= 10 {
      NumeralOfDigits(n / 10);
      var d := Digits(n);
      assert d[..|d| - 1] == Digits(n / 10);
      assert d[0] == Digits(n / 10)[0];
    }
  }

  function Pow10(n: nat): nat { if n == 0 then 1 else 10 * Pow10(n - 1) }

  /** The digit at the place of 10^i, counted from the right, in the decimal numeral of n. */
  lemma {:induction false} DigitAt(n: nat, i: nat)
    ensures i < |Digits(n)| ==> Pow10(i) > 0 && Digits(n)[|Digits(n)| - 1 - i] == 0x30 + n / Pow10(i) % 10
    ensures i >= |Digits(n)| ==> Pow10(i) > n
  {
    if i > 0 {
      DigitAt(n / 10, i - 1);
      DividedTwice(n, 10, Pow10(i - 1));
    }
  }

  lemma DividedTwice(n: nat, a: nat, b: nat)
    requires a > 0 && b > 0
    ensures a * b > 0 && n / a / b == n / (a * b)
  {
    var d := n / a;
    Recombine(n, a, b, d, n % a, d / b, d % b);
  }

  lemma Recombine(n: nat, a: nat, b: nat, d: nat, r: nat, q: nat, t: nat)
    requires r < a && t < b && n == a * d + r && d == b * q + t
    ensures a * b > 0 && n / (a * b) == q
  {
    Distribute(a, b, q, t);
    NextMultiple(t, b, a);
    var m, rest := a * b, a * t + r;
    assert n == m * q + rest && rest < m;
    QuotientIs(n, m, q, rest);
  }

  lemma Distribute(a: nat, b: nat, q: nat, r: nat)
    ensures a * (b * q + r) == a * b * q + a * r
  {
  }

  /** Where the maximal run of digits that starts at p ends. */
  function DigitsEnd(s: Bytes, p: nat): (e: nat)
    requires p <= |s|
    ensures p <= e <= |s|
    ensures AllDigits(s[p..e])
    ensures e < |s| ==> !IsDigit(s[e])
    decreases |s| - p
  {
    if p < |s| && IsDigit(s[p]) then
      var e := DigitsEnd(s, p + 1);
      assert s[p..e] == [s[p]] + s[p + 1..e];
      e
    else p
  }

  lemma {:induction false} DigitsEndAt(s: Bytes, p: nat, e: nat)
    requires p <= e <= |s|
    requires forall i :: p <= i < e ==> IsDigit(s[i])
    requires e == |s| || !IsDigit(s[e])
    ensures DigitsEnd(s, p) == e
    decreases e - p
  {
    if p < e {
      DigitsEndAt(s, p + 1, e);
    }
  }
}
