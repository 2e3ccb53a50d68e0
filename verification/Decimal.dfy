/** Decimal text as the C library prints and scans it. */
module Decimal {

  type Digit = n: nat | n < 10

  function DigitChar(d: Digit): (c: char)
    ensures IsDigit(c) && DigitValue(c) == d
  {
    '0' + d as char
  }

  predicate IsDigit(c: char) {
    '0' <= c <= '9'
  }

  function DigitValue(c: char): Digit
    requires IsDigit(c)
  {
    (c - '0') as nat
  }

  predicate IsSpace(c: char) {
    c == ' ' || '\t' <= c <= '\r'
  }

  /** A number in decimal without leading zeros. */
  function Digits(n: nat): (s: string)
    ensures s != [] && forall i :: 0 <= i < |s| ==> IsDigit(s[i])
  {
    if n < 10 then [DigitChar(n)] else Digits(n / 10) + [DigitChar(n % 10)]
  }

  /** A number below 100 in exactly two digits. */
  function TwoDigits(n: nat): (s: string)
    requires n < 100
    ensures |s| == 2 && IsDigit(s[0]) && IsDigit(s[1])
  {
    [DigitChar(n / 10), DigitChar(n % 10)]
  }

  /** Read digits onto the value read so far; what follows them is left over. */
  function ScanDigits(value: nat, text: string): (nat, string)
    decreases |text|
  {
    if text != [] && IsDigit(text[0])
    then ScanDigits(value * 10 + DigitValue(text[0]), text[1..])
    else (value, text)
  }

  /** Scanning what was printed reads the number back and goes on after it. */
  lemma {:induction false} ScanPrinted(n: nat, rest: string)
    ensures ScanDigits(0, Digits(n) + rest) == ScanDigits(n, rest)
  {
    if n < 10 {
      assert (Digits(n) + rest)[1..] == rest;
    } else {
      var last := [DigitChar(n % 10)];
      ScanPrinted(n / 10, last + rest);
      assert Digits(n) + rest == Digits(n / 10) + (last + rest);
      assert (last + rest)[1..] == rest;
    }
  }

  lemma ScanTwoDigits(n: nat, rest: string)
    requires n < 100
    ensures ScanDigits(0, TwoDigits(n) + rest) == ScanDigits(n, rest)
  {
    var text := TwoDigits(n) + rest;
    assert text[1..][1..] == rest;
    assert text[1..][0] == TwoDigits(n)[1];
  }

  function SkipSpace(text: string): string
    decreases |text|
  {
    if text != [] && IsSpace(text[0]) then SkipSpace(text[1..]) else text
  }
}
