/** Numbers as the C library's conversions accept them: white space, a sign if any, and digits. */
module Numerals {
  import opened Sequences
  import opened Decimal

  datatype Numeral = Numeral(blanks: string, sign: string, digits: string)

  predicate AreDigits(s: string) {
    forall i :: 0 <= i < |s| ==> IsDigit(s[i])
  }

  predicate IsNumeral(n: Numeral) {
    && (forall i :: 0 <= i < |n.blanks| ==> IsSpace(n.blanks[i]))
    && (n.sign == "" || n.sign == "-" || n.sign == "+")
    && n.digits != "" && AreDigits(n.digits)
  }

  function Text(n: Numeral): string {
    n.blanks + (n.sign + n.digits)
  }

  /** Digits by their places. */
  function ValueOf(digits: string): nat
    requires AreDigits(digits)
  {
    if digits == "" then 0
    else ValueOf(digits[..|digits| - 1]) * 10 + DigitValue(digits[|digits| - 1])
  }

  function Signed(n: Numeral): int
    requires IsNumeral(n)
  {
    if n.sign == "-" then -(ValueOf(n.digits) as int) else ValueOf(n.digits)
  }

  /** What follows a number does not go on with digits. */
  predicate Ends(rest: string) {
    rest == "" || !IsDigit(rest[0])
  }

  lemma {:induction false} SkipsBlanks(blanks: string, rest: string)
    requires forall i :: 0 <= i < |blanks| ==> IsSpace(blanks[i])
    requires rest == "" || !IsSpace(rest[0])
    ensures SkipSpace(blanks + rest) == rest
  {
    if blanks == "" {
      assert blanks + rest == rest;
    } else {
      assert (blanks + rest)[1..] == blanks[1..] + rest;
      SkipsBlanks(blanks[1..], rest);
    }
  }

  lemma {:induction false} FirstDigitOf(digits: string, value: nat)
    requires digits != "" && AreDigits(digits)
    ensures ReadOn(value, digits) == ReadOn(value * 10 + DigitValue(digits[0]), digits[1..])
  {
    var n := |digits| - 1;
    if n > 0 {
      FirstDigitOf(digits[..n], value);
      assert digits[..n][1..] == digits[1..][..n - 1];
      assert digits[1..][n - 1] == digits[n];
    }
  }

  /** Digits read on from a value. */
  function ReadOn(value: nat, digits: string): nat
    requires AreDigits(digits)
  {
    if digits == "" then value
    else ReadOn(value, digits[..|digits| - 1]) * 10 + DigitValue(digits[|digits| - 1])
  }

  lemma {:induction false} ReadFromZero(digits: string)
    requires AreDigits(digits)
    ensures ReadOn(0, digits) == ValueOf(digits)
  {
    if digits != "" {
      ReadFromZero(digits[..|digits| - 1]);
    }
  }

  lemma {:induction false} DigitsAreRead(value: nat, digits: string, rest: string)
    requires AreDigits(digits) && Ends(rest)
    ensures ScanDigits(value, digits + rest) == (ReadOn(value, digits), rest)
    decreases |digits|
  {
    hide ReadOn;
    if digits == "" {
      assert digits + rest == rest;
      NothingIsRead(value);
    } else {
      assert (digits + rest)[1..] == digits[1..] + rest;
      DigitsAreRead(value * 10 + DigitValue(digits[0]), digits[1..], rest);
      FirstDigitOf(digits, value);
    }
  }

  lemma NothingIsRead(value: nat)
    ensures ReadOn(value, "") == value
  {
  }

  lemma NumberIsRead(digits: string, rest: string)
    requires AreDigits(digits) && Ends(rest)
    ensures ScanDigits(0, digits + rest) == (ValueOf(digits), rest)
  {
    DigitsAreRead(0, digits, rest);
    ReadFromZero(digits);
  }

  /** The blanks in front of a text. */
  lemma {:induction false} BlanksOf(text: string) returns (blanks: string)
    ensures text == blanks + SkipSpace(text)
    ensures forall i :: 0 <= i < |blanks| ==> IsSpace(blanks[i])
    ensures var rest := SkipSpace(text); rest == "" || !IsSpace(rest[0])
    decreases |text|
  {
    if text != "" && IsSpace(text[0]) {
      var more := BlanksOf(text[1..]);
      blanks := [text[0]] + more;
    } else {
      blanks := "";
    }
  }

  /** The digits in front of a text. */
  lemma {:induction false} DigitsOf(text: string) returns (digits: string, rest: string)
    ensures text == digits + rest && AreDigits(digits) && Ends(rest)
    ensures text != "" && IsDigit(text[0]) ==> digits != ""
    decreases |text|
  {
    if text != "" && IsDigit(text[0]) {
      digits, rest := DigitsOf(text[1..]);
      digits := [text[0]] + digits;
    } else {
      digits, rest := "", text;
    }
  }

  /** What follows a sign, if there is one. */
  function AfterSign(t: string): string {
    if t != "" && (t[0] == '-' || t[0] == '+') then t[1..] else t
  }

  /** A number at the beginning of a text. */
  predicate StartsWithNumber(text: string) {
    var digits := AfterSign(SkipSpace(text));
    digits != "" && IsDigit(digits[0])
  }

  /** The sign in front of a text. */
  lemma SignOf(t: string) returns (sign: string)
    ensures t == sign + AfterSign(t) && (sign == "" || sign == "-" || sign == "+")
  {
    sign := if t != "" && (t[0] == '-' || t[0] == '+') then [t[0]] else "";
  }

  lemma NumeralOf(text: string) returns (n: Numeral, rest: string)
    requires StartsWithNumber(text)
    ensures IsNumeral(n) && Ends(rest) && text == Text(n) + rest
  {
    hide SkipSpace, AreDigits;
    var blanks := BlanksOf(text);
    var t := SkipSpace(text);
    var sign := SignOf(t);
    var digits, after := DigitsOf(AfterSign(t));
    n, rest := Numeral(blanks, sign, digits), after;
    Regrouped(blanks, sign, digits, after);
  }

  lemma Regrouped(a: string, b: string, c: string, d: string)
    ensures a + (b + (c + d)) == (a + (b + c)) + d
  {
  }

  /** After its blanks, a numeral's sign and digits are what is scanned. */
  lemma NumeralIsScanned(n: Numeral, rest: string)
    requires IsNumeral(n) && Ends(rest)
    ensures SkipSpace(Text(n) + rest) == n.sign + (n.digits + rest)
    ensures ScanDigits(0, n.digits + rest) == (ValueOf(n.digits), rest)
    ensures n.sign != "" ==> (n.sign + (n.digits + rest))[1..] == n.digits + rest
    ensures n.sign == "" ==> n.sign + (n.digits + rest) == n.digits + rest
  {
    hide ScanDigits, ValueOf;
    var after := n.sign + (n.digits + rest);
    assert Text(n) + rest == n.blanks + after;
    SkipsBlanks(n.blanks, after);
    NumberIsRead(n.digits, rest);
  }
}
