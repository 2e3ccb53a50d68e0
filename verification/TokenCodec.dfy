/** The printed form of a session token: base64url without padding, section 5 of RFC 4648. */
module TokenCodec {
  import opened Serial

  type Sextet = n: nat | n < 64

  const TOKEN_BYTES: nat := 32
  const TOKEN_LENGTH: nat := 43

  /** The alphabet A-Z a-z 0-9 - _ at one position. */
  function Letter(n: Sextet): char {
    if n < 26 then 'A' + n as char
    else if n < 52 then 'a' + (n - 26) as char
    else if n < 62 then '0' + (n - 52) as char
    else if n == 62 then '-'
    else '_'
  }

  function Position(c: char): Sextet {
    if 'A' <= c <= 'Z' then (c - 'A') as int
    else if 'a' <= c <= 'z' then (c - 'a') as int + 26
    else if '0' <= c <= '9' then (c - '0') as int + 52
    else if c == '-' then 62
    else 63
  }

  lemma LettersAreDistinct(n: Sextet)
    ensures Position(Letter(n)) == n
  {
  }

  /** The sextets of a 24-bit value from the top, and the value of four sextets. */
  function Sextets(value: nat): seq<Sextet> {
    [value / 262144 % 64, value / 4096 % 64, value / 64 % 64, value % 64]
  }

  function Value(a: Byte, b: Byte, c: Byte): nat {
    a * 65536 + b * 256 + c
  }

  function Letters(value: nat): (text: string)
    ensures |text| == 4
  {
    var s := Sextets(value);
    [Letter(s[0]), Letter(s[1]), Letter(s[2]), Letter(s[3])]
  }

  function Regrouped(text: string): nat
    requires |text| == 4
  {
    Position(text[0]) * 262144 + Position(text[1]) * 4096 + Position(text[2]) * 64
    + Position(text[3])
  }

  lemma RegroupingInvertsLetters(value: nat)
    requires value < 16777216
    ensures Regrouped(Letters(value)) == value
  {
    hide Letter, Position;
    var s := Sextets(value);
    LettersAreDistinct(s[0]);
    LettersAreDistinct(s[1]);
    LettersAreDistinct(s[2]);
    LettersAreDistinct(s[3]);
    SextetsAddUp(value);
  }

  lemma SextetsAddUp(value: nat)
    requires value < 16777216
    ensures value / 262144 % 64 * 262144 + value / 4096 % 64 * 4096 + value / 64 % 64 * 64
            + value % 64 == value
  {
    var low, middle, high := value / 64, value / 4096, value / 262144;
    NextSextet(value, low, 64);
    NextSextet(value, middle, 4096);
    assert high < 64;
  }

  /** Dividing on by 64 splits off one sextet. */
  lemma NextSextet(value: nat, part: nat, unit: nat)
    requires unit == 64 || unit == 4096
    requires part == value / unit
    ensures part == value / (unit * 64) * 64 + part % 64
  {
    if unit == 64 {
      assert part / 64 == value / 4096;
    } else {
      assert part / 64 == value / 262144;
    }
  }

  /** Whole groups of three bytes become four letters; one or two bytes left over become two or
      three. */
  function Printed(bytes: seq<Byte>): string {
    if |bytes| >= 3 then Letters(Value(bytes[0], bytes[1], bytes[2])) + Printed(bytes[3..])
    else if |bytes| == 2 then Letters(Value(bytes[0], bytes[1], 0))[..3]
    else if |bytes| == 1 then Letters(Value(bytes[0], 0, 0))[..2]
    else ""
  }

  function Scanned(text: string): seq<Byte> {
    if |text| >= 4 then
      var value := Regrouped(text[..4]);
      [value / 65536 % 256, value / 256 % 256, value % 256] + Scanned(text[4..])
    else if |text| == 3 then
      var value := Regrouped(text + "A");
      [value / 65536 % 256, value / 256 % 256]
    else if |text| == 2 then [Regrouped(text + "AA") / 65536 % 256]
    else []
  }

  lemma ValueSplits(a: Byte, b: Byte, c: Byte)
    ensures Value(a, b, c) < 16777216
    ensures Value(a, b, c) / 65536 % 256 == a
    ensures Value(a, b, c) / 256 % 256 == b
    ensures Value(a, b, c) % 256 == c
  {
    assert Value(a, b, c) == (a * 256 + b) * 256 + c;
    assert Value(a, b, c) / 256 == a * 256 + b;
    assert Value(a, b, c) / 65536 == a;
  }

  lemma ZeroSextets(a: Byte, b: Byte)
    ensures Value(a, b, 0) % 64 == 0
    ensures Value(a, 0, 0) / 64 % 64 == 0
  {
    assert Value(a, b, 0) == 64 * (1024 * a + 4 * b);
    assert Value(a, 0, 0) / 64 == 64 * (16 * a);
  }

  lemma ZerosPrintAsA(a: Byte, b: Byte)
    ensures Letters(Value(a, b, 0))[3] == 'A'
    ensures Letters(Value(a, 0, 0))[2] == 'A'
  {
    hide Value;
    ZeroSextets(a, b);
  }

  /** No two byte strings of one length print alike: scanning gets the bytes back. */
  lemma {:induction false} ScanningInvertsPrinting(bytes: seq<Byte>)
    ensures Scanned(Printed(bytes)) == bytes
    ensures 3 * |Printed(bytes)| == 4 * |bytes| + (if |bytes| % 3 == 0 then 0
                                                   else if |bytes| % 3 == 1 then 2 else 1)
  {
    hide Letters, Value, Scanned, Printed;
    PrintedLength(bytes);
    assert bytes[0..] == bytes;
    if |bytes| >= 3 {
      GroupPrints(bytes, 0);
      GroupScans(bytes[0], bytes[1], bytes[2], Printed(bytes[3..]));
      ScanningInvertsPrinting(bytes[3..]);
      assert bytes == [bytes[0], bytes[1], bytes[2]] + bytes[3..];
    } else if |bytes| == 2 {
      LastBytesPrint(bytes, 0);
      TwoBytesScan(bytes[0], bytes[1]);
    } else if |bytes| == 1 {
      LastBytesPrint(bytes, 0);
      OneByteScans(bytes[0]);
    } else {
      LastBytesPrint(bytes, 0);
      NothingScans();
    }
  }

  lemma {:induction false} PrintedLength(bytes: seq<Byte>)
    ensures 3 * |Printed(bytes)| == 4 * |bytes| + (if |bytes| % 3 == 0 then 0
                                                   else if |bytes| % 3 == 1 then 2 else 1)
  {
    hide Letters, Value;
    if |bytes| >= 3 {
      PrintedLength(bytes[3..]);
      assert |bytes| == |bytes[3..]| + 3;
    }
  }

  lemma GroupScans(a: Byte, b: Byte, c: Byte, rest: string)
    ensures Scanned(Letters(Value(a, b, c)) + rest) == [a, b, c] + Scanned(rest)
  {
    hide Letters, Value, Regrouped;
    ValueSplits(a, b, c);
    RegroupingInvertsLetters(Value(a, b, c));
    var text := Letters(Value(a, b, c)) + rest;
    assert text[..4] == Letters(Value(a, b, c)) && text[4..] == rest;
  }

  lemma TwoBytesScan(a: Byte, b: Byte)
    ensures Scanned(Letters(Value(a, b, 0))[..3]) == [a, b]
  {
    hide Letters, Value, Regrouped;
    ValueSplits(a, b, 0);
    RegroupingInvertsLetters(Value(a, b, 0));
    ZerosPrintAsA(a, b);
    assert Letters(Value(a, b, 0))[..3] + "A" == Letters(Value(a, b, 0));
  }

  lemma OneByteScans(a: Byte)
    ensures Scanned(Letters(Value(a, 0, 0))[..2]) == [a]
  {
    hide Letters, Value, Regrouped;
    ValueSplits(a, 0, 0);
    RegroupingInvertsLetters(Value(a, 0, 0));
    ZerosPrintAsA(a, 0);
    assert Letters(Value(a, 0, 0))[..2] + "AA" == Letters(Value(a, 0, 0));
  }

  lemma NothingScans()
    ensures Scanned("") == []
  {
  }

  lemma GroupPrints(bytes: seq<Byte>, i: nat)
    requires i + 3 <= |bytes|
    ensures Printed(bytes[i..]) ==
            Letters(Value(bytes[i], bytes[i + 1], bytes[i + 2])) + Printed(bytes[i + 3..])
  {
    hide Letters, Value;
    assert bytes[i..][3..] == bytes[i + 3..];
  }

  lemma LastBytesPrint(bytes: seq<Byte>, i: nat)
    requires |bytes| - 3 < i <= |bytes|
    ensures Printed(bytes[i..]) ==
            if i == |bytes| then ""
            else if i + 1 == |bytes| then Letters(Value(bytes[i], 0, 0))[..2]
            else Letters(Value(bytes[i], bytes[i + 1], 0))[..3]
  {
    hide Letters, Value;
  }

  /** The printed form of one token's random bytes. */
  method GenerateToken(bytes: seq<Byte>) returns (token: string)
    requires |bytes| == TOKEN_BYTES
    ensures |token| == TOKEN_LENGTH
    ensures Scanned(token) == bytes
  {
    hide Letters, Value, Printed;
    token := "";
    var input := 0;
    assert bytes[0..] == bytes && "" + Printed(bytes) == Printed(bytes);
    while input + 3 <= |bytes|
      invariant 0 <= input <= |bytes|
      invariant token + Printed(bytes[input..]) == Printed(bytes)
    {
      var letters := Letters(Value(bytes[input], bytes[input + 1], bytes[input + 2]));
      GroupPrints(bytes, input);
      assert token + (letters + Printed(bytes[input + 3..]))
          == token + letters + Printed(bytes[input + 3..]);
      token := token + letters;
      input := input + 3;
    }
    LastBytesPrint(bytes, input);
    if input < |bytes| {
      if input + 1 < |bytes| {
        token := token + Letters(Value(bytes[input], bytes[input + 1], 0))[..3];
      } else {
        token := token + Letters(Value(bytes[input], 0, 0))[..2];
      }
    } else {
      assert token + "" == token;
    }
    ScanningInvertsPrinting(bytes);
  }
}
