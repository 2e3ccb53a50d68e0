/** Which lines of the chat history are records, and of what. */
module RecordGrammar {
  import opened Sequences
  import opened Decimal
  import opened Numerals
  import opened ChatRecord
  import opened ChatIntake

  /** A hexadecimal digit of either case. */
  predicate IsHexDigit(c: char, n: nat) {
    if n < 10 then c as int == '0' as int + n
    else n < 16 && (c as int == 'a' as int + n - 10 || c as int == 'A' as int + n - 10)
  }

  /** Two digits for each byte, the high one first. */
  ghost predicate IsHexOf(text: string, bytes: string) {
    && |text| == 2 * |bytes|
    && forall i: nat :: i < |bytes| ==> IsPair(text[2 * i], text[2 * i + 1], bytes[i])
  }

  predicate IsPair(high: char, low: char, byte: char) {
    && byte as int < 256
    && IsHexDigit(high, byte as int / 16) && IsHexDigit(low, byte as int % 16)
  }

  lemma DigitHasItsValue(c: char, n: nat)
    ensures HexValue(c) == n <==> IsHexDigit(c, n)
  {
  }

  lemma PairIsDecoded(high: char, low: char, byte: char)
    ensures IsPair(high, low, byte) <==>
              HexValue(high) >= 0 && HexValue(low) >= 0
              && byte == (HexValue(high) * 16 + HexValue(low)) as char
  {
    hide HexValue, IsHexDigit;
    if HexValue(high) >= 0 && HexValue(low) >= 0 {
      DigitHasItsValue(high, HexValue(high));
      DigitHasItsValue(low, HexValue(low));
      TwoDigits(HexValue(high), HexValue(low));
    }
    DigitHasItsValue(high, byte as int / 16);
    DigitHasItsValue(low, byte as int % 16);
  }

  lemma TwoDigits(high: nat, low: nat)
    requires high < 16 && low < 16
    ensures (high * 16 + low) / 16 == high && (high * 16 + low) % 16 == low
    ensures high * 16 + low < 256
  {
  }

  lemma {:induction false} DecodedExactlyWhen(text: string, bytes: string)
    ensures HexDecoded(text) == Some(bytes) <==> IsHexOf(text, bytes)
  {
    hide HexValue, IsPair;
    if |text| >= 2 && bytes != "" {
      var n, k := |text| - 2, |bytes| - 1;
      DecodedExactlyWhen(text[..n], bytes[..k]);
      PairIsDecoded(text[n], text[n + 1], bytes[k]);
      LastPair(text, bytes);
      assert bytes == bytes[..k] + [bytes[k]];
    }
  }

  lemma LastPair(text: string, bytes: string)
    requires |text| >= 2 && bytes != ""
    ensures var n, k := |text| - 2, |bytes| - 1;
            IsHexOf(text, bytes) <==>
              IsHexOf(text[..n], bytes[..k]) && IsPair(text[n], text[n + 1], bytes[k])
  {
    hide IsPair;
    var n, k := |text| - 2, |bytes| - 1;
    if |text| == 2 * |bytes| {
      assert n == 2 * k;
      forall i: nat | i < k
        ensures text[..n][2 * i] == text[2 * i] && text[..n][2 * i + 1] == text[2 * i + 1]
      {
      }
    }
  }

  // ----- fields -----

  ghost predicate AreFields(f: seq<string>, n: nat, line: string) {
    && |f| == n + 1 && line == Joined(f)
    && forall i :: 0 <= i < |f| ==> '|' !in f[i]
  }

  lemma {:induction false} CutIsBefore(text: string)
    ensures CutField(text).Some? ==>
              var (first, rest) := CutField(text).value;
              '|' !in first && text == first + "|" + rest
  {
    if text != "" && text[0] != '|' {
      CutIsBefore(text[1..]);
    }
  }

  lemma {:induction false} FieldsExactlyWhen(line: string, n: nat, f: seq<string>)
    ensures Fields(line, n) == Some(f) <==> AreFields(f, n, line)
    decreases n
  {
    if AreFields(f, n, line) {
      SplittingInvertsJoining(f);
    }
    if Fields(line, n) == Some(f) && n > 0 {
      CutIsBefore(line);
      var (first, rest) := CutField(line).value;
      FieldsExactlyWhen(rest, n - 1, f[1..]);
      assert f == [first] + f[1..];
    }
  }

  // ----- records -----

  /** A numeral for the value, which is within the limit. */
  ghost predicate IsNumberOf(text: string, limit: nat, value: nat) {
    value <= limit && exists n :: IsNumeral(n) && text == Text(n) && value == Converted(n)
  }

  /** Bytes in hexadecimal that fit a buffer with their terminator, and are a C string up to their
      first NUL. */
  ghost predicate IsTextOf(text: string, size: nat, value: string) {
    exists bytes :: IsHexOf(text, bytes) && |bytes| < size && value == UpToNul(bytes)
  }

  /** Host, port, lobby and history of the key; sender, id, time, name and text of the message. */
  ghost predicate IsRecordOf(f: seq<string>, k: Key, m: Message)
    requires |f| == 9
  {
    && IsTextOf(f[0], 64, k.host) && IsNumberOf(f[1], 65535, k.port)
    && IsNumberOf(f[2], 4294967295, k.lobby)
    && k.identity > 0 && IsNumberOf(f[3], 18446744073709551615, k.identity)
    && IsNumberOf(f[4], 4294967295, m.sender)
    && m.id > 0 && IsNumberOf(f[5], 18446744073709551615, m.id)
    && IsNumberOf(f[6], 4294967295, m.timestamp)
    && IsTextOf(f[7], 32, m.name) && IsTextOf(f[8], 201, m.text)
  }

  lemma NumberField(text: string, limit: nat, value: nat)
    ensures IsNumberOf(text, limit, value) <==> ParseUnsigned(text, limit) == Some(value)
  {
    hide ParseUnsigned, Converted, Text, IsNumeral;
    NumberIsTakenExactly(text, limit, value);
  }

  lemma TextField(text: string, size: nat, value: string)
    ensures IsTextOf(text, size, value) <==>
              Decoded(text, size).Some? && UpToNul(Decoded(text, size).value) == value
  {
    hide HexDecoded, IsHexOf, UpToNul;
    if Decoded(text, size).Some? {
      var bytes := Decoded(text, size).value;
      DecodedExactlyWhen(text, bytes);
      DecodedLength(text);
    }
    if bytes :| IsHexOf(text, bytes) && |bytes| < size && value == UpToNul(bytes) {
      DecodedExactlyWhen(text, bytes);
      HexLength(text, bytes);
    }
  }

  lemma HexLength(text: string, bytes: string)
    requires IsHexOf(text, bytes)
    ensures |text| == 2 * |bytes|
  {
  }

  lemma FieldsAreARecord(f: seq<string>, k: Key, m: Message)
    requires |f| == 9
    ensures ParseFields(f) == Some((k, m)) <==> IsRecordOf(f, k, m)
  {
    hide ParseUnsigned, Decoded, UpToNul, IsNumberOf, IsTextOf;
    TextField(f[0], 64, k.host);
    NumberField(f[1], 65535, k.port);
    NumberField(f[2], 4294967295, k.lobby);
    NumberField(f[3], 18446744073709551615, k.identity);
    NumberField(f[4], 4294967295, m.sender);
    NumberField(f[5], 18446744073709551615, m.id);
    NumberField(f[6], 4294967295, m.timestamp);
    TextField(f[7], 32, m.name);
    TextField(f[8], 201, m.text);
  }

  /** A line is taken as a record exactly when it is the nine fields of that record with separators
      between them. */
  lemma RecordIsTakenExactly(line: string, k: Key, m: Message)
    ensures ParsedRecord(line) == Some((k, m)) <==>
              exists f :: AreFields(f, 8, line) && IsRecordOf(f, k, m)
  {
    hide Fields, ParseFields, IsRecordOf, Joined;
    FieldsAreNine(line);
    if ParsedRecord(line) == Some((k, m)) {
      var f := Fields(line, 8).value;
      FieldsExactlyWhen(line, 8, f);
      FieldsAreARecord(f, k, m);
    }
    if f :| AreFields(f, 8, line) && IsRecordOf(f, k, m) {
      FieldsExactlyWhen(line, 8, f);
      FieldsAreARecord(f, k, m);
    }
  }
}
