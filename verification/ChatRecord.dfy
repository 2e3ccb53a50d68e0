/** One line of the chat cache file: nine fields, texts in hexadecimal. */
module ChatRecord {
  import opened Sequences
  import opened Decimal

  const HOST_SIZE: nat := 64
  const NAME_SIZE: nat := 32
  const TEXT_SIZE: nat := 201
  const MAX16: nat := 0xFFFF
  const MAX32: nat := 0xFFFF_FFFF
  const MAX64: nat := 0xFFFF_FFFF_FFFF_FFFF

  datatype Key = Key(host: string, port: nat, lobby: nat, identity: nat)

  datatype Message = Message(sender: nat, id: nat, timestamp: nat, name: string, text: string)

  /** Text as the C library sees it: bytes without the terminator. */
  predicate IsByteText(s: string) {
    forall i :: 0 <= i < |s| ==> 0 < s[i] as int < 256
  }

  // ----- hexadecimal text -----

  function HexDigit(n: nat): char
    requires n < 16
  {
    if n < 10 then '0' + n as char else 'a' + (n - 10) as char
  }

  /** The value of a hexadecimal digit of either case, or -1. */
  function HexValue(c: char): (value: int)
    ensures -1 <= value < 16
  {
    if '0' <= c <= '9' then (c - '0') as int
    else if 'a' <= c <= 'f' then (c - 'a') as int + 10
    else if 'A' <= c <= 'F' then (c - 'A') as int + 10
    else -1
  }

  /** Two digits per byte, the high half first. */
  function HexEncoded(s: string): (text: string)
    ensures |text| == 2 * |s|
    ensures forall i :: 0 <= i < |text| ==> HexValue(text[i]) >= 0
  {
    if s == "" then ""
    else
      var n := |s| - 1;
      var byte := s[n] as int % 256;
      HexEncoded(s[..n]) + [HexDigit(byte / 16), HexDigit(byte % 16)]
  }

  function HexDecoded(text: string): Option<string> {
    if text == "" then Some("")
    else if |text| == 1 then None
    else
      var n := |text| - 2;
      var front, high, low := HexDecoded(text[..n]), HexValue(text[n]), HexValue(text[n + 1]);
      if front.None? || high < 0 || low < 0 then None
      else Some(front.value + [(high * 16 + low) as char])
  }

  /** Decoding into a buffer of the given size. */
  function Decoded(text: string, size: nat): Option<string> {
    if |text| / 2 + 1 > size then None else HexDecoded(text)
  }

  method HexEncode(source: string, size: nat) returns (destination: Option<string>)
    ensures destination == if 2 * |source| + 1 > size then None else Some(HexEncoded(source))
  {
    if 2 * |source| + 1 > size {
      return None;
    }
    var text := "";
    for index := 0 to |source|
      invariant text == HexEncoded(source[..index])
    {
      var c := source[index] as int % 256;
      assert source[..index + 1][..index] == source[..index];
      text := text + [HexDigit(c / 16), HexDigit(c % 16)];
    }
    assert source[..|source|] == source;
    return Some(text);
  }

  method HexDecode(source: string, size: nat) returns (destination: Option<string>)
    ensures destination == Decoded(source, size)
  {
    hide HexDecoded, HexValue;
    if |source| % 2 != 0 || |source| / 2 + 1 > size {
      OddTextIsNotDecoded(source);
      return None;
    }
    var text := "";
    var index := 0;
    NothingIsDecoded(source);
    while index < |source|
      invariant 0 <= index <= |source| && index % 2 == 0
      invariant HexDecoded(source[..index]) == Some(text)
    {
      var high, low := HexValue(source[index]), HexValue(source[index + 1]);
      NextPairIsDecoded(source, index);
      if high < 0 || low < 0 {
        PrefixIsDecoded(source, index + 2);
        return None;
      }
      text := text + [(high * 16 + low) as char];
      index := index + 2;
    }
    assert source[..|source|] == source;
    return Some(text);
  }

  lemma NothingIsDecoded(source: string)
    ensures HexDecoded(source[..0]) == Some("")
  {
  }

  lemma NextPairIsDecoded(source: string, index: nat)
    requires index + 2 <= |source|
    ensures var front := HexDecoded(source[..index]);
            var high, low := HexValue(source[index]), HexValue(source[index + 1]);
            HexDecoded(source[..index + 2]) ==
              if front.None? || high < 0 || low < 0 then None
              else Some(front.value + [(high * 16 + low) as char])
  {
    hide HexValue;
    assert source[..index + 2][..index] == source[..index];
  }

  lemma {:induction false} OddTextIsNotDecoded(text: string)
    ensures |text| % 2 != 0 ==> HexDecoded(text).None?
  {
    if |text| >= 2 {
      OddTextIsNotDecoded(text[..|text| - 2]);
    }
  }

  lemma {:induction false} PrefixIsDecoded(text: string, n: nat)
    requires n <= |text| && n % 2 == 0 == |text| % 2
    ensures HexDecoded(text).Some? ==> HexDecoded(text[..n]).Some?
    decreases |text|
  {
    if n == |text| {
      assert text[..n] == text;
    } else {
      PrefixIsDecoded(text[..|text| - 2], n);
      assert text[..|text| - 2][..n] == text[..n];
    }
  }

  lemma HexDigitsInvert(n: nat)
    requires n < 16
    ensures HexValue(HexDigit(n)) == n
  {
  }

  lemma LastByteDecodes(front: string, text: string, c: char)
    requires HexDecoded(front) == Some(text) && 0 < c as int < 256
    ensures HexDecoded(front + [HexDigit(c as int / 16), HexDigit(c as int % 16)])
         == Some(text + [c])
  {
    hide HexDigit, HexValue;
    HexDigitsInvert(c as int / 16);
    HexDigitsInvert(c as int % 16);
    var all := front + [HexDigit(c as int / 16), HexDigit(c as int % 16)];
    assert all[..|all| - 2] == front;
    assert c as int / 16 * 16 + c as int % 16 == c as int;
  }

  lemma {:induction false} DecodingInvertsEncoding(s: string)
    requires IsByteText(s)
    ensures HexDecoded(HexEncoded(s)) == Some(s)
  {
    hide HexDecoded, HexEncoded, HexDigit, HexValue;
    if s == "" {
      EmptyDecodes();
    } else {
      var n := |s| - 1;
      DecodingInvertsEncoding(s[..n]);
      LastByteEncodes(s);
      ByteIsItself(s[n] as int);
      LastByteDecodes(HexEncoded(s[..n]), s[..n], s[n]);
      assert s == s[..n] + [s[n]];
    }
  }

  lemma EmptyDecodes()
    ensures HexDecoded(HexEncoded("")) == Some("")
  {
  }

  lemma LastByteEncodes(s: string)
    requires s != ""
    ensures var n := |s| - 1;
            var byte := s[n] as int % 256;
            HexEncoded(s) == HexEncoded(s[..n]) + [HexDigit(byte / 16), HexDigit(byte % 16)]
  {
    hide HexDigit;
  }

  lemma ByteIsItself(n: nat)
    requires n < 256
    ensures n % 256 == n
  {
  }

  /** What is left of decoded bytes when they are read as a C string. */
  function UpToNul(s: string): string {
    if s == "" || s[0] == 0 as char then "" else [s[0]] + UpToNul(s[1..])
  }

  lemma {:induction false} ByteTextHasNoNul(s: string)
    requires IsByteText(s)
    ensures UpToNul(s) == s
  {
    if s != "" {
      ByteTextHasNoNul(s[1..]);
    }
  }

  // ----- unsigned numbers -----

  /** Reads like strtoull: blanks, a sign, digits; too large a number saturates and a negative one
      wraps. None when nothing could be read or something is left over. */
  function ScanUnsigned(text: string): Option<nat> {
    var t := SkipSpace(text);
    var signed := t != "" && (t[0] == '-' || t[0] == '+');
    var digits := if signed then t[1..] else t;
    if digits == "" || !IsDigit(digits[0]) then None
    else
      var (value, rest) := ScanDigits(0, digits);
      if rest != "" then None
      else if value > MAX64 then Some(MAX64)
      else if signed && t[0] == '-' && value > 0 then Some(MAX64 + 1 - value)
      else Some(value)
  }

  function ParseUnsigned(text: string, maximum: nat): Option<nat> {
    var value := ScanUnsigned(text);
    if value.Some? && value.value <= maximum then value else None
  }

  lemma ParsingInvertsPrinting(n: nat, maximum: nat)
    requires n <= maximum <= MAX64
    ensures ParseUnsigned(Digits(n), maximum) == Some(n)
  {
    hide Digits;
    ScanPrinted(n, "");
    assert Digits(n) + "" == Digits(n);
    assert IsDigit(Digits(n)[0]);
  }

  // ----- fields -----

  /** The text before the first separator and the text after it. */
  function CutField(text: string): Option<(string, string)> {
    if text == "" then None
    else if text[0] == '|' then Some(("", text[1..]))
    else
      var rest := CutField(text[1..]);
      if rest.None? then None else Some(([text[0]] + rest.value.0, rest.value.1))
  }

  /** Exactly n separators. */
  function Fields(text: string, n: nat): Option<seq<string>>
    decreases n
  {
    if n == 0 then (if '|' in text then None else Some([text]))
    else
      var first := CutField(text);
      if first.None? then None else Prepended([first.value.0], Fields(first.value.1, n - 1))
  }

  function Prepended(front: seq<string>, fields: Option<seq<string>>): Option<seq<string>> {
    if fields.None? then None else Some(front + fields.value)
  }

  function Joined(fields: seq<string>): string {
    if fields == [] then ""
    else if |fields| == 1 then fields[0]
    else fields[0] + "|" + Joined(fields[1..])
  }

  lemma {:induction false} CuttingAfterField(field: string, rest: string)
    requires '|' !in field
    ensures CutField(field + "|" + rest) == Some((field, rest))
  {
    var text := field + "|" + rest;
    if field == "" {
      assert text[1..] == rest;
    } else {
      assert text[1..] == field[1..] + "|" + rest;
      CuttingAfterField(field[1..], rest);
      assert [field[0]] + field[1..] == field;
    }
  }

  lemma {:induction false} SplittingInvertsJoining(fields: seq<string>)
    requires fields != [] && forall i :: 0 <= i < |fields| ==> '|' !in fields[i]
    ensures Fields(Joined(fields), |fields| - 1) == Some(fields)
    decreases |fields|
  {
    if |fields| > 1 {
      CuttingAfterField(fields[0], Joined(fields[1..]));
      SplittingInvertsJoining(fields[1..]);
      assert [fields[0]] + fields[1..] == fields;
    } else {
      assert [fields[0]] == fields;
    }
  }

  method SplitLine(line: string) returns (result: Option<seq<string>>)
    ensures result == Fields(line, 8)
  {
    var fields: seq<string>, cursor := [], line;
    if Fields(line, 8).Some? {
      assert [] + Fields(line, 8).value == Fields(line, 8).value;
    }
    for index := 0 to 8
      invariant |fields| == index
      invariant Prepended(fields, Fields(cursor, 8 - index)) == Fields(line, 8)
    {
      var cut := CutField(cursor);
      if cut.None? {
        return None;
      }
      PrependedTwice(fields, [cut.value.0], Fields(cut.value.1, 8 - index - 1));
      fields, cursor := fields + [cut.value.0], cut.value.1;
    }
    if '|' in cursor {
      return None;
    }
    return Some(fields + [cursor]);
  }

  lemma PrependedTwice(a: seq<string>, b: seq<string>, fields: Option<seq<string>>)
    ensures Prepended(a, Prepended(b, fields)) == Prepended(a + b, fields)
  {
    if fields.Some? {
      assert a + (b + fields.value) == a + b + fields.value;
    }
  }

  // ----- records -----

  function ParseFields(f: seq<string>): Option<(Key, Message)>
    requires |f| == 9
  {
    var host, name, text :=
      Decoded(f[0], HOST_SIZE), Decoded(f[7], NAME_SIZE), Decoded(f[8], TEXT_SIZE);
    var port, lobby, identity :=
      ParseUnsigned(f[1], MAX16), ParseUnsigned(f[2], MAX32), ParseUnsigned(f[3], MAX64);
    var sender, id, timestamp :=
      ParseUnsigned(f[4], MAX32), ParseUnsigned(f[5], MAX64), ParseUnsigned(f[6], MAX32);
    if host.None? || port.None? || lobby.None? || identity.None? || identity.value == 0
       || sender.None? || id.None? || id.value == 0 || timestamp.None? || name.None? || text.None?
    then None
    else
      Some((Key(UpToNul(host.value), port.value, lobby.value, identity.value),
            Message(sender.value, id.value, timestamp.value, UpToNul(name.value),
                    UpToNul(text.value))))
  }

  lemma FieldsAreNine(line: string)
    ensures Fields(line, 8).Some? ==> |Fields(line, 8).value| == 9
  {
    FieldCount(line, 8);
  }

  lemma {:induction false} FieldCount(text: string, n: nat)
    ensures Fields(text, n).Some? ==> |Fields(text, n).value| == n + 1
    decreases n
  {
    if n > 0 && CutField(text).Some? {
      FieldCount(CutField(text).value.1, n - 1);
    }
  }

  function ParsedRecord(line: string): Option<(Key, Message)> {
    var fields := Fields(line, 8);
    FieldsAreNine(line);
    if fields.None? then None else ParseFields(fields.value)
  }

  /** The buffers and widths that a stored message respects. */
  predicate IsStorable(k: Key, m: Message) {
    && IsByteText(k.host) && IsByteText(m.name) && IsByteText(m.text)
    && |k.host| < HOST_SIZE && |m.name| < NAME_SIZE && |m.text| < TEXT_SIZE
    && k.port <= MAX16 && k.lobby <= MAX32 && 0 < k.identity <= MAX64
    && m.sender <= MAX32 && 0 < m.id <= MAX64 && m.timestamp <= MAX32
  }

  lemma NoSeparators(s: string)
    requires forall i :: 0 <= i < |s| ==> HexValue(s[i]) >= 0
    ensures '|' !in s
  {
  }

  lemma DigitsAreHex(n: nat)
    ensures forall i :: 0 <= i < |Digits(n)| ==> HexValue(Digits(n)[i]) >= 0
  {
    hide Digits;
  }

  function RecordFields(k: Key, m: Message): (fields: seq<string>)
    ensures |fields| == 9
  {
    [HexEncoded(k.host), Digits(k.port), Digits(k.lobby), Digits(k.identity), Digits(m.sender),
     Digits(m.id), Digits(m.timestamp), HexEncoded(m.name), HexEncoded(m.text)]
  }

  function RecordText(k: Key, m: Message): string {
    Joined(RecordFields(k, m))
  }

  lemma RecordFieldsAreHex(k: Key, m: Message)
    ensures forall i, j :: 0 <= i < 9 && 0 <= j < |RecordFields(k, m)[i]| ==>
              HexValue(RecordFields(k, m)[i][j]) >= 0
  {
    hide Digits, HexEncoded, HexValue;
    DigitsAreHex(k.port);
    DigitsAreHex(k.lobby);
    DigitsAreHex(k.identity);
    DigitsAreHex(m.sender);
    DigitsAreHex(m.id);
    DigitsAreHex(m.timestamp);
  }

  lemma RecordFieldsParse(k: Key, m: Message)
    requires IsStorable(k, m)
    ensures ParseFields(RecordFields(k, m)) == Some((k, m))
  {
    hide Digits, HexEncoded, HexDecoded, ParseUnsigned, UpToNul, IsByteText;
    DecodingInvertsEncoding(k.host);
    DecodingInvertsEncoding(m.name);
    DecodingInvertsEncoding(m.text);
    ByteTextHasNoNul(k.host);
    ByteTextHasNoNul(m.name);
    ByteTextHasNoNul(m.text);
    ParsingInvertsPrinting(k.port, MAX16);
    ParsingInvertsPrinting(k.lobby, MAX32);
    ParsingInvertsPrinting(k.identity, MAX64);
    ParsingInvertsPrinting(m.sender, MAX32);
    ParsingInvertsPrinting(m.id, MAX64);
    ParsingInvertsPrinting(m.timestamp, MAX32);
  }

  /** A printed record parses back to what was printed. */
  lemma ParsingInvertsRecording(k: Key, m: Message)
    requires IsStorable(k, m)
    ensures ParsedRecord(RecordText(k, m)) == Some((k, m))
  {
    hide Digits, HexEncoded, ParseFields, Fields, Joined, HexValue;
    var fields := RecordFields(k, m);
    RecordFieldsAreHex(k, m);
    forall i | 0 <= i < 9
      ensures '|' !in fields[i]
    {
      NoSeparators(fields[i]);
    }
    SplittingInvertsJoining(fields);
    RecordFieldsParse(k, m);
  }

  // ----- how long a line gets -----

  function Power10(n: nat): nat {
    if n == 0 then 1 else 10 * Power10(n - 1)
  }

  lemma {:induction false} DigitCount(n: nat, k: nat)
    requires n < Power10(k) && k > 0
    ensures |Digits(n)| <= k
    decreases k
  {
    if n >= 10 {
      DigitCount(n / 10, k - 1);
    }
  }

  function Length(fields: seq<string>): nat {
    if fields == [] then 0 else |fields[0]| + Length(fields[1..])
  }

  lemma {:induction false} JoinedLength(fields: seq<string>)
    requires fields != []
    ensures |Joined(fields)| == Length(fields) + |fields| - 1
    decreases |fields|
  {
    if |fields| > 1 {
      JoinedLength(fields[1..]);
    } else {
      assert fields[1..] == [];
    }
  }

  lemma NumbersAreShort(n: nat)
    ensures n <= MAX16 ==> |Digits(n)| <= 5
    ensures n <= MAX32 ==> |Digits(n)| <= 10
    ensures n <= MAX64 ==> |Digits(n)| <= 20
  {
    hide Digits;
    PowersOfTen();
    if n <= MAX16 {
      DigitCount(n, 5);
    }
    if n <= MAX32 {
      DigitCount(n, 10);
    }
    if n <= MAX64 {
      DigitCount(n, 20);
    }
  }

  lemma PowersOfTen()
    ensures Power10(5) == 100_000
    ensures Power10(10) == 10_000_000_000
    ensures Power10(20) == 100_000_000_000_000_000_000
  {
    assert Power10(4) == 10_000;
    assert Power10(8) == 10_000 * 10_000;
    assert Power10(12) == 10_000 * 100_000_000;
    assert Power10(16) == 10_000 * 1_000_000_000_000;
  }

  /** A printed record with its line end is at most 672 characters long and holds no line end. */
  lemma RecordsFitTheLine(k: Key, m: Message)
    requires IsStorable(k, m)
    ensures |RecordText(k, m)| <= 671
    ensures '\n' !in RecordText(k, m) && 0 as char !in RecordText(k, m)
  {
    hide Digits, HexEncoded, Joined, Length, HexValue, IsByteText;
    var fields := RecordFields(k, m);
    JoinedLength(fields);
    LengthOfNine(fields);
    NumbersAreShort(k.port);
    NumbersAreShort(k.lobby);
    NumbersAreShort(k.identity);
    NumbersAreShort(m.sender);
    NumbersAreShort(m.id);
    NumbersAreShort(m.timestamp);
    RecordFieldsAreHex(k, m);
    JoinedIsHex(fields);
    NoLineEnd(RecordText(k, m));
  }

  lemma LengthOfNine(f: seq<string>)
    requires |f| == 9
    ensures Length(f) == |f[0]| + |f[1]| + |f[2]| + |f[3]| + |f[4]| + |f[5]| + |f[6]| + |f[7]|
                         + |f[8]|
  {
    assert f[0..] == f && f[9..] == [];
    forall i | 0 <= i < 9
      ensures Length(f[i..]) == |f[i]| + Length(f[i + 1..])
    {
      assert f[i..][1..] == f[i + 1..];
    }
    assert Length(f[4..]) == |f[4]| + |f[5]| + |f[6]| + |f[7]| + |f[8]|;
  }

  lemma {:induction false} JoinedIsHex(fields: seq<string>)
    requires forall i, j :: 0 <= i < |fields| && 0 <= j < |fields[i]| ==>
               HexValue(fields[i][j]) >= 0
    ensures forall i :: 0 <= i < |Joined(fields)| ==>
              Joined(fields)[i] == '|' || HexValue(Joined(fields)[i]) >= 0
  {
    hide HexValue;
    if |fields| > 1 {
      forall i, j | 0 <= i < |fields| - 1 && 0 <= j < |fields[1..][i]|
        ensures HexValue(fields[1..][i][j]) >= 0
      {
        assert fields[1..][i] == fields[i + 1];
      }
      JoinedIsHex(fields[1..]);
    }
  }

  lemma NoLineEnd(s: string)
    requires forall i :: 0 <= i < |s| ==> s[i] == '|' || HexValue(s[i]) >= 0
    ensures '\n' !in s && 0 as char !in s
  {
  }
}
