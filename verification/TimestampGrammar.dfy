/** Which texts the timestamp reader takes, and as what. */
module TimestampGrammar {
  import opened Sequences
  import opened Decimal
  import opened Numerals
  import opened Calendar

  /** Six numerals with their separators, and whatever follows. */
  function Written(ns: seq<Numeral>, tail: string): string
    requires |ns| == 6
  {
    Text(ns[0]) + ("-" + (Text(ns[1]) + ("-" + (Text(ns[2]) + ("T" + (Text(ns[3]) +
      (":" + (Text(ns[4]) + (":" + (Text(ns[5]) + tail))))))))))
  }

  predicate AreNumerals(ns: seq<Numeral>) {
    |ns| == 6 && forall i :: 0 <= i < 6 ==> IsNumeral(ns[i])
  }

  function Values(ns: seq<Numeral>): (values: seq<int>)
    requires AreNumerals(ns)
    ensures |values| == 6
  {
    [Signed(ns[0]), Signed(ns[1]), Signed(ns[2]), Signed(ns[3]), Signed(ns[4]), Signed(ns[5])]
  }

  lemma NumeralIsAnInt(n: Numeral, rest: string)
    requires IsNumeral(n) && Ends(rest)
    ensures ScanInt(Text(n) + rest) == Some((Signed(n), rest))
  {
    hide ValueOf, ScanDigits, SkipSpace;
    NumeralIsScanned(n, rest);
  }

  lemma IntIsANumeral(text: string) returns (n: Numeral, rest: string)
    requires ScanInt(text).Some?
    ensures IsNumeral(n) && Ends(rest) && text == Text(n) + rest
    ensures ScanInt(text) == Some((Signed(n), rest))
  {
    IntStarts(text);
    n, rest := NumeralOf(text);
    NumeralIsAnInt(n, rest);
  }

  lemma IntStarts(text: string)
    requires ScanInt(text).Some?
    ensures StartsWithNumber(text)
  {
  }

  lemma FieldIsScanned(n: Numeral, separator: char, rest: string)
    requires IsNumeral(n) && !IsDigit(separator)
    ensures ScanChar(ScanInt(Text(n) + ([separator] + rest)), separator) == Some((Signed(n), rest))
  {
    hide ScanInt;
    NumeralIsAnInt(n, [separator] + rest);
    assert ([separator] + rest)[1..] == rest;
  }

  lemma FieldOf(text: string, separator: char) returns (n: Numeral, rest: string)
    requires ScanChar(ScanInt(text), separator).Some?
    ensures IsNumeral(n) && text == Text(n) + ([separator] + rest)
    ensures ScanChar(ScanInt(text), separator) == Some((Signed(n), rest))
  {
    hide ScanInt;
    var after;
    n, after := IntIsANumeral(text);
    rest := after[1..];
    assert after == [separator] + rest;
  }

  lemma WrittenIsScanned(ns: seq<Numeral>, tail: string)
    requires AreNumerals(ns) && Ends(tail)
    ensures ScanFields(Written(ns, tail)) == Some(Values(ns))
  {
    hide ScanInt, ScanChar, IsNumeral, Text, Signed;
    var atSecond := Text(ns[5]) + tail;
    var atMinute := Text(ns[4]) + (":" + atSecond);
    var atHour := Text(ns[3]) + (":" + atMinute);
    var atDay := Text(ns[2]) + ("T" + atHour);
    var atMonth := Text(ns[1]) + ("-" + atDay);
    FieldIsScanned(ns[0], '-', atMonth);
    FieldIsScanned(ns[1], '-', atDay);
    FieldIsScanned(ns[2], 'T', atHour);
    FieldIsScanned(ns[3], ':', atMinute);
    FieldIsScanned(ns[4], ':', atSecond);
    NumeralIsAnInt(ns[5], tail);
    assert Written(ns, tail) == Text(ns[0]) + ("-" + atMonth);
  }

  lemma ScannedIsWritten(text: string) returns (ns: seq<Numeral>, tail: string)
    requires ScanFields(text).Some?
    ensures AreNumerals(ns) && Ends(tail) && text == Written(ns, tail)
    ensures ScanFields(text) == Some(Values(ns))
  {
    hide ScanInt, ScanChar, IsNumeral, Text, Signed, Ends;
    var year, atMonth := FieldOf(text, '-');
    var month, atDay := FieldOf(atMonth, '-');
    var day, atHour := FieldOf(atDay, 'T');
    var hour, atMinute := FieldOf(atHour, ':');
    var minute, atSecond := FieldOf(atMinute, ':');
    var second, after := IntIsANumeral(atSecond);
    ns, tail := [year, month, day, hour, minute, second], after;
    assert text == Written(ns, tail);
  }

  /** A date and time between the accepted limits, not before 1970. */
  predicate IsTime(f: seq<int>)
    requires |f| == 6
  {
    && 1 <= f[1] <= 12 && 1 <= f[2] <= 31 && 0 <= f[3] <= 23 && 0 <= f[4] <= 59 && 0 <= f[5] <= 60
    && DayNumber(Date(f[0], f[1], f[2])) * 86400 + f[3] * 3600 + f[4] * 60 + f[5] >= 0
  }

  /** The reader takes exactly the texts of six numbers with the separators - - T : : between them,
      blanks and signs before any of them, and anything at all after the last; and reads them as the
      naive count of their date and time. */
  lemma ReaderTakesExactly(text: string, timestamp: nat)
    ensures ParseUtcTime(text) == Some(timestamp) <==>
              exists ns, tail :: IsReading(text, timestamp, ns, tail)
  {
    hide ScanFields, Values, Written, AreNumerals;
    if ParseUtcTime(text) == Some(timestamp) {
      var ns, tail := ScannedIsWritten(text);
      SecondsAreCounted(Values(ns));
      assert IsReading(text, timestamp, ns, tail);
    }
    if ns, tail :| IsReading(text, timestamp, ns, tail) {
      WrittenIsScanned(ns, tail);
      SecondsAreCounted(Values(ns));
    }
  }

  ghost predicate IsReading(text: string, timestamp: nat, ns: seq<Numeral>, tail: string) {
    && AreNumerals(ns) && Ends(tail) && text == Written(ns, tail)
    && var f := Values(ns);
       && IsTime(f)
       && timestamp == DayNumber(Date(f[0], f[1], f[2])) * 86400 + f[3] * 3600 + f[4] * 60 + f[5]
  }

  lemma SecondsAreCounted(f: seq<int>)
    requires |f| == 6
    ensures IsTime(f) <==> FieldsInRange(f) && SecondsOf(f) >= 0
    ensures FieldsInRange(f) ==>
              SecondsOf(f) == DayNumber(Date(f[0], f[1], f[2])) * 86400 + f[3] * 3600 + f[4] * 60 + f[5]
  {
    hide DaysSinceUnixEpoch, DayNumber;
    if 1 <= f[1] <= 12 {
      ClosedFormCountsDays(Date(f[0], f[1], f[2]));
    }
  }
}
