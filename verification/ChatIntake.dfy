/** What a chat history file can bring in, whatever it contains. */
module ChatIntake {
  import opened Sequences
  import opened Decimal
  import opened Numerals
  import opened ChatText
  import opened ChatRecord
  import opened ChatCache
  import opened ChatHistory

  ghost predicate IsSoundContext(c: Context, now: nat) {
    && IsTidyKey(c.key) && 0 < |c.messages| <= MAX_MESSAGES
    && (forall i :: 0 <= i < |c.messages| ==>
          IsTidyMessage(c.messages[i]) && IsRetained(c.messages[i].timestamp, now))
    && forall i :: 0 < i < |c.messages| ==> c.messages[i - 1].id != c.messages[i].id
  }

  /** At most eight lobbies under normal keys of their own, each with one to fifty clean, retained
      messages, no two in a row with one id. */
  ghost predicate IsSound(cache: Cache, now: nat) {
    && |cache| <= MAX_CONTEXTS
    && (forall i :: 0 <= i < |cache| ==> IsSoundContext(cache[i], now))
    && forall i, j :: 0 <= i < j < |cache| ==> cache[i].key != cache[j].key
  }

  lemma {:induction false} UpToNulIsShorter(s: string)
    ensures |UpToNul(s)| <= |s|
  {
    if s != "" {
      UpToNulIsShorter(s[1..]);
    }
  }

  lemma DecodedFits(source: string, size: nat)
    ensures Decoded(source, size).Some? ==> |Decoded(source, size).value| < size
  {
    hide HexValue;
    DecodedLength(source);
  }

  lemma {:induction false} DecodedLength(text: string)
    ensures HexDecoded(text).Some? ==> |HexDecoded(text).value| == |text| / 2
  {
    hide HexValue;
    if |text| >= 2 {
      DecodedLength(text[..|text| - 2]);
    }
  }

  lemma ParsedIsReceivable(line: string)
    ensures ParsedRecord(line).Some? ==>
              var (k, m) := ParsedRecord(line).value;
              IsReceivable(k, m) && m.id != 0
  {
    hide Fields, Decoded, ParseUnsigned, UpToNul;
    FieldsAreNine(line);
    if Fields(line, 8).Some? {
      NumbersFit();
      TextsFit(Fields(line, 8).value);
    }
  }

  lemma NumbersFit()
    ensures forall text, maximum: nat :: ParseUnsigned(text, maximum).Some? ==>
              ParseUnsigned(text, maximum).value <= maximum
  {
    hide ScanUnsigned;
  }

  lemma TextsFit(f: seq<string>)
    requires |f| == 9
    ensures Decoded(f[7], NAME_SIZE).Some? ==> |UpToNul(Decoded(f[7], NAME_SIZE).value)| < NAME_SIZE
    ensures Decoded(f[8], TEXT_SIZE).Some? ==> |UpToNul(Decoded(f[8], TEXT_SIZE).value)| < TEXT_SIZE
  {
    hide Decoded, UpToNul;
    DecodedFits(f[7], NAME_SIZE);
    DecodedFits(f[8], TEXT_SIZE);
    if Decoded(f[7], NAME_SIZE).Some? {
      UpToNulIsShorter(Decoded(f[7], NAME_SIZE).value);
    }
    if Decoded(f[8], TEXT_SIZE).Some? {
      UpToNulIsShorter(Decoded(f[8], TEXT_SIZE).value);
    }
  }

  lemma AppendingKeepsSound(c: Context, m: Message, now: nat)
    requires IsSoundContext(c, now) && IsTidyMessage(m) && IsRetained(m.timestamp, now)
    requires !AreDuplicates(c.messages[|c.messages| - 1], m)
    ensures IsSoundContext(Context(c.key, Appended(c.messages, m)), now)
  {
    hide IsTidyMessage, IsRetained, IsTidyKey;
    IdIsNotZero(c.messages[|c.messages| - 1]);
  }

  lemma IdIsNotZero(m: Message)
    requires IsTidyMessage(m)
    ensures m.id != 0
  {
  }

  lemma LoadingKeepsSound(cache: Cache, k: Key, m: Message, now: nat)
    requires IsSound(cache, now) && IsTidyKey(k) && IsTidyMessage(m) && IsRetained(m.timestamp, now)
    ensures IsSound(WithLoaded(cache, k, m), now)
  {
    hide IsTidyMessage, IsRetained, IsTidyKey, Appended, IsSoundContext, AreDuplicates;
    var i := IndexOf(cache, k);
    OneIsSound(k, m, now);
    if i < |cache| {
      SoundIsNotEmpty(cache[i], now);
      var messages := cache[i].messages;
      if !AreDuplicates(messages[|messages| - 1], m) {
        AppendingKeepsSound(cache[i], m, now);
      }
    }
  }

  lemma SoundIsNotEmpty(c: Context, now: nat)
    requires IsSoundContext(c, now)
    ensures c.messages != []
  {
  }

  lemma OneIsSound(k: Key, m: Message, now: nat)
    requires IsTidyKey(k) && IsTidyMessage(m) && IsRetained(m.timestamp, now)
    ensures IsSoundContext(Context(k, [m]), now)
  {
  }

  lemma LineKeepsSound(cache: Cache, line: string, now: nat)
    requires IsSound(cache, now)
    ensures LoadedLine(cache, line, now).Some? ==>
              IsSound(LoadedLine(cache, line, now).value, now)
  {
    hide IsSound, ParsedRecord, Normalized, Cleaned, WithLoaded, IsReceivable, IsTidyKey,
      IsTidyMessage;
    if LoadedLine(cache, line, now).Some? && LoadedLine(cache, line, now).value != cache {
      var text := line[..|line| - 1];
      ParsedIsReceivable(text);
      var (k, m) := ParsedRecord(text).value;
      CleanedStamp(m);
      AcceptedIsTidy(k, m, now);
      LoadingKeepsSound(cache, Normalized(k).value, Cleaned(m), now);
    }
  }

  lemma CleanedStamp(m: Message)
    ensures Cleaned(m).timestamp == m.timestamp && Cleaned(m).id == m.id
  {
  }

  lemma {:induction false} LinesKeepSound(text: string, now: nat, cache: Cache)
    requires IsSound(cache, now)
    ensures LoadedLines(text, now, cache).Some? ==>
              IsSound(LoadedLines(text, now, cache).value, now)
    decreases |text|
  {
    hide IsSound, LoadedLine, LineLength;
    if text != "" {
      var n := LineLength(text, LINE_BYTES - 1);
      LineKeepsSound(cache, text[..n], now);
      var next := LoadedLine(cache, text[..n], now);
      if next.Some? {
        LinesKeepSound(text[n..], now, next.value);
      }
    }
  }

  lemma NothingIsSound(now: nat)
    ensures IsSound([], now)
  {
  }

  /** Whatever is in the file, truncated, edited or written by somebody else: if it is not refused,
      it begins with the header, is not too large, and what is loaded from it is sound. */
  lemma EveryLoadedCacheIsSound(file: File, now: nat)
    ensures Loaded(file, now).Some? ==>
              && IsSound(Loaded(file, now).value, now)
              && (file.Missing? || (file.Contents? && HEADER <= file.text && |file.text| <= MAX_FILE))
  {
    hide IsSound, LoadedLines, LineLength;
    NothingIsSound(now);
    if file.Contents? && file.text != "" {
      var n := LineLength(file.text, LINE_BYTES - 1);
      LinesKeepSound(file.text[n..], now, []);
    }
  }

  // ----- numbers -----

  /** What the C library makes of a numeral in an unsigned 64-bit word. */
  function Converted(n: Numeral): nat
    requires IsNumeral(n)
  {
    var value := ValueOf(n.digits);
    if value > MAX64 then MAX64
    else if n.sign == "-" && value > 0 then MAX64 + 1 - value
    else value
  }

  lemma NumeralIsUnsigned(n: Numeral)
    requires IsNumeral(n)
    ensures ScanUnsigned(Text(n)) == Some(Converted(n))
  {
    hide ValueOf, ScanDigits, SkipSpace;
    NumeralIsScanned(n, "");
    assert Text(n) + "" == Text(n) && n.digits + "" == n.digits;
  }

  lemma UnsignedStarts(text: string)
    requires ScanUnsigned(text).Some?
    ensures StartsWithNumber(text)
  {
  }

  lemma UnsignedIsANumeral(text: string) returns (n: Numeral)
    requires ScanUnsigned(text).Some?
    ensures IsNumeral(n) && text == Text(n)
  {
    UnsignedStarts(text);
    var rest;
    n, rest := NumeralOf(text);
    hide ValueOf, ScanDigits, SkipSpace;
    NumeralIsScanned(n, rest);
    assert rest == "";
    assert Text(n) + "" == Text(n);
  }

  /** A number field is taken exactly when it is one numeral whose conversion is within the limit:
      blanks and a sign are allowed, a negative number wraps, and one too long saturates. */
  lemma NumberIsTakenExactly(text: string, maximum: nat, value: nat)
    ensures ParseUnsigned(text, maximum) == Some(value) <==>
              value <= maximum && exists n :: IsNumeral(n) && text == Text(n) && value == Converted(n)
  {
    hide ScanUnsigned, Converted, Text, IsNumeral;
    if ParseUnsigned(text, maximum) == Some(value) {
      var n := UnsignedIsANumeral(text);
      NumeralIsUnsigned(n);
    }
    if n :| IsNumeral(n) && text == Text(n) && value == Converted(n) {
      NumeralIsUnsigned(n);
    }
  }
}
