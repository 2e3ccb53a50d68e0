/** What survives a round trip through the chat history file. */
module ChatHistory {
  import opened Sequences
  import opened ChatText
  import opened ChatRecord
  import opened ChatCache

  // ----- well-formed caches -----

  predicate IsTidyMessage(m: Message) {
    && IsClean(m.name) && 0 < |m.name| < NAME_SIZE
    && IsClean(m.text) && 0 < |m.text| < TEXT_SIZE
    && 0 < m.id <= MAX64 && 0 < m.timestamp <= MAX32 && m.sender <= MAX32
  }

  predicate IsTidyKey(k: Key) {
    IsNormal(k) && k.port <= MAX16 && k.lobby <= MAX32 && k.identity <= MAX64
  }

  /** Messages with ids of their own. */
  ghost predicate AreTidyMessages(ms: seq<Message>) {
    && (forall i :: 0 <= i < |ms| ==> IsTidyMessage(ms[i]))
    && forall i, j :: 0 <= i < j < |ms| ==> ms[i].id != ms[j].id
  }

  ghost predicate IsTidyContext(c: Context) {
    IsTidyKey(c.key) && AreTidyMessages(c.messages) && 0 < |c.messages| <= MAX_MESSAGES
  }

  ghost predicate IsTidyCache(cache: Cache) {
    && |cache| <= MAX_CONTEXTS
    && (forall i :: 0 <= i < |cache| ==> IsTidyContext(cache[i]))
    && forall i, j :: 0 <= i < j < |cache| ==> cache[i].key != cache[j].key
  }

  /** The messages a reader at the given time still shows. */
  function Kept(ms: seq<Message>, now: nat): (kept: seq<Message>)
    ensures |kept| <= |ms|
    ensures forall m :: m in kept <==> m in ms && IsRetained(m.timestamp, now)
  {
    if ms == [] then []
    else
      var n := |ms| - 1;
      Kept(ms[..n], now) + (if IsRetained(ms[n].timestamp, now) then [ms[n]] else [])
  }

  /** Contexts lose their expired messages, and disappear when nothing is left. */
  function KeptContexts(cache: Cache, now: nat): Cache {
    if cache == [] then []
    else
      var n := |cache| - 1;
      var kept := Kept(cache[n].messages, now);
      KeptContexts(cache[..n], now) + (if kept == [] then [] else [Context(cache[n].key, kept)])
  }

  ghost predicate HasTooNew(ms: seq<Message>, now: nat) {
    exists m :: m in ms && IsTooNew(m.timestamp, now)
  }

  ghost predicate AnyTooNew(cache: Cache, now: nat) {
    exists c :: c in cache && HasTooNew(c.messages, now)
  }

  // ----- reading line by line -----

  /** Lines taken one after the other; the first bad one spoils everything. */
  function LinesLoaded(lines: seq<string>, now: nat, start: Option<Cache>): Option<Cache> {
    if lines == [] then start
    else
      var front := LinesLoaded(lines[..|lines| - 1], now, start);
      if front.None? then None else LoadedLine(front.value, lines[|lines| - 1], now)
  }

  lemma {:induction false} LinesLoadedAppend(a: seq<string>, b: seq<string>, now: nat,
                                             start: Option<Cache>)
    ensures LinesLoaded(a + b, now, start) == LinesLoaded(b, now, LinesLoaded(a, now, start))
  {
    hide LoadedLine;
    if b == [] {
      assert a + b == a;
    } else {
      assert (a + b)[..|a + b| - 1] == a + b[..|b| - 1];
      LinesLoadedAppend(a, b[..|b| - 1], now, start);
    }
  }

  lemma {:induction false} NoneStaysNone(lines: seq<string>, now: nat)
    ensures LinesLoaded(lines, now, None).None?
  {
    if lines != [] {
      NoneStaysNone(lines[..|lines| - 1], now);
    }
  }

  ghost predicate IsLine(line: string) {
    && 0 < |line| < LINE_BYTES && line[|line| - 1] == '\n'
    && forall i :: 0 <= i < |line| - 1 ==> line[i] != '\n'
  }

  lemma {:induction false} OneLineIsRead(line: string, rest: string, room: nat)
    requires 0 < |line| <= room && line[|line| - 1] == '\n'
    requires forall i :: 0 <= i < |line| - 1 ==> line[i] != '\n'
    ensures LineLength(line + rest, room) == |line|
    decreases |line|
  {
    if |line| > 1 {
      assert (line + rest)[1..] == line[1..] + rest;
      OneLineIsRead(line[1..], rest, room - 1);
    }
  }

  /** Reading the concatenated lines takes them one after the other. */
  lemma {:induction false} TextIsReadByLines(lines: seq<string>, now: nat, cache: Cache)
    requires forall i :: 0 <= i < |lines| ==> IsLine(lines[i])
    ensures LoadedLines(Flatten(lines), now, cache) == LinesLoaded(lines, now, Some(cache))
    decreases |lines|
  {
    hide LoadedLine, LineLength;
    if lines != [] {
      var text := Flatten(lines);
      FlattenFront(lines);
      OneLineIsRead(lines[0], Flatten(lines[1..]), LINE_BYTES - 1);
      assert text[..|lines[0]|] == lines[0] && text[|lines[0]|..] == Flatten(lines[1..]);
      var next := LoadedLine(cache, lines[0], now);
      assert lines == [lines[0]] + lines[1..];
      LinesLoadedAppend([lines[0]], lines[1..], now, Some(cache));
      OnlyLine(lines[0], now, cache);
      if next.None? {
        NoneStaysNone(lines[1..], now);
      } else {
        TextIsReadByLines(lines[1..], now, next.value);
      }
    }
  }

  lemma OnlyLine(line: string, now: nat, cache: Cache)
    ensures LinesLoaded([line], now, Some(cache)) == LoadedLine(cache, line, now)
  {
    hide LoadedLine;
    assert [line][..0] == [];
    assert LinesLoaded([line][..0], now, Some(cache)) == Some(cache);
  }

  // ----- one stored message -----

  lemma CleanIsByteText(s: string)
    requires IsClean(s)
    ensures IsByteText(s)
  {
  }

  lemma NormalIsByteText(k: Key)
    requires IsNormal(k)
    ensures IsByteText(k.host)
  {
  }

  lemma TidyIsStorable(k: Key, m: Message)
    requires IsTidyKey(k) && IsTidyMessage(m)
    ensures IsStorable(k, m)
  {
    hide IsByteText, IsClean;
    CleanIsByteText(m.name);
    CleanIsByteText(m.text);
    NormalIsByteText(k);
  }

  lemma TidyLineIsLine(k: Key, m: Message)
    requires IsTidyKey(k) && IsTidyMessage(m)
    ensures IsLine(RecordText(k, m) + "\n")
  {
    hide IsTidyKey, IsTidyMessage, RecordText;
    TidyIsStorable(k, m);
    RecordsFitTheLine(k, m);
  }

  /** A stored line is read back as the message it was written from. */
  lemma TidyLineIsLoaded(cache: Cache, k: Key, m: Message, now: nat)
    requires IsTidyKey(k) && IsTidyMessage(m)
    ensures LoadedLine(cache, RecordText(k, m) + "\n", now) ==
              if IsTooNew(m.timestamp, now) then None
              else if IsRetained(m.timestamp, now) then Some(WithLoaded(cache, k, m))
              else Some(cache)
  {
    hide IsClean, RecordText, ParsedRecord, Normalized, Sanitized, WithLoaded, IsNormal;
    TidyIsStorable(k, m);
    RecordsFitTheLine(k, m);
    ParsingInvertsRecording(k, m);
    NormalizingIsIdempotent(k);
    CleanTextIsKept(m.name, NAME_SIZE);
    CleanTextIsKept(m.text, TEXT_SIZE);
    var line := RecordText(k, m) + "\n";
    assert line[..|line| - 1] == RecordText(k, m);
  }

  // ----- one context -----

  lemma {:induction false} KeptKeepsIds(ms: seq<Message>, now: nat)
    requires AreTidyMessages(ms)
    ensures AreTidyMessages(Kept(ms, now))
  {
    hide AreTidyMessages, IsRetained, Kept;
    if ms == [] {
      NothingIsKept(now);
    } else {
      var n := |ms| - 1;
      TidyMessagesSplit(ms);
      KeptKeepsIds(ms[..n], now);
      KeptLast(ms, now);
      var front := Kept(ms[..n], now);
      assert front + [] == front;
      forall i | 0 <= i < |front|
        ensures front[i].id != ms[n].id
      {
        assert front[i] in front;
      }
      TidyMessagesJoin(front, ms[n]);
    }
  }

  lemma TidyMessagesSplit(ms: seq<Message>)
    requires AreTidyMessages(ms) && ms != []
    ensures AreTidyMessages(ms[..|ms| - 1]) && IsTidyMessage(ms[|ms| - 1])
    ensures forall m :: m in ms[..|ms| - 1] ==> m.id != ms[|ms| - 1].id
  {
    hide IsTidyMessage;
  }

  lemma TidyMessagesJoin(ms: seq<Message>, m: Message)
    requires AreTidyMessages(ms) && forall i :: 0 <= i < |ms| ==> ms[i].id != m.id
    ensures IsTidyMessage(m) ==> AreTidyMessages(ms + [m])
  {
    hide IsTidyMessage;
  }

  lemma LoadingAddsToTheContext(cache: Cache, k: Key, kept: seq<Message>, m: Message)
    requires forall i :: 0 <= i < |cache| ==> cache[i].key != k
    requires |cache| < MAX_CONTEXTS && |kept| < MAX_MESSAGES
    requires forall i :: 0 <= i < |kept| ==> kept[i].id != m.id
    ensures WithLoaded(if kept == [] then cache else cache + [Context(k, kept)], k, m)
         == cache + [Context(k, kept + [m])]
  {
    if kept == [] {
      assert [] + [m] == [m];
    } else {
      var longer := cache + [Context(k, kept)];
      assert longer[|cache|].key == k;
      assert IndexOf(longer, k) == |cache|;
    }
  }

  lemma {:induction false} ContextIsLoaded(cache: Cache, k: Key, ms: seq<Message>, now: nat)
    requires IsTidyKey(k) && AreTidyMessages(ms) && |ms| <= MAX_MESSAGES
    requires forall i :: 0 <= i < |cache| ==> cache[i].key != k
    requires |cache| < MAX_CONTEXTS
    ensures LinesLoaded(ContextLines(k, ms), now, Some(cache)) ==
              if HasTooNew(ms, now) then None
              else if Kept(ms, now) == [] then Some(cache)
              else Some(cache + [Context(k, Kept(ms, now))])
    decreases |ms|
  {
    hide IsTidyKey, IsTidyMessage, RecordText, LoadedLine, WithLoaded, IsRetained, IsTooNew;
    if ms != [] {
      var n := |ms| - 1;
      var front := ms[..n];
      ContextIsLoaded(cache, k, front, now);
      LastIsTooNew(ms, now);
      var lines := ContextLines(k, ms);
      assert lines[..|lines| - 1] == ContextLines(k, front);
      if !HasTooNew(front, now) {
        var kept := Kept(front, now);
        forall i | 0 <= i < |kept|
          ensures kept[i].id != ms[n].id
        {
          assert kept[i] in kept;
        }
        NextLineIsLoaded(cache, k, kept, ms[n], now);
        assert kept + [] == kept;
      }
    }
  }

  /** One more line of a context whose earlier lines left the kept messages. */
  lemma NextLineIsLoaded(cache: Cache, k: Key, kept: seq<Message>, m: Message, now: nat)
    requires IsTidyKey(k) && IsTidyMessage(m)
    requires forall i :: 0 <= i < |cache| ==> cache[i].key != k
    requires |cache| < MAX_CONTEXTS && |kept| < MAX_MESSAGES
    requires forall i :: 0 <= i < |kept| ==> kept[i].id != m.id
    ensures var before := if kept == [] then cache else cache + [Context(k, kept)];
            LoadedLine(before, RecordText(k, m) + "\n", now) ==
              if IsTooNew(m.timestamp, now) then None
              else if IsRetained(m.timestamp, now) then Some(cache + [Context(k, kept + [m])])
              else Some(before)
    ensures IsTooNew(m.timestamp, now) ==> !IsRetained(m.timestamp, now)
  {
    hide IsTidyKey, IsTidyMessage, RecordText, LoadedLine, WithLoaded, IsRetained, IsTooNew;
    TidyLineIsLoaded(if kept == [] then cache else cache + [Context(k, kept)], k, m, now);
    LoadingAddsToTheContext(cache, k, kept, m);
    TooNewIsNotRetained(m.timestamp, now);
  }

  lemma TooNewIsNotRetained(timestamp: nat, now: nat)
    ensures IsTooNew(timestamp, now) ==> !IsRetained(timestamp, now)
  {
  }

  lemma LastIsTooNew(ms: seq<Message>, now: nat)
    requires ms != []
    ensures HasTooNew(ms, now) <==>
              HasTooNew(ms[..|ms| - 1], now) || IsTooNew(ms[|ms| - 1].timestamp, now)
  {
    hide IsTooNew;
    assert forall m :: m in ms <==> m in ms[..|ms| - 1] || m == ms[|ms| - 1];
  }

  // ----- the whole cache -----

  lemma {:induction false} KeptKeysComeFromTheCache(cache: Cache, now: nat)
    ensures |KeptContexts(cache, now)| <= |cache|
    ensures forall i :: 0 <= i < |KeptContexts(cache, now)| ==>
              exists j :: 0 <= j < |cache| && cache[j].key == KeptContexts(cache, now)[i].key
                          && KeptContexts(cache, now)[i].messages == Kept(cache[j].messages, now)
  {
    hide Kept;
    if cache != [] {
      var n := |cache| - 1;
      KeptKeysComeFromTheCache(cache[..n], now);
      var front, all := KeptContexts(cache[..n], now), KeptContexts(cache, now);
      forall i | 0 <= i < |all|
        ensures exists j :: 0 <= j < |cache| && cache[j].key == all[i].key
                            && all[i].messages == Kept(cache[j].messages, now)
      {
        if i < |front| {
          var j :| 0 <= j < n && cache[..n][j].key == front[i].key
                   && front[i].messages == Kept(cache[..n][j].messages, now);
          assert cache[j].key == all[i].key;
        } else {
          assert cache[n].key == all[i].key;
        }
      }
    }
  }

  lemma LastContextIsTooNew(cache: Cache, now: nat)
    requires cache != []
    ensures AnyTooNew(cache, now) <==>
              AnyTooNew(cache[..|cache| - 1], now) || HasTooNew(cache[|cache| - 1].messages, now)
  {
    hide HasTooNew;
    assert forall c :: c in cache <==> c in cache[..|cache| - 1] || c == cache[|cache| - 1];
  }

  lemma TidyFront(cache: Cache, now: nat)
    requires IsTidyCache(cache) && cache != []
    ensures IsTidyCache(cache[..|cache| - 1]) && IsTidyContext(cache[|cache| - 1])
    ensures var kept := KeptContexts(cache[..|cache| - 1], now);
            && |kept| < MAX_CONTEXTS
            && forall i :: 0 <= i < |kept| ==> kept[i].key != cache[|cache| - 1].key
  {
    hide IsTidyContext, KeptContexts;
    KeptKeysComeFromTheCache(cache[..|cache| - 1], now);
  }

  lemma {:induction false} LinesOfACacheAreLoaded(cache: Cache, now: nat)
    requires IsTidyCache(cache)
    ensures LinesLoaded(CacheLines(cache), now, Some([])) ==
              if AnyTooNew(cache, now) then None else Some(KeptContexts(cache, now))
    decreases |cache|
  {
    hide HasTooNew, AreTidyMessages, IsTidyKey, Kept, LoadedLine, AnyTooNew, ContextLines,
      IsTidyCache;
    if cache == [] {
      NothingIsTooNew(now);
    } else {
      hide LinesLoaded;
      var n := |cache| - 1;
      var front, last := cache[..n], cache[n];
      TidyFront(cache, now);
      LinesOfACacheAreLoaded(front, now);
      LastContextIsTooNew(cache, now);
      LinesLoadedAppend(CacheLines(front), ContextLines(last.key, last.messages), now, Some([]));
      if AnyTooNew(front, now) {
        NoneStaysNone(ContextLines(last.key, last.messages), now);
      } else {
        var kept := KeptContexts(front, now);
        ContextIsLoaded(kept, last.key, last.messages, now);
        assert kept + [] == kept;
      }
    }
  }

  lemma NothingIsTooNew(now: nat)
    ensures !AnyTooNew([], now)
  {
  }

  lemma {:induction false} ContextLinesAreLines(k: Key, ms: seq<Message>)
    requires IsTidyKey(k) && AreTidyMessages(ms)
    ensures forall i :: 0 <= i < |ContextLines(k, ms)| ==> IsLine(ContextLines(k, ms)[i])
  {
    hide IsLine, IsTidyKey, IsTidyMessage, RecordText;
    if ms != [] {
      ContextLinesAreLines(k, ms[..|ms| - 1]);
      TidyLineIsLine(k, ms[|ms| - 1]);
    }
  }

  lemma {:induction false} CacheLinesAreLines(cache: Cache)
    requires forall i :: 0 <= i < |cache| ==> IsTidyContext(cache[i])
    ensures forall i :: 0 <= i < |CacheLines(cache)| ==> IsLine(CacheLines(cache)[i])
  {
    hide IsLine, ContextLines, AreTidyMessages, IsTidyKey;
    if cache != [] {
      var n := |cache| - 1;
      CacheLinesAreLines(cache[..n]);
      assert IsTidyContext(cache[n]);
      ContextLinesAreLines(cache[n].key, cache[n].messages);
    }
  }

  lemma HeaderIsALine(rest: string)
    ensures LineLength(HEADER + rest, LINE_BYTES - 1) == |HEADER|
    ensures (HEADER + rest)[..|HEADER|] == HEADER && (HEADER + rest)[|HEADER|..] == rest
  {
    OneLineIsRead(HEADER, rest, LINE_BYTES - 1);
  }

  /** Loading what was saved gives the same contexts and messages in order, without the expired
      ones. It is refused exactly when the file has outgrown its limit or a message lies more than
      the tolerance in the future. */
  lemma LoadingInvertsSaving(cache: Cache, now: nat)
    requires IsTidyCache(cache)
    ensures Loaded(Contents(FileText(cache)), now) ==
              if |FileText(cache)| > MAX_FILE || AnyTooNew(cache, now) then None
              else Some(KeptContexts(cache, now))
  {
    hide LineLength, LinesLoaded, LoadedLines, CacheLines, KeptContexts, AnyTooNew, IsTidyContext,
      Flatten;
    CacheLinesAreLines(cache);
    HeaderIsALine(Flatten(CacheLines(cache)));
    TextIsReadByLines(CacheLines(cache), now, []);
    LinesOfACacheAreLoaded(cache, now);
  }

  // ----- every run of arriving messages -----

  /** A message as it arrives, within the widths of its fields. */
  predicate IsReceivable(k: Key, m: Message) {
    && k.port <= MAX16 && k.lobby <= MAX32 && k.identity <= MAX64
    && m.sender <= MAX32 && m.id <= MAX64 && m.timestamp <= MAX32
    && |m.name| < NAME_SIZE && |m.text| < TEXT_SIZE
  }

  lemma AcceptedIsTidy(k: Key, m: Message, now: nat)
    requires IsReceivable(k, m) && IsAcceptable(k, m, now)
    ensures IsTidyKey(Normalized(k).value) && IsTidyMessage(Cleaned(m))
  {
    hide IsClean, Sanitized, IsNormal;
    NormalizingIsIdempotent(k);
    SanitizedIsClean(m.name, NAME_SIZE);
    SanitizedIsClean(m.text, TEXT_SIZE);
  }

  lemma KeptIsTidy(cache: Cache, now: nat)
    requires IsTidyCache(cache)
    ensures IsTidyCache(KeptContexts(cache, now))
    decreases |cache|
  {
    hide AreTidyMessages, IsTidyKey, Kept;
    if cache != [] {
      var n := |cache| - 1;
      TidyFront(cache, now);
      KeptIsTidy(cache[..n], now);
      KeptKeepsIds(cache[n].messages, now);
    }
  }

  lemma AppendingKeepsTidy(ms: seq<Message>, m: Message)
    requires AreTidyMessages(ms) && |ms| <= MAX_MESSAGES && IsTidyMessage(m)
    requires forall old_ :: old_ in ms ==> !AreDuplicates(old_, m)
    ensures AreTidyMessages(Appended(ms, m)) && 0 < |Appended(ms, m)| <= MAX_MESSAGES
  {
    assert forall i :: 0 <= i < |ms| ==> ms[i] in ms;
  }

  /** The cache with room for the key: every context tidy except that the key's may be empty. */
  ghost predicate IsOpenFor(cache: Cache, key: Key) {
    && |cache| <= MAX_CONTEXTS
    && (forall i :: 0 <= i < |cache| ==>
          IsTidyContext(cache[i]) || (cache[i].key == key && cache[i].messages == []))
    && forall i, j :: 0 <= i < j < |cache| ==> cache[i].key != cache[j].key
  }

  lemma OpeningKeepsTidy(cache: Cache, key: Key, m: Message)
    requires IsTidyCache(cache) && !IsKnown(cache, key, m)
    ensures var open := WithContext(cache, key);
            && IsOpenFor(open, key)
            && forall old_ :: old_ in open[IndexOf(open, key)].messages ==> !AreDuplicates(old_, m)
  {
    hide IsTidyContext, AreDuplicates;
    if IndexOf(cache, key) == |cache| {
      hide IsKnown;
      var kept := if |cache| == MAX_CONTEXTS then cache[1..] else cache;
      NewContextIsOpen(kept, key);
      assert WithContext(cache, key) == kept + [Context(key, [])];
    }
  }

  lemma NewContextIsOpen(cache: Cache, key: Key)
    requires IsTidyCache(cache) && |cache| < MAX_CONTEXTS
    requires forall i :: 0 <= i < |cache| ==> cache[i].key != key
    ensures var open := cache + [Context(key, [])];
            && IsOpenFor(open, key)
            && IndexOf(open, key) == |cache| && open[|cache|].messages == []
  {
    hide IsTidyContext;
    assert (cache + [Context(key, [])])[|cache|].key == key;
  }

  lemma StoringKeepsTidy(cache: Cache, key: Key, m: Message)
    requires IsTidyCache(cache) && IsTidyKey(key) && IsTidyMessage(m) && !IsKnown(cache, key, m)
    ensures IsTidyCache(WithMessage(cache, key, m))
  {
    hide IsTidyKey, IsTidyMessage, IsKnown, WithContext, AreTidyMessages, Appended;
    var open := WithContext(cache, key);
    var i := IndexOf(open, key);
    OpeningKeepsTidy(cache, key, m);
    EmptyIsTidy();
    AppendingKeepsTidy(open[i].messages, m);
  }

  lemma EmptyIsTidy()
    ensures AreTidyMessages([])
  {
  }

  ghost predicate HoldsCache(file: File, cache: Cache) {
    IsTidyCache(cache) && file == Contents(FileText(cache))
  }

  ghost predicate IsTidyFile(file: File) {
    file == Missing || exists cache :: HoldsCache(file, cache)
  }

  lemma HistoryIsTidy(file: File, readable: bool, now: nat)
    requires IsTidyFile(file)
    ensures IsTidyCache(History(if readable then file else Unreadable, now))
  {
    hide FileText, KeptContexts, AnyTooNew, LoadedLines, LineLength;
    if readable && file != Missing {
      var cache :| HoldsCache(file, cache);
      LoadingInvertsSaving(cache, now);
      KeptIsTidy(cache, now);
    }
  }

  /** A message arriving, whether the file could be read, and whether it could be replaced. */
  datatype Arrival = Arrival(key: Key, message: Message, now: nat, readable: bool, writes: bool)

  function FileAfter(file: File, a: Arrival): File {
    Stored(file, a.readable, a.key, a.message, a.now, a.writes).0
  }

  function FileAfterAll(arrivals: seq<Arrival>): File {
    if arrivals == [] then Missing
    else FileAfter(FileAfterAll(arrivals[..|arrivals| - 1]), arrivals[|arrivals| - 1])
  }

  lemma ArrivalKeepsTidy(file: File, a: Arrival)
    requires IsTidyFile(file) && IsReceivable(a.key, a.message)
    ensures IsTidyFile(FileAfter(file, a))
  {
    hide IsTidyCache, FileText, Loaded, IsTidyFile, IsReceivable, IsKnown, WithMessage, Cleaned,
      Normalized, IsTidyKey, IsTidyMessage;
    if FileAfter(file, a) != file {
      var history := History(if a.readable then file else Unreadable, a.now);
      HistoryIsTidy(file, a.readable, a.now);
      AcceptedIsTidy(a.key, a.message, a.now);
      StoringKeepsTidy(history, Normalized(a.key).value, Cleaned(a.message));
      HoldingIsTidy(WithMessage(history, Normalized(a.key).value, Cleaned(a.message)));
    }
  }

  lemma HoldingIsTidy(cache: Cache)
    requires IsTidyCache(cache)
    ensures IsTidyFile(Contents(FileText(cache)))
  {
    hide IsTidyCache, FileText;
    assert HoldsCache(Contents(FileText(cache)), cache);
  }

  lemma {:induction false} AllArrivalsKeepTidy(arrivals: seq<Arrival>)
    requires forall i :: 0 <= i < |arrivals| ==> IsReceivable(arrivals[i].key, arrivals[i].message)
    ensures IsTidyFile(FileAfterAll(arrivals))
  {
    hide IsTidyFile, FileAfter, IsReceivable;
    if arrivals == [] {
      NoFileIsTidy();
    } else {
      var n := |arrivals| - 1;
      AllArrivalsKeepTidy(arrivals[..n]);
      ArrivalKeepsTidy(FileAfterAll(arrivals[..n]), arrivals[n]);
    }
  }

  lemma NoFileIsTidy()
    ensures IsTidyFile(Missing)
  {
  }

  /** Whatever messages arrive, whenever reading or replacing the file fails: the file holds a
      well-formed cache, and reading it at any time gives that cache without its expired messages
      unless the file is too large or a message is too new. */
  lemma EveryFileLoadsBack(arrivals: seq<Arrival>, now: nat)
    requires forall i :: 0 <= i < |arrivals| ==> IsReceivable(arrivals[i].key, arrivals[i].message)
    ensures var file := FileAfterAll(arrivals);
            file == Missing
            || exists cache ::
                 && HoldsCache(file, cache)
                 && Loaded(file, now) == if |FileText(cache)| > MAX_FILE || AnyTooNew(cache, now)
                                         then None else Some(KeptContexts(cache, now))
  {
    hide Loaded, FileText, IsTidyCache, KeptContexts, AnyTooNew;
    var file := FileAfterAll(arrivals);
    AllArrivalsKeepTidy(arrivals);
    if file != Missing {
      var cache :| HoldsCache(file, cache);
      LoadingInvertsSaving(cache, now);
    }
  }

  // ----- the message just stored -----

  ghost predicate AllRetained(cache: Cache, now: nat) {
    forall i, j :: 0 <= i < |cache| && 0 <= j < |cache[i].messages| ==>
      IsRetained(cache[i].messages[j].timestamp, now)
  }

  lemma NothingIsKept(now: nat)
    ensures Kept([], now) == [] && !HasTooNew([], now)
  {
  }

  lemma KeptLast(ms: seq<Message>, now: nat)
    requires ms != []
    ensures Kept(ms, now) == Kept(ms[..|ms| - 1], now)
              + (if IsRetained(ms[|ms| - 1].timestamp, now) then [ms[|ms| - 1]] else [])
  {
    hide IsRetained;
  }

  lemma {:induction false} RetainedAreKept(ms: seq<Message>, now: nat)
    requires forall i :: 0 <= i < |ms| ==> IsRetained(ms[i].timestamp, now)
    ensures Kept(ms, now) == ms && !HasTooNew(ms, now)
  {
    hide IsRetained, IsTooNew, Kept, HasTooNew;
    if ms == [] {
      NothingIsKept(now);
    } else {
      var n := |ms| - 1;
      RetainedAreKept(ms[..n], now);
      KeptLast(ms, now);
      TooNewIsNotRetained(ms[n].timestamp, now);
      LastIsTooNew(ms, now);
      assert ms[..n] + [ms[n]] == ms;
    }
  }

  lemma {:induction false} RetainedCacheIsKept(cache: Cache, now: nat)
    requires forall i :: 0 <= i < |cache| ==>
               && cache[i].messages != [] && Kept(cache[i].messages, now) == cache[i].messages
               && !HasTooNew(cache[i].messages, now)
    ensures KeptContexts(cache, now) == cache && !AnyTooNew(cache, now)
  {
    hide HasTooNew, Kept, AnyTooNew;
    if cache == [] {
      NothingIsTooNew(now);
    } else {
      var n := |cache| - 1;
      var front, last := cache[..n], cache[n];
      RetainedCacheIsKept(front, now);
      LastContextIsTooNew(cache, now);
      assert KeptContexts(cache, now) == front + [Context(last.key, last.messages)];
    }
  }

  lemma AllRetainedIsKept(cache: Cache, now: nat)
    requires AllRetained(cache, now)
    requires forall i :: 0 <= i < |cache| ==> cache[i].messages != []
    ensures KeptContexts(cache, now) == cache && !AnyTooNew(cache, now)
  {
    hide IsRetained, HasTooNew, Kept, AnyTooNew, KeptContexts;
    forall i | 0 <= i < |cache|
      ensures Kept(cache[i].messages, now) == cache[i].messages
      ensures !HasTooNew(cache[i].messages, now)
    {
      RetainedAreKept(cache[i].messages, now);
    }
    RetainedCacheIsKept(cache, now);
  }

  lemma KeptAreRetained(cache: Cache, now: nat)
    ensures AllRetained(KeptContexts(cache, now), now)
  {
    hide IsRetained, KeptContexts;
    KeptKeysComeFromTheCache(cache, now);
    var all := KeptContexts(cache, now);
    forall i, j | 0 <= i < |all| && 0 <= j < |all[i].messages|
      ensures IsRetained(all[i].messages[j].timestamp, now)
    {
      assert all[i].messages[j] in all[i].messages;
    }
  }

  lemma HistoryIsRetained(file: File, readable: bool, now: nat)
    requires IsTidyFile(file)
    ensures AllRetained(History(if readable then file else Unreadable, now), now)
  {
    hide FileText, KeptContexts, AnyTooNew, LoadedLines, LineLength, AllRetained;
    if readable && file != Missing {
      var cache :| HoldsCache(file, cache);
      LoadingInvertsSaving(cache, now);
      KeptAreRetained(cache, now);
    }
    EmptyIsRetained(now);
  }

  lemma EmptyIsRetained(now: nat)
    ensures AllRetained([], now)
  {
  }

  lemma StoringKeepsRetained(cache: Cache, key: Key, m: Message, now: nat)
    requires AllRetained(cache, now) && IsRetained(m.timestamp, now)
    ensures AllRetained(WithMessage(cache, key, m), now)
  {
    hide IsRetained;
    assert AllRetained(WithContext(cache, key), now);
  }

  /** A message reported as stored is read back at once, last in its lobby's history, and the rest
      of the history is what it was; this holds exactly while the file stays within its limit. */
  lemma StoredMessageIsLoadedBack(file: File, a: Arrival)
    requires IsTidyFile(file) && IsReceivable(a.key, a.message)
    requires IsAcceptable(a.key, a.message, a.now) && a.writes
    requires !IsKnown(History(if a.readable then file else Unreadable, a.now),
                      Normalized(a.key).value, Cleaned(a.message))
    ensures var after := WithMessage(History(if a.readable then file else Unreadable, a.now),
                                     Normalized(a.key).value, Cleaned(a.message));
            && FileAfter(file, a) == Contents(FileText(after))
            && Loaded(FileAfter(file, a), a.now) ==
                 if |FileText(after)| > MAX_FILE then None else Some(after)
  {
    var history := History(if a.readable then file else Unreadable, a.now);
    var key, clean := Normalized(a.key).value, Cleaned(a.message);
    var after := WithMessage(history, key, clean);
    AcceptedIsTidy(a.key, a.message, a.now);
    hide IsReceivable, IsKnown, Cleaned, Normalized, WithMessage, FileText, Loaded, IsTidyFile,
      IsTidyKey, IsTidyMessage, KeptContexts, AnyTooNew, AllRetained;
    HistoryIsTidy(file, a.readable, a.now);
    StoringKeepsTidy(history, key, clean);
    HistoryIsRetained(file, a.readable, a.now);
    StoringKeepsRetained(history, key, clean, a.now);
    assert forall i :: 0 <= i < |after| ==> IsTidyContext(after[i]);
    AllRetainedIsKept(after, a.now);
    LoadingInvertsSaving(after, a.now);
  }

  /** A reader of the lobby sees the stored message last. */
  lemma StoredMessageIsShownLast(file: File, a: Arrival, capacity: nat)
    requires IsTidyFile(file) && IsReceivable(a.key, a.message)
    requires IsAcceptable(a.key, a.message, a.now) && a.writes && capacity > 0
    requires !IsKnown(History(if a.readable then file else Unreadable, a.now),
                      Normalized(a.key).value, Cleaned(a.message))
    requires Loaded(FileAfter(file, a), a.now).Some?
    ensures var shown := LatestOf(FileAfter(file, a), a.key, a.now, capacity);
            shown != [] && shown[|shown| - 1] == Cleaned(a.message)
  {
    hide IsReceivable, IsKnown, Cleaned, FileText, Loaded, IsTidyFile, FileAfter, WithMessage,
      LatestOf, Normalized, IsRetained;
    var history := History(if a.readable then file else Unreadable, a.now);
    var key, clean := Normalized(a.key).value, Cleaned(a.message);
    var after := WithMessage(history, key, clean);
    StoredMessageIsLoadedBack(file, a);
    MessageIsLastOfItsContext(history, key, clean);
    ShownLast(FileAfter(file, a), a.key, a.now, capacity, after, clean);
  }

  lemma ShownLast(file: File, k: Key, now: nat, capacity: nat, cache: Cache, m: Message)
    requires Loaded(file, now) == Some(cache) && Normalized(k).Some? && capacity > 0
    requires var i := IndexOf(cache, Normalized(k).value);
             && i < |cache| && cache[i].messages != []
             && cache[i].messages[|cache[i].messages| - 1] == m
    ensures var shown := LatestOf(file, k, now, capacity);
            shown != [] && shown[|shown| - 1] == m
  {
    hide Loaded, Normalized, IndexOf;
  }

  lemma MessageIsLastOfItsContext(cache: Cache, key: Key, m: Message)
    ensures var after := WithMessage(cache, key, m);
            var i := IndexOf(after, key);
            && i < |after| && after[i].messages != []
            && after[i].messages[|after[i].messages| - 1] == m
  {
    hide WithContext;
    var open := WithContext(cache, key);
    var i := IndexOf(open, key);
    var after := WithMessage(cache, key, m);
    assert after[i].key == key && forall j :: 0 <= j < i ==> after[j] == open[j];
    assert IndexOf(after, key) == i;
  }

  // ----- the size of the file -----

  function Total(cache: Cache): nat {
    if cache == [] then 0 else Total(cache[..|cache| - 1]) + |cache[|cache| - 1].messages|
  }

  lemma {:induction false} FlattenLength(lines: seq<string>, width: nat)
    requires forall i :: 0 <= i < |lines| ==> |lines[i]| <= width
    ensures |Flatten(lines)| <= width * |lines|
  {
    if lines != [] {
      var n := |lines| - 1;
      FlattenLength(lines[..n], width);
      assert width * |lines| == width * n + width;
    }
  }

  lemma {:induction false} LineCount(cache: Cache)
    ensures |CacheLines(cache)| == Total(cache)
  {
    if cache != [] {
      var n := |cache| - 1;
      LineCount(cache[..n]);
      ContextLineCount(cache[n].key, cache[n].messages);
    }
  }

  lemma {:induction false} ContextLineCount(k: Key, ms: seq<Message>)
    ensures |ContextLines(k, ms)| == |ms|
    ensures forall i :: 0 <= i < |ms| ==> ContextLines(k, ms)[i] == RecordText(k, ms[i]) + "\n"
  {
    hide RecordText;
    if ms != [] {
      ContextLineCount(k, ms[..|ms| - 1]);
    }
  }

  lemma {:induction false} LinesAreShort(cache: Cache)
    requires forall i :: 0 <= i < |cache| ==> IsTidyContext(cache[i])
    ensures forall i :: 0 <= i < |CacheLines(cache)| ==> |CacheLines(cache)[i]| <= 672
  {
    hide ContextLines, RecordText, IsTidyMessage, IsTidyKey;
    if cache != [] {
      var n := |cache| - 1;
      LinesAreShort(cache[..n]);
      var k, ms := cache[n].key, cache[n].messages;
      assert IsTidyContext(cache[n]);
      ContextLineCount(k, ms);
      forall i | 0 <= i < |ms|
        ensures |RecordText(k, ms[i])| <= 671
      {
        TidyIsStorable(k, ms[i]);
        RecordsFitTheLine(k, ms[i]);
      }
    }
  }

  /** A cache of up to 390 messages, of whatever length, stays within the limit of the file. */
  lemma ModestCachesFit(cache: Cache)
    requires IsTidyCache(cache) && Total(cache) <= 390
    ensures |FileText(cache)| <= MAX_FILE
  {
    hide CacheLines, Total, IsTidyContext;
    LinesAreShort(cache);
    FlattenLength(CacheLines(cache), 672);
    LineCount(cache);
  }

  // ----- when the history is lost -----

  lemma OnlyMessage(key: Key, m: Message)
    ensures WithMessage([], key, m) == [Context(key, [m])]
  {
    var open := WithContext([], key);
    assert open == [Context(key, [])];
    assert Appended([], m) == [m];
  }

  /** A file that could not be read, or was refused for whatever reason, is forgotten: the next
      message stored is the only one left. */
  lemma RefusedFileIsForgotten(file: File, a: Arrival)
    requires !a.readable || Loaded(file, a.now).None?
    requires IsAcceptable(a.key, a.message, a.now) && a.writes
    ensures FileAfter(file, a)
         == Contents(FileText([Context(Normalized(a.key).value, [Cleaned(a.message)])]))
  {
    hide FileText, Normalized, Cleaned, WithMessage;
    OnlyMessage(Normalized(a.key).value, Cleaned(a.message));
    NothingIsKnown(Normalized(a.key).value, Cleaned(a.message));
    NothingUnreadableIsLoaded(a.now);
  }

  lemma NothingIsKnown(key: Key, m: Message)
    ensures !IsKnown([], key, m)
  {
  }

  lemma NothingUnreadableIsLoaded(now: nat)
    ensures Loaded(Unreadable, now).None?
  {
  }

  /** In particular one over its limit. */
  lemma OversizedFileIsForgotten(cache: Cache, a: Arrival)
    requires IsTidyCache(cache) && |FileText(cache)| > MAX_FILE && a.writes
    requires IsAcceptable(a.key, a.message, a.now)
    ensures FileAfter(Contents(FileText(cache)), a)
         == Contents(FileText([Context(Normalized(a.key).value, [Cleaned(a.message)])]))
  {
    hide FileText, Normalized, Cleaned, IsTidyCache, Loaded, FileAfter, IsAcceptable;
    LoadingInvertsSaving(cache, a.now);
    RefusedFileIsForgotten(Contents(FileText(cache)), a);
  }

  /** For a well-formed file: a message is stored as the only one exactly when the file could not be
      read, is too large, holds a message more than the tolerance ahead of the clock, or holds
      nothing that is still retained. */
  lemma HistoryIsLostExactlyWhen(cache: Cache, a: Arrival)
    requires IsTidyCache(cache)
    ensures var history := History(if a.readable then Contents(FileText(cache)) else Unreadable,
                                   a.now);
            var key, m := Normalized(a.key), Cleaned(a.message);
            key.Some? ==>
              (WithMessage(history, key.value, m) == [Context(key.value, [m])] <==>
                 || !a.readable || |FileText(cache)| > MAX_FILE || AnyTooNew(cache, a.now)
                 || KeptContexts(cache, a.now) == [])
  {
    hide FileText, Normalized, Cleaned, IsTidyCache, Loaded, KeptContexts, AnyTooNew, WithMessage;
    LoadingInvertsSaving(cache, a.now);
    NothingUnreadableIsLoaded(a.now);
    if Normalized(a.key).Some? {
      var history := History(if a.readable then Contents(FileText(cache)) else Unreadable, a.now);
      OnlyMessage(Normalized(a.key).value, Cleaned(a.message));
      if history != [] {
        if a.readable && Loaded(Contents(FileText(cache)), a.now).Some? {
          KeptIsTidy(cache, a.now);
          MoreThanOneMessage(history, Normalized(a.key).value, Cleaned(a.message));
        }
      }
    }
  }

  lemma MoreThanOneMessage(history: Cache, key: Key, m: Message)
    requires IsTidyCache(history) && history != []
    ensures WithMessage(history, key, m) != [Context(key, [m])]
  {
    hide AreTidyMessages, IsTidyKey;
    var open := WithContext(history, key);
    var i := IndexOf(history, key);
    if i < |history| {
      assert IsTidyContext(history[i]);
      assert |Appended(history[i].messages, m)| >= 2;
      assert WithMessage(history, key, m)[i].messages != [m];
    } else {
      assert |WithMessage(history, key, m)| >= 2;
    }
  }
}
