/** The limits on contexts and messages allow more than the limit on the file: how a run of arriving
    messages gets there, and what it loses. */
module ChatLimit {
  import opened Sequences
  import opened Decimal
  import opened ChatText
  import opened ChatRecord
  import opened ChatCache
  import opened ChatHistory

  /** The most messages that always fit. */
  const FITTING: nat := 390

  function Letters(n: nat): (s: string)
    ensures |s| == n && forall i :: 0 <= i < n ==> s[i] == 'a'
  {
    seq(n, i => 'a')
  }

  /** Keys and messages of the greatest length, with a lobby for every 50 messages. */
  function LongKey(lobby: nat): Key {
    Key(Letters(63), MAX16, MAX32 - lobby % 8, MAX64)
  }

  function LongMessage(n: nat): Message {
    Message(MAX32, MAX64 - n % 400, MAX32, Letters(31), Letters(200))
  }

  function LongArrival(n: nat): Arrival {
    Arrival(LongKey(n / MAX_MESSAGES), LongMessage(n), MAX32, true, true)
  }

  function LongArrivals(n: nat): (arrivals: seq<Arrival>)
    ensures |arrivals| == n
  {
    if n == 0 then [] else LongArrivals(n - 1) + [LongArrival(n - 1)]
  }

  // ----- the cache such a run fills -----

  function Batch(lobby: nat, count: nat): (messages: seq<Message>)
    ensures |messages| == count
    ensures forall i :: 0 <= i < count ==> messages[i] == LongMessage(MAX_MESSAGES * lobby + i)
  {
    if count == 0 then []
    else Batch(lobby, count - 1) + [LongMessage(MAX_MESSAGES * lobby + count - 1)]
  }

  function FullContexts(lobbies: nat): (cache: Cache)
    ensures |cache| == lobbies
    ensures forall c :: 0 <= c < lobbies ==>
              cache[c] == Context(LongKey(c), Batch(c, MAX_MESSAGES))
  {
    if lobbies == 0 then []
    else FullContexts(lobbies - 1) + [Context(LongKey(lobbies - 1), Batch(lobbies - 1, MAX_MESSAGES))]
  }

  /** Full contexts, and one that is being filled. */
  function Filled(lobbies: nat, count: nat): Cache {
    FullContexts(lobbies) + (if count == 0 then [] else [Context(LongKey(lobbies), Batch(lobbies, count))])
  }

  lemma LongKeyIsTidy(lobby: nat)
    ensures IsTidyKey(LongKey(lobby))
    ensures lobby < MAX_CONTEXTS ==> LongKey(lobby).lobby == MAX32 - lobby
  {
    hide Letters;
  }

  lemma LettersAreClean(n: nat)
    ensures IsClean(Letters(n))
  {
  }

  lemma LongMessageIsTidy(n: nat)
    ensures IsTidyMessage(LongMessage(n))
    ensures n < 400 ==> LongMessage(n).id == MAX64 - n
    ensures IsRetained(LongMessage(n).timestamp, MAX32)
  {
    hide Letters, IsClean;
    LettersAreClean(31);
    LettersAreClean(200);
  }

  lemma LongArrivalIsAccepted(n: nat)
    ensures var a := LongArrival(n);
            && IsReceivable(a.key, a.message) && IsAcceptable(a.key, a.message, a.now)
            && Normalized(a.key) == Some(a.key) && Cleaned(a.message) == a.message
  {
    hide Normalized, IsClean, Sanitized, IsNormal, IsRetained, Letters;
    LongKeyIsTidy(n / MAX_MESSAGES);
    LongMessageIsTidy(n);
    NormalizingIsIdempotent(LongArrival(n).key);
    CleanTextIsKept(LongArrival(n).message.name, NAME_SIZE);
    CleanTextIsKept(LongArrival(n).message.text, TEXT_SIZE);
  }

  lemma FilledHasItsKeys(lobbies: nat, count: nat)
    requires lobbies < MAX_CONTEXTS
    ensures IndexOf(Filled(lobbies, count), LongKey(lobbies)) == lobbies
  {
    hide LongKey, Batch;
    forall c | 0 <= c <= lobbies
      ensures LongKey(c).lobby == MAX32 - c
    {
      LongKeyIsTidy(c);
    }
  }

  lemma NextMessageIsNew(lobbies: nat, count: nat)
    requires lobbies < MAX_CONTEXTS && count < MAX_MESSAGES
    ensures !IsKnown(Filled(lobbies, count), LongKey(lobbies),
                     LongMessage(MAX_MESSAGES * lobbies + count))
  {
    hide LongKey, LongMessage, FullContexts, IndexOf;
    FilledHasItsKeys(lobbies, count);
    var batch := Batch(lobbies, count);
    forall i | 0 <= i < count
      ensures batch[i].id == MAX64 - (MAX_MESSAGES * lobbies + i)
    {
      LongMessageIsTidy(MAX_MESSAGES * lobbies + i);
    }
    LongMessageIsTidy(MAX_MESSAGES * lobbies + count);
  }

  /** The next message goes behind the others of its context. */
  lemma NextMessageIsAppended(lobbies: nat, count: nat)
    requires lobbies < MAX_CONTEXTS && count < MAX_MESSAGES
    ensures WithMessage(Filled(lobbies, count), LongKey(lobbies),
                        LongMessage(MAX_MESSAGES * lobbies + count)) == Filled(lobbies, count + 1)
  {
    hide IndexOf, LongKey, LongMessage, FullContexts;
    var cache, key := Filled(lobbies, count), LongKey(lobbies);
    FilledHasItsKeys(lobbies, count);
    var open := WithContext(cache, key);
    assert open == FullContexts(lobbies) + [Context(key, Batch(lobbies, count))];
    FilledHasItsKeys(lobbies, count + 1);
    SameIndex(open, Filled(lobbies, count + 1), key);
  }

  lemma SameIndex(a: Cache, b: Cache, key: Key)
    requires |a| == |b| && forall i :: 0 <= i < |a| ==> a[i].key == b[i].key
    ensures IndexOf(a, key) == IndexOf(b, key)
  {
  }

  lemma BatchIsTidy(lobby: nat, count: nat)
    requires lobby < MAX_CONTEXTS && count <= MAX_MESSAGES
    ensures AreTidyMessages(Batch(lobby, count))
    ensures forall i :: 0 <= i < count ==> IsRetained(Batch(lobby, count)[i].timestamp, MAX32)
  {
    hide IsTidyMessage, LongMessage, IsRetained;
    forall i | 0 <= i < count
      ensures IsTidyMessage(Batch(lobby, count)[i])
      ensures Batch(lobby, count)[i].id == MAX64 - (MAX_MESSAGES * lobby + i)
      ensures IsRetained(Batch(lobby, count)[i].timestamp, MAX32)
    {
      LongMessageIsTidy(MAX_MESSAGES * lobby + i);
    }
  }

  lemma FilledIsTidy(lobbies: nat, count: nat)
    requires lobbies < MAX_CONTEXTS && count <= MAX_MESSAGES
    ensures IsTidyCache(Filled(lobbies, count)) && AllRetained(Filled(lobbies, count), MAX32)
  {
    hide IsTidyKey, AreTidyMessages, LongKey, Batch, IsRetained;
    var cache := Filled(lobbies, count);
    forall c | 0 <= c < |cache|
      ensures IsTidyContext(cache[c]) && cache[c].key.lobby == MAX32 - c
      ensures forall j :: 0 <= j < |cache[c].messages| ==>
                IsRetained(cache[c].messages[j].timestamp, MAX32)
    {
      LongKeyIsTidy(c);
      BatchIsTidy(c, if c < lobbies then MAX_MESSAGES else count);
    }
  }

  lemma {:induction false} TotalOfFull(lobbies: nat)
    ensures Total(FullContexts(lobbies)) == MAX_MESSAGES * lobbies
  {
    hide LongKey, Batch, Total;
    if lobbies == 0 {
      NothingInTotal();
    } else {
      TotalOfFull(lobbies - 1);
      TotalOfOneMore(FullContexts(lobbies - 1),
                     Context(LongKey(lobbies - 1), Batch(lobbies - 1, MAX_MESSAGES)));
    }
  }

  lemma NothingInTotal()
    ensures Total([]) == 0
  {
  }

  lemma TotalOfOneMore(cache: Cache, c: Context)
    ensures Total(cache + [c]) == Total(cache) + |c.messages|
  {
    assert (cache + [c])[..|cache|] == cache;
  }

  lemma TotalOfFilled(lobbies: nat, count: nat)
    ensures Total(Filled(lobbies, count)) == MAX_MESSAGES * lobbies + count
  {
    hide LongKey, Batch, FullContexts;
    TotalOfFull(lobbies);
    var cache := Filled(lobbies, count);
    if count > 0 {
      assert cache[..lobbies] == FullContexts(lobbies);
    } else {
      assert cache == FullContexts(lobbies);
    }
  }

  // ----- the run -----

  /** While the file still fits, one more arrival of the run adds one more message. */
  lemma LongArrivalIsStored(lobbies: nat, count: nat, file: File)
    requires lobbies < MAX_CONTEXTS && count < MAX_MESSAGES
    requires MAX_MESSAGES * lobbies + count <= FITTING
    requires Holds(file, Filled(lobbies, count))
    ensures var a := LongArrival(MAX_MESSAGES * lobbies + count);
            && Stored(file, true, a.key, a.message, a.now, true).1
            && FileAfter(file, a) == Contents(FileText(Filled(lobbies, count + 1)))
  {
    hide FileText, Loaded, Filled, LongKey, LongMessage, Normalized, Cleaned, IsAcceptable,
      WithMessage, IsKnown;
    var n := MAX_MESSAGES * lobbies + count;
    assert n / MAX_MESSAGES == lobbies;
    LongArrivalIsAccepted(n);
    NextMessageIsNew(lobbies, count);
    NextMessageIsAppended(lobbies, count);
    FilledIsLoadedBack(lobbies, count, file);
  }

  /** A file that holds a cache; none at all is as good as an empty one. */
  ghost predicate Holds(file: File, cache: Cache) {
    file == Contents(FileText(cache)) || (file == Missing && cache == [])
  }

  lemma FilledIsLoadedBack(lobbies: nat, count: nat, file: File)
    requires lobbies < MAX_CONTEXTS && count < MAX_MESSAGES
    requires MAX_MESSAGES * lobbies + count <= FITTING
    requires Holds(file, Filled(lobbies, count))
    ensures Loaded(file, MAX32) == Some(Filled(lobbies, count))
  {
    hide FileText, LoadedLines, LineLength, LongKey, KeptContexts, AnyTooNew, AllRetained;
    var cache := Filled(lobbies, count);
    FilledIsTidy(lobbies, count);
    TotalOfFilled(lobbies, count);
    ModestCachesFit(cache);
    LoadingInvertsSaving(cache, MAX32);
    assert forall i :: 0 <= i < |cache| ==> IsTidyContext(cache[i]);
    AllRetainedIsKept(cache, MAX32);
  }

  lemma FilledWraps(lobbies: nat)
    ensures Filled(lobbies, MAX_MESSAGES) == Filled(lobbies + 1, 0)
  {
    hide LongKey, Batch;
  }

  /** After n arrivals, one more than always fits at the most, the file holds all n messages. */
  lemma {:induction false} LongRunIsStored(n: nat)
    requires n <= FITTING + 1
    ensures Holds(FileAfterAll(LongArrivals(n)), Filled(n / MAX_MESSAGES, n % MAX_MESSAGES))
    ensures n > 0 ==> FileAfterAll(LongArrivals(n)).Contents?
  {
    hide FileAfter, FileText, Filled, LongArrival, LongArrivals, FileAfterAll, Holds, Stored;
    if n == 0 {
      NothingFilled();
    } else {
      var lobbies, count := (n - 1) / MAX_MESSAGES, (n - 1) % MAX_MESSAGES;
      PlaceOfNext(n);
      LongRunIsStored(n - 1);
      var before := FileAfterAll(LongArrivals(n - 1));
      LongArrivalIsStored(lobbies, count, before);
      AfterOneMoreArrival(n);
      FilledWraps(lobbies);
      HoldsText(FileAfter(before, LongArrival(n - 1)), Filled(lobbies, count + 1));
    }
  }

  lemma PlaceOfNext(n: nat)
    requires 0 < n <= FITTING + 1
    ensures var lobbies, count := (n - 1) / MAX_MESSAGES, (n - 1) % MAX_MESSAGES;
            && lobbies < MAX_CONTEXTS && MAX_MESSAGES * lobbies + count == n - 1
            && (if count + 1 == MAX_MESSAGES
                then n / MAX_MESSAGES == lobbies + 1 && n % MAX_MESSAGES == 0
                else n / MAX_MESSAGES == lobbies && n % MAX_MESSAGES == count + 1)
  {
  }

  lemma HoldsText(file: File, cache: Cache)
    requires file == Contents(FileText(cache))
    ensures Holds(file, cache)
  {
  }

  lemma NothingFilled()
    ensures Holds(FileAfterAll(LongArrivals(0)), Filled(0, 0))
  {
  }

  lemma AfterOneMoreArrival(n: nat)
    requires n > 0
    ensures FileAfterAll(LongArrivals(n)) ==
            FileAfter(FileAfterAll(LongArrivals(n - 1)), LongArrival(n - 1))
  {
    hide FileAfter, LongArrival;
    assert LongArrivals(n)[..n - 1] == LongArrivals(n - 1);
  }

  // ----- its size -----

  lemma {:induction false} DigitsAtLeast(n: nat, k: nat)
    requires n >= Power10(k)
    ensures |Digits(n)| > k
    decreases k
  {
    if k > 0 {
      DigitsAtLeast(n / 10, k - 1);
    }
  }

  lemma PowersBelow()
    ensures Power10(4) == 10_000
    ensures Power10(9) == 1_000_000_000
    ensures Power10(19) == 10_000_000_000_000_000_000
  {
    assert Power10(8) == 10_000 * 10_000;
    assert Power10(12) == 10_000 * 100_000_000;
    assert Power10(16) == 10_000 * 1_000_000_000_000;
  }

  lemma LongLine(lobby: nat, n: nat)
    ensures |RecordText(LongKey(lobby), LongMessage(n)) + "\n"| >= 672
  {
    hide Digits, HexEncoded, Joined, Length, Letters, Power10;
    var k, m := LongKey(lobby), LongMessage(n);
    var fields := RecordFields(k, m);
    JoinedLength(fields);
    LengthOfNine(fields);
    PowersBelow();
    DigitsAtLeast(k.port, 4);
    DigitsAtLeast(k.lobby, 9);
    DigitsAtLeast(k.identity, 19);
    DigitsAtLeast(m.sender, 9);
    DigitsAtLeast(m.id, 19);
    DigitsAtLeast(m.timestamp, 9);
  }

  lemma {:induction false} FlattenIsLong(lines: seq<string>, width: nat)
    requires forall i :: 0 <= i < |lines| ==> |lines[i]| >= width
    ensures |Flatten(lines)| >= width * |lines|
  {
    if lines != [] {
      var n := |lines| - 1;
      FlattenIsLong(lines[..n], width);
      assert width * |lines| == width * n + width;
    }
  }

  /** Contexts with keys and messages of the greatest length only. */
  ghost predicate IsLong(cache: Cache) {
    forall c :: 0 <= c < |cache| ==>
      && cache[c].key == LongKey(c)
      && forall i :: 0 <= i < |cache[c].messages| ==>
           cache[c].messages[i] == LongMessage(MAX_MESSAGES * c + i)
  }

  lemma {:induction false} LongLines(cache: Cache)
    requires IsLong(cache)
    ensures forall i :: 0 <= i < |CacheLines(cache)| ==> |CacheLines(cache)[i]| >= 672
  {
    hide RecordText, LongKey, LongMessage, ContextLines;
    if cache != [] {
      var c := |cache| - 1;
      LongLines(cache[..c]);
      var context := cache[c];
      ContextLineCount(context.key, context.messages);
      forall i | 0 <= i < |context.messages|
        ensures |ContextLines(context.key, context.messages)[i]| >= 672
      {
        LongLine(c, MAX_MESSAGES * c + i);
      }
    }
  }

  lemma FilledIsLong(lobbies: nat, count: nat)
    ensures |FileText(Filled(lobbies, count))| >= 21 + 672 * (MAX_MESSAGES * lobbies + count)
  {
    hide CacheLines, LongKey, LongMessage, Total;
    var cache := Filled(lobbies, count);
    LongLines(cache);
    FlattenIsLong(CacheLines(cache), 672);
    LineCount(cache);
    TotalOfFilled(lobbies, count);
  }

  /** 391 accepted messages, with every read and write working, lead to a file that is refused at
      every later moment; 390 of whatever length never do. */
  lemma RunReachesARefusedFile(now: nat)
    ensures forall i :: 0 <= i < FITTING + 1 ==>
              && IsReceivable(LongArrival(i).key, LongArrival(i).message)
              && IsAcceptable(LongArrival(i).key, LongArrival(i).message, LongArrival(i).now)
    ensures var file := FileAfterAll(LongArrivals(FITTING + 1));
            file.Contents? && |file.text| > MAX_FILE && Loaded(file, now).None?
  {
    hide Loaded, Filled, FileText, LongArrival, IsReceivable, IsAcceptable, FileAfterAll,
      LongArrivals;
    forall i | 0 <= i < FITTING + 1
      ensures IsReceivable(LongArrival(i).key, LongArrival(i).message)
      ensures IsAcceptable(LongArrival(i).key, LongArrival(i).message, LongArrival(i).now)
    {
      LongArrivalIsAccepted(i);
    }
    LongRunIsStored(FITTING + 1);
    FilledIsLong(7, 41);
    FilledIsTidy(7, 41);
    LoadingInvertsSaving(Filled(7, 41), now);
  }

  /** And whatever message is stored next, it is the only one left: the other 391 are gone. */
  lemma RunLosesItsHistory(a: Arrival)
    requires IsAcceptable(a.key, a.message, a.now) && a.writes
    ensures FileAfter(FileAfterAll(LongArrivals(FITTING + 1)), a)
         == Contents(FileText([Context(Normalized(a.key).value, [Cleaned(a.message)])]))
  {
    hide Filled, FileText, IsAcceptable, FileAfterAll, LongArrivals, FileAfter, Normalized, Cleaned;
    LongRunIsStored(FITTING + 1);
    FilledIsLong(7, 41);
    FilledIsTidy(7, 41);
    OversizedFileIsForgotten(Filled(7, 41), a);
  }
}
