/** What a reader of the chat history sees: the newest messages that arrived for the lobby since it was
    opened, while the eight lobbies opened last stay open. */
module ChatReader {
  import opened Sequences
  import opened ChatText
  import opened ChatRecord
  import opened ChatCache
  import opened ChatHistory

  /** A lobby as its readers know it: when it was opened, and every message since. */
  datatype Lobby = Lobby(key: Key, since: nat, history: seq<Message>)

  function KeyOf(a: Arrival): Key {
    if Normalized(a.key).Some? then Normalized(a.key).value else a.key
  }

  function Place(lobbies: seq<Lobby>, key: Key): (i: nat)
    ensures i <= |lobbies|
    ensures i < |lobbies| ==> lobbies[i].key == key
    ensures i == |lobbies| ==> forall j :: 0 <= j < |lobbies| ==> lobbies[j].key != key
  {
    if lobbies == [] then 0
    else if lobbies[0].key == key then 0
    else 1 + Place(lobbies[1..], key)
  }

  /** A message joins its lobby's history; a ninth lobby takes the place of the one opened first. */
  function WithArrival(lobbies: seq<Lobby>, key: Key, m: Message, at: nat): seq<Lobby> {
    var i := Place(lobbies, key);
    if i < |lobbies| then lobbies[i := lobbies[i].(history := lobbies[i].history + [m])]
    else (if |lobbies| == MAX_CONTEXTS then lobbies[1..] else lobbies) + [Lobby(key, at, [m])]
  }

  function LobbiesAfter(arrivals: seq<Arrival>): seq<Lobby> {
    if arrivals == [] then []
    else
      var n := |arrivals| - 1;
      WithArrival(LobbiesAfter(arrivals[..n]), KeyOf(arrivals[n]), Cleaned(arrivals[n].message), n)
  }

  function LastOf<T>(s: seq<T>, n: nat): seq<T> {
    if |s| <= n then s else s[|s| - n..]
  }

  /** The messages that arrived for one lobby, in order. */
  function Mine(arrivals: seq<Arrival>, key: Key): seq<Message> {
    if arrivals == [] then []
    else
      var n := |arrivals| - 1;
      Mine(arrivals[..n], key)
      + (if KeyOf(arrivals[n]) == key then [Cleaned(arrivals[n].message)] else [])
  }

  // ----- the cache holds the ends of the histories -----

  function Shown(lobbies: seq<Lobby>): (cache: Cache)
    ensures |cache| == |lobbies|
    ensures forall i :: 0 <= i < |lobbies| ==>
              cache[i] == Context(lobbies[i].key, LastOf(lobbies[i].history, MAX_MESSAGES))
  {
    seq(|lobbies|, i requires 0 <= i < |lobbies| =>
          Context(lobbies[i].key, LastOf(lobbies[i].history, MAX_MESSAGES)))
  }

  ghost predicate AreDistinct(lobbies: seq<Lobby>) {
    forall i, j :: 0 <= i < j < |lobbies| ==> lobbies[i].key != lobbies[j].key
  }

  lemma AppendingToTheEnd(history: seq<Message>, m: Message)
    ensures Appended(LastOf(history, MAX_MESSAGES), m) == LastOf(history + [m], MAX_MESSAGES)
  {
  }

  lemma PlaceIsIndex(lobbies: seq<Lobby>, key: Key)
    requires AreDistinct(lobbies)
    ensures IndexOf(Shown(lobbies), key) == Place(lobbies, key)
  {
    hide Shown, LastOf;
    var cache, i := Shown(lobbies), Place(lobbies, key);
    if i < |lobbies| {
      assert cache[i].key == key;
    }
  }

  lemma ArrivalKeepsDistinct(lobbies: seq<Lobby>, key: Key, m: Message, at: nat)
    requires AreDistinct(lobbies)
    ensures AreDistinct(WithArrival(lobbies, key, m, at))
  {
    hide Place;
  }

  lemma ArrivalIsShown(lobbies: seq<Lobby>, key: Key, m: Message, at: nat)
    requires AreDistinct(lobbies)
    ensures WithMessage(Shown(lobbies), key, m) == Shown(WithArrival(lobbies, key, m, at))
  {
    hide Shown, LastOf, Appended, Place, WithContext;
    PlaceIsIndex(lobbies, key);
    var i := Place(lobbies, key);
    if i < |lobbies| {
      ContextIsThere(Shown(lobbies), key);
      AppendingToTheEnd(lobbies[i].history, m);
    } else {
      NewContextIsLast(Shown(lobbies), key);
      AppendingToTheEnd([], m);
      AppendingToNothing(m);
    }
  }

  lemma ContextIsThere(cache: Cache, key: Key)
    requires IndexOf(cache, key) < |cache|
    ensures WithContext(cache, key) == cache
  {
  }

  lemma NewContextIsLast(cache: Cache, key: Key)
    requires IndexOf(cache, key) == |cache|
    ensures var kept := if |cache| == MAX_CONTEXTS then cache[1..] else cache;
            && WithContext(cache, key) == kept + [Context(key, [])]
            && IndexOf(WithContext(cache, key), key) == |kept|
  {
    var kept := if |cache| == MAX_CONTEXTS then cache[1..] else cache;
    var open := kept + [Context(key, [])];
    assert open[|kept|].key == key;
    assert forall j :: 0 <= j < |kept| ==> open[j].key != key;
  }

  lemma AppendingToNothing(m: Message)
    ensures Appended([], m) == [m] == LastOf([m], MAX_MESSAGES)
  {
  }

  // ----- smooth runs -----

  /** Acceptable messages with ids of their own, all of them retained whenever one arrives, with
      reads and writes that work. */
  ghost predicate AreSmooth(arrivals: seq<Arrival>) {
    && (forall i :: 0 <= i < |arrivals| ==>
          && IsReceivable(arrivals[i].key, arrivals[i].message)
          && IsAcceptable(arrivals[i].key, arrivals[i].message, arrivals[i].now)
          && arrivals[i].readable && arrivals[i].writes)
    && (forall i, j :: 0 <= i < j < |arrivals| ==> arrivals[i].message.id != arrivals[j].message.id)
    && forall i, j :: 0 <= i <= j < |arrivals| ==>
         IsRetained(arrivals[i].message.timestamp, arrivals[j].now)
  }

  ghost predicate AreRetained(arrivals: seq<Arrival>, now: nat) {
    forall i :: 0 <= i < |arrivals| ==> IsRetained(arrivals[i].message.timestamp, now)
  }

  predicate Fits(file: File) {
    file.Contents? ==> |file.text| <= MAX_FILE
  }

  /** The file stays within its limit all the way. */
  ghost predicate AllFit(arrivals: seq<Arrival>) {
    forall n :: 0 <= n <= |arrivals| ==> Fits(FileAfterAll(arrivals[..n]))
  }

  /** Messages of a lobby come from the arrivals. */
  ghost predicate Came(arrivals: seq<Arrival>, lobbies: seq<Lobby>) {
    forall l, m :: l in lobbies && m in l.history ==>
      exists i :: 0 <= i < |arrivals| && m == Cleaned(arrivals[i].message)
  }

  lemma CameOneMore(arrivals: seq<Arrival>, lobbies: seq<Lobby>)
    requires arrivals != [] && Came(arrivals[..|arrivals| - 1], lobbies)
    ensures var n := |arrivals| - 1;
            Came(arrivals, WithArrival(lobbies, KeyOf(arrivals[n]), Cleaned(arrivals[n].message), n))
  {
    hide Cleaned, KeyOf, Place;
    var n := |arrivals| - 1;
    var key, m := KeyOf(arrivals[n]), Cleaned(arrivals[n].message);
    var after := WithArrival(lobbies, key, m, n);
    forall l, x | l in after && x in l.history
      ensures exists i :: 0 <= i < |arrivals| && x == Cleaned(arrivals[i].message)
    {
      if x == m {
        assert m == Cleaned(arrivals[n].message);
      } else {
        var l' := EarlierLobby(lobbies, key, m, n, l, x);
        assert l' in lobbies && x in l'.history;
        var i :| 0 <= i < n && x == Cleaned(arrivals[..n][i].message);
        assert arrivals[i] == arrivals[..n][i];
      }
    }
  }

  lemma EarlierLobby(lobbies: seq<Lobby>, key: Key, m: Message, at: nat, l: Lobby, x: Message)
    returns (before: Lobby)
    requires l in WithArrival(lobbies, key, m, at) && x in l.history && x != m
    ensures before in lobbies && x in before.history
  {
    hide Place;
    var i := Place(lobbies, key);
    if i < |lobbies| && l == lobbies[i].(history := lobbies[i].history + [m]) {
      before := lobbies[i];
    } else {
      before := l;
    }
  }

  /** The run so far: the file holds the ends of the histories. */
  ghost predicate Reads(arrivals: seq<Arrival>) {
    var lobbies, file := LobbiesAfter(arrivals), FileAfterAll(arrivals);
    && AreDistinct(lobbies) && Came(arrivals, lobbies)
    && IsTidyCache(Shown(lobbies))
    && if arrivals == [] then file == Missing else file == Contents(FileText(Shown(lobbies)))
  }

  lemma ShownAreRetained(arrivals: seq<Arrival>, lobbies: seq<Lobby>, now: nat)
    requires Came(arrivals, lobbies) && AreRetained(arrivals, now)
    ensures AllRetained(Shown(lobbies), now)
  {
    hide IsRetained;
    var cache := Shown(lobbies);
    forall i, j | 0 <= i < |cache| && 0 <= j < |cache[i].messages|
      ensures IsRetained(cache[i].messages[j].timestamp, now)
    {
      var m := cache[i].messages[j];
      assert lobbies[i] in lobbies && m in lobbies[i].history;
      var k :| 0 <= k < |arrivals| && m == Cleaned(arrivals[k].message);
    }
  }

  lemma NotShownYet(arrivals: seq<Arrival>, lobbies: seq<Lobby>, key: Key, m: Message)
    requires Came(arrivals, lobbies)
    requires forall i :: 0 <= i < |arrivals| ==> arrivals[i].message.id != m.id
    ensures !IsKnown(Shown(lobbies), key, m)
  {
    hide IndexOf;
    var cache, i := Shown(lobbies), IndexOf(Shown(lobbies), key);
    if i < |cache| {
      forall x | x in cache[i].messages
        ensures !AreDuplicates(x, m)
      {
        assert lobbies[i] in lobbies && x in lobbies[i].history;
        var k :| 0 <= k < |arrivals| && x == Cleaned(arrivals[k].message);
      }
    }
  }

  /** The file of a smooth run is read as the ends of the histories. */
  lemma FileIsRead(arrivals: seq<Arrival>, now: nat)
    requires Reads(arrivals) && Fits(FileAfterAll(arrivals)) && AreRetained(arrivals, now)
    ensures Loaded(FileAfterAll(arrivals), now) == Some(Shown(LobbiesAfter(arrivals)))
  {
    hide FileText, FileAfterAll, LobbiesAfter, Shown, KeptContexts, AnyTooNew, AllRetained, Came,
      AreRetained, IsTidyContext;
    if arrivals == [] {
      NothingIsShown(now);
    } else {
      var cache := Shown(LobbiesAfter(arrivals));
      ShownAreRetained(arrivals, LobbiesAfter(arrivals), now);
      assert forall i :: 0 <= i < |cache| ==> IsTidyContext(cache[i]);
      TidyHasMessages(cache);
      AllRetainedIsKept(cache, now);
      LoadingInvertsSaving(cache, now);
    }
  }

  lemma TidyHasMessages(cache: Cache)
    requires IsTidyCache(cache)
    ensures forall i :: 0 <= i < |cache| ==> cache[i].messages != []
  {
    hide AreTidyMessages;
  }

  lemma NothingIsShown(now: nat)
    ensures LobbiesAfter([]) == [] && Shown([]) == [] && FileAfterAll([]) == Missing
    ensures Loaded(Missing, now) == Some([])
  {
  }

  lemma NothingReads()
    ensures Reads([])
  {
  }

  lemma LastIsSmooth(arrivals: seq<Arrival>)
    requires arrivals != [] && AreSmooth(arrivals)
    ensures var n := |arrivals| - 1;
            var front, a := arrivals[..n], arrivals[n];
            && IsReceivable(a.key, a.message) && IsAcceptable(a.key, a.message, a.now)
            && a.readable && a.writes && AreRetained(front, a.now)
            && forall i :: 0 <= i < n ==> front[i].message.id != Cleaned(a.message).id
  {
    hide IsReceivable, IsRetained, IsAcceptable, Sanitized;
  }

  lemma ArrivalReads(arrivals: seq<Arrival>)
    requires arrivals != [] && AreSmooth(arrivals) && Reads(arrivals[..|arrivals| - 1])
    requires Fits(FileAfterAll(arrivals[..|arrivals| - 1]))
    ensures Reads(arrivals)
  {
    hide AreSmooth, AreRetained, Came, WithArrival, WithMessage, Shown, Loaded, FileText, IsTidyCache,
      AreDistinct, Cleaned, Normalized, IsReceivable, IsRetained, IsKnown, IsTidyKey, IsTidyMessage,
      FileAfterAll, LobbiesAfter;
    var n := |arrivals| - 1;
    var front, a := arrivals[..n], arrivals[n];
    var lobbies, key, m := LobbiesAfter(front), KeyOf(a), Cleaned(a.message);
    LastIsSmooth(arrivals);
    OneMoreArrival(arrivals);
    FileIsRead(front, a.now);
    NotShownYet(front, lobbies, key, m);
    AcceptedIsTidy(a.key, a.message, a.now);
    StoringKeepsTidy(Shown(lobbies), key, m);
    ArrivalIsShown(lobbies, key, m, n);
    ArrivalKeepsDistinct(lobbies, key, m, n);
    CameOneMore(arrivals, lobbies);
  }

  lemma OneMoreArrival(arrivals: seq<Arrival>)
    requires arrivals != []
    ensures var n := |arrivals| - 1;
            && FileAfterAll(arrivals) == FileAfter(FileAfterAll(arrivals[..n]), arrivals[n])
            && LobbiesAfter(arrivals) == WithArrival(LobbiesAfter(arrivals[..n]), KeyOf(arrivals[n]),
                                                     Cleaned(arrivals[n].message), n)
  {
    hide FileAfter, WithArrival, KeyOf, Cleaned;
  }

  lemma SmoothPrefix(arrivals: seq<Arrival>, n: nat)
    requires AreSmooth(arrivals) && AllFit(arrivals) && n <= |arrivals|
    ensures AreSmooth(arrivals[..n]) && AllFit(arrivals[..n])
  {
    hide IsReceivable, IsAcceptable, IsRetained, FileAfterAll, Fits;
    forall k | 0 <= k <= n
      ensures Fits(FileAfterAll(arrivals[..n][..k]))
    {
      assert arrivals[..n][..k] == arrivals[..k];
    }
  }

  lemma {:induction false} SmoothRunReads(arrivals: seq<Arrival>)
    requires AreSmooth(arrivals) && AllFit(arrivals)
    ensures Reads(arrivals) && Fits(FileAfterAll(arrivals))
  {
    assert arrivals[..|arrivals|] == arrivals;
    hide AreSmooth, Reads, Fits, FileAfterAll;
    if arrivals == [] {
      NothingReads();
    } else {
      var n := |arrivals| - 1;
      SmoothPrefix(arrivals, n);
      SmoothRunReads(arrivals[..n]);
      ArrivalReads(arrivals);
    }
  }

  // ----- what a reader sees -----

  /** The messages a lobby's readers have, none when it is not open. */
  function HistoryOf(lobbies: seq<Lobby>, key: Key): seq<Message> {
    var i := Place(lobbies, key);
    if i < |lobbies| then lobbies[i].history else []
  }

  lemma LastOfTheLast(history: seq<Message>, n: nat, capacity: nat)
    ensures LastOf(LastOf(history, n), capacity) ==
            LastOf(history, if n < capacity then n else capacity)
  {
  }

  /** Over every smooth run whose file stays within its limit: a reader of a lobby sees the end of its
      history, at most 50 messages and at most as many as asked for. */
  lemma ReaderSeesTheEnd(arrivals: seq<Arrival>, k: Key, now: nat, capacity: nat)
    requires AreSmooth(arrivals) && AllFit(arrivals) && AreRetained(arrivals, now)
    requires Normalized(k).Some?
    ensures LatestOf(FileAfterAll(arrivals), k, now, capacity) ==
            LastOf(HistoryOf(LobbiesAfter(arrivals), Normalized(k).value),
                   if MAX_MESSAGES < capacity then MAX_MESSAGES else capacity)
  {
    hide AreSmooth, AllFit, AreRetained, FileAfterAll, LobbiesAfter, Normalized, Loaded, Came,
      IsTidyCache, Place, LastOf, Fits, FileText, IndexOf, Shown;
    var lobbies, key := LobbiesAfter(arrivals), Normalized(k).value;
    SmoothRunReads(arrivals);
    FileIsRead(arrivals, now);
    PlaceIsIndex(lobbies, key);
    var i := Place(lobbies, key);
    LastOfNothing(capacity);
    if i < |lobbies| {
      LastOfTheLast(lobbies[i].history, MAX_MESSAGES, capacity);
      LatestIsLast(LastOf(lobbies[i].history, MAX_MESSAGES), capacity);
    } else {
      LastOfNothing(MAX_MESSAGES);
    }
  }

  lemma LastOfNothing(n: nat)
    ensures LastOf<Message>([], n) == []
    ensures forall s: seq<Message> :: LastOf(s, 0) == []
  {
  }

  lemma LatestIsLast(messages: seq<Message>, capacity: nat)
    ensures messages[if |messages| < capacity then 0 else |messages| - capacity..]
         == LastOf(messages, capacity)
  {
  }

  /** A message alone in the file is shown from 300 s before its time until seven days after it, and
      at no other time. */
  lemma MessageIsShownExactlyWhile(key: Key, m: Message, k: Key, now: nat, capacity: nat)
    requires IsTidyKey(key) && IsTidyMessage(m) && Normalized(k) == Some(key) && capacity > 0
    ensures LatestOf(Contents(FileText([Context(key, [m])])), k, now, capacity) ==
            if m.timestamp as int - 300 <= now <= m.timestamp + 604800 then [m] else []
  {
    hide IsTidyKey, IsTidyMessage, Normalized, FileText, Loaded, LatestOf, IsTidyCache, AnyTooNew,
      KeptContexts, Total;
    var cache := [Context(key, [m])];
    OneMessageIsTidy(key, m);
    ModestCachesFit(cache);
    LoadingInvertsSaving(cache, now);
    OneMessageIsKept(key, m, now);
    LatestOfOne(Contents(FileText(cache)), key, m, k, now, capacity);
  }

  lemma LatestOfOne(file: File, key: Key, m: Message, k: Key, now: nat, capacity: nat)
    requires Normalized(k) == Some(key) && capacity > 0
    ensures Loaded(file, now) == Some([Context(key, [m])]) ==> LatestOf(file, k, now, capacity) == [m]
    ensures Loaded(file, now).None? || Loaded(file, now) == Some([]) ==>
              LatestOf(file, k, now, capacity) == []
  {
    hide Normalized, Loaded;
  }

  lemma OneMessageIsTidy(key: Key, m: Message)
    requires IsTidyKey(key) && IsTidyMessage(m)
    ensures IsTidyCache([Context(key, [m])]) && Total([Context(key, [m])]) <= 390
    ensures m.timestamp != 0
  {
    hide IsTidyKey;
    assert [Context(key, [m])][..0] == [];
  }

  lemma OneMessageIsKept(key: Key, m: Message, now: nat)
    requires m.timestamp != 0
    ensures var cache := [Context(key, [m])];
            && (AnyTooNew(cache, now) <==> now < m.timestamp as int - 300)
            && KeptContexts(cache, now) ==
                 if m.timestamp as int - 300 <= now <= m.timestamp + 604800 then cache else []
  {
    var cache := [Context(key, [m])];
    assert cache[..0] == [] && [m][..0] == [];
    assert m in cache[0].messages && cache[0] in cache;
    assert Kept([m], now) == if IsRetained(m.timestamp, now) then [m] else [];
    assert KeptContexts(cache, now)
        == if Kept([m], now) == [] then [] else [Context(key, Kept([m], now))];
  }

  /** The answer to a message is honest. Refused, it leaves the file as it was; stored, it is in the
      history read back at once, if the file fits; and an acceptable one is refused only when the
      file cannot be written. */
  lemma AnswerIsHonest(file: File, a: Arrival)
    requires IsTidyFile(file) && IsReceivable(a.key, a.message)
    ensures var (after, ok) := Stored(file, a.readable, a.key, a.message, a.now, a.writes);
            && (!ok ==> after == file)
            && (ok ==> IsAcceptable(a.key, a.message, a.now))
            && (IsAcceptable(a.key, a.message, a.now) && a.writes ==> ok)
            && (ok && Fits(after) ==>
                  IsKnown(History(after, a.now), Normalized(a.key).value, Cleaned(a.message)))
            && (!a.writes ==> after == file)
  {
    hide FileText, Loaded, Normalized, Cleaned, WithMessage, IsKnown, IsTidyFile, IsReceivable,
      IsRetained;
    if IsAcceptable(a.key, a.message, a.now) {
      var history := History(if a.readable then file else Unreadable, a.now);
      var key, clean := Normalized(a.key).value, Cleaned(a.message);
      NothingIsKnown(key, clean);
      NothingUnreadableIsLoaded(a.now);
      if !IsKnown(history, key, clean) && a.writes {
        StoredMessageIsLoadedBack(file, a);
        CleanedId(a.message);
        StoredIsKnown(history, key, clean);
      }
    }
  }

  lemma CleanedId(m: Message)
    ensures Cleaned(m).id == m.id
  {
  }

  lemma StoredIsKnown(cache: Cache, key: Key, m: Message)
    requires m.id != 0
    ensures IsKnown(WithMessage(cache, key, m), key, m)
  {
    hide WithMessage, IndexOf;
    MessageIsLastOfItsContext(cache, key, m);
    var after := WithMessage(cache, key, m);
    var i := IndexOf(after, key);
    assert after[i].messages[|after[i].messages| - 1] in after[i].messages;
  }

  // ----- up to eight lobbies -----

  function Keys(arrivals: seq<Arrival>): set<Key> {
    set a | a in arrivals :: KeyOf(a)
  }

  /** Every lobby anything arrived for is open, with all of its messages. */
  ghost predicate AllOpen(arrivals: seq<Arrival>, lobbies: seq<Lobby>) {
    && AreDistinct(lobbies)
    && (forall i :: 0 <= i < |lobbies| ==> lobbies[i].key in Keys(arrivals))
    && forall key :: HistoryOf(lobbies, key) == Mine(arrivals, key)
  }

  lemma {:induction false} NothingForOthers(arrivals: seq<Arrival>, key: Key)
    requires key !in Keys(arrivals)
    ensures Mine(arrivals, key) == []
  {
    hide KeyOf, Cleaned;
    if arrivals != [] {
      var n := |arrivals| - 1;
      assert arrivals[n] in arrivals && forall a :: a in arrivals[..n] ==> a in arrivals;
      NothingForOthers(arrivals[..n], key);
    }
  }

  lemma {:induction false} SomethingForEach(arrivals: seq<Arrival>, key: Key)
    requires key in Keys(arrivals)
    ensures Mine(arrivals, key) != []
  {
    hide KeyOf, Cleaned;
    var n := |arrivals| - 1;
    if KeyOf(arrivals[n]) != key {
      var a :| a in arrivals && KeyOf(a) == key;
      assert a in arrivals[..n];
      SomethingForEach(arrivals[..n], key);
    }
  }

  lemma KeysGrow(front: seq<Arrival>, a: Arrival)
    ensures Keys(front + [a]) == Keys(front) + {KeyOf(a)}
  {
    hide KeyOf;
    assert forall x :: x in front + [a] <==> x in front || x == a;
  }

  /** With room for the key no lobby is closed. */
  lemma RoomForTheKey(lobbies: seq<Lobby>, keys: set<Key>, key: Key)
    requires AreDistinct(lobbies) && key in keys && |keys| <= MAX_CONTEXTS
    requires forall i :: 0 <= i < |lobbies| ==> lobbies[i].key in keys && lobbies[i].key != key
    ensures |lobbies| < MAX_CONTEXTS
  {
    var all := seq(|lobbies|, i requires 0 <= i < |lobbies| => lobbies[i].key);
    CountDistinct(all);
    var used := set k | k in all;
    assert used + {key} <= keys;
    SubsetSize(used + {key}, keys);
  }

  lemma HistoryAfterArrival(lobbies: seq<Lobby>, key: Key, m: Message, at: nat, k: Key)
    requires AreDistinct(lobbies) && (Place(lobbies, key) == |lobbies| ==> |lobbies| < MAX_CONTEXTS)
    ensures HistoryOf(WithArrival(lobbies, key, m, at), k) ==
            HistoryOf(lobbies, k) + (if k == key then [m] else [])
  {
    hide Place;
    var after := WithArrival(lobbies, key, m, at);
    ArrivalKeepsDistinct(lobbies, key, m, at);
    assert HistoryOf(lobbies, k) + [] == HistoryOf(lobbies, k);
    if Place(lobbies, key) == |lobbies| {
      assert after[|lobbies|].key == key;
    }
    var i := Place(lobbies, k);
    if i < |lobbies| {
      assert after[i].key == k;
    }
  }

  lemma {:induction false} EightLobbiesStayOpen(arrivals: seq<Arrival>)
    requires |Keys(arrivals)| <= MAX_CONTEXTS
    ensures AllOpen(arrivals, LobbiesAfter(arrivals))
  {
    hide KeyOf, Cleaned, Keys, AreDistinct, HistoryOf, WithArrival;
    if arrivals == [] {
      NothingIsOpen();
    } else {
      var n := |arrivals| - 1;
      var front, a := arrivals[..n], arrivals[n];
      assert arrivals == front + [a];
      KeysGrow(front, a);
      SubsetSize(Keys(front), Keys(arrivals));
      EightLobbiesStayOpen(front);
      OneMoreStaysOpen(front, LobbiesAfter(front), a, n);
    }
  }

  lemma NothingIsOpen()
    ensures AllOpen([], [])
  {
  }

  lemma OneMoreStaysOpen(front: seq<Arrival>, lobbies: seq<Lobby>, a: Arrival, at: nat)
    requires AllOpen(front, lobbies) && |Keys(front + [a])| <= MAX_CONTEXTS
    ensures AllOpen(front + [a], WithArrival(lobbies, KeyOf(a), Cleaned(a.message), at))
  {
    hide KeyOf, Cleaned, Keys, AreDistinct, HistoryOf, Place;
    var key, m := KeyOf(a), Cleaned(a.message);
    var after := WithArrival(lobbies, key, m, at);
    KeysGrow(front, a);
    ArrivalKeepsDistinct(lobbies, key, m, at);
    if Place(lobbies, key) == |lobbies| {
      RoomForTheKey(lobbies, Keys(front + [a]), key);
    }
    forall k
      ensures HistoryOf(after, k) == Mine(front + [a], k)
    {
      HistoryAfterArrival(lobbies, key, m, at, k);
      assert (front + [a])[..|front|] == front;
    }
  }

  /** With at most eight lobbies: a reader of any lobby sees the last min(capacity, 50, n) of the n
      messages that arrived for it, in order of arrival. */
  lemma ReaderSeesTheLastMessages(arrivals: seq<Arrival>, k: Key, now: nat, capacity: nat)
    requires AreSmooth(arrivals) && AllFit(arrivals) && AreRetained(arrivals, now)
    requires Normalized(k).Some? && |Keys(arrivals)| <= MAX_CONTEXTS
    ensures LatestOf(FileAfterAll(arrivals), k, now, capacity) ==
            LastOf(Mine(arrivals, Normalized(k).value),
                   if MAX_MESSAGES < capacity then MAX_MESSAGES else capacity)
  {
    hide AreSmooth, AllFit, AreRetained, FileAfterAll, LobbiesAfter, Normalized, LatestOf, LastOf,
      Keys, Mine, HistoryOf, AreDistinct;
    ReaderSeesTheEnd(arrivals, k, now, capacity);
    EightLobbiesStayOpen(arrivals);
  }

  // ----- a ninth lobby -----

  /** Open lobbies stand in the order in which they were opened. */
  ghost predicate InOrderOfOpening(lobbies: seq<Lobby>, n: nat) {
    && (forall i :: 0 <= i < |lobbies| ==> lobbies[i].since < n)
    && forall i, j :: 0 <= i < j < |lobbies| ==> lobbies[i].since < lobbies[j].since
  }

  /** Each has the messages that arrived for it since it was opened by the first of them. */
  ghost predicate HasAllSince(arrivals: seq<Arrival>, l: Lobby) {
    && l.since < |arrivals| && KeyOf(arrivals[l.since]) == l.key
    && l.history == Mine(arrivals[l.since..], l.key)
  }

  lemma MineGrows(arrivals: seq<Arrival>, a: Arrival, from: nat, key: Key)
    requires from <= |arrivals|
    ensures Mine((arrivals + [a])[from..], key) ==
            Mine(arrivals[from..], key) + (if KeyOf(a) == key then [Cleaned(a.message)] else [])
  {
    hide KeyOf, Cleaned;
    var all := (arrivals + [a])[from..];
    assert all == arrivals[from..] + [a] && all[..|all| - 1] == arrivals[from..];
  }

  lemma SinceGrows(arrivals: seq<Arrival>, a: Arrival, l: Lobby)
    requires HasAllSince(arrivals, l)
    ensures HasAllSince(arrivals + [a],
                        if KeyOf(a) == l.key then l.(history := l.history + [Cleaned(a.message)])
                        else l)
  {
    hide KeyOf, Cleaned, Mine;
    MineGrows(arrivals, a, l.since, l.key);
    assert l.history + [] == l.history;
  }

  lemma OpensAt(arrivals: seq<Arrival>, a: Arrival)
    ensures HasAllSince(arrivals + [a], Lobby(KeyOf(a), |arrivals|, [Cleaned(a.message)]))
  {
    hide KeyOf, Cleaned;
    MineGrows(arrivals, a, |arrivals|, KeyOf(a));
    assert arrivals[|arrivals|..] == [];
  }

  lemma StaysInOrder(lobbies: seq<Lobby>, key: Key, m: Message, at: nat)
    requires InOrderOfOpening(lobbies, at)
    ensures InOrderOfOpening(WithArrival(lobbies, key, m, at), at + 1)
  {
    hide Place;
  }

  lemma EachHasAllSince(arrivals: seq<Arrival>, a: Arrival, lobbies: seq<Lobby>, l: Lobby)
    requires AreDistinct(lobbies) && forall x :: x in lobbies ==> HasAllSince(arrivals, x)
    requires l in WithArrival(lobbies, KeyOf(a), Cleaned(a.message), |arrivals|)
    ensures HasAllSince(arrivals + [a], l)
  {
    hide KeyOf, Cleaned, HasAllSince, Place;
    var key, m := KeyOf(a), Cleaned(a.message);
    var i := Place(lobbies, key);
    OpensAt(arrivals, a);
    if i < |lobbies| && l == lobbies[i].(history := lobbies[i].history + [m]) {
      SinceGrows(arrivals, a, lobbies[i]);
    } else if l in lobbies {
      SinceGrows(arrivals, a, l);
    }
  }

  lemma {:induction false} LobbiesHaveAllSince(arrivals: seq<Arrival>)
    ensures var lobbies := LobbiesAfter(arrivals);
            && AreDistinct(lobbies) && InOrderOfOpening(lobbies, |arrivals|)
            && forall l :: l in lobbies ==> HasAllSince(arrivals, l)
  {
    hide KeyOf, Cleaned, HasAllSince, WithArrival, AreDistinct, InOrderOfOpening;
    if arrivals == [] {
      NoneIsOpen();
    } else {
      var n := |arrivals| - 1;
      var front, a := arrivals[..n], arrivals[n];
      LobbiesHaveAllSince(front);
      assert arrivals == front + [a];
      var lobbies := LobbiesAfter(front);
      ArrivalKeepsDistinct(lobbies, KeyOf(a), Cleaned(a.message), n);
      StaysInOrder(lobbies, KeyOf(a), Cleaned(a.message), n);
      forall l | l in LobbiesAfter(arrivals)
        ensures HasAllSince(arrivals, l)
      {
        EachHasAllSince(front, a, lobbies, l);
      }
    }
  }

  lemma NoneIsOpen()
    ensures LobbiesAfter([]) == [] && AreDistinct([]) && InOrderOfOpening([], 0)
  {
  }

  /** When a message opens a ninth lobby, the one opened longest ago disappears: its readers see
      nothing, the readers of every other open lobby see what they saw, and the new lobby shows the
      one message. */
  lemma NinthLobbyClosesTheOldest(arrivals: seq<Arrival>, a: Arrival, k: Key)
    requires |LobbiesAfter(arrivals)| == MAX_CONTEXTS
    requires HistoryOf(LobbiesAfter(arrivals), KeyOf(a)) == []
    requires forall l :: l in LobbiesAfter(arrivals) ==> l.key != KeyOf(a)
    ensures var lobbies, after := LobbiesAfter(arrivals), LobbiesAfter(arrivals + [a]);
            && (forall l :: l in lobbies ==> HasAllSince(arrivals, l))
            && (forall l :: l in lobbies[1..] ==> lobbies[0].since < l.since)
            && HistoryOf(after, k) ==
                 if k == lobbies[0].key then []
                 else if k == KeyOf(a) then [Cleaned(a.message)]
                 else HistoryOf(lobbies, k)
  {
    hide KeyOf, Cleaned, HasAllSince, HistoryOf, WithArrival, AreDistinct;
    LobbiesHaveAllSince(arrivals);
    assert (arrivals + [a])[..|arrivals|] == arrivals;
    FirstOneCloses(LobbiesAfter(arrivals), KeyOf(a), Cleaned(a.message), |arrivals|, k);
  }

  lemma FirstOneCloses(lobbies: seq<Lobby>, key: Key, m: Message, at: nat, k: Key)
    requires AreDistinct(lobbies) && |lobbies| == MAX_CONTEXTS
    requires forall l :: l in lobbies ==> l.key != key
    ensures HistoryOf(WithArrival(lobbies, key, m, at), k) ==
              if k == lobbies[0].key then []
              else if k == key then [m]
              else HistoryOf(lobbies, k)
  {
    hide Place;
    var after := WithArrival(lobbies, key, m, at);
    ArrivalKeepsDistinct(lobbies, key, m, at);
    assert after == lobbies[1..] + [Lobby(key, at, [m])];
    assert after[|lobbies| - 1].key == key;
    var i := Place(lobbies, k);
    if 0 < i < |lobbies| {
      assert after[i - 1] == lobbies[i];
    }
  }

  // ----- runs that always fit -----

  function MessageCount(lobbies: seq<Lobby>): nat {
    if lobbies == [] then 0
    else MessageCount(lobbies[..|lobbies| - 1]) + |lobbies[|lobbies| - 1].history|
  }

  lemma {:induction false} CountOfOneMoreMessage(lobbies: seq<Lobby>, i: nat, m: Message)
    requires i < |lobbies|
    ensures var l := lobbies[i].(history := lobbies[i].history + [m]);
            MessageCount(lobbies[i := l]) == MessageCount(lobbies) + 1
  {
    var n, l := |lobbies| - 1, lobbies[i].(history := lobbies[i].history + [m]);
    if i == n {
      assert lobbies[i := l][..n] == lobbies[..n];
    } else {
      CountOfOneMoreMessage(lobbies[..n], i, m);
      assert lobbies[i := l][..n] == lobbies[..n][i := l];
    }
  }

  lemma CountOfOneMoreLobby(lobbies: seq<Lobby>, l: Lobby)
    ensures MessageCount(lobbies + [l]) == MessageCount(lobbies) + |l.history|
  {
    assert (lobbies + [l])[..|lobbies|] == lobbies;
  }

  lemma {:induction false} CountOfOneLess(lobbies: seq<Lobby>)
    requires lobbies != []
    ensures MessageCount(lobbies[1..]) <= MessageCount(lobbies)
  {
    var n := |lobbies| - 1;
    if n > 0 {
      CountOfOneLess(lobbies[..n]);
      assert lobbies[1..][..n - 1] == lobbies[..n][1..];
    }
  }

  lemma CountAfterArrival(lobbies: seq<Lobby>, key: Key, m: Message, at: nat)
    ensures MessageCount(WithArrival(lobbies, key, m, at)) <= MessageCount(lobbies) + 1
  {
    hide MessageCount, Place;
    var i, l := Place(lobbies, key), Lobby(key, at, [m]);
    if i < |lobbies| {
      CountOfOneMoreMessage(lobbies, i, m);
    } else if |lobbies| == MAX_CONTEXTS {
      CountOfOneLess(lobbies);
      CountOfOneMoreLobby(lobbies[1..], l);
    } else {
      CountOfOneMoreLobby(lobbies, l);
    }
  }

  lemma {:induction false} CountAfterAll(arrivals: seq<Arrival>)
    ensures MessageCount(LobbiesAfter(arrivals)) <= |arrivals|
  {
    hide KeyOf, Cleaned, WithArrival;
    if arrivals != [] {
      var n := |arrivals| - 1;
      CountAfterAll(arrivals[..n]);
      CountAfterArrival(LobbiesAfter(arrivals[..n]), KeyOf(arrivals[n]), Cleaned(arrivals[n].message), n);
    }
  }

  lemma {:induction false} ShownTotal(lobbies: seq<Lobby>)
    ensures Total(Shown(lobbies)) <= MessageCount(lobbies)
  {
    hide Shown;
    if lobbies != [] {
      var n := |lobbies| - 1;
      ShownTotal(lobbies[..n]);
      assert Shown(lobbies)[..n] == Shown(lobbies[..n]);
    }
  }

  /** A smooth run of up to 390 messages never meets the limit of the file. */
  lemma {:induction false} SmallRunsFit(arrivals: seq<Arrival>)
    requires AreSmooth(arrivals) && |arrivals| <= 390
    ensures AllFit(arrivals)
  {
    hide Reads, Fits, FileAfterAll, IsReceivable, IsAcceptable, IsRetained;
    if arrivals == [] {
      NothingReads();
      ReadsFit(arrivals);
    } else {
      var n := |arrivals| - 1;
      var front := arrivals[..n];
      SmallRunsFit(front);
      SmoothRunReads(front);
      ArrivalReads(arrivals);
      ReadsFit(arrivals);
      forall k | 0 <= k <= |arrivals|
        ensures Fits(FileAfterAll(arrivals[..k]))
      {
        if k <= n {
          assert arrivals[..k] == front[..k];
        } else {
          assert arrivals[..k] == arrivals;
        }
      }
    }
  }

  lemma ReadsFit(arrivals: seq<Arrival>)
    requires Reads(arrivals) && |arrivals| <= 390
    ensures Fits(FileAfterAll(arrivals))
  {
    hide FileText, Total, Shown, MessageCount, LobbiesAfter, Came, FileAfterAll, IsTidyCache;
    CountAfterAll(arrivals);
    ShownTotal(LobbiesAfter(arrivals));
    ModestCachesFit(Shown(LobbiesAfter(arrivals)));
  }
}
