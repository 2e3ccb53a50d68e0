/** What the limiter's 128 entries remember, for any number of keys: a pair of key and route loses its
    log only to a crowd of others within one window. */
module RateMemory {
  import opened Sequences
  import opened RateLimit

  type Pair = (string, Route)

  function PairOf(r: Request): Pair {
    (r.key, r.route)
  }

  /** The other pairs that asked within the window. */
  ghost function Others(requests: seq<Request>, p: Pair, now: nat): set<Pair> {
    set r | r in requests && r.at + WINDOW_SECONDS > now && PairOf(r) != p :: PairOf(r)
  }

  ghost predicate IsCrowded(requests: seq<Request>, p: Pair, now: nat) {
    |Others(requests, p, now)| >= TABLE_SIZE
  }

  /** A log that says, from some moment on, what the whole history says, unless there is a crowd. */
  ghost predicate Keeps(log: seq<nat>, requests: seq<Request>, p: Pair, from: nat) {
    forall now: nat :: now >= from && !IsCrowded(requests, p, now) ==>
      Recent(log, now) == Recent(AllowedTimes(requests, p.0, p.1), now)
  }

  ghost predicate WasLastAsked(requests: seq<Request>, p: Pair, at: nat) {
    && (exists r :: r in requests && PairOf(r) == p && r.at == at)
    && forall r :: r in requests && PairOf(r) == p ==> r.at <= at
  }

  ghost predicate EntryHolds(e: Entry, requests: seq<Request>, now: nat) {
    e.active ==>
      && e.lastSeen <= now && WasLastAsked(requests, (e.key, e.route), e.lastSeen)
      && Keeps(e.attempts, requests, (e.key, e.route), e.lastSeen)
  }

  ghost predicate Memory(entries: seq<Entry>, requests: seq<Request>, now: nat) {
    && TableOk(entries) && Unique(entries)
    && (forall i :: 0 <= i < TABLE_SIZE ==> EntryHolds(entries[i], requests, now))
    && forall p: Pair :: !IsKnown(entries, p.0, p.1) ==> Keeps([], requests, p, now)
  }

  // ----- one more request -----

  lemma OthersGrow(requests: seq<Request>, r: Request, p: Pair, now: nat)
    ensures IsCrowded(requests, p, now) ==> IsCrowded(requests + [r], p, now)
    ensures PairOf(r) == p ==> (IsCrowded(requests, p, now) <==> IsCrowded(requests + [r], p, now))
  {
    var all := requests + [r];
    assert forall x :: x in all <==> x in requests || x == r;
    assert Others(requests, p, now) <= Others(all, p, now);
    SubsetSize(Others(requests, p, now), Others(all, p, now));
    if PairOf(r) == p {
      assert Others(all, p, now) == Others(requests, p, now);
    }
  }

  lemma KeepsThroughOthers(log: seq<nat>, requests: seq<Request>, r: Request, p: Pair, from: nat,
                           later: nat)
    requires Keeps(log, requests, p, from) && PairOf(r) != p && from <= later
    ensures Keeps(log, requests + [r], p, later)
  {
    hide IsCrowded, AllowedTimes, Recent;
    OneMoreRequest(requests, r, p.0, p.1);
    var history := AllowedTimes(requests, p.0, p.1);
    assert history + [] == history;
    forall now: nat | now >= later && !IsCrowded(requests + [r], p, now)
      ensures Recent(log, now) == Recent(AllowedTimes(requests + [r], p.0, p.1), now)
    {
      OthersGrow(requests, r, p, now);
    }
  }

  lemma RecentOfOneMore(attempts: seq<nat>, at: nat, now: nat)
    ensures Recent(attempts + [at], now)
         == Recent(attempts, now) + (if at + WINDOW_SECONDS > now then [at] else [])
  {
    assert (attempts + [at])[..|attempts|] == attempts;
  }

  /** The pair's own request: its log is cut to the window and, if allowed, extended. */
  lemma KeepsThroughOwn(log: seq<nat>, requests: seq<Request>, r: Request, from: nat)
    requires Keeps(log, requests, PairOf(r), from) && from <= r.at
    ensures Keeps(Recent(log, r.at) + (if Allows(requests, r) then [r.at] else []),
                  requests + [r], PairOf(r), r.at)
  {
    hide IsCrowded, AllowedTimes, Recent, Allows;
    var p, cut := PairOf(r), Recent(log, r.at);
    var history := AllowedTimes(requests, p.0, p.1);
    OneMoreRequest(requests, r, p.0, p.1);
    assert history + [] == history && cut + [] == cut;
    forall now: nat | now >= r.at && !IsCrowded(requests + [r], p, now)
      ensures Recent(cut + (if Allows(requests, r) then [r.at] else []), now)
           == Recent(AllowedTimes(requests + [r], p.0, p.1), now)
    {
      OthersGrow(requests, r, p, now);
      RecentOfRecent(log, r.at, now);
      RecentOfOneMore(cut, r.at, now);
      RecentOfOneMore(history, r.at, now);
    }
  }

  lemma LastAskedNow(requests: seq<Request>, r: Request, now: nat)
    requires forall x :: x in requests ==> x.at <= now
    requires now <= r.at
    ensures WasLastAsked(requests + [r], PairOf(r), r.at)
  {
    assert r in requests + [r];
    assert forall x :: x in requests + [r] <==> x in requests || x == r;
  }

  lemma LastAskedStays(requests: seq<Request>, r: Request, p: Pair, at: nat)
    requires WasLastAsked(requests, p, at) && PairOf(r) != p
    ensures WasLastAsked(requests + [r], p, at)
  {
    assert forall x :: x in requests + [r] <==> x in requests || x == r;
  }

  // ----- eviction -----

  lemma {:induction false} AllowedTimesWereAsked(requests: seq<Request>, p: Pair)
    ensures forall a :: a in AllowedTimes(requests, p.0, p.1) ==>
              exists r :: r in requests && PairOf(r) == p && r.at == a
  {
    hide Allows;
    if requests != [] {
      var front, last := requests[..|requests| - 1], requests[|requests| - 1];
      AllowedTimesWereAsked(front, p);
      assert forall x :: x in requests <==> x in front || x == last;
    }
  }

  /** The pairs in a full table. */
  function Held(entries: seq<Entry>): (held: seq<Pair>)
    ensures |held| == |entries|
    ensures forall i :: 0 <= i < |entries| ==> held[i] == (entries[i].key, entries[i].route)
  {
    seq(|entries|, i requires 0 <= i < |entries| => (entries[i].key, entries[i].route))
  }

  /** An entry of a table, its pair's last request seen within the window. */
  ghost predicate IsFresh(e: Entry, requests: seq<Request>, now: nat) {
    e.active && e.lastSeen + WINDOW_SECONDS > now && WasLastAsked(requests, (e.key, e.route), e.lastSeen)
  }

  lemma FreshAreOthers(e: Entry, requests: seq<Request>, r: Request, q: Pair, now: nat)
    requires IsFresh(e, requests, now) && (e.key, e.route) != q
    ensures (e.key, e.route) in Others(requests + [r], q, now)
  {
    var x :| x in requests && PairOf(x) == (e.key, e.route) && x.at == e.lastSeen;
    assert x in requests + [r];
  }

  lemma NewcomerIsOther(requests: seq<Request>, r: Request, q: Pair, now: nat)
    requires r.at + WINDOW_SECONDS > now && PairOf(r) != q
    ensures PairOf(r) in Others(requests + [r], q, now)
  {
    assert r in requests + [r];
  }

  lemma HeldAreDistinct(entries: seq<Entry>)
    requires Unique(entries) && forall i :: 0 <= i < |entries| ==> entries[i].active
    ensures var held := Held(entries); forall i, j :: 0 <= i < j < |held| ==> held[i] != held[j]
  {
  }

  lemma NewcomerIsNotHeld(entries: seq<Entry>, r: Request)
    requires forall i :: 0 <= i < |entries| ==> entries[i].active
    requires !IsKnown(entries, r.key, r.route)
    ensures PairOf(r) !in Held(entries)
  {
    forall i | 0 <= i < |entries|
      ensures Held(entries)[i] != PairOf(r)
    {
      NewcomerDiffers(entries, r, i);
    }
  }

  /** Distinct members, one of them exchanged for a newcomer. */
  lemma Exchanged(members: seq<Pair>, slot: nat, newcomer: Pair) returns (others: set<Pair>)
    requires forall i, j :: 0 <= i < j < |members| ==> members[i] != members[j]
    requires slot < |members| && newcomer !in members
    ensures |others| == |members|
    ensures forall p :: p in others ==> p == newcomer || (p in members && p != members[slot])
  {
    CountDistinct(members);
    var all := set p | p in members;
    assert members[slot] in all && newcomer !in all;
    others := all - {members[slot]} + {newcomer};
  }

  /** A full table without the newcomer, all of it seen within the window, is a crowd for each of
      its members once the newcomer has asked. */
  lemma FullTableIsACrowd(entries: seq<Entry>, requests: seq<Request>, r: Request, slot: nat,
                          now: nat)
    requires |entries| == TABLE_SIZE && Unique(entries) && slot < TABLE_SIZE
    requires forall i :: 0 <= i < TABLE_SIZE ==> IsFresh(entries[i], requests, now)
    requires !IsKnown(entries, r.key, r.route) && r.at + WINDOW_SECONDS > now
    ensures IsCrowded(requests + [r], Held(entries)[slot], now)
  {
    var held := Held(entries);
    var q := held[slot];
    assert forall i :: 0 <= i < |entries| ==> entries[i].active;
    hide Unique, IsKnown, Held, Others, IsFresh;
    HeldAreDistinct(entries);
    NewcomerIsNotHeld(entries, r);
    var others := Exchanged(held, slot, PairOf(r));
    forall p | p in others
      ensures p in Others(requests + [r], q, now)
    {
      if p == PairOf(r) {
        NewcomerIsOther(requests, r, q, now);
      } else {
        var i :| 0 <= i < |held| && held[i] == p;
        FreshAreOthers(entries[i], requests, r, q, now);
      }
    }
    SubsetSize(others, Others(requests + [r], q, now));
  }

  /** Whoever loses an entry to a newcomer has nothing left in the window, or there is a crowd. */
  lemma EvictionIsKept(entries: seq<Entry>, requests: seq<Request>, now: nat, r: Request, q: Pair)
    requires Memory(entries, requests, now) && now <= r.at && !IsKnown(entries, r.key, r.route)
    requires var slot := Replacement(entries, TABLE_SIZE);
             entries[slot].active && q == (entries[slot].key, entries[slot].route)
    ensures Keeps([], requests + [r], q, r.at)
  {
    hide AllowedTimes, Recent, EntryOk, IsCrowded, Keeps, WasLastAsked, Unique, IsKnown;
    var slot := Replacement(entries, TABLE_SIZE);
    var history := AllowedTimes(requests, q.0, q.1);
    ReplacesTheLeastRecentlySeen(entries, TABLE_SIZE);
    AllowedTimesWereAsked(requests, q);
    NewcomerDiffers(entries, r, slot);
    OneMoreRequest(requests, r, q.0, q.1);
    assert history + [] == history;
    forall later: nat | later >= r.at && !IsCrowded(requests + [r], q, later)
      ensures Recent([], later) == Recent(AllowedTimes(requests + [r], q.0, q.1), later)
    {
      if !(entries[slot].lastSeen + WINDOW_SECONDS > later) {
        NothingRecent(requests, history, q, entries[slot].lastSeen, later);
      } else {
        assert Held(entries)[slot] == q;
        FullTableIsACrowd(entries, requests, r, slot, later);
      }
    }
    KeepsByDefinition([], requests + [r], q, r.at);
  }

  lemma KeepsByDefinition(log: seq<nat>, requests: seq<Request>, p: Pair, from: nat)
    requires forall now: nat :: now >= from && !IsCrowded(requests, p, now) ==>
               Recent(log, now) == Recent(AllowedTimes(requests, p.0, p.1), now)
    ensures Keeps(log, requests, p, from)
  {
  }

  lemma NewcomerDiffers(entries: seq<Entry>, r: Request, slot: nat)
    requires slot < |entries| && entries[slot].active && !IsKnown(entries, r.key, r.route)
    ensures PairOf(r) != (entries[slot].key, entries[slot].route)
  {
    if PairOf(r) == (entries[slot].key, entries[slot].route) {
      assert Matches(entries[slot], r.key, r.route);
    }
  }

  lemma NothingRecent(requests: seq<Request>, history: seq<nat>, q: Pair, last: nat, now: nat)
    requires forall a :: a in history ==>
               exists r :: r in requests && PairOf(r) == q && r.at == a
    requires WasLastAsked(requests, q, last) && last + WINDOW_SECONDS <= now
    ensures Recent(history, now) == Recent([], now)
  {
    hide Recent;
    forall a | a in history
      ensures a + WINDOW_SECONDS <= now
    {
      var r :| r in requests && PairOf(r) == q && r.at == a;
    }
    NothingIsRecent(history, now);
    NothingIsRecent([], now);
  }

  lemma {:induction false} NothingIsRecent(attempts: seq<nat>, now: nat)
    requires forall a :: a in attempts ==> a + WINDOW_SECONDS <= now
    ensures Recent(attempts, now) == []
  {
    if attempts != [] {
      var front, last := attempts[..|attempts| - 1], attempts[|attempts| - 1];
      assert last in attempts && forall a :: a in front ==> a in attempts;
      NothingIsRecent(front, now);
    }
  }

  // ----- whole runs -----

  lemma KeepsLater(log: seq<nat>, requests: seq<Request>, p: Pair, from: nat, later: nat)
    requires Keeps(log, requests, p, from) && from <= later
    ensures Keeps(log, requests, p, later)
  {
    hide IsCrowded, Recent, AllowedTimes;
  }

  /** The entry a request works on says what the history says, unless there is a crowd. */
  lemma FoundKeeps(entries: seq<Entry>, requests: seq<Request>, now: nat, r: Request)
    requires Memory(entries, requests, now) && now <= r.at && entries != []
    ensures Keeps(Found(entries, r.key, r.route).attempts, requests, PairOf(r), r.at)
  {
    hide Keeps, EntryOk, Unique, WasLastAsked;
    var i := MatchFrom(entries, r.key, r.route, 0);
    if i < |entries| {
      assert EntryHolds(entries[i], requests, now);
      KeepsLater(entries[i].attempts, requests, PairOf(r), entries[i].lastSeen, r.at);
    } else {
      assert !IsKnown(entries, r.key, r.route);
      KeepsLater([], requests, PairOf(r), now, r.at);
    }
  }

  /** No entry but the one a request works on is its pair's. */
  lemma OthersAreNotTheSlot(entries: seq<Entry>, r: Request, i: nat)
    requires Unique(entries) && i < |entries| && i != SlotFor(entries, r.key, r.route)
    ensures !Matches(entries[i], r.key, r.route)
  {
    hide Unique;
    var found := MatchFrom(entries, r.key, r.route, 0);
    if found < |entries| && Matches(entries[i], r.key, r.route) {
      UniqueMatch(entries, found, i, r.key, r.route);
    }
  }

  lemma SlotStaysUnique(entries: seq<Entry>, slot: nat, e: Entry)
    requires Unique(entries) && slot < |entries|
    requires forall i :: 0 <= i < |entries| && i != slot ==> !Matches(entries[i], e.key, e.route)
    ensures Unique(entries[slot := e])
  {
  }

  /** What the entry of a request becomes. */
  lemma JudgedEntry(entries: seq<Entry>, requests: seq<Request>, now: nat, r: Request)
    requires entries == TableAfter(requests) && Memory(entries, requests, now) && now <= r.at
    requires |r.key| < KEY_SIZE && forall x :: x in requests ==> x.at <= now
    ensures var e := Judged(Found(entries, r.key, r.route), r.route, r.at).0;
            Matches(e, r.key, r.route) && EntryHolds(e, requests + [r], r.at)
  {
    hide Memory, Keeps, WasLastAsked, Recent, Found, TableAfter;
    FoundKeeps(entries, requests, now, r);
    FoundKey(entries, r.key, r.route);
    KeepsThroughOwn(Found(entries, r.key, r.route).attempts, requests, r, r.at);
    LastAskedNow(requests, r, now);
    var cut := Recent(Found(entries, r.key, r.route).attempts, r.at);
    assert cut + [] == cut;
  }

  lemma OtherEntryHolds(e: Entry, requests: seq<Request>, now: nat, r: Request)
    requires EntryHolds(e, requests, now) && now <= r.at && !Matches(e, r.key, r.route)
    ensures EntryHolds(e, requests + [r], r.at)
  {
    hide Keeps, WasLastAsked;
    if e.active {
      KeepsThroughOthers(e.attempts, requests, r, (e.key, e.route), e.lastSeen, e.lastSeen);
      LastAskedStays(requests, r, (e.key, e.route), e.lastSeen);
    }
  }

  lemma KnownThere(entries: seq<Entry>, i: nat, key: string, route: Route)
    requires i < |entries|
    ensures Matches(entries[i], key, route) ==> IsKnown(entries, key, route)
  {
  }

  lemma AbsentKeeps(entries: seq<Entry>, requests: seq<Request>, now: nat, r: Request, e: Entry,
                    p: Pair)
    requires Memory(entries, requests, now) && now <= r.at && |entries| == TABLE_SIZE
    requires Matches(e, r.key, r.route)
    requires !IsKnown(entries[SlotFor(entries, r.key, r.route) := e], p.0, p.1)
    ensures Keeps([], requests + [r], p, r.at)
  {
    hide Keeps, EntryHolds, TableOk, Unique, Replacement;
    var slot := SlotFor(entries, r.key, r.route);
    var after := entries[slot := e];
    KnownThere(after, slot, r.key, r.route);
    if IsKnown(entries, p.0, p.1) {
      var i :| 0 <= i < |entries| && Matches(entries[i], p.0, p.1);
      KnownThere(after, i, p.0, p.1);
      assert i == slot && slot == Replacement(entries, TABLE_SIZE);
      EvictionIsKept(entries, requests, now, r, p);
    } else {
      KeepsThroughOthers([], requests, r, p, now, r.at);
    }
  }

  lemma RequestKeepsMemory(requests: seq<Request>, now: nat, r: Request)
    requires Memory(TableAfter(requests), requests, now) && now <= r.at
    requires 0 < |r.key| < KEY_SIZE && forall x :: x in requests ==> x.at <= now
    ensures Memory(TableAfter(requests + [r]), requests + [r], r.at)
  {
    var entries := TableAfter(requests);
    var slot := SlotFor(entries, r.key, r.route);
    var e := Judged(Found(entries, r.key, r.route), r.route, r.at).0;
    hide Memory, TableOk, EntryHolds, TableAfter, SlotFor, Judged, Found, Matches;
    OneMoreRequest(requests, r, r.key, r.route);
    MemoryParts(entries, requests, now);
    CheckedIsOk(entries, r.key, r.route, r.at);
    JudgedEntry(entries, requests, now, r);
    MemoryOfSlot(entries, requests, now, r, slot, e);
  }

  lemma MemoryParts(entries: seq<Entry>, requests: seq<Request>, now: nat)
    requires Memory(entries, requests, now)
    ensures TableOk(entries)
  {
  }

  /** One slot rewritten for a request keeps the memory of the whole table. */
  lemma MemoryOfSlot(entries: seq<Entry>, requests: seq<Request>, now: nat, r: Request, slot: nat,
                     e: Entry)
    requires Memory(entries, requests, now) && now <= r.at
    requires |entries| == TABLE_SIZE && slot == SlotFor(entries, r.key, r.route)
    requires TableOk(entries[slot := e])
    requires Matches(e, r.key, r.route) && EntryHolds(e, requests + [r], r.at)
    ensures Memory(entries[slot := e], requests + [r], r.at)
  {
    hide TableOk, Unique, EntryHolds, Keeps, IsKnown, SlotFor, Matches;
    var after := entries[slot := e];
    forall i | 0 <= i < TABLE_SIZE && i != slot
      ensures !Matches(entries[i], r.key, r.route) && EntryHolds(entries[i], requests + [r], r.at)
    {
      OthersAreNotTheSlot(entries, r, i);
      OtherEntryHolds(entries[i], requests, now, r);
    }
    MatchingKey(e, r);
    SlotStaysUnique(entries, slot, e);
    forall p: Pair | !IsKnown(after, p.0, p.1)
      ensures Keeps([], requests + [r], p, r.at)
    {
      AbsentKeeps(entries, requests, now, r, e, p);
    }
  }

  lemma MatchingKey(e: Entry, r: Request)
    requires Matches(e, r.key, r.route)
    ensures e.key == r.key && e.route == r.route
  {
  }

  lemma NothingRemembered()
    ensures Memory(TableAfter([]), [], 0)
  {
    hide Recent;
  }

  lemma {:induction false} RunKeepsMemory(requests: seq<Request>)
    requires IsOrdered(requests)
    ensures Memory(TableAfter(requests), requests, LastTime(requests))
  {
    hide Memory, TableAfter;
    if requests == [] {
      NothingRemembered();
    } else {
      var front, last := requests[..|requests| - 1], requests[|requests| - 1];
      assert requests == front + [last];
      RunKeepsMemory(front);
      RequestKeepsMemory(front, LastTime(front), last);
    }
  }

  /** With a clock that does not run backwards, for any number of keys: the answer to a request is
      the naive one, allowed exactly when fewer than the limit were allowed in the last minute, unless
      128 other pairs of key and route asked in that minute too. */
  lemma AnswerIsNaiveUnlessCrowded(requests: seq<Request>, r: Request)
    requires IsOrdered(requests + [r]) && !IsCrowded(requests, PairOf(r), r.at)
    ensures Allows(requests, r) <==> NaiveAllows(requests, r)
  {
    hide Memory, TableAfter, IsCrowded, AllowedTimes, Recent, Found, Keeps, IsOrdered, LastTime;
    OrderedSplit(requests, r);
    RunKeepsMemory(requests);
    FoundKeeps(TableAfter(requests), requests, LastTime(requests), r);
    KeptLogIsNaive(requests, r);
  }

  lemma KeptLogIsNaive(requests: seq<Request>, r: Request)
    requires Keeps(Found(TableAfter(requests), r.key, r.route).attempts, requests, PairOf(r), r.at)
    requires !IsCrowded(requests, PairOf(r), r.at)
    ensures Allows(requests, r) <==> NaiveAllows(requests, r)
  {
    hide TableAfter, IsCrowded, AllowedTimes, Recent, Found;
  }
}
