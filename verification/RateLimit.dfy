/** The REST rate limiter: a table of 128 keys, each with a sliding-window log of its allowed
    attempts; a new key takes an unused slot, or the one least recently seen. */
module RateLimit {
  import opened Sequences

  const WINDOW_SECONDS: nat := 60
  const TABLE_SIZE: nat := 128
  const KEY_SIZE: nat := 64
  const MAX_ATTEMPTS: nat := 60

  datatype Route = Register | Login | Refresh | Authenticated

  datatype Entry = Entry(key: string, route: Route, attempts: seq<nat>, lastSeen: nat, active: bool)

  const UNUSED := Entry("", Register, [], 0, false)

  datatype Answer = Answer(allowed: bool, limit: nat, remaining: nat, resetAt: nat, retryAfter: nat)

  function LimitForRoute(route: Route): (limit: nat)
    ensures 0 < limit <= MAX_ATTEMPTS
  {
    match route
    case Register | Login => 5
    case Refresh => 10
    case Authenticated => 60
  }

  /** What the fixed key buffer keeps of a key. */
  function Stored(key: string): string {
    if |key| < KEY_SIZE then key else key[..KEY_SIZE - 1]
  }

  predicate Matches(e: Entry, key: string, route: Route) {
    e.active && e.route == route && e.key == key
  }

  /** The attempts that still count, in order. */
  function Recent(attempts: seq<nat>, now: nat): (r: seq<nat>)
    ensures |r| <= |attempts|
    ensures forall i :: 0 <= i < |r| ==> r[i] in attempts && r[i] + WINDOW_SECONDS > now
  {
    if attempts == [] then []
    else
      var last := attempts[|attempts| - 1];
      Recent(attempts[..|attempts| - 1], now) + (if last + WINDOW_SECONDS > now then [last] else [])
  }

  /** The slot the scan of the first n entries settles on for a new key. */
  function Replacement(entries: seq<Entry>, n: nat): (r: nat)
    requires 0 < n <= |entries|
    ensures r < n
  {
    if n == 1 then 0
    else
      var r := Replacement(entries, n - 1);
      if !entries[n - 1].active || entries[n - 1].lastSeen < entries[r].lastSeen then n - 1 else r
  }

  /** The first of the entries from n on that matches; |entries| when none does. */
  function MatchFrom(entries: seq<Entry>, key: string, route: Route, n: nat): (i: nat)
    requires n <= |entries|
    ensures n <= i <= |entries|
    ensures i < |entries| ==> Matches(entries[i], key, route)
    ensures forall j :: n <= j < i ==> !Matches(entries[j], key, route)
    decreases |entries| - n
  {
    if n == |entries| || Matches(entries[n], key, route) then n
    else MatchFrom(entries, key, route, n + 1)
  }

  function SlotFor(entries: seq<Entry>, key: string, route: Route): (i: nat)
    requires entries != []
    ensures i < |entries|
  {
    var i := MatchFrom(entries, key, route, 0);
    if i < |entries| then i else Replacement(entries, |entries|)
  }

  /** The entry the check works on, before its log is cut down to the window. */
  function Found(entries: seq<Entry>, key: string, route: Route): Entry
    requires entries != []
  {
    var i := MatchFrom(entries, key, route, 0);
    if i < |entries| then entries[i] else Entry(Stored(key), route, [], 0, true)
  }

  /** One check of one entry. */
  function Judged(e: Entry, route: Route, now: nat): (Entry, Answer) {
    var limit, kept := LimitForRoute(route), Recent(e.attempts, now);
    if |kept| >= limit then
      var resetAt := kept[0] + WINDOW_SECONDS;
      (e.(attempts := kept, lastSeen := now), Answer(false, limit, 0, resetAt, resetAt - now))
    else
      var attempts := kept + [now];
      (e.(attempts := attempts, lastSeen := now),
       Answer(true, limit, limit - |attempts|, attempts[0] + WINDOW_SECONDS, 0))
  }

  // ----- tables -----

  ghost predicate IsSorted(attempts: seq<nat>) {
    forall i, j :: 0 <= i <= j < |attempts| ==> attempts[i] <= attempts[j]
  }

  ghost predicate EntryOk(e: Entry) {
    && (!e.active ==> e == UNUSED)
    && |e.key| < KEY_SIZE
    && |e.attempts| <= LimitForRoute(e.route)
  }

  ghost predicate TableOk(entries: seq<Entry>) {
    |entries| == TABLE_SIZE && forall i :: 0 <= i < TABLE_SIZE ==> EntryOk(entries[i])
  }

  /** A new key takes an unused slot while there is one, and otherwise a slot that no other was
      seen less recently than. */
  lemma {:induction false} ReplacesTheLeastRecentlySeen(entries: seq<Entry>, n: nat)
    requires TableOk(entries) && 0 < n <= TABLE_SIZE
    ensures var r := Replacement(entries, n);
            entries[r].active ==>
              forall i :: 0 <= i < n ==>
                entries[i].active && entries[r].lastSeen <= entries[i].lastSeen
  {
    if n > 1 {
      ReplacesTheLeastRecentlySeen(entries, n - 1);
    }
  }

  lemma FoundIsOk(entries: seq<Entry>, key: string, route: Route)
    requires TableOk(entries)
    ensures EntryOk(Found(entries, key, route)) && Found(entries, key, route).active
    ensures Found(entries, key, route).route == route
  {
  }

  /** The whole limiter as a function: the table after one check, and the answer. */
  function Checked(entries: seq<Entry>, key: string, route: Route, now: nat)
    : (r: (seq<Entry>, Answer))
    requires entries != []
    ensures |r.0| == |entries|
  {
    var (e, answer) := Judged(Found(entries, key, route), route, now);
    (entries[SlotFor(entries, key, route) := e], answer)
  }

  lemma CheckedIsOk(entries: seq<Entry>, key: string, route: Route, now: nat)
    requires TableOk(entries) && key != ""
    ensures TableOk(Checked(entries, key, route, now).0)
  {
    FoundIsOk(entries, key, route);
  }

  /** A check leaves behind an entry that the next check of the same key will find exactly when the
      key fits the key buffer. */
  lemma RememberedExactlyWhenItFits(entries: seq<Entry>, key: string, route: Route, now: nat)
    requires TableOk(entries) && key != ""
    ensures (exists i :: 0 <= i < TABLE_SIZE &&
                         Matches(Checked(entries, key, route, now).0[i], key, route))
            <==> |key| < KEY_SIZE
  {
    var after, slot := Checked(entries, key, route, now).0, SlotFor(entries, key, route);
    CheckedIsOk(entries, key, route, now);
    if |key| < KEY_SIZE {
      assert Matches(after[slot], key, route);
    } else {
      forall i | 0 <= i < TABLE_SIZE
        ensures !Matches(after[i], key, route)
      {
        assert EntryOk(after[i]);
      }
    }
  }

  /** So a key that does not fit is never limited, whatever came before. */
  lemma LongKeysAreNeverLimited(entries: seq<Entry>, key: string, route: Route, now: nat)
    requires TableOk(entries) && |key| >= KEY_SIZE
    ensures Checked(entries, key, route, now).1.allowed
  {
    forall i | 0 <= i < TABLE_SIZE
      ensures !Matches(entries[i], key, route)
    {
      assert EntryOk(entries[i]);
    }
  }

  class RestRateLimiter {
    const entries: array<Entry>

    ghost predicate Valid()
      reads entries
    {
      TableOk(entries[..])
    }

    constructor ()
      ensures Valid() && fresh(entries)
      ensures forall i :: 0 <= i < TABLE_SIZE ==> entries[i] == UNUSED
    {
      entries := new Entry[TABLE_SIZE](_ => UNUSED);
    }

    /** The slot of a key's entry, cleared and claimed first if the key is new. */
    method FindEntry(key: string, route: Route) returns (slot: nat)
      requires Valid()
      modifies entries
      ensures slot == SlotFor(old(entries[..]), key, route)
      ensures entries[..] == old(entries[..])[slot := Found(old(entries[..]), key, route)]
    {
      hide EntryOk;
      ghost var before := entries[..];
      var replacement := 0;
      for index := 0 to TABLE_SIZE
        invariant index > 0 ==> replacement == Replacement(before, index)
        invariant MatchFrom(before, key, route, 0) == MatchFrom(before, key, route, index)
        invariant entries[..] == before
      {
        assert entries[index] == before[index];
        if Matches(entries[index], key, route) {
          assert before == before[index := before[index]];
          return index;
        }
        if index == 0 || !entries[index].active ||
           entries[index].lastSeen < entries[replacement].lastSeen {
          replacement := index;
        }
      }
      entries[replacement] := Entry(Stored(key), route, [], 0, true);
      slot := replacement;
    }

    /** Keep only the attempts inside the window. */
    method Compact(attempts: seq<nat>, now: nat) returns (kept: seq<nat>)
      ensures kept == Recent(attempts, now)
    {
      kept := [];
      for index := 0 to |attempts|
        invariant kept == Recent(attempts[..index], now)
      {
        assert attempts[..index + 1][..index] == attempts[..index];
        if attempts[index] + WINDOW_SECONDS > now {
          kept := kept + [attempts[index]];
        }
      }
      assert attempts[..|attempts|] == attempts;
    }

    method Check(key: string, route: Route, now: nat) returns (answer: Answer)
      requires Valid()
      modifies entries
      ensures Valid()
      ensures key == "" ==>
                answer == Answer(false, LimitForRoute(route), 0, 0, 0) && entries[..] == old(entries[..])
      ensures key != "" ==> (entries[..], answer) == Checked(old(entries[..]), key, route, now)
    {
      hide TableOk, SlotFor, Found, Recent;
      var limit := LimitForRoute(route);
      if key == "" {
        return Answer(false, limit, 0, 0, 0);
      }
      ghost var before := entries[..];
      FoundIsOk(before, key, route);
      CheckedIsOk(before, key, route, now);
      var slot := FindEntry(key, route);
      var entry := entries[slot];
      var kept := Compact(entry.attempts, now);
      if |kept| >= limit {
        var resetAt := kept[0] + WINDOW_SECONDS;
        answer := Answer(false, limit, 0, resetAt, if resetAt > now then resetAt - now else 1);
      } else {
        kept := kept + [now];
        answer := Answer(true, limit, limit - |kept|, kept[0] + WINDOW_SECONDS, 0);
      }
      entries[slot] := entry.(attempts := kept, lastSeen := now);
      assert entries[..] == Checked(before, key, route, now).0;
    }
  }

  // ----- the naive rule -----

  datatype Request = Request(key: string, route: Route, at: nat)

  /** Requests in order of a clock that does not run backwards, under keys that fit the buffer. */
  ghost predicate IsOrdered(requests: seq<Request>) {
    && (forall i :: 0 <= i < |requests| ==> 0 < |requests[i].key| < KEY_SIZE)
    && (forall i, j :: 0 <= i <= j < |requests| ==> requests[i].at <= requests[j].at)
  }

  function LastTime(requests: seq<Request>): nat {
    if requests == [] then 0 else requests[|requests| - 1].at
  }

  lemma OrderedSplit(front: seq<Request>, last: Request)
    requires IsOrdered(front + [last])
    ensures IsOrdered(front) && LastTime(front) <= last.at && LastTime(front + [last]) == last.at
  {
    var all := front + [last];
    assert forall i :: 0 <= i < |front| ==> front[i] == all[i];
    assert all[|front|] == last;
  }

  function TableAfter(requests: seq<Request>): (entries: seq<Entry>)
    ensures |entries| == TABLE_SIZE
  {
    if requests == [] then seq(TABLE_SIZE, _ => UNUSED)
    else
      var last := requests[|requests| - 1];
      Checked(TableAfter(requests[..|requests| - 1]), last.key, last.route, last.at).0
  }

  /** The limiter's answer to one more request. */
  function Allows(requests: seq<Request>, r: Request): bool
  {
    Checked(TableAfter(requests), r.key, r.route, r.at).1.allowed
  }

  /** When this key was allowed on this route, over the whole history. */
  function AllowedTimes(requests: seq<Request>, key: string, route: Route): seq<nat>
  {
    if requests == [] then []
    else
      var front, last := requests[..|requests| - 1], requests[|requests| - 1];
      AllowedTimes(front, key, route) +
      (if last.key == key && last.route == route && Allows(front, last) then [last.at] else [])
  }

  /** Fewer than the limit allowed attempts in the last 60 seconds of the whole history. */
  function NaiveAllows(requests: seq<Request>, r: Request): bool
  {
    |Recent(AllowedTimes(requests, r.key, r.route), r.at)| < LimitForRoute(r.route)
  }

  ghost function Pairs(requests: seq<Request>): set<(string, Route)> {
    set r | r in requests :: (r.key, r.route)
  }

  lemma {:induction false} RecentOfRecent(attempts: seq<nat>, earlier: nat, now: nat)
    requires earlier <= now
    ensures Recent(Recent(attempts, earlier), now) == Recent(attempts, now)
  {
    if attempts != [] {
      var front, last := attempts[..|attempts| - 1], attempts[|attempts| - 1];
      RecentOfRecent(front, earlier, now);
      var kept := Recent(front, earlier);
      assert (kept + [last])[..|kept|] == kept;
      assert kept + [] == kept && Recent(front, now) + [] == Recent(front, now);
    }
  }

  lemma RecentAppend(attempts: seq<nat>, now: nat)
    ensures Recent(attempts + [now], now) == Recent(attempts, now) + [now]
  {
    assert (attempts + [now])[..|attempts|] == attempts;
  }

  ghost predicate Unique(entries: seq<Entry>) {
    forall i, j :: 0 <= i < j < |entries| && entries[i].active && entries[j].active ==>
      (entries[i].key, entries[i].route) != (entries[j].key, entries[j].route)
  }

  ghost predicate IsKnown(entries: seq<Entry>, key: string, route: Route) {
    exists i :: 0 <= i < |entries| && Matches(entries[i], key, route)
  }

  /** The entry's log is the whole history of its key, cut to the window when it was last seen. */
  ghost predicate Remembers(e: Entry, requests: seq<Request>, now: nat)
  {
    e.active ==>
      && (e.key, e.route) in Pairs(requests)
      && e.lastSeen <= now
      && e.attempts == Recent(AllowedTimes(requests, e.key, e.route), e.lastSeen)
  }

  ghost predicate Inv(entries: seq<Entry>, requests: seq<Request>, now: nat)
  {
    && TableOk(entries) && Unique(entries)
    && (forall i :: 0 <= i < TABLE_SIZE ==> Remembers(entries[i], requests, now))
    && (forall p :: p in Pairs(requests) ==> IsKnown(entries, p.0, p.1))
  }

  /** While the history has fewer than 128 pairs, the table has an unused slot. */
  lemma UnusedSlotLeft(entries: seq<Entry>, requests: seq<Request>, now: nat)
    requires Inv(entries, requests, now) && |Pairs(requests)| < TABLE_SIZE
    ensures !entries[Replacement(entries, TABLE_SIZE)].active
  {
    hide AllowedTimes, Recent, EntryOk, Pairs;
    ReplacesTheLeastRecentlySeen(entries, TABLE_SIZE);
    if entries[Replacement(entries, TABLE_SIZE)].active {
      TooManyPairs(entries, requests, now);
    }
  }

  lemma TooManyPairs(entries: seq<Entry>, requests: seq<Request>, now: nat)
    requires |entries| == TABLE_SIZE && Unique(entries)
    requires forall i :: 0 <= i < TABLE_SIZE ==>
               entries[i].active && Remembers(entries[i], requests, now)
    ensures |Pairs(requests)| >= TABLE_SIZE
  {
    hide AllowedTimes, Recent, Pairs;
    var held := seq(TABLE_SIZE, i requires 0 <= i < TABLE_SIZE => (entries[i].key, entries[i].route));
    CountDistinct(held);
    SubsetSize((set p | p in held), Pairs(requests));
  }

  lemma {:induction false} NeverAsked(requests: seq<Request>, key: string, route: Route)
    requires (key, route) !in Pairs(requests)
    ensures AllowedTimes(requests, key, route) == []
  {
    if requests != [] {
      var front, last := requests[..|requests| - 1], requests[|requests| - 1];
      assert last in requests && forall r :: r in front ==> r in requests;
      NeverAsked(front, key, route);
    }
  }

  /** The found entry, cut to the window, is the naive rule's count. */
  lemma FoundIsNaive(entries: seq<Entry>, requests: seq<Request>, now: nat, r: Request)
    requires Inv(entries, requests, now) && now <= r.at
    ensures Recent(Found(entries, r.key, r.route).attempts, r.at) ==
            Recent(AllowedTimes(requests, r.key, r.route), r.at)
  {
    hide AllowedTimes, TableOk, Unique, Pairs, Recent;
    var i := MatchFrom(entries, r.key, r.route, 0);
    var history := AllowedTimes(requests, r.key, r.route);
    assert |entries| == TABLE_SIZE by { TableSize(entries); }
    if i < |entries| {
      assert Remembers(entries[i], requests, now);
      RecentOfRecent(history, entries[i].lastSeen, r.at);
    } else {
      assert !IsKnown(entries, r.key, r.route);
      assert (r.key, r.route) !in Pairs(requests);
      NeverAsked(requests, r.key, r.route);
    }
  }

  lemma TableSize(entries: seq<Entry>)
    requires TableOk(entries)
    ensures |entries| == TABLE_SIZE
  {
  }

  lemma OneMorePair(front: seq<Request>, r: Request)
    ensures Pairs(front + [r]) == Pairs(front) + {(r.key, r.route)}
  {
    var all := front + [r];
    assert forall x :: x in all <==> x in front || x == r;
  }

  lemma OneMoreRequest(front: seq<Request>, r: Request, key: string, route: Route)
    ensures AllowedTimes(front + [r], key, route) ==
            AllowedTimes(front, key, route) +
            (if r.key == key && r.route == route && Allows(front, r) then [r.at] else [])
    ensures TableAfter(front + [r]) == Checked(TableAfter(front), r.key, r.route, r.at).0
  {
    assert (front + [r])[..|front|] == front;
  }

  lemma UniqueMatch(entries: seq<Entry>, i: nat, j: nat, key: string, route: Route)
    requires Unique(entries) && i < |entries| && j < |entries|
    requires Matches(entries[i], key, route) && Matches(entries[j], key, route)
    ensures i == j
  {
  }

  /** The slot of a request: the one of its pair if it is known, and an unused one if not. */
  lemma SlotIsOwn(entries: seq<Entry>, requests: seq<Request>, now: nat, r: Request)
    requires Inv(entries, requests, now)
    requires |Pairs(requests) + {(r.key, r.route)}| <= TABLE_SIZE
    ensures var slot := SlotFor(entries, r.key, r.route);
            entries[slot].active ==> Matches(entries[slot], r.key, r.route)
    ensures forall i :: 0 <= i < TABLE_SIZE && Matches(entries[i], r.key, r.route) ==>
              i == SlotFor(entries, r.key, r.route)
  {
    hide TableOk, Pairs, AllowedTimes, Recent;
    TableSize(entries);
    var i := MatchFrom(entries, r.key, r.route, 0);
    if i < TABLE_SIZE {
      forall j | 0 <= j < TABLE_SIZE && Matches(entries[j], r.key, r.route)
        ensures j == i
      {
        UniqueMatch(entries, i, j, r.key, r.route);
      }
    } else {
      assert (r.key, r.route) !in Pairs(requests) by {
        assert !IsKnown(entries, r.key, r.route);
      }
      UnusedSlotLeft(entries, requests, now);
    }
  }

  /** One request: the answer is the naive rule's, and the table still remembers everything. */
  lemma RequestKeepsInv(requests: seq<Request>, now: nat, r: Request)
    requires Inv(TableAfter(requests), requests, now) && now <= r.at
    requires 0 < |r.key| < KEY_SIZE
    requires |Pairs(requests + [r])| <= TABLE_SIZE
    ensures Allows(requests, r) <==> NaiveAllows(requests, r)
    ensures Inv(TableAfter(requests + [r]), requests + [r], r.at)
  {
    hide TableOk, Pairs, AllowedTimes, Recent, TableAfter, SlotFor, Found, MatchFrom;
    var entries, slot := TableAfter(requests), SlotFor(TableAfter(requests), r.key, r.route);
    OneMorePair(requests, r);
    FoundIsNaive(entries, requests, now, r);
    SlotIsOwn(entries, requests, now, r);
    CheckedIsOk(entries, r.key, r.route, r.at);
    OneMoreRequest(requests, r, r.key, r.route);
    var after := Checked(entries, r.key, r.route, r.at).0;
    FoundKey(entries, r.key, r.route);
    assert after == entries[slot := after[slot]];
    SlotRemembers(requests, r);
    forall i | 0 <= i < TABLE_SIZE && i != slot
      ensures Remembers(after[i], requests + [r], r.at)
    {
      assert after[i] == entries[i];
      OtherRemembers(entries[i], requests, now, r);
    }
    OthersStayUnique(entries, slot, after[slot]);
    StillKnown(entries, slot, after[slot], requests, r);
  }

  lemma FoundKey(entries: seq<Entry>, key: string, route: Route)
    requires entries != [] && |key| < KEY_SIZE
    ensures Matches(Found(entries, key, route), key, route)
  {
  }

  lemma SlotRemembers(requests: seq<Request>, r: Request)
    requires Recent(Found(TableAfter(requests), r.key, r.route).attempts, r.at) ==
             Recent(AllowedTimes(requests, r.key, r.route), r.at)
    requires |r.key| < KEY_SIZE
    ensures Remembers(Judged(Found(TableAfter(requests), r.key, r.route), r.route, r.at).0,
                      requests + [r], r.at)
  {
    hide TableAfter, Found, Recent, AllowedTimes, Pairs;
    FoundKey(TableAfter(requests), r.key, r.route);
    OneMorePair(requests, r);
    OneMoreRequest(requests, r, r.key, r.route);
    var history := AllowedTimes(requests, r.key, r.route);
    RecentAppend(history, r.at);
    assert history + [] == history;
  }

  lemma OtherRemembers(e: Entry, requests: seq<Request>, now: nat, r: Request)
    requires Remembers(e, requests, now) && now <= r.at && !Matches(e, r.key, r.route)
    ensures Remembers(e, requests + [r], r.at)
  {
    hide AllowedTimes, Recent, Pairs;
    OneMorePair(requests, r);
    OneMoreRequest(requests, r, e.key, e.route);
    var history := AllowedTimes(requests, e.key, e.route);
    assert history + [] == history;
  }

  lemma EmptyTable()
    ensures Inv(TableAfter([]), [], 0)
  {
    assert Pairs([]) == {};
  }

  lemma OthersStayUnique(entries: seq<Entry>, slot: nat, e: Entry)
    requires Unique(entries) && slot < |entries| && e.active
    requires entries[slot].active ==>
               entries[slot].key == e.key && entries[slot].route == e.route
    requires forall i :: 0 <= i < |entries| && Matches(entries[i], e.key, e.route) ==> i == slot
    ensures Unique(entries[slot := e])
  {
  }

  lemma StillKnown(entries: seq<Entry>, slot: nat, e: Entry, requests: seq<Request>, r: Request)
    requires slot < |entries| && Matches(e, r.key, r.route)
    requires entries[slot].active ==> Matches(entries[slot], r.key, r.route)
    requires forall p :: p in Pairs(requests) ==> IsKnown(entries, p.0, p.1)
    ensures forall p :: p in Pairs(requests + [r]) ==> IsKnown(entries[slot := e], p.0, p.1)
  {
    hide Pairs;
    OneMorePair(requests, r);
    var after := entries[slot := e];
    forall p | p in Pairs(requests + [r])
      ensures IsKnown(after, p.0, p.1)
    {
      if p == (r.key, r.route) {
        assert Matches(after[slot], p.0, p.1);
      } else {
        var i :| 0 <= i < |entries| && Matches(entries[i], p.0, p.1);
        assert Matches(after[i], p.0, p.1);
      }
    }
  }

  lemma {:induction false} RunKeepsInv(requests: seq<Request>)
    requires IsOrdered(requests) && |Pairs(requests)| <= TABLE_SIZE
    ensures Inv(TableAfter(requests), requests, LastTime(requests))
  {
    hide Inv, TableAfter, Pairs;
    if requests == [] {
      EmptyTable();
    } else {
      var front, last := requests[..|requests| - 1], requests[|requests| - 1];
      assert requests == front + [last];
      OneMorePair(front, last);
      SubsetSize(Pairs(front), Pairs(requests));
      RunKeepsInv(front);
      RequestKeepsInv(front, LastTime(front), last);
    }
  }

  /** With at most 128 pairs of key and route and a clock that does not run backwards, every answer
      is the naive one: allowed exactly when fewer than the limit were allowed in the last minute. */
  lemma EveryAnswerIsNaive(requests: seq<Request>, r: Request)
    requires IsOrdered(requests + [r]) && |Pairs(requests + [r])| <= TABLE_SIZE
    ensures Allows(requests, r) <==> NaiveAllows(requests, r)
  {
    hide Inv, TableAfter, Pairs, Allows, NaiveAllows;
    var all := requests + [r];
    OrderedSplit(requests, r);
    OneMorePair(requests, r);
    SubsetSize(Pairs(requests), Pairs(all));
    RunKeepsInv(requests);
    RequestKeepsInv(requests, LastTime(requests), r);
  }

  // ----- after a denial -----

  lemma {:induction false} RecentSorted(attempts: seq<nat>, now: nat)
    requires IsSorted(attempts)
    ensures IsSorted(Recent(attempts, now))
    ensures Recent(attempts, now) != [] ==>
              attempts[|attempts| - 1] == Recent(attempts, now)[|Recent(attempts, now)| - 1]
  {
    hide IsSorted, Recent;
    if attempts == [] {
      NothingRecentYet(now);
    } else {
      var front, last := attempts[..|attempts| - 1], attempts[|attempts| - 1];
      SortedFront(attempts);
      RecentSorted(front, now);
      RecentSplit(attempts, now);
      var kept := Recent(front, now);
      SortedAppend(kept, last, last);
      assert kept + [] == kept;
    }
  }

  lemma NothingRecentYet(now: nat)
    ensures Recent([], now) == [] && IsSorted([])
  {
  }

  lemma RecentSplit(attempts: seq<nat>, now: nat)
    requires attempts != []
    ensures var n := |attempts| - 1;
            Recent(attempts, now) == Recent(attempts[..n], now)
              + (if attempts[n] + WINDOW_SECONDS > now then [attempts[n]] else [])
  {
  }

  lemma SortedFront(attempts: seq<nat>)
    requires IsSorted(attempts) && attempts != []
    ensures var n := |attempts| - 1;
            IsSorted(attempts[..n]) && forall a :: a in attempts[..n] ==> a <= attempts[n]
  {
  }

  lemma {:induction false} RecentKeepsAll(attempts: seq<nat>, now: nat)
    requires forall i :: 0 <= i < |attempts| ==> attempts[i] + WINDOW_SECONDS > now
    ensures Recent(attempts, now) == attempts
  {
    if attempts != [] {
      RecentKeepsAll(attempts[..|attempts| - 1], now);
    }
  }

  lemma {:induction false} RecentDropsTheFirst(attempts: seq<nat>, now: nat)
    requires attempts != [] && attempts[0] + WINDOW_SECONDS <= now
    ensures |Recent(attempts, now)| < |attempts|
  {
    if |attempts| > 1 {
      RecentDropsTheFirst(attempts[..|attempts| - 1], now);
    }
  }

  /** A full window stays exactly as it is until its oldest attempt leaves it. */
  lemma WindowUntil(attempts: seq<nat>, now: nat, later: nat)
    requires IsSorted(attempts) && now <= later && Recent(attempts, now) != []
    ensures var window := Recent(attempts, now);
            if later < window[0] + WINDOW_SECONDS then Recent(attempts, later) == window
            else |Recent(attempts, later)| < |window|
  {
    hide Recent;
    var window := Recent(attempts, now);
    RecentOfRecent(attempts, now, later);
    RecentSorted(attempts, now);
    if later < window[0] + WINDOW_SECONDS {
      RecentKeepsAll(window, later);
    } else {
      RecentDropsTheFirst(window, later);
    }
  }

  ghost predicate NoLaterThan(times: seq<nat>, t: nat) {
    forall i :: 0 <= i < |times| ==> times[i] <= t
  }

  lemma SortedAppend(times: seq<nat>, t: nat, t': nat)
    requires IsSorted(times) && NoLaterThan(times, t) && t <= t'
    ensures NoLaterThan(times, t') && IsSorted(times + [t']) && NoLaterThan(times + [t'], t')
  {
  }

  lemma NothingAllowedYet(key: string, route: Route)
    ensures var times := AllowedTimes([], key, route); IsSorted(times) && NoLaterThan(times, 0)
    ensures LastTime([]) == 0
  {
  }

  lemma {:induction false} AllowedTimesSorted(requests: seq<Request>, key: string, route: Route)
    requires IsOrdered(requests)
    ensures IsSorted(AllowedTimes(requests, key, route))
    ensures NoLaterThan(AllowedTimes(requests, key, route), LastTime(requests))
  {
    hide Allows, AllowedTimes, TableAfter, Checked, IsSorted, NoLaterThan, IsOrdered, LastTime;
    if requests == [] {
      NothingAllowedYet(key, route);
    } else {
      var front, last := requests[..|requests| - 1], requests[|requests| - 1];
      assert requests == front + [last];
      OrderedSplit(front, last);
      AllowedTimesSorted(front, key, route);
      OneMoreRequest(front, last, key, route);
      var times := AllowedTimes(front, key, route);
      SortedAppend(times, LastTime(front), last.at);
      assert times + [] == times;
    }
  }

  /** What a denial answers: a full window, and the moment its oldest attempt leaves it. */
  lemma DenialMeansFull(requests: seq<Request>, r: Request)
    requires IsOrdered(requests + [r]) && |Pairs(requests + [r])| <= TABLE_SIZE
    requires !Allows(requests, r)
    ensures var window := Recent(AllowedTimes(requests, r.key, r.route), r.at);
            var answer := Checked(TableAfter(requests), r.key, r.route, r.at).1;
            && |window| == LimitForRoute(r.route)
            && answer.resetAt == window[0] + WINDOW_SECONDS
            && answer.retryAfter > 0 && r.at + answer.retryAfter == answer.resetAt
  {
    hide Inv, TableAfter, Pairs, AllowedTimes, Recent, Found;
    var all := requests + [r];
    OrderedSplit(requests, r);
    OneMorePair(requests, r);
    SubsetSize(Pairs(requests), Pairs(all));
    RunKeepsInv(requests);
    var now := LastTime(requests);
    var entries := TableAfter(requests);
    FoundIsNaive(entries, requests, now, r);
    InvTable(entries, requests, now);
    FoundIsOk(entries, r.key, r.route);
  }

  lemma InvTable(entries: seq<Entry>, requests: seq<Request>, now: nat)
    requires Inv(entries, requests, now)
    ensures TableOk(entries)
  {
  }

  /** After a denial, whatever else is asked meanwhile: every retry before reset_at is denied, ... */
  lemma {:induction false} RetriesAreDenied(requests: seq<Request>, r: Request, more: seq<Request>)
    requires IsOrdered(requests + [r] + more) && |Pairs(requests + [r] + more)| <= TABLE_SIZE
    requires !Allows(requests, r)
    requires var resetAt := Checked(TableAfter(requests), r.key, r.route, r.at).1.resetAt;
             forall i :: 0 <= i < |more| && more[i].key == r.key && more[i].route == r.route ==>
               more[i].at < resetAt
    ensures AllowedTimes(requests + [r] + more, r.key, r.route) ==
            AllowedTimes(requests, r.key, r.route)
  {
    hide Allows, TableAfter, Pairs, AllowedTimes, Recent, Checked;
    var before := AllowedTimes(requests, r.key, r.route);
    Prefix(requests, r, more);
    OneMoreRequest(requests, r, r.key, r.route);
    assert before + [] == before;
    if more == [] {
      assert requests + [r] + more == requests + [r];
    } else {
      var front, last := more[..|more| - 1], more[|more| - 1];
      var history := requests + [r] + front;
      assert requests + [r] + more == history + [last];
      assert history + [last] + [] == history + [last];
      Prefix(history, last, []);
      RetriesAreDenied(requests, r, front);
      OneMoreRequest(history, last, r.key, r.route);
      if last.key == r.key && last.route == r.route {
        DenialMeansFull(requests, r);
        AllowedTimesSorted(requests, r.key, r.route);
        assert r.at <= last.at by {
          var all := requests + [r] + more;
          assert all[|requests|] == r && all[|all| - 1] == last;
        }
        WindowUntil(before, r.at, last.at);
        EveryAnswerIsNaive(history, last);
      }
    }
  }

  /** ... and one at reset_at or later, which is now + retry_after, is allowed. */
  lemma RetryAtResetIsAllowed(requests: seq<Request>, r: Request, more: seq<Request>, retry: Request)
    requires IsOrdered(requests + [r] + more + [retry])
    requires |Pairs(requests + [r] + more + [retry])| <= TABLE_SIZE
    requires !Allows(requests, r)
    requires retry.key == r.key && retry.route == r.route
    requires var resetAt := Checked(TableAfter(requests), r.key, r.route, r.at).1.resetAt;
             forall i :: 0 <= i < |more| && more[i].key == r.key && more[i].route == r.route ==>
               more[i].at < resetAt
    ensures var resetAt := Checked(TableAfter(requests), r.key, r.route, r.at).1.resetAt;
            Allows(requests + [r] + more, retry) <==> retry.at >= resetAt
  {
    hide Allows, TableAfter, Pairs, AllowedTimes, Recent, Checked;
    var history := requests + [r] + more;
    assert history + [retry] + [] == history + [retry];
    Prefix(history, retry, []);
    Prefix(requests, r, more);
    RetriesAreDenied(requests, r, more);
    DenialMeansFull(requests, r);
    AllowedTimesSorted(requests, r.key, r.route);
    assert r.at <= retry.at by {
      assert (history + [retry])[|requests|] == r;
      assert (history + [retry])[|history|] == retry;
    }
    WindowUntil(AllowedTimes(requests, r.key, r.route), r.at, retry.at);
    EveryAnswerIsNaive(history, retry);
  }

  lemma Prefix(requests: seq<Request>, r: Request, more: seq<Request>)
    requires IsOrdered(requests + [r] + more) && |Pairs(requests + [r] + more)| <= TABLE_SIZE
    ensures IsOrdered(requests) && IsOrdered(requests + [r])
    ensures |Pairs(requests + [r])| <= TABLE_SIZE && |Pairs(requests)| <= TABLE_SIZE
  {
    hide IsOrdered, Pairs;
    var all := requests + [r] + more;
    assert requests == all[..|requests|] && requests + [r] == all[..|requests| + 1];
    OrderedPrefix(all, |requests|);
    OrderedPrefix(all, |requests| + 1);
  }

  lemma OrderedPrefix(requests: seq<Request>, n: nat)
    requires IsOrdered(requests) && n <= |requests|
    ensures IsOrdered(requests[..n])
    ensures |Pairs(requests[..n])| <= |Pairs(requests)|
  {
    assert forall x :: x in requests[..n] ==> x in requests;
    SubsetSize(Pairs(requests[..n]), Pairs(requests));
  }
}
