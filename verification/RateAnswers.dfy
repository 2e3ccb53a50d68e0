/** The limiter's answers in figures: how many attempts a minute each route allows, and what the other
    fields of an answer say. */
module RateAnswers {
  import opened Sequences
  import opened RateLimit

  /** Attempts a minute. */
  function PerMinute(route: Route): nat {
    match route
    case Register => 5
    case Login => 5
    case Refresh => 10
    case Authenticated => 60
  }

  /** How many of the attempts lie within the last 60 seconds. */
  function InLastMinute(attempts: seq<nat>, now: nat): nat {
    if attempts == [] then 0
    else
      var n := |attempts| - 1;
      InLastMinute(attempts[..n], now) + (if now < attempts[n] + 60 then 1 else 0)
  }

  lemma {:induction false} RecentCounts(attempts: seq<nat>, now: nat)
    ensures |Recent(attempts, now)| == InLastMinute(attempts, now)
  {
    if attempts != [] {
      RecentCounts(attempts[..|attempts| - 1], now);
    }
  }

  /** Of at most 128 pairs, a request is allowed exactly when fewer than 5 registrations, 5 logins,
      10 refreshes or 60 other requests of its key were allowed in the last 60 seconds. */
  lemma AllowedExactlyWhen(requests: seq<Request>, r: Request)
    requires IsOrdered(requests + [r]) && |Pairs(requests + [r])| <= TABLE_SIZE
    ensures Allows(requests, r) <==>
              InLastMinute(AllowedTimes(requests, r.key, r.route), r.at) < PerMinute(r.route)
  {
    hide Allows, AllowedTimes, Recent, Pairs, IsOrdered;
    EveryAnswerIsNaive(requests, r);
    RecentCounts(AllowedTimes(requests, r.key, r.route), r.at);
  }

  /** One more request keeps to the limit. */
  lemma OneMoreKeepsTheLimit(front: seq<Request>, last: Request, key: string, route: Route)
    requires IsOrdered(front + [last]) && |Pairs(front + [last])| <= TABLE_SIZE
    requires InLastMinute(AllowedTimes(front, key, route), LastTime(front)) <= PerMinute(route)
    ensures InLastMinute(AllowedTimes(front + [last], key, route), last.at) <= PerMinute(route)
  {
    hide Allows, AllowedTimes, Pairs, IsOrdered, Recent, TableAfter, LastTime, InLastMinute;
    OrderedSplit(front, last);
    OneMoreRequest(front, last, key, route);
    var times := AllowedTimes(front, key, route);
    FewerLater(times, LastTime(front), last.at);
    OneMoreInLastMinute(times, last.at);
    assert times + [] == times;
    if last.key == key && last.route == route {
      AllowedExactlyWhen(front, last);
    }
  }

  /** So in no minute are more allowed. */
  lemma {:induction false} NeverMoreThan(requests: seq<Request>, key: string, route: Route)
    requires IsOrdered(requests) && |Pairs(requests)| <= TABLE_SIZE
    ensures InLastMinute(AllowedTimes(requests, key, route), LastTime(requests)) <= PerMinute(route)
  {
    hide Allows, AllowedTimes, Pairs, IsOrdered, LastTime, InLastMinute;
    if requests == [] {
      NothingAllowedYet(key, route);
      NothingInLastMinute(key, route);
    } else {
      var front, last := requests[..|requests| - 1], requests[|requests| - 1];
      assert requests == front + [last];
      OrderedSplit(front, last);
      OneMorePair(front, last);
      SubsetSize(Pairs(front), Pairs(requests));
      NeverMoreThan(front, key, route);
      OneMoreKeepsTheLimit(front, last, key, route);
    }
  }

  lemma NothingInLastMinute(key: string, route: Route)
    ensures InLastMinute(AllowedTimes([], key, route), 0) == 0
    ensures LastTime([]) == 0
  {
  }

  lemma OneMoreInLastMinute(times: seq<nat>, at: nat)
    ensures InLastMinute(times + [at], at) == InLastMinute(times, at) + 1
  {
    assert (times + [at])[..|times|] == times;
  }

  lemma {:induction false} FewerLater(times: seq<nat>, now: nat, later: nat)
    requires now <= later
    ensures InLastMinute(times, later) <= InLastMinute(times, now)
  {
    if times != [] {
      FewerLater(times[..|times| - 1], now, later);
    }
  }

  /** The other fields of an allowed answer: the limit of the route, what remains of it after this
      attempt, when the oldest counted attempt leaves the window, and no time to wait. */
  lemma AllowanceMeansRoom(requests: seq<Request>, r: Request)
    requires IsOrdered(requests + [r]) && |Pairs(requests + [r])| <= TABLE_SIZE
    requires Allows(requests, r)
    ensures var answer := Checked(TableAfter(requests), r.key, r.route, r.at).1;
            var window := Recent(AllowedTimes(requests, r.key, r.route), r.at) + [r.at];
            && answer.limit == PerMinute(r.route)
            && answer.remaining + |window| == PerMinute(r.route)
            && answer.resetAt == window[0] + 60 && answer.retryAfter == 0
  {
    hide Inv, TableAfter, Pairs, AllowedTimes, Recent, Found;
    OrderedSplit(requests, r);
    OneMorePair(requests, r);
    SubsetSize(Pairs(requests), Pairs(requests + [r]));
    RunKeepsInv(requests);
    FoundIsNaive(TableAfter(requests), requests, LastTime(requests), r);
  }

  /** And of a denied one. */
  lemma DenialHasNoneLeft(requests: seq<Request>, r: Request)
    requires !Allows(requests, r)
    ensures var answer := Checked(TableAfter(requests), r.key, r.route, r.at).1;
            answer.limit == PerMinute(r.route) && answer.remaining == 0
  {
    hide TableAfter, Found, Recent;
  }

  /** A key too long for the buffer is counted under its first 63 characters. */
  lemma LongKeyIsChargedToItsPrefix(entries: seq<Entry>, key: string, route: Route, now: nat)
    requires TableOk(entries) && |key| >= KEY_SIZE
    ensures IsKnown(Checked(entries, key, route, now).0, key[..63], route)
  {
    hide Recent;
    var after, slot := Checked(entries, key, route, now).0, SlotFor(entries, key, route);
    forall i | 0 <= i < TABLE_SIZE
      ensures !Matches(entries[i], key, route)
    {
      assert EntryOk(entries[i]);
    }
    assert Matches(after[slot], key[..63], route);
  }
}
