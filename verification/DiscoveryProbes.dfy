/** What the probes of a search find out: a server reported reachable has answered its own probe, and
    its latency is the time that took. */
module DiscoveryProbes {
  import opened Sequences
  import opened Serial
  import opened Directory
  import opened Discovery

  datatype Event =
    | Launch(index: nat, nonce: uint32, atMs: nat)
    | Answer(index: nat, response: ProbeResponse, atMs: nat)
    | Look(atMs: nat)

  function Step(s: State, e: Event): State {
    match e
    case Launch(index, nonce, at) => Launched(s, index, nonce, at).0
    case Answer(index, response, at) => Answered(s, index, response, at).0
    case Look(at) => Updated(s, at)
  }

  /** Any launches, answers, true and false ones, and looks at the clock. */
  function After(s: State, events: seq<Event>): State {
    if events == [] then s else Step(After(s, events[..|events| - 1]), events[|events| - 1])
  }

  /** The search has just begun to probe. */
  ghost predicate IsUnprobed(s: State) {
    s.phase == Probing && forall i :: 0 <= i < |s.candidates| ==>
      s.candidates[i].status == Pending && s.candidates[i].probeStartedMs == 0
  }

  /** The k-th event launched the probe of the i-th candidate, whose clock never shows 0. */
  ghost predicate WasLaunched(c: Candidate, events: seq<Event>, i: nat, k: nat) {
    && k < |events| && events[k].Launch? && events[k].index == i
    && events[k].nonce == c.probeNonce && events[k].nonce != 0
    && c.probeStartedMs == (if events[k].atMs == 0 then 1 else events[k].atMs)
  }

  function Limited(n: nat, limit: nat): nat {
    if n > limit then limit else n
  }

  /** The k-th event answered that probe in time for what the candidate now says. */
  ghost predicate WasAnswered(c: Candidate, events: seq<Event>, generation: uint32, i: nat, k: nat) {
    && k < |events| && events[k].Answer? && events[k].index == i
    && var r, at := events[k].response, events[k].atMs;
       && r.wellFormed && r.generation == generation && r.nonce == c.probeNonce
       && c.server.players == r.players && c.server.capacity == Limited(r.capacity, MAX_CLIENTS)
       && c.probeStartedMs <= at
       && c.latencyMs == Limited(at - c.probeStartedMs, MAX_LATENCY_MS)
  }

  /** What is known about one candidate. */
  ghost predicate IsExplained(before: Candidate, c: Candidate, events: seq<Event>,
                              generation: uint32, i: nat) {
    && c.server.(players := 0, capacity := 0) == before.server.(players := 0, capacity := 0)
    && (c.probeStartedMs != 0 ==> exists k :: WasLaunched(c, events, i, k))
    && (c.status == Reachable ==>
          && c.probeStartedMs != 0 && c.server.players < c.server.capacity
          && exists k, l :: l < k && WasLaunched(c, events, i, l)
                            && WasAnswered(c, events, generation, i, k))
  }

  ghost predicate AreExplained(s: State, s': State, events: seq<Event>) {
    && |s'.candidates| == |s.candidates| && s'.generation == s.generation
    && forall i :: 0 <= i < |s.candidates| ==>
         IsExplained(s.candidates[i], s'.candidates[i], events, s.generation, i)
  }

  lemma EarlierEvents(before: Candidate, c: Candidate, events: seq<Event>, e: Event,
                      generation: uint32, i: nat)
    requires IsExplained(before, c, events, generation, i)
    ensures IsExplained(before, c, events + [e], generation, i)
    ensures IsExplained(before, c.(status := Unavailable), events + [e], generation, i)
  {
    var all := events + [e];
    if c.probeStartedMs != 0 {
      var k: nat :| WasLaunched(c, events, i, k);
      assert all[k] == events[k];
      assert WasLaunched(c, all, i, k);
      assert WasLaunched(c.(status := Unavailable), all, i, k);
    }
    if c.status == Reachable {
      var k: nat, l: nat :| l < k && WasLaunched(c, events, i, l)
                            && WasAnswered(c, events, generation, i, k);
      assert all[k] == events[k] && all[l] == events[l];
      assert WasLaunched(c, all, i, l) && WasAnswered(c, all, generation, i, k);
    }
  }

  lemma LaunchIsExplained(before: Candidate, c: Candidate, events: seq<Event>, e: Event,
                          generation: uint32)
    requires e.Launch? && e.nonce != 0 && c.status == Pending
    requires IsExplained(before, c, events, generation, e.index)
    ensures IsExplained(before, c.(probeNonce := e.nonce,
                                   probeStartedMs := if e.atMs == 0 then 1 else e.atMs),
                        events + [e], generation, e.index)
  {
    var all := events + [e];
    assert all[|events|] == e;
    assert WasLaunched(c.(probeNonce := e.nonce,
                          probeStartedMs := if e.atMs == 0 then 1 else e.atMs),
                       all, e.index, |events|);
  }

  lemma AnswerIsExplained(before: Candidate, s: State, events: seq<Event>, e: Event)
    requires e.Answer? && IsAwaited(s, e.index, e.response, e.atMs)
    requires IsExplained(before, s.candidates[e.index], events, s.generation, e.index)
    ensures IsExplained(before, Probed(s.candidates[e.index], e.response, e.atMs), events + [e],
                        s.generation, e.index)
  {
    var all, c := events + [e], s.candidates[e.index];
    var c' := Probed(c, e.response, e.atMs);
    assert all[|events|] == e;
    var k: nat :| WasLaunched(c, events, e.index, k);
    assert all[k] == events[k];
    assert WasLaunched(c', all, e.index, k);
    if c'.status == Reachable {
      assert WasAnswered(c', all, s.generation, e.index, |events|);
    }
  }

  lemma StepKeepsSize(s: State, e: Event)
    ensures |Step(s, e).candidates| == |s.candidates| && Step(s, e).generation == s.generation
  {
    hide Probed, HasTimedOut;
  }

  lemma StepIsExplained(s: State, now: State, events: seq<Event>, e: Event)
    requires AreExplained(s, now, events)
    ensures AreExplained(s, Step(now, e), events + [e])
  {
    hide IsExplained, Probed, IsAwaited;
    var next := Step(now, e);
    StepKeepsSize(now, e);
    forall i | 0 <= i < |s.candidates|
      ensures IsExplained(s.candidates[i], next.candidates[i], events + [e], s.generation, i)
    {
      EarlierEvents(s.candidates[i], now.candidates[i], events, e, s.generation, i);
      if !e.Look? && e.index == i && next != now {
        if e.Launch? {
          LaunchIsExplained(s.candidates[i], now.candidates[i], events, e, s.generation);
        } else {
          AnswerIsExplained(s.candidates[i], now, events, e);
        }
      }
    }
  }

  lemma {:induction false} RunIsExplained(s: State, events: seq<Event>)
    requires IsUnprobed(s)
    ensures AreExplained(s, After(s, events), events)
  {
    hide Step;
    if events != [] {
      var front, last := events[..|events| - 1], events[|events| - 1];
      RunIsExplained(s, front);
      assert events == front + [last];
      StepIsExplained(s, After(s, front), front, last);
    }
  }

  /** Over every run of probing: a server reported reachable was probed and answered that probe, under
      its nonce and this search's generation; it has the room it answered with, and its latency is
      the time from launch to answer, up to the greatest that fits. */
  lemma ReachableHasAnswered(s: State, events: seq<Event>, i: nat) returns (launch: nat, answer: nat)
    requires IsUnprobed(s) && i < |After(s, events).candidates|
    requires After(s, events).candidates[i].status == Reachable
    ensures launch < answer < |events| && events[launch].Launch? && events[launch].index == i
    ensures events[answer].Answer? && events[answer].index == i
    ensures var c, r := After(s, events).candidates[i], events[answer].response;
            var sentAt := if events[launch].atMs == 0 then 1 else events[launch].atMs;
            && r.wellFormed && r.generation == s.generation && r.nonce == events[launch].nonce
            && sentAt <= events[answer].atMs
            && c.latencyMs == Limited(events[answer].atMs - sentAt, MAX_LATENCY_MS)
            && c.server.players == r.players
            && c.server.capacity == Limited(r.capacity, MAX_CLIENTS)
            && c.server.players < c.server.capacity
  {
    RunIsExplained(s, events);
    var c := After(s, events).candidates[i];
    assert IsExplained(s.candidates[i], c, events, s.generation, i);
    answer, launch :| launch < answer && WasLaunched(c, events, i, launch)
                      && WasAnswered(c, events, s.generation, i, answer);
  }

  /** A launch or an answer is reported as taken exactly when it changed something. */
  lemma TakenExactlyWhenChanged(s: State, index: nat, nonce: uint32, r: ProbeResponse, nowMs: nat)
    ensures Launched(s, index, nonce, nowMs).1 <==> Launched(s, index, nonce, nowMs).0 != s
    ensures Answered(s, index, r, nowMs).1 <==> Answered(s, index, r, nowMs).0 != s
  {
    if IsAwaited(s, index, r, nowMs) {
      assert Answered(s, index, r, nowMs).0.candidates[index].status != Pending;
    }
    if Launched(s, index, nonce, nowMs).1 {
      assert Launched(s, index, nonce, nowMs).0.candidates[index].probeStartedMs != 0;
    }
  }

  // ----- every server is judged by itself -----

  /** What one event says about the i-th server of a search begun at a time, whatever becomes of the
      other servers: it is given up at the first look at the clock two seconds after its probe left or
      five seconds after the search began. */
  function Judged(c: Candidate, generation: uint32, startedMs: nat, i: nat, e: Event): Candidate {
    if c.status != Pending then c
    else match e
      case Launch(index, nonce, at) =>
        if index == i && nonce != 0 && c.probeStartedMs == 0 && startedMs <= at
        then c.(probeNonce := nonce, probeStartedMs := if at == 0 then 1 else at)
        else c
      case Answer(index, r, at) =>
        if || index != i || c.probeStartedMs == 0 || at < c.probeStartedMs
           || !r.wellFormed || r.generation != generation || r.nonce != c.probeNonce
           || r.capacity == 0 || r.players > Limited(r.capacity, 256)
        then c
        else
          var capacity := Limited(r.capacity, 256);
          var c := c.(server := c.server.(players := r.players, capacity := capacity));
          if r.players == capacity then c.(status := Unavailable)
          else c.(status := Reachable, latencyMs := Limited(at - c.probeStartedMs, 65535))
      case Look(at) =>
        if || at - startedMs >= 5000
           || (at >= startedMs && c.probeStartedMs > 0 && at - c.probeStartedMs >= 2000)
        then c.(status := Unavailable)
        else c
  }

  function JudgedAfter(c: Candidate, generation: uint32, startedMs: nat, i: nat,
                       events: seq<Event>): Candidate
  {
    if events == [] then c
    else
      Judged(JudgedAfter(c, generation, startedMs, i, events[..|events| - 1]), generation, startedMs, i,
             events[|events| - 1])
  }

  /** The search goes on as long as somebody is waited for. */
  ghost predicate IsUnderWay(s: State, now: State) {
    && |now.candidates| == |s.candidates|
    && now.generation == s.generation && now.startedMs == s.startedMs
    && now.phase == if HasPending(now.candidates) then Probing else Complete
  }

  lemma SomebodyIsWaitedFor(candidates: seq<Candidate>, i: nat)
    requires i < |candidates| && candidates[i].status == Pending
    ensures HasPending(candidates)
  {
  }

  lemma StepStaysUnderWay(s: State, now: State, e: Event)
    requires IsUnderWay(s, now)
    ensures IsUnderWay(s, Step(now, e))
  {
    hide Probed, HasTimedOut;
    match e
    case Launch(index, nonce, at) =>
      if Launched(now, index, nonce, at).1 {
        SomebodyIsWaitedFor(Step(now, e).candidates, index);
      }
    case Answer(index, response, at) =>
    case Look(at) =>
  }

  lemma StepJudges(s: State, now: State, e: Event, i: nat)
    requires IsUnderWay(s, now) && i < |s.candidates| && i < |Step(now, e).candidates|
    ensures Step(now, e).candidates[i] == Judged(now.candidates[i], s.generation, s.startedMs, i, e)
  {
    hide HasPending;
    if now.candidates[i].status == Pending {
      SomebodyIsWaitedFor(now.candidates, i);
    }
  }

  /** Over every run of probing, what is found out about a server depends only on its own probe, the
      answers under its number and the looks at the clock, never on the other servers; and the search
      is complete exactly when no server is waited for. */
  lemma {:induction false} EachServerIsJudgedByItself(s: State, events: seq<Event>)
    requires IsUnprobed(s) && s.candidates != []
    ensures var now := After(s, events);
            && IsUnderWay(s, now)
            && forall i: nat :: i < |s.candidates| ==>
                 now.candidates[i] == JudgedAfter(s.candidates[i], s.generation, s.startedMs, i, events)
  {
    hide Step, Judged, HasPending;
    if events == [] {
      SomebodyIsWaitedFor(s.candidates, 0);
    } else {
      var front, last := events[..|events| - 1], events[|events| - 1];
      EachServerIsJudgedByItself(s, front);
      var now := After(s, front);
      StepStaysUnderWay(s, now, last);
      forall i: nat | i < |s.candidates|
        ensures After(s, events).candidates[i] ==
                JudgedAfter(s.candidates[i], s.generation, s.startedMs, i, events)
      {
        StepJudges(s, now, last, i);
      }
    }
  }
}
