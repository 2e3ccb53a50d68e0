/** The course of a quick match told by its events and the number of servers that can be joined. */
module QuickMatchCourse {
  import opened Sequences
  import opened Selector
  import opened SelectorFigures
  import opened QuickMatch

  /** At most 32 of the offered servers are considered. */
  function Considered(offered: seq<Candidate>): seq<Candidate> {
    if |offered| > 32 then offered[..32] else offered
  }

  function Joinable(candidates: seq<Candidate>): set<nat> {
    set i: nat | i < |candidates| && CanBeJoined(candidates[i])
  }

  predicate SomeAreFull(candidates: seq<Candidate>) {
    exists i :: 0 <= i < |candidates| && candidates[i].reachable && candidates[i].capacity > 0
                && candidates[i].players >= candidates[i].capacity
  }

  datatype Course = Course(phase: Phase, failure: Failure, since: nat, tried: nat)

  /** A search that got its servers. */
  function Start(candidates: seq<Candidate>, now: nat): Course {
    if Joinable(candidates) == {} then
      Course(Failed, if SomeAreFull(candidates) then ServersFull else NoServers, now, 0)
    else Course(Preview, NoFailure, now, 0)
  }

  /** A preview lasts 750 ms; a failed connection leads to the next preview as long as servers are
      left; success counts while connecting; cancelling works until the end. */
  function Next(c: Course, servers: nat, e: Event): Course {
    match e
    case Tick(now) =>
      if c.phase == Preview && now - c.since >= 750 then c.(phase := Connecting) else c
    case Fail(now) =>
      if c.phase != Connecting then c
      else if c.tried + 1 < servers then Course(Preview, NoFailure, now, c.tried + 1)
      else Course(Failed, Exhausted, c.since, c.tried + 1)
    case Succeed =>
      if c.phase == Connecting then c.(phase := Succeeded) else c
    case Cancel =>
      if c.phase == Preview || c.phase == Connecting then c.(phase := Cancelled) else c
  }

  function CourseOf(candidates: seq<Candidate>, now: nat, events: seq<Event>): Course {
    if events == [] then Start(candidates, now)
    else
      Next(CourseOf(candidates, now, events[..|events| - 1]), |Joinable(candidates)|,
           events[|events| - 1])
  }

  /** The search is where the course says, and marks a selected server exactly when it is far. */
  ghost predicate Follows(s: Search, c: Course) {
    && s.phase == c.phase && s.failure == c.failure
    && (s.phase == Preview ==> s.started == c.since)
    && (s.phase == Failed ==> s.selected.None? && !s.fallback)
    && (s.phase == Preview || s.phase == Connecting ==>
          && s.failure == NoFailure && s.selected.Some? && s.selected.value < |s.candidates|
          && (s.fallback <==> s.candidates[s.selected.value].latency > 200))
  }

  lemma MovingOnMarksTheFar(s: Search, now: nat, after: Search)
    requires IsWellFormed(s) && MovesOn(s, now, after)
    ensures after.phase == Failed ==> after.selected.None? && !after.fallback
    ensures after.phase == Preview ==>
              && after.selected.Some? && after.selected.value < |s.candidates|
              && (after.fallback <==> s.candidates[after.selected.value].latency > 200)
              && after.started == now && after.failure == NoFailure
  {
    var open := OpenPositions(s.excluded, |s.candidates|);
    hide IsBest, IsSelection, OpenPositions;
    var choice :| && IsSelection(OpenCandidates(s), DEFAULT_WEIGHTS, choice)
                  && (choice.Some? ==> choice.value.index < |open|)
                  && after == Outcome(s, choice, now);
    if choice.Some? {
      var _ := ChoiceInFigures(OpenCandidates(s), DEFAULT_WEIGHTS, choice);
      assert OpenCandidates(s)[choice.value.index] == s.candidates[open[choice.value.index]];
    }
  }

  /** Nothing is left to try exactly when as many servers were tried as can be joined. */
  lemma NothingLeftExactlyWhen(s: Search, tried: seq<nat>)
    requires IsWellFormed(s) && AreDistinct(tried)
    requires forall i :: 0 <= i < |tried| ==>
               tried[i] < |s.candidates| && IsJoinable(s.candidates[tried[i]])
    requires forall i :: 0 <= i < |s.excluded| ==> (s.excluded[i] <==> i in tried)
    ensures |tried| <= |Joinable(s.candidates)|
    ensures (forall i :: 0 <= i < |s.candidates| ==> !IsOpen(s, i)) <==>
              |tried| == |Joinable(s.candidates)|
  {
    var all := Joinable(s.candidates);
    var used := set i | i in tried;
    CountDistinct(tried);
    SubsetSize(used, all);
    if |tried| == |all| {
      SameSize(used, all);
      forall i | 0 <= i < |s.candidates|
        ensures !IsOpen(s, i)
      {
        if IsJoinable(s.candidates[i]) {
          assert i in all;
        }
      }
    }
    if forall i :: 0 <= i < |s.candidates| ==> !IsOpen(s, i) {
      forall i: nat | i in all
        ensures i in used
      {
        assert !IsOpen(s, i);
      }
      assert used == all;
    }
  }

  lemma SameSize(a: set<nat>, b: set<nat>)
    requires a <= b && |a| == |b|
    ensures a == b
  {
    if x :| x in b && x !in a {
      SubsetSize(a, b - {x});
    }
  }

  lemma StartFollows(offered: seq<Candidate>, now: nat, after: Search)
    requires Receives(BEGUN, offered, now, after)
    ensures after.candidates == Considered(offered)
    ensures Follows(after, Start(Considered(offered), now))
  {
    hide MovesOn, IsOpen, HasNearOpen;
    var loaded := Loaded(BEGUN, offered);
    var moved :| MovesOn(loaded, now, moved)
                 && after == if moved.phase == Failed && moved.attempts == 0
                                && (exists c :: c in moved.candidates && IsFull(c))
                             then moved.(failure := ServersFull) else moved;
    MovingOnKeepsTheList(loaded, now, moved);
    MovingOnPicksAnOpenServer(loaded, now, moved);
    MovingOnMarksTheFar(loaded, now, moved);
    NothingLeftExactlyWhen(loaded, []);
    FullOnesAreFull(moved.candidates);
  }

  lemma FullOnesAreFull(candidates: seq<Candidate>)
    ensures SomeAreFull(candidates) <==> exists c :: c in candidates && IsFull(c)
  {
    if SomeAreFull(candidates) {
      var i :| 0 <= i < |candidates| && candidates[i].reachable && candidates[i].capacity > 0
               && candidates[i].players >= candidates[i].capacity;
      assert candidates[i] in candidates;
    }
  }

  lemma FailureFollows(s: Search, now: nat, after: Search, tried: seq<nat>, c: Course)
    requires Inv(s, tried) && s.phase == Connecting && Step(s, Fail(now), after)
    requires Follows(s, c) && c.tried == |tried|
    ensures Follows(after, Next(c, |Joinable(s.candidates)|, Fail(now)))
  {
    hide MovesOn, IsOpen, HasNearOpen, IsFairOrder, Joinable;
    SelectedCanFail(s, tried);
    var next := s.selected.value;
    var marked := s.(excluded := s.excluded[next := true]);
    FailureKeepsInv(s, now, after, tried);
    MovingOnKeepsTheList(marked, now, after);
    MovingOnPicksAnOpenServer(marked, now, after);
    MovingOnMarksTheFar(marked, now, after);
    FairOrderIsDistinct(s.candidates, tried + [next]);
    NothingLeftExactlyWhen(marked, tried + [next]);
  }

  lemma FairOrderIsDistinct(candidates: seq<Candidate>, tried: seq<nat>)
    requires IsFairOrder(candidates, tried)
    ensures AreDistinct(tried)
    ensures forall i :: 0 <= i < |tried| ==>
              tried[i] < |candidates| && IsJoinable(candidates[tried[i]])
  {
  }

  lemma SelectedCanFail(s: Search, tried: seq<nat>)
    requires Inv(s, tried) && s.phase == Connecting
    ensures CanFail(s)
  {
    hide IsFairOrder, IsJoinable, IsNear, HasNearOpen;
  }

  lemma StepFollows(s: Search, e: Event, after: Search, tried: seq<nat>, c: Course)
    requires Inv(s, tried) && Step(s, e, after) && Follows(s, c) && c.tried == |tried|
    ensures var next := Next(c, |Joinable(s.candidates)|, e);
            && Follows(after, next)
            && next.tried == |tried| + (if e.Fail? && CanFail(s) then 1 else 0)
  {
    hide MovesOn, IsFairOrder, IsJoinable, IsNear, Joinable, HasNearOpen;
    if s.phase == Connecting {
      SelectedCanFail(s, tried);
      if e.Fail? {
        FailureFollows(s, e.now, after, tried, c);
      }
    }
  }

  lemma {:induction false} RunFollows(candidates: seq<Candidate>, now: nat, states: seq<Search>,
                                      events: seq<Event>)
    requires IsRun(states, events) && Inv(states[0], [])
    requires states[0].candidates == candidates && Follows(states[0], Start(candidates, now))
    ensures var c := CourseOf(candidates, now, events);
            Follows(states[|events|], c) && c.tried == |Tried(states, events)|
    decreases |events|
  {
    hide Inv, Step, Follows, Next;
    if events != [] {
      var n := |events| - 1;
      var front := states[..n + 1];
      assert forall i :: 0 <= i < n ==> front[i + 1] == states[i + 1] && events[..n][i] == events[i];
      RunFollows(candidates, now, front, events[..n]);
      RunKeepsInv(front, events[..n]);
      assert Step(states[n], events[n], states[n + 1]);
      StepFollows(states[n], events[n], states[n + 1], Tried(front, events[..n]),
                  CourseOf(candidates, now, events[..n]));
    }
  }

  /** However ticks, failures, success and cancellation interleave, the phase and the reported
      failure depend on them and on the number of servers that can be joined, and on nothing else; a
      selected server is marked exactly when it is beyond 200 ms. */
  lemma EveryRunFollowsItsEvents(offered: seq<Candidate>, now: nat, states: seq<Search>,
                                 events: seq<Event>)
    requires IsRun(states, events) && Receives(BEGUN, offered, now, states[0])
    ensures states[|events|].candidates == Considered(offered)
    ensures Follows(states[|events|], CourseOf(Considered(offered), now, events))
  {
    hide Inv, Step, Follows, Receives;
    ReceivingStartsTheRun(offered, now, states[0]);
    StartFollows(offered, now, states[0]);
    RunFollows(Considered(offered), now, states, events);
    RunKeepsInv(states, events);
  }

  /** Servers are taken while the search waits for them, once; and until it has an outcome it can be
      cancelled. */
  lemma OffersAndCancels(s: Search, offered: seq<Candidate>, now: nat, after: Search)
    requires IsWellFormed(s)
    ensures Receives(s, offered, now, after) ==>
              if s.phase == Finding then after.phase == Preview || after.phase == Failed
              else after == s
    ensures Step(s, Cancel, after) ==>
              if s.phase == Finding || s.phase == Preview || s.phase == Connecting
              then after == s.(phase := Cancelled, failure := NoFailure)
              else after == s
  {
    hide MovesOn;
    if Receives(s, offered, now, after) && s.phase == Finding {
      var moved :| MovesOn(Loaded(s, offered), now, moved)
                   && after == if moved.phase == Failed && moved.attempts == 0
                                  && (exists c :: c in moved.candidates && IsFull(c))
                               then moved.(failure := ServersFull) else moved;
      MovingOnKeepsTheList(Loaded(s, offered), now, moved);
    }
  }
}
