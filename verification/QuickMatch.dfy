/** Quick match: preview the best server, connect to it, and fall back to the next best one each
    time a connection fails. */
module QuickMatch {
  import opened Sequences
  import opened Selector

  const MAX_ENTRIES: nat := 32
  const PREVIEW_MS: nat := 750

  datatype Phase = Idle | Finding | Preview | Connecting | Succeeded | Cancelled | Failed

  datatype Failure = NoFailure | DirectoryFailed | NoServers | ServersFull | Exhausted

  datatype Search = Search(phase: Phase, failure: Failure, started: nat,
                           candidates: seq<Candidate>, excluded: seq<bool>,
                           selected: Option<nat>, attempts: nat, fallback: bool)

  const BEGUN := Search(Finding, NoFailure, 0, [], seq(MAX_ENTRIES, i => false), None, 0, false)

  /** The first n positions that are not excluded, in order. */
  function OpenPositions(excluded: seq<bool>, n: nat): (positions: seq<nat>)
    requires n <= |excluded|
    ensures forall i :: i in positions <==> 0 <= i < n && !excluded[i]
    ensures forall k :: 0 <= k < |positions| ==> positions[k] < n
  {
    if n == 0 then []
    else OpenPositions(excluded, n - 1) + (if excluded[n - 1] then [] else [n - 1])
  }

  function CandidatesAt(candidates: seq<Candidate>, positions: seq<nat>): (picked: seq<Candidate>)
    requires forall k :: 0 <= k < |positions| ==> positions[k] < |candidates|
    ensures |picked| == |positions|
  {
    seq(|positions|, k requires 0 <= k < |positions| => candidates[positions[k]])
  }

  lemma NothingOpen(candidates: seq<Candidate>, excluded: seq<bool>)
    ensures OpenPositions(excluded, 0) == [] && CandidatesAt(candidates, []) == []
  {
  }

  lemma NextPosition(candidates: seq<Candidate>, excluded: seq<bool>, n: nat)
    requires n < |excluded| && n < |candidates|
    ensures var before := OpenPositions(excluded, n);
            && OpenPositions(excluded, n + 1) == before + (if excluded[n] then [] else [n])
            && CandidatesAt(candidates, before + [n]) == CandidatesAt(candidates, before) + [candidates[n]]
  {
    assert OpenPositions(excluded, n) + [] == OpenPositions(excluded, n);
  }

  predicate IsWellFormed(s: Search) {
    |s.candidates| <= MAX_ENTRIES == |s.excluded|
  }

  function Outcome(s: Search, choice: Option<Selection>, now: nat): Search
    requires IsWellFormed(s)
    requires choice.Some? ==> choice.value.index < |OpenPositions(s.excluded, |s.candidates|)|
  {
    match choice
    case None =>
      s.(selected := None, fallback := false, phase := Failed,
         failure := if s.attempts > 0 then Exhausted else NoServers)
    case Some(c) =>
      s.(selected := Some(OpenPositions(s.excluded, |s.candidates|)[c.index]),
         fallback := c.fallback, started := now, phase := Preview, failure := NoFailure)
  }

  /** The search moves on to a best candidate among those not excluded. */
  ghost predicate MovesOn(s: Search, now: nat, after: Search)
    requires IsWellFormed(s)
  {
    var open := OpenPositions(s.excluded, |s.candidates|);
    exists choice ::
      && IsSelection(CandidatesAt(s.candidates, open), DEFAULT_WEIGHTS, choice)
      && (choice.Some? ==> choice.value.index < |open|)
      && after == Outcome(s, choice, now)
  }

  predicate IsFull(c: Candidate) {
    c.reachable && c.capacity > 0 && c.players >= c.capacity
  }

  function Loaded(s: Search, offered: seq<Candidate>): Search {
    s.(candidates := offered[..if |offered| < MAX_ENTRIES then |offered| else MAX_ENTRIES])
  }

  /** What offering the discovered servers does to a search that waits for them. */
  ghost predicate Receives(s: Search, offered: seq<Candidate>, now: nat, after: Search)
    requires IsWellFormed(s)
  {
    if s.phase != Finding then after == s
    else
      exists moved ::
        && MovesOn(Loaded(s, offered), now, moved)
        && after == if moved.phase == Failed && moved.attempts == 0
                       && (exists c :: c in moved.candidates && IsFull(c))
                    then moved.(failure := ServersFull) else moved
  }

  datatype Event = Tick(now: nat) | Fail(now: nat) | Succeed | Cancel

  predicate IsDue(s: Search, now: nat) {
    s.phase == Preview && now >= s.started && now - s.started >= PREVIEW_MS
  }

  predicate CanFail(s: Search) {
    s.phase == Connecting && s.selected.Some? && s.selected.value < |s.candidates|
  }

  predicate IsActive(s: Search) {
    s.phase == Finding || s.phase == Preview || s.phase == Connecting
  }

  ghost predicate Step(s: Search, e: Event, after: Search)
    requires IsWellFormed(s)
  {
    match e
    case Tick(now) =>
      after == if IsDue(s, now) then s.(phase := Connecting, attempts := s.attempts + 1) else s
    case Fail(now) =>
      if CanFail(s) then MovesOn(s.(excluded := s.excluded[s.selected.value := true]), now, after)
      else after == s
    case Succeed =>
      after == if s.phase == Connecting then s.(phase := Succeeded, failure := NoFailure) else s
    case Cancel =>
      after == if IsActive(s) then s.(phase := Cancelled, failure := NoFailure) else s
  }

  // ----- the state in place -----

  class QuickMatchState {
    var phase: Phase
    var failure: Failure
    var previewStarted: nat
    var candidateCount: nat
    var selected: Option<nat>
    var attemptCount: nat
    var highLatencyFallback: bool
    const excluded: array<bool>
    const candidates: array<Candidate>

    ghost predicate Valid()
      reads this
    {
      && candidateCount <= MAX_ENTRIES
      && excluded.Length == MAX_ENTRIES && candidates.Length == MAX_ENTRIES
    }

    ghost function State(): (s: Search)
      reads this, excluded, candidates
      requires Valid()
      ensures IsWellFormed(s)
    {
      Search(phase, failure, previewStarted, candidates[..candidateCount], excluded[..], selected,
             attemptCount, highLatencyFallback)
    }

    constructor ()
      ensures Valid() && fresh(excluded) && fresh(candidates)
      ensures State() == BEGUN.(phase := Idle)
    {
      excluded := new bool[MAX_ENTRIES](i => false);
      candidates := new Candidate[MAX_ENTRIES](i => Candidate("", 0, 0, 0, 0, false));
      phase, failure, previewStarted, candidateCount := Idle, NoFailure, 0, 0;
      selected, attemptCount, highLatencyFallback := None, 0, false;
    }

    method Begin()
      requires Valid()
      modifies this, excluded
      ensures Valid() && State() == BEGUN
    {
      phase, failure, previewStarted, candidateCount := Finding, NoFailure, 0, 0;
      selected, attemptCount, highLatencyFallback := None, 0, false;
      forall i | 0 <= i < excluded.Length {
        excluded[i] := false;
      }
    }

    /** The candidates still open, and where each stands in the list. */
    method CollectOpen() returns (available: seq<Candidate>, sources: seq<nat>)
      requires Valid()
      ensures sources == OpenPositions(excluded[..], candidateCount)
      ensures available == CandidatesAt(candidates[..candidateCount], sources)
    {
      hide OpenPositions, CandidatesAt;
      available, sources := [], [];
      ghost var offered := candidates[..candidateCount];
      NothingOpen(offered, excluded[..]);
      for index := 0 to candidateCount
        invariant sources == OpenPositions(excluded[..], index)
        invariant available == CandidatesAt(offered, sources)
      {
        NextPosition(offered, excluded[..], index);
        if !excluded[index] {
          available, sources := available + [candidates[index]], sources + [index];
        }
      }
    }

    method SelectNext(now: nat) returns (ok: bool)
      requires Valid()
      modifies this
      ensures Valid() && MovesOn(old(State()), now, State())
      ensures ok == (phase == Preview)
    {
      hide IsSelection, CandidatesAt, OpenPositions;
      ghost var s := State();
      var available, sources := CollectOpen();
      var choice := Select(available, DEFAULT_WEIGHTS);
      SelectionIsInRange(available, choice);
      if choice.None? {
        selected, highLatencyFallback, phase := None, false, Failed;
        failure := if attemptCount > 0 then Exhausted else NoServers;
      } else {
        selected, highLatencyFallback := Some(sources[choice.value.index]), choice.value.fallback;
        previewStarted, phase, failure := now, Preview, NoFailure;
      }
      assert State() == Outcome(s, choice, now);
      return choice.Some?;
    }

    method SetCandidates(offered: seq<Candidate>, now: nat) returns (ok: bool)
      requires Valid()
      modifies this, candidates
      ensures Valid() && Receives(old(State()), offered, now, State())
      ensures ok == (old(phase) == Finding && phase == Preview)
    {
      hide MovesOn, IsFull;
      if phase != Finding {
        return false;
      }
      ghost var s := State();
      candidateCount := if |offered| < MAX_ENTRIES then |offered| else MAX_ENTRIES;
      var sawFull := false;
      for index := 0 to candidateCount
        invariant candidates[..index] == offered[..index]
        invariant sawFull <==> exists c :: c in offered[..index] && IsFull(c)
        invariant candidateCount == if |offered| < MAX_ENTRIES then |offered| else MAX_ENTRIES
        invariant State() == s.(candidates := candidates[..candidateCount])
      {
        candidates[index] := offered[index];
        assert offered[..index + 1] == offered[..index] + [offered[index]];
        sawFull := sawFull || IsFull(offered[index]);
      }
      assert State() == Loaded(s, offered);
      ok := SelectNext(now);
      ghost var moved := State();
      if !ok && attemptCount == 0 && sawFull {
        failure := ServersFull;
        assert State() == moved.(failure := ServersFull);
      }
      MovingOnKeepsTheList(Loaded(s, offered), now, moved);
    }

    method Update(now: nat)
      requires Valid()
      modifies this
      ensures Valid() && Step(old(State()), Tick(now), State())
    {
      if phase == Preview && now >= previewStarted && now - previewStarted >= PREVIEW_MS {
        phase := Connecting;
        attemptCount := attemptCount + 1;
      }
    }

    method ConnectionFailed(now: nat)
      requires Valid()
      modifies this, excluded
      ensures Valid() && Step(old(State()), Fail(now), State())
    {
      hide MovesOn;
      if phase != Connecting || selected.None? || selected.value >= candidateCount {
        return;
      }
      ghost var s := State();
      excluded[selected.value] := true;
      assert State() == s.(excluded := s.excluded[s.selected.value := true]);
      var _ := SelectNext(now);
    }

    method ConnectionSucceeded()
      requires Valid()
      modifies this
      ensures Valid() && Step(old(State()), Succeed, State())
    {
      if phase == Connecting {
        phase, failure := Succeeded, NoFailure;
      }
    }

    method CancelSearch()
      requires Valid()
      modifies this
      ensures Valid() && Step(old(State()), Cancel, State())
    {
      if phase == Finding || phase == Preview || phase == Connecting {
        phase, failure := Cancelled, NoFailure;
      }
    }
  }

  // ----- where the search moves on to -----

  lemma SelectionIsInRange(available: seq<Candidate>, choice: Option<Selection>)
    requires IsSelection(available, DEFAULT_WEIGHTS, choice)
    ensures choice.Some? ==> choice.value.index < |available|
  {
  }

  /** A server worth trying that has not been excluded. */
  predicate IsOpen(s: Search, i: nat)
    requires IsWellFormed(s)
  {
    i < |s.candidates| && !s.excluded[i] && IsJoinable(s.candidates[i])
  }

  ghost predicate HasNearOpen(s: Search)
    requires IsWellFormed(s)
  {
    exists i :: 0 <= i < |s.candidates| && IsOpen(s, i) && IsNear(s.candidates[i])
  }

  lemma MovingOnKeepsTheList(s: Search, now: nat, after: Search)
    requires IsWellFormed(s) && MovesOn(s, now, after)
    ensures after.candidates == s.candidates && after.excluded == s.excluded
    ensures after.attempts == s.attempts
    ensures after.phase == Preview || after.phase == Failed
  {
    hide IsSelection;
  }

  function OpenCandidates(s: Search): seq<Candidate>
    requires IsWellFormed(s)
  {
    CandidatesAt(s.candidates, OpenPositions(s.excluded, |s.candidates|))
  }

  lemma OpenCandidatesAreTheOpenServers(s: Search)
    requires IsWellFormed(s)
    ensures forall i :: 0 <= i < |s.candidates| && IsOpen(s, i) ==>
              s.candidates[i] in OpenCandidates(s)
    ensures forall c :: c in OpenCandidates(s) && IsJoinable(c) ==>
              exists i :: 0 <= i < |s.candidates| && IsOpen(s, i) && s.candidates[i] == c
  {
    hide IsJoinable;
    var open := OpenPositions(s.excluded, |s.candidates|);
    forall i | 0 <= i < |s.candidates| && IsOpen(s, i)
      ensures s.candidates[i] in OpenCandidates(s)
    {
      var k :| 0 <= k < |open| && open[k] == i;
      assert OpenCandidates(s)[k] == s.candidates[i];
    }
    forall c | c in OpenCandidates(s) && IsJoinable(c)
      ensures exists i :: 0 <= i < |s.candidates| && IsOpen(s, i) && s.candidates[i] == c
    {
      var k :| 0 <= k < |open| && OpenCandidates(s)[k] == c;
      assert open[k] in open && IsOpen(s, open[k]);
    }
  }

  /** The selected server is open, and is slow only when no fast one is open. The search fails
      exactly when nothing is open. */
  lemma MovingOnPicksAnOpenServer(s: Search, now: nat, after: Search)
    requires IsWellFormed(s) && MovesOn(s, now, after)
    ensures after.phase == Failed <==> forall i :: 0 <= i < |s.candidates| ==> !IsOpen(s, i)
    ensures after.phase == Failed ==>
              && after.selected.None?
              && after.failure == if s.attempts > 0 then Exhausted else NoServers
    ensures after.phase == Preview ==>
              && after.selected.Some? && after.selected.value < |s.candidates|
              && IsOpen(s, after.selected.value)
              && after.started == now
              && (IsNear(s.candidates[after.selected.value]) <==> HasNearOpen(s))
  {
    hide IsBest, IsJoinable, IsNear, IsSelection;
    var open := OpenPositions(s.excluded, |s.candidates|);
    var choice :| && IsSelection(OpenCandidates(s), DEFAULT_WEIGHTS, choice)
                  && (choice.Some? ==> choice.value.index < |open|)
                  && after == Outcome(s, choice, now);
    OpenCandidatesAreTheOpenServers(s);
    ChoiceIsEligible(OpenCandidates(s), choice);
    if choice.Some? {
      var k := choice.value.index;
      assert open[k] in open && OpenCandidates(s)[k] == s.candidates[open[k]];
      assert IsOpen(s, open[k]);
      hide OpenCandidates, OpenPositions;
    } else {
      forall i | 0 <= i < |s.candidates|
        ensures !IsOpen(s, i)
      {
        if IsOpen(s, i) {
          assert false;
        }
      }
    }
  }

  lemma ChoiceIsEligible(available: seq<Candidate>, choice: Option<Selection>)
    requires IsSelection(available, DEFAULT_WEIGHTS, choice)
    ensures choice.None? <==> forall c :: c in available ==> !IsJoinable(c)
    ensures choice.Some? ==>
              && choice.value.index < |available| && IsJoinable(available[choice.value.index])
              && (IsNear(available[choice.value.index]) <==>
                    exists c :: c in available && IsJoinable(c) && IsNear(c))
  {
    hide IsJoinable, IsNear;
    if choice.Some? {
      assert available[choice.value.index] in available;
    }
  }

  // ----- whole runs -----

  ghost predicate IsRun(states: seq<Search>, events: seq<Event>) {
    && |states| == |events| + 1
    && (forall i :: 0 <= i < |states| ==> IsWellFormed(states[i]))
    && forall i :: 0 <= i < |events| ==> Step(states[i], events[i], states[i + 1])
  }

  /** The servers whose connection failed, in order. */
  function Tried(states: seq<Search>, events: seq<Event>): seq<nat>
    requires |states| == |events| + 1
    decreases |events|
  {
    if events == [] then []
    else
      var n := |events| - 1;
      Tried(states[..n + 1], events[..n])
      + (if events[n].Fail? && CanFail(states[n]) then [states[n].selected.value] else [])
  }

  ghost predicate AreDistinct(tried: seq<nat>) {
    forall i, j :: 0 <= i < j < |tried| ==> tried[i] != tried[j]
  }

  /** Failed servers were joinable and tried once each, every fast one before any slow one. */
  ghost predicate IsFairOrder(candidates: seq<Candidate>, tried: seq<nat>) {
    && AreDistinct(tried)
    && (forall i :: 0 <= i < |tried| ==>
          tried[i] < |candidates| && IsJoinable(candidates[tried[i]]))
    && (forall i, j :: 0 <= i < |tried| && 0 <= j < |candidates|
                       && !IsNear(candidates[tried[i]])
                       && IsJoinable(candidates[j]) && IsNear(candidates[j]) ==>
          j in tried[..i])
  }

  ghost predicate SelectedIsRight(s: Search)
    requires IsWellFormed(s)
  {
    && s.selected.Some? && IsOpen(s, s.selected.value)
    && (IsNear(s.candidates[s.selected.value]) <==> HasNearOpen(s))
  }

  ghost predicate AttemptsMatch(s: Search, tried: nat) {
    match s.phase
    case Connecting => s.attempts == tried + 1
    case Succeeded => s.attempts == tried + 1
    case Cancelled => tried <= s.attempts <= tried + 1
    case _ => s.attempts == tried
  }

  ghost predicate Inv(s: Search, tried: seq<nat>) {
    && IsWellFormed(s)
    && s.phase != Finding && s.phase != Idle
    && IsFairOrder(s.candidates, tried)
    && (forall i :: 0 <= i < |s.excluded| ==> (s.excluded[i] <==> i in tried))
    && AttemptsMatch(s, |tried|)
    && (s.phase == Preview || s.phase == Connecting || s.phase == Succeeded ==> SelectedIsRight(s))
    && (s.phase == Cancelled && s.attempts > |tried| ==> SelectedIsRight(s))
    && (s.phase == Failed ==>
          && (forall i :: 0 <= i < |s.candidates| ==> !IsOpen(s, i))
          && (s.failure == Exhausted <==> tried != []))
  }

  lemma ReceivingStartsTheRun(offered: seq<Candidate>, now: nat, after: Search)
    requires Receives(BEGUN, offered, now, after)
    ensures IsWellFormed(after) && Inv(after, [])
    ensures after.candidates == Loaded(BEGUN, offered).candidates
  {
    hide MovesOn, IsOpen, HasNearOpen;
    var moved :| MovesOn(Loaded(BEGUN, offered), now, moved)
                 && after == if moved.phase == Failed && moved.attempts == 0
                                && (exists c :: c in moved.candidates && IsFull(c))
                             then moved.(failure := ServersFull) else moved;
    MovingOnKeepsTheList(Loaded(BEGUN, offered), now, moved);
    MovingOnPicksAnOpenServer(Loaded(BEGUN, offered), now, moved);
    SameOpen(Loaded(BEGUN, offered), after);
  }

  lemma SameOpen(s: Search, t: Search)
    requires IsWellFormed(s) && IsWellFormed(t)
    requires s.candidates == t.candidates && s.excluded == t.excluded
    ensures forall i :: 0 <= i < |s.candidates| ==> (IsOpen(s, i) <==> IsOpen(t, i))
    ensures HasNearOpen(s) <==> HasNearOpen(t)
  {
    hide IsJoinable, IsNear;
    assert forall i :: 0 <= i < |s.candidates| ==> (IsOpen(s, i) <==> IsOpen(t, i));
  }

  lemma FairOrderGrows(s: Search, tried: seq<nat>)
    requires Inv(s, tried) && s.phase == Connecting
    ensures IsFairOrder(s.candidates, tried + [s.selected.value])
  {
    hide IsJoinable, IsNear;
    var next := s.selected.value;
    var longer := tried + [next];
    forall i, j | 0 <= i < |longer| && 0 <= j < |s.candidates|
                  && !IsNear(s.candidates[longer[i]])
                  && IsJoinable(s.candidates[j]) && IsNear(s.candidates[j])
      ensures j in longer[..i]
    {
      if i < |tried| {
        assert longer[..i] == tried[..i];
        assert j in tried[..i];
      } else {
        assert longer[..i] == tried;
        assert !IsOpen(s, j);
      }
    }
  }

  lemma FailureKeepsInv(s: Search, now: nat, after: Search, tried: seq<nat>)
    requires Inv(s, tried) && CanFail(s) && Step(s, Fail(now), after)
    ensures Inv(after, tried + [s.selected.value])
  {
    hide MovesOn, IsOpen, HasNearOpen, IsFairOrder;
    var next := s.selected.value;
    var marked := s.(excluded := s.excluded[next := true]);
    MovingOnKeepsTheList(marked, now, after);
    MovingOnPicksAnOpenServer(marked, now, after);
    SameOpen(marked, after);
    FairOrderGrows(s, tried);
  }

  lemma StepKeepsInv(s: Search, e: Event, after: Search, tried: seq<nat>)
    requires Inv(s, tried) && Step(s, e, after)
    ensures Inv(after, if e.Fail? && CanFail(s) then tried + [s.selected.value] else tried)
  {
    hide MovesOn, IsFairOrder, IsJoinable, IsNear;
    if e.Fail? && CanFail(s) {
      FailureKeepsInv(s, e.now, after, tried);
    } else {
      SameOpen(s, after);
    }
  }

  lemma {:induction false} RunKeepsInv(states: seq<Search>, events: seq<Event>)
    requires IsRun(states, events) && Inv(states[0], [])
    ensures Inv(states[|events|], Tried(states, events))
    ensures states[|events|].candidates == states[0].candidates
    decreases |events|
  {
    hide Inv, Step;
    if events != [] {
      var n := |events| - 1;
      var front := states[..n + 1];
      assert forall i :: 0 <= i < n ==> front[i + 1] == states[i + 1] && events[..n][i] == events[i];
      RunKeepsInv(front, events[..n]);
      assert Step(states[n], events[n], states[n + 1]);
      StepKeepsInv(states[n], events[n], states[n + 1], Tried(front, events[..n]));
      StepKeepsTheList(states[n], events[n], states[n + 1]);
      var tried := Tried(front, events[..n]);
      assert tried + [] == tried;
    }
  }

  lemma StepKeepsTheList(s: Search, e: Event, after: Search)
    requires IsWellFormed(s) && Step(s, e, after)
    ensures after.candidates == s.candidates
  {
    hide MovesOn;
    if e.Fail? && CanFail(s) {
      MovingOnKeepsTheList(s.(excluded := s.excluded[s.selected.value := true]), e.now, after);
    }
  }

  /** At most all the servers have been attempted. */
  lemma AttemptsAreBounded(s: Search, tried: seq<nat>)
    requires Inv(s, tried)
    ensures |tried| <= s.attempts <= |s.candidates|
  {
    hide IsJoinable, IsNear;
    var used := if s.attempts > |tried| then tried + [s.selected.value] else tried;
    assert AreDistinct(used);
    CountDistinct(used);
    SubsetSize((set i | i in used), Below(|s.candidates|));
  }

  /** However ticks, failures, success and cancellation interleave: no server is tried twice, only
      joinable ones are tried, every fast one before any slow one, attempts never exceed the list
      and equal the failures plus the connection under way, and giving up means that every joinable
      server was tried. */
  lemma EveryRunIsFair(offered: seq<Candidate>, now: nat, states: seq<Search>, events: seq<Event>)
    requires IsRun(states, events) && Receives(BEGUN, offered, now, states[0])
    ensures var s := states[|events|];
            var tried := Tried(states, events);
            && s.candidates == Loaded(BEGUN, offered).candidates
            && IsFairOrder(s.candidates, tried)
            && s.attempts <= |s.candidates|
            && AttemptsMatch(s, |tried|)
            && (s.phase == Failed ==>
                  && (forall i :: 0 <= i < |s.candidates| && IsJoinable(s.candidates[i]) ==>
                        i in tried)
                  && (s.failure == Exhausted <==> tried != []))
  {
    ReceivingStartsTheRun(offered, now, states[0]);
    RunKeepsInv(states, events);
    var s := states[|events|];
    var tried := Tried(states, events);
    AttemptsAreBounded(s, tried);
    hide IsFairOrder, IsJoinable, IsNear, IsRun, Receives;
    forall i | 0 <= i < |s.candidates| && IsJoinable(s.candidates[i]) && s.phase == Failed
      ensures i in tried
    {
      assert !IsOpen(s, i);
    }
  }

  /** Each round waits out the preview, connects and fails. */
  ghost predicate AreFailingRounds(states: seq<Search>, events: seq<Event>, rounds: nat) {
    && IsRun(states, events) && |events| == 2 * rounds
    && forall r :: 0 <= r < rounds ==>
         && events[2 * r].Tick? && events[2 * r + 1].Fail?
         && events[2 * r].now >= states[2 * r].started + PREVIEW_MS
  }

  function JoinableIn(candidates: seq<Candidate>): set<nat> {
    set i: nat | i in Below(|candidates|) && IsJoinable(candidates[i])
  }

  lemma {:induction false} RoundsFailOneByOne(states: seq<Search>, events: seq<Event>, rounds: nat)
    requires AreFailingRounds(states, events, rounds) && Inv(states[0], [])
    requires states[0].phase == Preview || states[0].phase == Failed
    ensures states[2 * rounds].phase == Failed
            || (states[2 * rounds].phase == Preview && |Tried(states, events)| == rounds)
    decreases rounds
  {
    hide Inv, AreFailingRounds, IsRun, Step, IsFairOrder, Tried, CanFail;
    if rounds == 0 {
      NothingTried(states, events);
    } else {
      var n := 2 * rounds;
      EarlierRounds(states, events, rounds);
      var front, earlier := states[..n - 1], events[..n - 2];
      RoundsFailOneByOne(front, earlier, rounds - 1);
      RunKeepsInv(front, earlier);
      OneRound(states[n - 2], events[n - 2], states[n - 1], events[n - 1], states[n],
               Tried(front, earlier));
      TriedInTheLastRound(states, events);
    }
  }

  lemma NothingTried(states: seq<Search>, events: seq<Event>)
    requires AreFailingRounds(states, events, 0)
    ensures Tried(states, events) == []
  {
  }

  /** All rounds but the last, and the last one. */
  lemma EarlierRounds(states: seq<Search>, events: seq<Event>, rounds: nat)
    requires AreFailingRounds(states, events, rounds) && rounds > 0
    ensures var n := 2 * rounds;
            && |states| == n + 1 && |events| == n
            && AreFailingRounds(states[..n - 1], events[..n - 2], rounds - 1)
            && IsRun(states[..n - 1], events[..n - 2])
            && events[n - 2].Tick? && events[n - 1].Fail?
            && events[n - 2].now >= states[n - 2].started + PREVIEW_MS
            && (forall i :: n - 2 <= i <= n ==> IsWellFormed(states[i]))
            && Step(states[n - 2], events[n - 2], states[n - 1])
            && Step(states[n - 1], events[n - 1], states[n])
  {
    hide Step, IsWellFormed;
    var n := 2 * rounds;
    var front, earlier := states[..n - 1], events[..n - 2];
    assert forall i :: 0 <= i < n - 2 ==> front[i + 1] == states[i + 1] && earlier[i] == events[i];
    assert events[2 * (rounds - 1)].Tick? && events[2 * (rounds - 1) + 1].Fail?;
  }

  lemma TriedInTheLastRound(states: seq<Search>, events: seq<Event>)
    requires |states| == |events| + 1 && |events| >= 2
    requires events[|events| - 2].Tick? && events[|events| - 1].Fail?
    ensures var n := |events|;
            |Tried(states, events)| == |Tried(states[..n - 1], events[..n - 2])|
                                       + (if CanFail(states[n - 1]) then 1 else 0)
  {
    hide CanFail;
    var n := |events|;
    assert events[..n - 1][..n - 2] == events[..n - 2] && states[..n][..n - 1] == states[..n - 1];
  }

  lemma OneRound(s: Search, tick: Event, connecting: Search, fail: Event, after: Search,
                 tried: seq<nat>)
    requires Inv(s, tried) && tick.Tick? && fail.Fail?
    requires Step(s, tick, connecting) && IsWellFormed(connecting) && Step(connecting, fail, after)
    requires tick.now >= s.started + PREVIEW_MS
    requires s.phase == Preview || s.phase == Failed
    ensures s.phase == Failed ==> after.phase == Failed
    ensures s.phase == Preview ==>
              && connecting.phase == Connecting && CanFail(connecting)
              && (after.phase == Preview || after.phase == Failed)
  {
    hide MovesOn, IsFairOrder, IsJoinable, IsNear;
    if s.phase == Preview {
      MovingOnKeepsTheList(
        connecting.(excluded := connecting.excluded[connecting.selected.value := true]), fail.now,
        after);
    }
  }

  /** When every connection fails, as many rounds as there are joinable servers try each of them
      exactly once and end the search. */
  lemma ConstantFailureTriesEveryServer(offered: seq<Candidate>, now: nat, states: seq<Search>,
                                        events: seq<Event>)
    requires AreFailingRounds(states, events, |JoinableIn(Loaded(BEGUN, offered).candidates)|)
    requires Receives(BEGUN, offered, now, states[0])
    ensures var joinable := JoinableIn(Loaded(BEGUN, offered).candidates);
            var end := states[|events|];
            var tried := Tried(states, events);
            && end.phase == Failed
            && AreDistinct(tried) && (set i | i in tried) == joinable
            && end.attempts == |tried| == |joinable|
            && (end.failure == Exhausted <==> joinable != {})
  {
    ReceivingStartsTheRun(offered, now, states[0]);
    var joinable := JoinableIn(Loaded(BEGUN, offered).candidates);
    RunKeepsInv(states, events);
    RoundsFailOneByOne(states, events, |joinable|);
    hide AreFailingRounds, IsRun, Receives;
    FailedOnceAllTried(states[|events|], Tried(states, events));
  }

  lemma FailedOnceAllTried(s: Search, tried: seq<nat>)
    requires Inv(s, tried)
    requires s.phase == Failed || (s.phase == Preview && |tried| == |JoinableIn(s.candidates)|)
    ensures s.phase == Failed
    ensures AreDistinct(tried) && (set i | i in tried) == JoinableIn(s.candidates)
    ensures s.attempts == |tried| == |JoinableIn(s.candidates)|
    ensures s.failure == Exhausted <==> JoinableIn(s.candidates) != {}
  {
    hide IsJoinable, IsNear;
    var joinable := JoinableIn(s.candidates);
    CountDistinct(tried);
    var triedSet := set i | i in tried;
    assert triedSet <= joinable;
    if s.phase == Preview {
      var next := s.selected.value;
      assert next in joinable && next !in triedSet;
      SubsetSize(triedSet + {next}, joinable);
      assert false;
    }
    forall i | i in joinable
      ensures i in tried
    {
      assert !IsOpen(s, i);
    }
    assert triedSet == joinable;
    if tried != [] {
      assert tried[0] in joinable;
    }
  }
}
