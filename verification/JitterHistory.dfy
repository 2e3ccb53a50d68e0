/** What the jitter buffer answers, told by the history of its stream alone: which frames were accepted
    and when, and how many slots have passed. */
module JitterHistory {
  import opened Sequences
  import opened Serial
  import opened Jitter

  /** Concealed slots at the end of what was played. */
  function LossesAtEnd(played: seq<Option<Frame>>): nat {
    if played == [] || played[|played| - 1].Some? then 0
    else 1 + LossesAtEnd(played[..|played| - 1])
  }

  lemma {:induction false} LossesAtLeast(played: seq<Option<Frame>>, k: nat)
    ensures LossesAtEnd(played) >= k <==>
              |played| >= k && forall j :: |played| - k <= j < |played| ==> played[j].None?
    decreases k
  {
    if k > 0 && played != [] {
      var front := played[..|played| - 1];
      LossesAtLeast(front, k - 1);
      if played[|played| - 1].None? && |played| >= k {
        assert forall j :: |played| - k <= j < |played| - 1 ==> front[j] == played[j];
      }
    }
  }

  lemma LossesGrow(played: seq<Option<Frame>>, slot: Option<Frame>)
    ensures LossesAtEnd(played + [slot]) == if slot.Some? then 0 else 1 + LossesAtEnd(played)
  {
    assert (played + [slot])[..|played|] == played;
  }

  // ----- the numbers kept beside the frames -----

  ghost predicate HasEnd(accepted: map<nat, Frame>) {
    exists n :: n in accepted && accepted[n].end
  }

  /** Frames accepted for slots that are still to come. */
  function From(accepted: map<nat, Frame>, slots: nat): set<nat> {
    set n | n in accepted && n >= slots
  }

  /** Every counter and flag of the buffer, from the history of its stream. */
  ghost predicate Recalls(s: Session) {
    s.buffer.initialized ==>
      && (s.buffer.started <==> s.slots > 0)
      && s.buffer.consecutiveLoss == LossesAtEnd(s.played)
      && 0 in s.accepted && s.buffer.firstArrivalMs == s.accepted[0].arrivalMs
      && (s.buffer.endReceived <==> HasEnd(s.accepted))
  }

  lemma HasEndGrows(accepted: map<nat, Frame>, n: nat, f: Frame)
    requires n !in accepted
    ensures HasEnd(accepted[n := f]) <==> HasEnd(accepted) || f.end
  {
    var after := accepted[n := f];
    assert after[n] == f;
    if HasEnd(accepted) {
      var k :| k in accepted && accepted[k].end;
      assert after[k] == accepted[k];
    }
  }

  lemma ArrivalIsRecalled(s: Session, p: Packet, at: nat)
    requires Inv(s) && Recalls(s)
    ensures Recalls(Step(s, Arrive(p, at)))
  {
    hide Inv, HasEnd, NumberOf, SequenceDelta, LossesAtEnd;
    var (b, result) := Received(s.buffer, p, at);
    if result.Accepted? {
      if p.start {
        FirstIsRecalled(p, at);
      } else {
        WaitingIsAccepted(s, p.sequence);
        HasEndGrows(s.accepted, NumberOf(s, p.sequence), ToFrame(p, at));
      }
    }
  }

  lemma FirstIsRecalled(p: Packet, at: nat)
    ensures HasEnd(map[0 := ToFrame(p, at)]) <==> p.end
    ensures LossesAtEnd([]) == 0
  {
    var accepted: map<nat, Frame> := map[0 := ToFrame(p, at)];
    assert accepted[0] == ToFrame(p, at);
  }

  lemma TickIsRecalled(s: Session, at: nat)
    requires Inv(s) && Recalls(s)
    ensures Recalls(Step(s, Tick(at)))
  {
    hide Inv, HasEnd, LossesAtEnd, MustWait;
    LossesGrow(s.played, None);
    if s.buffer.initialized && s.buffer.expected in s.buffer.waiting {
      LossesGrow(s.played, Some(s.buffer.waiting[s.buffer.expected]));
    }
  }

  // ----- how many are waiting -----

  lemma {:induction false} WaitingAreAhead(waiting: map<uint16, Frame>, e: uint16, slots: nat,
                                           accepted: map<nat, Frame>)
    requires Tracks(waiting, e, slots, accepted)
    ensures |From(accepted, slots)| == |waiting|
    decreases |waiting|
  {
    hide Tracks, From, Ahead;
    if waiting == map[] {
      NothingAhead(waiting, e, slots, accepted);
    } else {
      var q :| q in waiting;
      var n := slots + Ahead(q, e);
      TracksRemove(waiting, e, slots, accepted, q);
      OneLess(waiting, q);
      WaitingAreAhead(waiting - {q}, e, slots, accepted - {n});
      OneNumberLess(accepted, slots, n);
    }
  }

  lemma OneLess(waiting: map<uint16, Frame>, q: uint16)
    requires q in waiting
    ensures |waiting| == |waiting - {q}| + 1
  {
    assert (waiting - {q})[q := waiting[q]] == waiting;
  }

  lemma OneNumberLess(accepted: map<nat, Frame>, slots: nat, n: nat)
    requires n in accepted && n >= slots
    ensures |From(accepted, slots)| == |From(accepted - {n}, slots)| + 1
  {
    assert From(accepted, slots) == From(accepted - {n}, slots) + {n};
  }

  lemma NothingAhead(waiting: map<uint16, Frame>, e: uint16, slots: nat, accepted: map<nat, Frame>)
    requires Tracks(waiting, e, slots, accepted) && waiting == map[]
    ensures |From(accepted, slots)| == 0
  {
    hide Tracks;
    if n: nat :| n in From(accepted, slots) {
      var q := WaitingAs(waiting, e, slots, accepted, n);
    }
  }

  lemma WaitingAs(waiting: map<uint16, Frame>, e: uint16, slots: nat, accepted: map<nat, Frame>,
                  n: nat) returns (q: uint16)
    requires Tracks(waiting, e, slots, accepted) && n in accepted && n >= slots
    ensures q in waiting
  {
    hide Ahead;
    q := (e + (n - slots)) % WRAP_16;
    NumberAhead(e, n - slots);
  }

  lemma NumberAhead(e: uint16, gap: nat)
    requires gap < WRAP_16
    ensures Ahead((e + gap) % WRAP_16, e) == gap
  {
  }

  lemma TracksRemove(waiting: map<uint16, Frame>, e: uint16, slots: nat, accepted: map<nat, Frame>,
                     q: uint16)
    requires Tracks(waiting, e, slots, accepted) && q in waiting
    ensures slots + Ahead(q, e) in accepted
    ensures Tracks(waiting - {q}, e, slots, accepted - {slots + Ahead(q, e)})
  {
    hide Ahead;
    forall q': uint16
      ensures Ahead(q', e) == Ahead(q, e) <==> q' == q
    {
      if Ahead(q', e) == Ahead(q, e) {
        AheadIsInjective(q', q, e);
      }
    }
  }

  // ----- a stream without a buffer -----

  /** The stream being played: its id, its first number, the slots that have passed, and every frame
      accepted for it so far. */
  datatype Stream = Closed | Open(id: uint32, first: uint16, slots: nat, accepted: map<nat, Frame>)

  datatype Reply = Pushed(result: PushResult) | Popped(popped: PopResult)

  /** The unwrapped number that a wire number stands for. */
  function Number(st: Stream, sequence: uint16): nat
    requires st.Open?
  {
    st.slots + Ahead(sequence, (st.first + st.slots) % WRAP_16)
  }

  /** The next slot and the five before it all went without a frame. */
  predicate IsStarved(st: Stream)
    requires st.Open?
  {
    && st.slots !in st.accepted && st.slots >= MAX_CONSECUTIVE_LOSS
    && forall k :: st.slots - MAX_CONSECUTIVE_LOSS <= k < st.slots ==> k !in st.accepted
  }

  /** Nothing has been played yet, few frames and no END have come, and the START is recent. */
  ghost predicate IsFilling(st: Stream, nowMs: nat)
    requires st.Open?
  {
    && st.slots == 0 && |st.accepted| < TARGET_FRAMES && !HasEnd(st.accepted) && 0 in st.accepted
    && st.accepted[0].arrivalMs <= nowMs < st.accepted[0].arrivalMs + MAX_START_DELAY_MS
  }

  /** What a pop should answer. */
  ghost function Due(st: Stream, nowMs: nat): PopResult {
    if st.Closed? then Finished
    else if IsFilling(st, nowMs) then Wait
    else if st.slots in st.accepted then Play(st.accepted[st.slots], st.accepted[st.slots].end)
    else if IsStarved(st) then Finished
    else if st.slots + 1 in st.accepted then
      Fec(st.accepted[st.slots + 1], (st.first + st.slots) % WRAP_16)
    else Plc((st.first + st.slots) % WRAP_16)
  }

  /** What an arrival should be answered. */
  ghost function Taken(st: Stream, p: Packet): PushResult {
    if !p.wellFormed || p.senderId == 0 then Invalid
    else if p.start then Accepted
    else if st.Closed? || p.streamId != st.id then StreamNotStarted
    else
      var n := Number(st, p.sequence);
      if st.slots > 0 && n >= st.slots + 0x8000 then Late
      else if n in st.accepted then Duplicate
      else if |From(st.accepted, st.slots)| >= CAPACITY then Overflow
      else Accepted
  }

  /** One event, and its answer. A stream is opened by a START, and closed by the slot of its END or
      by starving. */
  ghost function Next(st: Stream, e: Event): (Stream, Reply) {
    match e
    case Arrive(p, at) =>
      var result := Taken(st, p);
      (if !result.Accepted? then st
       else if p.start then Open(p.streamId, p.sequence, 0, map[0 := ToFrame(p, at)])
       else st.(accepted := st.accepted[Number(st, p.sequence) := ToFrame(p, at)]),
       Pushed(result))
    case Tick(at) =>
      var due := Due(st, at);
      (if due.Finished? || (due.Play? && due.streamEnded) then Closed
       else if due.Wait? then st
       else st.(slots := st.slots + 1),
       Popped(due))
  }

  ghost function StreamAfter(st: Stream, events: seq<Event>): Stream
    decreases |events|
  {
    if events == [] then st else StreamAfter(Next(st, events[0]).0, events[1..])
  }

  // ----- the buffer plays that stream -----

  ghost predicate Mirrors(s: Session, st: Stream) {
    if s.buffer.initialized then
      st == Open(s.buffer.streamId, s.first, s.slots, s.accepted)
    else st.Closed?
  }

  function Replied(s: Session, e: Event): Reply {
    match e
    case Arrive(p, at) => Pushed(Received(s.buffer, p, at).1)
    case Tick(at) => Popped(Pop(s.buffer, at).1)
  }

  lemma StarvedExactlyWhen(s: Session, st: Stream)
    requires Inv(s) && Recalls(s) && s.buffer.initialized && Mirrors(s, st)
    requires s.slots !in s.accepted
    ensures s.buffer.consecutiveLoss >= MAX_CONSECUTIVE_LOSS <==> IsStarved(st)
  {
    hide Tracks, NumbersFit, HasEnd;
    LossesAtLeast(s.played, MAX_CONSECUTIVE_LOSS);
  }

  lemma FillingExactlyWhen(s: Session, st: Stream, nowMs: nat)
    requires Inv(s) && Recalls(s) && s.buffer.initialized && Mirrors(s, st)
    ensures MustWait(s.buffer, nowMs) <==> IsFilling(st, nowMs)
  {
    hide Tracks, HasEnd, NumbersFit, SlotsPlayedAsAccepted;
    WaitingAreAhead(s.buffer.waiting, s.buffer.expected, s.slots, s.accepted);
    if s.slots == 0 {
      assert From(s.accepted, 0) == s.accepted.Keys;
    }
  }

  lemma NextFrame(s: Session)
    requires Inv(s) && s.buffer.initialized
    ensures s.buffer.expected in s.buffer.waiting ==>
              s.slots in s.accepted && s.buffer.waiting[s.buffer.expected] == s.accepted[s.slots]
    ensures s.buffer.expected == (s.first + s.slots) % WRAP_16
    ensures Tracks(s.buffer.waiting, s.buffer.expected, s.slots, s.accepted)
  {
    hide Tracks, NumbersFit, SlotsPlayedAsAccepted;
    TracksAdvance(s.buffer.waiting, s.buffer.expected, s.slots, s.accepted);
  }

  lemma PopAnswersTheStream(s: Session, st: Stream, nowMs: nat)
    requires Inv(s) && Recalls(s) && s.buffer.initialized && Mirrors(s, st)
    ensures Pop(s.buffer, nowMs).1 == Due(st, nowMs)
  {
    hide Inv, Recalls, Tracks, MustWait, IsFilling, IsStarved, Succ16, AfterPlay, AfterLoss;
    FillingExactlyWhen(s, st, nowMs);
    if s.slots !in s.accepted {
      StarvedExactlyWhen(s, st);
    }
    NextFrame(s);
    NextTwoSlots(s.buffer.waiting, s.buffer.expected, s.slots, s.accepted);
  }

  /** What a pop leaves of the buffer. */
  lemma PopLeaves(b: Buffer, nowMs: nat)
    requires b.initialized
    ensures var (b', result) := Pop(b, nowMs);
            && (b'.initialized <==> !result.Finished? && !(result.Play? && result.streamEnded))
            && (b'.initialized ==> b'.streamId == b.streamId)
  {
    hide MustWait;
  }

  lemma TickMirrors(s: Session, st: Stream, nowMs: nat)
    requires Inv(s) && Recalls(s) && Mirrors(s, st)
    ensures Mirrors(Step(s, Tick(nowMs)), Next(st, Tick(nowMs)).0)
    ensures Replied(s, Tick(nowMs)) == Next(st, Tick(nowMs)).1
  {
    if s.buffer.initialized {
      PopAnswersTheStream(s, st, nowMs);
      PopLeaves(s.buffer, nowMs);
      hide Inv, Recalls, Pop, Due;
    }
  }

  lemma ArrivalAnswersTheStream(s: Session, st: Stream, p: Packet, at: nat)
    requires Inv(s) && Recalls(s) && Mirrors(s, st)
    ensures Received(s.buffer, p, at).1 == Taken(st, p)
    ensures s.buffer.initialized ==> Number(st, p.sequence) == NumberOf(s, p.sequence)
  {
    hide Tracks, SlotsPlayedAsAccepted, NumbersFit, HasEnd, LossesAtEnd;
    if s.buffer.initialized {
      WaitingIsAccepted(s, p.sequence);
      WaitingAreAhead(s.buffer.waiting, s.buffer.expected, s.slots, s.accepted);
    }
  }

  lemma ArrivalMirrors(s: Session, st: Stream, p: Packet, at: nat)
    requires Inv(s) && Recalls(s) && Mirrors(s, st)
    ensures Mirrors(Step(s, Arrive(p, at)), Next(st, Arrive(p, at)).0)
    ensures Replied(s, Arrive(p, at)) == Next(st, Arrive(p, at)).1
  {
    hide Inv, Recalls, Taken, NumberOf, Number, SequenceDelta;
    ArrivalAnswersTheStream(s, st, p, at);
    ReceivedBuffer(s.buffer, p, at);
  }

  lemma {:induction false} RunMirrors(s: Session, st: Stream, events: seq<Event>)
    requires Inv(s) && Recalls(s) && Mirrors(s, st)
    ensures var after := Run(s, events);
            Inv(after) && Recalls(after) && Mirrors(after, StreamAfter(st, events))
    decreases |events|
  {
    hide Inv, Recalls, Mirrors, Step, Next;
    if events != [] {
      var e := events[0];
      match e
      case Arrive(p, at) =>
        ArrivalKeepsInv(s, p, at);
        ArrivalIsRecalled(s, p, at);
        ArrivalMirrors(s, st, p, at);
        RunMirrors(Step(s, e), Next(st, e).0, events[1..]);
      case Tick(at) =>
        TickKeepsInv(s, at);
        TickIsRecalled(s, at);
        TickMirrors(s, st, at);
        RunMirrors(Step(s, e), Next(st, e).0, events[1..]);
    }
  }

  /** Over every run of arrivals and pops: the buffer answers as the stream demands. It is open from an
      accepted START until the slot of its END, or until five slots in a row were concealed and
      nothing was accepted for the sixth either; meanwhile the loss count is the number of concealed
      slots at the end. */
  lemma EveryAnswerIsTheStreams(events: seq<Event>, e: Event)
    ensures var s, st := Run(START_OF_RUN, events), StreamAfter(Closed, events);
            && Replied(s, e) == Next(st, e).1
            && (s.buffer.initialized <==> st.Open?)
            && (st.Open? ==> s.buffer.consecutiveLoss == LossesAtEnd(s.played))
            && (st.Open? && e.Tick? ==>
                  (Pop(s.buffer, e.atMs).1 == Finished <==>
                     !IsFilling(st, e.atMs) && IsStarved(st)))
  {
    hide Inv, Recalls, Next, Replied, Pop, IsFilling, IsStarved, Run;
    RunStartsOk();
    StartIsRecalled();
    RunMirrors(START_OF_RUN, Closed, events);
    var s, st := Run(START_OF_RUN, events), StreamAfter(Closed, events);
    MirrorsTheCount(s, st);
    match e
    case Arrive(p, at) =>
      ArrivalMirrors(s, st, p, at);
    case Tick(at) =>
      TickMirrors(s, st, at);
      PopIsDue(s, st, at);
  }

  lemma StartIsRecalled()
    ensures Recalls(START_OF_RUN)
  {
  }

  lemma MirrorsTheCount(s: Session, st: Stream)
    requires Recalls(s) && Mirrors(s, st)
    ensures s.buffer.initialized <==> st.Open?
    ensures st.Open? ==> s.buffer.consecutiveLoss == LossesAtEnd(s.played)
  {
    hide HasEnd, LossesAtEnd;
  }

  lemma PopIsDue(s: Session, st: Stream, nowMs: nat)
    requires Replied(s, Tick(nowMs)) == Next(st, Tick(nowMs)).1
    ensures Pop(s.buffer, nowMs).1 == Due(st, nowMs)
    ensures st.Open? ==>
              (Due(st, nowMs) == Finished <==> !IsFilling(st, nowMs) && IsStarved(st))
  {
    hide Pop, IsFilling;
  }
}
