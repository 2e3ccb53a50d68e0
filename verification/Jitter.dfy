/** The jitter buffer: reorders the frames of one talk stream under 16-bit sequence numbers and
    plays one frame time per pop. */
module Jitter {
  import opened Sequences
  import opened Serial

  const CAPACITY: nat := 12
  const TARGET_FRAMES: nat := 3
  const MAX_START_DELAY_MS: nat := 60
  const MAX_CONSECUTIVE_LOSS: nat := 5

  /** A voice packet; wellFormed stands for the protocol's size and field checks. */
  datatype Packet = Packet(wellFormed: bool, senderId: uint32, streamId: uint32, timestamp: uint32,
                           sequence: uint16, start: bool, end: bool, payload: seq<Byte>)

  datatype Frame = Frame(timestamp: uint32, arrivalMs: nat, sequence: uint16, start: bool,
                         end: bool, payload: seq<Byte>)

  datatype PushResult = Accepted | StreamNotStarted | Late | Duplicate | Overflow | Invalid

  /** A pop's outcome. Fec carries the frame after the missing one, whose error-correction data
      stands in for it; Plc has nothing to go by. */
  datatype PopResult =
    | Wait
    | Play(frame: Frame, streamEnded: bool)
    | Fec(next: Frame, missing: uint16)
    | Plc(missing: uint16)
    | Finished

  /** The buffer as a value: what is waiting, by sequence number. */
  datatype Buffer = Buffer(waiting: map<uint16, Frame>, streamId: uint32, firstArrivalMs: nat,
                           expected: uint16, consecutiveLoss: nat,
                           initialized: bool, started: bool, endReceived: bool)

  const EMPTY := Buffer(map[], 0, 0, 0, 0, false, false, false)

  /** How far a number lies ahead, modulo 2^16. */
  function Ahead(sequence: uint16, reference: uint16): uint16 {
    (sequence - reference) % WRAP_16
  }

  /** The signed 16-bit difference of section 3.2 of RFC 1982. */
  function SequenceDelta(sequence: uint16, reference: uint16): int {
    var ahead := Ahead(sequence, reference);
    if ahead < 0x8000 then ahead else ahead - WRAP_16
  }

  function ToFrame(p: Packet, arrivalMs: nat): Frame {
    Frame(p.timestamp, arrivalMs, p.sequence, p.start, p.end, p.payload)
  }

  function StreamStarted(p: Packet, arrivalMs: nat): Buffer {
    EMPTY.(streamId := p.streamId, expected := p.sequence, firstArrivalMs := arrivalMs,
           initialized := true)
  }

  function Received(b: Buffer, p: Packet, arrivalMs: nat): (Buffer, PushResult) {
    if !p.wellFormed || p.senderId == 0 then (b, Invalid)
    else if !p.start && (!b.initialized || b.streamId != p.streamId) then (b, StreamNotStarted)
    else
      var b := if p.start then StreamStarted(p, arrivalMs) else b;
      if b.started && SequenceDelta(p.sequence, b.expected) < 0 then (b, Late)
      else if p.sequence in b.waiting then (b, Duplicate)
      else if |b.waiting| >= CAPACITY then (b, Overflow)
      else
        (b.(waiting := b.waiting[p.sequence := ToFrame(p, arrivalMs)],
            endReceived := b.endReceived || p.end), Accepted)
  }

  predicate MustWait(b: Buffer, nowMs: nat) {
    && !b.started
    && |b.waiting| < TARGET_FRAMES
    && !b.endReceived
    && b.firstArrivalMs <= nowMs < b.firstArrivalMs + MAX_START_DELAY_MS
  }

  /** The buffer after its expected frame has been played. */
  function AfterPlay(b: Buffer): Buffer
    requires b.expected in b.waiting
  {
    if b.waiting[b.expected].end then EMPTY
    else b.(waiting := b.waiting - {b.expected}, expected := Succ16(b.expected),
            consecutiveLoss := 0, started := true)
  }

  /** The buffer after its expected frame has been found missing. */
  function AfterLoss(b: Buffer): Buffer {
    if b.consecutiveLoss + 1 > MAX_CONSECUTIVE_LOSS then EMPTY
    else b.(expected := Succ16(b.expected), consecutiveLoss := b.consecutiveLoss + 1,
            started := true)
  }

  function Pop(b: Buffer, nowMs: nat): (Buffer, PopResult) {
    if !b.initialized then (b, Finished)
    else if MustWait(b, nowMs) then (b, Wait)
    else if b.expected in b.waiting then
      var frame := b.waiting[b.expected];
      (AfterPlay(b), Play(frame, frame.end))
    else
      var next := Succ16(b.expected);
      (AfterLoss(b),
       if b.consecutiveLoss + 1 > MAX_CONSECUTIVE_LOSS then Finished
       else if next in b.waiting then Fec(b.waiting[next], b.expected)
       else Plc(b.expected))
  }

  // ----- whole runs -----

  datatype Event = Arrive(packet: Packet, atMs: nat) | Tick(atMs: nat)

  /** A run's history since the current stream epoch began. Slot k stands for the k-th frame time;
      number n is the wire number `first + n` modulo 2^16, kept unwrapped. */
  datatype Session = Session(buffer: Buffer, first: uint16, slots: nat, accepted: map<nat, Frame>,
                             played: seq<Option<Frame>>)

  /** The unwrapped number that a wire number stands for: the next one not yet passed. */
  function NumberOf(s: Session, sequence: uint16): nat {
    s.slots + Ahead(sequence, s.buffer.expected)
  }

  function Step(s: Session, e: Event): Session {
    match e
    case Arrive(p, at) =>
      var (b, result) := Received(s.buffer, p, at);
      if !result.Accepted? then s.(buffer := b)
      else if p.start then Session(b, p.sequence, 0, map[0 := ToFrame(p, at)], [])
      else s.(buffer := b, accepted := s.accepted[NumberOf(s, p.sequence) := ToFrame(p, at)])
    case Tick(at) =>
      var (b, result) := Pop(s.buffer, at);
      match result
      case Wait => s
      case Play(frame, ended) =>
        Session(b, s.first, s.slots + 1, s.accepted, s.played + [Some(frame)])
      case Finished => Session(b, 0, 0, map[], [])
      case _ => Session(b, s.first, s.slots + 1, s.accepted, s.played + [None])
  }

  function Run(s: Session, events: seq<Event>): Session
    decreases |events|
  {
    if events == [] then s else Run(Step(s, events[0]), events[1..])
  }

  /** What was played in each slot so far: exactly the frame accepted for that number, if one was. */
  ghost predicate SlotsPlayedAsAccepted(s: Session) {
    && |s.played| == s.slots
    && forall k :: 0 <= k < s.slots ==>
         s.played[k] == if k in s.accepted then Some(s.accepted[k]) else None
  }

  /** Accepted frames carry the wire number of the slot they are played in. */
  ghost predicate NumbersFit(first: uint16, accepted: map<nat, Frame>) {
    forall n :: n in accepted ==> accepted[n].sequence == (first + n) % WRAP_16
  }

  /** The waiting frames are the accepted ones whose slots are still to come. */
  ghost predicate Tracks(waiting: map<uint16, Frame>, expected: uint16, slots: nat,
                         accepted: map<nat, Frame>) {
    && (forall n :: n in accepted ==> n < slots + WRAP_16)
    && (forall q: uint16 :: q in waiting <==> slots + Ahead(q, expected) in accepted)
    && (forall q: uint16 :: q in waiting ==> waiting[q] == accepted[slots + Ahead(q, expected)])
  }

  lemma TracksInsert(waiting: map<uint16, Frame>, e: uint16, slots: nat, accepted: map<nat, Frame>,
                     q: uint16, f: Frame)
    requires Tracks(waiting, e, slots, accepted)
    ensures Tracks(waiting[q := f], e, slots, accepted[slots + Ahead(q, e) := f])
  {
    hide Ahead;
    AheadFacts(q, e);
    var n := slots + Ahead(q, e);
    var waiting', accepted' := waiting[q := f], accepted[n := f];
    forall q': uint16
      ensures q' in waiting' <==> slots + Ahead(q', e) in accepted'
      ensures q' in waiting' ==> waiting'[q'] == accepted'[slots + Ahead(q', e)]
    {
      if Ahead(q', e) == Ahead(q, e) {
        AheadIsInjective(q', q, e);
      }
    }
  }

  lemma TracksAdvance(waiting: map<uint16, Frame>, e: uint16, slots: nat, accepted: map<nat, Frame>)
    requires Tracks(waiting, e, slots, accepted)
    ensures Tracks(waiting - {e}, Succ16(e), slots + 1, accepted)
    ensures e in waiting <==> slots in accepted
    ensures e in waiting ==> waiting[e] == accepted[slots]
  {
    hide Ahead, Succ16;
    AheadFacts(e, e);
    forall q: uint16
      ensures Ahead(q, Succ16(e)) == if q == e then WRAP_16 - 1 else Ahead(q, e) - 1
      ensures Ahead(q, e) == 0 <==> q == e
    {
      AheadFacts(q, e);
    }
  }

  ghost predicate Inv(s: Session) {
    && |s.buffer.waiting| <= CAPACITY
    && s.buffer.consecutiveLoss <= MAX_CONSECUTIVE_LOSS
    && SlotsPlayedAsAccepted(s)
    && NumbersFit(s.first, s.accepted)
    && (s.buffer.started ==> s.buffer.initialized)
    && (!s.buffer.started && s.buffer.initialized ==> s.slots == 0)
    && (!s.buffer.initialized ==> s.buffer == EMPTY)
    && (s.buffer.initialized ==>
          && s.buffer.expected == (s.first + s.slots) % WRAP_16
          && Tracks(s.buffer.waiting, s.buffer.expected, s.slots, s.accepted))
  }

  lemma AheadFacts(q: uint16, e: uint16)
    ensures Ahead(q, e) == 0 <==> q == e
    ensures Ahead(q, Succ16(e)) == if q == e then WRAP_16 - 1 else Ahead(q, e) - 1
    ensures (e + Ahead(q, e)) % WRAP_16 == q
  {
  }

  lemma AheadIsInjective(q: uint16, q': uint16, e: uint16)
    requires Ahead(q, e) == Ahead(q', e)
    ensures q == q'
  {
    AheadFacts(q, e);
    AheadFacts(q', e);
  }

  lemma NumbersFitInsert(first: uint16, accepted: map<nat, Frame>, n: nat, f: Frame)
    requires NumbersFit(first, accepted) && f.sequence == (first + n) % WRAP_16
    ensures NumbersFit(first, accepted[n := f])
  {
  }

  /** A frame taken for its slot. */
  lemma AcceptedKeepsInv(s: Session, f: Frame, endReceived: bool)
    requires Inv(s) && s.buffer.initialized && |s.buffer.waiting| < CAPACITY
    ensures Inv(s.(buffer := s.buffer.(waiting := s.buffer.waiting[f.sequence := f],
                                       endReceived := endReceived),
                   accepted := s.accepted[NumberOf(s, f.sequence) := f]))
  {
    hide Ahead, Tracks, NumbersFit;
    NumberedAsSent(s, f.sequence);
    NumbersFitInsert(s.first, s.accepted, NumberOf(s, f.sequence), f);
    TracksInsert(s.buffer.waiting, s.buffer.expected, s.slots, s.accepted, f.sequence, f);
    NumberIsAhead(s, f.sequence);
  }

  lemma ArrivalKeepsInv(s: Session, p: Packet, at: nat)
    requires Inv(s)
    ensures Inv(Step(s, Arrive(p, at)))
  {
    hide Inv, Received, NumberOf;
    ReceivedBuffer(s.buffer, p, at);
    var (b, result) := Received(s.buffer, p, at);
    if result.Accepted? {
      if p.start {
        FirstFrameKeepsInv(p, at);
      } else {
        AcceptedKeepsInv(s, ToFrame(p, at), b.endReceived);
      }
    }
  }

  /** What an arrival leaves: the buffer as it was, a fresh one with the first frame of a stream, or
      one frame more. */
  lemma ReceivedBuffer(b: Buffer, p: Packet, at: nat)
    ensures var (b', result) := Received(b, p, at);
            if !result.Accepted? then b' == b
            else if p.start then b' == FirstFrameOnly(p, at)
            else
              && b.initialized && |b.waiting| < CAPACITY
              && b' == b.(waiting := b.waiting[p.sequence := ToFrame(p, at)],
                          endReceived := b'.endReceived)
  {
    hide SequenceDelta;
  }

  function FirstFrameOnly(p: Packet, at: nat): Buffer {
    StreamStarted(p, at).(waiting := map[p.sequence := ToFrame(p, at)], endReceived := p.end)
  }

  lemma FirstFrameKeepsInv(p: Packet, at: nat)
    ensures Inv(Session(FirstFrameOnly(p, at), p.sequence, 0, map[0 := ToFrame(p, at)], []))
  {
    hide Tracks;
    FirstFrameTracks(p.sequence, ToFrame(p, at));
  }

  lemma NumberIsAhead(s: Session, q: uint16)
    ensures NumberOf(s, q) >= s.slots
  {
  }

  lemma FirstFrameTracks(e: uint16, f: Frame)
    ensures Tracks(map[e := f], e, 0, map[0 := f])
  {
    hide Ahead;
    forall q: uint16
      ensures Ahead(q, e) == 0 <==> q == e
    {
      AheadFacts(q, e);
    }
  }

  lemma NumberedAsSent(s: Session, q: uint16)
    requires s.buffer.expected == (s.first + s.slots) % WRAP_16
    ensures (s.first + NumberOf(s, q)) % WRAP_16 == q
  {
    var e := s.buffer.expected;
    AheadFacts(q, e);
    SumAfterWrap(s.first + s.slots, Ahead(q, e), WRAP_16);
  }

  const START_OF_RUN := Session(EMPTY, 0, 0, map[], [])

  lemma RunStartsOk()
    ensures Inv(START_OF_RUN)
  {
  }

  lemma SuccessorOfSum(n: nat)
    ensures Succ16(n % WRAP_16) == (n + 1) % WRAP_16
  {
    SumAfterWrap(n, 1, WRAP_16);
  }

  /** One more slot, played as its acceptance says. */
  lemma SlotPlayed(s: Session, s': Session)
    requires SlotsPlayedAsAccepted(s)
    requires s'.slots == s.slots + 1 && s'.accepted == s.accepted
    requires s'.played == s.played +
             [if s.slots in s.accepted then Some(s.accepted[s.slots]) else None]
    ensures SlotsPlayedAsAccepted(s')
  {
  }

  lemma TickKeepsInv(s: Session, at: nat)
    requires Inv(s)
    ensures Inv(Step(s, Tick(at)))
  {
    hide AfterPlay, AfterLoss, Tracks, NumbersFit, SlotsPlayedAsAccepted;
    var (b, result) := Pop(s.buffer, at);
    if result.Finished? {
      assert b == EMPTY by { RunOut(s.buffer); }
      RunStartsOk();
    } else if !result.Wait? {
      SlotKeepsInv(s, Step(s, Tick(at)), result.Play?);
    }
  }

  lemma RunOut(b: Buffer)
    ensures b.consecutiveLoss + 1 > MAX_CONSECUTIVE_LOSS ==> AfterLoss(b) == EMPTY
  {
  }

  lemma SlotKeepsInv(s: Session, s': Session, play: bool)
    requires Inv(s) && s.buffer.initialized
    requires play == (s.buffer.expected in s.buffer.waiting)
    requires !play ==> s.buffer.consecutiveLoss < MAX_CONSECUTIVE_LOSS
    requires s' == Session(if play then AfterPlay(s.buffer) else AfterLoss(s.buffer),
                           s.first, s.slots + 1, s.accepted,
                           s.played + [if play then Some(s.buffer.waiting[s.buffer.expected])
                                       else None])
    ensures Inv(s')
  {
    hide Ahead, Tracks, SlotsPlayedAsAccepted, Succ16, NumbersFit;
    var e := s.buffer.expected;
    TracksAdvance(s.buffer.waiting, e, s.slots, s.accepted);
    SlotPlayed(s, s');
    if s'.buffer != EMPTY {
      OneFrameLess(s.buffer.waiting, e);
      NextBufferKeepsInv(s, s');
    }
  }

  lemma NextBufferKeepsInv(s: Session, s': Session)
    requires Inv(s) && s.buffer.initialized
    requires s'.buffer.waiting == s.buffer.waiting - {s.buffer.expected}
    requires |s'.buffer.waiting| <= CAPACITY
    requires s'.buffer.expected == Succ16(s.buffer.expected)
    requires s'.buffer.consecutiveLoss <= MAX_CONSECUTIVE_LOSS
    requires s'.buffer.initialized && s'.buffer.started
    requires s'.first == s.first && s'.slots == s.slots + 1 && s'.accepted == s.accepted
    requires SlotsPlayedAsAccepted(s')
    ensures Inv(s')
  {
    hide Ahead, Tracks, SlotsPlayedAsAccepted, Succ16, NumbersFit;
    TracksAdvance(s.buffer.waiting, s.buffer.expected, s.slots, s.accepted);
    NextExpected(s);
  }

  lemma NextExpected(s: Session)
    requires s.buffer.expected == (s.first + s.slots) % WRAP_16
    ensures Succ16(s.buffer.expected) == (s.first + (s.slots + 1)) % WRAP_16
  {
    hide Succ16;
    SuccessorOfSum(s.first + s.slots);
    assert s.first + s.slots + 1 == s.first + (s.slots + 1);
  }

  lemma OneFrameLess(waiting: map<uint16, Frame>, e: uint16)
    ensures |waiting - {e}| <= |waiting|
    ensures e !in waiting ==> waiting - {e} == waiting
  {
    if e in waiting {
      assert (waiting - {e})[e := waiting[e]] == waiting;
    } else {
      assert waiting - {e} == waiting;
    }
  }

  lemma {:induction false} RunKeepsInv(s: Session, events: seq<Event>)
    requires Inv(s)
    ensures Inv(Run(s, events))
    decreases |events|
  {
    if events != [] {
      match events[0]
      case Arrive(p, at) => ArrivalKeepsInv(s, p, at); RunKeepsInv(Step(s, events[0]), events[1..]);
      case Tick(at) => TickKeepsInv(s, at); RunKeepsInv(Step(s, events[0]), events[1..]);
    }
  }

  /** Over every run of arrivals and pops, slot k of a stream stands for wire number first + k, and
      plays a frame exactly when one was accepted for it in time: that frame, and only there. */
  lemma EverySlotPlaysItsFrame(events: seq<Event>)
    ensures var s := Run(START_OF_RUN, events); SlotsPlayedAsAccepted(s) && NumbersFit(s.first, s.accepted)
  {
    RunKeepsInv(START_OF_RUN, events);
  }

  // ----- the stream ends -----

  /** Pops left, at most, until FINISHED when nothing more arrives. */
  function PopsLeft(b: Buffer): int {
    if b.initialized then 6 * |b.waiting| + 6 - b.consecutiveLoss else 1
  }

  lemma EachPopUsesOneUp(b: Buffer, nowMs: nat)
    requires b.consecutiveLoss <= MAX_CONSECUTIVE_LOSS
    ensures var (b', result) := Pop(b, nowMs);
            && b'.consecutiveLoss <= MAX_CONSECUTIVE_LOSS
            && (result.Wait? <==> b.initialized && MustWait(b, nowMs))
            && (result.Wait? ==> b' == b)
            && (!result.Wait? && !result.Finished? ==> PopsLeft(b') < PopsLeft(b))
            && (PopsLeft(b) <= 1 && !result.Wait? ==> result.Finished?)
  {
    if b.initialized && b.expected in b.waiting {
      assert |b.waiting - {b.expected}| == |b.waiting| - 1;
    }
  }

  /** Some pop among these, made one after another with no arrivals between, reports FINISHED. */
  ghost predicate Finishes(b: Buffer, times: seq<nat>)
    decreases |times|
  {
    times != [] &&
    (Pop(b, times[0]).1.Finished? || Finishes(Pop(b, times[0]).0, times[1..]))
  }

  /** The pops of such a run that do not answer WAIT. */
  function Busy(b: Buffer, times: seq<nat>): nat
    decreases |times|
  {
    if times == [] then 0
    else (if Pop(b, times[0]).1.Wait? then 0 else 1) + Busy(Pop(b, times[0]).0, times[1..])
  }

  lemma {:induction false} FinishesByCount(b: Buffer, times: seq<nat>)
    requires b.consecutiveLoss <= MAX_CONSECUTIVE_LOSS
    requires Busy(b, times) >= PopsLeft(b)
    ensures Finishes(b, times)
    decreases |times|
  {
    if times != [] {
      EachPopUsesOneUp(b, times[0]);
      var (b', result) := Pop(b, times[0]);
      if !result.Finished? {
        FinishesByCount(b', times[1..]);
      }
    }
  }

  /** From any reachable buffer, once packets stop, FINISHED comes within 6 * count + 6 pops
      that do not answer WAIT. */
  lemma FinishedWithinSixPerFrame(events: seq<Event>, times: seq<nat>)
    requires var b := Run(START_OF_RUN, events).buffer;
             Busy(b, times) >= 6 * |b.waiting| + 6
    ensures Finishes(Run(START_OF_RUN, events).buffer, times)
  {
    RunKeepsInv(START_OF_RUN, events);
    FinishesByCount(Run(START_OF_RUN, events).buffer, times);
  }

  /** The expected frame and its successor wait exactly when their slots were accepted. */
  lemma NextTwoSlots(waiting: map<uint16, Frame>, e: uint16, slots: nat, accepted: map<nat, Frame>)
    requires Tracks(waiting, e, slots, accepted)
    ensures e in waiting <==> slots in accepted
    ensures Succ16(e) in waiting <==> slots + 1 in accepted
    ensures Succ16(e) in waiting ==> waiting[Succ16(e)] == accepted[slots + 1]
  {
    hide Ahead, Succ16;
    AheadFacts(e, e);
    SuccessorIsOneAhead(e);
  }

  lemma SuccessorIsOneAhead(e: uint16)
    ensures Ahead(Succ16(e), e) == 1
  {
  }

  /** A lost slot is concealed from the following frame exactly when that one is already here. */
  lemma LostSlotIsConcealed(s: Session, atMs: nat)
    requires Inv(s) && s.buffer.initialized && !MustWait(s.buffer, atMs)
    ensures var result := Pop(s.buffer, atMs).1;
            && (result.Play? <==> s.slots in s.accepted)
            && (result.Fec? ==> s.slots + 1 in s.accepted && result.next == s.accepted[s.slots + 1])
            && (result.Plc? ==> s.slots + 1 !in s.accepted)
            && (result.Fec? || result.Plc? ==> result.missing == (s.first + s.slots) % WRAP_16)
  {
    hide AfterPlay, AfterLoss, NumbersFit, SlotsPlayedAsAccepted, MustWait, Tracks, Succ16;
    NextTwoSlots(s.buffer.waiting, s.buffer.expected, s.slots, s.accepted);
  }

  /** Once playing, a packet of the stream is taken exactly when its slot is still to come within
      half the number space, nothing was accepted for that slot, and there is room. */
  lemma PlayingBufferAccepts(s: Session, p: Packet, at: nat)
    requires Inv(s) && s.buffer.started
    requires p.wellFormed && p.senderId != 0 && !p.start && p.streamId == s.buffer.streamId
    ensures Received(s.buffer, p, at).1 == Accepted <==>
            && NumberOf(s, p.sequence) < s.slots + 0x8000
            && NumberOf(s, p.sequence) !in s.accepted
            && |s.buffer.waiting| < CAPACITY
  {
  }

  lemma WaitingIsAccepted(s: Session, q: uint16)
    requires Inv(s) && s.buffer.initialized
    ensures q in s.buffer.waiting <==> NumberOf(s, q) in s.accepted
  {
    hide Ahead, NumbersFit, SlotsPlayedAsAccepted;
  }

  /** A packet of the stream whose number lies before the next one to play is dropped once playout
      has begun. Before that nothing is late: it is taken, under the same conditions as any other,
      for a slot at least half a wrap ahead. */
  lemma EarlierPacketIsTakenExactlyWhen(s: Session, p: Packet, at: nat)
    requires Inv(s) && s.buffer.initialized
    requires p.wellFormed && p.senderId != 0 && !p.start && p.streamId == s.buffer.streamId
    requires SequenceDelta(p.sequence, s.buffer.expected) < 0
    ensures var (b, result) := Received(s.buffer, p, at);
            && (result == Accepted <==>
                  && !s.buffer.started && NumberOf(s, p.sequence) !in s.accepted
                  && |s.buffer.waiting| < CAPACITY)
            && (s.buffer.started ==> result == Late)
            && (result == Accepted ==>
                  && NumberOf(s, p.sequence) >= s.slots + 0x8000
                  && Step(s, Arrive(p, at)).accepted
                     == s.accepted[NumberOf(s, p.sequence) := ToFrame(p, at)])
  {
    hide Inv;
    WaitingIsAccepted(s, p.sequence);
  }

  /** Such a run: after the first frame of a stream, any packet of the stream with an earlier number
      is taken at once. */
  lemma EarlierPacketAfterStart(start: Packet, p: Packet, at: nat)
    requires start.wellFormed && start.senderId != 0 && start.start
    requires p.wellFormed && p.senderId != 0 && !p.start && p.streamId == start.streamId
    requires SequenceDelta(p.sequence, start.sequence) < 0
    ensures var s := Run(START_OF_RUN, [Arrive(start, at), Arrive(p, at)]);
            var number := Ahead(p.sequence, start.sequence);
            && number >= 0x8000 && number in s.accepted
            && s.accepted[number] == ToFrame(p, at) && s.slots == 0
  {
    hide Inv;
    var first := Step(START_OF_RUN, Arrive(start, at));
    RunStartsOk();
    ArrivalKeepsInv(START_OF_RUN, start, at);
    assert first.accepted == map[0 := ToFrame(start, at)];
    EarlierPacketIsTakenExactlyWhen(first, p, at);
    var second := Step(first, Arrive(p, at));
    assert [Arrive(start, at), Arrive(p, at)][1..] == [Arrive(p, at)];
    assert [Arrive(p, at)][1..] == [];
    assert Run(second, []) == second;
    assert Run(first, [Arrive(p, at)]) == second;
  }

  // ----- the buffer as the source stores it -----

  ghost predicate Distinct(frames: seq<Frame>) {
    forall i, j :: 0 <= i < j < |frames| ==> frames[i].sequence != frames[j].sequence
  }

  /** The frames of an unordered array, by sequence number. */
  ghost function ByNumber(frames: seq<Frame>): map<uint16, Frame>
    requires Distinct(frames)
  {
    map i | 0 <= i < |frames| :: frames[i].sequence := frames[i]
  }

  lemma ByNumberAppend(frames: seq<Frame>, f: Frame)
    requires Distinct(frames)
    requires forall i :: 0 <= i < |frames| ==> frames[i].sequence != f.sequence
    ensures Distinct(frames + [f])
    ensures ByNumber(frames + [f]) == ByNumber(frames)[f.sequence := f]
  {
    var all := frames + [f];
    var m, m' := ByNumber(frames)[f.sequence := f], ByNumber(all);
    forall q: uint16
      ensures q in m <==> q in m'
      ensures q in m ==> m[q] == m'[q]
    {
      if q in ByNumber(frames) {
        var i :| 0 <= i < |frames| && frames[i].sequence == q;
        assert all[i] == frames[i];
      } else if q == f.sequence {
        assert all[|frames|] == f;
      }
    }
  }

  function Without(frames: seq<Frame>, index: nat): (rest: seq<Frame>)
    requires index < |frames|
    ensures |rest| == |frames| - 1
    ensures forall i :: 0 <= i < |rest| ==> rest[i] == frames[if i < index then i else i + 1]
  {
    frames[..index] + frames[index + 1..]
  }

  lemma ByNumberRemove(frames: seq<Frame>, index: nat)
    requires Distinct(frames) && index < |frames|
    ensures Distinct(Without(frames, index))
    ensures ByNumber(Without(frames, index)) == ByNumber(frames) - {frames[index].sequence}
  {
    hide Without, Distinct, ByNumber;
    WithoutIsDistinct(frames, index);
    var rest := Without(frames, index);
    var m, m' := ByNumber(frames) - {frames[index].sequence}, ByNumber(rest);
    forall q: uint16
      ensures q in m <==> q in m'
      ensures q in m ==> m[q] == m'[q]
    {
      RemovedNumber(frames, index, q);
    }
    assert m.Keys == m'.Keys;
  }

  lemma WithoutIsDistinct(frames: seq<Frame>, index: nat)
    requires Distinct(frames) && index < |frames|
    ensures Distinct(Without(frames, index))
  {
    hide Without;
  }

  lemma RemovedNumber(frames: seq<Frame>, index: nat, q: uint16)
    requires Distinct(frames) && index < |frames| && Distinct(Without(frames, index))
    ensures var m, m' := ByNumber(frames), ByNumber(Without(frames, index));
            && (q in m' <==> q in m && q != frames[index].sequence)
            && (q in m' ==> m[q] == m'[q])
  {
    hide Without, ByNumber;
    var rest := Without(frames, index);
    InByNumber(frames, q);
    InByNumber(rest, q);
    if q in ByNumber(frames) && q != frames[index].sequence {
      var i :| 0 <= i < |frames| && frames[i].sequence == q;
      assert rest[if i < index then i else i - 1] == frames[i];
    }
  }

  lemma InByNumber(frames: seq<Frame>, q: uint16)
    requires Distinct(frames)
    ensures q in ByNumber(frames) <==> exists i :: 0 <= i < |frames| && frames[i].sequence == q
    ensures forall i :: 0 <= i < |frames| && frames[i].sequence == q ==> ByNumber(frames)[q] == frames[i]
  {
  }

  lemma {:induction false} ByNumberSize(frames: seq<Frame>)
    requires Distinct(frames)
    ensures |ByNumber(frames)| == |frames|
  {
    if frames == [] {
      assert ByNumber(frames) == map[];
    } else {
      hide ByNumber, Distinct;
      var front, last := frames[..|frames| - 1], frames[|frames| - 1];
      LastNumber(frames);
      ByNumberSize(front);
      ByNumberAppend(front, last);
      assert frames == front + [last];
    }
  }

  lemma LastNumber(frames: seq<Frame>)
    requires Distinct(frames) && frames != []
    ensures var front, last := frames[..|frames| - 1], frames[|frames| - 1];
            && Distinct(front) && last.sequence !in ByNumber(front)
            && forall i :: 0 <= i < |front| ==> front[i].sequence != last.sequence
  {
  }

  class JitterBuffer {
    const frames: array<Frame>
    var count: nat
    var streamId: uint32
    var firstArrivalMs: nat
    var expectedSequence: uint16
    var consecutiveLoss: nat
    var initialized: bool
    var started: bool
    var endReceived: bool

    ghost predicate Valid()
      reads this, frames
    {
      && frames.Length == CAPACITY
      && count <= CAPACITY
      && Distinct(frames[..count])
    }

    ghost function Model(): Buffer
      requires Valid()
      reads this, frames
    {
      Buffer(ByNumber(frames[..count]), streamId, firstArrivalMs, expectedSequence,
             consecutiveLoss, initialized, started, endReceived)
    }

    constructor ()
      ensures Valid() && fresh(frames) && Model() == EMPTY
    {
      frames := new Frame[CAPACITY];
      count, streamId, firstArrivalMs, expectedSequence, consecutiveLoss := 0, 0, 0, 0, 0;
      initialized, started, endReceived := false, false, false;
    }

    method Reset()
      requires Valid()
      modifies this
      ensures Valid() && Model() == EMPTY
    {
      count, streamId, firstArrivalMs, expectedSequence, consecutiveLoss := 0, 0, 0, 0, 0;
      initialized, started, endReceived := false, false, false;
    }

    method FindSequence(sequence: uint16) returns (index: int)
      requires Valid()
      ensures -1 <= index < count
      ensures index >= 0 ==> frames[index].sequence == sequence
      ensures index < 0 ==> forall i :: 0 <= i < count ==> frames[i].sequence != sequence
    {
      for i := 0 to count
        invariant forall k :: 0 <= k < i ==> frames[k].sequence != sequence
      {
        if frames[i].sequence == sequence {
          return i;
        }
      }
      return -1;
    }

    method FindNextSequence() returns (index: int)
      requires Valid()
      ensures -1 <= index < count
      ensures index >= 0 ==> frames[index].sequence == Succ16(expectedSequence)
      ensures index < 0 ==>
                forall i :: 0 <= i < count ==> frames[i].sequence != Succ16(expectedSequence)
    {
      for i := 0 to count
        invariant forall k :: 0 <= k < i ==> frames[k].sequence != Succ16(expectedSequence)
      {
        if SequenceDelta(frames[i].sequence, expectedSequence) == 1 {
          return i;
        }
      }
      return -1;
    }

    /** Take out one frame and close the gap it leaves. */
    method RemoveFrame(index: nat) returns (frame: Frame)
      requires Valid() && index < count
      modifies `count, frames
      ensures Valid() && frame == old(frames[index])
      ensures frames[..count] == Without(old(frames[..count]), index)
    {
      hide Without;
      ghost var before := frames[..count];
      frame := frames[index];
      forall i | index <= i < count - 1 {
        frames[i] := frames[i + 1];
      }
      count := count - 1;
      assert frames[..count] == Without(before, index);
      ByNumberRemove(before, index);
    }

    method StartStream(packet: Packet, arrivalMs: nat)
      requires Valid()
      modifies this
      ensures Valid() && Model() == StreamStarted(packet, arrivalMs)
    {
      Reset();
      streamId, expectedSequence := packet.streamId, packet.sequence;
      firstArrivalMs, initialized := arrivalMs, true;
    }

    /** Store a frame whose number is not in the buffer yet. */
    method Append(frame: Frame)
      requires Valid() && count < CAPACITY
      requires forall i :: 0 <= i < count ==> frames[i].sequence != frame.sequence
      modifies `count, frames
      ensures Valid() && frames[..count] == old(frames[..count]) + [frame]
    {
      ByNumberAppend(frames[..count], frame);
      frames[count] := frame;
      count := count + 1;
      assert frames[..count] == old(frames[..count]) + [frame];
    }

    method Push(packet: Packet, arrivalMs: nat) returns (result: PushResult)
      requires Valid()
      modifies this, frames
      ensures Valid()
      ensures (Model(), result) == Received(old(Model()), packet, arrivalMs)
    {
      hide ByNumber, SequenceDelta;
      if !packet.wellFormed || packet.senderId == 0 {
        return Invalid;
      }
      if packet.start {
        StartStream(packet, arrivalMs);
      } else if !initialized || streamId != packet.streamId {
        return StreamNotStarted;
      }
      if started && SequenceDelta(packet.sequence, expectedSequence) < 0 {
        return Late;
      }
      var index := FindSequence(packet.sequence);
      ghost var before := frames[..count];
      InByNumber(before, packet.sequence);
      if index >= 0 {
        assert before[index].sequence == packet.sequence;
        return Duplicate;
      }
      ByNumberSize(before);
      if count >= CAPACITY {
        return Overflow;
      }
      ByNumberAppend(before, ToFrame(packet, arrivalMs));
      Append(ToFrame(packet, arrivalMs));
      endReceived := endReceived || packet.end;
      return Accepted;
    }

    /** Stand in for the expected frame, which is missing; give up after too many in a row. */
    method Conceal() returns (result: PopResult)
      requires Valid() && initialized && started
      requires expectedSequence !in ByNumber(frames[..count])
      modifies this
      ensures Valid()
      ensures (Model(), result) == Pop(old(Model()), 0)
    {
      hide ByNumber;
      InByNumber(frames[..count], Succ16(expectedSequence));
      var index := FindNextSequence();
      if index >= 0 {
        assert frames[..count][index].sequence == Succ16(expectedSequence);
        result := Fec(frames[index], expectedSequence);
      } else {
        result := Plc(expectedSequence);
      }
      expectedSequence, consecutiveLoss := Succ16(expectedSequence), consecutiveLoss + 1;
      if consecutiveLoss > MAX_CONSECUTIVE_LOSS {
        Reset();
        result := Finished;
      }
    }

    /** Play the expected frame, found at an index. */
    method PlayFrame(index: nat) returns (result: PopResult)
      requires Valid() && initialized && started
      requires index < count && frames[index].sequence == expectedSequence
      modifies this, frames
      ensures Valid()
      ensures (Model(), result) == Pop(old(Model()), 0)
    {
      hide ByNumber;
      ghost var before := frames[..count];
      InByNumber(before, expectedSequence);
      assert before[index].sequence == expectedSequence;
      ByNumberRemove(before, index);
      var frame := RemoveFrame(index);
      expectedSequence, consecutiveLoss := Succ16(expectedSequence), 0;
      if frame.end {
        Reset();
      }
      return Play(frame, frame.end);
    }

    method PopNext(nowMs: nat) returns (result: PopResult)
      requires Valid()
      modifies this, frames
      ensures Valid()
      ensures (Model(), result) == Pop(old(Model()), nowMs)
    {
      hide ByNumber;
      if !initialized {
        return Finished;
      }
      ghost var before := frames[..count];
      ByNumberSize(before);
      InByNumber(before, expectedSequence);
      if !started {
        var delayElapsed := nowMs < firstArrivalMs || nowMs - firstArrivalMs >= MAX_START_DELAY_MS;
        if count < TARGET_FRAMES && !endReceived && !delayElapsed {
          return Wait;
        }
        started := true;
      }
      var index := FindSequence(expectedSequence);
      if index >= 0 {
        assert before[index].sequence == expectedSequence;
        result := PlayFrame(index);
        return;
      }
      result := Conceal();
    }
  }
}
