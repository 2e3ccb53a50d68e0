/** From the worker's numbered stream to the jitter buffer's slots: loss, repetition and bounded
    reordering on the way never put a frame into another frame's place. */
module VoicePath {
  import opened Sequences
  import opened Serial
  import opened Jitter
  import Wire = VoiceWire

  /** A stream as the worker numbers it, finished or still being sent. */
  ghost predicate IsStream(stream: seq<Wire.WireFrame>, id: uint32) {
    Wire.IsOpenStream(stream, id) || Wire.IsWholeStream(stream, id)
  }

  /** The packet of the i-th frame, as the server passes it on. */
  function PacketOf(f: Wire.WireFrame, sender: uint32): Packet {
    Packet(true, sender, f.streamId, f.timestamp, f.sequence, f.flag.Start?, f.flag.End?, f.payload)
  }

  lemma FrameAt(stream: seq<Wire.WireFrame>, id: uint32, i: nat)
    requires IsStream(stream, id) && i < |stream|
    ensures stream[i].streamId == id && stream[i].sequence == i % WRAP_16
    ensures stream[i].flag.Start? <==> i == 0
  {
    if i < |stream| - 1 && Wire.IsWholeStream(stream, id) {
      assert stream[..|stream| - 1][i] == stream[i];
    }
  }

  /** A frame of the stream arrives, by its place in the stream, or a pop is made. */
  datatype Event = Deliver(index: nat, atMs: nat) | Play(atMs: nat)

  function After(s: Session, stream: seq<Wire.WireFrame>, sender: uint32, e: Event): Session {
    match e
    case Deliver(index, at) =>
      if index < |stream| then Step(s, Arrive(PacketOf(stream[index], sender), at)) else s
    case Play(at) => Step(s, Tick(at))
  }

  /** A frame arrives less than half the number space before or after the slot to play next; the
      first frame of a stream, and any frame while no stream plays, may come at any time. */
  predicate IsTimely(s: Session, e: Event) {
    e.Deliver? && e.index > 0 && s.buffer.initialized ==>
      s.slots < e.index + 0x8000 && e.index < s.slots + 0x8000
  }

  function AfterAll(stream: seq<Wire.WireFrame>, sender: uint32, events: seq<Event>): Session {
    if events == [] then START_OF_RUN
    else
      After(AfterAll(stream, sender, events[..|events| - 1]), stream, sender,
            events[|events| - 1])
  }

  ghost predicate AllTimely(stream: seq<Wire.WireFrame>, sender: uint32, events: seq<Event>) {
    forall i :: 0 <= i < |events| ==> IsTimely(AfterAll(stream, sender, events[..i]), events[i])
  }

  /** Every frame accepted for a slot is the stream's frame of that number. */
  ghost predicate HoldsStream(s: Session, stream: seq<Wire.WireFrame>) {
    forall k :: k in s.accepted ==>
      && k < |stream|
      && s.accepted[k].payload == stream[k].payload
      && s.accepted[k].timestamp == stream[k].timestamp
  }

  ghost predicate Matches(s: Session, stream: seq<Wire.WireFrame>, id: uint32) {
    && Inv(s) && HoldsStream(s, stream)
    && (s.buffer.initialized ==> s.first == 0 && s.buffer.streamId == id)
  }

  /** A timely number stands for its own place in the stream, or for a slot that has passed. */
  lemma NumberIsThePlace(s: Session, index: nat)
    requires Inv(s) && s.buffer.initialized && s.first == 0
    requires s.slots < index + 0x8000 && index < s.slots + 0x8000
    ensures index >= s.slots ==> NumberOf(s, index % WRAP_16) == index
    ensures index < s.slots ==>
              s.buffer.started && SequenceDelta(index % WRAP_16, s.buffer.expected) < 0
    ensures index >= s.slots ==> SequenceDelta(index % WRAP_16, s.buffer.expected) >= 0
  {
    hide Tracks, NumbersFit, SlotsPlayedAsAccepted;
    assert s.buffer.expected == s.slots % WRAP_16;
    if index >= s.slots {
      DistanceAhead(index, s.slots);
    } else {
      DistanceBehind(index, s.slots);
    }
  }

  lemma DistanceAhead(index: nat, slots: nat)
    requires slots <= index < slots + WRAP_16
    ensures Ahead(index % WRAP_16, slots % WRAP_16) == index - slots
  {
  }

  lemma DistanceBehind(index: nat, slots: nat)
    requires index < slots < index + WRAP_16
    ensures Ahead(index % WRAP_16, slots % WRAP_16) == WRAP_16 - (slots - index)
  {
  }

  lemma DeliveryKeepsMatch(s: Session, stream: seq<Wire.WireFrame>, id: uint32, sender: uint32,
                           index: nat, at: nat)
    requires IsStream(stream, id) && sender != 0 && index < |stream|
    requires Matches(s, stream, id) && IsTimely(s, Deliver(index, at))
    ensures Matches(After(s, stream, sender, Deliver(index, at)), stream, id)
  {
    hide IsStream, Inv, NumberOf, SequenceDelta;
    var p := PacketOf(stream[index], sender);
    FrameAt(stream, id, index);
    ArrivalKeepsInv(s, p, at);
    if s.buffer.initialized && index > 0 {
      NumberIsThePlace(s, index);
    }
  }

  lemma TickKeepsMatch(s: Session, stream: seq<Wire.WireFrame>, id: uint32, at: nat)
    requires Matches(s, stream, id)
    ensures Matches(Step(s, Tick(at)), stream, id)
  {
    hide Inv, MustWait;
    TickKeepsInv(s, at);
    if Pop(s.buffer, at).1.Finished? {
      FinishedIsEmpty(s, at);
    }
  }

  lemma FinishedIsEmpty(s: Session, at: nat)
    requires Inv(s) && Pop(s.buffer, at).1.Finished?
    ensures !Pop(s.buffer, at).0.initialized
  {
    hide Tracks, NumbersFit, SlotsPlayedAsAccepted;
    if s.buffer.initialized {
      RunOut(s.buffer);
    }
  }

  lemma {:induction false} RunKeepsMatch(stream: seq<Wire.WireFrame>, id: uint32, sender: uint32,
                                         events: seq<Event>)
    requires IsStream(stream, id) && sender != 0 && AllTimely(stream, sender, events)
    ensures Matches(AfterAll(stream, sender, events), stream, id)
  {
    hide Matches, IsStream, IsTimely;
    if events == [] {
      StartMatches(stream, id);
    } else {
      var n := |events| - 1;
      var front, e := events[..n], events[n];
      assert forall i :: 0 <= i < n ==> front[..i] == events[..i] && front[i] == events[i];
      RunKeepsMatch(stream, id, sender, front);
      var s := AfterAll(stream, sender, front);
      match e
      case Deliver(index, at) =>
        if index < |stream| {
          DeliveryKeepsMatch(s, stream, id, sender, index, at);
        }
      case Play(at) => TickKeepsMatch(s, stream, id, at);
    }
  }

  lemma StartMatches(stream: seq<Wire.WireFrame>, id: uint32)
    ensures Matches(START_OF_RUN, stream, id)
  {
    RunStartsOk();
  }

  /** For every stream of the worker and every timely delivery of its frames, with losses,
      repetitions and reordering: slot k plays the k-th frame of the stream or conceals it; no other
      frame is ever played there. */
  lemma SlotPlaysItsOwnFrame(stream: seq<Wire.WireFrame>, id: uint32, sender: uint32,
                             events: seq<Event>, k: nat)
    requires IsStream(stream, id) && sender != 0 && AllTimely(stream, sender, events)
    ensures var s := AfterAll(stream, sender, events);
            |s.played| == s.slots
            && (k < s.slots && s.played[k].Some? ==>
                  && k < |stream|
                  && s.played[k].value.payload == stream[k].payload
                  && s.played[k].value.timestamp == stream[k].timestamp)
  {
    hide IsStream, AllTimely, AfterAll, Tracks, NumbersFit;
    RunKeepsMatch(stream, id, sender, events);
  }

  /** A frame that arrives before its slot is played, into a buffer with room, is held for that slot:
      with the statement above, it is what the slot plays. */
  lemma TimelyFrameGetsItsSlot(stream: seq<Wire.WireFrame>, id: uint32, sender: uint32,
                               events: seq<Event>, index: nat, at: nat)
    requires IsStream(stream, id) && sender != 0 && AllTimely(stream, sender, events)
    requires 0 < index < |stream|
    requires var s := AfterAll(stream, sender, events);
             && s.buffer.initialized && s.slots <= index < s.slots + 0x8000
             && |s.buffer.waiting| < CAPACITY
    ensures var s := After(AfterAll(stream, sender, events), stream, sender, Deliver(index, at));
            && index in s.accepted
            && s.accepted[index].payload == stream[index].payload
  {
    hide IsStream, AllTimely, AfterAll, Tracks, NumbersFit, SlotsPlayedAsAccepted, NumberOf,
      SequenceDelta;
    RunKeepsMatch(stream, id, sender, events);
    var s := AfterAll(stream, sender, events);
    FrameAt(stream, id, index);
    NumberIsThePlace(s, index);
    WaitingIsAccepted(s, stream[index].sequence);
  }
}
