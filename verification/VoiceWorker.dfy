/** The voice worker's outgoing side: it numbers and brackets the frames of each talk stream and
    keeps a frame the full outbound queue refused in a one-slot overflow. */
module VoiceWorker {
  import opened Sequences
  import opened Serial
  import opened SpscRing
  import opened VoiceWire

  const QUEUE_CAPACITY: nat := 32

  /** What became of a captured frame that was taken from the queue. */
  datatype Fate = Said(pcm: Pcm) | Dropped(pcm: Pcm)

  function TakenOf(fates: seq<Fate>): (frames: seq<Pcm>)
    ensures |frames| == |fates|
    ensures forall i :: 0 <= i < |fates| ==> frames[i] == fates[i].pcm
  {
    seq(|fates|, i requires 0 <= i < |fates| => fates[i].pcm)
  }

  function AllDropped(frames: seq<Pcm>): (fates: seq<Fate>)
    ensures |fates| == |frames|
    ensures forall i :: 0 <= i < |frames| ==> fates[i] == Dropped(frames[i])
  {
    seq(|frames|, i requires 0 <= i < |frames| => Dropped(frames[i]))
  }

  /** The frames that were sent on, in order. */
  function SaidOf(fates: seq<Fate>): seq<Pcm> {
    if fates == [] then []
    else
      var last := fates[|fates| - 1];
      SaidOf(fates[..|fates| - 1]) + (if last.Said? then [last.pcm] else [])
  }

  lemma TakenAppend(a: seq<Fate>, b: seq<Fate>)
    ensures TakenOf(a + b) == TakenOf(a) + TakenOf(b)
  {
  }

  lemma TakenDropped(frames: seq<Pcm>)
    ensures TakenOf(AllDropped(frames)) == frames
  {
  }

  lemma {:induction false} SaidAppend(a: seq<Fate>, b: seq<Fate>)
    ensures SaidOf(a + b) == SaidOf(a) + SaidOf(b)
  {
    if b == [] {
      assert a + b == a;
    } else {
      var n := |b| - 1;
      assert (a + b)[..|a| + n] == a + b[..n];
      SaidAppend(a, b[..n]);
    }
  }

  lemma {:induction false} NoneSaid(fates: seq<Fate>)
    requires forall i :: 0 <= i < |fates| ==> fates[i].Dropped?
    ensures SaidOf(fates) == []
  {
    if fates != [] {
      NoneSaid(fates[..|fates| - 1]);
    }
  }

  lemma {:induction false} EachSaid(fates: seq<Fate>)
    requires forall i :: 0 <= i < |fates| ==> fates[i].Said?
    ensures SaidOf(fates) == TakenOf(fates)
  {
    if fates != [] {
      var n := |fates| - 1;
      EachSaid(fates[..n]);
      assert TakenOf(fates) == TakenOf(fates[..n]) + [fates[n].pcm];
    }
  }

  lemma OneSaid(fates: seq<Fate>, pcm: Pcm)
    ensures SaidOf(fates + [Said(pcm)]) == SaidOf(fates) + [pcm]
    ensures TakenOf(fates + [Said(pcm)]) == TakenOf(fates) + [pcm]
  {
    assert (fates + [Said(pcm)])[..|fates|] == fates;
  }

  // ----- the numbering, on values -----

  /** A stream is open: its id, and the number and time of its next frame. */
  ghost predicate IsOpened(attempts: seq<Attempt>, closed: seq<seq<Attempt>>, open: seq<Attempt>,
                           heard: seq<Pcm>, timestamp: uint32, streamId: uint32, sequence: uint16) {
    && Bracketed(attempts, closed, open)
    && Spoken(attempts) == heard
    && timestamp == TimestampAt(|Encoded(attempts)|)
    && streamId == StreamIdAfter(|closed| + 1)
    && sequence == NumberAt(|open|)
  }

  /** No stream is open. */
  ghost predicate IsBetween(attempts: seq<Attempt>, closed: seq<seq<Attempt>>, heard: seq<Pcm>,
                            timestamp: uint32, streamId: uint32) {
    && Bracketed(attempts, closed, [])
    && Spoken(attempts) == heard
    && timestamp == TimestampAt(|Encoded(attempts)|)
    && streamId == StreamIdAfter(|closed|)
  }

  /** The attempts carry what the encoder made of them, and failed where it made nothing. */
  ghost predicate CarryEncodings(attempts: seq<Attempt>, encodings: seq<Payload>) {
    && |attempts| == |encodings|
    && forall i :: 0 <= i < |attempts| ==>
         && attempts[i].frame.payload == encodings[i]
         && (attempts[i].ok <==> encodings[i] != [])
  }

  function Later(timestamp: uint32, ok: bool): uint32 {
    if ok then (timestamp + FRAME_SAMPLES) % WRAP_32 else timestamp
  }

  lemma StartsBetween()
    ensures IsBetween([], [], [], 0, 0) && Encoded([]) == [] && SaidOf([]) == []
    ensures CarryEncodings([], [])
  {
  }

  lemma OpensNext(attempts: seq<Attempt>, closed: seq<seq<Attempt>>, heard: seq<Pcm>,
                  timestamp: uint32, streamId: uint32)
    requires IsBetween(attempts, closed, heard, timestamp, streamId)
    ensures IsOpened(attempts, closed, [], heard, timestamp, NextStreamId(streamId), 0)
  {
    hide Bracketed, Spoken, Encoded, TimestampAt;
  }

  lemma SpeaksNext(attempts: seq<Attempt>, closed: seq<seq<Attempt>>, open: seq<Attempt>,
                   heard: seq<Pcm>, timestamp: uint32, streamId: uint32, sequence: uint16, a: Attempt)
    requires IsOpened(attempts, closed, open, heard, timestamp, streamId, sequence)
    requires a.frame.streamId == streamId && a.frame.sequence == sequence
    requires a.frame.flag == if open == [] then Start else Middle
    ensures IsOpened(attempts + [a], closed, open + [a], heard + [a.pcm], Later(timestamp, a.ok),
                     streamId, Succ16(sequence))
  {
    hide Bracketed, Spoken, Encoded, TimestampAt, NumberAt, StreamIdAfter, Succ16;
    NumberAdvances(|open|);
    TimestampAdvances(|Encoded(attempts)|);
    AppendAttempt(attempts, a);
    NextFrameStaysBracketed(attempts, closed, open, a);
  }

  lemma FinishesOpen(attempts: seq<Attempt>, closed: seq<seq<Attempt>>, open: seq<Attempt>,
                     heard: seq<Pcm>, timestamp: uint32, streamId: uint32, sequence: uint16,
                     a: Attempt)
    requires IsOpened(attempts, closed, open, heard, timestamp, streamId, sequence) && open != []
    requires a.frame.streamId == streamId && a.frame.sequence == sequence && a.frame.flag == End
    ensures IsBetween(attempts + [a], closed + [open + [a]], heard, Later(timestamp, a.ok), streamId)
  {
    hide Bracketed, Spoken, Encoded, TimestampAt, NumberAt, StreamIdAfter;
    TimestampAdvances(|Encoded(attempts)|);
    AppendAttempt(attempts, a);
    EndFrameClosesTheStream(attempts, closed, open, a);
  }

  class Worker {
    const captureQueue: Queue<Pcm>
    const outboundQueue: Queue<WireFrame>
    var pending: WireFrame
    var pendingValid: bool
    var streamActive: bool
    var streamId: uint32
    var timestamp: uint32
    var sequence: uint16

    // History of this lifetime.
    ghost var attempts: seq<Attempt>
    ghost var closed: seq<seq<Attempt>>   // the attempts of each finished stream
    ghost var open: seq<Attempt>          // and of the one still being sent
    ghost var sent: seq<WireFrame>        // frames the main thread has taken from the queue
    ghost var heard: seq<Pcm>             // captured frames taken while transmitting
    ghost var captured: seq<Pcm>          // everything the callback got into the queue
    ghost var fates: seq<Fate>            // what became of the frames taken from it
    ghost var encodings: seq<Payload>     // what the encoder answered, nothing on a failure

    /** What the numbering loop keeps. */
    ghost predicate NumberingOk()
      reads `attempts, `closed, `open, `heard, `timestamp, `streamActive, `sequence, `streamId
    {
      && streamActive == (open != [])
      && if streamActive then
           IsOpened(attempts, closed, open, heard, timestamp, streamId, sequence)
         else IsBetween(attempts, closed, heard, timestamp, streamId)
    }

    /** Captured frames are, in order, those taken, each sent on or dropped, and those still queued. */
    ghost predicate CaptureOk()
      reads `captured, `fates, `heard, captureQueue, captureQueue.slots
    {
      && captureQueue.Valid()
      && captured == TakenOf(fates) + captureQueue.Contents
      && heard == SaidOf(fates)
    }

    /** No frame is lost, repeated or reordered between the encoder and the main thread. */
    ghost predicate DeliveryOk()
      reads `pending, `pendingValid, `attempts, `sent, outboundQueue, outboundQueue.slots
    {
      && outboundQueue.Valid()
      && outboundQueue.slots.Length == QUEUE_CAPACITY
      && sent + outboundQueue.Contents + (if pendingValid then [pending] else [])
         == Encoded(attempts)
    }

    ghost predicate EncodingOk()
      reads `attempts, `encodings
    {
      CarryEncodings(attempts, encodings)
    }

    ghost predicate Valid()
      reads this, captureQueue, captureQueue.slots, outboundQueue, outboundQueue.slots
    {
      && CaptureOk()
      && captureQueue.slots as object != outboundQueue.slots
      && NumberingOk()
      && DeliveryOk()
      && EncodingOk()
    }

    constructor ()
      ensures Valid() && attempts == [] && sent == [] && !pendingValid
      ensures captured == [] && fates == [] && !streamActive
    {
      hide IsBetween, IsOpened, Encoded, SaidOf, SlotIndex, CarryEncodings;
      captureQueue := new Queue(QUEUE_CAPACITY);
      outboundQueue := new Queue(QUEUE_CAPACITY);
      pendingValid, streamActive := false, false;
      streamId, timestamp, sequence := 0, 0, 0;
      pending := WireFrame(0, 0, 0, Middle, []);
      attempts, closed, open, sent, heard, captured, fates, encodings := [], [], [], [], [], [], [], [];
      new;
      StartsBetween();
    }

    /** The main thread takes any number of frames from the outbound queue. */
    method MainThreadSends()
      requires DeliveryOk()
      modifies `sent, outboundQueue
      ensures DeliveryOk() && old(sent) <= sent
      ensures |outboundQueue.Contents| <= |old(outboundQueue.Contents)|
    {
      var times: nat := *;
      while times > 0
        invariant DeliveryOk() && old(sent) <= sent
        invariant |outboundQueue.Contents| <= |old(outboundQueue.Contents)|
      {
        var ok, frame := outboundQueue.Pop();
        if ok {
          sent := sent + [frame];
        }
        times := times - 1;
      }
    }

    /** The audio callback captures any number of frames. */
    method CallbackCaptures()
      requires CaptureOk()
      modifies `captured, captureQueue, captureQueue.slots
      ensures CaptureOk() && old(captured) <= captured
      ensures captured[|fates|..] == captureQueue.Contents
    {
      hide Queue.Valid, TakenOf, SaidOf;
      var times: nat := *;
      while times > 0
        invariant CaptureOk() && old(captured) <= captured
      {
        var frame: Pcm := *;
        var ok := captureQueue.Push(frame);
        if ok {
          captured := captured + [frame];
        }
        times := times - 1;
      }
      QueueIsRest(fates, captureQueue.Contents);
    }

    /** The Opus encoder: any payload, or nothing when it fails. */
    method Encode(pcm: Pcm) returns (payload: Payload)
      modifies `encodings
      ensures encodings == old(encodings) + [payload]
    {
      payload := *;
      encodings := encodings + [payload];
    }

    /** Put a freshly encoded frame on the queue, or keep it pending when the queue is full. */
    method Enqueue(wire: WireFrame)
      requires outboundQueue.Valid() && outboundQueue.slots.Length == QUEUE_CAPACITY
      requires !pendingValid
      requires sent + outboundQueue.Contents + [wire] == Encoded(attempts)
      modifies `pending, `pendingValid, outboundQueue, outboundQueue.slots
      ensures DeliveryOk()
      ensures pendingValid <==> |old(outboundQueue.Contents)| >= QUEUE_CAPACITY
    {
      hide Queue.Valid, Encoded;
      var queued := outboundQueue.Push(wire);
      if !queued {
        pending, pendingValid := wire, true;
      }
    }

    /** Encode one frame under the next number and queue it, or keep it pending. */
    method QueueEncoded(pcm: Pcm, flag: Flag) returns (ok: bool, ghost frame: WireFrame)
      requires DeliveryOk() && EncodingOk() && !pendingValid
      modifies `pending, `pendingValid, `attempts, `encodings, outboundQueue, outboundQueue.slots
      ensures DeliveryOk() && EncodingOk()
      ensures frame == WireFrame(streamId, sequence, timestamp, flag, frame.payload)
      ensures attempts == old(attempts) + [Attempt(frame, pcm, ok)]
      ensures pendingValid <==> ok && |old(outboundQueue.Contents)| >= QUEUE_CAPACITY
    {
      hide Queue.Valid, Encoded, Spoken, Frames;
      var payload := Encode(pcm);
      ok := payload != [];
      var wire := WireFrame(streamId, sequence, timestamp, flag, payload);
      frame := wire;
      AppendAttempt(attempts, Attempt(wire, pcm, ok));
      attempts := attempts + [Attempt(wire, pcm, ok)];
      if ok {
        Enqueue(wire);
      }
    }

    /** Make sure a stream is active; a new one starts at number zero. */
    method OpenStream() returns (flag: Flag)
      requires NumberingOk()
      modifies `streamActive, `streamId, `sequence
      ensures streamActive && flag == if open == [] then Start else Middle
      ensures IsOpened(attempts, closed, open, heard, timestamp, streamId, sequence)
    {
      hide IsOpened, IsBetween, NextStreamId;
      flag := Middle;
      if !streamActive {
        OpensNext(attempts, closed, heard, timestamp, streamId);
        streamId := NextStreamId(streamId);
        sequence, flag, streamActive := 0, Start, true;
      }
    }

    /** Send one captured frame, opening a stream first when none is active. */
    method Speak(pcm: Pcm)
      requires NumberingOk() && DeliveryOk() && EncodingOk() && !pendingValid
      modifies `pending, `pendingValid, `streamActive, `streamId, `timestamp, `sequence,
               `attempts, `encodings, `open, `heard, outboundQueue, outboundQueue.slots
      ensures NumberingOk() && DeliveryOk() && EncodingOk()
      ensures old(attempts) <= attempts
      ensures heard == old(heard) + [pcm] && |open| == |old(open)| + 1
    {
      hide Queue.Valid, DeliveryOk, EncodingOk, IsOpened, IsBetween, Succ16;
      var flag := OpenStream();
      ghost var before := attempts;
      var ok, frame := QueueEncoded(pcm, flag);
      SpeaksNext(before, closed, open, heard, timestamp, streamId, sequence,
                 Attempt(frame, pcm, ok));
      sequence := Succ16(sequence);
      if ok {
        timestamp := (timestamp + FRAME_SAMPLES) % WRAP_32;
      }
      open, heard := open + [Attempt(frame, pcm, ok)], heard + [pcm];
    }

    /** Close the active stream with a silent END frame. */
    method Finish()
      requires NumberingOk() && DeliveryOk() && EncodingOk() && !pendingValid && streamActive
      modifies `pending, `pendingValid, `streamActive, `timestamp, `sequence,
               `attempts, `encodings, `open, `closed, outboundQueue, outboundQueue.slots
      ensures NumberingOk() && DeliveryOk() && EncodingOk()
      ensures old(attempts) <= attempts
      ensures !streamActive && |closed| == |old(closed)| + 1 && old(closed) <= closed
    {
      hide Queue.Valid, DeliveryOk, EncodingOk, IsOpened, IsBetween, Succ16;
      ghost var before := attempts;
      var silence := seq(FRAME_SAMPLES, _ => 0.0);
      var ok, frame := QueueEncoded(silence, End);
      FinishesOpen(before, closed, open, heard, timestamp, streamId, sequence,
                   Attempt(frame, silence, ok));
      sequence := Succ16(sequence);
      if ok {
        timestamp := (timestamp + FRAME_SAMPLES) % WRAP_32;
      }
      streamActive := false;
      closed, open := closed + [open + [Attempt(frame, silence, ok)]], [];
    }

    /** Give the pending frame another chance before anything newer is encoded. */
    method RetryPending()
      requires DeliveryOk()
      modifies `pendingValid, outboundQueue, outboundQueue.slots
      ensures DeliveryOk()
      ensures pendingValid <==> old(pendingValid) && |old(outboundQueue.Contents)| >= QUEUE_CAPACITY
    {
      hide Queue.Valid, Encoded;
      if pendingValid {
        var pushed := outboundQueue.Push(pending);
        if pushed {
          pendingValid := false;
        }
      }
    }

    /** Throw away what was captured while not transmitting. */
    method DrainCaptures()
      requires CaptureOk()
      modifies `fates, captureQueue
      ensures CaptureOk() && captureQueue.Contents == []
      ensures fates == old(fates) + AllDropped(old(captureQueue.Contents))
    {
      hide Queue.Valid, TakenOf, SaidOf, AllDropped;
      ghost var waiting, n := captureQueue.Contents, 0;
      var more := true;
      while more
        invariant captureQueue.Valid() && fates == old(fates)
        invariant n <= |waiting| && captureQueue.Contents == waiting[n..]
        invariant !more ==> captureQueue.Contents == []
        decreases |captureQueue.Contents| + (if more then 1 else 0)
      {
        var frame;
        more, frame := captureQueue.Pop();
        n := if more then n + 1 else n;
      }
      DroppedFates(fates, waiting);
      assert captured == TakenOf(fates) + waiting;
      fates := fates + AllDropped(waiting);
      assert captured + [] == captured;
    }

    /** While transmitting, the oldest captured frame, if there is one, is sent. */
    method SpeakNext()
      requires Valid() && !pendingValid
      modifies this, captureQueue, outboundQueue, outboundQueue.slots
      ensures Valid()
      ensures old(attempts) <= attempts && closed == old(closed) && old(sent) <= sent
      ensures captured == old(captured)
      ensures fates == old(fates) + NextSaid(old(captureQueue.Contents))
    {
      hide Queue.Valid, NumberingOk, DeliveryOk, EncodingOk, TakenOf, SaidOf;
      var got, frame := captureQueue.Pop();
      if got {
        MainThreadSends();
        Speak(frame);
        OneSaid(fates, frame);
        fates := fates + [Said(frame)];
      }
    }

    /** Otherwise what was captured is dropped and the active stream is closed. */
    method StopSpeaking()
      requires Valid()
      modifies this, captureQueue, outboundQueue, outboundQueue.slots
      ensures Valid()
      ensures old(attempts) <= attempts && old(closed) <= closed && old(sent) <= sent
      ensures |closed| == |old(closed)| + (if !old(pendingValid) && old(streamActive) then 1 else 0)
      ensures streamActive == (old(pendingValid) && old(streamActive))
      ensures captured == old(captured)
      ensures fates == old(fates) + AllDropped(old(captureQueue.Contents))
    {
      hide Queue.Valid, NumberingOk, DeliveryOk, EncodingOk, TakenOf, SaidOf, AllDropped;
      DrainCaptures();
      if !pendingValid && streamActive {
        MainThreadSends();
        Finish();
      }
    }

    /** One pass of the worker loop under one reading of the transmit switch. The main thread may
        take frames from the outbound queue before, between and after its steps. The pass is free to
        speak unless a pending frame still finds the outbound queue full. */
    method Iterate(transmit: bool) returns (ghost free: bool)
      requires Valid()
      modifies this, captureQueue, captureQueue.slots, outboundQueue, outboundQueue.slots
      ensures Valid()
      ensures old(attempts) <= attempts && old(closed) <= closed && old(sent) <= sent
      ensures !old(pendingValid) || |old(outboundQueue.Contents)| < QUEUE_CAPACITY ==> free
      ensures old(captured) <= captured
      ensures fates == old(fates) + (if !transmit then AllDropped(captured[|old(fates)|..])
                                     else if free then NextSaid(captured[|old(fates)|..])
                                     else [])
      ensures |closed| == |old(closed)| + (if !transmit && free && old(streamActive) then 1 else 0)
      ensures !transmit && free ==> !streamActive
    {
      hide Queue.Valid, NumberingOk, DeliveryOk, EncodingOk, CaptureOk, AllDropped, NextSaid;
      MainThreadSends();
      RetryPending();
      free := !pendingValid;
      CallbackCaptures();
      assert fates + [] == fates;
      if !pendingValid && transmit {
        SpeakNext();
      } else if !transmit {
        StopSpeaking();
      }
      MainThreadSends();
    }

    /** The worker loop under any readings of the switch. */
    method Work(switches: seq<bool>)
      requires Valid()
      modifies this, captureQueue, captureQueue.slots, outboundQueue, outboundQueue.slots
      ensures Valid()
      ensures old(captured) <= captured && old(fates) <= fates && old(sent) <= sent
      ensures old(heard) <= heard
      ensures (forall i :: 0 <= i < |switches| ==> switches[i]) ==>
                captured[|old(fates)|..] == heard[|old(heard)|..] + captureQueue.Contents
    {
      hide Queue.Valid, NumberingOk, DeliveryOk, EncodingOk, TakenOf, SaidOf, AllDropped;
      for i := 0 to |switches|
        invariant Valid()
        invariant old(captured) <= captured && old(fates) <= fates && old(sent) <= sent
        invariant (forall j :: 0 <= j < i ==> switches[j]) ==>
                    forall k :: |old(fates)| <= k < |fates| ==> fates[k].Said?
      {
        var _ := Iterate(switches[i]);
      }
      SaidOfPrefix(old(fates), fates);
      if forall i :: 0 <= i < |switches| ==> switches[i] {
        OnlySaid(old(fates), fates, captureQueue.Contents);
      }
    }
  }

  /** The fate of the oldest of the waiting frames when it is sent on. */
  function NextSaid(waiting: seq<Pcm>): seq<Fate> {
    if waiting == [] then [] else [Said(waiting[0])]
  }

  lemma DroppedFates(fates: seq<Fate>, waiting: seq<Pcm>)
    ensures TakenOf(fates + AllDropped(waiting)) == TakenOf(fates) + waiting
    ensures SaidOf(fates + AllDropped(waiting)) == SaidOf(fates)
  {
    hide TakenOf, SaidOf, AllDropped;
    TakenAppend(fates, AllDropped(waiting));
    TakenDropped(waiting);
    SaidAppend(fates, AllDropped(waiting));
    NoneSaid(AllDropped(waiting));
    assert SaidOf(fates) + [] == SaidOf(fates);
  }

  lemma QueueIsRest(fates: seq<Fate>, waiting: seq<Pcm>)
    ensures (TakenOf(fates) + waiting)[|fates|..] == waiting
  {
    hide TakenOf;
  }

  lemma SaidOfPrefix(before: seq<Fate>, after: seq<Fate>)
    requires before <= after
    ensures SaidOf(before) <= SaidOf(after)
  {
    hide SaidOf;
    assert after == before + after[|before|..];
    SaidAppend(before, after[|before|..]);
  }

  lemma OnlySaid(before: seq<Fate>, after: seq<Fate>, waiting: seq<Pcm>)
    requires before <= after && forall k :: |before| <= k < |after| ==> after[k].Said?
    ensures SaidOf(before) <= SaidOf(after)
    ensures (TakenOf(after) + waiting)[|before|..]
         == SaidOf(after)[|SaidOf(before)|..] + waiting
  {
    hide TakenOf, SaidOf;
    var more := after[|before|..];
    assert after == before + more;
    TakenAppend(before, more);
    SaidAppend(before, more);
    EachSaid(more);
    Rest(SaidOf(before), TakenOf(more));
    Regroup(TakenOf(before), TakenOf(more), waiting);
    Rest(TakenOf(before), TakenOf(more) + waiting);
  }

  lemma Rest(a: seq<Pcm>, b: seq<Pcm>)
    ensures (a + b)[|a|..] == b && a <= a + b
  {
  }
}
