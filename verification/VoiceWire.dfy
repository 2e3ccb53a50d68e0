/** The voice frames a worker puts on the wire: streams of numbered frames, and what is left of them
    when encodes fail. */
module VoiceWire {
  import opened Sequences
  import opened Serial

  const FRAME_SAMPLES: nat := 960

  type Pcm = seq<real>
  type Payload = seq<Byte>

  datatype Flag = Start | Middle | End

  datatype WireFrame = WireFrame(streamId: uint32, sequence: uint16, timestamp: uint32, flag: Flag,
                                 payload: Payload)

  /** One call of the encoder; a failed one carries no payload and puts nothing on the wire. */
  datatype Attempt = Attempt(frame: WireFrame, pcm: Pcm, ok: bool)

  /** Stream ids count up and skip zero, also through the 32-bit wrap. */
  function NextStreamId(id: uint32): uint32 {
    if Succ32(id) == 0 then 1 else Succ32(id)
  }

  /** The id of the n-th stream of a worker's lifetime. */
  function StreamIdAfter(count: nat): uint32 {
    if count == 0 then 0 else NextStreamId(StreamIdAfter(count - 1))
  }

  /** The wire number of the i-th frame of a stream. */
  function NumberAt(i: nat): uint16 {
    i % WRAP_16
  }

  lemma NumberAdvances(i: nat)
    ensures NumberAt(0) == 0 && Succ16(NumberAt(i)) == NumberAt(i + 1)
  {
    SumAfterWrap(i, 1, WRAP_16);
  }

  /** The sample clock after a number of encoded frames. */
  function TimestampAt(frames: nat): uint32 {
    (FRAME_SAMPLES * frames) % WRAP_32
  }

  lemma TimestampAdvances(frames: nat)
    ensures (TimestampAt(frames) + FRAME_SAMPLES) % WRAP_32 == TimestampAt(frames + 1)
  {
    var n := FRAME_SAMPLES * frames;
    assert FRAME_SAMPLES * (frames + 1) == n + FRAME_SAMPLES;
    SumAfterWrap(n, FRAME_SAMPLES, WRAP_32);
  }

  /** A stream still being sent: START at sequence 0, then consecutive 16-bit numbers, one id. */
  ghost predicate IsOpenStream(frames: seq<WireFrame>, id: uint32) {
    forall i :: 0 <= i < |frames| ==>
      && frames[i].streamId == id
      && frames[i].sequence == NumberAt(i)
      && frames[i].flag == (if i == 0 then Start else Middle)
  }

  /** A finished stream: an open one followed by a single END with the next number. */
  ghost predicate IsWholeStream(frames: seq<WireFrame>, id: uint32) {
    && |frames| >= 2
    && IsOpenStream(frames[..|frames| - 1], id)
    && frames[|frames| - 1].streamId == id
    && frames[|frames| - 1].sequence == NumberAt(|frames| - 1)
    && frames[|frames| - 1].flag == End
  }

  function Frames(attempts: seq<Attempt>): (frames: seq<WireFrame>)
    ensures |frames| == |attempts|
    ensures forall i :: 0 <= i < |frames| ==> frames[i] == attempts[i].frame
  {
    seq(|attempts|, i requires 0 <= i < |attempts| => attempts[i].frame)
  }

  /** The frames that reached the wire. */
  function Encoded(attempts: seq<Attempt>): seq<WireFrame> {
    if attempts == [] then []
    else
      var last := attempts[|attempts| - 1];
      Encoded(attempts[..|attempts| - 1]) + (if last.ok then [last.frame] else [])
  }

  /** The captured sound that was spoken, which excludes the silence behind an END. */
  function Spoken(attempts: seq<Attempt>): seq<Pcm> {
    if attempts == [] then []
    else
      var last := attempts[|attempts| - 1];
      Spoken(attempts[..|attempts| - 1]) + (if last.frame.flag.End? then [] else [last.pcm])
  }

  lemma AppendAttempt(attempts: seq<Attempt>, a: Attempt)
    ensures Frames(attempts + [a]) == Frames(attempts) + [a.frame]
    ensures Encoded(attempts + [a]) == Encoded(attempts) + (if a.ok then [a.frame] else [])
    ensures Spoken(attempts + [a]) == Spoken(attempts) + (if a.frame.flag.End? then [] else [a.pcm])
  {
    assert (attempts + [a])[..|attempts|] == attempts;
  }

  lemma NoneFailedSplit(attempts: seq<Attempt>)
    requires attempts != []
    ensures var n := |attempts| - 1;
            (forall i :: 0 <= i < |attempts| ==> attempts[i].ok) <==>
            (forall i :: 0 <= i < n ==> attempts[..n][i].ok) && attempts[n].ok
  {
    assert forall i :: 0 <= i < |attempts| - 1 ==> attempts[..|attempts| - 1][i] == attempts[i];
  }

  lemma {:induction false} EncodedIsAllExactlyWhenNoneFailed(attempts: seq<Attempt>)
    ensures |Encoded(attempts)| <= |attempts|
    ensures |Encoded(attempts)| == |attempts| <==>
            forall i :: 0 <= i < |attempts| ==> attempts[i].ok
    ensures |Encoded(attempts)| == |attempts| ==> Encoded(attempts) == Frames(attempts)
  {
    if attempts != [] {
      hide Encoded, Frames, Spoken;
      var front, last := attempts[..|attempts| - 1], attempts[|attempts| - 1];
      EncodedIsAllExactlyWhenNoneFailed(front);
      assert attempts == front + [last];
      AppendAttempt(front, last);
      NoneFailedSplit(attempts);
    }
  }

  /** The attempts of a lifetime, stream by stream: whole ones in order, then the open one. */
  ghost predicate Bracketed(attempts: seq<Attempt>, closed: seq<seq<Attempt>>,
                            open: seq<Attempt>) {
    && attempts == Flatten(closed) + open
    && AreWholeStreams(closed)
    && IsOpenStream(Frames(open), StreamIdAfter(|closed| + 1))
  }

  ghost predicate AreWholeStreams(streams: seq<seq<Attempt>>) {
    forall k :: 0 <= k < |streams| ==> IsWholeStream(Frames(streams[k]), StreamIdAfter(k + 1))
  }

  lemma OpenStreamGrows(open: seq<WireFrame>, f: WireFrame, id: uint32)
    requires IsOpenStream(open, id)
    requires f.streamId == id && f.sequence == NumberAt(|open|)
    requires f.flag == (if open == [] then Start else Middle)
    ensures IsOpenStream(open + [f], id)
  {
    hide NumberAt;
  }

  /** A frame with the next number extends the open stream, or starts it. */
  lemma NextFrameStaysBracketed(attempts: seq<Attempt>, closed: seq<seq<Attempt>>,
                                open: seq<Attempt>, a: Attempt)
    requires Bracketed(attempts, closed, open)
    requires a.frame.streamId == StreamIdAfter(|closed| + 1)
    requires a.frame.sequence == NumberAt(|open|)
    requires a.frame.flag == (if open == [] then Start else Middle)
    ensures Bracketed(attempts + [a], closed, open + [a])
  {
    hide NumberAt, StreamIdAfter, Flatten, AreWholeStreams, IsOpenStream, Frames;
    AppendAttempt(open, a);
    OpenStreamGrows(Frames(open), a.frame, StreamIdAfter(|closed| + 1));
    assert Flatten(closed) + open + [a] == Flatten(closed) + (open + [a]);
  }

  lemma WholeFromOpen(open: seq<WireFrame>, f: WireFrame, id: uint32)
    requires IsOpenStream(open, id) && open != []
    requires f.streamId == id && f.sequence == NumberAt(|open|) && f.flag == End
    ensures IsWholeStream(open + [f], id)
  {
    hide NumberAt;
    assert (open + [f])[..|open|] == open;
  }

  lemma OneMoreWholeStream(closed: seq<seq<Attempt>>, whole: seq<Attempt>)
    requires AreWholeStreams(closed)
    requires IsWholeStream(Frames(whole), StreamIdAfter(|closed| + 1))
    ensures AreWholeStreams(closed + [whole])
  {
    hide IsWholeStream, StreamIdAfter, Frames;
    var all := closed + [whole];
    forall k | 0 <= k < |all|
      ensures IsWholeStream(Frames(all[k]), StreamIdAfter(k + 1))
    {
      if k < |closed| {
        assert all[k] == closed[k];
      }
    }
  }

  /** An END with the next number makes the open stream whole. */
  lemma EndFrameClosesTheStream(attempts: seq<Attempt>, closed: seq<seq<Attempt>>,
                                open: seq<Attempt>, a: Attempt)
    requires Bracketed(attempts, closed, open) && open != []
    requires a.frame.streamId == StreamIdAfter(|closed| + 1)
    requires a.frame.sequence == NumberAt(|open|) && a.frame.flag == End
    ensures Bracketed(attempts + [a], closed + [open + [a]], [])
  {
    hide NumberAt, StreamIdAfter, Flatten, IsWholeStream, AreWholeStreams;
    AppendAttempt(open, a);
    WholeFromOpen(Frames(open), a.frame, StreamIdAfter(|closed| + 1));
    FlattenAppend(closed, open + [a]);
    assert Flatten(closed) + open + [a] == Flatten(closed) + (open + [a]);
    OneMoreWholeStream(closed, open + [a]);
  }

  // ----- what reaches the wire when encodes fail -----

  /** Failed encodes among the first n attempts. */
  function Lost(stream: seq<Attempt>, n: nat): (lost: nat)
    requires n <= |stream|
    ensures lost <= n
  {
    if n == 0 then 0 else Lost(stream, n - 1) + (if stream[n - 1].ok then 0 else 1)
  }

  /** Every frame that gets through has a multiple of 65536 losses before it, so that its number is
      the one a receiver expects next; nothing gets through unless the first frame does. */
  ghost predicate StaysInStep(stream: seq<Attempt>) {
    forall i :: 0 <= i < |stream| && stream[i].ok ==>
      stream[0].ok && Lost(stream, i) % WRAP_16 == 0
  }

  /** The whole of a closed stream counts as delivered, or none of it is. */
  ghost predicate ClosedArrives(stream: seq<Attempt>) {
    || (forall i :: 0 <= i < |stream| ==> !stream[i].ok)
    || (stream != [] && stream[|stream| - 1].ok && StaysInStep(stream))
  }

  lemma {:induction false} EncodedAppend(a: seq<Attempt>, b: seq<Attempt>)
    ensures Encoded(a + b) == Encoded(a) + Encoded(b)
  {
    if b == [] {
      assert a + b == a;
    } else {
      assert (a + b)[..|a + b| - 1] == a + b[..|b| - 1];
      EncodedAppend(a, b[..|b| - 1]);
    }
  }

  lemma {:induction false} LostInPrefix(stream: seq<Attempt>, m: nat, n: nat)
    requires n <= m <= |stream|
    ensures Lost(stream[..m], n) == Lost(stream, n)
  {
    if n > 0 {
      LostInPrefix(stream, m, n - 1);
    }
  }

  lemma {:induction false} EncodedSize(stream: seq<Attempt>)
    ensures |Encoded(stream)| == |stream| - Lost(stream, |stream|)
  {
    if stream != [] {
      var n := |stream| - 1;
      EncodedSize(stream[..n]);
      LostInPrefix(stream, n, n);
    }
  }

  /** A frame that gets through arrives earlier by the losses before it. */
  lemma {:induction false} ArrivesAt(stream: seq<Attempt>, i: nat)
    requires i < |stream| && stream[i].ok
    ensures i - Lost(stream, i) < |Encoded(stream)|
    ensures Encoded(stream)[i - Lost(stream, i)] == stream[i].frame
  {
    var n := |stream| - 1;
    EncodedSize(stream[..n]);
    LostInPrefix(stream, n, n);
    if i < n {
      ArrivesAt(stream[..n], i);
      LostInPrefix(stream, n, i);
    }
  }

  /** The frame behind an arrival. */
  lemma {:induction false} SourceOf(stream: seq<Attempt>, j: nat) returns (i: nat)
    requires j < |Encoded(stream)|
    ensures i < |stream| && stream[i].ok && i - Lost(stream, i) == j
    ensures Encoded(stream)[j] == stream[i].frame
  {
    var n := |stream| - 1;
    EncodedSize(stream[..n]);
    LostInPrefix(stream, n, n);
    if j < |Encoded(stream[..n])| {
      i := SourceOf(stream[..n], j);
      LostInPrefix(stream, n, i);
    } else {
      i := n;
    }
  }

  lemma SameNumber(i: nat, lost: nat)
    requires lost <= i
    ensures NumberAt(i - lost) == NumberAt(i) <==> lost % WRAP_16 == 0
  {
  }

  /** An open stream arrives as an open stream exactly when what gets through stays in step. */
  lemma {:induction false} OpenStreamArrivesExactlyWhen(stream: seq<Attempt>, id: uint32)
    requires IsOpenStream(Frames(stream), id)
    ensures IsOpenStream(Encoded(stream), id) <==> StaysInStep(stream)
  {
    hide NumberAt, Encoded, Frames, Lost;
    assert forall i :: 0 <= i < |stream| ==> Frames(stream)[i] == stream[i].frame;
    if StaysInStep(stream) {
      forall j | 0 <= j < |Encoded(stream)|
        ensures Encoded(stream)[j].streamId == id
        ensures Encoded(stream)[j].sequence == NumberAt(j)
        ensures Encoded(stream)[j].flag == (if j == 0 then Start else Middle)
      {
        var i := SourceOf(stream, j);
        SameNumber(i, Lost(stream, i));
        FirstArrival(stream, i);
      }
    }
    if IsOpenStream(Encoded(stream), id) {
      forall i | 0 <= i < |stream| && stream[i].ok
        ensures stream[0].ok && Lost(stream, i) % WRAP_16 == 0
      {
        ArrivesAt(stream, i);
        SameNumber(i, Lost(stream, i));
        var first := SourceOf(stream, 0);
      }
    }
  }

  /** When the first frame gets through, only it arrives first. */
  lemma FirstArrival(stream: seq<Attempt>, i: nat)
    requires i < |stream| && stream[0].ok
    ensures i - Lost(stream, i) == 0 <==> i == 0
  {
    if i > 0 {
      LostAfterFirst(stream, i);
    }
  }

  lemma {:induction false} LostAfterFirst(stream: seq<Attempt>, n: nat)
    requires 0 < n <= |stream| && stream[0].ok
    ensures Lost(stream, n) <= n - 1
  {
    if n > 1 {
      LostAfterFirst(stream, n - 1);
    }
  }

  lemma {:induction false} FrontStaysInStep(stream: seq<Attempt>)
    requires stream != []
    ensures var n := |stream| - 1;
            StaysInStep(stream) <==>
              && StaysInStep(stream[..n])
              && (stream[n].ok ==> stream[0].ok && Lost(stream, n) % WRAP_16 == 0)
  {
    hide Lost;
    var n := |stream| - 1;
    forall i | 0 <= i <= n
      ensures Lost(stream[..n], i) == Lost(stream, i)
    {
      LostInPrefix(stream, n, i);
    }
  }

  /** A closed stream arrives whole, or not at all, exactly when all of it was lost, or its END gets
      through and everything that does stays in step. */
  lemma {:induction false} ClosedStreamArrivesExactlyWhen(stream: seq<Attempt>, id: uint32)
    requires IsWholeStream(Frames(stream), id)
    ensures Encoded(stream) == [] || IsWholeStream(Encoded(stream), id) <==> ClosedArrives(stream)
  {
    hide StaysInStep, Encoded, Lost, IsOpenStream, NumberAt;
    if stream[|stream| - 1].ok {
      WholeWithItsEnd(stream, id);
      ArrivesAt(stream, |stream| - 1);
    } else {
      NoEndArrives(stream, id);
      NothingArrives(stream);
    }
  }

  lemma {:induction false} NothingArrives(stream: seq<Attempt>)
    ensures Encoded(stream) == [] <==> forall i :: 0 <= i < |stream| ==> !stream[i].ok
  {
    hide Encoded, Lost;
    if Encoded(stream) != [] {
      var i := SourceOf(stream, 0);
    }
    if i :| 0 <= i < |stream| && stream[i].ok {
      ArrivesAt(stream, i);
    }
  }

  lemma {:induction false} WholeWithItsEnd(stream: seq<Attempt>, id: uint32)
    requires IsWholeStream(Frames(stream), id) && stream[|stream| - 1].ok
    ensures IsWholeStream(Encoded(stream), id) <==> StaysInStep(stream)
  {
    hide NumberAt, Encoded, StaysInStep, Lost, IsOpenStream, Frames;
    var n := |stream| - 1;
    var front, last := stream[..n], stream[n];
    assert stream == front + [last];
    AppendAttempt(front, last);
    assert Frames(stream)[..n] == Frames(front);
    OpenStreamArrivesExactlyWhen(front, id);
    FrontStaysInStep(stream);
    EncodedSize(front);
    LostInPrefix(stream, n, n);
    SameNumber(n, Lost(stream, n));
    NothingArrives(front);
    FirstIsNeeded(front);
    var wire := Encoded(front);
    assert Encoded(stream)[..|wire|] == wire;
  }

  lemma {:induction false} FirstIsNeeded(stream: seq<Attempt>)
    requires stream != []
    ensures StaysInStep(stream) ==> (Encoded(stream) != [] <==> stream[0].ok)
  {
    hide Encoded, Lost;
    NothingArrives(stream);
  }

  lemma {:induction false} NoEndArrives(stream: seq<Attempt>, id: uint32)
    requires IsWholeStream(Frames(stream), id) && !stream[|stream| - 1].ok
    ensures !IsWholeStream(Encoded(stream), id)
  {
    hide Encoded, Lost, NumberAt;
    var wire := Encoded(stream);
    if wire != [] {
      var i := SourceOf(stream, |wire| - 1);
      assert Frames(stream)[..|stream| - 1][i] == stream[i].frame;
    }
  }

  /** A wire read as a number of streams, each there as a whole or missing, and the open one. */
  ghost predicate IsReadAs(wire: seq<WireFrame>, parts: seq<seq<WireFrame>>,
                           rest: seq<WireFrame>) {
    && wire == Flatten(parts) + rest
    && (forall k :: 0 <= k < |parts| ==>
          parts[k] == [] || IsWholeStream(parts[k], StreamIdAfter(k + 1)))
    && IsOpenStream(rest, StreamIdAfter(|parts| + 1))
  }

  ghost predicate CarriesStreams(wire: seq<WireFrame>, count: nat) {
    exists parts, rest :: |parts| == count && IsReadAs(wire, parts, rest)
  }

  /** The encoder's answers under which every stream arrives whole or not at all. */
  ghost predicate AllArrive(closed: seq<seq<Attempt>>, open: seq<Attempt>) {
    (forall k :: 0 <= k < |closed| ==> ClosedArrives(closed[k])) && StaysInStep(open)
  }

  function EncodedEach(streams: seq<seq<Attempt>>): (parts: seq<seq<WireFrame>>)
    ensures |parts| == |streams|
    ensures forall k :: 0 <= k < |parts| ==> parts[k] == Encoded(streams[k])
  {
    seq(|streams|, k requires 0 <= k < |streams| => Encoded(streams[k]))
  }

  lemma {:induction false} EncodedFlatten(streams: seq<seq<Attempt>>)
    ensures Encoded(Flatten(streams)) == Flatten(EncodedEach(streams))
  {
    hide Encoded, EncodedEach;
    if streams == [] {
      NothingEncoded();
      assert EncodedEach(streams) == [];
    } else {
      var front, last := streams[..|streams| - 1], streams[|streams| - 1];
      EncodedFlatten(front);
      EncodedAppend(Flatten(front), last);
      assert EncodedEach(streams) == EncodedEach(front) + [Encoded(last)];
      FlattenAppend(EncodedEach(front), Encoded(last));
    }
  }

  lemma NothingEncoded()
    ensures Encoded([]) == []
  {
  }

  /** Whatever the encoder answers in this way, for however many streams, the wire carries whole
      streams and the open one. */
  lemma {:induction false} StreamsInStepAreCarried(attempts: seq<Attempt>,
                                                   closed: seq<seq<Attempt>>, open: seq<Attempt>)
    requires Bracketed(attempts, closed, open) && AllArrive(closed, open)
    ensures CarriesStreams(Encoded(attempts), |closed|)
  {
    hide Encoded, Flatten, IsWholeStream, ClosedArrives, StaysInStep, StreamIdAfter, IsOpenStream,
         EncodedEach;
    EncodedAppend(Flatten(closed), open);
    EncodedFlatten(closed);
    forall k | 0 <= k < |closed|
      ensures Encoded(closed[k]) == [] || IsWholeStream(Encoded(closed[k]), StreamIdAfter(k + 1))
    {
      ClosedStreamArrivesExactlyWhen(closed[k], StreamIdAfter(k + 1));
    }
    OpenStreamArrivesExactlyWhen(open, StreamIdAfter(|closed| + 1));
    assert IsReadAs(Encoded(attempts), EncodedEach(closed), Encoded(open));
  }

  lemma {:induction false} IdsCountStreams(n: nat)
    requires n < WRAP_32
    ensures StreamIdAfter(n) == n
  {
    if n > 0 {
      IdsCountStreams(n - 1);
    }
  }

  /** The frames of one stream on the wire. */
  function OfStream(wire: seq<WireFrame>, id: nat): seq<WireFrame> {
    if wire == [] then []
    else
      var last := wire[|wire| - 1];
      OfStream(wire[..|wire| - 1], id) + (if last.streamId == id then [last] else [])
  }

  lemma {:induction false} OfStreamAppend(a: seq<WireFrame>, b: seq<WireFrame>, id: nat)
    ensures OfStream(a + b, id) == OfStream(a, id) + OfStream(b, id)
  {
    if b == [] {
      assert a + b == a;
    } else {
      assert (a + b)[..|a + b| - 1] == a + b[..|b| - 1];
      OfStreamAppend(a, b[..|b| - 1], id);
    }
  }

  ghost predicate AllOf(frames: seq<WireFrame>, id: nat) {
    forall i :: 0 <= i < |frames| ==> frames[i].streamId == id
  }

  lemma {:induction false} OfOneStream(frames: seq<WireFrame>, own: nat, id: nat)
    requires AllOf(frames, own)
    ensures OfStream(frames, id) == if id == own then frames else []
  {
    if frames != [] {
      OfOneStream(frames[..|frames| - 1], own, id);
    }
  }

  lemma {:induction false} OfManyStreams(parts: seq<seq<WireFrame>>, id: nat)
    requires forall k :: 0 <= k < |parts| ==> AllOf(parts[k], k + 1)
    ensures OfStream(Flatten(parts), id) == if 1 <= id <= |parts| then parts[id - 1] else []
  {
    hide AllOf;
    if parts != [] {
      var n := |parts| - 1;
      OfManyStreams(parts[..n], id);
      OfStreamAppend(Flatten(parts[..n]), parts[n], id);
      OfOneStream(parts[n], n + 1, id);
    }
  }

  lemma FramesAreOfOneId(frames: seq<WireFrame>, k: nat)
    requires 0 < k < WRAP_32
    requires frames == [] || IsWholeStream(frames, StreamIdAfter(k))
             || IsOpenStream(frames, StreamIdAfter(k))
    ensures AllOf(frames, k)
  {
    hide NumberAt, StreamIdAfter;
    IdsCountStreams(k);
    if frames != [] {
      var n := |frames| - 1;
      assert forall i :: 0 <= i < n ==> frames[i] == frames[..n][i];
    }
  }

  lemma ReadingIsOfOneId(wire: seq<WireFrame>, parts: seq<seq<WireFrame>>, rest: seq<WireFrame>,
                         k: nat)
    requires IsReadAs(wire, parts, rest) && k <= |parts| && |parts| + 1 < WRAP_32
    ensures OfStream(wire, k + 1) == if k < |parts| then parts[k] else rest
  {
    hide Flatten, OfStream, NumberAt, StreamIdAfter, IsWholeStream, IsOpenStream, AllOf;
    forall j | 0 <= j < |parts|
      ensures AllOf(parts[j], j + 1)
    {
      FramesAreOfOneId(parts[j], j + 1);
    }
    FramesAreOfOneId(rest, |parts| + 1);
    OfManyStreams(parts, k + 1);
    OfStreamAppend(Flatten(parts), rest, k + 1);
    OfOneStream(rest, |parts| + 1, k + 1);
  }

  lemma ArrivalsAreOfOneId(stream: seq<Attempt>, id: nat)
    requires AllOf(Frames(stream), id)
    ensures AllOf(Encoded(stream), id)
  {
    hide Encoded, Lost;
    forall j | 0 <= j < |Encoded(stream)|
      ensures Encoded(stream)[j].streamId == id
    {
      var i := SourceOf(stream, j);
      assert Frames(stream)[i] == stream[i].frame;
    }
  }

  lemma {:induction false} EncodedOfOneId(attempts: seq<Attempt>, closed: seq<seq<Attempt>>,
                                          open: seq<Attempt>, k: nat)
    requires Bracketed(attempts, closed, open) && k <= |closed| && |closed| + 1 < WRAP_32
    ensures OfStream(Encoded(attempts), k + 1)
         == Encoded(if k < |closed| then closed[k] else open)
  {
    hide Flatten, OfStream, NumberAt, StreamIdAfter, Encoded, AllOf, IsWholeStream, IsOpenStream;
    EncodedAppend(Flatten(closed), open);
    EncodedFlatten(closed);
    forall j | 0 <= j < |closed|
      ensures AllOf(EncodedEach(closed)[j], j + 1)
    {
      FramesAreOfOneId(Frames(closed[j]), j + 1);
      ArrivalsAreOfOneId(closed[j], j + 1);
    }
    FramesAreOfOneId(Frames(open), |closed| + 1);
    ArrivalsAreOfOneId(open, |closed| + 1);
    OfManyStreams(EncodedEach(closed), k + 1);
    OfStreamAppend(Flatten(EncodedEach(closed)), Encoded(open), k + 1);
    OfOneStream(Encoded(open), |closed| + 1, k + 1);
  }

  /** While stream ids have not come round, the wire carries whole streams, each or none of it, and
      the open one exactly when each closed stream was lost altogether or keeps its START and END
      and stays in step, and so far the open one stays in step. */
  lemma {:induction false} WireCarriesStreamsExactlyWhen(attempts: seq<Attempt>,
                                                         closed: seq<seq<Attempt>>,
                                                         open: seq<Attempt>)
    requires Bracketed(attempts, closed, open) && |closed| + 1 < WRAP_32
    ensures CarriesStreams(Encoded(attempts), |closed|) <==> AllArrive(closed, open)
  {
    hide Encoded, Bracketed, IsReadAs, ClosedArrives, StaysInStep;
    if CarriesStreams(Encoded(attempts), |closed|) {
      var parts, rest :| |parts| == |closed| && IsReadAs(Encoded(attempts), parts, rest);
      forall k | 0 <= k < |closed|
        ensures ClosedArrives(closed[k])
      {
        CarriedStreamArrives(attempts, closed, open, parts, rest, k);
      }
      CarriedRestArrives(attempts, closed, open, parts, rest);
    }
    if AllArrive(closed, open) {
      StreamsInStepAreCarried(attempts, closed, open);
    }
  }

  lemma CarriedStreamArrives(attempts: seq<Attempt>, closed: seq<seq<Attempt>>,
                             open: seq<Attempt>, parts: seq<seq<WireFrame>>, rest: seq<WireFrame>,
                             k: nat)
    requires Bracketed(attempts, closed, open) && |closed| + 1 < WRAP_32
    requires |parts| == |closed| && IsReadAs(Encoded(attempts), parts, rest) && k < |closed|
    ensures ClosedArrives(closed[k])
  {
    hide Encoded, ClosedArrives, StreamIdAfter, IsOpenStream, IsWholeStream, Flatten;
    ReadingIsOfOneId(Encoded(attempts), parts, rest, k);
    EncodedOfOneId(attempts, closed, open, k);
    ClosedStreamArrivesExactlyWhen(closed[k], StreamIdAfter(k + 1));
  }

  lemma CarriedRestArrives(attempts: seq<Attempt>, closed: seq<seq<Attempt>>, open: seq<Attempt>,
                           parts: seq<seq<WireFrame>>, rest: seq<WireFrame>)
    requires Bracketed(attempts, closed, open) && |closed| + 1 < WRAP_32
    requires |parts| == |closed| && IsReadAs(Encoded(attempts), parts, rest)
    ensures StaysInStep(open)
  {
    hide Encoded, StaysInStep, StreamIdAfter, IsOpenStream, IsWholeStream, Flatten;
    ReadingIsOfOneId(Encoded(attempts), parts, rest, |closed|);
    EncodedOfOneId(attempts, closed, open, |closed|);
    OpenStreamArrivesExactlyWhen(open, StreamIdAfter(|closed| + 1));
  }

  // ----- when the stream ids have come round -----

  function Try(id: uint32, number: uint16, flag: Flag, ok: bool): Attempt {
    Attempt(WireFrame(id, number, 0, flag, []), [], ok)
  }

  lemma {:induction false} FlattenOfFirst<T>(parts: seq<seq<T>>)
    requires parts != [] && forall k :: 0 < k < |parts| ==> parts[k] == []
    ensures Flatten(parts) == parts[0]
  {
    var n := |parts| - 1;
    if n == 0 {
      FlattenOne(parts[0]);
      assert parts == [parts[0]];
    } else {
      FlattenOfFirst(parts[..n]);
      assert parts == parts[..n] + [parts[n]];
      FlattenAppend(parts[..n], parts[n]);
    }
  }

  const ROUND: nat := WRAP_32 - 1

  function RoundOfStreams(): (closed: seq<seq<Attempt>>)
    ensures |closed| == ROUND
    ensures forall k :: 0 <= k < ROUND ==>
              var id := StreamIdAfter(k + 1);
              closed[k] == [Try(id, 0, Start, k == 0), Try(id, 1, End, false)]
  {
    seq(ROUND, k requires 0 <= k < ROUND =>
      var id := StreamIdAfter(k + 1);
      [Try(id, 0, Start, k == 0), Try(id, 1, End, false)])
  }

  lemma TwoAttempts(a: Attempt, b: Attempt)
    ensures Encoded([a, b]) == (if a.ok then [a.frame] else []) + (if b.ok then [b.frame] else [])
    ensures Frames([a, b]) == [a.frame, b.frame]
  {
    NothingEncoded();
    AppendAttempt([], a);
    AppendAttempt([a], b);
    assert [] + [a] == [a] && [a] + [b] == [a, b];
  }

  lemma TwoFramesAreAStream(id: uint32)
    ensures var start, middle, end := Try(id, 0, Start, true).frame, Try(id, 1, Middle, true).frame,
                                      Try(id, 1, End, true).frame;
            IsWholeStream([start, end], id) && IsOpenStream([start, middle], id)
  {
    assert [Try(id, 0, Start, true).frame, Try(id, 1, End, true).frame][..1]
        == [Try(id, 0, Start, true).frame];
  }

  lemma IdsComeRound()
    ensures StreamIdAfter(ROUND + 1) == 1
  {
    IdsCountStreams(ROUND);
  }

  lemma RoundIsBracketed(closed: seq<seq<Attempt>>, open: seq<Attempt>)
    requires closed == RoundOfStreams()
    requires open == [Try(1, 0, Start, false), Try(1, 1, Middle, true)]
    ensures Bracketed(Flatten(closed) + open, closed, open)
  {
    hide Frames, IsWholeStream, IsOpenStream, StreamIdAfter, NumberAt, Flatten;
    forall k | 0 <= k < |closed|
      ensures IsWholeStream(Frames(closed[k]), StreamIdAfter(k + 1))
    {
      var id := StreamIdAfter(k + 1);
      TwoAttempts(closed[k][0], closed[k][1]);
      TwoFramesAreAStream(id);
    }
    TwoAttempts(open[0], open[1]);
    TwoFramesAreAStream(1);
    IdsComeRound();
  }

  lemma RoundOnTheWire(closed: seq<seq<Attempt>>, open: seq<Attempt>)
    requires closed == RoundOfStreams()
    requires open == [Try(1, 0, Start, false), Try(1, 1, Middle, true)]
    ensures Encoded(Flatten(closed) + open)
         == [Try(1, 0, Start, true).frame, Try(1, 1, Middle, true).frame]
  {
    hide Encoded, Flatten, StreamIdAfter;
    EncodedAppend(Flatten(closed), open);
    EncodedFlatten(closed);
    forall k | 0 <= k < |closed|
      ensures EncodedEach(closed)[k] == if k == 0 then [Try(1, 0, Start, true).frame] else []
    {
      TwoAttempts(closed[k][0], closed[k][1]);
      IdsCountStreams(1);
    }
    FlattenOfFirst(EncodedEach(closed));
    TwoAttempts(open[0], open[1]);
  }

  lemma FlattenOfNothing<T>(parts: seq<seq<T>>)
    requires parts != [] && forall k :: 0 <= k < |parts| ==> parts[k] == []
    ensures Flatten(parts) == []
  {
    hide Flatten;
    FlattenOfFirst(parts);
  }

  lemma RoundIsCarried(closed: seq<seq<Attempt>>, open: seq<Attempt>)
    requires closed == RoundOfStreams()
    requires open == [Try(1, 0, Start, false), Try(1, 1, Middle, true)]
    ensures CarriesStreams(Encoded(Flatten(closed) + open), |closed|)
  {
    hide Encoded, Flatten, StreamIdAfter, IsOpenStream, IsWholeStream, RoundOfStreams;
    var wire := Encoded(Flatten(closed) + open);
    RoundOnTheWire(closed, open);
    IdsComeRound();
    TwoFramesAreAStream(1);
    var parts: seq<seq<WireFrame>> := seq(ROUND, _ => []);
    FlattenOfNothing(parts);
    assert [] + wire == wire;
    assert IsReadAs(wire, parts, wire);
  }

  lemma RoundLosesAnEnd(closed: seq<seq<Attempt>>, open: seq<Attempt>)
    requires closed == RoundOfStreams()
    ensures !AllArrive(closed, open)
  {
    hide StreamIdAfter, StaysInStep, RoundOfStreams;
    assert closed[0][0].ok && !closed[0][1].ok;
    assert !ClosedArrives(closed[0]);
  }

  ghost predicate IsHiddenLoss(closed: seq<seq<Attempt>>, open: seq<Attempt>) {
    && Bracketed(Flatten(closed) + open, closed, open)
    && CarriesStreams(Encoded(Flatten(closed) + open), |closed|)
    && !AllArrive(closed, open)
  }

  /** One stream more, and ids repeat: what is left of two damaged streams with one id can look like
      one intact stream, so no reader of the wire could tell. */
  lemma RepeatedIdsHideALoss()
    ensures exists closed, open :: |closed| + 1 == WRAP_32 && IsHiddenLoss(closed, open)
  {
    var closed := RoundOfStreams();
    var open := [Try(1, 0, Start, false), Try(1, 1, Middle, true)];
    hide Bracketed, CarriesStreams, AllArrive, RoundOfStreams, Encoded, Flatten, Try;
    RoundIsBracketed(closed, open);
    RoundIsCarried(closed, open);
    RoundLosesAnEnd(closed, open);
    assert IsHiddenLoss(closed, open);
  }

  // ----- streams of ordinary length -----

  lemma {:induction false} NothingLost(stream: seq<Attempt>, n: nat)
    requires n <= |stream|
    ensures Lost(stream, n) == 0 <==> forall i :: 0 <= i < n ==> stream[i].ok
  {
    if n > 0 {
      NothingLost(stream, n - 1);
    }
  }

  /** In a stream of at most 65536 frames nothing that gets through may follow a loss. */
  lemma {:induction false} ShortStreamsStayInStepExactlyWhen(stream: seq<Attempt>)
    requires |stream| <= WRAP_16
    ensures StaysInStep(stream) <==>
              forall i, j :: 0 <= i < j < |stream| && stream[j].ok ==> stream[i].ok
    ensures ClosedArrives(stream) <==>
              || (forall i :: 0 <= i < |stream| ==> stream[i].ok)
              || (forall i :: 0 <= i < |stream| ==> !stream[i].ok)
  {
    hide Lost;
    forall j | 0 <= j < |stream| && stream[j].ok
      ensures stream[0].ok && Lost(stream, j) % WRAP_16 == 0 <==>
                forall i :: 0 <= i < j ==> stream[i].ok
    {
      NothingLost(stream, j);
      if j > 0 && stream[0].ok {
        LostAfterFirst(stream, j);
      }
    }
  }

  /** One failed frame in the middle of a stream leaves a gap, and a failed START or END leaves a
      stream without it. */
  lemma {:induction false} OneFailureBreaksTheStream(stream: seq<Attempt>, id: uint32, i: nat)
    requires IsWholeStream(Frames(stream), id) && i < |stream| && !stream[i].ok
    requires forall j :: 0 <= j < |stream| && j != i ==> stream[j].ok
    ensures Encoded(stream) != [] && !IsWholeStream(Encoded(stream), id)
  {
    hide Encoded, Lost, IsOpenStream;
    var j := if i == 0 then 1 else 0;
    ArrivesAt(stream, j);
    ClosedStreamArrivesExactlyWhen(stream, id);
    if StaysInStep(stream) && i < |stream| - 1 {
      OneLoss(stream, i, |stream| - 1);
    }
  }

  lemma {:induction false} OneLoss(stream: seq<Attempt>, i: nat, n: nat)
    requires i < n <= |stream| && !stream[i].ok
    requires forall j :: 0 <= j < |stream| && j != i ==> stream[j].ok
    ensures Lost(stream, n) == 1
  {
    NothingLost(stream, i);
    if n > i + 1 {
      OneLoss(stream, i, n - 1);
    }
  }
}
