/** The audio-device callback: cuts captured sound into 960-sample frames for the worker, and
    plays the worker's mixed frames into device buffers of any size. */
module AudioCallback {
  import opened Sequences
  import opened SpscRing

  const FRAME_SAMPLES: nat := 960
  const QUEUE_CAPACITY: nat := 32

  type Frame = seq<real>

  ghost predicate AllFrames(frames: seq<Frame>) {
    forall i :: 0 <= i < |frames| ==> |frames[i]| == FRAME_SAMPLES
  }

  /** What capture promises about everything heard since the start. */
  ghost predicate CaptureLaw(heard: seq<real>, offered: seq<Frame>, partial: seq<real>) {
    AllFrames(offered) && |partial| < FRAME_SAMPLES && Flatten(offered) + partial == heard
  }

  /** What playback promises: the sound played, then what is left of the frame being played,
      is the popped frames in order. */
  ghost predicate PlaybackLaw(played: seq<real>, popped: seq<Frame>, remaining: seq<real>) {
    AllFrames(popped) && Flatten(popped) == played + remaining
  }

  lemma FlattenNothing(frames: seq<Frame>)
    requires frames == []
    ensures Flatten(frames) == []
  {
  }

  /** However the callbacks were sized, the frames offered are the consecutive 960-sample
      blocks of the input and the partial buffer is the tail. */
  lemma FramesAreTheInputBlocks(heard: seq<real>, offered: seq<Frame>, partial: seq<real>)
    requires CaptureLaw(heard, offered, partial)
    ensures |offered| == |heard| / FRAME_SAMPLES
    ensures forall k :: 0 <= k < |offered| ==>
              FRAME_SAMPLES * k + FRAME_SAMPLES <= |heard| &&
              offered[k] == heard[FRAME_SAMPLES * k..FRAME_SAMPLES * k + FRAME_SAMPLES]
    ensures partial == heard[FRAME_SAMPLES * |offered|..]
  {
    hide Flatten;
    assert heard[..|Flatten(offered)|] == Flatten(offered);
    assert |Flatten(offered)| == FRAME_SAMPLES * |offered| by {
      if offered == [] {
        FlattenNothing(offered);
      } else {
        FlattenBlock(offered, FRAME_SAMPLES, 0);
      }
    }
    forall k | 0 <= k < |offered|
      ensures FRAME_SAMPLES * k + FRAME_SAMPLES <= |heard|
      ensures offered[k] == heard[FRAME_SAMPLES * k..FRAME_SAMPLES * k + FRAME_SAMPLES]
    {
      FlattenBlock(offered, FRAME_SAMPLES, k);
    }
  }

  /** The consecutive 960-sample blocks of a sound. */
  function Blocks(sound: seq<real>): seq<Frame> {
    seq(|sound| / FRAME_SAMPLES, k requires 0 <= k < |sound| / FRAME_SAMPLES =>
      sound[FRAME_SAMPLES * k..FRAME_SAMPLES * k + FRAME_SAMPLES])
  }

  /** Playing a piece of the remaining sound keeps the law. */
  lemma PlayedPiece(played: seq<real>, popped: seq<Frame>, piece: seq<real>, rest: seq<real>)
    requires PlaybackLaw(played, popped, piece + rest)
    ensures PlaybackLaw(played + piece, popped, rest)
  {
    assert played + piece + rest == played + (piece + rest);
  }

  /** A popped frame becomes the remaining sound once nothing remained. */
  lemma PoppedFrame(played: seq<real>, popped: seq<Frame>, frame: Frame)
    requires PlaybackLaw(played, popped, []) && |frame| == FRAME_SAMPLES
    ensures PlaybackLaw(played, popped + [frame], frame)
  {
    FlattenAppend(popped, frame);
  }

  /** Answers that accepted a frame. */
  function Accepted(answers: seq<bool>): nat {
    if answers == [] then 0
    else Accepted(answers[..|answers| - 1]) + (if answers[|answers| - 1] then 1 else 0)
  }

  /** One more offer and its answer. */
  lemma OfferedFrame(offered: seq<Frame>, answers: seq<bool>, frame: Frame, ok: bool)
    requires |answers| == |offered| && AllFrames(offered) && |frame| == FRAME_SAMPLES
    ensures AllFrames(offered + [frame])
    ensures Flatten(offered + [frame]) == Flatten(offered) + frame
    ensures Accepted(answers + [ok]) == Accepted(answers) + (if ok then 1 else 0)
    ensures Granted(offered + [frame], answers + [ok]) ==
            Granted(offered, answers) + (if ok then [frame] else [])
  {
    GrantedIgnoresLaterOffers(offered, frame, answers);
    FlattenAppend(offered, frame);
    assert (answers + [ok])[..|answers|] == answers;
  }

  class Callback {
    const captureQueue: Queue<Frame>
    const playbackQueue: Queue<Frame>
    const capturePartial: array<real>
    var capturePartialCount: nat
    var playbackPartial: Frame
    var playbackPartialOffset: nat
    var playbackPartialValid: bool
    var capturedFrames: nat
    var captureOverflows: nat
    var running: bool

    // History of the run.
    ghost var heard: seq<real>          // all input samples
    ghost var offered: seq<Frame>       // frames offered to the capture queue
    ghost var answers: seq<bool>        // the queue's answer to each offer
    ghost var taken: seq<Frame>         // frames the worker has popped
    ghost var mixed: seq<Frame>         // frames the worker has queued for playback
    ghost var popped: seq<Frame>        // frames popped for playback
    ghost var played: seq<real>         // output samples that came from frames

    ghost predicate Separate()
      reads this, captureQueue, playbackQueue
    {
      && captureQueue != playbackQueue
      && captureQueue.slots != playbackQueue.slots
      && capturePartial.Length == FRAME_SAMPLES
    }

    /** The capture state, also at the moment the partial buffer is full. */
    ghost predicate CaptureFilling()
      reads `capturePartialCount, `capturedFrames, `captureOverflows, `heard, `offered, `answers,
            `taken, captureQueue, captureQueue.slots, capturePartial
    {
      && captureQueue.Valid()
      && capturePartialCount <= capturePartial.Length == FRAME_SAMPLES
      && AllFrames(offered)
      && Flatten(offered) + capturePartial[..capturePartialCount] == heard
      && |answers| == |offered|
      && taken + captureQueue.Contents == Granted(offered, answers)
      && capturedFrames == Accepted(answers)
      && capturedFrames + captureOverflows == |offered|
    }

    ghost predicate CaptureOk()
      reads `capturePartialCount, `capturedFrames, `captureOverflows, `heard, `offered, `answers,
            `taken, captureQueue, captureQueue.slots, capturePartial
    {
      CaptureFilling() && capturePartialCount < FRAME_SAMPLES
    }

    /** Between callbacks the counters add up to the whole frames in everything heard, the worker
        has got, or will get from the queue, the blocks the queue accepted, and the partial buffer
        is the tail. */
    lemma CaptureCutsTheInput()
      requires CaptureOk()
      ensures capturedFrames + captureOverflows == |answers| == |heard| / FRAME_SAMPLES
      ensures taken + captureQueue.Contents == Granted(Blocks(heard), answers)
      ensures capturePartial[..capturePartialCount]
           == heard[FRAME_SAMPLES * (|heard| / FRAME_SAMPLES)..]
    {
      hide Flatten, Granted, Accepted;
      FramesAreTheInputBlocks(heard, offered, capturePartial[..capturePartialCount]);
      assert offered == Blocks(heard);
    }

    ghost function Remaining(): seq<real>
      reads `playbackPartial, `playbackPartialOffset, `playbackPartialValid
    {
      if playbackPartialValid && playbackPartialOffset <= |playbackPartial|
      then playbackPartial[playbackPartialOffset..] else []
    }

    ghost predicate PlaybackOk()
      reads `playbackPartial, `playbackPartialOffset, `playbackPartialValid, `mixed, `popped, `played,
            playbackQueue, playbackQueue.slots
    {
      && playbackQueue.Valid()
      && (playbackPartialValid ==>
            |playbackPartial| == FRAME_SAMPLES && playbackPartialOffset < FRAME_SAMPLES)
      && PlaybackLaw(played, popped, Remaining())
      && mixed == popped + playbackQueue.Contents
      && AllFrames(mixed)
    }

    ghost predicate Valid()
      reads this, captureQueue, captureQueue.slots, playbackQueue, playbackQueue.slots,
            capturePartial
    {
      Separate() && CaptureOk() && PlaybackOk()
    }

    constructor ()
      ensures Valid() && heard == [] && played == [] && mixed == [] && running
      ensures CaptureLaw(heard, offered, capturePartial[..capturePartialCount])
    {
      captureQueue := new Queue(QUEUE_CAPACITY);
      playbackQueue := new Queue(QUEUE_CAPACITY);
      capturePartial := new real[FRAME_SAMPLES];
      capturePartialCount, capturedFrames, captureOverflows := 0, 0, 0;
      playbackPartial, playbackPartialOffset, playbackPartialValid := [], 0, false;
      running := true;
      heard, offered, answers, taken, mixed, popped, played := [], [], [], [], [], [], [];
    }

    /** The worker thread, running between two steps of the callback: it takes captured frames. */
    method WorkerTakes()
      requires Separate() && CaptureOk()
      modifies `taken, captureQueue
      ensures CaptureOk() && old(taken) <= taken
      ensures |captureQueue.Contents| <= |old(captureQueue.Contents)|
    {
      hide Queue.Valid;
      var times: nat := *;
      while times > 0
        invariant CaptureOk() && old(taken) <= taken
        invariant |captureQueue.Contents| <= |old(captureQueue.Contents)|
      {
        var ok, frame := captureQueue.Pop();
        if ok {
          taken := taken + [frame];
        }
        times := times - 1;
      }
    }

    /** The worker thread queues mixed frames. */
    method WorkerMixes()
      requires Separate() && PlaybackOk()
      modifies `mixed, playbackQueue, playbackQueue.slots
      ensures PlaybackOk() && old(mixed) <= mixed
    {
      hide Queue.Valid, PlaybackLaw;
      var times: nat := *;
      while times > 0
        invariant PlaybackOk() && old(mixed) <= mixed
      {
        var frame: Frame := *;
        if |frame| == FRAME_SAMPLES {
          var ok := playbackQueue.Push(frame);
          if ok {
            mixed := mixed + [frame];
          }
        }
        times := times - 1;
      }
    }

    /** Offer the full partial buffer to the capture queue and empty it. */
    method OfferFrame()
      requires Separate() && CaptureFilling() && capturePartialCount == FRAME_SAMPLES
      modifies `capturePartialCount, `capturedFrames, `captureOverflows, `offered, `answers,
               captureQueue, captureQueue.slots
      ensures CaptureOk() && capturePartialCount == 0
      ensures offered == old(offered) + [capturePartial[..]]
      ensures captureOverflows == old(captureOverflows)
                + (if |old(captureQueue.Contents)| < captureQueue.slots.Length then 0 else 1)
      ensures |captureQueue.Contents| <= |old(captureQueue.Contents)| + 1
    {
      hide Queue.Valid, Granted, Accepted, Flatten, AllFrames;
      assert capturePartial[..capturePartialCount] == capturePartial[..];
      var frame := capturePartial[..];
      var ok := captureQueue.Push(frame);
      if ok {
        capturedFrames := capturedFrames + 1;
      } else {
        captureOverflows := captureOverflows + 1;
      }
      OfferedFrame(offered, answers, frame, ok);
      offered, answers := offered + [frame], answers + [ok];
      capturePartialCount := 0;
    }

    /** Copy samples into the partial buffer, at most to its end. */
    method Buffer(piece: seq<real>)
      requires Separate() && CaptureOk() && capturePartialCount + |piece| <= FRAME_SAMPLES
      modifies `capturePartialCount, `heard, capturePartial
      ensures capturePartialCount == old(capturePartialCount) + |piece|
      ensures heard == old(heard) + piece
      ensures CaptureFilling()
    {
      hide Queue.Valid, Flatten, AllFrames;
      ghost var before := capturePartial[..capturePartialCount];
      forall i | 0 <= i < |piece| {
        capturePartial[capturePartialCount + i] := piece[i];
      }
      capturePartialCount := capturePartialCount + |piece|;
      assert capturePartial[..capturePartialCount] == before + piece;
      heard := heard + piece;
    }

    /** The capture half of one callback. */
    method Capture(input: seq<real>)
      requires Separate() && CaptureOk()
      modifies `capturePartialCount, `capturedFrames, `captureOverflows, `offered, `answers, `heard,
               `taken, captureQueue, captureQueue.slots, capturePartial
      ensures CaptureOk()
      ensures heard == old(heard) + input
      ensures CaptureLaw(heard, offered, capturePartial[..capturePartialCount])
      ensures old(offered) <= offered && old(taken) <= taken
      ensures captureOverflows > old(captureOverflows) ==>
                |old(captureQueue.Contents)| + |offered| - |old(offered)| > captureQueue.slots.Length
    {
      hide CaptureFilling;
      var offset := 0;
      while offset < |input|
        invariant 0 <= offset <= |input|
        invariant CaptureOk() && capturePartialCount < FRAME_SAMPLES
        invariant heard == old(heard) + input[..offset]
        invariant old(offered) <= offered && old(taken) <= taken
        invariant |captureQueue.Contents| - |old(captureQueue.Contents)| <= |offered| - |old(offered)|
        invariant captureOverflows >= old(captureOverflows)
        invariant captureOverflows > old(captureOverflows) ==>
                    |old(captureQueue.Contents)| + |offered| - |old(offered)|
                    > captureQueue.slots.Length
      {
        var available := FRAME_SAMPLES - capturePartialCount;
        var copyCount := if |input| - offset < available then |input| - offset else available;
        Buffer(input[offset..offset + copyCount]);
        assert input[..offset] + input[offset..offset + copyCount] == input[..offset + copyCount];
        offset := offset + copyCount;
        if capturePartialCount == FRAME_SAMPLES {
          OfferFrame();
          WorkerTakes();
        }
      }
      assert input[..offset] == input;
      LawOfCapture();
    }

    lemma LawOfCapture()
      requires CaptureOk()
      ensures CaptureLaw(heard, offered, capturePartial[..capturePartialCount])
    {
    }

    /** Take the next mixed frame, if there is one, as the frame being played. */
    method NextFrame() returns (ok: bool)
      requires Separate() && PlaybackOk() && !playbackPartialValid
      modifies `playbackPartial, `playbackPartialOffset, `playbackPartialValid, `popped,
               playbackQueue
      ensures PlaybackOk() && ok == playbackPartialValid
      ensures !ok ==> playbackQueue.Contents == []
      ensures old(popped) <= popped
    {
      hide Queue.Valid, PlaybackLaw;
      var frame;
      ok, frame := playbackQueue.Pop();
      if ok {
        assert mixed[|popped|] == frame;
        PoppedFrame(played, popped, frame);
        popped := popped + [frame];
        playbackPartial, playbackPartialOffset, playbackPartialValid := frame, 0, true;
      }
    }

    method CopyOut(output: array<real>, offset: nat, count: nat)
      requires output != capturePartial
      requires offset + count <= output.Length
      requires playbackPartialOffset + count <= |playbackPartial|
      modifies output
      ensures output[..offset] == old(output[..offset])
      ensures output[offset..offset + count]
           == playbackPartial[playbackPartialOffset..playbackPartialOffset + count]
    {
      forall i | 0 <= i < count {
        output[offset + i] := playbackPartial[playbackPartialOffset + i];
      }
    }

    /** Copy the next samples of the frame being played into the output at offset. */
    method Emit(output: array<real>, offset: nat, count: nat)
      requires PlaybackOk() && output != capturePartial && playbackPartialValid
      requires offset + count <= output.Length
      requires playbackPartialOffset + count <= FRAME_SAMPLES
      modifies `playbackPartialOffset, `playbackPartialValid, `played, output
      ensures PlaybackOk()
      ensures output[..offset] == old(output[..offset])
      ensures played == old(played) + output[offset..offset + count]
    {
      hide Queue.Valid, PlaybackLaw, AllFrames;
      ghost var piece := playbackPartial[playbackPartialOffset..playbackPartialOffset + count];
      CopyOut(output, offset, count);
      assert Remaining() == piece + playbackPartial[playbackPartialOffset + count..];
      PlayedPiece(played, popped, piece, playbackPartial[playbackPartialOffset + count..]);
      played := played + piece;
      playbackPartialOffset := playbackPartialOffset + count;
      if playbackPartialOffset == FRAME_SAMPLES {
        playbackPartialValid := false;
      }
    }

    /** Zero the output from offset on. */
    method Silence(output: array<real>, offset: nat)
      requires offset <= output.Length
      modifies output
      ensures output[..offset] == old(output[..offset])
      ensures forall i :: offset <= i < output.Length ==> output[i] == 0.0
    {
      forall i | offset <= i < output.Length {
        output[i] := 0.0;
      }
    }

    /** Fill the output from offset as far as the frame being played reaches. */
    method Continue(output: array<real>, offset: nat) returns (next: nat)
      requires PlaybackOk() && output != capturePartial && playbackPartialValid
      requires offset < output.Length
      modifies `playbackPartialOffset, `playbackPartialValid, `played, output
      ensures PlaybackOk()
      ensures offset < next <= output.Length
      ensures output[..offset] == old(output[..offset])
      ensures played == old(played) + output[offset..next]
    {
      hide Queue.Valid, PlaybackLaw;
      var available := FRAME_SAMPLES - playbackPartialOffset;
      var copyCount :=
        if output.Length - offset < available then output.Length - offset else available;
      Emit(output, offset, copyCount);
      next := offset + copyCount;
    }

    /** The playback half: the first `sound` samples come from frames and the rest is silence,
        written only once the queue has been found empty. */
    method Play(output: array<real>) returns (ghost sound: nat)
      requires Separate() && PlaybackOk() && output != capturePartial
      modifies `playbackPartial, `playbackPartialOffset, `playbackPartialValid, `popped, `played,
               `mixed, playbackQueue, playbackQueue.slots, output
      ensures PlaybackOk()
      ensures sound <= output.Length
      ensures played == old(played) + output[..sound]
      ensures forall i :: sound <= i < output.Length ==> output[i] == 0.0
      ensures sound < output.Length ==> playbackQueue.Contents == [] && !playbackPartialValid
      ensures old(popped) <= popped && old(mixed) <= mixed
    {
      hide PlaybackOk;
      var offset := 0;
      while offset < output.Length
        invariant 0 <= offset <= output.Length
        invariant PlaybackOk()
        invariant played == old(played) + output[..offset]
        invariant old(popped) <= popped && old(mixed) <= mixed
      {
        if !playbackPartialValid {
          WorkerMixes();
          var ok := NextFrame();
          if !ok {
            sound := offset;
            Silence(output, offset);
            return;
          }
        }
        var next := Continue(output, offset);
        Regroup(old(played), output[..offset], output[offset..next]);
        assert output[..next] == output[..offset] + output[offset..next];
        offset := next;
      }
      sound := offset;
    }

    /** One device callback. Either buffer may be missing; a stopped runtime plays silence. */
    method ProcessAudio(output: array?<real>, input: Option<seq<real>>)
      requires Valid() && output != capturePartial
      modifies this, captureQueue, captureQueue.slots, playbackQueue, playbackQueue.slots,
               capturePartial
      modifies if output == null then {} else {output}
      ensures Valid() && running == old(running)
      ensures heard == old(heard) + (if running && input.Some? then input.value else [])
      ensures captureOverflows > old(captureOverflows) ==>
                |old(captureQueue.Contents)| + |offered| - |old(offered)| > captureQueue.slots.Length
      ensures !running && output != null ==>
                played == old(played) && forall i :: 0 <= i < output.Length ==> output[i] == 0.0
      ensures running && output != null ==>
                exists sound: nat :: sound <= output.Length &&
                  played == old(played) + output[..sound] &&
                  (forall i :: sound <= i < output.Length ==> output[i] == 0.0) &&
                  (sound < output.Length ==> playbackQueue.Contents == [])
    {
      hide CaptureOk, PlaybackOk;
      if !running {
        if output != null {
          Silence(output, 0);
        }
        return;
      }
      if input.Some? {
        Capture(input.value);
      }
      if output != null {
        ghost var sound := Play(output);
      }
    }
  }
}
