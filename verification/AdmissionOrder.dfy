/** Which inputs a run of the admission takes: those sent later than every one taken before. */
module AdmissionOrder {
  import opened Serial
  import opened Admission
  import opened Scheduler

  /** The k-th arrival carries number zero, or the number of the input sent as steps[k]-th after some
      first one. */
  ghost predicate AreNumbered(arrivals: seq<Arrival>, start: uint32, steps: seq<nat>) {
    && |steps| == |arrivals|
    && forall k :: 0 <= k < |arrivals| ==> IsNumbered(arrivals[k], start, steps[k])
  }

  predicate IsNumbered(a: Arrival, start: uint32, step: nat) {
    a.sequence == 0 || (step > 0 && a.sequence == Advanced(start, step))
  }

  ghost predicate IsAdmitted(arrivals: seq<Arrival>, k: nat)
    requires k < |arrivals|
  {
    Answer(arrivals, k) == Admitted
  }

  /** The newest input taken among the first n arrivals; 0 when there is none. */
  ghost function Newest(arrivals: seq<Arrival>, steps: seq<nat>, n: nat): nat
    requires |steps| == |arrivals| && n <= |arrivals|
  {
    if n == 0 then 0
    else
      var newest := Newest(arrivals, steps, n - 1);
      if IsAdmitted(arrivals, n - 1) && steps[n - 1] > newest then steps[n - 1] else newest
  }

  lemma {:induction false} NewestIsTheGreatest(arrivals: seq<Arrival>, steps: seq<nat>, n: nat)
    requires |steps| == |arrivals| && n <= |arrivals|
    ensures var newest := Newest(arrivals, steps, n);
            && (forall i :: 0 <= i < n && IsAdmitted(arrivals, i) ==> steps[i] <= newest)
            && (newest == 0
                || exists i :: 0 <= i < n && IsAdmitted(arrivals, i) && steps[i] == newest)
  {
    hide IsAdmitted;
    if n > 0 {
      NewestIsTheGreatest(arrivals, steps, n - 1);
    }
  }

  /** The arrival was sent within half the number space of the newest input taken before it. */
  ghost predicate IsInReach(arrivals: seq<Arrival>, steps: seq<nat>, k: nat)
    requires |steps| == |arrivals| && k < |arrivals|
  {
    var newest := Newest(arrivals, steps, k);
    newest == 0 || -(HALF_WRAP - 1) < steps[k] - newest < HALF_WRAP - 1
  }

  ghost predicate AreInReach(arrivals: seq<Arrival>, steps: seq<nat>, n: nat)
    requires |steps| == |arrivals| && n <= |arrivals|
  {
    forall k :: 0 <= k < n ==> IsInReach(arrivals, steps, k)
  }

  lemma {:induction false} AdvancedTwice(start: uint32, a: nat, b: nat)
    ensures Advanced(Advanced(start, a), b) == Advanced(start, a + b)
  {
    hide NextSequence;
    if b > 0 {
      AdvancedTwice(start, a, b - 1);
    }
  }

  lemma AdvancedIsNotZero(start: uint32, step: nat)
    requires step > 0
    ensures Advanced(start, step) != 0
  {
  }

  /** Within half the space the serial test compares sending order. */
  lemma NewerExactlyWhenLater(start: uint32, a: nat, b: nat)
    requires -(HALF_WRAP - 1) < a - b < HALF_WRAP - 1
    ensures SequenceIsNewer(Advanced(start, a), Advanced(start, b)) <==> a > b
  {
    hide SequenceIsNewer, Advanced;
    if a > b {
      AdvancedTwice(start, b, a - b);
      LaterInputsAreNewer(Advanced(start, b), a - b);
    } else if a < b {
      AdvancedTwice(start, a, b - a);
      LaterInputsAreNewer(Advanced(start, a), b - a);
    } else {
      NotNewerThanItself(Advanced(start, a));
    }
  }

  lemma NotNewerThanItself(n: uint32)
    ensures !SequenceIsNewer(n, n)
  {
  }

  /** What one check remembers and answers about the numbers. */
  lemma CheckOfNumber(b: Bucket, sequence: uint32, nowMs: nat)
    ensures var (after, result) := Checked(b, sequence, nowMs);
            && (result == Admitted ==> after.hasSequence && after.lastSequence == sequence)
            && (result != Admitted ==>
                  after.hasSequence == b.hasSequence && after.lastSequence == b.lastSequence)
            && (result != RejectedRate ==>
                  (result == Admitted <==>
                     sequence != 0
                     && (!b.hasSequence || SequenceIsNewer(sequence, b.lastSequence))))
  {
    hide SequenceIsNewer;
  }

  /** The bucket remembers the newest input taken. */
  ghost predicate Remembers(b: Bucket, start: uint32, newest: nat) {
    if newest == 0 then !b.hasSequence
    else b.hasSequence && b.lastSequence == Advanced(start, newest)
  }

  /** One arrival that is not turned away for rate. */
  lemma OneArrival(arrivals: seq<Arrival>, start: uint32, steps: seq<nat>, k: nat)
    requires AreNumbered(arrivals, start, steps) && k < |arrivals| && IsInReach(arrivals, steps, k)
    requires Remembers(After(arrivals[..k]), start, Newest(arrivals, steps, k))
    ensures Answer(arrivals, k) != RejectedRate ==>
              (IsAdmitted(arrivals, k) <==>
                 arrivals[k].sequence != 0 && steps[k] > Newest(arrivals, steps, k))
    ensures Remembers(After(arrivals[..k + 1]), start, Newest(arrivals, steps, k + 1))
  {
    hide SequenceIsNewer, Advanced, Checked, After;
    AfterOneMore(arrivals, k);
    CheckOfNumber(After(arrivals[..k]), arrivals[k].sequence, arrivals[k].atMs);
    var newest := Newest(arrivals, steps, k);
    assert IsNumbered(arrivals[k], start, steps[k]);
    if arrivals[k].sequence != 0 && newest > 0 {
      NewerExactlyWhenLater(start, steps[k], newest);
    }
  }

  lemma {:induction false} NewestIsRemembered(arrivals: seq<Arrival>, start: uint32,
                                              steps: seq<nat>, n: nat)
    requires AreNumbered(arrivals, start, steps) && n <= |arrivals|
    requires AreInReach(arrivals, steps, n)
    ensures Remembers(After(arrivals[..n]), start, Newest(arrivals, steps, n))
  {
    hide IsNumbered, IsInReach, Remembers, After;
    if n == 0 {
      NothingRemembered(arrivals, start);
    } else {
      NewestIsRemembered(arrivals, start, steps, n - 1);
      OneArrival(arrivals, start, steps, n - 1);
    }
  }

  lemma NothingRemembered(arrivals: seq<Arrival>, start: uint32)
    ensures Remembers(After(arrivals[..0]), start, 0)
  {
    NothingArrivedYet(arrivals);
  }

  /** Over every run of a client's inputs, lost, repeated and reordered within half the number space:
      an arrival that is not turned away for rate is taken exactly when its number is not zero and it
      was sent later than every input taken before it. */
  lemma AdmittedExactlyWhenLater(arrivals: seq<Arrival>, start: uint32, steps: seq<nat>, k: nat)
    requires AreNumbered(arrivals, start, steps) && k < |arrivals|
    requires AreInReach(arrivals, steps, k + 1)
    requires Answer(arrivals, k) != RejectedRate
    ensures Answer(arrivals, k) == Admitted <==>
              && arrivals[k].sequence != 0
              && forall i :: 0 <= i < k && Answer(arrivals, i) == Admitted ==> steps[i] < steps[k]
  {
    hide IsInReach, Answer;
    NewestIsTheGreatest(arrivals, steps, k);
    NewestIsRemembered(arrivals, start, steps, k);
    OneArrival(arrivals, start, steps, k);
    var newest := Newest(arrivals, steps, k);
    assert IsNumbered(arrivals[k], start, steps[k]);
    if newest > 0 && steps[k] <= newest {
      var i :| 0 <= i < k && IsAdmitted(arrivals, i) && steps[i] == newest;
      assert Answer(arrivals, i) == Admitted;
    }
  }

  /** So no input is taken twice, and those taken are in sending order. */
  lemma AdmittedInSendingOrder(arrivals: seq<Arrival>, start: uint32, steps: seq<nat>, i: nat,
                               k: nat)
    requires AreNumbered(arrivals, start, steps) && i < k < |arrivals|
    requires AreInReach(arrivals, steps, k + 1)
    requires Answer(arrivals, i) == Admitted && Answer(arrivals, k) == Admitted
    ensures steps[i] < steps[k]
  {
    AdmittedExactlyWhenLater(arrivals, start, steps, k);
  }

  /** Inputs arriving in the order sent, each less than half the space after the one before. */
  ghost predicate ArriveInOrder(arrivals: seq<Arrival>, start: uint32, steps: seq<nat>) {
    && |steps| == |arrivals|
    && (forall k :: 0 <= k < |arrivals| ==>
          0 < steps[k] && arrivals[k].sequence == Advanced(start, steps[k]))
    && (forall k :: 0 < k < |steps| ==> steps[k - 1] < steps[k] < steps[k - 1] + (HALF_WRAP - 1))
  }

  lemma InOrderIsNumbered(arrivals: seq<Arrival>, start: uint32, steps: seq<nat>)
    requires ArriveInOrder(arrivals, start, steps)
    ensures AreNumbered(arrivals, start, steps)
    ensures forall k :: 0 <= k < |arrivals| ==> arrivals[k].sequence != 0
  {
    hide Advanced;
    forall k | 0 <= k < |arrivals|
      ensures arrivals[k].sequence != 0
    {
      AdvancedIsNotZero(start, steps[k]);
    }
  }

  /** Inputs that arrive in order are all taken, but for those turned away for rate. */
  lemma {:induction false} InOrderIsAdmitted(arrivals: seq<Arrival>, start: uint32,
                                             steps: seq<nat>, n: nat)
    requires ArriveInOrder(arrivals, start, steps) && n <= |arrivals|
    requires NoneRejectedForRate(arrivals, n)
    ensures forall k :: 0 <= k < n ==> Answer(arrivals, k) == Admitted
    ensures AreInReach(arrivals, steps, n)
    ensures Newest(arrivals, steps, n) == if n == 0 then 0 else steps[n - 1]
  {
    hide ArriveInOrder, IsInReach, Answer;
    if n > 0 {
      InOrderIsAdmitted(arrivals, start, steps, n - 1);
      NextInOrder(arrivals, start, steps, n - 1);
    }
  }

  lemma NextInOrder(arrivals: seq<Arrival>, start: uint32, steps: seq<nat>, k: nat)
    requires ArriveInOrder(arrivals, start, steps) && k < |arrivals|
    requires AreInReach(arrivals, steps, k) && Answer(arrivals, k) != RejectedRate
    requires Newest(arrivals, steps, k) == if k == 0 then 0 else steps[k - 1]
    ensures IsInReach(arrivals, steps, k) && Answer(arrivals, k) == Admitted
    ensures Newest(arrivals, steps, k + 1) == steps[k]
  {
    hide Answer, Advanced, AreInReach, AreNumbered;
    InOrderIsNumbered(arrivals, start, steps);
    NewestIsRemembered(arrivals, start, steps, k);
    OneArrival(arrivals, start, steps, k);
  }

  // ----- the client's paced inputs -----

  /** The slots of those inputs that were sent and arrived. */
  ghost function SlotsOf(sent: seq<nat>, got: seq<nat>, slotCount: nat): (slots: seq<nat>)
    requires AreChosen(sent, slotCount) && AreChosen(got, |sent|)
    ensures |slots| == |got| && AreChosen(slots, slotCount)
    ensures forall i :: 0 <= i < |got| ==> slots[i] == sent[got[i]]
  {
    seq(|got|, i requires 0 <= i < |got| => sent[got[i]])
  }

  /** However the frame times fall, wherever the scheduler pauses, whichever sends fail and whichever
      inputs are lost: those that arrive in the order sent within bounded delay variation are all
      taken, each once, also when the numbers wrap. */
  lemma PacedInputsAreAdmitted(events: seq<PaceEvent>, sent: seq<nat>, got: seq<nat>,
                               arrivals: seq<Arrival>, delayMs: real, start: uint32)
    requires AreChosen(sent, |Paced(events).ready|) && AreChosen(got, |sent|)
    requires var ready := Paced(events).ready;
             ArriveInTime(ready, SlotsOf(sent, got, |ready|), arrivals, delayMs)
    requires IsOrdered(arrivals)
    requires forall k :: 0 <= k < |got| ==> arrivals[k].sequence == Advanced(start, got[k] + 1)
    requires forall k :: 0 < k < |got| ==> got[k] < got[k - 1] + (HALF_WRAP - 1)
    ensures forall k :: 0 <= k < |arrivals| ==> Answer(arrivals, k) == Admitted
  {
    hide Answer, Advanced, Paced;
    var slots := SlotsOf(sent, got, |Paced(events).ready|);
    PacedInputsAreNeverRateLimited(events, slots, arrivals, delayMs);
    var steps := seq(|got|, k requires 0 <= k < |got| => got[k] + 1);
    InOrderIsAdmitted(arrivals, start, steps, |arrivals|);
  }

  // ----- the counters -----

  function CountOf(arrivals: seq<Arrival>, n: nat, result: Result): nat
    requires n <= |arrivals|
  {
    if n == 0 then 0
    else CountOf(arrivals, n - 1, result) + (if Answer(arrivals, n - 1) == result then 1 else 0)
  }

  /** The counters are how often each answer was given. */
  lemma {:induction false} CountersCountTheAnswers(arrivals: seq<Arrival>, n: nat)
    requires n <= |arrivals|
    ensures var b := After(arrivals[..n]);
            && b.acceptedCount == CountOf(arrivals, n, Admitted)
            && b.staleCount == CountOf(arrivals, n, RejectedStale)
            && b.rateLimitedCount == CountOf(arrivals, n, RejectedRate)
  {
    hide SequenceIsNewer, After;
    if n == 0 {
      NothingArrivedYet(arrivals);
    } else {
      CountersCountTheAnswers(arrivals, n - 1);
      AfterOneMore(arrivals, n - 1);
    }
  }
}
