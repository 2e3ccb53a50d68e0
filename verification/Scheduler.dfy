/** The client's input pacing: a time accumulator that opens one slot per thirtieth of a second,
    and a ring of one-shot actions, each sent with the slot that has room for it. */
module Scheduler {
  import opened Sequences
  import opened Serial
  import opened Admission

  const INTERVAL: real := 1.0 / 30.0
  const ACTION_CAPACITY: nat := 16

  datatype Action = Action(split: bool, eject: bool, directionX: real, directionY: real,
                           focusedEntityId: uint32, intentId: nat)

  const NO_ACTION := Action(false, false, 0.0, 0.0, 0, 0)

  // ----- the clock -----

  /** The whole intervals in an amount of accumulated time. */
  function SlotsIn(seconds: real): nat
    requires seconds >= 0.0
  {
    (seconds / INTERVAL).Floor
  }

  lemma SlotsInBounds(seconds: real)
    requires seconds >= 0.0
    ensures SlotsIn(seconds) as real * INTERVAL <= seconds < (SlotsIn(seconds) + 1) as real * INTERVAL
  {
  }

  // ----- the action ring -----

  /** The items of a ring, from its head on. */
  function RingItems(cells: seq<Action>, head: nat, count: nat): (items: seq<Action>)
    requires head < |cells| == ACTION_CAPACITY && count <= ACTION_CAPACITY
    ensures |items| == count
    ensures count > 0 ==> items[0] == cells[head]
  {
    seq(count, i requires 0 <= i < count => cells[(head + i) % ACTION_CAPACITY])
  }

  lemma RingPush(cells: seq<Action>, head: nat, count: nat, a: Action)
    requires head < |cells| == ACTION_CAPACITY && count < ACTION_CAPACITY
    ensures RingItems(cells[(head + count) % ACTION_CAPACITY := a], head, count + 1) ==
            RingItems(cells, head, count) + [a]
  {
  }

  lemma RingPop(cells: seq<Action>, head: nat, count: nat)
    requires head < |cells| == ACTION_CAPACITY && 0 < count <= ACTION_CAPACITY
    ensures RingItems(cells, (head + 1) % ACTION_CAPACITY, count - 1) ==
            RingItems(cells, head, count)[1..]
  {
    var fewer := RingItems(cells, (head + 1) % ACTION_CAPACITY, count - 1);
    var rest := RingItems(cells, head, count)[1..];
    forall i | 0 <= i < count - 1
      ensures fewer[i] == rest[i]
    {
      NextCell(head, i);
    }
  }

  lemma NextCell(head: nat, i: nat)
    ensures ((head + 1) % ACTION_CAPACITY + i) % ACTION_CAPACITY == (head + (i + 1)) % ACTION_CAPACITY
  {
  }

  /** Accepted actions are the committed ones and then the queued ones, numbered without a gap. */
  ghost predicate IsLedger(queued: seq<Action>, lastId: nat, accepted: seq<Action>,
                           committed: seq<Action>) {
    && accepted == committed + queued && |queued| <= lastId
    && forall i :: 0 <= i < |queued| ==> queued[i].intentId == lastId - |queued| + 1 + i
  }

  lemma LedgerPush(queued: seq<Action>, lastId: nat, accepted: seq<Action>,
                   committed: seq<Action>, a: Action)
    requires IsLedger(queued, lastId, accepted, committed) && a.intentId == lastId + 1
    ensures IsLedger(queued + [a], lastId + 1, accepted + [a], committed)
  {
  }

  lemma LedgerPop(queued: seq<Action>, lastId: nat, accepted: seq<Action>, committed: seq<Action>)
    requires IsLedger(queued, lastId, accepted, committed) && queued != []
    ensures queued[0].intentId > 0
    ensures IsLedger(queued[1..], lastId, accepted, committed + [queued[0]])
  {
  }

  // ----- the pace -----

  /** The clock as a value: the time that has passed, and the moments at which a slot became
      ready. */
  datatype Pace = Pace(accumulator: real, now: real, ready: seq<real>)

  const AT_REST := Pace(0.0, 0.0, [])

  /** Time passing while gameplay input can be sent. */
  function Ticked(p: Pace, deltaTime: real): Pace
    requires p.accumulator >= 0.0
  {
    var total := p.accumulator + deltaTime;
    var now := p.now + deltaTime;
    if deltaTime <= 0.0 then p
    else if total < INTERVAL then Pace(total, now, p.ready)
    else Pace(total - SlotsIn(total) as real * INTERVAL, now, p.ready + [now])
  }

  /** Time passing while it cannot: timing starts afresh. */
  function Paused(p: Pace, deltaTime: real): Pace {
    Pace(0.0, if deltaTime > 0.0 then p.now + deltaTime else p.now, p.ready)
  }

  /** Ready slots since the k-th one never outrun the time that has passed by a whole interval. */
  ghost predicate IsPaced(p: Pace) {
    && 0.0 <= p.accumulator < INTERVAL
    && (forall k :: 0 <= k < |p.ready| ==>
          (|p.ready| - 1 - k) as real * INTERVAL + p.accumulator < INTERVAL + (p.now - p.ready[k]))
    && SpacedOut(p.ready)
  }

  /** Over any span T of time at most 30 T + 1 slots become ready after the first one. */
  ghost predicate SpacedOut(times: seq<real>) {
    forall k, m :: 0 <= k <= m < |times| ==>
      (m - k) as real * INTERVAL < INTERVAL + (times[m] - times[k])
  }

  lemma TickKeepsPace(p: Pace, deltaTime: real)
    requires IsPaced(p)
    ensures IsPaced(Ticked(p, deltaTime))
  {
    var total := p.accumulator + deltaTime;
    var p' := Ticked(p, deltaTime);
    if deltaTime > 0.0 && total >= INTERVAL {
      SlotsInBounds(total);
      assert SlotsIn(total) >= 1;
      forall k | 0 <= k < |p'.ready|
        ensures (|p'.ready| - 1 - k) as real * INTERVAL + p'.accumulator
                < INTERVAL + (p'.now - p'.ready[k])
      {
        if k < |p.ready| {
          assert p'.ready[k] == p.ready[k];
        }
      }
    }
  }

  lemma PauseKeepsPace(p: Pace, deltaTime: real)
    requires IsPaced(p)
    ensures IsPaced(Paused(p, deltaTime))
  {
  }

  /** A frame of the client, with input that can be sent or not. */
  datatype PaceEvent = Tick(deltaTime: real) | Rest(deltaTime: real)

  function PaceAfter(p: Pace, e: PaceEvent): Pace
    requires p.accumulator >= 0.0
  {
    match e
    case Tick(deltaTime) => Ticked(p, deltaTime)
    case Rest(deltaTime) => Paused(p, deltaTime)
  }

  /** The pace of a run of frames with pauses anywhere. */
  function Paced(events: seq<PaceEvent>): (p: Pace)
    ensures IsPaced(p)
  {
    if events == [] then AT_REST
    else
      var before, last := Paced(events[..|events| - 1]), events[|events| - 1];
      TickKeepsPace(before, last.deltaTime);
      PauseKeepsPace(before, last.deltaTime);
      PaceAfter(before, last)
  }

  class InputScheduler {
    var accumulator: real
    const queue: array<Action>
    var head: nat
    var count: nat
    var nextIntentId: nat
    var sentCount: nat
    var suppressedCount: nat
    var overflowCount: nat

    // History since the last pause.
    ghost var accepted: seq<Action>
    ghost var committed: seq<Action>
    ghost var elapsed: real
    ghost var slots: nat               // ready slots, plus slots suppressed as catch-up

    // The clock since the start, through every pause.
    ghost var pace: Pace

    ghost function Queued(): seq<Action>
      requires head < queue.Length == ACTION_CAPACITY && count <= ACTION_CAPACITY
      reads `head, `count, queue
    {
      RingItems(queue[..], head, count)
    }

    ghost predicate RingOk()
      reads `head, `count, `nextIntentId, `accepted, `committed, queue
    {
      && head < queue.Length == ACTION_CAPACITY && count <= ACTION_CAPACITY
      && IsLedger(Queued(), nextIntentId, accepted, committed)
    }

    ghost predicate ClockOk()
      reads `accumulator, `elapsed, `slots, `pace
    {
      && 0.0 <= accumulator < INTERVAL && elapsed == slots as real * INTERVAL + accumulator
      && accumulator == pace.accumulator && IsPaced(pace)
    }

    ghost predicate Valid()
      reads this, queue
    {
      RingOk() && ClockOk()
    }

    constructor ()
      ensures Valid() && accepted == [] && committed == [] && elapsed == 0.0 && slots == 0
      ensures pace == AT_REST
    {
      queue := new Action[ACTION_CAPACITY](_ => NO_ACTION);
      accumulator, head, count, nextIntentId := 0.0, 0, 0, 0;
      sentCount, suppressedCount, overflowCount := 0, 0, 0;
      accepted, committed, elapsed, slots, pace := [], [], 0.0, 0, AT_REST;
    }

    /** Gameplay stopped: drop what is queued and start timing afresh. The time of the frame passes
        all the same. */
    method Pause(ghost deltaTime: real)
      requires Valid()
      modifies this
      ensures pace == Paused(old(pace), deltaTime)
      ensures Valid() && accepted == [] && committed == [] && elapsed == 0.0 && slots == 0
      ensures nextIntentId == old(nextIntentId) && sentCount == old(sentCount)
      ensures suppressedCount == old(suppressedCount) && overflowCount == old(overflowCount)
    {
      hide IsPaced;
      PauseKeepsPace(pace, deltaTime);
      accumulator, head, count := 0.0, 0, 0;
      accepted, committed, elapsed, slots, pace := [], [], 0.0, 0, Paused(pace, deltaTime);
    }

    method Write(i: nat, action: Action)
      requires i < queue.Length
      modifies queue
      ensures queue[..] == old(queue[..])[i := action]
    {
      queue[i] := action;
    }

    method QueueActions(split: bool, eject: bool, directionX: real, directionY: real,
                        focusedEntityId: uint32) returns (ok: bool)
      requires Valid()
      modifies `head, `count, `nextIntentId, `overflowCount, `accepted, queue
      ensures Valid()
      ensures ok <==> (split || eject) && old(count) < ACTION_CAPACITY
      ensures accepted == old(accepted) +
                (if ok then [Action(split, eject, directionX, directionY, focusedEntityId,
                                    old(nextIntentId) + 1)] else [])
      ensures overflowCount == old(overflowCount) + (if (split || eject) && !ok then 1 else 0)
    {
      hide ClockOk, IsLedger, RingItems;
      if !split && !eject {
        return false;
      }
      if count >= ACTION_CAPACITY {
        overflowCount := overflowCount + 1;
        return false;
      }
      nextIntentId := nextIntentId + 1;
      var tail := (head + count) % ACTION_CAPACITY;
      var action := Action(split, eject, directionX, directionY, focusedEntityId, nextIntentId);
      RingPush(queue[..], head, count, action);
      LedgerPush(Queued(), nextIntentId - 1, accepted, committed, action);
      Write(tail, action);
      count := count + 1;
      accepted := accepted + [action];
      ok := true;
    }

    /** Let time pass. A slot that becomes ready offers the head of the queue, if there is one. */
    method Prepare(deltaTime: real) returns (ready: bool, action: Action)
      requires Valid()
      modifies `accumulator, `suppressedCount, `elapsed, `slots, `pace
      ensures Valid()
      ensures pace == Ticked(old(pace), deltaTime)
      ensures |pace.ready| == |old(pace).ready| + (if ready then 1 else 0)
      ensures elapsed == old(elapsed) + (if deltaTime > 0.0 then deltaTime else 0.0)
      ensures ready <==> deltaTime > 0.0 && old(accumulator) + deltaTime >= INTERVAL
      ensures slots - old(slots) == (if ready then 1 + suppressedCount - old(suppressedCount) else 0)
      ensures !ready ==> suppressedCount == old(suppressedCount)
      ensures action == if ready && Queued() != [] then Queued()[0] else NO_ACTION
    {
      hide IsPaced, RingItems, IsLedger;
      action := NO_ACTION;
      TickKeepsPace(pace, deltaTime);
      pace := Ticked(pace, deltaTime);
      if deltaTime <= 0.0 {
        return false, action;
      }
      accumulator := accumulator + deltaTime;
      elapsed := elapsed + deltaTime;
      if accumulator < INTERVAL {
        return false, action;
      }
      var elapsedSlots := SlotsIn(accumulator);
      SlotsInBounds(accumulator);
      if elapsedSlots > 1 {
        suppressedCount := suppressedCount + elapsedSlots - 1;
      }
      accumulator := accumulator - elapsedSlots as real * INTERVAL;
      slots := slots + elapsedSlots;
      if count > 0 {
        action := queue[head];
      }
      ready := true;
    }

    /** The input left the client: its action, if it is still the head, is done. */
    method Commit(action: Action)
      requires Valid()
      modifies `head, `count, `sentCount, `committed
      ensures Valid()
      ensures sentCount == old(sentCount) + 1
      ensures old(Queued()) != [] && action.intentId == old(Queued())[0].intentId ==>
                committed == old(committed) + [old(Queued())[0]]
      ensures !(old(Queued()) != [] && action.intentId == old(Queued())[0].intentId) ==>
                committed == old(committed)
    {
      hide ClockOk, IsLedger, RingItems;
      if count > 0 {
        RingPop(queue[..], head, count);
        LedgerPop(Queued(), nextIntentId, accepted, committed);
      }
      if action.intentId != 0 && count > 0 && queue[head].intentId == action.intentId {
        committed := committed + [queue[head]];
        head := (head + 1) % ACTION_CAPACITY;
        count := count - 1;
      }
      sentCount := sentCount + 1;
    }

    /** One pass of the client's network update while gameplay input can be sent: queue what the
        player asked for, let time pass, and send an input if a slot is ready. An action is done
        only once its input has been sent; after a failed send the same head is offered again. */
    method Update(split: bool, eject: bool, directionX: real, directionY: real,
                  focusedEntityId: uint32, deltaTime: real, lastSequence: uint32, sendWorks: bool)
      returns (sent: bool, action: Action, sequence: uint32)
      requires Valid()
      modifies this, queue
      ensures Valid()
      ensures old(accepted) <= accepted
      ensures pace == Ticked(old(pace), deltaTime)
      ensures sent <==> sendWorks && |pace.ready| == |old(pace).ready| + 1
      ensures sentCount == old(sentCount) + (if sent then 1 else 0)
      ensures sent ==> sequence == NextSequence(lastSequence)
      ensures !sent ==> sequence == lastSequence && committed == old(committed)
      ensures sent && action != NO_ACTION ==> committed == old(committed) + [action]
      ensures sent && action == NO_ACTION ==> committed == old(committed) == accepted
    {
      var queued := QueueActions(split, eject, directionX, directionY, focusedEntityId);
      var ready, offered := Prepare(deltaTime);
      sent, action, sequence := false, NO_ACTION, lastSequence;
      if ready && sendWorks {
        sent, action, sequence := true, offered, NextSequence(lastSequence);
        assert Queued() == [] ==> accepted == committed;
        Commit(offered);
      }
    }

    /** The part of a network update that deals with input: an update of the scheduler while input
        can be sent, and a pause otherwise. */
    method Frame(canSend: bool, split: bool, eject: bool, directionX: real, directionY: real,
                 focusedEntityId: uint32, deltaTime: real, lastSequence: uint32, sendWorks: bool)
      returns (sent: bool, sequence: uint32)
      requires Valid()
      modifies this, queue
      ensures Valid()
      ensures pace == PaceAfter(old(pace), if canSend then Tick(deltaTime) else Rest(deltaTime))
      ensures sent <==> sendWorks && |pace.ready| == |old(pace).ready| + 1
      ensures sentCount == old(sentCount) + (if sent then 1 else 0)
      ensures sent ==> canSend && sequence == NextSequence(lastSequence)
      ensures !sent ==> sequence == lastSequence
      ensures !canSend ==> accepted == [] && committed == []
    {
      hide IsPaced, RingItems;
      sent, sequence := false, lastSequence;
      if canSend {
        var action;
        sent, action, sequence := Update(split, eject, directionX, directionY, focusedEntityId,
                                         deltaTime, lastSequence, sendWorks);
      } else {
        Pause(deltaTime);
      }
    }
  }

  // ----- pacing and the server's bucket -----

  /** The slots at some increasing positions: sends may fail and packets may be lost. */
  ghost predicate AreChosen(chosen: seq<nat>, slotCount: nat) {
    && (forall i :: 0 <= i < |chosen| ==> chosen[i] < slotCount)
    && (forall i, j :: 0 <= i < j < |chosen| ==> chosen[i] < chosen[j])
  }

  lemma {:induction false} ChosenGap(chosen: seq<nat>, slotCount: nat, i: nat, j: nat)
    requires AreChosen(chosen, slotCount) && i <= j < |chosen|
    ensures chosen[j] - chosen[i] >= j - i
    decreases j
  {
    if i < j {
      ChosenGap(chosen, slotCount, i, j - 1);
    }
  }

  const MAX_VARIATION_MS: nat := 266

  /** The inputs of a run reach the server within a fixed delay plus at most 266 ms. */
  ghost predicate ArriveInTime(ready: seq<real>, chosen: seq<nat>, arrivals: seq<Arrival>,
                               delayMs: real)
    requires AreChosen(chosen, |ready|)
  {
    && |arrivals| == |chosen|
    && forall i :: 0 <= i < |chosen| ==>
         1000.0 * ready[chosen[i]] + delayMs <= arrivals[i].atMs as real
         <= 1000.0 * ready[chosen[i]] + delayMs + MAX_VARIATION_MS as real
  }

  /** However the frame times fall, wherever the scheduler pauses, whichever inputs are lost: those
      that arrive in order within bounded delay variation are never turned away for rate. */
  lemma PacedInputsAreNeverRateLimited(events: seq<PaceEvent>, chosen: seq<nat>,
                                       arrivals: seq<Arrival>, delayMs: real)
    requires AreChosen(chosen, |Paced(events).ready|)
    requires ArriveInTime(Paced(events).ready, chosen, arrivals, delayMs)
    requires IsOrdered(arrivals)
    ensures NoneRejectedForRate(arrivals, |arrivals|)
  {
    var ready := Paced(events).ready;
    forall i, k | 0 <= i <= k < |arrivals|
      ensures TOKEN_MILLI * (k - i + 1)
              <= CAPACITY_MILLI + RATE_HZ * (arrivals[k].atMs - arrivals[i].atMs)
    {
      ChosenGap(chosen, |ready|, i, k);
      SpanOfSlots(ready, chosen[i], chosen[k]);
      SpanOfArrivals(k - i, 1000.0 * (ready[chosen[k]] - ready[chosen[i]]),
                     arrivals[k].atMs - arrivals[i].atMs);
    }
    NothingRejectedExactlyWhenConforming(arrivals);
  }

  lemma SpanOfSlots(ready: seq<real>, a: nat, b: nat)
    requires SpacedOut(ready) && a <= b < |ready|
    ensures (b - a) as real * 1000.0 - 1000.0 < 30.0 * (1000.0 * (ready[b] - ready[a]))
  {
  }

  lemma SpanOfArrivals(gap: nat, sentSpan: real, span: int)
    requires gap as real * 1000.0 - 1000.0 < 30.0 * sentSpan
    requires sentSpan - MAX_VARIATION_MS as real <= span as real
    ensures TOKEN_MILLI * (gap + 1) <= CAPACITY_MILLI + RATE_HZ * span
  {
    assert 30.0 * sentSpan <= 30.0 * span as real + 7980.0;
    assert gap as real * 1000.0 - 1000.0 < (30 * span + 7980) as real;
    assert (gap * 1000 - 1000) as real < (30 * span + 7980) as real;
  }
}
