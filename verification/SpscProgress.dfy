/** Neither thread of the ring ever waits for the other: a push is over after four steps of its own,
    a pop after five, wherever the other thread stands still. */
module SpscProgress {
  import opened Serial
  import opened SpscRing

  /** The producer's steps among some events. */
  function Produces<T>(events: seq<Event<T>>): nat {
    if events == [] then 0 else (if events[0].Produce? then 1 else 0) + Produces(events[1..])
  }

  /** The consumer's steps among them. */
  function Consumes<T>(events: seq<Event<T>>): nat {
    if events == [] then 0 else (if events[0].Consume? then 1 else 0) + Consumes(events[1..])
  }

  /** The steps a push has left at most. */
  function PushSteps<T>(p: Producer<T>): nat {
    match p
    case Resting => 0
    case LoadedWrite(_, _) => 4
    case LoadedRead(_, _, _) => 3
    case Copying(_, _) => 2
    case Copied(_, _) => 1
  }

  /** The steps a pop has left at most. */
  function PopSteps<T>(c: Consumer<T>): nat {
    match c
    case Waiting => 5
    case HasRead(_) => 4
    case HasBoth(_, _) => 3
    case HalfCopied(_, _) => 2
    case Taken(_, _) => 1
  }

  lemma HistoryGrows<T>(s: State<T>, e: Event<T>)
    requires |s.slots| > 0
    ensures s.answers <= Step(s, e).answers
    ensures s.accepted <= Step(s, e).accepted && s.delivered <= Step(s, e).delivered
  {
    hide SlotIndex, Distance32, Succ32;
  }

  lemma {:induction false} HistoryOnlyGrows<T>(s: State<T>, events: seq<Event<T>>)
    requires |s.slots| > 0
    ensures s.answers <= Run(s, events).answers
    ensures s.accepted <= Run(s, events).accepted && s.delivered <= Run(s, events).delivered
    decreases |events|
  {
    hide Step;
    if events != [] {
      HistoryGrows(s, events[0]);
      HistoryOnlyGrows(Step(s, events[0]), events[1..]);
    }
  }

  // ----- pushes -----

  lemma PushComesCloser<T>(s: State<T>, e: Event<T>)
    requires |s.slots| > 0 && !s.producer.Resting?
    ensures var next := Step(s, e);
            && next.offers == s.offers
            && (e.Produce? && next.producer.Resting? ==> |next.answers| == |s.answers| + 1)
            && (!next.producer.Resting? ==>
                  PushSteps(next.producer) + (if e.Produce? then 1 else 0) == PushSteps(s.producer))
            && (next.producer.Resting? ==> e.Produce?)
  {
    hide SlotIndex, Distance32, Succ32;
  }

  /** Every offer is answered after four steps of the producer, whatever the consumer does or does
      not do. */
  lemma {:induction false} EveryOfferIsAnswered<T>(s: State<T>, events: seq<Event<T>>)
    requires Inv(s) && Produces(events) >= PushSteps(s.producer)
    ensures |Run(s, events).answers| >= |s.offers|
    decreases |events|
  {
    hide Step, Fifo, ConsumerOk, Divides;
    if s.producer.Resting? {
      HistoryOnlyGrows(s, events);
    } else {
      var next := Step(s, events[0]);
      PushComesCloser(s, events[0]);
      StepKeepsInv(s, events[0]);
      if next.producer.Resting? {
        HistoryOnlyGrows(next, events[1..]);
      } else {
        EveryOfferIsAnswered(next, events[1..]);
      }
    }
  }

  /** A push that has seen, or will see, room. */
  predicate WillBeGranted<T>(s: State<T>) {
    match s.producer
    case Resting => false
    case LoadedWrite(_, _) => Unread(s) < |s.slots|
    case LoadedRead(_, w, r) => Distance32(w, r) < |s.slots|
    case Copying(_, _) => true
    case Copied(_, _) => true
  }

  lemma GrantComesCloser<T>(s: State<T>, e: Event<T>)
    requires Inv(s) && WillBeGranted(s)
    ensures var next := Step(s, e);
            if e.Produce? && s.producer.Copied? then next.accepted == s.accepted + [s.producer.item]
            else
              && WillBeGranted(next) && next.producer.item == s.producer.item
              && next.accepted == s.accepted
              && PushSteps(next.producer) + (if e.Produce? then 1 else 0) == PushSteps(s.producer)
  {
    hide SlotIndex, Divides, Distance32, Granted, Succ32;
    WrappedDistance(|s.accepted|, |s.delivered|);
  }

  lemma {:induction false} GrantIsReached<T>(s: State<T>, events: seq<Event<T>>)
    requires Inv(s) && WillBeGranted(s) && Produces(events) >= PushSteps(s.producer)
    ensures s.accepted + [s.producer.item] <= Run(s, events).accepted
    decreases |events|
  {
    hide Step, Inv, WillBeGranted;
    InvHasSlots(s);
    if events != [] {
      var next := Step(s, events[0]);
      GrantComesCloser(s, events[0]);
      StepKeepsInv(s, events[0]);
      InvHasSlots(next);
      if events[0].Produce? && s.producer.Copied? {
        HistoryOnlyGrows(next, events[1..]);
      } else {
        GrantIsReached(next, events[1..]);
      }
    } else {
      NotResting(s);
    }
  }

  lemma InvHasSlots<T>(s: State<T>)
    requires Inv(s)
    ensures |s.slots| > 0
  {
  }

  lemma NotResting<T>(s: State<T>)
    requires WillBeGranted(s)
    ensures PushSteps(s.producer) > 0
  {
  }

  /** A push that finds room is granted within four steps of its own, in every interleaving. */
  lemma PushWithRoomIsGranted<T>(s: State<T>, item: T, events: seq<Event<T>>)
    requires Inv(s) && s.producer.Resting? && Unread(s) < |s.slots| && Produces(events) >= 4
    ensures s.accepted + [item] <= Run(s, [Offer(item)] + events).accepted
  {
    hide Inv, Run;
    InvHasSlots(s);
    var next, all := Step(s, Offer(item)), [Offer(item)] + events;
    StepKeepsInv(s, Offer(item));
    assert all[1..] == events;
    OneStepFirst(s, all);
    GrantIsReached(next, events);
  }

  lemma OneStepFirst<T>(s: State<T>, events: seq<Event<T>>)
    requires |s.slots| > 0 && events != []
    ensures Run(s, events) == Run(Step(s, events[0]), events[1..])
  {
  }

  // ----- pops -----

  /** A pop that has seen, or will see, an item. */
  predicate WillDeliver<T>(s: State<T>) {
    match s.consumer
    case Waiting => Unread(s) > 0
    case HasRead(_) => Unread(s) > 0
    case HasBoth(r, w) => r != w
    case HalfCopied(_, _) => true
    case Taken(_, _) => true
  }

  lemma DeliveryComesCloser<T>(s: State<T>, e: Event<T>)
    requires Inv(s) && WillDeliver(s)
    ensures var next := Step(s, e);
            if e.Consume? && s.consumer.Taken? then |next.delivered| == |s.delivered| + 1
            else
              && WillDeliver(next) && next.delivered == s.delivered
              && PopSteps(next.consumer) + (if e.Consume? then 1 else 0) == PopSteps(s.consumer)
  {
    hide SlotIndex, Divides, Granted;
    WrappedDistance(|s.accepted|, |s.delivered|);
    DistanceToItself(s.readIndex);
  }

  lemma {:induction false} DeliveryIsReached<T>(s: State<T>, events: seq<Event<T>>)
    requires Inv(s) && WillDeliver(s) && Consumes(events) >= PopSteps(s.consumer)
    ensures |Run(s, events).delivered| > |s.delivered|
    decreases |events|
  {
    hide Step, Inv, WillDeliver;
    InvHasSlots(s);
    if events != [] {
      var next := Step(s, events[0]);
      DeliveryComesCloser(s, events[0]);
      StepKeepsInv(s, events[0]);
      InvHasSlots(next);
      if events[0].Consume? && s.consumer.Taken? {
        HistoryOnlyGrows(next, events[1..]);
      } else {
        DeliveryIsReached(next, events[1..]);
      }
    }
  }

  /** A pop that finds an item has delivered the oldest one after five steps of its own, in every
      interleaving. */
  lemma PopOfAnItemDelivers<T>(s: State<T>, events: seq<Event<T>>)
    requires Inv(s) && s.consumer.Waiting? && Unread(s) > 0 && Consumes(events) >= 5
    ensures s.delivered + [Full(s.accepted[|s.delivered|])] <= Run(s, events).delivered
  {
    hide ProducerOk, ConsumerOk, SlotIndex, Divides, Granted;
    DeliveryIsReached(s, events);
    RunKeepsInv(s, events);
    HistoryOnlyGrows(s, events);
    var n, end := |s.delivered|, Run(s, events);
    assert end.delivered[n] == Full(end.accepted[n]) && end.accepted[n] == s.accepted[n];
  }
}
