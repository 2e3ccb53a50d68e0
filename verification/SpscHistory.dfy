/** Why the voice code may treat a ring as one queue: every interleaving of the two threads' steps is
    a history of whole pushes and pops, each taking effect at one of its own steps. */
module SpscHistory {
  import opened Serial
  import opened SpscRing

  /** A whole operation with its outcome. */
  datatype Op<T> = Pushed(item: T) | Refused(item: T) | Popped(item: T) | FoundEmpty

  datatype Outcome<T> = Nothing | Done(op: Op<T>)

  /** The operation that takes effect at a step: a push when it publishes its item, or when it loads
      the read index of a full ring; a pop when it gives its slot back, or when it loads the write
      index of an empty ring. */
  function Effect<T>(s: State<T>, e: Event<T>): Outcome<T>
    requires |s.slots| > 0
  {
    if e.Produce? then
      match s.producer
      case Copied(item, w) => Done(Pushed(item))
      case LoadedWrite(item, w) =>
        if Distance32(w, s.readIndex) >= |s.slots| then Done(Refused(item)) else Nothing
      case _ => Nothing
    else if e.Consume? then
      match s.consumer
      case Taken(r, got) => if got.Full? then Done(Popped(got.item)) else Nothing
      case HasRead(r) => if r == s.writeIndex then Done(FoundEmpty) else Nothing
      case _ => Nothing
    else Nothing
  }

  function Noted<T>(ops: seq<Op<T>>, o: Outcome<T>): seq<Op<T>> {
    if o.Done? then ops + [o.op] else ops
  }

  /** The operations of a run, in the order in which they take effect. */
  function Ops<T(==)>(capacity: nat, events: seq<Event<T>>): seq<Op<T>>
    requires capacity > 0
  {
    if events == [] then []
    else
      var front, last := events[..|events| - 1], events[|events| - 1];
      Noted(Ops(capacity, front), Effect(After(capacity, front), last))
  }

  function After<T(==)>(capacity: nat, events: seq<Event<T>>): (s: State<T>)
    requires capacity > 0
    ensures |s.slots| == capacity
  {
    if events == [] then Start(capacity)
    else Step(After(capacity, events[..|events| - 1]), events[|events| - 1])
  }

  lemma {:induction false} RunIsAfter<T>(capacity: nat, done: seq<Event<T>>, events: seq<Event<T>>)
    requires capacity > 0
    ensures Run(After(capacity, done), events) == After(capacity, done + events)
    decreases |events|
  {
    hide Step;
    if events == [] {
      assert done + events == done;
    } else {
      var next := done + [events[0]];
      assert next[..|done|] == done;
      assert done + events == next + events[1..];
      RunIsAfter(capacity, next, events[1..]);
    }
  }

  // ----- one queue -----

  /** Whether a queue with these contents would answer in this way. */
  predicate IsLegal<T(==)>(capacity: nat, contents: seq<T>, op: Op<T>) {
    match op
    case Pushed(_) => |contents| < capacity
    case Refused(_) => |contents| >= capacity
    case Popped(item) => contents != [] && contents[0] == item
    case FoundEmpty => contents == []
  }

  function Applied<T>(contents: seq<T>, op: Op<T>): seq<T> {
    match op
    case Pushed(item) => contents + [item]
    case Popped(_) => if contents == [] then [] else contents[1..]
    case _ => contents
  }

  function ContentsAfter<T>(ops: seq<Op<T>>): seq<T> {
    if ops == [] then [] else Applied(ContentsAfter(ops[..|ops| - 1]), ops[|ops| - 1])
  }

  ghost predicate IsHistory<T>(capacity: nat, ops: seq<Op<T>>) {
    forall i :: 0 <= i < |ops| ==> IsLegal(capacity, ContentsAfter(ops[..i]), ops[i])
  }

  /** The answers to the pushes, and the items of the pops. */
  function Answers<T>(ops: seq<Op<T>>): seq<bool> {
    if ops == [] then []
    else
      var last := ops[|ops| - 1];
      Answers(ops[..|ops| - 1])
      + (if last.Pushed? then [true] else if last.Refused? then [false] else [])
  }

  function Deliveries<T>(ops: seq<Op<T>>): seq<Slot<T>> {
    if ops == [] then []
    else
      var last := ops[|ops| - 1];
      Deliveries(ops[..|ops| - 1]) + (if last.Popped? then [Full(last.item)] else [])
  }

  lemma OneMoreOp<T>(capacity: nat, ops: seq<Op<T>>, op: Op<T>)
    ensures ContentsAfter(ops + [op]) == Applied(ContentsAfter(ops), op)
    ensures Answers(ops + [op]) == Answers(ops)
              + (if op.Pushed? then [true] else if op.Refused? then [false] else [])
    ensures Deliveries(ops + [op]) == Deliveries(ops) + (if op.Popped? then [Full(op.item)] else [])
    ensures IsHistory(capacity, ops) && IsLegal(capacity, ContentsAfter(ops), op) ==>
              IsHistory(capacity, ops + [op])
  {
    hide IsLegal, Applied;
    var all := ops + [op];
    assert all[..|ops|] == ops;
    assert forall i :: 0 <= i < |ops| ==> all[..i] == ops[..i] && all[i] == ops[i];
  }

  // ----- the ring is that queue -----

  /** The unread items. */
  function Contents<T>(s: State<T>): seq<T>
    requires |s.delivered| <= |s.accepted|
  {
    s.accepted[|s.delivered|..]
  }

  /** A refusal already decided, whose answer is still to be given. */
  function PendingAnswer<T>(s: State<T>): seq<bool>
    requires |s.slots| > 0
  {
    if s.producer.LoadedRead? && Distance32(s.producer.w, s.producer.r) >= |s.slots| then [false]
    else []
  }

  /** The run so far is a history of one queue, with the same contents, answers and deliveries. */
  ghost predicate Agrees<T>(s: State<T>, ops: seq<Op<T>>) {
    && Inv(s) && IsHistory(|s.slots|, ops)
    && ContentsAfter(ops) == Contents(s)
    && Answers(ops) == s.answers + PendingAnswer(s)
    && Deliveries(ops) == s.delivered
  }

  lemma ProduceIsOneOp<T>(s: State<T>)
    requires Inv(s)
    ensures Inv(ProduceStep(s))
    ensures var s', o := ProduceStep(s), Effect(s, Produce);
            && s'.delivered == s.delivered
            && (o.Nothing? ==> Contents(s') == Contents(s)
                               && s'.answers + PendingAnswer(s') == s.answers + PendingAnswer(s))
            && (o.Done? ==>
                  && (o.op.Pushed? || o.op.Refused?)
                  && IsLegal(|s.slots|, Contents(s), o.op)
                  && Contents(s') == Applied(Contents(s), o.op)
                  && s'.answers + PendingAnswer(s')
                     == s.answers + PendingAnswer(s) + [o.op.Pushed?])
  {
    hide SlotIndex, Inv, Distance32, Succ32;
    InvBounds(s);
    ProduceKeepsInv(s);
    ProducerKnows(s);
    assert s.answers + [] == s.answers;
  }

  lemma ProducerKnows<T>(s: State<T>)
    requires Inv(s)
    ensures |s.delivered| <= |s.accepted| && |s.slots| > 0
    ensures s.producer.LoadedWrite? ==>
              Distance32(s.producer.w, s.readIndex) == |Contents(s)|
    ensures s.producer.Copied? ==> |Contents(s)| < |s.slots|
  {
    hide SlotIndex, Divides, Distance32, ConsumerOk;
    WrappedDistance(|s.accepted|, |s.delivered|);
  }

  lemma ConsumeIsOneOp<T>(s: State<T>)
    requires Inv(s)
    ensures Inv(ConsumeStep(s))
    ensures var s', o := ConsumeStep(s), Effect(s, Consume);
            && s'.answers == s.answers && PendingAnswer(s') == PendingAnswer(s)
            && (o.Nothing? ==> Contents(s') == Contents(s) && s'.delivered == s.delivered)
            && (o.Done? ==>
                  && (o.op.Popped? || o.op.FoundEmpty?)
                  && IsLegal(|s.slots|, Contents(s), o.op)
                  && Contents(s') == Applied(Contents(s), o.op)
                  && s'.delivered == s.delivered + (if o.op.Popped? then [Full(o.op.item)] else []))
  {
    hide SlotIndex, Inv, Succ32, Distance32;
    InvBounds(s);
    ConsumeKeepsInv(s);
    ConsumerKnows(s);
  }

  lemma ConsumerKnows<T>(s: State<T>)
    requires Inv(s)
    ensures |s.delivered| <= |s.accepted|
    ensures s.consumer.Taken? ==>
              Contents(s) != [] && s.consumer.got == Full(Contents(s)[0])
    ensures s.consumer.HasRead? ==> (s.consumer.r == s.writeIndex <==> Contents(s) == [])
  {
    hide SlotIndex, Divides, Succ32, ProducerOk;
    WrappedDistance(|s.accepted|, |s.delivered|);
  }

  lemma StepAgrees<T>(s: State<T>, e: Event<T>, ops: seq<Op<T>>)
    requires Agrees(s, ops)
    ensures Agrees(Step(s, e), Noted(ops, Effect(s, e)))
  {
    hide Inv, IsHistory, IsLegal, Applied, Distance32, ProduceStep, ConsumeStep;
    InvBounds(s);
    StepKeepsInv(s, e);
    var o := Effect(s, e);
    if o.Done? {
      OneMoreOp(|s.slots|, ops, o.op);
    }
    match e
    case Offer(_) =>
    case Produce => ProduceIsOneOp(s);
    case Consume => ConsumeIsOneOp(s);
  }

  lemma InvBounds<T>(s: State<T>)
    requires Inv(s)
    ensures |s.slots| > 0 && |s.delivered| <= |s.accepted|
  {
  }

  lemma {:induction false} RunAgrees<T>(capacity: nat, events: seq<Event<T>>)
    requires GoodCapacity(capacity)
    ensures Agrees(After(capacity, events), Ops(capacity, events))
  {
    hide Step, Agrees, Effect, Divides;
    if events == [] {
      StartAgrees<T>(capacity);
    } else {
      var front, last := events[..|events| - 1], events[|events| - 1];
      RunAgrees(capacity, front);
      StepAgrees(After(capacity, front), last, Ops(capacity, front));
    }
  }

  lemma StartAgrees<T>(capacity: nat)
    requires GoodCapacity(capacity)
    ensures Agrees(Start<T>(capacity), [])
  {
    hide Divides;
  }

  /** Every interleaving of the two threads is a history of whole pushes and pops on one queue of that
      capacity, with the same contents, the same answers to the pushes (one may be decided and not
      yet given) and the same items delivered. */
  lemma EveryInterleavingIsAQueueHistory<T>(capacity: nat, events: seq<Event<T>>)
    requires GoodCapacity(capacity)
    ensures var s, ops := Run(Start<T>(capacity), events), Ops(capacity, events);
            && |s.slots| == capacity && |s.delivered| <= |s.accepted|
            && IsHistory(capacity, ops)
            && ContentsAfter(ops) == Contents(s)
            && Answers(ops) == s.answers + PendingAnswer(s)
            && Deliveries(ops) == s.delivered
  {
    hide Divides, Inv, IsHistory, PendingAnswer;
    RunAgrees(capacity, events);
    RunIsAfter(capacity, [], events);
    assert [] + events == events;
    InvBounds(After(capacity, events));
  }

  /** Made one after another on a queue object, the operations of a run get the answers they got in
      the run. */
  method Replay<T(0, ==)>(q: Queue<T>, ops: seq<Op<T>>)
    returns (answers: seq<bool>, delivered: seq<Slot<T>>)
    requires q.Valid() && q.Contents == [] && IsHistory(q.slots.Length, ops)
    modifies q, q.slots
    ensures q.Valid() && q.Contents == ContentsAfter(ops)
    ensures answers == Answers(ops) && delivered == Deliveries(ops)
  {
    hide Queue.Valid;
    answers, delivered := [], [];
    for i := 0 to |ops|
      invariant q.Valid() && q.Contents == ContentsAfter(ops[..i])
      invariant answers == Answers(ops[..i]) && delivered == Deliveries(ops[..i])
    {
      assert IsLegal(q.slots.Length, ContentsAfter(ops[..i]), ops[i]);
      assert ops[..i + 1] == ops[..i] + [ops[i]];
      OneMoreOp(q.slots.Length, ops[..i], ops[i]);
      if ops[i].Pushed? || ops[i].Refused? {
        var ok := q.Push(ops[i].item);
        answers := answers + [ok];
      } else {
        var ok, item := q.Pop();
        if ok {
          delivered := delivered + [Full(item)];
        }
      }
    }
    assert ops[..|ops|] == ops;
  }
}
