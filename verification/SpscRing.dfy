/** The lock-free rings of the voice runtime (PCM, wire and inbound queues): one
    producer, one consumer, free-running 32-bit indices, slot = index % capacity. */
module SpscRing {
  import opened Serial

  /** The capacities for which the index arithmetic works: 32 and 128 in the source. */
  ghost predicate GoodCapacity(capacity: nat) {
    0 < capacity < WRAP_32 && Divides(capacity, WRAP_32)
  }

  /** A slot that is being overwritten is Torn: neither its old nor its new item. */
  datatype Slot<T> = Blank | Torn | Full(item: T)

  /** What the producer thread holds between two of its atomic steps. */
  datatype Producer<T> =
    | Resting
    | LoadedWrite(item: T, w: uint32)
    | LoadedRead(item: T, w: uint32, r: uint32)
    | Copying(item: T, w: uint32)
    | Copied(item: T, w: uint32)

  /** What the consumer thread holds; an item is copied out in two halves. */
  datatype Consumer<T> =
    | Waiting
    | HasRead(r: uint32)
    | HasBoth(r: uint32, w: uint32)
    | HalfCopied(r: uint32, half: Slot<T>)
    | Taken(r: uint32, got: Slot<T>)

  /** The shared ring, both threads' registers, and the history of the run. */
  datatype State<T> = State(
    slots: seq<Slot<T>>, writeIndex: uint32, readIndex: uint32,
    producer: Producer<T>, consumer: Consumer<T>,
    offers: seq<T>, answers: seq<bool>, accepted: seq<T>, delivered: seq<Slot<T>>)

  datatype Event<T> = Offer(item: T) | Produce | Consume

  function Start<T>(capacity: nat): State<T> {
    State(seq(capacity, _ => Blank), 0, 0, Resting, Waiting, [], [], [], [])
  }

  /** One atomic step of the producer inside a push. */
  function ProduceStep<T>(s: State<T>): State<T>
    requires |s.slots| > 0
  {
    var capacity := |s.slots|;
    match s.producer
    case Resting => s
    case LoadedWrite(item, w) => s.(producer := LoadedRead(item, w, s.readIndex))
    case LoadedRead(item, w, r) =>
      if Distance32(w, r) >= capacity then s.(producer := Resting, answers := s.answers + [false])
      else s.(producer := Copying(item, w), slots := s.slots[SlotIndex(w, capacity) := Torn])
    case Copying(item, w) =>
      s.(producer := Copied(item, w), slots := s.slots[SlotIndex(w, capacity) := Full(item)])
    case Copied(item, w) =>
      s.(producer := Resting, writeIndex := Succ32(w), answers := s.answers + [true],
         accepted := s.accepted + [item])
  }

  /** One atomic step of the consumer inside a pop. */
  function ConsumeStep<T(==)>(s: State<T>): State<T>
    requires |s.slots| > 0
  {
    var capacity := |s.slots|;
    match s.consumer
    case Waiting => s.(consumer := HasRead(s.readIndex))
    case HasRead(r) => s.(consumer := HasBoth(r, s.writeIndex))
    case HasBoth(r, w) =>
      if r == w then s.(consumer := Waiting)
      else s.(consumer := HalfCopied(r, s.slots[SlotIndex(r, capacity)]))
    case HalfCopied(r, half) =>
      s.(consumer := Taken(r, if s.slots[SlotIndex(r, capacity)] == half then half else Torn))
    case Taken(r, got) =>
      s.(consumer := Waiting, readIndex := Succ32(r), delivered := s.delivered + [got])
  }

  function Step<T(==)>(s: State<T>, e: Event<T>): (s': State<T>)
    requires |s.slots| > 0
    ensures |s'.slots| == |s.slots|
  {
    match e
    case Offer(item) =>
      if s.producer.Resting? then
        s.(producer := LoadedWrite(item, s.writeIndex), offers := s.offers + [item])
      else s
    case Produce => ProduceStep(s)
    case Consume => ConsumeStep(s)
  }

  function Run<T(==)>(s: State<T>, events: seq<Event<T>>): State<T>
    requires |s.slots| > 0
    decreases |events|
  {
    if events == [] then s else Run(Step(s, events[0]), events[1..])
  }

  /** The offers answered with true, in order. */
  function Granted<T>(offers: seq<T>, answers: seq<bool>): seq<T>
    requires |answers| <= |offers|
  {
    if answers == [] then []
    else
      var n := |answers| - 1;
      Granted(offers, answers[..n]) + (if answers[n] then [offers[n]] else [])
  }

  lemma {:induction false} GrantedIgnoresLaterOffers<T>(offers: seq<T>, item: T, answers: seq<bool>)
    requires |answers| <= |offers|
    ensures Granted(offers + [item], answers) == Granted(offers, answers)
  {
    if answers != [] {
      GrantedIgnoresLaterOffers(offers, item, answers[..|answers| - 1]);
    }
  }

  // ----- the invariant -----

  function Unread<T>(s: State<T>): int {
    |s.accepted| - |s.delivered|
  }

  ghost predicate ProducerOk<T>(s: State<T>)
    requires |s.slots| > 0
  {
    && |s.offers| == |s.answers| + (if s.producer.Resting? then 0 else 1)
    && match s.producer
       case Resting => true
       case LoadedWrite(item, w) => w == s.writeIndex && item == s.offers[|s.answers|]
       case LoadedRead(item, w, r) =>
         // The loaded read index may be stale, which only overstates the occupancy.
         && w == s.writeIndex && item == s.offers[|s.answers|]
         && Unread(s) <= Distance32(w, r) <= |s.slots|
       case Copying(item, w) =>
         w == s.writeIndex && item == s.offers[|s.answers|] && Unread(s) < |s.slots|
       case Copied(item, w) =>
         && w == s.writeIndex && item == s.offers[|s.answers|] && Unread(s) < |s.slots|
         && s.slots[SlotIndex(w, |s.slots|)] == Full(item)
  }

  ghost predicate ConsumerOk<T>(s: State<T>)
    requires |s.delivered| <= |s.accepted|
  {
    match s.consumer
    case Waiting => true
    case HasRead(r) => r == s.readIndex
    case HasBoth(r, w) => r == s.readIndex && Distance32(w, r) <= Unread(s)
    case HalfCopied(r, half) =>
      r == s.readIndex && Unread(s) > 0 && half == Full(s.accepted[|s.delivered|])
    case Taken(r, got) =>
      r == s.readIndex && Unread(s) > 0 && got == Full(s.accepted[|s.delivered|])
  }

  /** Delivered items are the accepted ones in order, and the unread rest is intact in its slots. */
  ghost predicate Fifo<T>(s: State<T>) {
    && |s.delivered| <= |s.accepted| <= |s.delivered| + |s.slots|
    && (forall i :: 0 <= i < |s.delivered| ==> s.delivered[i] == Full(s.accepted[i]))
    && (forall i :: |s.delivered| <= i < |s.accepted| ==>
          s.slots[SlotIndex(i, |s.slots|)] == Full(s.accepted[i]))
    && |s.answers| <= |s.offers|
    && s.accepted == Granted(s.offers, s.answers)
  }

  ghost predicate Inv<T>(s: State<T>) {
    && GoodCapacity(|s.slots|)
    && Fifo(s)
    && s.writeIndex == |s.accepted| % WRAP_32
    && s.readIndex == |s.delivered| % WRAP_32
    && ProducerOk(s)
    && ConsumerOk(s)
  }

  /** The slot chosen from a wrapped index is the slot of the unwrapped count. */
  lemma SlotOfIndex(n: nat, capacity: nat)
    requires GoodCapacity(capacity)
    ensures SlotIndex(n % WRAP_32, capacity) == SlotIndex(n, capacity)
  {
    ModOfMod(n, WRAP_32, capacity);
  }

  /** Two indices less than a capacity apart never share a slot, through every wrap of
      the 32-bit counters, exactly when the capacity divides 2^32. */
  lemma SlotsStayApartExactlyWhenCapacityDivides(capacity: nat)
    requires 0 < capacity < WRAP_32
    ensures Divides(capacity, WRAP_32) <==>
            forall j: nat, k: nat :: j < k < j + capacity ==>
              SlotIndex(j % WRAP_32, capacity) != SlotIndex(k % WRAP_32, capacity)
  {
    if Divides(capacity, WRAP_32) {
      forall j: nat, k: nat | j < k < j + capacity
        ensures SlotIndex(j % WRAP_32, capacity) != SlotIndex(k % WRAP_32, capacity)
      {
        SlotOfIndex(j, capacity);
        SlotOfIndex(k, capacity);
        CloseNumbersDiffer(j, k, capacity);
      }
    } else {
      // The last index before the wrap lands on a slot that the wrapped run reuses early.
      var rest := WRAP_32 % capacity;
      var j, k := WRAP_32 - 1, WRAP_32 + rest - 1;
      var q := WRAP_32 / capacity;
      QuotientUnique(capacity, j / capacity, j % capacity, q, rest - 1);
      QuotientUnique(capacity, (rest - 1) / capacity, (rest - 1) % capacity, 0, rest - 1);
      assert SlotIndex(j % WRAP_32, capacity) == rest - 1 == SlotIndex(k % WRAP_32, capacity);
    }
  }

  lemma ProduceKeepsInv<T>(s: State<T>)
    requires Inv(s)
    ensures Inv(ProduceStep(s))
  {
    hide SlotIndex, Divides, Distance32, Succ32, Granted, ConsumerOk;
    match s.producer
    case Resting =>
    case LoadedWrite(item, w) =>
      WrappedDistance(|s.accepted|, |s.delivered|);
      ConsumerKept(s, ProduceStep(s));
    case LoadedRead(item, w, r) =>
      ConsumerKept(s, ProduceStep(s));
      if Distance32(w, r) >= |s.slots| {
        GrantedOneMore(s.offers, s.answers, false);
        assert s.accepted + [] == s.accepted;
      } else {
        WriteKeepsFifo(s, Torn);
      }
    case Copying(item, w) =>
      ConsumerKept(s, ProduceStep(s));
      WriteKeepsFifo(s, Full(item));
    case Copied(item, w) =>
      PublishKeepsInv(s);
  }

  lemma GrantedOneMore<T>(offers: seq<T>, answers: seq<bool>, answer: bool)
    requires |answers| < |offers|
    ensures Granted(offers, answers + [answer]) ==
            Granted(offers, answers) + (if answer then [offers[|answers|]] else [])
  {
    assert (answers + [answer])[..|answers|] == answers;
  }

  /** What the producer does to its own registers and to the slots is no concern of the consumer. */
  lemma ConsumerKept<T>(s: State<T>, s': State<T>)
    requires |s.delivered| <= |s.accepted| && ConsumerOk(s)
    requires s'.consumer == s.consumer && s'.readIndex == s.readIndex
    requires s'.accepted == s.accepted && s'.delivered == s.delivered
    ensures ConsumerOk(s')
  {
    hide Distance32;
  }

  /** The slot to be written next is free, whatever is put there. */
  lemma WriteKeepsFifo<T>(s: State<T>, v: Slot<T>)
    requires GoodCapacity(|s.slots|) && Fifo(s) && Unread(s) < |s.slots|
    requires s.writeIndex == |s.accepted| % WRAP_32
    ensures Fifo(s.(slots := s.slots[SlotIndex(s.writeIndex, |s.slots|) := v]))
  {
    hide SlotIndex, Granted;
    NewSlotIsFree(s);
    SlotOfIndex(|s.accepted|, |s.slots|);
    hide GoodCapacity;
  }

  lemma PublishKeepsInv<T>(s: State<T>)
    requires Inv(s) && s.producer.Copied?
    ensures Inv(ProduceStep(s))
  {
    hide SlotIndex, GoodCapacity, Distance32, Succ32, Granted;
    SlotOfIndex(|s.accepted|, |s.slots|);
    WrappedSuccessor(|s.accepted|);
    GrantedOneMore(s.offers, s.answers, true);
  }

  /** With room in the ring, the next slot to be written holds no unread item. */
  lemma NewSlotIsFree<T>(s: State<T>)
    requires |s.delivered| <= |s.accepted| < |s.delivered| + |s.slots|
    ensures forall i :: |s.delivered| <= i < |s.accepted| ==>
              SlotIndex(i, |s.slots|) != SlotIndex(|s.accepted|, |s.slots|)
  {
    hide SlotIndex;
    forall i | |s.delivered| <= i < |s.accepted|
      ensures SlotIndex(i, |s.slots|) != SlotIndex(|s.accepted|, |s.slots|)
    {
      CloseNumbersDiffer(i, |s.accepted|, |s.slots|);
    }
  }

  lemma ConsumeKeepsInv<T>(s: State<T>)
    requires Inv(s)
    ensures Inv(ConsumeStep(s))
  {
    hide SlotIndex, GoodCapacity, Distance32, Succ32, Granted;
    if s.consumer.Taken? {
      DeliverKeepsInv(s);
    } else {
      ReadingKeepsConsumer(s);
      hide ConsumerOk;
    }
  }

  lemma DeliverKeepsInv<T>(s: State<T>)
    requires Inv(s) && s.consumer.Taken?
    ensures Inv(ConsumeStep(s))
  {
    hide SlotIndex, GoodCapacity, Distance32, Succ32, Granted;
    WrappedSuccessor(|s.delivered|);
  }

  lemma ReadingKeepsConsumer<T>(s: State<T>)
    requires Inv(s) && !s.consumer.Taken?
    ensures |s.slots| > 0 && ConsumerOk(ConsumeStep(s))
  {
    hide SlotIndex, Succ32, Granted, ProducerOk, Distance32;
    SlotOfIndex(|s.delivered|, |s.slots|);
    WrappedDistance(|s.accepted|, |s.delivered|);
    DistanceToItself(s.readIndex);
  }

  lemma DistanceToItself(i: uint32)
    ensures Distance32(i, i) == 0
    ensures forall j: uint32 :: Distance32(j, i) == 0 ==> j == i
  {
  }

  lemma StepKeepsInv<T>(s: State<T>, e: Event<T>)
    requires Inv(s)
    ensures Inv(Step(s, e))
  {
    hide SlotIndex, Divides;
    match e
    case Offer(item) =>
      if s.producer.Resting? {
        GrantedIgnoresLaterOffers(s.offers, item, s.answers);
      }
    case Produce => ProduceKeepsInv(s);
    case Consume => ConsumeKeepsInv(s);
  }

  lemma {:induction false} RunKeepsInv<T>(s: State<T>, events: seq<Event<T>>)
    requires Inv(s)
    ensures Inv(Run(s, events))
    decreases |events|
  {
    hide SlotIndex, Divides;
    if events != [] {
      StepKeepsInv(s, events[0]);
      RunKeepsInv(Step(s, events[0]), events[1..]);
    }
  }

  /** For every interleaving of the two threads' atomic steps, of any length: the consumer gets
      exactly the granted offers, in order, whole, and unread items are never overwritten. */
  lemma EveryInterleavingIsFifo<T>(capacity: nat, events: seq<Event<T>>)
    requires GoodCapacity(capacity)
    ensures Fifo(Run(Start<T>(capacity), events))
  {
    hide SlotIndex, Divides;
    RunKeepsInv(Start<T>(capacity), events);
  }

  /** The threads are never inside the same slot at once, so no copy is ever torn. */
  lemma ThreadsNeverShareASlot<T>(capacity: nat, events: seq<Event<T>>)
    requires GoodCapacity(capacity)
    ensures var s := Run(Start<T>(capacity), events);
            |s.slots| > 0 &&
            (s.producer.Copying? && (s.consumer.HalfCopied? || s.consumer.Taken?) ==>
             SlotIndex(s.producer.w, |s.slots|) != SlotIndex(s.consumer.r, |s.slots|))
  {
    hide SlotIndex, Divides;
    RunKeepsInv(Start<T>(capacity), events);
    var s := Run(Start<T>(capacity), events);
    if s.producer.Copying? && (s.consumer.HalfCopied? || s.consumer.Taken?) {
      SlotOfIndex(|s.accepted|, |s.slots|);
      SlotOfIndex(|s.delivered|, |s.slots|);
      CloseNumbersDiffer(|s.delivered|, |s.accepted|, |s.slots|);
    }
  }

  /** A push is refused, and a pop comes back empty, exactly when the ring was full,
      or empty, at the moment the other side's index was loaded. */
  lemma AnswersAreHonestAtTheLoad<T>(s: State<T>)
    requires Inv(s)
    ensures s.producer.LoadedWrite? ==>
              var loaded := ProduceStep(s);
              ProduceStep(loaded).answers == s.answers + [false] <==> Unread(s) == |s.slots|
    ensures s.consumer.HasRead? ==>
              var loaded := ConsumeStep(s);
              ConsumeStep(loaded).consumer.Waiting? <==> Unread(s) == 0
  {
    hide Inv;
    if s.producer.LoadedWrite? {
      RefusedExactlyWhenFull(s);
    }
    if s.consumer.HasRead? {
      EmptyExactlyWhenNoneUnread(s);
    }
  }

  lemma RefusedExactlyWhenFull<T>(s: State<T>)
    requires Inv(s) && s.producer.LoadedWrite?
    ensures |s.slots| > 0
    ensures ProduceStep(ProduceStep(s)).answers == s.answers + [false] <==> Unread(s) == |s.slots|
  {
    hide SlotIndex, Divides, Distance32, Granted, ConsumerOk;
    WrappedDistance(|s.accepted|, |s.delivered|);
    if Unread(s) < |s.slots| {
      assert ProduceStep(ProduceStep(s)).answers == s.answers;
    }
  }

  lemma EmptyExactlyWhenNoneUnread<T>(s: State<T>)
    requires Inv(s) && s.consumer.HasRead?
    ensures |s.slots| > 0
    ensures ConsumeStep(ConsumeStep(s)).consumer.Waiting? <==> Unread(s) == 0
  {
    hide SlotIndex, Divides, Distance32, Granted, ProducerOk;
    WrappedDistance(|s.accepted|, |s.delivered|);
    DistanceToItself(s.readIndex);
  }

  /** What the slots and indices of a ring hold: the contents, after so many items popped. */
  ghost predicate Stores<T>(slots: seq<T>, writeIndex: uint32, readIndex: uint32,
                            contents: seq<T>, popped: nat) {
    && GoodCapacity(|slots|)
    && |contents| <= |slots|
    && readIndex == popped % WRAP_32
    && writeIndex == (popped + |contents|) % WRAP_32
    && forall i :: 0 <= i < |contents| ==> contents[i] == slots[SlotIndex(popped + i, |slots|)]
  }

  lemma StoresDistance<T>(slots: seq<T>, w: uint32, r: uint32, contents: seq<T>, popped: nat)
    requires Stores(slots, w, r, contents, popped)
    ensures Distance32(w, r) == |contents| <= |slots| && |slots| > 0
    ensures w == r <==> contents == []
  {
    hide Distance32, SlotIndex;
    WrappedDistance(popped + |contents|, popped);
    DistanceToItself(r);
  }

  lemma StoresPush<T>(slots: seq<T>, w: uint32, r: uint32, contents: seq<T>, popped: nat, item: T)
    requires Stores(slots, w, r, contents, popped) && |contents| < |slots|
    ensures Stores(slots[SlotIndex(w, |slots|) := item], Succ32(w), r, contents + [item], popped)
  {
    hide SlotIndex, Divides, Succ32;
    var pushed := popped + |contents|;
    SlotOfIndex(pushed, |slots|);
    WrappedSuccessor(pushed);
    forall k | popped <= k < pushed
      ensures SlotIndex(k, |slots|) != SlotIndex(pushed, |slots|)
    {
      CloseNumbersDiffer(k, pushed, |slots|);
    }
  }

  lemma StoresPop<T>(slots: seq<T>, w: uint32, r: uint32, contents: seq<T>, popped: nat)
    requires Stores(slots, w, r, contents, popped) && contents != []
    ensures |slots| > 0 && slots[SlotIndex(r, |slots|)] == contents[0]
    ensures Stores(slots, w, Succ32(r), contents[1..], popped + 1)
  {
    hide SlotIndex, Divides, Succ32;
    SlotOfIndex(popped, |slots|);
    WrappedSuccessor(popped);
    assert contents[0] == slots[SlotIndex(popped + 0, |slots|)];
    forall i | 0 <= i < |contents| - 1
      ensures contents[1..][i] == slots[SlotIndex(popped + 1 + i, |slots|)]
    {
      assert contents[1..][i] == contents[i + 1] == slots[SlotIndex(popped + (i + 1), |slots|)];
    }
  }

  /** The same ring run by one thread at a time, as the source's push and pop functions. */
  class Queue<T(0)> {
    const slots: array<T>
    var writeIndex: uint32
    var readIndex: uint32
    ghost var Contents: seq<T>
    ghost var popped: nat

    ghost predicate Valid()
      reads this, slots
    {
      Stores(slots[..], writeIndex, readIndex, Contents, popped)
    }

    constructor (capacity: nat)
      requires GoodCapacity(capacity)
      ensures Valid() && fresh(slots) && slots.Length == capacity && Contents == []
    {
      slots := new T[capacity];
      writeIndex, readIndex := 0, 0;
      Contents, popped := [], 0;
    }

    method Push(item: T) returns (ok: bool)
      requires Valid()
      modifies `writeIndex, `Contents, slots
      ensures Valid()
      ensures ok == (|old(Contents)| < slots.Length)
      ensures Contents == if ok then old(Contents) + [item] else old(Contents)
    {
      hide Stores, SlotIndex, Distance32, Succ32;
      StoresDistance(slots[..], writeIndex, readIndex, Contents, popped);
      if Distance32(writeIndex, readIndex) >= slots.Length {
        return false;
      }
      StoresPush(slots[..], writeIndex, readIndex, Contents, popped, item);
      ghost var before := slots[..];
      slots[SlotIndex(writeIndex, slots.Length)] := item;
      assert slots[..] == before[SlotIndex(writeIndex, slots.Length) := item];
      writeIndex := Succ32(writeIndex);
      Contents := Contents + [item];
      ok := true;
    }

    method Pop() returns (ok: bool, item: T)
      requires Valid()
      modifies `readIndex, `Contents, `popped
      ensures Valid()
      ensures ok == (old(Contents) != [])
      ensures ok ==> old(Contents) == [item] + Contents
      ensures !ok ==> Contents == old(Contents)
    {
      hide Stores, SlotIndex, Succ32;
      StoresDistance(slots[..], writeIndex, readIndex, Contents, popped);
      item := slots[SlotIndex(readIndex, slots.Length)];
      if readIndex == writeIndex {
        return false, item;
      }
      StoresPop(slots[..], writeIndex, readIndex, Contents, popped);
      readIndex := Succ32(readIndex);
      ok, popped, Contents := true, popped + 1, Contents[1..];
    }
  }
}
