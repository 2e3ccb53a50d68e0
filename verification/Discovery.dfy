/** The client side of the directory: reassembles a snapshot from chunks that arrive in any order
    and more than once, then probes the servers found. */
module Discovery {
  import opened Sequences
  import opened Serial
  import opened Bitmask
  import opened Directory

  const PROBE_TIMEOUT_MS: nat := 2000
  const OVERALL_TIMEOUT_MS: nat := 5000
  const MAX_LATENCY_MS: nat := 0xFFFF

  datatype Phase = Idle | AwaitingDirectory | Probing | Complete | Failed | Cancelled

  datatype Status = Pending | Reachable | Unavailable

  datatype Candidate = Candidate(server: Server, probeStartedMs: nat, probeNonce: uint32,
                                 latencyMs: nat, status: Status)

  datatype State = State(phase: Phase, generation: uint32, startedMs: nat, receivedChunks: nat,
                         chunkCount: nat, fullServers: nat, candidates: seq<Candidate>)

  const IDLE := State(Idle, 0, 0, 0, 0, 0, [])

  predicate IsTerminated(t: Text) {
    t.terminated && t.chars != []
  }

  /** A list entry that makes sense at all. */
  predicate IsUsable(e: Server) {
    && e.serverId != 0 && IsTerminated(e.name) && IsTerminated(e.host) && e.port != 0
    && e.capacity != 0 && e.players <= e.capacity && e.players <= MAX_CLIENTS
  }

  predicate CountsAsFull(e: Server) {
    && e.capacity > 0 && e.players == e.capacity && e.players <= MAX_CLIENTS
    && IsTerminated(e.name) && IsTerminated(e.host) && e.serverId != 0 && e.port != 0
  }

  predicate KnowsEndpoint(candidates: seq<Candidate>, e: Server) {
    exists i :: 0 <= i < |candidates| && SameEndpoint(candidates[i].server, e)
  }

  function AddEntry(s: State, entry: Server): State {
    var s := if CountsAsFull(entry) then s.(fullServers := s.fullServers + 1) else s;
    var e := Clamped(entry);
    if !IsUsable(entry) || e.players >= e.capacity then s
    else if KnowsEndpoint(s.candidates, e) then s
    else if |s.candidates| < MAX_ENTRIES then
      s.(candidates := s.candidates + [Candidate(e, 0, 0, 0, Pending)])
    else s
  }

  function AddEntries(s: State, entries: seq<Server>): State {
    if entries == [] then s
    else AddEntry(AddEntries(s, entries[..|entries| - 1]), entries[|entries| - 1])
  }

  function Begun(generation: uint32, nowMs: nat): State {
    if generation == 0 then IDLE.(phase := Failed)
    else State(AwaitingDirectory, generation, nowMs, 0, 0, 0, [])
  }

  predicate IsAcceptableChunk(s: State, p: ListPacket, nowMs: nat) {
    && s.phase == AwaitingDirectory
    && s.startedMs <= nowMs < s.startedMs + OVERALL_TIMEOUT_MS
    && p.wellFormed && p.version == PROTOCOL_VERSION && p.generation == s.generation
    && 0 < p.chunkCount <= MAX_ENTRIES && p.chunkIndex < p.chunkCount
    && |p.entries| <= ENTRIES_PER_PACKET
    && (s.chunkCount == 0 || s.chunkCount == p.chunkCount)
  }

  function Ingested(s: State, p: ListPacket, nowMs: nat): State {
    if !IsAcceptableChunk(s, p, nowMs) then s
    else
      var s := s.(chunkCount := p.chunkCount);
      var s := if Bit(s.receivedChunks, p.chunkIndex) then s
               else AddEntries(s, p.entries)
                    .(receivedChunks := SetBit(s.receivedChunks, p.chunkIndex));
      if s.receivedChunks == AllOnes(s.chunkCount)
      then s.(phase := if s.candidates == [] then Complete else Probing)
      else s
  }

  // ----- delivery of one published snapshot -----

  /** Chunk `chunk` of the snapshot arrives at a time. */
  datatype Delivery = Delivery(chunk: nat, atMs: nat)

  ghost predicate InTime(startedMs: nat, deliveries: seq<Delivery>, entryCount: nat) {
    forall i :: 0 <= i < |deliveries| ==>
      && deliveries[i].chunk < ChunkCount(entryCount)
      && startedMs <= deliveries[i].atMs < startedMs + OVERALL_TIMEOUT_MS
  }

  function Delivered(entries: seq<Server>, generation: uint32, startedMs: nat,
                     deliveries: seq<Delivery>): State
  {
    if deliveries == [] then Begun(generation, startedMs)
    else
      var last := deliveries[|deliveries| - 1];
      var s := Delivered(entries, generation, startedMs, deliveries[..|deliveries| - 1]);
      match BuildListPacket(entries, generation, last.chunk)
      case Some(p) => Ingested(s, p, last.atMs)
      case None => s
  }

  predicate HasArrived(deliveries: seq<Delivery>, chunk: nat) {
    exists i :: 0 <= i < |deliveries| && deliveries[i].chunk == chunk
  }

  ghost predicate AllArrived(deliveries: seq<Delivery>, entryCount: nat) {
    forall c: nat :: c < ChunkCount(entryCount) ==> HasArrived(deliveries, c)
  }

  predicate HasRoom(e: Server) {
    e.players < e.capacity
  }

  function WithRoom(entries: seq<Server>): (r: seq<Server>)
    ensures |r| <= |entries|
  {
    if entries == [] then []
    else
      var last := entries[|entries| - 1];
      WithRoom(entries[..|entries| - 1]) + (if HasRoom(last) then [last] else [])
  }

  function Fresh(servers: seq<Server>): (r: seq<Candidate>)
    ensures |r| == |servers|
    ensures forall i :: 0 <= i < |r| ==> r[i] == Candidate(servers[i], 0, 0, 0, Pending)
  {
    seq(|servers|, i requires 0 <= i < |servers| => Candidate(servers[i], 0, 0, 0, Pending))
  }

  /** The entries at some positions of the snapshot, in the order given. */
  function Pick(entries: seq<Server>, positions: seq<nat>): (r: seq<Server>)
    requires forall i :: 0 <= i < |positions| ==> positions[i] < |entries|
    ensures |r| == |positions|
    ensures forall i :: 0 <= i < |r| ==> r[i] == entries[positions[i]]
  {
    seq(|positions|, i requires 0 <= i < |positions| => entries[positions[i]])
  }

  /** Distinct positions of a snapshot. */
  ghost predicate ArePositions(positions: seq<nat>, entryCount: nat) {
    && (forall i :: 0 <= i < |positions| ==> positions[i] < entryCount)
    && (forall i, j :: 0 <= i < j < |positions| ==> positions[i] != positions[j])
  }

  /** The positions in one chunk. */
  function PositionsOf(chunk: nat, entryCount: nat): (r: seq<nat>)
    ensures forall i :: 0 <= i < |r| ==>
              r[i] == chunk * ENTRIES_PER_PACKET + i && r[i] < entryCount
    ensures |r| <= ENTRIES_PER_PACKET
    ensures forall e: nat :: e < entryCount && e / ENTRIES_PER_PACKET == chunk ==> e in r
  {
    var start := chunk * ENTRIES_PER_PACKET;
    var count := if entryCount <= start then 0
                 else if entryCount - start > ENTRIES_PER_PACKET then ENTRIES_PER_PACKET
                 else entryCount - start;
    var r := seq(count, i => start + i);
    assert forall e: nat :: e < entryCount && e / ENTRIES_PER_PACKET == chunk ==> r[e - start] == e;
    r
  }

  /** The reassembly state after some chunks: the positions received, each once, and the servers
      counted and collected from them. */
  ghost predicate Holds(s: State, entries: seq<Server>, received: seq<nat>) {
    && ArePositions(received, |entries|)
    && s.candidates == Fresh(WithRoom(Pick(entries, received)))
    && s.fullServers + |s.candidates| == |received|
  }

  lemma KeptEntry(e: Server)
    requires IsKept(e)
    ensures IsUsable(e) && Clamped(e) == e
    ensures CountsAsFull(e) <==> !HasRoom(e)
  {
    hide StableEndpointId;
  }

  lemma {:induction false} WithRoomMembers(entries: seq<Server>)
    ensures forall k :: 0 <= k < |WithRoom(entries)| ==> WithRoom(entries)[k] in entries
  {
    if entries != [] {
      WithRoomMembers(entries[..|entries| - 1]);
    }
  }

  lemma WithRoomAppend(entries: seq<Server>, e: Server)
    ensures WithRoom(entries + [e]) == WithRoom(entries) + (if HasRoom(e) then [e] else [])
  {
    assert (entries + [e])[..|entries|] == entries;
  }

  /** An entry at a new position is counted, and collected if it has room: no earlier one shares
      its endpoint. */
  lemma AddNewPosition(s: State, entries: seq<Server>, received: seq<nat>, position: nat)
    requires Publishable(entries) && Holds(s, entries, received)
    requires position < |entries| && position !in received
    requires |received| < MAX_ENTRIES
    ensures Holds(AddEntry(s, entries[position]), entries, received + [position])
  {
    hide IsKept, IsUsable, CountsAsFull, WithRoom;
    var e, picked := entries[position], Pick(entries, received);
    KeptEntry(e);
    WithRoomMembers(picked);
    WithRoomAppend(picked, e);
    assert Pick(entries, received + [position]) == picked + [e];
    forall i | 0 <= i < |s.candidates|
      ensures !SameEndpoint(s.candidates[i].server, e)
    {
      var k :| 0 <= k < |picked| && picked[k] == s.candidates[i].server;
      var a, b := received[k], position;
      assert entries[a] == picked[k];
      assert if a < b then !SameEndpoint(entries[a], entries[b]) else !SameEndpoint(entries[b], entries[a]);
    }
  }

  /** Distinct positions are at most as many as there are entries, and then cover all of them. */
  lemma DistinctPositionsFit(positions: seq<nat>, entryCount: nat)
    requires ArePositions(positions, entryCount)
    ensures |positions| <= entryCount
    ensures (forall e: nat :: e < entryCount ==> e in positions) ==> |positions| == entryCount
  {
    CountDistinct(positions);
    var taken := set e | e in positions;
    SubsetSize(taken, Below(entryCount));
  }

  lemma PublishableSize(entries: seq<Server>)
    requires Publishable(entries)
    ensures |entries| <= MAX_ENTRIES
  {
  }

  lemma PositionsPrefix(positions: seq<nat>, last: nat, entryCount: nat)
    requires ArePositions(positions + [last], entryCount)
    ensures ArePositions(positions, entryCount) && last !in positions && last < entryCount
  {
    var all := positions + [last];
    assert all[|positions|] == last;
    forall i | 0 <= i < |positions|
      ensures positions[i] == all[i] && positions[i] != last
    {
    }
  }

  lemma {:induction false} AddNewPositions(s: State, entries: seq<Server>, received: seq<nat>,
                                           positions: seq<nat>)
    requires Publishable(entries) && Holds(s, entries, received)
    requires ArePositions(received + positions, |entries|)
    requires forall i :: 0 <= i < |positions| ==> positions[i] < |entries|
    ensures Holds(AddEntries(s, Pick(entries, positions)), entries, received + positions)
  {
    hide Holds, Publishable, ArePositions, Pick;
    var picked := Pick(entries, positions);
    if positions == [] {
      assert received + positions == received;
    } else {
      var n := |positions| - 1;
      var front, last, all := positions[..n], positions[n], received + positions;
      assert all == (received + front) + [last];
      PositionsPrefix(received + front, last, |entries|);
      AddNewPositions(s, entries, received, front);
      assert picked[..n] == Pick(entries, front);
      DistinctPositionsFit(all, |entries|);
      assert |entries| <= MAX_ENTRIES by { PublishableSize(entries); }
      AddNewPosition(AddEntries(s, picked[..n]), entries, received + front, last);
    }
  }

  lemma ChunkIsPicked(entries: seq<Server>, generation: uint32, chunk: nat)
    requires generation != 0 && |entries| <= MAX_ENTRIES && chunk < ChunkCount(|entries|)
    ensures BuildListPacket(entries, generation, chunk) ==
            Some(ListPacket(true, PROTOCOL_VERSION, generation, chunk, ChunkCount(|entries|),
                            Pick(entries, PositionsOf(chunk, |entries|))))
    ensures 0 < ChunkCount(|entries|) <= MAX_ENTRIES
  {
    var p := BuildListPacket(entries, generation, chunk).value;
    assert p.entries == Pick(entries, PositionsOf(chunk, |entries|));
  }

  ghost predicate MaskNotes(mask: nat, deliveries: seq<Delivery>) {
    forall c: nat :: Bit(mask, c) <==> HasArrived(deliveries, c)
  }

  lemma MaskIsFullWhenAllArrived(mask: nat, deliveries: seq<Delivery>, startedMs: nat,
                                 entryCount: nat)
    requires MaskNotes(mask, deliveries) && InTime(startedMs, deliveries, entryCount)
    ensures mask == AllOnes(ChunkCount(entryCount)) <==> AllArrived(deliveries, entryCount)
  {
    hide Bit, ChunkCount;
    var n := ChunkCount(entryCount);
    forall c: nat | c >= n
      ensures !Bit(mask, c)
    {
    }
    FullExactlyWhenEveryBit(mask, n);
  }

  lemma OneMoreArrival(mask: nat, deliveries: seq<Delivery>, last: Delivery)
    requires MaskNotes(mask, deliveries)
    ensures MaskNotes(SetBit(mask, last.chunk), deliveries + [last])
    ensures Bit(mask, last.chunk) ==> MaskNotes(mask, deliveries + [last])
    ensures forall c: nat :: HasArrived(deliveries + [last], c) <==>
                             c == last.chunk || HasArrived(deliveries, c)
  {
    hide Bit, SetBit;
    var all := deliveries + [last];
    forall c: nat
      ensures HasArrived(all, c) <==> c == last.chunk || HasArrived(deliveries, c)
      ensures Bit(SetBit(mask, last.chunk), c) <==> c == last.chunk || Bit(mask, c)
    {
      BitAfterSet(mask, last.chunk, c);
      if c == last.chunk {
        assert all[|deliveries|].chunk == c;
      }
      if HasArrived(deliveries, c) {
        var i :| 0 <= i < |deliveries| && deliveries[i].chunk == c;
        assert all[i].chunk == c;
      }
    }
  }

  /** Which positions have been received: those of the chunks that arrived. */
  ghost predicate ReceivedIsArrived(received: seq<nat>, deliveries: seq<Delivery>, entryCount: nat) {
    forall e: nat :: e < entryCount ==>
      (e in received <==> HasArrived(deliveries, e / ENTRIES_PER_PACKET))
  }

  function PhaseAfter(allArrived: bool, candidates: seq<Candidate>): Phase {
    if !allArrived then AwaitingDirectory else if candidates == [] then Complete else Probing
  }

  ghost predicate StateOf(s: State, entries: seq<Server>, generation: uint32, startedMs: nat,
                          deliveries: seq<Delivery>, received: seq<nat>) {
    && Holds(s, entries, received)
    && ReceivedIsArrived(received, deliveries, |entries|)
    && MaskNotes(s.receivedChunks, deliveries)
    && s.generation == generation && s.startedMs == startedMs
    && s.chunkCount == (if deliveries == [] then 0 else ChunkCount(|entries|))
    && s.phase == PhaseAfter(AllArrived(deliveries, |entries|), s.candidates)
  }

  lemma AddEntriesOnlyAdds(s: State, entries: seq<Server>)
    ensures var s' := AddEntries(s, entries);
            s' == s.(candidates := s'.candidates, fullServers := s'.fullServers)
  {
    if entries != [] {
      AddEntriesOnlyAdds(s, entries[..|entries| - 1]);
    }
  }

  lemma NewChunkPositions(entries: seq<Server>, deliveries: seq<Delivery>, received: seq<nat>,
                          last: Delivery)
    requires ArePositions(received, |entries|)
    requires ReceivedIsArrived(received, deliveries, |entries|)
    requires !HasArrived(deliveries, last.chunk)
    ensures var positions := PositionsOf(last.chunk, |entries|);
            && ArePositions(received + positions, |entries|)
            && ReceivedIsArrived(received + positions, deliveries + [last], |entries|)
  {
    hide HasArrived;
    var positions := PositionsOf(last.chunk, |entries|);
    forall i | 0 <= i < |positions|
      ensures positions[i] / ENTRIES_PER_PACKET == last.chunk && positions[i] !in received
    {
    }
    forall e: nat | e < |entries|
      ensures e in received + positions <==>
              HasArrived(deliveries + [last], e / ENTRIES_PER_PACKET)
    {
      ArrivalSplit(deliveries, last, e / ENTRIES_PER_PACKET);
    }
  }

  lemma ArrivalSplit(deliveries: seq<Delivery>, last: Delivery, c: nat)
    ensures HasArrived(deliveries + [last], c) <==> c == last.chunk || HasArrived(deliveries, c)
  {
    var all := deliveries + [last];
    if c == last.chunk {
      assert all[|deliveries|].chunk == c;
    }
    if HasArrived(deliveries, c) {
      var i :| 0 <= i < |deliveries| && deliveries[i].chunk == c;
      assert all[i].chunk == c;
    }
  }

  lemma BitIsArrived(mask: nat, deliveries: seq<Delivery>, c: nat)
    requires MaskNotes(mask, deliveries)
    ensures Bit(mask, c) <==> HasArrived(deliveries, c)
  {
  }

  /** A repeated chunk changes nothing, before and after completion. */
  lemma RepeatedChunk(s: State, entries: seq<Server>, generation: uint32, startedMs: nat,
                      deliveries: seq<Delivery>, last: Delivery, received: seq<nat>, p: ListPacket)
    requires InTime(startedMs, deliveries, |entries|)
    requires last.chunk < ChunkCount(|entries|)
    requires StateOf(s, entries, generation, startedMs, deliveries, received)
    requires p.chunkIndex == last.chunk && p.chunkCount == ChunkCount(|entries|)
    requires AllArrived(deliveries, |entries|) || HasArrived(deliveries, last.chunk)
    ensures Ingested(s, p, last.atMs) == s
    ensures StateOf(s, entries, generation, startedMs, deliveries + [last], received)
  {
    hide Holds, Bit, SetBit, AllOnes, ChunkCount, AddEntries, MaskNotes, HasArrived;
    BitIsArrived(s.receivedChunks, deliveries, last.chunk);
    MaskIsFullWhenAllArrived(s.receivedChunks, deliveries, startedMs, |entries|);
    assert HasArrived(deliveries, last.chunk);
    assert deliveries != [] by {
      var i := ArrivalIndex(deliveries, last.chunk);
    }
    OneMoreArrival(s.receivedChunks, deliveries, last);
  }

  lemma ArrivalIndex(deliveries: seq<Delivery>, c: nat) returns (i: nat)
    requires HasArrived(deliveries, c)
    ensures i < |deliveries| && deliveries[i].chunk == c
  {
    i :| 0 <= i < |deliveries| && deliveries[i].chunk == c;
  }

  /** A new chunk adds its servers, and completes the list when it was the last one missing. */
  lemma NewChunk(s: State, entries: seq<Server>, generation: uint32, startedMs: nat,
                 deliveries: seq<Delivery>, last: Delivery, received: seq<nat>, p: ListPacket)
    requires Publishable(entries) && InTime(startedMs, deliveries + [last], |entries|)
    requires startedMs <= last.atMs < startedMs + OVERALL_TIMEOUT_MS
    requires last.chunk < ChunkCount(|entries|) <= MAX_ENTRIES
    requires StateOf(s, entries, generation, startedMs, deliveries, received)
    requires p == ListPacket(true, PROTOCOL_VERSION, generation, last.chunk, ChunkCount(|entries|),
                             Pick(entries, PositionsOf(last.chunk, |entries|)))
    requires !HasArrived(deliveries, last.chunk)
    ensures StateOf(Ingested(s, p, last.atMs), entries, generation, startedMs, deliveries + [last],
                    received + PositionsOf(last.chunk, |entries|))
  {
    hide Bit, SetBit, AllOnes, ChunkCount, AddEntries, MaskNotes, HasArrived, Holds, PositionsOf,
         Publishable, InTime, ReceivedIsArrived, Pick;
    var n, all := |entries|, deliveries + [last];
    var positions := PositionsOf(last.chunk, n);
    BitIsArrived(s.receivedChunks, deliveries, last.chunk);
    assert !AllArrived(deliveries, n);
    assert ArePositions(received, n) by { HoldsPositions(s, entries, received); }
    NewChunkPositions(entries, deliveries, received, last);
    var s1 := s.(chunkCount := p.chunkCount);
    assert Holds(s1, entries, received) by { HoldsOnly(s, s1, entries, received); }
    AddNewPositions(s1, entries, received, positions);
    AddEntriesOnlyAdds(s1, p.entries);
    OneMoreArrival(s.receivedChunks, deliveries, last);
    MaskIsFullWhenAllArrived(SetBit(s.receivedChunks, last.chunk), all, startedMs, n);
    var s2 := AddEntries(s1, p.entries);
    HoldsOnly(s2, Ingested(s, p, last.atMs), entries, received + positions);
  }

  lemma HoldsPositions(s: State, entries: seq<Server>, received: seq<nat>)
    requires Holds(s, entries, received)
    ensures ArePositions(received, |entries|)
  {
  }

  lemma HoldsOnly(s: State, s': State, entries: seq<Server>, received: seq<nat>)
    requires Holds(s, entries, received)
    ensures s'.candidates == s.candidates && s'.fullServers == s.fullServers ==>
              Holds(s', entries, received)
  {
  }

  lemma {:induction false} DeliveredState(entries: seq<Server>, generation: uint32, startedMs: nat,
                                          deliveries: seq<Delivery>)
    returns (received: seq<nat>)
    requires Publishable(entries) && generation != 0
    requires InTime(startedMs, deliveries, |entries|)
    ensures StateOf(Delivered(entries, generation, startedMs, deliveries), entries, generation,
                    startedMs, deliveries, received)
  {
    if deliveries == [] {
      received := [];
      forall c: nat ensures !Bit(0, c) { ZeroHasNoBits(c); }
      assert !HasArrived(deliveries, 0);
    } else {
      hide Holds, Bit, MaskNotes, Ingested, BuildListPacket, StateOf, Publishable, PositionsOf,
           ChunkCount, HasArrived, AllArrived;
      var n := |deliveries| - 1;
      var front, last := deliveries[..n], deliveries[n];
      assert deliveries == front + [last];
      assert |entries| <= MAX_ENTRIES by { PublishableSize(entries); }
      received := DeliveredState(entries, generation, startedMs, front);
      var s := Delivered(entries, generation, startedMs, front);
      ChunkIsPicked(entries, generation, last.chunk);
      var p := BuildListPacket(entries, generation, last.chunk).value;
      if AllArrived(front, |entries|) || HasArrived(front, last.chunk) {
        RepeatedChunk(s, entries, generation, startedMs, front, last, received, p);
      } else {
        NewChunk(s, entries, generation, startedMs, front, last, received, p);
        received := received + PositionsOf(last.chunk, |entries|);
      }
    }
  }

  /** For every order of delivery, with any repeats: the client stays in the directory phase until
      the last missing chunk; then it has counted every entry once, its candidates are exactly the
      servers with room, and candidates plus full servers make up the whole list. */
  lemma DeliveryInAnyOrder(entries: seq<Server>, generation: uint32, startedMs: nat,
                           deliveries: seq<Delivery>)
    requires Publishable(entries) && generation != 0
    requires InTime(startedMs, deliveries, |entries|)
    ensures var s := Delivered(entries, generation, startedMs, deliveries);
            && (s.phase == AwaitingDirectory <==> !AllArrived(deliveries, |entries|))
            && (AllArrived(deliveries, |entries|) ==>
                  && s.phase == (if s.candidates == [] then Complete else Probing)
                  && |s.candidates| + s.fullServers == |entries|
                  && exists order: seq<nat> ::
                       && ArePositions(order, |entries|) && |order| == |entries|
                       && s.candidates == Fresh(WithRoom(Pick(entries, order))))
  {
    var received := DeliveredState(entries, generation, startedMs, deliveries);
    if AllArrived(deliveries, |entries|) {
      forall e: nat | e < |entries|
        ensures e in received
      {
        assert e / ENTRIES_PER_PACKET < ChunkCount(|entries|);
      }
      DistinctPositionsFit(received, |entries|);
    }
  }

  // ----- probing -----

  /** wellFormed stands for the response's type, size and protocol version. */
  datatype ProbeResponse = ProbeResponse(wellFormed: bool, generation: uint32, nonce: uint32,
                                         players: uint16, capacity: uint16)

  predicate HasPending(candidates: seq<Candidate>) {
    exists i :: 0 <= i < |candidates| && candidates[i].status == Pending
  }

  ghost predicate AllPending(candidates: seq<Candidate>) {
    forall i :: 0 <= i < |candidates| ==> candidates[i].status == Pending
  }

  function Settled(s: State): State {
    if s.phase == Probing && !HasPending(s.candidates) then s.(phase := Complete) else s
  }

  predicate HasTimedOut(c: Candidate, startedMs: nat, nowMs: nat) {
    && c.status == Pending
    && ((c.probeStartedMs != 0 && nowMs >= c.probeStartedMs + PROBE_TIMEOUT_MS) ||
        nowMs >= startedMs + OVERALL_TIMEOUT_MS)
  }

  /** The candidates after a look at the clock. */
  function Swept(candidates: seq<Candidate>, startedMs: nat, nowMs: nat): (r: seq<Candidate>)
    ensures |r| == |candidates|
    ensures forall i :: 0 <= i < |r| ==>
              r[i] == if HasTimedOut(candidates[i], startedMs, nowMs)
                      then candidates[i].(status := Unavailable) else candidates[i]
  {
    seq(|candidates|, i requires 0 <= i < |candidates| =>
          if HasTimedOut(candidates[i], startedMs, nowMs)
          then candidates[i].(status := Unavailable) else candidates[i])
  }

  function Updated(s: State, nowMs: nat): State {
    if nowMs < s.startedMs then s
    else if s.phase == AwaitingDirectory && nowMs - s.startedMs >= OVERALL_TIMEOUT_MS
    then s.(phase := Failed)
    else if s.phase != Probing then s
    else Settled(s.(candidates := Swept(s.candidates, s.startedMs, nowMs)))
  }

  predicate IsAwaited(s: State, index: nat, r: ProbeResponse, nowMs: nat) {
    && s.phase == Probing && index < |s.candidates|
    && r.wellFormed && r.generation == s.generation
    && var c := s.candidates[index];
       && c.status == Pending && c.probeStartedMs != 0 && r.nonce == c.probeNonce
       && c.probeStartedMs <= nowMs
       && r.capacity != 0 && r.players <= (if r.capacity > MAX_CLIENTS then MAX_CLIENTS else r.capacity)
  }

  function Probed(c: Candidate, r: ProbeResponse, nowMs: nat): Candidate
    requires c.probeStartedMs <= nowMs
  {
    var capacity := if r.capacity > MAX_CLIENTS then MAX_CLIENTS else r.capacity;
    var c := c.(server := c.server.(players := r.players, capacity := capacity));
    if r.players >= capacity then c.(status := Unavailable)
    else
      var elapsed := nowMs - c.probeStartedMs;
      c.(latencyMs := if elapsed > MAX_LATENCY_MS then MAX_LATENCY_MS else elapsed,
         status := Reachable)
  }

  /** A probe is sent to a candidate, once. */
  function Launched(s: State, index: nat, nonce: uint32, nowMs: nat): (State, bool) {
    if s.phase != Probing || index >= |s.candidates| || nonce == 0 || nowMs < s.startedMs
    then (s, false)
    else
      var c := s.candidates[index];
      if c.status != Pending || c.probeStartedMs != 0 then (s, false)
      else
        (s.(candidates := s.candidates[index :=
              c.(probeNonce := nonce, probeStartedMs := if nowMs == 0 then 1 else nowMs)]), true)
  }

  /** An answer to one arrives. */
  function Answered(s: State, index: nat, r: ProbeResponse, nowMs: nat): (State, bool) {
    if IsAwaited(s, index, r, nowMs) then
      (Settled(s.(candidates := s.candidates[index :=
                    Probed(s.candidates[index], r, nowMs)])), true)
    else (s, false)
  }

  /** What every reachable probing state satisfies: it is still waiting for somebody, and servers
      reported reachable have room. */
  ghost predicate ProbingOk(s: State) {
    && (s.phase == AwaitingDirectory ==> AllPending(s.candidates))
    && (s.phase == Probing ==> HasPending(s.candidates))
    && forall i :: 0 <= i < |s.candidates| && s.candidates[i].status == Reachable ==>
         HasRoom(s.candidates[i].server) && s.candidates[i].latencyMs <= MAX_LATENCY_MS
  }

  /** Looking at the clock after the overall timeout always ends the search. */
  lemma SearchEnds(s: State, nowMs: nat)
    requires nowMs >= s.startedMs + OVERALL_TIMEOUT_MS
    ensures Updated(s, nowMs).phase != AwaitingDirectory && Updated(s, nowMs).phase != Probing
    ensures ProbingOk(s) ==> ProbingOk(Updated(s, nowMs))
  {
    var swept := Swept(s.candidates, s.startedMs, nowMs);
    assert !HasPending(swept);
  }

  lemma {:induction false} AddedArePending(s: State, entries: seq<Server>)
    requires AllPending(s.candidates)
    ensures AllPending(AddEntries(s, entries).candidates)
  {
    hide IsUsable, CountsAsFull;
    if entries != [] {
      AddedArePending(s, entries[..|entries| - 1]);
    }
  }

  lemma IngestedIsOk(s: State, p: ListPacket, nowMs: nat)
    requires ProbingOk(s) && HasNoneFrom(s.receivedChunks, s.chunkCount)
    ensures var s' := Ingested(s, p, nowMs);
            ProbingOk(s') && HasNoneFrom(s'.receivedChunks, s'.chunkCount)
  {
    hide Bit, SetBit, AllOnes, AddEntries;
    if IsAcceptableChunk(s, p, nowMs) {
      var s1 := s.(chunkCount := p.chunkCount);
      AddedArePending(s1, p.entries);
      AddEntriesOnlyAdds(s1, p.entries);
      var s' := Ingested(s, p, nowMs);
      forall c: nat | c >= s'.chunkCount
        ensures !Bit(s'.receivedChunks, c)
      {
        BitAfterSet(s.receivedChunks, p.chunkIndex, c);
      }
      assert AllPending(s'.candidates);
      if s'.phase == Probing {
        assert s'.candidates[0].status == Pending;
      }
    }
  }

  class DiscoveryState {
    var phase: Phase
    var generation: uint32
    var startedMs: nat
    var receivedChunks: nat
    var chunkCount: nat
    var fullServers: nat
    var count: nat
    const candidates: array<Candidate>

    ghost predicate Valid()
      reads this, candidates
    {
      && candidates.Length == MAX_ENTRIES && count <= MAX_ENTRIES
      && chunkCount <= MAX_ENTRIES && HasNoneFrom(receivedChunks, chunkCount)
      && ProbingOk(Model())
    }

    function Model(): State
      requires count <= candidates.Length
      reads this, candidates
    {
      State(phase, generation, startedMs, receivedChunks, chunkCount, fullServers,
            candidates[..count])
    }

    constructor ()
      ensures Valid() && fresh(candidates) && Model() == IDLE
    {
      candidates := new Candidate[MAX_ENTRIES];
      phase, generation, startedMs, receivedChunks := Idle, 0, 0, 0;
      chunkCount, fullServers, count := 0, 0, 0;
      new;
      forall c: nat ensures !Bit(0, c) { ZeroHasNoBits(c); }
    }

    method Begin(newGeneration: uint32, nowMs: nat)
      requires Valid()
      modifies this
      ensures Valid() && Model() == Begun(newGeneration, nowMs)
    {
      forall c: nat ensures !Bit(0, c) { ZeroHasNoBits(c); }
      receivedChunks, chunkCount, fullServers, count := 0, 0, 0, 0;
      if newGeneration == 0 {
        phase, generation, startedMs := Failed, 0, 0;
      } else {
        phase, generation, startedMs := AwaitingDirectory, newGeneration, nowMs;
      }
    }

    method AddDirectoryEntry(entry: Server)
      requires candidates.Length == MAX_ENTRIES && count <= MAX_ENTRIES
      modifies `fullServers, `count, candidates
      ensures count <= MAX_ENTRIES
      ensures Model() == AddEntry(old(Model()), entry)
    {
      hide IsUsable, CountsAsFull;
      ghost var before := candidates[..count];
      if CountsAsFull(entry) {
        fullServers := fullServers + 1;
      }
      var e := Clamped(entry);
      if !IsUsable(entry) || e.players >= e.capacity {
        return;
      }
      for index := 0 to count
        invariant forall i :: 0 <= i < index ==> !SameEndpoint(candidates[i].server, e)
      {
        if SameEndpoint(candidates[index].server, e) {
          assert before[index] == candidates[index];
          assert KnowsEndpoint(before, e);
          return;
        }
      }
      if count < MAX_ENTRIES {
        candidates[count] := Candidate(e, 0, 0, 0, Pending);
        count := count + 1;
        assert candidates[..count] == old(candidates[..count]) + [Candidate(e, 0, 0, 0, Pending)];
      }
    }

    method AddDirectoryEntries(entries: seq<Server>)
      requires candidates.Length == MAX_ENTRIES && count <= MAX_ENTRIES
      modifies `fullServers, `count, candidates
      ensures count <= MAX_ENTRIES
      ensures Model() == AddEntries(old(Model()), entries)
    {
      hide AddEntry;
      for index := 0 to |entries|
        invariant count <= MAX_ENTRIES
        invariant Model() == AddEntries(old(Model()), entries[..index])
      {
        AddDirectoryEntry(entries[index]);
        assert entries[..index + 1][..index] == entries[..index];
      }
      assert entries[..|entries|] == entries;
    }

    method IngestDirectory(packet: ListPacket, nowMs: nat) returns (ok: bool)
      requires Valid()
      modifies this, candidates
      ensures Valid()
      ensures ok == IsAcceptableChunk(old(Model()), packet, nowMs)
      ensures Model() == Ingested(old(Model()), packet, nowMs)
    {
      hide Bit, SetBit, AllOnes, AddEntries, ProbingOk, HasNoneFrom;
      IngestedIsOk(Model(), packet, nowMs);
      if !IsAcceptableChunk(Model(), packet, nowMs) {
        return false;
      }
      chunkCount := packet.chunkCount;
      if !Bit(receivedChunks, packet.chunkIndex) {
        AddEntriesOnlyAdds(Model(), packet.entries);
        AddDirectoryEntries(packet.entries);
        receivedChunks := SetBit(receivedChunks, packet.chunkIndex);
      }
      ThirtyTwoOnes();
      var everyChunk := if chunkCount == 32 then 0xFFFF_FFFF else AllOnes(chunkCount);
      if receivedChunks == everyChunk {
        phase := if count == 0 then Complete else Probing;
      }
      return true;
    }

    method MaybeFinish()
      requires count <= candidates.Length
      modifies `phase
      ensures Model() == Settled(old(Model()))
    {
      if phase != Probing {
        return;
      }
      for index := 0 to count
        invariant forall i :: 0 <= i < index ==> candidates[i].status != Pending
      {
        if candidates[index].status == Pending {
          assert candidates[..count][index].status == Pending;
          return;
        }
      }
      phase := Complete;
    }

    method StartProbe(index: nat, nonce: uint32, nowMs: nat) returns (ok: bool)
      requires Valid()
      modifies candidates
      ensures Valid()
      ensures (Model(), ok) == Launched(old(Model()), index, nonce, nowMs)
    {
      if phase != Probing || index >= count || nonce == 0 || nowMs < startedMs {
        return false;
      }
      var candidate := candidates[index];
      if candidate.status != Pending || candidate.probeStartedMs != 0 {
        return false;
      }
      candidates[index] := candidate.(probeNonce := nonce,
                                      probeStartedMs := if nowMs == 0 then 1 else nowMs);
      assert candidates[..count][index].status == Pending;
      return true;
    }

    method AcceptProbe(index: nat, response: ProbeResponse, nowMs: nat) returns (ok: bool)
      requires Valid()
      modifies this, candidates
      ensures Valid()
      ensures (Model(), ok) == Answered(old(Model()), index, response, nowMs)
    {
      if !IsAwaited(Model(), index, response, nowMs) {
        return false;
      }
      candidates[index] := Probed(candidates[index], response, nowMs);
      MaybeFinish();
      return true;
    }

    /** Give up on candidates whose time is over. */
    method Sweep(nowMs: nat)
      requires count <= candidates.Length
      modifies candidates
      ensures candidates[..count] == Swept(old(candidates[..count]), startedMs, nowMs)
    {
      ghost var before := candidates[..count];
      for index := 0 to count
        invariant forall i :: 0 <= i < count ==>
                    candidates[i] == if i < index && HasTimedOut(before[i], startedMs, nowMs)
                                     then before[i].(status := Unavailable) else before[i]
      {
        if HasTimedOut(candidates[index], startedMs, nowMs) {
          candidates[index] := candidates[index].(status := Unavailable);
        }
      }
    }

    method Update(nowMs: nat)
      requires Valid()
      modifies this, candidates
      ensures Valid()
      ensures Model() == Updated(old(Model()), nowMs)
    {
      if nowMs < startedMs {
        return;
      }
      if phase == AwaitingDirectory && nowMs - startedMs >= OVERALL_TIMEOUT_MS {
        phase := Failed;
        return;
      }
      if phase != Probing {
        return;
      }
      Sweep(nowMs);
      MaybeFinish();
    }
  }
}
