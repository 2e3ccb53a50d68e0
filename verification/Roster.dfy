/** The lobby roster: the server cuts each generation of the list into chunks, and the client
    reassembles whichever generation it heard from last. */
module Roster {
  import opened Serial
  import opened Bitmask

  const MAX_PARTICIPANTS: nat := 256
  const ENTRIES_PER_PACKET: nat := 128
  const MAX_CHUNKS: nat := 2

  datatype Entry = Entry(playerId: uint32, isSpectator: bool, isReady: bool, enteredMatch: bool)

  const BLANK := Entry(0, false, false, false)

  /** rightSize says that the packet's length is the one its entry count calls for. */
  datatype Packet = Packet(rightSize: bool, lobbyId: uint32, generation: uint32, total: nat,
                           chunkIndex: nat, chunkCount: nat, matchStarted: bool,
                           players: seq<Entry>)

  datatype State = State(lobbyId: uint32, received: bool, matchStarted: bool, count: nat,
                         generation: uint32, chunkCount: nat, receivedChunks: nat,
                         entries: seq<Entry>)

  function ChunksFor(total: nat): nat {
    if total == 0 then 1 else (total + ENTRIES_PER_PACKET - 1) / ENTRIES_PER_PACKET
  }

  /** Every check made before the client looks at what it has. */
  predicate IsShaped(lobbyId: uint32, p: Packet) {
    var first := p.chunkIndex * ENTRIES_PER_PACKET;
    && p.rightSize && p.lobbyId == lobbyId && p.generation != 0 && p.total <= MAX_PARTICIPANTS
    && 0 < p.chunkCount <= MAX_CHUNKS && p.chunkIndex < p.chunkCount
    && |p.players| <= ENTRIES_PER_PACKET
    && p.chunkCount == ChunksFor(p.total)
    && first + |p.players| <= p.total
    && (p.chunkIndex + 1 < p.chunkCount ==> |p.players| == ENTRIES_PER_PACKET)
    && (p.chunkIndex + 1 == p.chunkCount ==> first + |p.players| == p.total)
  }

  predicate IsAccepted(s: State, p: Packet) {
    && IsShaped(s.lobbyId, p)
    && (s.generation == p.generation ==> s.chunkCount == p.chunkCount && s.count == p.total)
  }

  function Overlaid(entries: seq<Entry>, first: nat, players: seq<Entry>): (r: seq<Entry>)
    requires first + |players| <= |entries|
    ensures |r| == |entries|
    ensures forall e :: 0 <= e < |r| ==>
              r[e] == if first <= e < first + |players| then players[e - first] else entries[e]
  {
    entries[..first] + players + entries[first + |players|..]
  }

  /** A lobby just entered; the array still holds what an earlier lobby left there. */
  function Joined(lobbyId: uint32, leftover: seq<Entry>): State {
    State(lobbyId, false, false, 0, 0, 0, 0, leftover)
  }

  function Handled(s: State, p: Packet): State
    requires |s.entries| == MAX_PARTICIPANTS
  {
    if !IsAccepted(s, p) then s
    else
      var s := if s.generation == p.generation then s
               else s.(generation := p.generation, chunkCount := p.chunkCount, receivedChunks := 0,
                       count := p.total, entries := seq(MAX_PARTICIPANTS, _ => BLANK));
      var mask := SetBit(s.receivedChunks, p.chunkIndex);
      s.(matchStarted := p.matchStarted, receivedChunks := mask,
         entries := Overlaid(s.entries, p.chunkIndex * ENTRIES_PER_PACKET, p.players),
         received := mask == AllOnes(p.chunkCount))
  }

  function Run(lobbyId: uint32, leftover: seq<Entry>, packets: seq<Packet>): (s: State)
    requires |leftover| == MAX_PARTICIPANTS
    ensures |s.entries| == MAX_PARTICIPANTS
  {
    if packets == [] then Joined(lobbyId, leftover)
    else Handled(Run(lobbyId, leftover, packets[..|packets| - 1]), packets[|packets| - 1])
  }

  // ----- what the server sends -----

  /** Every generation the server ever announced, with its list. */
  type History = map<uint32, seq<Entry>>

  /** The chunk of a list that the server sends under an index. */
  function Chunk(list: seq<Entry>, index: nat): (r: seq<Entry>)
    ensures forall i :: 0 <= i < |r| ==>
              index * ENTRIES_PER_PACKET + i < |list| && r[i] == list[index * ENTRIES_PER_PACKET + i]
  {
    var first := index * ENTRIES_PER_PACKET;
    var remaining := if |list| > first then |list| - first else 0;
    var count := if remaining < ENTRIES_PER_PACKET then remaining else ENTRIES_PER_PACKET;
    if count == 0 then [] else list[first..first + count]
  }

  /** A packet the server may have sent for one of its generations. */
  predicate IsFromServer(history: History, lobbyId: uint32, p: Packet) {
    && p.lobbyId == lobbyId && p.generation != 0 && p.generation in history
    && var list := history[p.generation];
       && |list| <= MAX_PARTICIPANTS && p.total == |list|
       && p.chunkCount == ChunksFor(|list|) && p.chunkIndex < p.chunkCount
       && p.players == Chunk(list, p.chunkIndex) && p.rightSize
  }

  /** Traffic: server packets in any order, lost or repeated at will, and malformed ones. */
  ghost predicate IsTraffic(history: History, lobbyId: uint32, packets: seq<Packet>) {
    forall i :: 0 <= i < |packets| ==>
      IsFromServer(history, lobbyId, packets[i]) || !IsShaped(lobbyId, packets[i])
  }

  /** The generation of the last well-shaped packet; 0 when there was none. */
  function LastGeneration(lobbyId: uint32, packets: seq<Packet>): uint32 {
    if packets == [] then 0
    else
      var last := packets[|packets| - 1];
      if IsShaped(lobbyId, last) then last.generation
      else LastGeneration(lobbyId, packets[..|packets| - 1])
  }

  /** The chunks of that generation that arrived since it last took over from another one. */
  function ArrivedSinceSwitch(lobbyId: uint32, packets: seq<Packet>): set<nat> {
    if packets == [] then {}
    else
      var front, last := packets[..|packets| - 1], packets[|packets| - 1];
      if !IsShaped(lobbyId, last) then ArrivedSinceSwitch(lobbyId, front)
      else if LastGeneration(lobbyId, front) == last.generation
      then ArrivedSinceSwitch(lobbyId, front) + {last.chunkIndex}
      else {last.chunkIndex}
  }

  ghost predicate MaskNotes(mask: nat, arrived: set<nat>) {
    forall c: nat :: Bit(mask, c) <==> c in arrived
  }

  /** The array holds the list wherever its chunk has arrived, and is blank elsewhere. */
  ghost predicate HoldsArrived(entries: seq<Entry>, list: seq<Entry>, arrived: set<nat>) {
    && |entries| == MAX_PARTICIPANTS && |list| <= MAX_PARTICIPANTS
    && forall e :: 0 <= e < MAX_PARTICIPANTS ==>
         entries[e] == if e < |list| && e / ENTRIES_PER_PACKET in arrived then list[e] else BLANK
  }

  ghost predicate AllArrived(arrived: set<nat>, total: nat) {
    forall c: nat :: c < ChunksFor(total) ==> c in arrived
  }

  ghost predicate Inv(s: State, history: History, lobbyId: uint32, arrived: set<nat>) {
    && s.lobbyId == lobbyId
    && MaskNotes(s.receivedChunks, arrived)
    && (s.generation == 0 ==>
          |s.entries| == MAX_PARTICIPANTS && s == Joined(lobbyId, s.entries) && arrived == {})
    && (s.generation != 0 ==>
          && s.generation in history
          && s.count == |history[s.generation]|
          && s.chunkCount == ChunksFor(s.count)
          && (forall c :: c in arrived ==> c < s.chunkCount)
          && HoldsArrived(s.entries, history[s.generation], arrived)
          && (s.received <==> AllArrived(arrived, s.count)))
  }

  lemma ServerPacketsAreShaped(history: History, lobbyId: uint32, p: Packet)
    requires IsFromServer(history, lobbyId, p)
    ensures IsShaped(lobbyId, p)
  {
  }

  lemma OverlayChunk(entries: seq<Entry>, list: seq<Entry>, arrived: set<nat>, index: nat)
    requires HoldsArrived(entries, list, arrived)
    requires index * ENTRIES_PER_PACKET + |Chunk(list, index)| <= MAX_PARTICIPANTS
    ensures HoldsArrived(Overlaid(entries, index * ENTRIES_PER_PACKET, Chunk(list, index)), list,
                         arrived + {index})
  {
    var first, players := index * ENTRIES_PER_PACKET, Chunk(list, index);
    var after := Overlaid(entries, first, players);
    forall e | 0 <= e < MAX_PARTICIPANTS
      ensures after[e] == if e < |list| && e / ENTRIES_PER_PACKET in arrived + {index}
                          then list[e] else BLANK
    {
      if e / ENTRIES_PER_PACKET == index {
        assert first <= e < first + ENTRIES_PER_PACKET;
      }
    }
  }

  lemma NotedArrival(mask: nat, arrived: set<nat>, index: nat, total: nat)
    requires MaskNotes(mask, arrived)
    requires forall c :: c in arrived + {index} ==> c < ChunksFor(total)
    ensures MaskNotes(SetBit(mask, index), arrived + {index})
    ensures SetBit(mask, index) == AllOnes(ChunksFor(total)) <==> AllArrived(arrived + {index}, total)
  {
    hide Bit, SetBit, AllOnes, ChunksFor;
    forall c: nat
      ensures Bit(SetBit(mask, index), c) <==> c in arrived + {index}
    {
      BitAfterSet(mask, index, c);
    }
    FullExactlyWhenEveryBit(SetBit(mask, index), ChunksFor(total));
  }

  lemma ServerPacketKeepsInv(s: State, history: History, lobbyId: uint32, arrived: set<nat>,
                             p: Packet)
    requires Inv(s, history, lobbyId, arrived) && IsFromServer(history, lobbyId, p)
    ensures |s.entries| == MAX_PARTICIPANTS
    ensures var arrived' := if s.generation == p.generation then arrived + {p.chunkIndex}
                            else {p.chunkIndex};
            Inv(Handled(s, p), history, lobbyId, arrived')
  {
    hide Bit, SetBit, AllOnes, ChunksFor, HoldsArrived, MaskNotes, AllArrived, Overlaid, Chunk;
    ServerPacketsAreShaped(history, lobbyId, p);
    var list := history[p.generation];
    assert |s.entries| == MAX_PARTICIPANTS by { InvSize(s, history, lobbyId, arrived); }
    ShapedFits(lobbyId, p);
    if s.generation == p.generation {
      OverlayChunk(s.entries, list, arrived, p.chunkIndex);
      NotedArrival(s.receivedChunks, arrived, p.chunkIndex, p.total);
    } else {
      var blank := seq(MAX_PARTICIPANTS, _ => BLANK);
      StartsBlank(blank, list);
      OverlayChunk(blank, list, {}, p.chunkIndex);
      NotedArrival(0, {}, p.chunkIndex, p.total);
      assert {} + {p.chunkIndex} == {p.chunkIndex};
    }
  }

  lemma InvSize(s: State, history: History, lobbyId: uint32, arrived: set<nat>)
    requires Inv(s, history, lobbyId, arrived)
    ensures |s.entries| == MAX_PARTICIPANTS
  {
  }

  lemma ShapedFits(lobbyId: uint32, p: Packet)
    requires IsShaped(lobbyId, p)
    ensures p.chunkIndex * ENTRIES_PER_PACKET + |p.players| <= MAX_PARTICIPANTS
    ensures p.chunkIndex < ChunksFor(p.total) && p.chunkCount == ChunksFor(p.total)
  {
  }

  lemma StartsBlank(blank: seq<Entry>, list: seq<Entry>)
    requires blank == seq(MAX_PARTICIPANTS, _ => BLANK) && |list| <= MAX_PARTICIPANTS
    ensures HoldsArrived(blank, list, {}) && MaskNotes(0, {})
  {
    forall c: nat ensures !Bit(0, c) { ZeroHasNoBits(c); }
  }

  lemma {:induction false} RunKeepsInv(history: History, lobbyId: uint32, leftover: seq<Entry>,
                                       packets: seq<Packet>)
    requires |leftover| == MAX_PARTICIPANTS
    requires IsTraffic(history, lobbyId, packets)
    ensures var s := Run(lobbyId, leftover, packets);
            && Inv(s, history, lobbyId, ArrivedSinceSwitch(lobbyId, packets))
            && s.generation == LastGeneration(lobbyId, packets)
  {
    hide Inv, IsShaped, IsFromServer;
    if packets == [] {
      NothingArrived(history, lobbyId, leftover);
    } else {
      var front, last := packets[..|packets| - 1], packets[|packets| - 1];
      RunKeepsInv(history, lobbyId, leftover, front);
      var s := Run(lobbyId, leftover, front);
      assert s.lobbyId == lobbyId by { InvLobby(s, history, lobbyId, ArrivedSinceSwitch(lobbyId, front)); }
      if IsFromServer(history, lobbyId, last) {
        ServerPacketsAreShaped(history, lobbyId, last);
        ServerPacketKeepsInv(s, history, lobbyId, ArrivedSinceSwitch(lobbyId, front), last);
        TakesOver(s, history, lobbyId, ArrivedSinceSwitch(lobbyId, front), last);
      }
    }
  }

  lemma InvLobby(s: State, history: History, lobbyId: uint32, arrived: set<nat>)
    requires Inv(s, history, lobbyId, arrived)
    ensures s.lobbyId == lobbyId
  {
  }

  lemma NothingArrived(history: History, lobbyId: uint32, leftover: seq<Entry>)
    requires |leftover| == MAX_PARTICIPANTS
    ensures Inv(Joined(lobbyId, leftover), history, lobbyId, {})
  {
    forall c: nat ensures !Bit(0, c) { ZeroHasNoBits(c); }
  }

  lemma TakesOver(s: State, history: History, lobbyId: uint32, arrived: set<nat>, p: Packet)
    requires Inv(s, history, lobbyId, arrived) && IsFromServer(history, lobbyId, p)
    ensures |s.entries| == MAX_PARTICIPANTS && Handled(s, p).generation == p.generation
  {
    hide Bit, SetBit, AllOnes, ChunksFor, HoldsArrived, MaskNotes, AllArrived;
    ServerPacketsAreShaped(history, lobbyId, p);
    InvSize(s, history, lobbyId, arrived);
  }

  /** For any interleaving of chunks of any generations, with losses, repeats and malformed packets:
      the roster counts as received exactly when every chunk of the recorded generation has arrived
      since that generation last took over, and then the array is that generation's list. */
  lemma ReceivedExactlyWhenWhole(history: History, lobbyId: uint32, leftover: seq<Entry>,
                                 packets: seq<Packet>)
    requires |leftover| == MAX_PARTICIPANTS
    requires IsTraffic(history, lobbyId, packets)
    ensures var s := Run(lobbyId, leftover, packets);
            var generation := LastGeneration(lobbyId, packets);
            && s.generation == generation
            && (s.received <==>
                  && generation != 0 && generation in history
                  && AllArrived(ArrivedSinceSwitch(lobbyId, packets), |history[generation]|))
            && (s.received ==>
                  && s.count == |history[generation]| <= MAX_PARTICIPANTS
                  && s.entries[..s.count] == history[generation]
                  && forall e :: s.count <= e < MAX_PARTICIPANTS ==> s.entries[e] == BLANK)
  {
    RunKeepsInv(history, lobbyId, leftover, packets);
    var s := Run(lobbyId, leftover, packets);
    if s.received {
      var list := history[s.generation];
      forall e | 0 <= e < |list|
        ensures s.entries[e] == list[e]
      {
        assert e / ENTRIES_PER_PACKET < ChunksFor(|list|);
      }
    }
  }

  /** The roster fields of the client's network state. */
  class ClientRoster {
    var lobbyId: uint32
    var received: bool
    var matchStarted: bool
    var count: nat
    var generation: uint32
    var chunkCount: nat
    var receivedChunks: nat
    const entries: array<Entry>

    ghost predicate Valid()
      reads this
    {
      entries.Length == MAX_PARTICIPANTS
    }

    ghost function Model(): State
      reads this, entries
    {
      State(lobbyId, received, matchStarted, count, generation, chunkCount, receivedChunks,
            entries[..])
    }

    /** Entering a lobby forgets every generation; the array's old entries stay unread. */
    method Join(newLobbyId: uint32)
      requires Valid()
      modifies this
      ensures Valid()
      ensures Model() == Joined(newLobbyId, old(entries[..]))
    {
      lobbyId, received, matchStarted, count := newLobbyId, false, false, 0;
      generation, chunkCount, receivedChunks := 0, 0, 0;
    }

    method HandleLobbyRoster(packet: Packet)
      requires Valid()
      modifies this, entries
      ensures Valid()
      ensures Model() == Handled(old(Model()), packet)
    {
      hide SetBit, AllOnes, IsShaped, Overlaid;
      if !IsShaped(lobbyId, packet) {
        return;
      }
      ShapedFits(lobbyId, packet);
      var first := packet.chunkIndex * ENTRIES_PER_PACKET;
      if generation != packet.generation {
        generation, chunkCount, receivedChunks := packet.generation, packet.chunkCount, 0;
        received, count := false, packet.total;
        forall e | 0 <= e < MAX_PARTICIPANTS {
          entries[e] := BLANK;
        }
        assert entries[..] == seq(MAX_PARTICIPANTS, _ => BLANK);
      } else if chunkCount != packet.chunkCount || count != packet.total {
        return;
      }
      matchStarted := packet.matchStarted;
      ghost var before := entries[..];
      forall i | 0 <= i < |packet.players| {
        entries[first + i] := packet.players[i];
      }
      assert entries[..] == Overlaid(before, first, packet.players);
      receivedChunks := SetBit(receivedChunks, packet.chunkIndex);
      received := receivedChunks == AllOnes(packet.chunkCount);
    }
  }
}
