/** What the client makes of roster packets, whoever sends them. */
module RosterIntake {
  import opened Serial
  import opened Bitmask
  import opened Roster

  /** The packet is one piece of a list, of at most 128 players, and says so. */
  ghost predicate IsPieceOf(p: Packet, lobbyId: uint32, list: seq<Entry>) {
    && p.rightSize && p.lobbyId == lobbyId && p.generation > 0
    && |list| == p.total <= 256
    && p.chunkCount == (if |list| > 128 then 2 else 1)
    && p.chunkIndex < p.chunkCount
    && p.players == list[128 * p.chunkIndex..if |list| > 128 * (p.chunkIndex + 1)
                                             then 128 * (p.chunkIndex + 1) else |list|]
  }

  lemma ChunksInFigures(total: nat)
    requires total <= 256
    ensures ChunksFor(total) == if total > 128 then 2 else 1
  {
  }

  lemma PieceIsShaped(p: Packet, lobbyId: uint32, list: seq<Entry>)
    requires IsPieceOf(p, lobbyId, list)
    ensures IsShaped(lobbyId, p)
  {
    hide ChunksFor;
    ChunksInFigures(|list|);
    assert p.chunkIndex == 0 || p.chunkIndex == 1;
  }

  lemma ShapedIsAPiece(p: Packet, lobbyId: uint32) returns (list: seq<Entry>)
    requires IsShaped(lobbyId, p)
    ensures IsPieceOf(p, lobbyId, list)
  {
    hide ChunksFor;
    ChunksInFigures(p.total);
    assert p.chunkIndex == 0 || p.chunkIndex == 1;
    var first := 128 * p.chunkIndex;
    list := seq(p.total, i => if first <= i < first + |p.players| then p.players[i - first] else BLANK);
    assert p.players == list[first..first + |p.players|];
  }

  /** The checks let through exactly the pieces of lists of at most 256 players. */
  lemma ShapedExactlyWhenAPiece(lobbyId: uint32, p: Packet)
    ensures IsShaped(lobbyId, p) <==> exists list :: IsPieceOf(p, lobbyId, list)
  {
    hide IsShaped, IsPieceOf;
    if IsShaped(lobbyId, p) {
      var list := ShapedIsAPiece(p, lobbyId);
    }
    if list :| IsPieceOf(p, lobbyId, list) {
      PieceIsShaped(p, lobbyId, list);
    }
  }

  /** The packets that make up the present roster: those since the generation last changed, without
      the ones that contradict its first about the number of players. */
  ghost function Heard(lobbyId: uint32, packets: seq<Packet>): seq<Packet> {
    if packets == [] then []
    else
      var heard, p := Heard(lobbyId, packets[..|packets| - 1]), packets[|packets| - 1];
      if !(exists list :: IsPieceOf(p, lobbyId, list)) then heard
      else if heard == [] || heard[0].generation != p.generation then [p]
      else if heard[0].total == p.total then heard + [p]
      else heard
  }

  predicate HasChunk(heard: seq<Packet>, chunk: nat) {
    exists i :: 0 <= i < |heard| && heard[i].chunkIndex == chunk
  }

  /** The player at a place: from the last packet that covers it. */
  function EntryOf(heard: seq<Packet>, place: nat): Entry {
    if heard == [] then BLANK
    else
      var p := heard[|heard| - 1];
      if 128 * p.chunkIndex <= place < 128 * p.chunkIndex + |p.players|
      then p.players[place - 128 * p.chunkIndex]
      else EntryOf(heard[..|heard| - 1], place)
  }

  /** The client's fields in terms of those packets. */
  ghost predicate Tells(s: State, lobbyId: uint32, leftover: seq<Entry>, heard: seq<Packet>) {
    if heard == [] then s == State(lobbyId, false, false, 0, 0, 0, 0, leftover)
    else
      var first := heard[0];
      && s.lobbyId == lobbyId && s.generation == first.generation && s.count == first.total
      && s.chunkCount == first.chunkCount
      && s.matchStarted == heard[|heard| - 1].matchStarted
      && (s.received <==> forall c: nat :: c < first.chunkCount ==> HasChunk(heard, c))
      && |s.entries| == 256 && forall e :: 0 <= e < 256 ==> s.entries[e] == EntryOf(heard, e)
  }

  ghost predicate MaskTells(mask: nat, heard: seq<Packet>) {
    forall c: nat :: Bit(mask, c) <==> HasChunk(heard, c)
  }

  ghost predicate AreAlike(heard: seq<Packet>, lobbyId: uint32) {
    forall i :: 0 <= i < |heard| ==>
      && IsShaped(lobbyId, heard[i])
      && heard[i].generation == heard[0].generation && heard[i].total == heard[0].total
  }

  lemma MaskGrows(mask: nat, heard: seq<Packet>, p: Packet)
    requires MaskTells(mask, heard)
    ensures MaskTells(SetBit(mask, p.chunkIndex), heard + [p])
  {
    hide Bit, SetBit;
    var all := heard + [p];
    forall c: nat
      ensures Bit(SetBit(mask, p.chunkIndex), c) <==> HasChunk(all, c)
    {
      BitAfterSet(mask, p.chunkIndex, c);
      if HasChunk(heard, c) {
        var i :| 0 <= i < |heard| && heard[i].chunkIndex == c;
        assert all[i].chunkIndex == c;
      }
      assert all[|heard|] == p;
    }
  }

  lemma FullExactlyWhenAllHeard(mask: nat, heard: seq<Packet>, lobbyId: uint32)
    requires MaskTells(mask, heard) && AreAlike(heard, lobbyId) && heard != []
    ensures mask == AllOnes(heard[0].chunkCount) <==>
              forall c: nat :: c < heard[0].chunkCount ==> HasChunk(heard, c)
  {
    hide Bit, AllOnes;
    var n := heard[0].chunkCount;
    forall c: nat | c >= n
      ensures !Bit(mask, c)
    {
      forall i | 0 <= i < |heard|
        ensures heard[i].chunkIndex != c
      {
      }
    }
    FullExactlyWhenEveryBit(mask, n);
  }

  lemma EntriesGrow(entries: seq<Entry>, heard: seq<Packet>, p: Packet)
    requires |entries| == 256 && 128 * p.chunkIndex + |p.players| <= 256
    requires forall e :: 0 <= e < 256 ==> entries[e] == EntryOf(heard, e)
    ensures var after := Overlaid(entries, p.chunkIndex * ENTRIES_PER_PACKET, p.players);
            forall e :: 0 <= e < 256 ==> after[e] == EntryOf(heard + [p], e)
  {
    assert (heard + [p])[..|heard|] == heard;
  }

  lemma OneMoreTells(s: State, p: Packet, lobbyId: uint32, leftover: seq<Entry>, heard: seq<Packet>)
    requires Tells(s, lobbyId, leftover, heard) && MaskTells(s.receivedChunks, heard)
    requires heard != [] && AreAlike(heard, lobbyId) && AreAlike(heard + [p], lobbyId)
    ensures |s.entries| == MAX_PARTICIPANTS
    ensures var after := Handled(s, p);
            && Tells(after, lobbyId, leftover, heard + [p])
            && MaskTells(after.receivedChunks, heard + [p])
  {
    hide Bit, SetBit, AllOnes, Overlaid, MaskTells, EntryOf, HasChunk;
    var all := heard + [p];
    assert all[|heard|] == p && all[0] == heard[0];
    SameCounts(heard[0], p, lobbyId);
    ShapedFits(lobbyId, p);
    MaskGrows(s.receivedChunks, heard, p);
    FullExactlyWhenAllHeard(SetBit(s.receivedChunks, p.chunkIndex), all, lobbyId);
    EntriesGrow(s.entries, heard, p);
  }

  lemma SameCounts(p: Packet, q: Packet, lobbyId: uint32)
    requires IsShaped(lobbyId, p) && IsShaped(lobbyId, q) && p.total == q.total
    ensures p.chunkCount == q.chunkCount
  {
  }

  lemma FirstTells(s: State, p: Packet, lobbyId: uint32, leftover: seq<Entry>)
    requires s.lobbyId == lobbyId && |s.entries| == MAX_PARTICIPANTS
    requires IsShaped(lobbyId, p) && s.generation != p.generation
    ensures var after := Handled(s, p);
            Tells(after, lobbyId, leftover, [p]) && MaskTells(after.receivedChunks, [p])
  {
    hide Bit, SetBit, AllOnes, Overlaid, MaskTells, EntryOf, HasChunk;
    NothingHeard();
    ShapedFits(lobbyId, p);
    MaskGrows(0, [], p);
    assert [] + [p] == [p];
    FullExactlyWhenAllHeard(SetBit(0, p.chunkIndex), [p], lobbyId);
    EntriesGrow(seq(MAX_PARTICIPANTS, _ => BLANK), [], p);
  }

  lemma NothingHeard()
    ensures MaskTells(0, [])
    ensures forall e: nat :: EntryOf([], e) == BLANK
  {
    forall c: nat
      ensures !Bit(0, c)
    {
      ZeroHasNoBits(c);
    }
  }

  /** Whatever packets arrive, forged and contradictory ones included, the roster is told by the
      packets heard since the generation last changed: its counts by the first of them, the match by
      the last, the players by the last one covering their place, and it counts as received exactly
      when every chunk is among them. */
  lemma {:induction false} EveryRosterIsWhatWasHeard(lobbyId: uint32, leftover: seq<Entry>,
                                                     packets: seq<Packet>)
    requires |leftover| == MAX_PARTICIPANTS
    ensures var s, heard := Run(lobbyId, leftover, packets), Heard(lobbyId, packets);
            && Tells(s, lobbyId, leftover, heard)
            && AreAlike(heard, lobbyId) && MaskTells(s.receivedChunks, heard)
  {
    hide IsShaped, IsPieceOf, MaskTells, Overlaid, Bit, SetBit, AllOnes, EntryOf, HasChunk;
    if packets == [] {
      NothingHeard();
    } else {
      var front, p := packets[..|packets| - 1], packets[|packets| - 1];
      EveryRosterIsWhatWasHeard(lobbyId, leftover, front);
      var s, heard := Run(lobbyId, leftover, front), Heard(lobbyId, front);
      ShapedExactlyWhenAPiece(lobbyId, p);
      if IsShaped(lobbyId, p) {
        ShapedIsNumbered(lobbyId, p);
        if heard == [] || heard[0].generation != p.generation {
          FirstTells(s, p, lobbyId, leftover);
        } else if heard[0].total == p.total {
          assert AreAlike(heard + [p], lobbyId);
          OneMoreTells(s, p, lobbyId, leftover, heard);
        }
      }
    }
  }

  lemma ShapedIsNumbered(lobbyId: uint32, p: Packet)
    requires IsShaped(lobbyId, p)
    ensures p.generation != 0
  {
  }
}
