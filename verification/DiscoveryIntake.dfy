/** What a search takes from directory packets, whoever sends them. */
module DiscoveryIntake {
  import opened Sequences
  import opened Serial
  import opened Bitmask
  import opened Directory
  import opened Discovery

  /** An entry with an id, a name, an endpoint, and sensible counts. */
  predicate IsComplete(e: Server) {
    && e.serverId != 0 && e.port != 0
    && e.name.terminated && e.name.chars != "" && e.host.terminated && e.host.chars != ""
    && e.capacity > 0 && e.players <= e.capacity && e.players <= 256
  }

  /** A complete entry of a server that one more player can join. */
  predicate CanBeJoined(e: Server) {
    IsComplete(e) && e.players < e.capacity && e.players < 256
  }

  predicate IsFullUp(e: Server) {
    IsComplete(e) && e.players == e.capacity
  }

  function FullUp(entries: seq<Server>): nat {
    if entries == [] then 0
    else
      var n := |entries| - 1;
      FullUp(entries[..n]) + (if IsFullUp(entries[n]) then 1 else 0)
  }

  /** At most 32 servers that can be joined, under different endpoints, none of them probed yet. */
  ghost predicate IsSound(candidates: seq<Candidate>) {
    && |candidates| <= MAX_ENTRIES
    && (forall i :: 0 <= i < |candidates| ==>
          && CanBeJoined(candidates[i].server) && candidates[i].server.capacity <= 256
          && candidates[i].status == Pending && candidates[i].probeStartedMs == 0)
    && forall i, j :: 0 <= i < j < |candidates| ==>
         !SameEndpoint(candidates[i].server, candidates[j].server)
  }

  /** One entry: taken if it can be joined, its endpoint is new and there is room. */
  lemma EntryIsTakenExactlyWhen(s: State, e: Server)
    ensures var after := AddEntry(s, e);
            && after.fullServers == s.fullServers + (if IsFullUp(e) then 1 else 0)
            && after.candidates ==
                 (if CanBeJoined(e) && !KnowsEndpoint(s.candidates, e) && |s.candidates| < MAX_ENTRIES
                  then s.candidates + [Candidate(Clamped(e), 0, 0, 0, Pending)]
                  else s.candidates)
            && after.(fullServers := s.fullServers, candidates := s.candidates) == s
  {
    hide KnowsEndpoint;
    ClampedEndpoint(s.candidates, e);
  }

  lemma ClampedEndpoint(candidates: seq<Candidate>, e: Server)
    ensures KnowsEndpoint(candidates, Clamped(e)) <==> KnowsEndpoint(candidates, e)
  {
  }

  lemma EntryKeepsSound(s: State, e: Server)
    requires IsSound(s.candidates)
    ensures IsSound(AddEntry(s, e).candidates)
    ensures CanBeJoined(e) ==>
              KnowsEndpoint(AddEntry(s, e).candidates, e) || |AddEntry(s, e).candidates| == MAX_ENTRIES
    ensures forall i :: 0 <= i < |s.candidates| ==>
              i < |AddEntry(s, e).candidates| && AddEntry(s, e).candidates[i] == s.candidates[i]
  {
    hide AddEntry;
    EntryIsTakenExactlyWhen(s, e);
    var after := AddEntry(s, e).candidates;
    if after != s.candidates {
      assert SameEndpoint(after[|s.candidates|].server, e);
    }
  }

  /** Whatever entries a packet lists: none that can be joined is missed unless the list is full, and
      the full ones are counted. */
  lemma {:induction false} EntriesAreTaken(s: State, entries: seq<Server>)
    requires IsSound(s.candidates)
    ensures var after := AddEntries(s, entries);
            && IsSound(after.candidates) && s.candidates <= after.candidates
            && after.fullServers == s.fullServers + FullUp(entries)
            && (forall e :: e in entries && CanBeJoined(e) ==>
                  KnowsEndpoint(after.candidates, e) || |after.candidates| == MAX_ENTRIES)
  {
    hide AddEntry, IsSound, CanBeJoined, IsFullUp, KnowsEndpoint;
    if entries != [] {
      var n := |entries| - 1;
      var front, last := entries[..n], entries[n];
      EntriesAreTaken(s, front);
      var before := AddEntries(s, front);
      EntryIsTakenExactlyWhen(before, last);
      EntryKeepsSound(before, last);
      forall e | e in entries && CanBeJoined(e)
        ensures var after := AddEntry(before, last).candidates;
                KnowsEndpoint(after, e) || |after| == MAX_ENTRIES
      {
        if e != last {
          assert e in front;
          StillKnown(before.candidates, AddEntry(before, last).candidates, e);
          SoundSize(AddEntry(before, last).candidates);
        }
      }
    }
  }

  lemma SoundSize(candidates: seq<Candidate>)
    requires IsSound(candidates)
    ensures |candidates| <= MAX_ENTRIES
  {
  }

  lemma StillKnown(before: seq<Candidate>, after: seq<Candidate>, e: Server)
    requires before <= after
    ensures KnowsEndpoint(before, e) ==> KnowsEndpoint(after, e)
  {
    if KnowsEndpoint(before, e) {
      var i :| 0 <= i < |before| && SameEndpoint(before[i].server, e);
      assert SameEndpoint(after[i].server, e);
    }
  }

  // ----- any packets -----

  datatype Incoming = Incoming(packet: ListPacket, atMs: nat)

  function AfterPackets(s: State, packets: seq<Incoming>): State {
    if packets == [] then s
    else
      var last := packets[|packets| - 1];
      Ingested(AfterPackets(s, packets[..|packets| - 1]), last.packet, last.atMs)
  }

  /** Whatever packets arrive at a search, well-formed, malformed or forged: what it has collected is
      sound, and packets of other generations have no part in it. Without a generation it has failed
      from the start and stays so. */
  lemma {:induction false} EverySearchIsSound(generation: uint32, startedMs: nat,
                                              packets: seq<Incoming>)
    ensures var s := AfterPackets(Begun(generation, startedMs), packets);
            && IsSound(s.candidates)
            && (generation == 0 ==> s == IDLE.(phase := Failed))
            && (generation != 0 ==> s.phase == AwaitingDirectory || s.phase == Probing
                                    || s.phase == Complete)
            && (s.phase == Probing ==> s.candidates != [])
            && ((forall i :: 0 <= i < |packets| ==> packets[i].packet.generation != generation) ==>
                  s == Begun(generation, startedMs))
  {
    hide AddEntries, IsSound, Bit, SetBit, AllOnes;
    if packets == [] {
      NothingIsSound();
    } else {
      var n := |packets| - 1;
      EverySearchIsSound(generation, startedMs, packets[..n]);
      GenerationIsKept(generation, startedMs, packets[..n]);
      var s, p := AfterPackets(Begun(generation, startedMs), packets[..n]), packets[n].packet;
      EntriesAreTaken(s.(chunkCount := p.chunkCount), p.entries);
      AddingKeepsGeneration(s.(chunkCount := p.chunkCount), p.entries);
      assert packets[..n] + [packets[n]] == packets;
    }
  }

  lemma {:induction false} GenerationIsKept(generation: uint32, startedMs: nat,
                                            packets: seq<Incoming>)
    ensures generation != 0 ==>
              AfterPackets(Begun(generation, startedMs), packets).generation == generation
  {
    hide AddEntries, Bit, SetBit, AllOnes;
    if packets != [] {
      var n := |packets| - 1;
      GenerationIsKept(generation, startedMs, packets[..n]);
      var s := AfterPackets(Begun(generation, startedMs), packets[..n]);
      AddingKeepsGeneration(s.(chunkCount := packets[n].packet.chunkCount), packets[n].packet.entries);
    }
  }

  lemma {:induction false} AddingKeepsGeneration(s: State, entries: seq<Server>)
    ensures AddEntries(s, entries).generation == s.generation
    ensures AddEntries(s, entries).phase == s.phase
  {
    hide AddEntry;
    if entries != [] {
      AddingKeepsGeneration(s, entries[..|entries| - 1]);
      EntryIsTakenExactlyWhen(AddEntries(s, entries[..|entries| - 1]), entries[|entries| - 1]);
    }
  }

  /** A packet with a chunk not seen before has an effect exactly while the search awaits packets, in
      its first five seconds, if the packet speaks this protocol for this search, has at most seven
      entries, and numbers its chunk within at most 32 chunks, as many as every packet so far. */
  lemma NewPacketHasAnEffectExactlyWhen(s: State, p: ListPacket, nowMs: nat)
    requires !Bit(s.receivedChunks, p.chunkIndex)
    ensures Ingested(s, p, nowMs) != s <==>
            && s.phase == AwaitingDirectory && s.startedMs <= nowMs && nowMs - s.startedMs < 5000
            && p.wellFormed && p.version == 1 && p.generation == s.generation
            && |p.entries| <= 7 && p.chunkIndex < p.chunkCount <= 32
            && s.chunkCount in {0, p.chunkCount}
  {
    hide AddEntries;
    BitAfterSet(s.receivedChunks, p.chunkIndex, p.chunkIndex);
  }

  function AfterLooks(s: State, looks: seq<nat>): State {
    if looks == [] then s
    else Updated(AfterLooks(s, looks[..|looks| - 1]), looks[|looks| - 1])
  }

  /** A search that the directory leaves without its last packets has failed exactly when somebody
      looked at the clock five seconds or more after its beginning; until then it waits, and what it
      has collected stays as it is before and after. */
  lemma {:induction false} UnansweredSearchFailsExactlyWhen(s: State, looks: seq<nat>)
    requires s.phase == AwaitingDirectory
    ensures AfterLooks(s, looks) ==
            if exists i :: 0 <= i < |looks| && looks[i] - s.startedMs >= 5000
            then s.(phase := Failed)
            else s
  {
    if looks != [] {
      var front, last := looks[..|looks| - 1], looks[|looks| - 1];
      UnansweredSearchFailsExactlyWhen(s, front);
      if i :| 0 <= i < |front| && front[i] - s.startedMs >= 5000 {
        assert looks[i] == front[i];
      } else {
        assert forall i :: 0 <= i < |front| ==> front[i] == looks[i];
      }
    }
  }

  lemma NothingIsSound()
    ensures IsSound([])
  {
  }
}
