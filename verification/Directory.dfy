/** The server directory: a fixed table of advertised servers, refreshed by heartbeats, expired by
    age, and published as numbered chunks. */
module Directory {
  import opened Sequences
  import opened Serial
  import opened Bitmask

  const MAX_ENTRIES: nat := 32
  const ENTRIES_PER_PACKET: nat := 7
  const HOST_LENGTH: nat := 64
  const MAX_CLIENTS: nat := 256
  const ENTRY_TTL_MS: nat := 15000
  const PROTOCOL_VERSION: nat := 1

  /** A fixed character array: the characters before its first NUL, and whether it has one. */
  datatype Text = Text(chars: string, terminated: bool)

  datatype Server = Server(serverId: uint64, name: Text, host: Text, port: uint16, players: uint16,
                           capacity: uint16, reserved: uint16)

  /** wellFormed stands for the packet's type and size checks. */
  datatype Heartbeat = Heartbeat(wellFormed: bool, version: nat, server: Server)

  datatype Slot = Free | Active(server: Server, lastSeenMs: nat)

  predicate IsPrint(c: char) {
    ' ' <= c <= '~'
  }

  predicate IsHostChar(c: char) {
    || '0' <= c <= '9' || 'a' <= c <= 'z' || 'A' <= c <= 'Z'
    || c == '.' || c == '-' || c == ':'
  }

  predicate IsPrintableText(t: Text) {
    && t.terminated
    && (forall i :: 0 <= i < |t.chars| ==> IsPrint(t.chars[i]))
    && (exists i :: 0 <= i < |t.chars| && t.chars[i] != ' ')
  }

  predicate IsAdvertisedHost(t: Text) {
    && t.terminated && t.chars != []
    && (forall i :: 0 <= i < |t.chars| ==> IsHostChar(t.chars[i]))
    && t.chars != "0.0.0.0" && t.chars != "::"
  }

  predicate SameEndpoint(a: Server, b: Server) {
    a.port == b.port && a.host.chars == b.host.chars
  }

  const FNV_OFFSET: uint64 := 1469598103934665603
  const FNV_PRIME: nat := 1099511628211

  /** A byte reaches the last eight bits of the hash only. */
  function XorByte(hash: uint64, byte: Byte): (mixed: uint64)
    ensures mixed / 256 == hash / 256
  {
    XorOfBytes(hash % 256, byte);
    OtherLastByte(hash, Xor(hash % 256, byte));
    hash / 256 * 256 + Xor(hash % 256, byte)
  }

  lemma OtherLastByte(hash: uint64, low: nat)
    requires low < 256
    ensures hash / 256 * 256 + low < WRAP_64 && (hash / 256 * 256 + low) / 256 == hash / 256
  {
    assert hash / 256 <= WRAP_64 / 256 - 1;
  }

  lemma XorOfBytes(a: Byte, b: Byte)
    ensures Xor(a, b) < 256
  {
    assert AllOnes(8) == 255;
    XorStaysBelow(a, b, 8);
  }

  function HashByte(hash: uint64, byte: Byte): uint64 {
    XorByte(hash, byte) * FNV_PRIME % WRAP_64
  }

  function HashText(hash: uint64, text: string): uint64
    decreases |text|
  {
    if text == [] then hash else HashText(HashByte(hash, text[0] as nat % 256), text[1..])
  }

  /** FNV-1a over the host and the two bytes of the port; zero is reserved. */
  function StableEndpointId(host: string, port: uint16): uint64 {
    var hash := HashByte(HashByte(HashText(FNV_OFFSET, host), port / 256), port % 256);
    if hash == 0 then 1 else hash
  }

  /** The entry a heartbeat asks to register, under the host it was seen to come from. */
  function Advertised(heartbeat: Heartbeat, observedHost: string): Server {
    heartbeat.server.(host := Text(observedHost, true),
                      serverId := StableEndpointId(observedHost, heartbeat.server.port))
  }

  predicate IsValidEntry(e: Server) {
    && e.serverId != 0 && IsPrintableText(e.name) && IsAdvertisedHost(e.host)
    && e.port != 0 && e.capacity != 0 && e.players <= e.capacity && e.players <= MAX_CLIENTS
  }

  function Clamped(e: Server): Server {
    e.(capacity := if e.capacity > MAX_CLIENTS then MAX_CLIENTS else e.capacity, reserved := 0)
  }

  predicate IsAcceptable(heartbeat: Heartbeat, observedHost: string) {
    && heartbeat.wellFormed && heartbeat.version == PROTOCOL_VERSION
    && |observedHost| < HOST_LENGTH
    && IsValidEntry(Advertised(heartbeat, observedHost))
  }

  /** Entries as the table keeps them. */
  predicate IsKept(e: Server) {
    && IsValidEntry(e) && e.capacity <= MAX_CLIENTS && e.reserved == 0
    && e.serverId == StableEndpointId(e.host.chars, e.port)
  }

  ghost predicate HasId(s: Slot, id: uint64) {
    s.Active? && s.server.serverId == id
  }

  /** A heartbeat for this id is not older than what the table knows, and there is a slot for it. */
  ghost predicate MayRegister(slots: seq<Slot>, id: uint64, nowMs: nat) {
    && (forall i :: 0 <= i < |slots| && HasId(slots[i], id) ==> slots[i].lastSeenMs <= nowMs)
    && (exists i :: 0 <= i < |slots| && (HasId(slots[i], id) || slots[i].Free?))
  }

  /** The slot that has the id; without one, the first free slot. */
  ghost predicate IsTarget(slots: seq<Slot>, id: uint64, target: nat) {
    && target < |slots|
    && (HasId(slots[target], id) ||
        (&& slots[target].Free?
         && (forall i :: 0 <= i < target ==> slots[i].Active?)
         && (forall i :: 0 <= i < |slots| ==> !HasId(slots[i], id))))
  }

  /** What every reachable table satisfies. */
  ghost predicate Sound(slots: seq<Slot>) {
    && |slots| == MAX_ENTRIES
    && (forall i :: 0 <= i < |slots| && slots[i].Active? ==> IsKept(slots[i].server))
    && (forall i, j :: 0 <= i < j < |slots| && slots[i].Active? && slots[j].Active? ==>
          slots[i].server.serverId != slots[j].server.serverId)
  }

  /** The servers of a table, in slot order. */
  function ActiveServers(slots: seq<Slot>): seq<Server> {
    if slots == [] then []
    else
      var last := slots[|slots| - 1];
      ActiveServers(slots[..|slots| - 1]) + (if last.Active? then [last.server] else [])
  }

  ghost predicate InTable(slots: seq<Slot>, e: Server) {
    exists i :: 0 <= i < |slots| && slots[i].Active? && slots[i].server == e
  }

  /** A list that can be published: valid entries with pairwise different endpoints. */
  ghost predicate Publishable(entries: seq<Server>) {
    && |entries| <= MAX_ENTRIES
    && (forall i :: 0 <= i < |entries| ==> IsKept(entries[i]))
    && (forall i, j :: 0 <= i < j < |entries| ==> !SameEndpoint(entries[i], entries[j]))
  }

  ghost predicate HasDistinctIds(entries: seq<Server>) {
    forall i, j :: 0 <= i < j < |entries| ==> entries[i].serverId != entries[j].serverId
  }

  /** The snapshot of a sound table keeps its ids distinct, and distinct ids make distinct endpoints,
      because an id is a function of the endpoint; so the snapshot is publishable. */
  lemma {:induction false} SnapshotIsPublishable(slots: seq<Slot>)
    requires |slots| <= MAX_ENTRIES
    requires forall i :: 0 <= i < |slots| && slots[i].Active? ==> IsKept(slots[i].server)
    requires forall i, j :: 0 <= i < j < |slots| && slots[i].Active? && slots[j].Active? ==>
               slots[i].server.serverId != slots[j].server.serverId
    ensures |ActiveServers(slots)| <= |slots|
    ensures forall k :: 0 <= k < |ActiveServers(slots)| ==>
              InTable(slots, ActiveServers(slots)[k])
    ensures Publishable(ActiveServers(slots)) && HasDistinctIds(ActiveServers(slots))
  {
    hide StableEndpointId, IsValidEntry;
    if slots != [] {
      var n := |slots| - 1;
      var front := slots[..n];
      SnapshotIsPublishable(front);
      var a, all := ActiveServers(front), ActiveServers(slots);
      forall k | 0 <= k < |a|
        ensures InTable(slots, a[k])
        ensures slots[n].Active? ==> !SameEndpoint(a[k], slots[n].server)
        ensures slots[n].Active? ==> a[k].serverId != slots[n].server.serverId
      {
        assert InTable(front, a[k]);
        var i :| 0 <= i < |front| && front[i].Active? && front[i].server == a[k];
        assert slots[i] == front[i];
      }
      if slots[n].Active? {
        assert InTable(slots, slots[n].server);
      }
    }
  }

  lemma AppendSlot(front: seq<Slot>, s: Slot)
    ensures ActiveServers(front + [s]) ==
            ActiveServers(front) + (if s.Active? then [s.server] else [])
  {
    assert (front + [s])[..|front|] == front;
  }

  class Registry {
    const registrations: array<Slot>

    ghost predicate Valid()
      reads this, registrations
    {
      Sound(registrations[..])
    }

    constructor ()
      ensures Valid() && fresh(registrations)
      ensures ActiveServers(registrations[..]) == []
    {
      registrations := new Slot[MAX_ENTRIES](_ => Free);
      new;
      NoneActive(registrations[..]);
    }

    /** Find what the table already knows: the slot with this id, the slot with this endpoint, and
        the first free one; |table| stands for none. */
    method Scan(entry: Server) returns (idMatch: nat, endpointMatch: nat, available: nat)
      requires Valid() && entry.serverId == StableEndpointId(entry.host.chars, entry.port)
      ensures idMatch <= MAX_ENTRIES && endpointMatch <= MAX_ENTRIES && available <= MAX_ENTRIES
      ensures forall i :: 0 <= i < MAX_ENTRIES ==>
                (HasId(registrations[i], entry.serverId) <==> i == idMatch)
      ensures endpointMatch != MAX_ENTRIES ==> endpointMatch == idMatch
      ensures forall i :: 0 <= i < available ==> registrations[i].Active?
      ensures available < MAX_ENTRIES ==> registrations[available].Free?
    {
      hide StableEndpointId, IsValidEntry;
      idMatch, endpointMatch, available := MAX_ENTRIES, MAX_ENTRIES, MAX_ENTRIES;
      for index := 0 to MAX_ENTRIES
        invariant idMatch < index || idMatch == MAX_ENTRIES
        invariant forall i :: 0 <= i < index ==>
                    (HasId(registrations[i], entry.serverId) <==> i == idMatch)
        invariant endpointMatch != MAX_ENTRIES ==> endpointMatch == idMatch
        invariant available < index || available == MAX_ENTRIES
        invariant forall i :: 0 <= i < index && i < available ==> registrations[i].Active?
        invariant available < MAX_ENTRIES ==> registrations[available].Free?
      {
        var registration := registrations[index];
        if registration.Active? {
          ghost var slots := registrations[..];
          assert slots[index] == registration && IsKept(registration.server);
          if registration.server.serverId == entry.serverId {
            assert idMatch < index ==> slots[idMatch] == registrations[idMatch];
            idMatch := index;
          }
          if SameEndpoint(registration.server, entry) {
            endpointMatch := index;
          }
        } else if available == MAX_ENTRIES {
          available := index;
        }
      }
    }

    /** Register a heartbeat. The entry goes to the slot that has its id, or else to the first free
        one; nothing else changes, and the slot of a different endpoint match never has to be erased. */
    method Register(heartbeat: Heartbeat, observedHost: string, nowMs: nat)
      returns (ok: bool, ghost target: nat)
      requires Valid()
      modifies registrations
      ensures Valid()
      ensures ok <==> IsAcceptable(heartbeat, observedHost) &&
                      MayRegister(old(registrations[..]),
                                  Advertised(heartbeat, observedHost).serverId, nowMs)
      ensures !ok ==> registrations[..] == old(registrations[..])
      ensures ok ==>
                var entry := Clamped(Advertised(heartbeat, observedHost));
                && IsTarget(old(registrations[..]), entry.serverId, target)
                && registrations[..] == old(registrations[..])[target := Active(entry, nowMs)]
    {
      hide StableEndpointId, IsPrintableText, IsAdvertisedHost;
      target := 0;
      if !IsAcceptable(heartbeat, observedHost) {
        return false, 0;
      }
      var entry := Clamped(Advertised(heartbeat, observedHost));
      var idMatch, endpointMatch, available := Scan(entry);
      if idMatch != MAX_ENTRIES && nowMs < registrations[idMatch].lastSeenMs {
        return false, 0;
      }
      if endpointMatch != MAX_ENTRIES && nowMs < registrations[endpointMatch].lastSeenMs {
        // The source would refuse here too, but the id's slot has refused already.
        assert false;
      }
      var slot := if idMatch != MAX_ENTRIES then idMatch else endpointMatch;
      if slot == MAX_ENTRIES {
        slot := available;
      }
      if slot == MAX_ENTRIES {
        return false, 0;
      }
      if idMatch != MAX_ENTRIES && endpointMatch != MAX_ENTRIES && idMatch != endpointMatch {
        // The source would erase the endpoint's slot here; no reachable table gets this far.
        assert false;
      }
      registrations[slot] := Active(entry, nowMs);
      ok, target := true, slot;
    }

    /** Free every slot that has not been heard from for the entry lifetime. */
    method EvictExpired(nowMs: nat) returns (evicted: nat)
      requires Valid()
      modifies registrations
      ensures Valid()
      ensures forall i :: 0 <= i < MAX_ENTRIES ==>
                registrations[i] == if IsExpired(old(registrations[i]), nowMs) then Free
                                    else old(registrations[i])
      ensures evicted == |ActiveServers(old(registrations[..]))| - |ActiveServers(registrations[..])|
    {
      hide IsKept, ActiveServers;
      evicted := 0;
      assert ActiveServers([]) == [] by { NoneActive([]); }
      ghost var before := registrations[..];
      for index := 0 to MAX_ENTRIES
        invariant Sound(registrations[..])
        invariant forall i :: 0 <= i < MAX_ENTRIES ==>
                    registrations[i] ==
                    if i < index && IsExpired(before[i], nowMs) then Free else before[i]
        invariant evicted + |ActiveServers(registrations[..index])| == |ActiveServers(before[..index])|
      {
        ghost var front := registrations[..index];
        if IsExpired(registrations[index], nowMs) {
          registrations[index] := Free;
          evicted := evicted + 1;
        }
        assert registrations[..index + 1] == front + [registrations[index]];
        assert before[..index + 1] == before[..index] + [before[index]];
        AppendSlot(front, registrations[index]);
        AppendSlot(before[..index], before[index]);
      }
      assert registrations[..MAX_ENTRIES] == registrations[..] && before[..MAX_ENTRIES] == before;
    }

    /** The active servers in slot order, as many of them as the caller has room for. */
    method CopyActive(capacity: nat) returns (entries: seq<Server>)
      requires Valid()
      ensures entries <= ActiveServers(registrations[..]) && |entries| <= capacity
      ensures entries == ActiveServers(registrations[..]) || |entries| == capacity
      ensures Publishable(entries) && HasDistinctIds(entries)
    {
      hide Publishable, HasDistinctIds, ActiveServers, IsKept;
      NothingActive(registrations[..]);
      var room := if capacity > MAX_ENTRIES then MAX_ENTRIES else capacity;
      entries := [];
      var index := 0;
      while index < MAX_ENTRIES && |entries| < room
        invariant 0 <= index <= MAX_ENTRIES && |entries| <= room
        invariant entries == ActiveServers(registrations[..index])
      {
        NextActive(registrations[..], index);
        if registrations[index].Active? {
          entries := entries + [registrations[index].server];
        }
        index := index + 1;
      }
      assert registrations[..MAX_ENTRIES] == registrations[..];
      ActivePrefix(registrations[..], index);
      SnapshotIsPublishable(registrations[..]);
      PrefixIsPublishable(entries, ActiveServers(registrations[..]));
    }
  }

  lemma NothingActive(slots: seq<Slot>)
    ensures ActiveServers(slots[..0]) == []
  {
  }

  lemma NextActive(slots: seq<Slot>, n: nat)
    requires n < |slots|
    ensures ActiveServers(slots[..n + 1]) ==
            ActiveServers(slots[..n]) + (if slots[n].Active? then [slots[n].server] else [])
  {
    AppendSlot(slots[..n], slots[n]);
    assert slots[..n + 1] == slots[..n] + [slots[n]];
  }

  lemma PrefixIsPublishable(entries: seq<Server>, all: seq<Server>)
    requires entries <= all && Publishable(all) && HasDistinctIds(all)
    ensures Publishable(entries) && HasDistinctIds(entries)
  {
    hide IsKept, SameEndpoint;
    assert forall i :: 0 <= i < |entries| ==> entries[i] == all[i];
  }

  /** The active servers of the first slots come first. */
  lemma {:induction false} ActivePrefix(slots: seq<Slot>, n: nat)
    requires n <= |slots|
    ensures ActiveServers(slots[..n]) <= ActiveServers(slots)
    decreases |slots|
  {
    if n == |slots| {
      assert slots[..n] == slots;
    } else {
      var front := slots[..|slots| - 1];
      ActivePrefix(front, n);
      assert front[..n] == slots[..n];
      assert ActiveServers(front) <= ActiveServers(slots);
    }
  }

  predicate IsExpired(s: Slot, nowMs: nat) {
    s.Active? && nowMs >= s.lastSeenMs && nowMs - s.lastSeenMs >= ENTRY_TTL_MS
  }

  lemma {:induction false} NoneActive(slots: seq<Slot>)
    requires forall i :: 0 <= i < |slots| ==> slots[i].Free?
    ensures ActiveServers(slots) == []
  {
    if slots != [] {
      NoneActive(slots[..|slots| - 1]);
    }
  }

  // ----- publishing -----

  function ChunkCount(entryCount: nat): nat {
    var n := if entryCount > MAX_ENTRIES then MAX_ENTRIES else entryCount;
    if n == 0 then 1 else (n + ENTRIES_PER_PACKET - 1) / ENTRIES_PER_PACKET
  }

  /** wellFormed stands for the packet's type and its size, which must fit the entries. */
  datatype ListPacket = ListPacket(wellFormed: bool, version: nat, generation: uint32,
                                   chunkIndex: nat, chunkCount: nat, entries: seq<Server>)

  /** One chunk of a snapshot; None where the source reports that nothing was built. */
  function BuildListPacket(entries: seq<Server>, generation: uint32, chunkIndex: nat)
    : Option<ListPacket>
  {
    var count := ChunkCount(|entries|);
    var start := chunkIndex * ENTRIES_PER_PACKET;
    if generation == 0 || |entries| > MAX_ENTRIES || chunkIndex >= count then None
    else
      var stop := if |entries| <= start then start
                  else if |entries| - start > ENTRIES_PER_PACKET then start + ENTRIES_PER_PACKET
                  else |entries|;
      Some(ListPacket(true, PROTOCOL_VERSION, generation, chunkIndex, count,
                      if |entries| <= start then [] else entries[start..stop]))
  }
}
