/** The registry without slots: a book of at most 32 servers, one line for each id. */
module DirectoryBook {
  import opened Sequences
  import opened Serial
  import opened Directory

  datatype Line = Line(server: Server, lastSeenMs: nat)

  type Book = map<uint64, Line>

  datatype Event = Hear(heartbeat: Heartbeat, host: string, nowMs: nat) | Evict(atMs: nat)

  predicate IsLetterOrDigit(c: char) {
    'a' <= c <= 'z' || 'A' <= c <= 'Z' || '0' <= c <= '9'
  }

  /** A host of 1 to 63 letters, digits, dots, hyphens and colons, but not one that means any address;
      a printable name that is not blank; a port; and players within a capacity, up to 256. */
  predicate IsAdmissible(heartbeat: Heartbeat, host: string) {
    var s := heartbeat.server;
    && heartbeat.wellFormed && heartbeat.version == 1
    && 0 < |host| < 64 && host != "0.0.0.0" && host != "::"
    && (forall c :: c in host ==> IsLetterOrDigit(c) || c in ".-:")
    && s.name.terminated && (forall c :: c in s.name.chars ==> ' ' <= c <= '~')
    && (exists c :: c in s.name.chars && c != ' ')
    && s.port > 0 && s.capacity > 0 && s.players <= s.capacity && s.players <= 256
  }

  /** The server as it is listed, under the host its heartbeat came from. */
  function Listed(heartbeat: Heartbeat, host: string): Server {
    var s := heartbeat.server;
    Server(StableEndpointId(host, s.port), s.name, Text(host, true), s.port, s.players,
           if s.capacity > 256 then 256 else s.capacity, 0)
  }

  function Booked(book: Book, e: Event): (Book, bool)
    requires e.Hear?
  {
    var s := Listed(e.heartbeat, e.host);
    if !IsAdmissible(e.heartbeat, e.host) then (book, false)
    else if s.serverId in book then
      if e.nowMs < book[s.serverId].lastSeenMs then (book, false)
      else (book[s.serverId := Line(s, e.nowMs)], true)
    else if |book| < 32 then (book[s.serverId := Line(s, e.nowMs)], true)
    else (book, false)
  }

  /** Servers not heard from for fifteen seconds are struck out. */
  function Struck(book: Book, nowMs: nat): Book {
    map id | id in book && nowMs - book[id].lastSeenMs < 15000 :: book[id]
  }

  function BookAfter(events: seq<Event>): Book {
    if events == [] then map[]
    else
      var book, last := BookAfter(events[..|events| - 1]), events[|events| - 1];
      match last
      case Hear(_, _, _) => Booked(book, last).0
      case Evict(now) => Struck(book, now)
  }

  /** What the contracts of registration and eviction say of the table. */
  ghost predicate Step(slots: seq<Slot>, e: Event, after: seq<Slot>) {
    match e
    case Hear(heartbeat, host, now) =>
      if Accepts(slots, e) then IsEntered(slots, Clamped(Advertised(heartbeat, host)), now, after)
      else after == slots
    case Evict(now) =>
      && |after| == |slots|
      && forall i :: 0 <= i < |slots| ==>
           after[i] == if IsExpired(slots[i], now) then Free else slots[i]
  }

  ghost predicate IsEntered(slots: seq<Slot>, entry: Server, nowMs: nat, after: seq<Slot>) {
    exists target: nat :: && IsTarget(slots, entry.serverId, target)
                          && after == slots[target := Active(entry, nowMs)]
  }

  ghost predicate Accepts(slots: seq<Slot>, e: Event)
    requires e.Hear?
  {
    && IsAcceptable(e.heartbeat, e.host)
    && MayRegister(slots, Advertised(e.heartbeat, e.host).serverId, e.nowMs)
  }

  ghost predicate IsRun(tables: seq<seq<Slot>>, events: seq<Event>) {
    && |tables| == |events| + 1
    && (|tables[0]| == MAX_ENTRIES && forall s :: s in tables[0] ==> s == Free)
    && forall i :: 0 <= i < |events| ==> Step(tables[i], events[i], tables[i + 1])
  }

  /** The table holds the lines of the book, each in one slot. */
  ghost predicate Holds(slots: seq<Slot>, book: Book) {
    && |slots| == MAX_ENTRIES
    && (forall i :: 0 <= i < |slots| && slots[i].Active? ==>
          var id := slots[i].server.serverId;
          id in book && book[id] == Line(slots[i].server, slots[i].lastSeenMs))
    && (forall id :: id in book ==> exists i :: 0 <= i < |slots| && HasId(slots[i], id))
    && (forall i, j :: 0 <= i < j < |slots| && slots[i].Active? && slots[j].Active? ==>
          slots[i].server.serverId != slots[j].server.serverId)
  }

  lemma AdmissibleExactlyWhen(heartbeat: Heartbeat, host: string)
    ensures IsAcceptable(heartbeat, host) <==> IsAdmissible(heartbeat, host)
    ensures Clamped(Advertised(heartbeat, host)) == Listed(heartbeat, host)
  {
    hide StableEndpointId;
    IdIsNotZero(host, heartbeat.server.port);
    HostChars(host);
    NameChars(heartbeat.server.name.chars);
  }

  lemma IdIsNotZero(host: string, port: uint16)
    ensures StableEndpointId(host, port) != 0
  {
    hide HashByte, HashText;
  }

  lemma HostChars(host: string)
    ensures (forall c :: c in host ==> IsLetterOrDigit(c) || c in ".-:") <==>
            forall i :: 0 <= i < |host| ==> IsHostChar(host[i])
  {
    assert forall i :: 0 <= i < |host| ==> host[i] in host;
  }

  lemma NameChars(name: string)
    ensures (forall c :: c in name ==> ' ' <= c <= '~') <==>
            forall i :: 0 <= i < |name| ==> IsPrint(name[i])
    ensures (exists c :: c in name && c != ' ') <==>
            exists i :: 0 <= i < |name| && name[i] != ' '
  {
    assert forall i :: 0 <= i < |name| ==> name[i] in name;
  }

  function Ids(slots: seq<Slot>): set<uint64> {
    set i | 0 <= i < |slots| && slots[i].Active? :: slots[i].server.serverId
  }

  lemma {:induction false} FreeSlotExactlyWhen(slots: seq<Slot>)
    requires forall i, j :: 0 <= i < j < |slots| && slots[i].Active? && slots[j].Active? ==>
               slots[i].server.serverId != slots[j].server.serverId
    ensures |Ids(slots)| <= |slots|
    ensures |Ids(slots)| < |slots| <==> exists i :: 0 <= i < |slots| && slots[i].Free?
  {
    if slots != [] {
      var n := |slots| - 1;
      var front := slots[..n];
      FreeSlotExactlyWhen(front);
      if slots[n].Active? {
        assert Ids(slots) == Ids(front) + {slots[n].server.serverId};
        assert slots[n].server.serverId !in Ids(front);
        if i :| 0 <= i < |slots| && slots[i].Free? {
          assert front[i].Free?;
        }
      } else {
        assert Ids(slots) == Ids(front);
      }
    }
  }

  lemma RoomExactlyWhen(slots: seq<Slot>, book: Book)
    requires Holds(slots, book)
    ensures |book| < 32 <==> exists i :: 0 <= i < |slots| && slots[i].Free?
  {
    FreeSlotExactlyWhen(slots);
    assert Ids(slots) == book.Keys;
  }

  lemma AcceptsExactlyWhen(slots: seq<Slot>, book: Book, e: Event)
    requires e.Hear? && Holds(slots, book)
    ensures Accepts(slots, e) <==> Booked(book, e).1
  {
    hide StableEndpointId, IsAcceptable, IsAdmissible, Clamped, Advertised;
    AdmissibleExactlyWhen(e.heartbeat, e.host);
    AdvertisedId(e.heartbeat, e.host);
    RoomExactlyWhen(slots, book);
  }

  lemma AdvertisedId(heartbeat: Heartbeat, host: string)
    ensures Advertised(heartbeat, host).serverId == Listed(heartbeat, host).serverId
  {
    hide StableEndpointId;
  }

  lemma EnteringHolds(slots: seq<Slot>, book: Book, entry: Server, nowMs: nat, after: seq<Slot>)
    requires Holds(slots, book) && IsEntered(slots, entry, nowMs, after)
    ensures Holds(after, book[entry.serverId := Line(entry, nowMs)])
  {
    var more := book[entry.serverId := Line(entry, nowMs)];
    var target: nat :| && IsTarget(slots, entry.serverId, target)
                       && after == slots[target := Active(entry, nowMs)];
    forall id | id in more
      ensures exists i :: 0 <= i < |after| && HasId(after[i], id)
    {
      if id == entry.serverId {
        assert HasId(after[target], id);
      } else {
        var i :| 0 <= i < |slots| && HasId(slots[i], id);
        assert HasId(after[i], id);
      }
    }
  }

  lemma KeptLineHasItsSlot(slots: seq<Slot>, book: Book, nowMs: nat, after: seq<Slot>, id: uint64)
    requires Holds(slots, book) && Step(slots, Evict(nowMs), after)
    requires id in Struck(book, nowMs)
    ensures exists i :: 0 <= i < |after| && HasId(after[i], id)
  {
    var i :| 0 <= i < |slots| && HasId(slots[i], id);
    assert HasId(after[i], id);
  }

  lemma KeptSlotHasItsLine(slots: seq<Slot>, book: Book, nowMs: nat, after: seq<Slot>, i: nat)
    requires Holds(slots, book) && Step(slots, Evict(nowMs), after)
    requires i < |after| && after[i].Active?
    ensures i < |slots| && slots[i] == after[i]
    ensures var id := after[i].server.serverId;
            id in Struck(book, nowMs)
            && Struck(book, nowMs)[id] == Line(after[i].server, after[i].lastSeenMs)
  {
  }

  lemma EvictingHolds(slots: seq<Slot>, book: Book, nowMs: nat, after: seq<Slot>)
    requires Holds(slots, book) && Step(slots, Evict(nowMs), after)
    ensures Holds(after, Struck(book, nowMs))
  {
    hide Step, Struck;
    StepKeepsCount(slots, nowMs, after);
    forall i: nat | i < |after| && after[i].Active?
      ensures i < |slots| && slots[i] == after[i]
      ensures var id := after[i].server.serverId;
              id in Struck(book, nowMs)
              && Struck(book, nowMs)[id] == Line(after[i].server, after[i].lastSeenMs)
    {
      KeptSlotHasItsLine(slots, book, nowMs, after, i);
    }
    forall id | id in Struck(book, nowMs)
      ensures exists i :: 0 <= i < |after| && HasId(after[i], id)
    {
      KeptLineHasItsSlot(slots, book, nowMs, after, id);
    }
  }

  lemma StepKeepsCount(slots: seq<Slot>, nowMs: nat, after: seq<Slot>)
    requires Step(slots, Evict(nowMs), after)
    ensures |after| == |slots|
  {
  }

  lemma StepHolds(slots: seq<Slot>, book: Book, e: Event, after: seq<Slot>)
    requires Holds(slots, book) && Step(slots, e, after)
    ensures e.Hear? ==> Holds(after, Booked(book, e).0)
    ensures e.Evict? ==> Holds(after, Struck(book, e.atMs))
  {
    hide Holds, IsEntered, Accepts, Clamped, Advertised, IsAdmissible, Listed;
    match e
    case Hear(heartbeat, host, now) =>
      AcceptsExactlyWhen(slots, book, e);
      AdmissibleExactlyWhen(heartbeat, host);
      if Accepts(slots, e) {
        EnteringHolds(slots, book, Clamped(Advertised(heartbeat, host)), now, after);
      }
    case Evict(now) => EvictingHolds(slots, book, now, after);
  }

  /** Over every run of heartbeats, acceptable ones and others, and of evictions, the table holds
      exactly the lines of the book, and a heartbeat is accepted exactly when the book takes it. */
  lemma {:induction false} TableIsTheBook(tables: seq<seq<Slot>>, events: seq<Event>)
    requires IsRun(tables, events)
    ensures Holds(tables[|events|], BookAfter(events))
    ensures forall i :: 0 <= i < |events| && events[i].Hear? ==>
              (Accepts(tables[i], events[i]) <==> Booked(BookAfter(events[..i]), events[i]).1)
  {
    hide Step, Booked, Struck, Accepts;
    if events == [] {
      NothingHeld(tables[0]);
    } else {
      var n := |events| - 1;
      var front, last := events[..n], events[n];
      hide Holds;
      TableIsTheBook(tables[..n + 1], front);
      forall i | 0 <= i < |events| && events[i].Hear?
        ensures Accepts(tables[i], events[i]) <==> Booked(BookAfter(events[..i]), events[i]).1
      {
        if i < n {
          assert front[i] == events[i] && front[..i] == events[..i];
        } else {
          AcceptsExactlyWhen(tables[n], BookAfter(front), last);
        }
      }
      assert Step(tables[n], last, tables[n + 1]);
      StepHolds(tables[n], BookAfter(front), last, tables[n + 1]);
    }
  }

  lemma NothingHeld(slots: seq<Slot>)
    requires |slots| == MAX_ENTRIES && forall s :: s in slots ==> s == Free
    ensures Holds(slots, map[])
  {
    assert forall i :: 0 <= i < |slots| ==> slots[i] in slots;
  }

  // ----- the published list -----

  function UpTo(n: nat, limit: nat): nat {
    if n > limit then limit else n
  }

  /** A packet is built for every seven servers or part of them, and one for an empty list; it holds
      just those servers and the number of packets. */
  lemma PacketsInFigures(entries: seq<Server>, generation: uint32, chunk: nat)
    ensures BuildListPacket(entries, generation, chunk).Some? <==>
              generation != 0 && |entries| <= 32 && (chunk == 0 || 7 * chunk < |entries|)
    ensures BuildListPacket(entries, generation, chunk).Some? ==>
              var p := BuildListPacket(entries, generation, chunk).value;
              && p.wellFormed && p.version == 1 && p.generation == generation
              && p.chunkIndex == chunk && p.chunkCount > 0
              && 7 * (p.chunkCount - 1) <= UpTo(|entries|, 7 * p.chunkCount) == |entries|
              && (p.chunkCount > 1 ==> 7 * (p.chunkCount - 1) < |entries|)
              && p.entries == entries[UpTo(7 * chunk, |entries|)..UpTo(7 * chunk + 7, |entries|)]
  {
  }

  /** The servers of the first n packets. */
  function Gathered(entries: seq<Server>, generation: uint32, n: nat): seq<Server> {
    if n == 0 then []
    else
      Gathered(entries, generation, n - 1)
      + match BuildListPacket(entries, generation, n - 1)
        case Some(p) => p.entries
        case None => []
  }

  /** All packets together hold the list, in order. */
  lemma {:induction false} PacketsHoldTheList(entries: seq<Server>, generation: uint32, n: nat)
    requires generation != 0 && |entries| <= 32
    ensures Gathered(entries, generation, n) == entries[..UpTo(7 * n, |entries|)]
    ensures n == ChunkCount(|entries|) ==> Gathered(entries, generation, n) == entries
  {
    hide BuildListPacket, ChunkCount;
    if n > 0 {
      PacketsHoldTheList(entries, generation, n - 1);
      PacketsInFigures(entries, generation, n - 1);
    }
    AllAreCounted(|entries|);
    if n == ChunkCount(|entries|) {
      assert entries[..|entries|] == entries;
    }
  }

  lemma AllAreCounted(count: nat)
    requires count <= 32
    ensures 7 * ChunkCount(count) >= count
  {
  }
}
