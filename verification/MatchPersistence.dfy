/** Finished rounds in the database: one row per participant, and running totals per player that
    must agree with those rows. A session is named by its uuid where the tables use row ids. */
module MatchPersistence {
  import opened Sequences

  type PlayerId = nat

  datatype Status = Active | Completed | Aborted

  datatype Details = Details(botCount: nat, lobby: nat, round: nat, mode: nat)

  datatype SessionRow = SessionRow(status: Status, playerCount: nat, duration: Option<nat>,
                                   winner: nat, details: Details)

  datatype Round = Round(kills: nat, deaths: nat, massConsumed: real, massLost: real,
                         distance: real, spores: nat, peakMass: real)

  datatype Participant = Participant(player: PlayerId, runtimeId: nat, disconnected: bool,
                                     rank: int, finalMass: real, round: Round)

  datatype ParticipantRow = ParticipantRow(session: string, participant: Participant)

  datatype Stats = Stats(games: nat, kills: nat, deaths: nat, massConsumed: real, massLost: real,
                         distance: real, spores: nat, playersConsumed: nat, highestMass: real,
                         bestRank: int, longestSurvival: nat)

  datatype PlayerRow = PlayerRow(sessions: nat, playTime: nat)

  datatype EventKind = Summary | MatchCompleted | MatchInterrupted | Gameplay(what: nat)

  datatype EventRow = EventRow(session: string, kind: EventKind, tick: nat,
                               actor: Option<PlayerId>)

  datatype Tables = Tables(sessions: map<string, SessionRow>, participants: seq<ParticipantRow>,
                           stats: map<PlayerId, Stats>, players: map<PlayerId, PlayerRow>,
                           events: seq<EventRow>)

  datatype Match = Match(uuid: string, participants: seq<Participant>, finalTick: nat,
                         duration: nat, winner: nat, interrupted: bool, details: Details)

  datatype Result = Error | Saved | AlreadySaved

  // ----- what one statement does -----

  function Begun(t: Tables, m: Match): Tables {
    if m.uuid in t.sessions then t
    else
      t.(sessions := t.sessions[m.uuid := SessionRow(Active, |m.participants|, None, m.winner,
                                                     m.details)])
  }

  predicate IsActive(t: Tables, uuid: string) {
    uuid in t.sessions && t.sessions[uuid].status == Active
  }

  predicate IsFinal(t: Tables, uuid: string) {
    uuid in t.sessions && t.sessions[uuid].status != Active
  }

  /** One round as one player's totals see it. */
  datatype Game = Game(round: Round, rank: int, duration: nat)

  function Max(a: real, b: real): real {
    if a >= b then a else b
  }

  /** The upsert of a player's totals. */
  function Absorbed(s: Option<Stats>, g: Game): Stats {
    var r := g.round;
    match s
    case None =>
      Stats(1, r.kills, r.deaths, r.massConsumed, r.massLost, r.distance, r.spores, r.kills,
            r.peakMass, g.rank, g.duration)
    case Some(x) =>
      Stats(x.games + 1, x.kills + r.kills, x.deaths + r.deaths, x.massConsumed + r.massConsumed,
            x.massLost + r.massLost, x.distance + r.distance, x.spores + r.spores,
            x.playersConsumed + r.kills, Max(x.highestMass, r.peakMass),
            if x.bestRank <= g.rank then x.bestRank else g.rank,
            if x.longestSurvival >= g.duration then x.longestSurvival else g.duration)
  }

  function StatsOf(t: Tables, player: PlayerId): Option<Stats> {
    if player in t.stats then Some(t.stats[player]) else None
  }

  predicate HasTakenPart(rows: seq<ParticipantRow>, uuid: string, player: PlayerId) {
    exists row :: row in rows && row.session == uuid && row.participant.player == player
  }

  /** The four statements for one participant; they fail for a player already recorded in the
      session and for one who has no row. */
  function PlusParticipant(t: Tables, m: Match, p: Participant): Option<Tables> {
    if HasTakenPart(t.participants, m.uuid, p.player) || p.player !in t.players then None
    else
      var row := t.players[p.player];
      Some(t.(participants := t.participants + [ParticipantRow(m.uuid, p)],
              stats := t.stats[p.player := Absorbed(StatsOf(t, p.player),
                                                    Game(p.round, p.rank, m.duration))],
              players := t.players[p.player := PlayerRow(row.sessions + 1,
                                                         row.playTime + m.duration)],
              events := t.events + [EventRow(m.uuid, Summary, m.finalTick, Some(p.player))]))
  }

  function PlusParticipants(t: Tables, m: Match, ps: seq<Participant>): Option<Tables> {
    if ps == [] then Some(t)
    else
      var n := |ps| - 1;
      var front := PlusParticipants(t, m, ps[..n]);
      if front.None? then None else PlusParticipant(front.value, m, ps[n])
  }

  function Finalized(t: Tables, m: Match): Tables
    requires m.uuid in t.sessions
  {
    var row := t.sessions[m.uuid];
    t.(sessions := t.sessions[m.uuid :=
         row.(duration := Some(m.duration), winner := m.winner,
              status := if m.interrupted then Aborted else Completed)],
       events := t.events + [EventRow(m.uuid, if m.interrupted then MatchInterrupted
                                              else MatchCompleted, m.finalTick, None)])
  }

  /** The whole transaction, when no statement fails. */
  function FullySaved(t: Tables, m: Match): (after: Option<Tables>)
    ensures after.Some? ==> m.uuid in after.value.sessions
  {
    if m.uuid == "" || IsFinal(t, m.uuid) then None
    else
      var filled := PlusParticipants(Begun(t, m), m, m.participants);
      if filled.None? then None
      else
        ParticipantsKeepSessions(Begun(t, m), m, m.participants);
        Some(Finalized(filled.value, m))
  }

  lemma ParticipantsKeepSessions(t: Tables, m: Match, ps: seq<Participant>)
    requires PlusParticipants(t, m, ps).Some?
    ensures PlusParticipants(t, m, ps).value.sessions == t.sessions
  {
    hide PlusParticipant;
    if ps != [] {
      ParticipantsKeepSessions(t, m, ps[..|ps| - 1]);
      OneParticipantKeepsSessions(PlusParticipants(t, m, ps[..|ps| - 1]).value, m, ps[|ps| - 1]);
    }
  }

  lemma OneParticipantKeepsSessions(t: Tables, m: Match, p: Participant)
    requires PlusParticipant(t, m, p).Some?
    ensures PlusParticipant(t, m, p).value.sessions == t.sessions
  {
  }

  // ----- the operations, statement by statement -----

  /** None of the statements with these numbers fails. */
  predicate NoneFails(faults: set<nat>, from: nat, to: nat) {
    forall n :: from <= n < to ==> n !in faults
  }


  /** Statements are numbered in the order they are prepared; those in the fault set fail. */
  class MatchDatabase {
    var sessions: map<string, SessionRow>
    var participants: seq<ParticipantRow>
    var stats: map<PlayerId, Stats>
    var players: map<PlayerId, PlayerRow>
    var events: seq<EventRow>

    function Contents(): Tables
      reads this
    {
      Tables(sessions, participants, stats, players, events)
    }

    constructor (t: Tables)
      ensures Contents() == t
    {
      sessions, participants, stats, players, events :=
        t.sessions, t.participants, t.stats, t.players, t.events;
    }

    method Restore(t: Tables)
      modifies this
      ensures Contents() == t
    {
      sessions, participants, stats, players, events :=
        t.sessions, t.participants, t.stats, t.players, t.events;
    }

    method Begin(m: Match, faults: set<nat>) returns (ok: bool)
      modifies this
      ensures ok <==> m.uuid != "" && 0 !in faults
      ensures Contents() == if ok then Begun(old(Contents()), m) else old(Contents())
    {
      if m.uuid == "" || 0 in faults {
        return false;
      }
      if m.uuid !in sessions {
        sessions := sessions[m.uuid := SessionRow(Active, |m.participants|, None, m.winner,
                                                  m.details)];
      }
      return true;
    }

    /** A gameplay event is recorded for an active session only. */
    method RecordEvent(event: EventRow, faults: set<nat>) returns (ok: bool)
      modifies this
      ensures ok <==> event.session != "" && 0 !in faults && IsActive(old(Contents()), event.session)
      ensures Contents() == old(Contents()).(events := old(events) + if ok then [event] else [])
    {
      if event.session == "" || 0 in faults {
        return false;
      }
      if event.session !in sessions || sessions[event.session].status != Active {
        return false;
      }
      events := events + [event];
      return true;
    }

    /** Leaves behind whatever was written before the statement that failed. */
    method SaveParticipant(m: Match, p: Participant, faults: set<nat>, first: nat)
      returns (ok: bool)
      modifies this
      ensures ok <==> && NoneFails(faults, first, first + 4)
                      && PlusParticipant(old(Contents()), m, p).Some?
      ensures ok ==> PlusParticipant(old(Contents()), m, p) == Some(Contents())
    {
      var recorded := IsRecorded(m.uuid, p.player);
      if first in faults || recorded {
        return false;
      }
      participants := participants + [ParticipantRow(m.uuid, p)];
      if first + 1 in faults {
        return false;
      }
      stats := stats[p.player := Absorbed(StatsOf(Contents(), p.player),
                                          Game(p.round, p.rank, m.duration))];
      if first + 2 in faults || p.player !in players {
        return false;
      }
      players := players[p.player := PlayerRow(players[p.player].sessions + 1,
                                               players[p.player].playTime + m.duration)];
      if first + 3 in faults {
        return false;
      }
      events := events + [EventRow(m.uuid, Summary, m.finalTick, Some(p.player))];
      return true;
    }

    /** The unique index over session and player. */
    method IsRecorded(uuid: string, player: PlayerId) returns (found: bool)
      ensures found == HasTakenPart(participants, uuid, player)
    {
      for i := 0 to |participants|
        invariant !HasTakenPart(participants[..i], uuid, player)
      {
        if participants[i].session == uuid && participants[i].participant.player == player {
          return true;
        }
        assert participants[..i + 1] == participants[..i] + [participants[i]];
      }
      assert participants[..|participants|] == participants;
      return false;
    }

    method SaveParticipants(m: Match, faults: set<nat>) returns (ok: bool)
      modifies this
      ensures ok <==> && NoneFails(faults, 3, 3 + 4 * |m.participants|)
                      && PlusParticipants(old(Contents()), m, m.participants).Some?
      ensures ok ==> PlusParticipants(old(Contents()), m, m.participants) == Some(Contents())
    {
      hide PlusParticipant;
      ghost var before := Contents();
      var ps := m.participants;
      for index := 0 to |ps|
        invariant PlusParticipants(before, m, ps[..index]) == Some(Contents())
        invariant NoneFails(faults, 3, 3 + 4 * index)
      {
        assert ps[..index + 1][..index] == ps[..index];
        var one := SaveParticipant(m, ps[index], faults, 3 + 4 * index);
        if !one {
          if PlusParticipants(before, m, ps[..index + 1]).None? {
            FailureIsFinal(before, m, ps, index + 1);
          }
          return false;
        }
      }
      assert ps[..|ps|] == ps;
      return true;
    }

    method Save(m: Match, faults: set<nat>) returns (result: Result)
      modifies this
      ensures result == Saved <==>
                && FullySaved(old(Contents()), m).Some?
                && NoneFails(faults, 0, 2) && (m.uuid in old(sessions) || 2 !in faults)
                && NoneFails(faults, 3, 6 + 4 * |m.participants|)
      ensures result == Saved ==> FullySaved(old(Contents()), m) == Some(Contents())
      ensures result != Saved ==> Contents() == old(Contents())
      ensures result == AlreadySaved <==>
                m.uuid != "" && IsFinal(old(Contents()), m.uuid) && NoneFails(faults, 0, 2)
    {
      hide PlusParticipants;
      if m.uuid == "" || 0 in faults {
        return Error;
      }
      var journal := Contents();
      if 1 in faults {
        return Error;
      }
      if m.uuid in sessions {
        if sessions[m.uuid].status != Active {
          return AlreadySaved;
        }
      } else {
        if 2 in faults {
          return Error;
        }
        sessions := sessions[m.uuid := SessionRow(Active, |m.participants|, None, m.winner,
                                                  m.details)];
      }
      assert Contents() == Begun(journal, m);
      var ok := SaveParticipants(m, faults);
      var last := 3 + 4 * |m.participants|;
      if !ok || last in faults {
        Restore(journal);
        return Error;
      }
      ParticipantsKeepSessions(Begun(journal, m), m, m.participants);
      ghost var filled := Contents();
      sessions := sessions[m.uuid :=
        sessions[m.uuid].(duration := Some(m.duration), winner := m.winner,
                          status := if m.interrupted then Aborted else Completed)];
      if last + 1 in faults {
        Restore(journal);
        return Error;
      }
      events := events + [EventRow(m.uuid, if m.interrupted then MatchInterrupted
                                           else MatchCompleted, m.finalTick, None)];
      assert Contents() == Finalized(filled, m);
      if last + 2 in faults {
        Restore(journal);
        return Error;
      }
      return Saved;
    }
  }

  lemma {:induction false} FailureIsFinal(t: Tables, m: Match, ps: seq<Participant>, n: nat)
    requires n <= |ps| && PlusParticipants(t, m, ps[..n]).None?
    ensures PlusParticipants(t, m, ps).None?
    decreases |ps|
  {
    hide PlusParticipant;
    if n == |ps| {
      assert ps[..n] == ps;
    } else {
      assert ps[..|ps| - 1][..n] == ps[..n];
      FailureIsFinal(t, m, ps[..|ps| - 1], n);
    }
  }

  // ----- whole runs -----

  /** Every event may fail. A player may enrol at any time. */
  datatype Event =
    | Begin(begun: Match)
    | Save(saved: Match)
    | Record(event: EventRow)
    | Enrol(player: PlayerId)

  const FRESH_STATS := Stats(0, 0, 0, 0.0, 0.0, 0.0, 0, 0, 0.0, 999, 0)

  predicate Step(t: Tables, e: Event, after: Tables) {
    || after == t
    || match e
       case Begin(m) => m.uuid != "" && after == Begun(t, m)
       case Save(m) => FullySaved(t, m) == Some(after)
       case Record(event) =>
         IsActive(t, event.session) && after == t.(events := t.events + [event])
       case Enrol(player) =>
         && player !in t.players && player !in t.stats
         && after == t.(players := t.players[player := PlayerRow(0, 0)],
                        stats := t.stats[player := FRESH_STATS])
  }

  ghost predicate IsRun(run: seq<Tables>, events: seq<Event>) {
    && |run| == |events| + 1
    && forall i :: 0 <= i < |events| ==> Step(run[i], events[i], run[i + 1])
  }

  /** Participant rows belong to finished sessions, and to players who have a row. */
  ghost predicate RowsAreSound(t: Tables) {
    && (forall row :: row in t.participants ==> IsFinal(t, row.session))
    && (forall row :: row in t.participants ==> row.participant.player in t.players)
    && forall i, j :: 0 <= i < j < |t.participants| ==>
         !(t.participants[i].session == t.participants[j].session
           && t.participants[i].participant.player == t.participants[j].participant.player)
  }

  function DurationOf(sessions: map<string, SessionRow>, uuid: string): nat {
    if uuid in sessions && sessions[uuid].duration.Some? then sessions[uuid].duration.value else 0
  }

  /** What the detail rows say about one player: a game per row, its length kept by the session. */
  function Games(sessions: map<string, SessionRow>, rows: seq<ParticipantRow>, player: PlayerId)
    : seq<Game>
  {
    if rows == [] then []
    else
      var n := |rows| - 1;
      var p := rows[n].participant;
      Games(sessions, rows[..n], player)
      + (if p.player == player
         then [Game(p.round, p.rank, DurationOf(sessions, rows[n].session))] else [])
  }

  lemma {:induction false} GamesAppend(sessions: map<string, SessionRow>, a: seq<ParticipantRow>,
                                       b: seq<ParticipantRow>, player: PlayerId)
    ensures Games(sessions, a + b, player)
         == Games(sessions, a, player) + Games(sessions, b, player)
  {
    if b == [] {
      assert a + b == a;
    } else {
      var n := |b| - 1;
      assert (a + b)[..|a + b| - 1] == a + b[..n];
      GamesAppend(sessions, a, b[..n], player);
    }
  }

  lemma {:induction false} GamesDependOnDurations(s: map<string, SessionRow>,
                                                  t: map<string, SessionRow>,
                                                  rows: seq<ParticipantRow>, player: PlayerId)
    requires forall row :: row in rows ==>
               DurationOf(s, row.session) == DurationOf(t, row.session)
    ensures Games(s, rows, player) == Games(t, rows, player)
  {
    hide DurationOf;
    if rows != [] {
      assert rows[|rows| - 1] in rows;
      GamesDependOnDurations(s, t, rows[..|rows| - 1], player);
    }
  }

  function AllAbsorbed(initial: Option<Stats>, games: seq<Game>): Option<Stats> {
    if games == [] then initial
    else Some(Absorbed(AllAbsorbed(initial, games[..|games| - 1]), games[|games| - 1]))
  }

  function PlayTime(games: seq<Game>): nat {
    if games == [] then 0 else PlayTime(games[..|games| - 1]) + games[|games| - 1].duration
  }

  /** The totals of one player agree with the detail rows written since. */
  ghost predicate Agrees(t0: Tables, t: Tables, player: PlayerId) {
    && |t0.participants| <= |t.participants|
    && t0.participants == t.participants[..|t0.participants|]
    && player in t0.players && player in t.players
    && var games := Games(t.sessions, t.participants[|t0.participants|..], player);
       && StatsOf(t, player) == AllAbsorbed(StatsOf(t0, player), games)
       && t.players[player] == PlayerRow(t0.players[player].sessions + |games|,
                                         t0.players[player].playTime
                                         + PlayTime(games))
  }

  // ----- one save -----

  function RowsFor(uuid: string, ps: seq<Participant>): (rows: seq<ParticipantRow>)
    ensures |rows| == |ps|
    ensures forall i :: 0 <= i < |ps| ==> rows[i] == ParticipantRow(uuid, ps[i])
  {
    seq(|ps|, i requires 0 <= i < |ps| => ParticipantRow(uuid, ps[i]))
  }

  /** The games that a match adds for one player. */
  function GamesIn(m: Match, ps: seq<Participant>, player: PlayerId): seq<Game> {
    if ps == [] then []
    else
      var n := |ps| - 1;
      GamesIn(m, ps[..n], player)
      + (if ps[n].player == player then [Game(ps[n].round, ps[n].rank, m.duration)] else [])
  }

  lemma AllAbsorbedAppend(initial: Option<Stats>, games: seq<Game>, g: Game)
    ensures AllAbsorbed(initial, games + [g]) == Some(Absorbed(AllAbsorbed(initial, games), g))
    ensures PlayTime(games + [g]) == PlayTime(games) + g.duration
  {
    assert (games + [g])[..|games|] == games;
  }

  lemma {:induction false} ParticipantsAddTheirGames(t: Tables, m: Match, ps: seq<Participant>,
                                                     player: PlayerId)
    requires PlusParticipants(t, m, ps).Some? && player in t.players
    ensures var after := PlusParticipants(t, m, ps).value;
            var games := GamesIn(m, ps, player);
            && player in after.players
            && StatsOf(after, player) == AllAbsorbed(StatsOf(t, player), games)
            && after.players[player] == PlayerRow(t.players[player].sessions + |games|,
                                                  t.players[player].playTime
                                                  + PlayTime(games))
  {
    hide Absorbed, HasTakenPart;
    if ps != [] {
      var n := |ps| - 1;
      ParticipantsAddTheirGames(t, m, ps[..n], player);
      var games := GamesIn(m, ps[..n], player);
      if ps[n].player == player {
        AllAbsorbedAppend(StatsOf(t, player), games, Game(ps[n].round, ps[n].rank, m.duration));
      } else {
        assert GamesIn(m, ps, player) == games;
      }
    }
  }

  lemma {:induction false} ParticipantsAddTheirRows(t: Tables, m: Match, ps: seq<Participant>)
    requires PlusParticipants(t, m, ps).Some?
    ensures var after := PlusParticipants(t, m, ps).value;
            && after.participants == t.participants + RowsFor(m.uuid, ps)
            && after.players.Keys == t.players.Keys
            && (forall i :: 0 <= i < |ps| ==> ps[i].player in t.players)
            && (forall i :: 0 <= i < |ps| ==> !HasTakenPart(t.participants, m.uuid, ps[i].player))
            && (forall i, j :: 0 <= i < j < |ps| ==> ps[i].player != ps[j].player)
  {
    hide PlusParticipant, HasTakenPart;
    if ps != [] {
      var n := |ps| - 1;
      ParticipantsAddTheirRows(t, m, ps[..n]);
      var before := PlusParticipants(t, m, ps[..n]).value;
      OneRowMore(t, before, m, ps, n);
      assert ps[..n + 1] == ps;
    }
  }

  lemma OneRowMore(t: Tables, before: Tables, m: Match, ps: seq<Participant>, n: nat)
    requires n < |ps| && before.participants == t.participants + RowsFor(m.uuid, ps[..n])
    requires PlusParticipant(before, m, ps[n]).Some?
    ensures PlusParticipant(before, m, ps[n]).value.participants
         == t.participants + RowsFor(m.uuid, ps[..n + 1])
    ensures PlusParticipant(before, m, ps[n]).value.players.Keys == before.players.Keys
    ensures ps[n].player in before.players
    ensures !HasTakenPart(t.participants, m.uuid, ps[n].player)
    ensures forall i :: 0 <= i < n ==> ps[i].player != ps[n].player
  {
    hide Absorbed;
    var rows := RowsFor(m.uuid, ps[..n]);
    assert RowsFor(m.uuid, ps[..n + 1]) == rows + [ParticipantRow(m.uuid, ps[n])];
    forall i | 0 <= i < n
      ensures ps[i].player != ps[n].player
    {
      assert rows[i] in before.participants;
    }
  }

  lemma {:induction false} NewRowsAreTheMatchsGames(sessions: map<string, SessionRow>, m: Match,
                                                    ps: seq<Participant>, player: PlayerId)
    requires DurationOf(sessions, m.uuid) == m.duration
    ensures Games(sessions, RowsFor(m.uuid, ps), player) == GamesIn(m, ps, player)
  {
    if ps != [] {
      var n := |ps| - 1;
      NewRowsAreTheMatchsGames(sessions, m, ps[..n], player);
      assert RowsFor(m.uuid, ps)[..n] == RowsFor(m.uuid, ps[..n]);
    }
  }

  lemma SaveKeepsRowsSound(t: Tables, m: Match, after: Tables)
    requires RowsAreSound(t) && FullySaved(t, m) == Some(after)
    ensures RowsAreSound(after)
    ensures after.participants == t.participants + RowsFor(m.uuid, m.participants)
  {
    hide PlusParticipants, HasTakenPart, RowsAreSound;
    var begun := Begun(t, m);
    ParticipantsAddTheirRows(begun, m, m.participants);
    ParticipantsKeepSessions(begun, m, m.participants);
    MoreRowsAreSound(t, after, m.uuid, m.participants);
  }

  lemma MoreRowsAreSound(t: Tables, after: Tables, uuid: string, ps: seq<Participant>)
    requires RowsAreSound(t) && after.participants == t.participants + RowsFor(uuid, ps)
    requires after.players.Keys == t.players.Keys
    requires IsFinal(after, uuid) && forall u :: IsFinal(t, u) ==> IsFinal(after, u)
    requires forall i :: 0 <= i < |ps| ==>
               ps[i].player in t.players && !HasTakenPart(t.participants, uuid, ps[i].player)
    requires forall i, j :: 0 <= i < j < |ps| ==> ps[i].player != ps[j].player
    ensures RowsAreSound(after)
  {
    hide IsFinal;
    var rows := RowsFor(uuid, ps);
    forall row | row in after.participants
      ensures IsFinal(after, row.session) && row.participant.player in after.players
    {
      if row !in t.participants {
        var i :| 0 <= i < |rows| && rows[i] == row;
      }
    }
  }

  lemma SaveAddsTheMatchsGames(t: Tables, m: Match, after: Tables, player: PlayerId)
    requires FullySaved(t, m) == Some(after) && player in t.players
    ensures var more := GamesIn(m, m.participants, player);
            && player in after.players
            && StatsOf(after, player) == AllAbsorbed(StatsOf(t, player), more)
            && after.players[player] == PlayerRow(t.players[player].sessions + |more|,
                                                  t.players[player].playTime + PlayTime(more))
  {
    hide PlusParticipants, AllAbsorbed, PlayTime, GamesIn;
    ParticipantsAddTheirGames(Begun(t, m), m, m.participants, player);
  }

  lemma SavedRowsAreTheMatchsGames(t: Tables, m: Match, after: Tables, n: nat, player: PlayerId)
    requires RowsAreSound(t) && FullySaved(t, m) == Some(after) && n <= |t.participants|
    ensures n <= |after.participants| && after.participants[..n] == t.participants[..n]
    ensures Games(after.sessions, after.participants[n..], player)
         == Games(t.sessions, t.participants[n..], player) + GamesIn(m, m.participants, player)
  {
    hide FullySaved, RowsAreSound, DurationOf, Games;
    var earlier, added := t.participants[n..], RowsFor(m.uuid, m.participants);
    SaveKeepsRowsSound(t, m, after);
    OldRowsKeepTheirDurations(t, m, after);
    GamesDependOnDurations(t.sessions, after.sessions, earlier, player);
    NewRowsAreTheMatchsGames(after.sessions, m, m.participants, player);
    GamesAppend(after.sessions, earlier, added, player);
    assert after.participants[n..] == earlier + added;
  }

  lemma SaveKeepsAgreement(t0: Tables, t: Tables, m: Match, after: Tables, player: PlayerId)
    requires RowsAreSound(t) && FullySaved(t, m) == Some(after) && Agrees(t0, t, player)
    ensures Agrees(t0, after, player)
  {
    hide FullySaved, RowsAreSound, Games, GamesIn, AllAbsorbed, PlayTime;
    var n := |t0.participants|;
    SavedRowsAreTheMatchsGames(t, m, after, n, player);
    SaveAddsTheMatchsGames(t, m, after, player);
    AbsorbingInTwoParts(StatsOf(t0, player), Games(t.sessions, t.participants[n..], player),
                        GamesIn(m, m.participants, player));
  }

  lemma OldRowsKeepTheirDurations(t: Tables, m: Match, after: Tables)
    requires RowsAreSound(t) && FullySaved(t, m) == Some(after)
    ensures forall row :: row in t.participants ==>
              DurationOf(t.sessions, row.session) == DurationOf(after.sessions, row.session)
    ensures DurationOf(after.sessions, m.uuid) == m.duration
  {
    hide PlusParticipants;
    ParticipantsKeepSessions(Begun(t, m), m, m.participants);
  }

  lemma {:induction false} AbsorbingInTwoParts(initial: Option<Stats>, a: seq<Game>, b: seq<Game>)
    ensures AllAbsorbed(initial, a + b) == AllAbsorbed(AllAbsorbed(initial, a), b)
    ensures PlayTime(a + b) == PlayTime(a) + PlayTime(b)
  {
    hide Absorbed;
    if b == [] {
      assert a + b == a;
    } else {
      var n := |b| - 1;
      assert (a + b)[..|a + b| - 1] == a + b[..n];
      AbsorbingInTwoParts(initial, a, b[..n]);
    }
  }

  // ----- every run -----

  lemma StepKeepsRowsSound(t: Tables, e: Event, after: Tables)
    requires RowsAreSound(t) && Step(t, e, after)
    ensures RowsAreSound(after)
  {
    hide FullySaved;
    if e.Save? && after != t {
      SaveKeepsRowsSound(t, e.saved, after);
    }
  }

  lemma StepKeepsAgreement(t0: Tables, t: Tables, e: Event, after: Tables, player: PlayerId)
    requires RowsAreSound(t) && Step(t, e, after) && Agrees(t0, t, player)
    ensures Agrees(t0, after, player)
  {
    hide FullySaved, RowsAreSound, Games, AllAbsorbed, PlayTime;
    if after != t {
      if e.Save? {
        SaveKeepsAgreement(t0, t, e.saved, after, player);
      } else {
        var rows := t.participants[|t0.participants|..];
        assert forall row :: row in t.participants ==> row.session in t.sessions by {
          SoundRowsHaveSessions(t);
        }
        GamesDependOnDurations(t.sessions, after.sessions, rows, player);
      }
    }
  }

  lemma SoundRowsHaveSessions(t: Tables)
    requires RowsAreSound(t)
    ensures forall row :: row in t.participants ==> row.session in t.sessions
  {
  }

  lemma {:induction false} RunKeepsAgreement(run: seq<Tables>, events: seq<Event>,
                                             player: PlayerId)
    requires IsRun(run, events) && RowsAreSound(run[0]) && player in run[0].players
    ensures RowsAreSound(run[|events|]) && Agrees(run[0], run[|events|], player)
    decreases |events|
  {
    hide Step, RowsAreSound, Agrees;
    if events == [] {
      NothingAddedAgrees(run[0], player);
    } else {
      var n := |events| - 1;
      var front := run[..n + 1];
      assert forall i :: 0 <= i < n ==> front[i + 1] == run[i + 1] && events[..n][i] == events[i];
      RunKeepsAgreement(front, events[..n], player);
      assert Step(run[n], events[n], run[n + 1]);
      StepKeepsRowsSound(run[n], events[n], run[n + 1]);
      StepKeepsAgreement(run[0], run[n], events[n], run[n + 1], player);
    }
  }

  lemma NothingAddedAgrees(t: Tables, player: PlayerId)
    requires player in t.players
    ensures Agrees(t, t, player)
  {
    assert t.participants[|t.participants|..] == [];
  }

  /** The column sums over one player's games. */
  datatype Totals = Totals(kills: nat, deaths: nat, massConsumed: real, massLost: real,
                           distance: real, spores: nat)

  function TotalsOf(games: seq<Game>): Totals {
    if games == [] then Totals(0, 0, 0.0, 0.0, 0.0, 0)
    else
      var x, r := TotalsOf(games[..|games| - 1]), games[|games| - 1].round;
      Totals(x.kills + r.kills, x.deaths + r.deaths, x.massConsumed + r.massConsumed,
             x.massLost + r.massLost, x.distance + r.distance, x.spores + r.spores)
  }

  /** Absorbing games one by one adds their columns and keeps the records. */
  lemma {:induction false} AbsorbedIsTheSum(initial: Stats, games: seq<Game>)
    ensures var x, sums := AllAbsorbed(Some(initial), games).value, TotalsOf(games);
            && x.games == initial.games + |games|
            && x.kills == initial.kills + sums.kills
            && x.playersConsumed == initial.playersConsumed + sums.kills
            && x.deaths == initial.deaths + sums.deaths
            && x.massConsumed == initial.massConsumed + sums.massConsumed
            && x.massLost == initial.massLost + sums.massLost
            && x.distance == initial.distance + sums.distance
            && x.spores == initial.spores + sums.spores
  {
    if games != [] {
      AbsorbedIsTheSum(initial, games[..|games| - 1]);
    }
  }

  lemma {:induction false} AbsorbedKeepsTheRecords(initial: Stats, games: seq<Game>)
    ensures var x := AllAbsorbed(Some(initial), games).value;
            && x.highestMass >= initial.highestMass && x.bestRank <= initial.bestRank
            && x.longestSurvival >= initial.longestSurvival
            && (forall g :: g in games ==>
                  && x.highestMass >= g.round.peakMass && x.bestRank <= g.rank
                  && x.longestSurvival >= g.duration)
            && (x.highestMass == initial.highestMass
                || exists g :: g in games && g.round.peakMass == x.highestMass)
            && (x.bestRank == initial.bestRank || exists g :: g in games && g.rank == x.bestRank)
            && (x.longestSurvival == initial.longestSurvival
                || exists g :: g in games && g.duration == x.longestSurvival)
  {
    if games != [] {
      var n := |games| - 1;
      AbsorbedKeepsTheRecords(initial, games[..n]);
      assert games[n] in games;
      assert forall g :: g in games <==> g in games[..n] || g == games[n];
    }
  }

  /** Without a row to begin with, the totals are those of the games alone. */
  lemma {:induction false} AbsorbedFromNothing(games: seq<Game>)
    requires games != []
    ensures var x, sums := AllAbsorbed(None, games).value, TotalsOf(games);
            && x.games == |games| && x.kills == sums.kills == x.playersConsumed
            && x.deaths == sums.deaths && x.massConsumed == sums.massConsumed
            && x.massLost == sums.massLost && x.distance == sums.distance && x.spores == sums.spores
            && (forall g :: g in games ==>
                  && x.highestMass >= g.round.peakMass && x.bestRank <= g.rank
                  && x.longestSurvival >= g.duration)
            && (exists g :: g in games && g.round.peakMass == x.highestMass)
            && (exists g :: g in games && g.rank == x.bestRank)
            && (exists g :: g in games && g.duration == x.longestSurvival)
  {
    var n := |games| - 1;
    assert games[n] in games;
    if n == 0 {
      assert games[..n] == [];
      assert forall g :: g in games <==> g == games[n];
    } else {
      AbsorbedFromNothing(games[..n]);
      assert forall g :: g in games <==> g in games[..n] || g == games[n];
    }
  }

  /** Over every run of begins, saves, gameplay events and enrolments, with failures anywhere, the
      totals of a player are the initial ones plus the sums over the participant rows added since;
      the play time adds up the durations of their sessions. */
  lemma TotalsAgreeWithTheRows(run: seq<Tables>, events: seq<Event>, player: PlayerId)
    requires IsRun(run, events) && RowsAreSound(run[0])
    requires player in run[0].players && player in run[0].stats
    ensures var t0, t := run[0], run[|events|];
            && |t0.participants| <= |t.participants|
            && player in t.players && player in t.stats
            && var games := Games(t.sessions, t.participants[|t0.participants|..], player);
               var s0, s, sums := t0.stats[player], t.stats[player], TotalsOf(games);
               && s.games == s0.games + |games|
               && s.kills == s0.kills + sums.kills && s.deaths == s0.deaths + sums.deaths
               && s.massConsumed == s0.massConsumed + sums.massConsumed
               && s.massLost == s0.massLost + sums.massLost
               && s.distance == s0.distance + sums.distance
               && s.spores == s0.spores + sums.spores
               && t.players[player].sessions == t0.players[player].sessions + |games|
               && t.players[player].playTime == t0.players[player].playTime + PlayTime(games)
  {
    var t0, t := run[0], run[|events|];
    hide RowsAreSound, IsRun, Games, PlayTime, TotalsOf, Absorbed;
    RunKeepsAgreement(run, events, player);
    var games := Games(t.sessions, t.participants[|t0.participants|..], player);
    AbsorbedIsTheSum(t0.stats[player], games);
  }

  /** A player without totals gets them with the first row, and they agree with the rows in the same
      way, records included. */
  lemma FirstTotalsAgreeWithTheRows(run: seq<Tables>, events: seq<Event>, player: PlayerId)
    requires IsRun(run, events) && RowsAreSound(run[0])
    requires player in run[0].players && player !in run[0].stats
    ensures var t0, t := run[0], run[|events|];
            && |t0.participants| <= |t.participants|
            && var games := Games(t.sessions, t.participants[|t0.participants|..], player);
               && (player in t.stats <==> games != [])
               && (games != [] ==>
                     var s, sums := t.stats[player], TotalsOf(games);
                     && s.games == |games| && s.kills == sums.kills && s.deaths == sums.deaths
                     && s.massConsumed == sums.massConsumed && s.massLost == sums.massLost
                     && s.distance == sums.distance && s.spores == sums.spores
                     && (forall g :: g in games ==>
                           && s.highestMass >= g.round.peakMass && s.bestRank <= g.rank
                           && s.longestSurvival >= g.duration))
  {
    var t0, t := run[0], run[|events|];
    hide RowsAreSound, IsRun, Games, PlayTime, TotalsOf, Absorbed;
    RunKeepsAgreement(run, events, player);
    var games := Games(t.sessions, t.participants[|t0.participants|..], player);
    if games != [] {
      AbsorbedFromNothing(games);
    }
  }

  // ----- a finished session never changes again -----

  function RowsOf(rows: seq<ParticipantRow>, uuid: string): seq<ParticipantRow> {
    if rows == [] then []
    else
      var n := |rows| - 1;
      RowsOf(rows[..n], uuid) + (if rows[n].session == uuid then [rows[n]] else [])
  }

  function EventsOf(events: seq<EventRow>, uuid: string): seq<EventRow> {
    if events == [] then []
    else
      var n := |events| - 1;
      EventsOf(events[..n], uuid) + (if events[n].session == uuid then [events[n]] else [])
  }

  lemma EventsOfAppend(events: seq<EventRow>, event: EventRow, uuid: string)
    ensures EventsOf(events + [event], uuid)
         == EventsOf(events, uuid) + (if event.session == uuid then [event] else [])
  {
    assert (events + [event])[..|events|] == events;
  }

  lemma RowsOfAppend(rows: seq<ParticipantRow>, row: ParticipantRow, uuid: string)
    ensures RowsOf(rows + [row], uuid)
         == RowsOf(rows, uuid) + (if row.session == uuid then [row] else [])
  {
    assert (rows + [row])[..|rows|] == rows;
  }

  /** All that the tables say about one session. */
  ghost predicate SameSession(t: Tables, after: Tables, uuid: string) {
    && uuid in t.sessions && uuid in after.sessions && after.sessions[uuid] == t.sessions[uuid]
    && RowsOf(after.participants, uuid) == RowsOf(t.participants, uuid)
    && EventsOf(after.events, uuid) == EventsOf(t.events, uuid)
  }

  lemma {:induction false} ParticipantsLeaveOtherSessions(t: Tables, m: Match,
                                                          ps: seq<Participant>, uuid: string)
    requires PlusParticipants(t, m, ps).Some? && uuid != m.uuid
    ensures var after := PlusParticipants(t, m, ps).value;
            && RowsOf(after.participants, uuid) == RowsOf(t.participants, uuid)
            && EventsOf(after.events, uuid) == EventsOf(t.events, uuid)
  {
    hide RowsOf, EventsOf, Absorbed, HasTakenPart;
    if ps != [] {
      var n := |ps| - 1;
      ParticipantsLeaveOtherSessions(t, m, ps[..n], uuid);
      var before := PlusParticipants(t, m, ps[..n]).value;
      RowsOfAppend(before.participants, ParticipantRow(m.uuid, ps[n]), uuid);
      EventsOfAppend(before.events, EventRow(m.uuid, Summary, m.finalTick, Some(ps[n].player)),
                     uuid);
    }
  }

  lemma StepKeepsFinalSessions(t: Tables, e: Event, after: Tables, uuid: string)
    requires IsFinal(t, uuid) && Step(t, e, after)
    ensures IsFinal(after, uuid) && SameSession(t, after, uuid)
  {
    hide RowsOf, EventsOf, PlusParticipants;
    if after != t {
      match e
      case Save(m) =>
        var begun := Begun(t, m);
        ParticipantsLeaveOtherSessions(begun, m, m.participants, uuid);
        ParticipantsKeepSessions(begun, m, m.participants);
        EventsOfAppend(PlusParticipants(begun, m, m.participants).value.events,
                       after.events[|after.events| - 1], uuid);
      case Record(event) => EventsOfAppend(t.events, event, uuid);
      case Begin(_) =>
      case Enrol(_) =>
    }
  }

  /** Once finished, a session keeps its row, its participants and its events through every later
      run, and is never saved again. */
  lemma {:induction false} FinishedSessionsAreFrozen(run: seq<Tables>, events: seq<Event>,
                                                     uuid: string)
    requires IsRun(run, events) && IsFinal(run[0], uuid)
    ensures IsFinal(run[|events|], uuid) && SameSession(run[0], run[|events|], uuid)
    ensures forall i :: 0 <= i < |events| && events[i].Save? && events[i].saved.uuid == uuid ==>
              run[i + 1] == run[i]
    decreases |events|
  {
    hide RowsOf, EventsOf, FullySaved;
    if events != [] {
      var n := |events| - 1;
      var front := run[..n + 1];
      assert forall i :: 0 <= i < n ==> front[i + 1] == run[i + 1] && events[..n][i] == events[i];
      FinishedSessionsAreFrozen(front, events[..n], uuid);
      assert Step(run[n], events[n], run[n + 1]);
      StepKeepsFinalSessions(run[n], events[n], run[n + 1], uuid);
      if events[n].Save? && events[n].saved.uuid == uuid {
        assert FullySaved(run[n], events[n].saved).None? by {
          FinalSessionsAreNotSaved(run[n], events[n].saved);
        }
      }
    }
  }

  lemma FinalSessionsAreNotSaved(t: Tables, m: Match)
    requires IsFinal(t, m.uuid)
    ensures FullySaved(t, m).None?
  {
  }

  /** A save that went through leaves the session finished, with exactly the match's rows. */
  lemma SavedSessionHoldsItsMatch(t: Tables, m: Match, after: Tables)
    requires RowsAreSound(t) && FullySaved(t, m) == Some(after)
    ensures IsFinal(after, m.uuid)
    ensures after.sessions[m.uuid].duration == Some(m.duration)
    ensures after.sessions[m.uuid].winner == m.winner
    ensures after.sessions[m.uuid].status == if m.interrupted then Aborted else Completed
    ensures RowsOf(after.participants, m.uuid) == RowsFor(m.uuid, m.participants)
  {
    hide PlusParticipants, RowsOf;
    SaveKeepsRowsSound(t, m, after);
    NoRowsOf(t.participants, m.uuid);
    OnlyRowsOf(t.participants, RowsFor(m.uuid, m.participants), m.uuid);
  }

  lemma NoSessionIsSavedTwice(run: seq<Tables>, events: seq<Event>, i: nat, j: nat)
    requires IsRun(run, events) && i < j < |events|
    requires events[i].Save? && events[j].Save? && events[i].saved.uuid == events[j].saved.uuid
    requires FullySaved(run[i], events[i].saved) == Some(run[i + 1])
    ensures FullySaved(run[j], events[j].saved).None?
  {
    var later, rest := run[i + 1..j + 1], events[i + 1..j];
    assert IsFinal(run[i + 1], events[i].saved.uuid) by {
      hide PlusParticipants;
    }
    forall k | 0 <= k < |rest|
      ensures Step(later[k], rest[k], later[k + 1])
    {
      hide Step;
      assert Step(run[i + 1 + k], events[i + 1 + k], run[i + 1 + k + 1]);
    }
    FinishedSessionsAreFrozen(later, rest, events[i].saved.uuid);
    FinalSessionsAreNotSaved(run[j], events[j].saved);
  }

  // ----- when a save goes through -----

  /** A save that meets no failing statement goes through exactly when the session is named and
      not finished, every participant has a player row, and no player appears twice. */
  lemma SaveGoesThroughExactlyWhen(t: Tables, m: Match)
    requires RowsAreSound(t)
    ensures FullySaved(t, m).Some? <==>
              && m.uuid != "" && !IsFinal(t, m.uuid)
              && (forall p :: p in m.participants ==> p.player in t.players)
              && (forall i, j :: 0 <= i < j < |m.participants| ==>
                    m.participants[i].player != m.participants[j].player)
  {
    hide PlusParticipants, HasTakenPart;
    if m.uuid != "" && !IsFinal(t, m.uuid) {
      var begun := Begun(t, m);
      forall p | p in m.participants
        ensures !HasTakenPart(begun.participants, m.uuid, p.player)
      {
        NobodyTookPartYet(t, m.uuid, p.player);
      }
      ParticipantsFitExactlyWhen(begun, m, m.participants);
    }
  }

  lemma NobodyTookPartYet(t: Tables, uuid: string, player: PlayerId)
    requires RowsAreSound(t) && !IsFinal(t, uuid)
    ensures !HasTakenPart(t.participants, uuid, player)
  {
  }

  lemma {:induction false} ParticipantsFitExactlyWhen(t: Tables, m: Match, ps: seq<Participant>)
    requires forall p :: p in ps ==> !HasTakenPart(t.participants, m.uuid, p.player)
    ensures PlusParticipants(t, m, ps).Some? <==>
              && (forall p :: p in ps ==> p.player in t.players)
              && (forall i, j :: 0 <= i < j < |ps| ==> ps[i].player != ps[j].player)
  {
    hide Absorbed, HasTakenPart;
    if ps != [] {
      var n := |ps| - 1;
      assert forall p :: p in ps <==> p in ps[..n] || p == ps[n];
      ParticipantsFitExactlyWhen(t, m, ps[..n]);
      if PlusParticipants(t, m, ps[..n]).Some? {
        ParticipantsAddTheirRows(t, m, ps[..n]);
        TakenPartAfterwards(t, PlusParticipants(t, m, ps[..n]).value, m, ps[..n], ps[n].player);
      }
    }
  }

  lemma TakenPartAfterwards(t: Tables, after: Tables, m: Match, ps: seq<Participant>,
                            player: PlayerId)
    requires after.participants == t.participants + RowsFor(m.uuid, ps)
    requires !HasTakenPart(t.participants, m.uuid, player)
    ensures HasTakenPart(after.participants, m.uuid, player) <==>
              exists i :: 0 <= i < |ps| && ps[i].player == player
  {
    var rows := RowsFor(m.uuid, ps);
    if i :| 0 <= i < |ps| && ps[i].player == player {
      assert rows[i] in after.participants;
    }
    if HasTakenPart(after.participants, m.uuid, player) {
      var row :| row in after.participants && row.session == m.uuid
                 && row.participant.player == player;
      assert row in rows;
      var i :| 0 <= i < |rows| && rows[i] == row;
      assert ps[i].player == player;
    }
  }

  /** The stored player count is the one given when the session row was first inserted: it is the
      number of participant rows unless the session was begun earlier with another count. */
  lemma PlayerCountAgreesExactlyWhen(t: Tables, m: Match, after: Tables)
    requires RowsAreSound(t) && FullySaved(t, m) == Some(after)
    ensures after.sessions[m.uuid].playerCount == |RowsOf(after.participants, m.uuid)| <==>
              (m.uuid in t.sessions ==> t.sessions[m.uuid].playerCount == |m.participants|)
  {
    hide PlusParticipants, RowsOf;
    SaveKeepsRowsSound(t, m, after);
    ParticipantsKeepSessions(Begun(t, m), m, m.participants);
    var rows := RowsFor(m.uuid, m.participants);
    NoRowsOf(t.participants, m.uuid);
    OnlyRowsOf(t.participants, rows, m.uuid);
  }

  /** A round begun before its participants are known, as the server begins all of its rounds, and
      saved with some: whatever happens in between, the stored count is wrong. */
  lemma RoundBegunEmptyStoresAWrongCount(run: seq<Tables>, events: seq<Event>, begun: Match,
                                         saved: Match)
    requires IsRun(run, events) && |events| >= 2 && RowsAreSound(run[|events| - 1])
    requires events[0] == Begin(begun) && begun.uuid !in run[0].sessions
    requires run[1] == Begun(run[0], begun) && begun.participants == []
    requires events[|events| - 1] == Save(saved) && saved.uuid == begun.uuid
    requires FullySaved(run[|events| - 1], saved) == Some(run[|events|])
    requires saved.participants != []
    ensures var after := run[|events|];
            && after.sessions[saved.uuid].playerCount == 0
            && |RowsOf(after.participants, saved.uuid)| == |saved.participants| > 0
  {
    hide FullySaved, RowsOf, RowsAreSound, Step, Begun;
    var n := |events| - 1;
    BegunCountIsStored(run[0], begun);
    var middle, rest := run[1..n + 1], events[1..n];
    forall k | 0 <= k < |rest|
      ensures Step(middle[k], rest[k], middle[k + 1])
    {
      assert Step(run[1 + k], events[1 + k], run[1 + k + 1]);
    }
    CountStays(middle, rest, begun.uuid);
    SaveKeepsTheCount(run[n], saved, run[n + 1]);
    SavedSessionHoldsItsMatch(run[n], saved, run[n + 1]);
  }

  lemma BegunCountIsStored(t: Tables, m: Match)
    requires m.uuid !in t.sessions
    ensures m.uuid in Begun(t, m).sessions
    ensures Begun(t, m).sessions[m.uuid].playerCount == |m.participants|
  {
  }

  lemma SaveKeepsTheCount(t: Tables, m: Match, after: Tables)
    requires FullySaved(t, m) == Some(after)
    ensures forall uuid :: uuid in t.sessions ==>
              uuid in after.sessions
              && after.sessions[uuid].playerCount == t.sessions[uuid].playerCount
  {
    hide PlusParticipants;
    ParticipantsKeepSessions(Begun(t, m), m, m.participants);
  }

  /** No event changes the count of a session that has a row. */
  lemma {:induction false} CountStays(run: seq<Tables>, events: seq<Event>, uuid: string)
    requires IsRun(run, events) && uuid in run[0].sessions
    ensures uuid in run[|events|].sessions
    ensures run[|events|].sessions[uuid].playerCount == run[0].sessions[uuid].playerCount
    decreases |events|
  {
    hide FullySaved;
    if events != [] {
      var n := |events| - 1;
      var front := run[..n + 1];
      assert forall i :: 0 <= i < n ==> front[i + 1] == run[i + 1] && events[..n][i] == events[i];
      CountStays(front, events[..n], uuid);
      assert Step(run[n], events[n], run[n + 1]);
      if events[n].Save? && run[n + 1] != run[n] {
        SaveKeepsTheCount(run[n], events[n].saved, run[n + 1]);
      }
    }
  }

  lemma {:induction false} NoRowsOf(rows: seq<ParticipantRow>, uuid: string)
    requires forall row :: row in rows ==> row.session != uuid
    ensures RowsOf(rows, uuid) == []
  {
    if rows != [] {
      assert rows[|rows| - 1] in rows;
      NoRowsOf(rows[..|rows| - 1], uuid);
    }
  }

  lemma {:induction false} OnlyRowsOf(rows: seq<ParticipantRow>, more: seq<ParticipantRow>,
                                      uuid: string)
    requires forall i :: 0 <= i < |more| ==> more[i].session == uuid
    ensures RowsOf(rows + more, uuid) == RowsOf(rows, uuid) + more
  {
    if more == [] {
      assert rows + more == rows;
    } else {
      var n := |more| - 1;
      assert (rows + more)[..|rows + more| - 1] == rows + more[..n];
      OnlyRowsOf(rows, more[..n], uuid);
    }
  }
}
