/** What whole runs from an empty database leave behind: totals that are the sums over all rows, and
    an event log that tells every session from its records to its end. */
module MatchLog {
  import opened Sequences
  import opened MatchPersistence

  const EMPTY := Tables(map[], [], map[], map[], [])

  // ----- totals -----

  /** The tables as one player finds them on enrolling. */
  function OnEnrolling(player: PlayerId): Tables {
    Tables(map[], [], map[player := FRESH_STATS], map[player := PlayerRow(0, 0)], [])
  }

  lemma {:induction false} NoGamesYet(t: Tables, rows: seq<ParticipantRow>, player: PlayerId)
    requires forall row :: row in rows ==> row.participant.player != player
    ensures Games(t.sessions, rows, player) == []
  {
    if rows != [] {
      assert rows[|rows| - 1] in rows;
      NoGamesYet(t, rows[..|rows| - 1], player);
    }
  }

  lemma StepAgreesFromTheStart(t: Tables, e: Event, after: Tables, player: PlayerId)
    requires RowsAreSound(t) && Step(t, e, after)
    requires player in t.players ==> Agrees(OnEnrolling(player), t, player)
    ensures player in after.players ==> Agrees(OnEnrolling(player), after, player)
  {
    hide FullySaved, Games, AllAbsorbed, PlayTime;
    if player in t.players {
      StepKeepsAgreement(OnEnrolling(player), t, e, after, player);
    } else if after != t {
      if e.Save? {
        SaveEnrolsNobody(t, e.saved, after);
      } else if player in after.players {
        assert after.participants[0..] == t.participants;
        NoGamesYet(after, t.participants, player);
        NothingAbsorbed(Some(FRESH_STATS));
      }
    }
  }

  lemma NothingAbsorbed(initial: Option<Stats>)
    ensures AllAbsorbed(initial, []) == initial && PlayTime([]) == 0
  {
  }

  lemma SaveEnrolsNobody(t: Tables, m: Match, after: Tables)
    requires FullySaved(t, m) == Some(after)
    ensures after.players.Keys == t.players.Keys
  {
    hide PlusParticipants, HasTakenPart;
    ParticipantsAddTheirRows(Begun(t, m), m, m.participants);
  }

  lemma {:induction false} RunAgreesFromTheStart(run: seq<Tables>, events: seq<Event>,
                                                 player: PlayerId)
    requires IsRun(run, events) && run[0] == EMPTY
    ensures RowsAreSound(run[|events|])
    ensures player in run[|events|].players ==>
              Agrees(OnEnrolling(player), run[|events|], player)
    decreases |events|
  {
    hide Step, RowsAreSound, Agrees;
    if events == [] {
      NoRowsAreSound();
    } else {
      var n := |events| - 1;
      var front := run[..n + 1];
      assert forall i :: 0 <= i < n ==> front[i + 1] == run[i + 1] && events[..n][i] == events[i];
      RunAgreesFromTheStart(front, events[..n], player);
      assert Step(run[n], events[n], run[n + 1]);
      StepKeepsRowsSound(run[n], events[n], run[n + 1]);
      StepAgreesFromTheStart(run[n], events[n], run[n + 1], player);
    }
  }

  lemma NoRowsAreSound()
    ensures RowsAreSound(EMPTY)
  {
  }

  /** Over every run from an empty database, a player's totals are the figures of all the rows of
      that player and nothing else; the worst rank possible is 999. */
  lemma TotalsAreTheRows(run: seq<Tables>, events: seq<Event>, player: PlayerId)
    requires IsRun(run, events) && run[0] == EMPTY && player in run[|events|].players
    ensures var t := run[|events|];
            && player in t.stats
            && var games := Games(t.sessions, t.participants, player);
               var s, sums := t.stats[player], TotalsOf(games);
               && t.players[player] == PlayerRow(|games|, PlayTime(games))
               && s.games == |games| && s.kills == sums.kills == s.playersConsumed
               && s.deaths == sums.deaths && s.massConsumed == sums.massConsumed
               && s.massLost == sums.massLost && s.distance == sums.distance
               && s.spores == sums.spores
               && (forall g :: g in games ==> s.highestMass >= g.round.peakMass)
               && (s.highestMass == 0.0 || exists g :: g in games && g.round.peakMass == s.highestMass)
               && (forall g :: g in games ==> s.bestRank <= g.rank)
               && (s.bestRank == 999 || exists g :: g in games && g.rank == s.bestRank)
               && (forall g :: g in games ==> s.longestSurvival >= g.duration)
               && (s.longestSurvival == 0
                   || exists g :: g in games && g.duration == s.longestSurvival)
  {
    var t := run[|events|];
    hide RowsAreSound, IsRun, Games, PlayTime, TotalsOf, Absorbed, AllAbsorbed;
    RunAgreesFromTheStart(run, events, player);
    assert t.participants[0..] == t.participants;
    var games := Games(t.sessions, t.participants, player);
    AbsorbedIsSome(games);
    AbsorbedIsTheSum(FRESH_STATS, games);
    AbsorbedKeepsTheRecords(FRESH_STATS, games);
  }

  lemma AbsorbedIsSome(games: seq<Game>)
    ensures AllAbsorbed(Some(FRESH_STATS), games).Some?
  {
  }

  // ----- the event log -----

  /** The gameplay events of a session that were recorded in a run. */
  function Recorded(run: seq<Tables>, events: seq<Event>, uuid: string): seq<EventRow>
    requires |run| == |events| + 1
  {
    if events == [] then []
    else
      var n := |events| - 1;
      Recorded(run[..n + 1], events[..n], uuid)
      + (if events[n].Record? && events[n].event.session == uuid && run[n + 1] != run[n]
         then [events[n].event] else [])
  }

  function Summaries(rows: seq<ParticipantRow>, tick: nat): seq<EventRow> {
    if rows == [] then []
    else
      var row := rows[|rows| - 1];
      Summaries(rows[..|rows| - 1], tick)
      + [EventRow(row.session, Summary, tick, Some(row.participant.player))]
  }

  function Closing(uuid: string, status: Status, tick: nat): EventRow {
    EventRow(uuid, if status == Completed then MatchCompleted else MatchInterrupted, tick, None)
  }

  /** What the log says about a session: its records while it runs, and once it is finished one
      summary per participant in the order of their rows, and the manner of its end. */
  ghost predicate TellsSession(t: Tables, uuid: string, recorded: seq<EventRow>) {
    var log, rows := EventsOf(t.events, uuid), RowsOf(t.participants, uuid);
    if uuid !in t.sessions then log == recorded == [] && rows == []
    else
      && uuid != ""
      && if t.sessions[uuid].status == Active then log == recorded && rows == []
         else exists tick :: IsFullLog(log, recorded, rows, uuid, t.sessions[uuid].status, tick)
  }

  ghost predicate IsFullLog(log: seq<EventRow>, recorded: seq<EventRow>, rows: seq<ParticipantRow>,
                            uuid: string, status: Status, tick: nat)
  {
    log == recorded + Summaries(rows, tick) + [Closing(uuid, status, tick)]
  }

  lemma {:induction false} ParticipantsAddSummaries(t: Tables, m: Match, ps: seq<Participant>)
    requires PlusParticipants(t, m, ps).Some?
    ensures EventsOf(PlusParticipants(t, m, ps).value.events, m.uuid) ==
            EventsOf(t.events, m.uuid) + Summaries(RowsFor(m.uuid, ps), m.finalTick)
  {
    hide EventsOf, Absorbed, HasTakenPart;
    var rows := RowsFor(m.uuid, ps);
    if ps == [] {
      assert rows == [];
      assert EventsOf(t.events, m.uuid) + [] == EventsOf(t.events, m.uuid);
    } else {
      var n := |ps| - 1;
      ParticipantsAddSummaries(t, m, ps[..n]);
      assert rows[..n] == RowsFor(m.uuid, ps[..n]);
      EventsOfAppend(PlusParticipants(t, m, ps[..n]).value.events,
                     EventRow(m.uuid, Summary, m.finalTick, Some(ps[n].player)), m.uuid);
    }
  }

  lemma RunningLog(t: Tables, uuid: string, recorded: seq<EventRow>)
    requires TellsSession(t, uuid, recorded) && !IsFinal(t, uuid)
    ensures EventsOf(t.events, uuid) == recorded
  {
    hide EventsOf, RowsOf, IsFullLog;
  }

  lemma FullLogTells(t: Tables, uuid: string, recorded: seq<EventRow>, tick: nat)
    requires uuid != "" && IsFinal(t, uuid)
    requires IsFullLog(EventsOf(t.events, uuid), recorded, RowsOf(t.participants, uuid), uuid,
                       t.sessions[uuid].status, tick)
    ensures TellsSession(t, uuid, recorded)
  {
    hide EventsOf, RowsOf, IsFullLog;
  }

  /** The events a save adds to its session. */
  lemma SaveAddsItsEvents(t: Tables, m: Match, after: Tables)
    requires FullySaved(t, m) == Some(after)
    ensures m.uuid != "" && !IsFinal(t, m.uuid) && IsFinal(after, m.uuid)
    ensures EventsOf(after.events, m.uuid) ==
            EventsOf(t.events, m.uuid) + Summaries(RowsFor(m.uuid, m.participants), m.finalTick)
            + [Closing(m.uuid, after.sessions[m.uuid].status, m.finalTick)]
  {
    hide EventsOf, RowsOf, PlusParticipants, Summaries, RowsFor;
    var begun := Begun(t, m);
    var filled := PlusParticipants(begun, m, m.participants).value;
    ParticipantsAddSummaries(begun, m, m.participants);
    EventsOfAppend(filled.events, after.events[|after.events| - 1], m.uuid);
  }

  lemma SaveTellsItsSession(t: Tables, m: Match, after: Tables, recorded: seq<EventRow>)
    requires RowsAreSound(t) && FullySaved(t, m) == Some(after)
    requires TellsSession(t, m.uuid, recorded)
    ensures TellsSession(after, m.uuid, recorded)
  {
    hide EventsOf, RowsOf, RowsFor, RowsAreSound, FullySaved, TellsSession, Summaries;
    SaveAddsItsEvents(t, m, after);
    RunningLog(t, m.uuid, recorded);
    SavedSessionHoldsItsMatch(t, m, after);
    FullLogTells(after, m.uuid, recorded, m.finalTick);
  }

  /** Tables that say the same about a session. */
  lemma SameStory(t: Tables, after: Tables, uuid: string, recorded: seq<EventRow>)
    requires TellsSession(t, uuid, recorded)
    requires if uuid in t.sessions then SameSession(t, after, uuid)
             else && uuid !in after.sessions
                  && EventsOf(after.events, uuid) == EventsOf(t.events, uuid)
                  && RowsOf(after.participants, uuid) == RowsOf(t.participants, uuid)
    ensures TellsSession(after, uuid, recorded)
  {
    hide EventsOf, RowsOf, IsFullLog;
  }

  lemma SaveTellsOthers(t: Tables, m: Match, after: Tables, uuid: string, recorded: seq<EventRow>)
    requires FullySaved(t, m) == Some(after) && uuid != m.uuid
    requires TellsSession(t, uuid, recorded)
    ensures TellsSession(after, uuid, recorded)
  {
    hide EventsOf, RowsOf, PlusParticipants, TellsSession;
    var begun := Begun(t, m);
    var filled := PlusParticipants(begun, m, m.participants).value;
    ParticipantsLeaveOtherSessions(begun, m, m.participants, uuid);
    ParticipantsKeepSessions(begun, m, m.participants);
    EventsOfAppend(filled.events, after.events[|after.events| - 1], uuid);
    SameStory(t, after, uuid, recorded);
  }

  /** An event of the game, in this session or in another one. */
  lemma RecordTells(t: Tables, event: EventRow, after: Tables, uuid: string, recorded: seq<EventRow>)
    requires IsActive(t, event.session) && after == t.(events := t.events + [event])
    requires TellsSession(t, uuid, recorded)
    ensures TellsSession(after, uuid,
                         if event.session == uuid then recorded + [event] else recorded)
  {
    hide EventsOf, RowsOf, IsFullLog;
    EventsOfAppend(t.events, event, uuid);
    if event.session != uuid {
      SameStory(t, after, uuid, recorded);
    }
  }

  lemma BeginTells(t: Tables, m: Match, uuid: string, recorded: seq<EventRow>)
    requires m.uuid != "" && TellsSession(t, uuid, recorded)
    ensures TellsSession(Begun(t, m), uuid, recorded)
  {
    hide EventsOf, RowsOf, IsFullLog;
  }

  lemma StepTells(t: Tables, e: Event, after: Tables, uuid: string, recorded: seq<EventRow>)
    requires RowsAreSound(t) && Step(t, e, after) && TellsSession(t, uuid, recorded)
    ensures TellsSession(after, uuid,
                         recorded + (if e.Record? && e.event.session == uuid && after != t
                                     then [e.event] else []))
  {
    hide EventsOf, RowsOf, FullySaved, RowsAreSound, TellsSession, Begun;
    assert recorded + [] == recorded;
    if after != t {
      match e
      case Begin(m) => BeginTells(t, m, uuid, recorded);
      case Save(m) =>
        if m.uuid == uuid {
          SaveTellsItsSession(t, m, after, recorded);
        } else {
          SaveTellsOthers(t, m, after, uuid, recorded);
        }
      case Record(event) => RecordTells(t, event, after, uuid, recorded);
      case Enrol(player) => SameStory(t, after, uuid, recorded);
    }
  }

  /** Over every run from an empty database the log tells every session: nothing before it begins,
      its records in order while it runs, and after its end one summary for each participant and one
      closing event that agrees with its status. */
  lemma {:induction false} LogTellsEverySession(run: seq<Tables>, events: seq<Event>, uuid: string)
    requires IsRun(run, events) && run[0] == EMPTY
    ensures TellsSession(run[|events|], uuid, Recorded(run, events, uuid))
    decreases |events|
  {
    hide Step, RowsAreSound, TellsSession;
    if events == [] {
      NothingToTell(uuid);
    } else {
      var n := |events| - 1;
      var front := run[..n + 1];
      assert forall i :: 0 <= i < n ==> front[i + 1] == run[i + 1] && events[..n][i] == events[i];
      LogTellsEverySession(front, events[..n], uuid);
      RunAgreesFromTheStart(front, events[..n], 0);
      assert Step(run[n], events[n], run[n + 1]);
      StepTells(run[n], events[n], run[n + 1], uuid, Recorded(front, events[..n], uuid));
    }
  }

  lemma NothingToTell(uuid: string)
    ensures TellsSession(EMPTY, uuid, [])
  {
  }
}
