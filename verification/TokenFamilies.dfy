/** Session tokens: a registration or login opens a family with one access and one refresh token;
    each refresh rotates the refresh token, and presenting one that is no longer good revokes the
    family (the rotation of section 4.14.2 of RFC 9700). */
module TokenFamilies {
  import opened Sequences
  import Calendar

  const ACCESS_SECONDS: nat := 900
  const REFRESH_SECONDS: nat := 2592000

  /** Tokens are known to the table by their digest only. */
  type Digest = nat
  type Family = nat

  datatype Kind = Access | Refresh

  datatype Row = Row(userId: nat, kind: Kind, family: Family, expiresAt: nat,
                     revokedAt: Option<nat>, rotatedAt: Option<nat>, replacedBy: Option<Digest>)

  type Table = map<Digest, Row>

  datatype Result = Success | InvalidToken | DatabaseError

  /** The random tokens of one issue, as digests. */
  datatype Pair = Pair(access: Digest, refresh: Digest)

  /** The digest column is unique: inserting a taken one fails. */
  function Inserted(rows: Table, digest: Digest, row: Row): Option<Table> {
    if digest in rows then None else Some(rows[digest := row])
  }

  function Issued(rows: Table, userId: nat, family: Family, pair: Pair, now: nat): Option<Table> {
    var withAccess := Inserted(rows, pair.access,
      Row(userId, Access, family, now + ACCESS_SECONDS, None, None, None));
    if withAccess.None? then None
    else Inserted(withAccess.value, pair.refresh,
      Row(userId, Refresh, family, now + REFRESH_SECONDS, None, None, None))
  }

  /** Every row of the family is revoked; one revoked earlier keeps its time. */
  function FamilyRevoked(rows: Table, family: Family, now: nat): Table {
    map d | d in rows ::
      if rows[d].family == family && rows[d].revokedAt.None? then rows[d].(revokedAt := Some(now))
      else rows[d]
  }

  predicate IsUnavailable(row: Row, now: nat) {
    row.revokedAt.Some? || row.rotatedAt.Some? || row.expiresAt <= now
  }

  /** Opening a session, at registration or login. A failure anywhere rolls the whole transaction
      back. */
  function LoggedIn(rows: Table, userId: nat, family: Family, pair: Pair, now: nat, commits: bool)
    : (Table, Result)
  {
    var issued := Issued(rows, userId, family, pair, now);
    if commits && issued.Some? then (issued.value, Success) else (rows, DatabaseError)
  }

  predicate IsFound(rows: Table, digest: Digest, kind: Kind) {
    digest in rows && rows[digest].kind == kind
  }

  /** Trading a refresh token in; None stands for a token of the wrong length. The transaction may
      fail to begin or find its row, or fail at any later statement. */
  function Refreshed(rows: Table, token: Option<Digest>, pair: Pair, now: nat, begins: bool,
                     commits: bool): (Table, Result)
  {
    if token.None? then (rows, InvalidToken)
    else if !begins then (rows, DatabaseError)
    else if !IsFound(rows, token.value, Refresh) then (rows, InvalidToken)
    else
      var row := rows[token.value];
      if IsUnavailable(row, now) then
        if commits then (FamilyRevoked(rows, row.family, now), InvalidToken)
        else (rows, DatabaseError)
      else
        var issued := Issued(rows, row.userId, row.family, pair, now);
        if commits && issued.Some? then (Rotated(issued.value, token.value, row, pair, now), Success)
        else (rows, DatabaseError)
  }

  function Rotated(rows: Table, digest: Digest, row: Row, pair: Pair, now: nat): Table {
    rows[digest := row.(revokedAt := Some(now), rotatedAt := Some(now),
                        replacedBy := Some(pair.refresh))]
  }

  function LoggedOut(rows: Table, token: Option<Digest>, now: nat, begins: bool, commits: bool)
    : (Table, Result)
  {
    if token.None? then (rows, InvalidToken)
    else if !begins then (rows, DatabaseError)
    else if !IsFound(rows, token.value, Access) then (rows, InvalidToken)
    else if commits then (FamilyRevoked(rows, rows[token.value].family, now), Success)
    else (rows, DatabaseError)
  }

  /** Whether an access token opens the account. */
  predicate IsGranted(rows: Table, token: Option<Digest>, now: nat) {
    && token.Some? && IsFound(rows, token.value, Access)
    && rows[token.value].revokedAt.None? && now < rows[token.value].expiresAt
  }

  /** The expiry column and the current moment are compared as texts; up to the year 9999 that is
      the comparison of the times. */
  lemma ExpiryIsComparedAsText(row: Row, now: nat)
    requires row.expiresAt <= Calendar.LAST_FOUR_DIGIT_SECOND
    requires now <= Calendar.LAST_FOUR_DIGIT_SECOND
    ensures now < row.expiresAt <==>
              Calendar.ExpiresLaterAsText(Calendar.FormatUtcTime(row.expiresAt), now)
    ensures IsUnavailable(row, now) <==>
              || row.revokedAt.Some? || row.rotatedAt.Some?
              || !Calendar.ExpiresLaterAsText(Calendar.FormatUtcTime(row.expiresAt), now)
  {
    hide Calendar.FormatUtcTime;
    Calendar.TextOrderIsTimeOrder(now, row.expiresAt);
  }

  /** The table behind the account operations, written statement by statement. */
  class AccountStore {
    var rows: Table

    constructor ()
      ensures rows == map[]
    {
      rows := map[];
    }

    method InsertToken(digest: Digest, row: Row) returns (ok: bool)
      modifies this
      ensures Inserted(old(rows), digest, row) == if ok then Some(rows) else None
      ensures !ok ==> rows == old(rows)
    {
      if digest in rows {
        return false;
      }
      rows := rows[digest := row];
      ok := true;
    }

    /** May leave the access token behind when the refresh token cannot be inserted. */
    method IssueTokenPair(userId: nat, family: Family, pair: Pair, now: nat) returns (ok: bool)
      modifies this
      ensures Issued(old(rows), userId, family, pair, now) == if ok then Some(rows) else None
    {
      ok := InsertToken(pair.access,
                        Row(userId, Access, family, now + ACCESS_SECONDS, None, None, None));
      if ok {
        ok := InsertToken(pair.refresh,
                          Row(userId, Refresh, family, now + REFRESH_SECONDS, None, None, None));
      }
    }

    method LogIn(userId: nat, family: Family, pair: Pair, now: nat, commits: bool)
      returns (result: Result)
      modifies this
      ensures (rows, result) == LoggedIn(old(rows), userId, family, pair, now, commits)
    {
      var before := rows;
      var ok := IssueTokenPair(userId, family, pair, now);
      if !ok || !commits {
        rows := before;
        return DatabaseError;
      }
      return Success;
    }

    method TradeIn(token: Option<Digest>, pair: Pair, now: nat, begins: bool, commits: bool)
      returns (result: Result)
      modifies this
      ensures (rows, result) == Refreshed(old(rows), token, pair, now, begins, commits)
    {
      if token.None? {
        return InvalidToken;
      }
      if !begins {
        return DatabaseError;
      }
      var before := rows;
      if !IsFound(rows, token.value, Refresh) {
        return InvalidToken;
      }
      var row := rows[token.value];
      if IsUnavailable(row, now) {
        rows := FamilyRevoked(rows, row.family, now);
        if !commits {
          rows := before;
          return DatabaseError;
        }
        return InvalidToken;
      }
      var ok := IssueTokenPair(row.userId, row.family, pair, now);
      if !ok {
        rows := before;
        return DatabaseError;
      }
      rows := Rotated(rows, token.value, row, pair, now);
      if !commits {
        rows := before;
        return DatabaseError;
      }
      return Success;
    }

    method LogOut(token: Option<Digest>, now: nat, begins: bool, commits: bool)
      returns (result: Result)
      modifies this
      ensures (rows, result) == LoggedOut(old(rows), token, now, begins, commits)
    {
      if token.None? {
        return InvalidToken;
      }
      if !begins {
        return DatabaseError;
      }
      if !IsFound(rows, token.value, Access) {
        return InvalidToken;
      }
      var before := rows;
      rows := FamilyRevoked(rows, rows[token.value].family, now);
      if !commits {
        rows := before;
        return DatabaseError;
      }
      return Success;
    }

    /** The account an access token opens. */
    method GetMe(token: Option<Digest>, now: nat, begins: bool)
      returns (result: Result, userId: nat)
      ensures result == Success <==> begins && IsGranted(rows, token, now)
      ensures result == Success ==> userId == rows[token.value].userId
      ensures result == DatabaseError <==> token.Some? && !begins
    {
      if token.None? {
        return InvalidToken, 0;
      }
      if !begins {
        return DatabaseError, 0;
      }
      if !IsFound(rows, token.value, Access) {
        return InvalidToken, 0;
      }
      var row := rows[token.value];
      if row.revokedAt.Some? || row.expiresAt <= now {
        return InvalidToken, 0;
      }
      return Success, row.userId;
    }
  }

  // ----- whole runs -----

  datatype Event =
    | Login(userId: nat, family: Family, pair: Pair, now: nat, commits: bool)
    | Trade(token: Option<Digest>, pair: Pair, now: nat, begins: bool, commits: bool)
    | Logout(token: Option<Digest>, now: nat, begins: bool, commits: bool)

  /** The table, and for every family ever opened its refresh tokens in order of issue. */
  datatype Session = Session(rows: Table, chains: map<Family, seq<Digest>>)

  /** A login draws a family id that no earlier login has drawn. */
  predicate IsFresh(s: Session, e: Event) {
    e.Login? ==> e.family !in s.chains
  }

  function Outcome(rows: Table, e: Event): (Table, Result) {
    match e
    case Login(userId, family, pair, now, commits) =>
      LoggedIn(rows, userId, family, pair, now, commits)
    case Trade(token, pair, now, begins, commits) =>
      Refreshed(rows, token, pair, now, begins, commits)
    case Logout(token, now, begins, commits) => LoggedOut(rows, token, now, begins, commits)
  }

  /** The family an event speaks for, once it has succeeded. */
  function FamilyOf(rows: Table, e: Event): Option<Family> {
    if e.Login? then Some(e.family)
    else if e.token.Some? && e.token.value in rows then Some(rows[e.token.value].family)
    else None
  }

  function Step(s: Session, e: Event): Session {
    var (rows, result) := Outcome(s.rows, e);
    var family := FamilyOf(s.rows, e);
    if result != Success || e.Logout? || family.None? then Session(rows, s.chains)
    else
      var chain := if family.value in s.chains then s.chains[family.value] else [];
      Session(rows, s.chains[family.value := chain + [e.pair.refresh]])
  }

  function Run(s: Session, events: seq<Event>): Session
    decreases |events|
  {
    if events == [] then s else Run(Step(s, events[0]), events[1..])
  }

  ghost predicate AllFresh(s: Session, events: seq<Event>)
    decreases |events|
  {
    events == [] || (IsFresh(s, events[0]) && AllFresh(Step(s, events[0]), events[1..]))
  }

  const START := Session(map[], map[])

  ghost predicate IsDistinct(chain: seq<Digest>) {
    forall i, j :: 0 <= i < j < |chain| ==> chain[i] != chain[j]
  }

  /** The row of the i-th token of a chain: traded in for the next one unless it is the last. */
  ghost predicate IsLink(rows: Table, family: Family, chain: seq<Digest>, i: nat)
    requires i < |chain|
  {
    && IsFound(rows, chain[i], Refresh)
    && rows[chain[i]].family == family
    && if i + 1 < |chain| then
         && rows[chain[i]].rotatedAt.Some? && rows[chain[i]].revokedAt.Some?
         && rows[chain[i]].replacedBy == Some(chain[i + 1])
       else
         rows[chain[i]].rotatedAt.None? && rows[chain[i]].replacedBy.None?
  }

  /** A family's refresh tokens are one simple chain. */
  ghost predicate IsChain(rows: Table, family: Family, chain: seq<Digest>) {
    && chain != [] && IsDistinct(chain)
    && forall i :: 0 <= i < |chain| ==> IsLink(rows, family, chain, i)
  }

  ghost predicate Inv(s: Session) {
    && (forall f :: f in s.chains ==> IsChain(s.rows, f, s.chains[f]))
    && (forall d :: d in s.rows ==>
          && s.rows[d].family in s.chains
          && (s.rows[d].kind == Refresh ==> d in s.chains[s.rows[d].family]))
  }

  /** A row that has at most been revoked. */
  predicate IsKept(before: Row, after: Row) {
    && after.(revokedAt := None) == before.(revokedAt := None)
    && (before.revokedAt.Some? ==> after.revokedAt == before.revokedAt)
  }

  lemma KeptRowsKeepTheChain(before: Table, after: Table, family: Family, chain: seq<Digest>)
    requires IsChain(before, family, chain)
    requires forall d :: d in before && before[d].family == family ==>
               d in after && IsKept(before[d], after[d])
    ensures IsChain(after, family, chain)
  {
    forall i | 0 <= i < |chain|
      ensures IsLink(after, family, chain, i)
    {
      assert IsLink(before, family, chain, i);
    }
  }

  lemma IssuedAddsTwoRows(rows: Table, userId: nat, family: Family, pair: Pair, now: nat)
    requires Issued(rows, userId, family, pair, now).Some?
    ensures pair.access !in rows && pair.refresh !in rows && pair.access != pair.refresh
    ensures var after := Issued(rows, userId, family, pair, now).value;
            && (forall d :: d in rows ==> d in after && after[d] == rows[d])
            && (forall d :: d in after ==> d in rows || d in {pair.access, pair.refresh})
            && pair.access in after && pair.refresh in after
            && after[pair.access] ==
                 Row(userId, Access, family, now + ACCESS_SECONDS, None, None, None)
            && after[pair.refresh] ==
                 Row(userId, Refresh, family, now + REFRESH_SECONDS, None, None, None)
  {
  }

  lemma RevokingKeepsInv(s: Session, family: Family, now: nat)
    requires Inv(s)
    ensures Inv(s.(rows := FamilyRevoked(s.rows, family, now)))
  {
    var after := FamilyRevoked(s.rows, family, now);
    forall f | f in s.chains
      ensures IsChain(after, f, s.chains[f])
    {
      KeptRowsKeepTheChain(s.rows, after, f, s.chains[f]);
    }
  }

  lemma LoginKeepsInv(s: Session, e: Event)
    requires Inv(s) && IsFresh(s, e) && e.Login?
    ensures Inv(Step(s, e))
  {
    var after := Step(s, e);
    if Outcome(s.rows, e).1 == Success {
      IssuedAddsTwoRows(s.rows, e.userId, e.family, e.pair, e.now);
      assert [] + [e.pair.refresh] == [e.pair.refresh];
      assert after.chains == s.chains[e.family := [e.pair.refresh]];
      forall f | f in after.chains
        ensures IsChain(after.rows, f, after.chains[f])
      {
        if f == e.family {
          assert IsLink(after.rows, f, [e.pair.refresh], 0);
        } else {
          KeptRowsKeepTheChain(s.rows, after.rows, f, s.chains[f]);
        }
      }
    }
  }

  /** Only the last token of a chain has not been traded in. */
  lemma UntradedIsLast(s: Session, digest: Digest)
    requires Inv(s) && IsFound(s.rows, digest, Refresh) && s.rows[digest].rotatedAt.None?
    ensures var family := s.rows[digest].family;
            && family in s.chains && s.chains[family] != []
            && digest == s.chains[family][|s.chains[family]| - 1]
  {
    var family := s.rows[digest].family;
    var chain := s.chains[family];
    var i :| 0 <= i < |chain| && chain[i] == digest;
    assert IsLink(s.rows, family, chain, i);
  }

  lemma TradedChain(before: Table, after: Table, digest: Digest, row: Row, chain: seq<Digest>,
                    next: Digest)
    requires IsChain(before, row.family, chain) && digest == chain[|chain| - 1]
    requires next !in before && IsFound(after, next, Refresh)
    requires after[next].family == row.family
    requires after[next].rotatedAt.None? && after[next].replacedBy.None?
    requires forall d :: d in before && d != digest ==> d in after && after[d] == before[d]
    requires IsFound(after, digest, Refresh) && after[digest].family == row.family
    requires after[digest].rotatedAt.Some? && after[digest].revokedAt.Some?
    requires after[digest].replacedBy == Some(next)
    ensures IsChain(after, row.family, chain + [next])
  {
    var longer := chain + [next];
    assert forall i :: 0 <= i < |chain| ==> IsLink(before, row.family, chain, i);
    forall i | 0 <= i < |longer|
      ensures IsLink(after, row.family, longer, i)
    {
      if i < |chain| {
        assert IsLink(before, row.family, chain, i);
        assert longer[i] == chain[i];
        if i < |chain| - 1 {
          assert chain[i] != chain[|chain| - 1];
        }
      }
    }
    forall i | 0 <= i < |chain|
      ensures chain[i] != next
    {
      assert IsLink(before, row.family, chain, i);
    }
  }

  /** A family's chain grown by one token keeps every chain, if no other family's rows change and no
      other refresh token is added. */
  lemma GrownChainKeepsInv(s: Session, after: Session, family: Family, next: Digest)
    requires Inv(s) && family in s.chains
    requires after.chains == s.chains[family := s.chains[family] + [next]]
    requires IsChain(after.rows, family, s.chains[family] + [next])
    requires forall d :: d in s.rows && s.rows[d].family != family ==>
               d in after.rows && after.rows[d] == s.rows[d]
    requires forall d :: d in after.rows ==>
               || (d in s.rows && after.rows[d].family == s.rows[d].family
                   && after.rows[d].kind == s.rows[d].kind)
               || (after.rows[d].family == family && (after.rows[d].kind == Refresh ==> d == next))
    ensures Inv(after)
  {
    hide IsChain;
    var chain := s.chains[family] + [next];
    forall f | f in after.chains
      ensures IsChain(after.rows, f, after.chains[f])
    {
      if f != family {
        KeptRowsKeepTheChain(s.rows, after.rows, f, s.chains[f]);
      }
    }
    assert chain[|chain| - 1] == next;
  }

  lemma TradeKeepsInv(s: Session, e: Event)
    requires Inv(s) && e.Trade?
    ensures Inv(Step(s, e))
  {
    if Outcome(s.rows, e).1 == Success {
      hide IsChain;
      var digest := e.token.value;
      var row := s.rows[digest];
      UntradedIsLast(s, digest);
      IssuedAddsTwoRows(s.rows, row.userId, row.family, e.pair, e.now);
      var after := Step(s, e);
      TradedChain(s.rows, after.rows, digest, row, s.chains[row.family], e.pair.refresh);
      GrownChainKeepsInv(s, after, row.family, e.pair.refresh);
    } else if IsRevoking(s.rows, e) {
      RevokingKeepsInv(s, s.rows[e.token.value].family, e.now);
    }
  }

  /** An event that revokes a whole family: a logout, or a token that is no longer good. */
  predicate IsRevoking(rows: Table, e: Event) {
    && !e.Login? && e.token.Some? && e.begins && e.commits
    && match e
       case Trade(token, _, now, _, _) =>
         IsFound(rows, token.value, Refresh) && IsUnavailable(rows[token.value], now)
       case Logout(token, _, _, _) => IsFound(rows, token.value, Access)
       case Login(_, _, _, _, _) => false
  }

  lemma StepKeepsInv(s: Session, e: Event)
    requires Inv(s) && IsFresh(s, e)
    ensures Inv(Step(s, e))
  {
    hide Inv;
    if e.Login? {
      LoginKeepsInv(s, e);
    } else if e.Trade? {
      TradeKeepsInv(s, e);
    } else if IsRevoking(s.rows, e) {
      RevokingKeepsInv(s, s.rows[e.token.value].family, e.now);
    } else {
      assert Step(s, e) == s;
    }
  }

  lemma {:induction false} RunKeepsInv(s: Session, events: seq<Event>)
    requires Inv(s) && AllFresh(s, events)
    ensures Inv(Run(s, events))
    decreases |events|
  {
    hide Inv, Step, IsFresh;
    if events != [] {
      StepKeepsInv(s, events[0]);
      RunKeepsInv(Step(s, events[0]), events[1..]);
    }
  }

  /** A refresh token that could still be traded in, leaving its expiry aside. */
  predicate IsLive(rows: Table, d: Digest) {
    IsFound(rows, d, Refresh) && rows[d].revokedAt.None? && rows[d].rotatedAt.None?
  }

  /** Over every run of logins, refreshes and logouts, with failures anywhere, the refresh tokens
      of a family form one chain in order of issue, and at most one of them is live. */
  lemma EachFamilyHasOneChain(events: seq<Event>, first: Digest, second: Digest)
    requires AllFresh(START, events)
    ensures var s := Run(START, events);
            && (forall f :: f in s.chains ==> IsChain(s.rows, f, s.chains[f]))
            && (IsLive(s.rows, first) && IsLive(s.rows, second) ==>
                  s.rows[first].family == s.rows[second].family ==> first == second)
  {
    RunKeepsInv(START, events);
    var s := Run(START, events);
    if IsLive(s.rows, first) {
      UntradedIsLast(s, first);
    }
    if IsLive(s.rows, second) {
      UntradedIsLast(s, second);
    }
  }

  // ----- revocation is for good -----

  predicate IsDead(rows: Table, family: Family) {
    forall d :: d in rows && rows[d].family == family ==> rows[d].revokedAt.Some?
  }

  /** No refresh succeeds and no access is granted with a token of a dead family. */
  lemma DeadFamilyServesNobody(rows: Table, family: Family, d: Digest, pair: Pair, now: nat,
                               begins: bool, commits: bool)
    requires IsDead(rows, family) && d in rows && rows[d].family == family
    ensures Refreshed(rows, Some(d), pair, now, begins, commits).1 != Success
    ensures !IsGranted(rows, Some(d), now)
  {
  }

  lemma RevokingKillsTheFamily(rows: Table, e: Event)
    requires IsRevoking(rows, e)
    ensures IsDead(Outcome(rows, e).0, rows[e.token.value].family)
  {
  }

  lemma StepKeepsDead(s: Session, e: Event, family: Family)
    requires IsFresh(s, e) && family in s.chains && IsDead(s.rows, family)
    ensures family in Step(s, e).chains && IsDead(Step(s, e).rows, family)
  {
    if Outcome(s.rows, e).1 == Success {
      match e
      case Login(userId, drawn, pair, now, _) =>
        IssuedAddsTwoRows(s.rows, userId, drawn, pair, now);
      case Trade(token, pair, now, _, _) =>
        var row := s.rows[token.value];
        IssuedAddsTwoRows(s.rows, row.userId, row.family, pair, now);
      case Logout(_, _, _, _) =>
    }
  }

  lemma {:induction false} RunKeepsDead(s: Session, events: seq<Event>, family: Family)
    requires AllFresh(s, events) && family in s.chains && IsDead(s.rows, family)
    ensures family in Run(s, events).chains && IsDead(Run(s, events).rows, family)
    decreases |events|
  {
    hide IsDead, Step, IsFresh;
    if events != [] {
      StepKeepsDead(s, events[0], family);
      RunKeepsDead(Step(s, events[0]), events[1..], family);
    }
  }

  lemma {:induction false} RunsCompose(s: Session, first: seq<Event>, second: seq<Event>)
    requires AllFresh(s, first + second)
    ensures AllFresh(s, first) && AllFresh(Run(s, first), second)
    ensures Run(s, first + second) == Run(Run(s, first), second)
    decreases |first|
  {
    hide IsFresh, Step;
    if first == [] {
      assert first + second == second;
    } else {
      assert (first + second)[1..] == first[1..] + second;
      RunsCompose(Step(s, first[0]), first[1..], second);
    }
  }

  /** After a logout, or after a token that is no longer good was presented, nothing in that
      family is ever honoured again, whatever happens afterwards. */
  lemma RevocationIsForGood(before: seq<Event>, e: Event, after: seq<Event>, d: Digest, pair: Pair,
                            now: nat, begins: bool, commits: bool)
    requires AllFresh(START, before + [e] + after)
    requires IsRevoking(Run(START, before).rows, e)
    ensures var s := Run(START, before + [e] + after);
            d in s.rows && s.rows[d].family == Run(START, before).rows[e.token.value].family ==>
              && Refreshed(s.rows, Some(d), pair, now, begins, commits).1 != Success
              && !IsGranted(s.rows, Some(d), now)
  {
    hide IsDead;
    var s := Run(START, before);
    assert before + [e] + after == before + ([e] + after);
    RunsCompose(START, before, [e] + after);
    assert ([e] + after)[1..] == after;
    RunKeepsInv(START, before);
    var family := s.rows[e.token.value].family;
    RevokingKillsTheFamily(s.rows, e);
    var end := Run(Step(s, e), after);
    RunKeepsDead(Step(s, e), after, family);
    if d in end.rows && end.rows[d].family == family {
      DeadFamilyServesNobody(end.rows, family, d, pair, now, begins, commits);
    }
  }

  // ----- and comes from nothing else -----

  /** A logout, or a refresh with a token that is no longer good, leaves the rows of every other family
      as they were. */
  lemma RevocationStaysInTheFamily(rows: Table, e: Event, d: Digest)
    requires IsRevoking(rows, e)
    ensures var after := Outcome(rows, e).0;
            && after.Keys == rows.Keys
            && (d in rows && rows[d].family != rows[e.token.value].family ==> after[d] == rows[d])
  {
  }

  /** Some event of the run spoke for the family and revoked it. */
  ghost predicate WasRevoked(s: Session, events: seq<Event>, family: Family) {
    exists k :: 0 <= k < |events| && IsRevokedAt(s, events, k, family)
  }

  ghost predicate IsRevokedAt(s: Session, events: seq<Event>, k: nat, family: Family)
    requires k < |events|
  {
    var rows := Run(s, events[..k]).rows;
    IsRevoking(rows, events[k]) && FamilyOf(rows, events[k]) == Some(family)
  }

  /** A family dies at one step only by an event that revokes it. */
  lemma StepKillsExactlyWhen(s: Session, e: Event, family: Family)
    requires Inv(s) && IsFresh(s, e) && family in Step(s, e).chains
    ensures IsDead(Step(s, e).rows, family) <==>
              || (family in s.chains && IsDead(s.rows, family))
              || (IsRevoking(s.rows, e) && FamilyOf(s.rows, e) == Some(family))
  {
    hide Inv;
    if IsRevoking(s.rows, e) {
      RevokingKillsOne(s, e, family);
    } else if Outcome(s.rows, e).1 == Success {
      if e.Login? {
        LoginKillsNone(s, e, family);
      } else {
        TradeKillsNone(s, e, family);
      }
    }
  }

  lemma RevokingKillsOne(s: Session, e: Event, family: Family)
    requires Inv(s) && IsRevoking(s.rows, e) && family in s.chains
    ensures IsDead(Step(s, e).rows, family) <==>
              IsDead(s.rows, family) || FamilyOf(s.rows, e) == Some(family)
  {
    hide IsChain;
    var after := Step(s, e).rows;
    RevokingKillsTheFamily(s.rows, e);
    if FamilyOf(s.rows, e) != Some(family) {
      forall d | d in s.rows && s.rows[d].family == family
        ensures d in after && after[d] == s.rows[d]
      {
        RevocationStaysInTheFamily(s.rows, e, d);
      }
    }
  }

  lemma LoginKillsNone(s: Session, e: Event, family: Family)
    requires Inv(s) && IsFresh(s, e) && e.Login? && Outcome(s.rows, e).1 == Success
    ensures var dead := IsDead(Step(s, e).rows, family);
            if family == e.family then !dead else dead == IsDead(s.rows, family)
  {
    hide IsChain;
    IssuedAddsTwoRows(s.rows, e.userId, e.family, e.pair, e.now);
    var after := Step(s, e).rows;
    assert after[e.pair.access].family == e.family;
  }

  lemma TradeKillsNone(s: Session, e: Event, family: Family)
    requires Inv(s) && e.Trade? && Outcome(s.rows, e).1 == Success
    requires family in Step(s, e).chains
    ensures family in s.chains
    ensures IsDead(Step(s, e).rows, family) <==> IsDead(s.rows, family)
  {
    hide IsChain;
    var row := s.rows[e.token.value];
    IssuedAddsTwoRows(s.rows, row.userId, row.family, e.pair, e.now);
    var after := Step(s, e).rows;
    if family == row.family {
      assert after[e.pair.access].family == family && after[e.pair.access].revokedAt.None?;
    } else {
      assert forall d :: d in s.rows && s.rows[d].family == family ==> after[d] == s.rows[d];
      assert forall d :: d in after && after[d].family == family ==> d in s.rows;
    }
  }

  lemma OpenedStaysOpen(s: Session, e: Event, family: Family)
    ensures family in s.chains ==> family in Step(s, e).chains
  {
  }

  /** Over every run, a family is dead exactly when some event of the run spoke for it and revoked
      it: whatever happens to other families never ends it. */
  lemma {:induction false} DeadExactlyWhenRevoked(events: seq<Event>, family: Family)
    requires AllFresh(START, events) && family in Run(START, events).chains
    ensures IsDead(Run(START, events).rows, family) <==> WasRevoked(START, events, family)
  {
    hide Inv, IsFresh, Step, IsDead, IsRevokedAt;
    if events != [] {
      var front, last := events[..|events| - 1], events[|events| - 1];
      assert events == front + [last];
      RunsCompose(START, front, [last]);
      var s := Run(START, front);
      RunOfOne(s, last);
      StartIsSound();
      RunKeepsInv(START, front);
      StepKillsExactlyWhen(s, last, family);
      RevokedInOneMore(START, front, last, family);
      if family in s.chains {
        DeadExactlyWhenRevoked(front, family);
      } else if WasRevoked(START, front, family) {
        UnopenedIsNotRevoked(front, family);
      }
    }
  }

  lemma StartIsSound()
    ensures Inv(START)
  {
  }

  lemma RunOfOne(s: Session, e: Event)
    requires AllFresh(s, [e])
    ensures Run(s, [e]) == Step(s, e) && IsFresh(s, e)
  {
    hide Step, IsFresh;
    assert [e][1..] == [];
  }

  lemma RevokedInOneMore(s: Session, front: seq<Event>, last: Event, family: Family)
    ensures var rows := Run(s, front).rows;
            WasRevoked(s, front + [last], family) <==>
              || WasRevoked(s, front, family)
              || (IsRevoking(rows, last) && FamilyOf(rows, last) == Some(family))
  {
    hide IsRevoking, FamilyOf, Run;
    var all := front + [last];
    assert all[..|front|] == front && all[|front|] == last;
    forall k | 0 <= k < |front|
      ensures IsRevokedAt(s, all, k, family) <==> IsRevokedAt(s, front, k, family)
    {
      assert all[..k] == front[..k] && all[k] == front[k];
    }
    if WasRevoked(s, front, family) {
      var k :| 0 <= k < |front| && IsRevokedAt(s, front, k, family);
      assert IsRevokedAt(s, all, k, family);
    }
    if IsRevokedAt(s, all, |front|, family) {
      assert WasRevoked(s, all, family);
    }
  }

  /** Nobody speaks for a family that was never opened. */
  lemma UnopenedIsNotRevoked(events: seq<Event>, family: Family)
    requires AllFresh(START, events) && family !in Run(START, events).chains
    ensures !WasRevoked(START, events, family)
  {
    hide Inv, IsFresh, Step, IsRevoking, AllFresh;
    StartIsSound();
    forall k | 0 <= k < |events|
      ensures !IsRevokedAt(START, events, k, family)
    {
      assert events == events[..k] + events[k..];
      RunsCompose(START, events[..k], events[k..]);
      RunKeepsInv(START, events[..k]);
      RunKeepsOpened(Run(START, events[..k]), events[k..], family);
      if IsRevokedAt(START, events, k, family) {
        SpokenForIsOpen(Run(START, events[..k]), events[k], family);
      }
    }
  }

  lemma SpokenForIsOpen(s: Session, e: Event, family: Family)
    requires Inv(s) && IsRevoking(s.rows, e) && FamilyOf(s.rows, e) == Some(family)
    ensures family in s.chains
  {
    hide IsChain;
  }

  lemma {:induction false} RunKeepsOpened(s: Session, events: seq<Event>, family: Family)
    ensures family in s.chains ==> family in Run(s, events).chains
    decreases |events|
  {
    hide Step;
    if events != [] {
      OpenedStaysOpen(s, events[0], family);
      RunKeepsOpened(Step(s, events[0]), events[1..], family);
    }
  }

  // ----- a traded token is never good again -----

  predicate IsTraded(rows: Table, d: Digest) {
    IsFound(rows, d, Refresh) && rows[d].rotatedAt.Some?
  }

  lemma StepKeepsTraded(s: Session, e: Event, d: Digest)
    requires IsTraded(s.rows, d)
    ensures IsTraded(Step(s, e).rows, d)
    ensures Step(s, e).rows[d].family == s.rows[d].family
  {
    if Outcome(s.rows, e).1 == Success {
      match e
      case Login(userId, drawn, pair, now, _) =>
        IssuedAddsTwoRows(s.rows, userId, drawn, pair, now);
      case Trade(token, pair, now, _, _) =>
        var row := s.rows[token.value];
        IssuedAddsTwoRows(s.rows, row.userId, row.family, pair, now);
      case Logout(_, _, _, _) =>
    }
  }

  lemma {:induction false} RunKeepsTraded(s: Session, events: seq<Event>, d: Digest)
    requires IsTraded(s.rows, d)
    ensures IsTraded(Run(s, events).rows, d)
    ensures Run(s, events).rows[d].family == s.rows[d].family
    decreases |events|
  {
    hide Step;
    if events != [] {
      StepKeepsTraded(s, events[0], d);
      RunKeepsTraded(Step(s, events[0]), events[1..], d);
    }
  }

  /** Presenting a refresh token a second time, at any later moment, is refused and revokes its
      family. */
  lemma SecondUseRevokesTheFamily(s: Session, first: Event, between: seq<Event>, second: Event)
    requires first.Trade? && Outcome(s.rows, first).1 == Success
    requires second.Trade? && second.token == first.token && second.begins && second.commits
    ensures var later := Run(Step(s, first), between);
            && Outcome(later.rows, second).1 == InvalidToken
            && IsDead(Outcome(later.rows, second).0, s.rows[first.token.value].family)
  {
    hide IsDead;
    var d := first.token.value;
    assert IsTraded(Step(s, first).rows, d) by {
      var row := s.rows[d];
      IssuedAddsTwoRows(s.rows, row.userId, row.family, first.pair, first.now);
    }
    RunKeepsTraded(Step(s, first), between, d);
    RevokingKillsTheFamily(Run(Step(s, first), between).rows, second);
  }

  // ----- when a token is honoured -----

  /** Only trading in revokes a single token; any other revocation takes the whole family. */
  ghost predicate IsRevokedTogether(rows: Table) {
    forall d :: d in rows ==>
      && (rows[d].kind == Access ==> rows[d].rotatedAt.None?)
      && (rows[d].revokedAt.Some? && rows[d].rotatedAt.None? ==> IsDead(rows, rows[d].family))
  }

  lemma TradeRevokesTogether(s: Session, e: Event)
    requires e.Trade? && IsRevokedTogether(s.rows) && Outcome(s.rows, e).1 == Success
    ensures IsRevokedTogether(Step(s, e).rows)
  {
    var after := Step(s, e).rows;
    var digest := e.token.value;
    var row := s.rows[digest];
    IssuedAddsTwoRows(s.rows, row.userId, row.family, e.pair, e.now);
    forall d | d in after && after[d].revokedAt.Some? && after[d].rotatedAt.None?
      ensures IsDead(after, after[d].family)
    {
      assert d in s.rows && after[d] == s.rows[d];
    }
  }

  lemma LoginRevokesTogether(s: Session, e: Event)
    requires e.Login? && IsRevokedTogether(s.rows) && Outcome(s.rows, e).1 == Success
    requires forall d :: d in s.rows ==> s.rows[d].family != e.family
    ensures IsRevokedTogether(Step(s, e).rows)
  {
    IssuedAddsTwoRows(s.rows, e.userId, e.family, e.pair, e.now);
  }

  lemma RevokingRevokesTogether(rows: Table, family: Family, now: nat)
    requires IsRevokedTogether(rows)
    ensures IsRevokedTogether(FamilyRevoked(rows, family, now))
  {
  }

  lemma StepRevokesTogether(s: Session, e: Event)
    requires Inv(s) && IsFresh(s, e) && IsRevokedTogether(s.rows)
    ensures IsRevokedTogether(Step(s, e).rows)
  {
    hide IsRevokedTogether, IsChain;
    if IsRevoking(s.rows, e) {
      RevokingRevokesTogether(s.rows, s.rows[e.token.value].family, e.now);
    } else if Outcome(s.rows, e).1 == Success {
      if e.Login? {
        LoginRevokesTogether(s, e);
      } else {
        TradeRevokesTogether(s, e);
      }
    }
  }

  lemma {:induction false} RunRevokesTogether(s: Session, events: seq<Event>)
    requires Inv(s) && AllFresh(s, events) && IsRevokedTogether(s.rows)
    ensures IsRevokedTogether(Run(s, events).rows)
    decreases |events|
  {
    hide Inv, Step, IsFresh, IsRevokedTogether;
    if events != [] {
      StepKeepsInv(s, events[0]);
      StepRevokesTogether(s, events[0]);
      RunRevokesTogether(Step(s, events[0]), events[1..]);
    }
  }

  /** Over every run, an access token opens the account exactly while its lifetime lasts and no event
      of the run has revoked its family: a refresh of the family does not end it. */
  lemma AccessIsGrantedExactlyWhen(events: seq<Event>, d: Digest, now: nat)
    requires AllFresh(START, events)
    requires IsFound(Run(START, events).rows, d, Access)
    ensures var rows := Run(START, events).rows;
            IsGranted(rows, Some(d), now) <==>
              now < rows[d].expiresAt && !WasRevoked(START, events, rows[d].family)
  {
    hide WasRevoked, IsChain;
    StartIsSound();
    RunKeepsInv(START, events);
    RunRevokesTogether(START, events);
    DeadExactlyWhenRevoked(events, Run(START, events).rows[d].family);
  }

  /** Over every run, with a working database and a fresh pair, a refresh token is traded in
      exactly when it is the newest of its family, its lifetime lasts and no event of the run has
      revoked its family. */
  lemma RefreshSucceedsExactlyWhen(events: seq<Event>, d: Digest, pair: Pair, now: nat)
    requires AllFresh(START, events)
    requires IsFound(Run(START, events).rows, d, Refresh)
    requires pair.access != pair.refresh
    requires pair.access !in Run(START, events).rows && pair.refresh !in Run(START, events).rows
    ensures var s := Run(START, events);
            var family := s.rows[d].family;
            && family in s.chains && s.chains[family] != []
            && (Refreshed(s.rows, Some(d), pair, now, true, true).1 == Success <==>
                  && d == s.chains[family][|s.chains[family]| - 1]
                  && now < s.rows[d].expiresAt && !WasRevoked(START, events, family))
  {
    hide WasRevoked;
    StartIsSound();
    RunKeepsInv(START, events);
    RunRevokesTogether(START, events);
    DeadExactlyWhenRevoked(events, Run(START, events).rows[d].family);
    var s := Run(START, events);
    var family := s.rows[d].family;
    var chain := s.chains[family];
    assert IsLink(s.rows, family, chain, |chain| - 1);
    if s.rows[d].rotatedAt.None? {
      UntradedIsLast(s, d);
    }
  }
}
