/** What a session amounts to without any table: who opened it, the token pairs issued to it in order
    with their times, and whether it has been revoked. The token table gives exactly the answers of
    that ledger. */
module TokenLedger {
  import opened Sequences
  import opened TokenFamilies

  datatype Issue = Issue(access: Digest, refresh: Digest, at: nat)

  datatype Member = Member(userId: nat, issues: seq<Issue>, revoked: bool)

  type Ledger = map<Family, Member>

  function TokenAt(issue: Issue, kind: Kind): Digest {
    if kind == Access then issue.access else issue.refresh
  }

  ghost predicate IsIssued(l: Ledger, kind: Kind, d: Digest, f: Family, i: nat) {
    f in l && i < |l[f].issues| && TokenAt(l[f].issues[i], kind) == d
  }

  ghost predicate Has(l: Ledger, kind: Kind, d: Digest) {
    exists f, i :: IsIssued(l, kind, d, f, i)
  }

  /** The family a token was issued to, and with which of its pairs. */
  ghost function Holder(l: Ledger, kind: Kind, d: Digest): (h: (Family, nat))
    requires Has(l, kind, d)
    ensures IsIssued(l, kind, d, h.0, h.1)
  {
    var f, i :| IsIssued(l, kind, d, f, i);
    (f, i)
  }

  ghost predicate IsNew(l: Ledger, pair: Pair) {
    && pair.access != pair.refresh
    && forall kind :: !Has(l, kind, pair.access) && !Has(l, kind, pair.refresh)
  }

  /** The pair to trade in is the last one of a family that is not revoked, within its lifetime. */
  predicate IsGood(m: Member, i: nat, now: nat)
    requires i < |m.issues|
  {
    !m.revoked && i + 1 == |m.issues| && now < m.issues[i].at + REFRESH_SECONDS
  }

  function Revoked(l: Ledger, f: Family): Ledger
    requires f in l
  {
    l[f := l[f].(revoked := true)]
  }

  function Extended(l: Ledger, f: Family, pair: Pair, now: nat): Ledger
    requires f in l
  {
    l[f := l[f].(issues := l[f].issues + [Issue(pair.access, pair.refresh, now)])]
  }

  /** The rules of the sessions: one event, and its answer. */
  ghost function Answered(l: Ledger, e: Event): (Ledger, Result) {
    match e
    case Login(userId, family, pair, now, commits) =>
      if commits && IsNew(l, pair) then
        (l[family := Member(userId, [Issue(pair.access, pair.refresh, now)], false)], Success)
      else (l, DatabaseError)
    case Trade(token, pair, now, begins, commits) =>
      if token.None? then (l, InvalidToken)
      else if !begins then (l, DatabaseError)
      else if !Has(l, Refresh, token.value) then (l, InvalidToken)
      else
        var (f, i) := Holder(l, Refresh, token.value);
        if !IsGood(l[f], i, now) then
          if commits then (Revoked(l, f), InvalidToken) else (l, DatabaseError)
        else if commits && IsNew(l, pair) then (Extended(l, f, pair, now), Success)
        else (l, DatabaseError)
    case Logout(token, now, begins, commits) =>
      if token.None? then (l, InvalidToken)
      else if !begins then (l, DatabaseError)
      else if !Has(l, Access, token.value) then (l, InvalidToken)
      else if commits then (Revoked(l, Holder(l, Access, token.value).0), Success)
      else (l, DatabaseError)
  }

  /** The account an access token opens, if any. */
  ghost function Opened(l: Ledger, token: Option<Digest>, now: nat): Option<nat> {
    if token.None? || !Has(l, Access, token.value) then None
    else
      var (f, i) := Holder(l, Access, token.value);
      if l[f].revoked || now >= l[f].issues[i].at + ACCESS_SECONDS then None
      else Some(l[f].userId)
  }

  // ----- the table reflects the ledger -----

  /** The two rows of the i-th pair of a family. */
  ghost predicate IsRecorded(rows: Table, f: Family, m: Member, i: nat)
    requires i < |m.issues|
  {
    var issue, isLast := m.issues[i], i + 1 == |m.issues|;
    && issue.access in rows && issue.refresh in rows
    && rows[issue.access].(revokedAt := None) ==
         Row(m.userId, Access, f, issue.at + ACCESS_SECONDS, None, None, None)
    && rows[issue.access].revokedAt.Some? == m.revoked
    && rows[issue.refresh].userId == m.userId && rows[issue.refresh].kind == Refresh
    && rows[issue.refresh].family == f
    && rows[issue.refresh].expiresAt == issue.at + REFRESH_SECONDS
    && rows[issue.refresh].rotatedAt.None? == isLast
    && rows[issue.refresh].revokedAt.Some? == (m.revoked || !isLast)
  }

  ghost predicate IsPairwiseNew(m: Member) {
    forall i, j :: 0 <= i < j < |m.issues| ==>
      m.issues[i].access != m.issues[j].access && m.issues[i].refresh != m.issues[j].refresh
  }

  ghost predicate Reflects(rows: Table, l: Ledger) {
    && (forall f :: f in l ==> IsPairwiseNew(l[f]))
    && (forall f :: f in l ==> forall i :: 0 <= i < |l[f].issues| ==> IsRecorded(rows, f, l[f], i))
    && (forall d :: d in rows ==> exists i :: IsIssued(l, rows[d].kind, d, rows[d].family, i))
  }

  lemma HeldIsFound(rows: Table, l: Ledger, kind: Kind, d: Digest)
    requires Reflects(rows, l)
    ensures Has(l, kind, d) <==> IsFound(rows, d, kind)
    ensures Has(l, kind, d) ==>
              Holder(l, kind, d).0 == rows[d].family
              && IsRecorded(rows, rows[d].family, l[rows[d].family], Holder(l, kind, d).1)
  {
    hide IsPairwiseNew;
    if Has(l, kind, d) {
      var (f, i) := Holder(l, kind, d);
      assert IsRecorded(rows, f, l[f], i);
    }
    if IsFound(rows, d, kind) {
      var i :| IsIssued(l, rows[d].kind, d, rows[d].family, i);
    }
  }

  lemma NewIsUnused(rows: Table, l: Ledger, pair: Pair, userId: nat, f: Family, now: nat)
    requires Reflects(rows, l)
    ensures IsNew(l, pair) <==> Issued(rows, userId, f, pair, now).Some?
  {
    hide Has, Reflects;
    HeldIsFound(rows, l, Access, pair.access);
    HeldIsFound(rows, l, Refresh, pair.access);
    HeldIsFound(rows, l, Access, pair.refresh);
    HeldIsFound(rows, l, Refresh, pair.refresh);
    if Issued(rows, userId, f, pair, now).Some? {
      IssuedAddsTwoRows(rows, userId, f, pair, now);
      forall kind
        ensures !Has(l, kind, pair.access) && !Has(l, kind, pair.refresh)
      {
        HeldIsFound(rows, l, kind, pair.access);
        HeldIsFound(rows, l, kind, pair.refresh);
      }
    }
  }

  lemma GoodIsAvailable(rows: Table, l: Ledger, d: Digest, now: nat)
    requires Reflects(rows, l) && Has(l, Refresh, d)
    ensures var (f, i) := Holder(l, Refresh, d);
            IsFound(rows, d, Refresh) && (IsGood(l[f], i, now) <==> !IsUnavailable(rows[d], now))
  {
    hide Reflects, Has;
    HeldIsFound(rows, l, Refresh, d);
  }

  lemma RevokingReflects(rows: Table, l: Ledger, f: Family, now: nat)
    requires Reflects(rows, l) && f in l
    ensures Reflects(FamilyRevoked(rows, f, now), Revoked(l, f))
  {
    hide IsPairwiseNew;
    var after, l' := FamilyRevoked(rows, f, now), Revoked(l, f);
    forall g, i | g in l' && 0 <= i < |l'[g].issues|
      ensures IsRecorded(after, g, l'[g], i)
    {
      assert IsRecorded(rows, g, l[g], i);
    }
    forall d | d in after
      ensures exists i :: IsIssued(l', after[d].kind, d, after[d].family, i)
    {
      var i :| IsIssued(l, rows[d].kind, d, rows[d].family, i);
      assert IsIssued(l', after[d].kind, d, after[d].family, i);
    }
    assert IsPairwiseNew(l'[f]) by { RevokedIsPairwiseNew(l[f]); }
  }

  lemma RevokedIsPairwiseNew(m: Member)
    requires IsPairwiseNew(m)
    ensures IsPairwiseNew(m.(revoked := true))
  {
  }

  lemma LoginReflects(rows: Table, l: Ledger, userId: nat, f: Family, pair: Pair, now: nat)
    requires Reflects(rows, l) && f !in l && Issued(rows, userId, f, pair, now).Some?
    ensures Reflects(Issued(rows, userId, f, pair, now).value,
                     l[f := Member(userId, [Issue(pair.access, pair.refresh, now)], false)])
  {
    hide IsPairwiseNew, Issued;
    IssuedAddsTwoRows(rows, userId, f, pair, now);
    var after := Issued(rows, userId, f, pair, now).value;
    var m := Member(userId, [Issue(pair.access, pair.refresh, now)], false);
    var l' := l[f := m];
    forall g, i | g in l' && 0 <= i < |l'[g].issues|
      ensures IsRecorded(after, g, l'[g], i)
    {
      if g != f {
        assert IsRecorded(rows, g, l[g], i);
      }
    }
    forall d | d in after
      ensures exists i :: IsIssued(l', after[d].kind, d, after[d].family, i)
    {
      if d in rows {
        var i :| IsIssued(l, rows[d].kind, d, rows[d].family, i);
        assert IsIssued(l', after[d].kind, d, after[d].family, i);
      } else {
        assert IsIssued(l', after[d].kind, d, f, 0);
      }
    }
    assert IsPairwiseNew(m) by { OnePairIsPairwiseNew(m); }
  }

  lemma OnePairIsPairwiseNew(m: Member)
    requires |m.issues| == 1
    ensures IsPairwiseNew(m)
  {
  }

  lemma TradeReflects(rows: Table, l: Ledger, d: Digest, pair: Pair, now: nat)
    requires Reflects(rows, l) && Has(l, Refresh, d)
    requires var (f, i) := Holder(l, Refresh, d); IsGood(l[f], i, now)
    requires d in rows && Issued(rows, rows[d].userId, rows[d].family, pair, now).Some?
    ensures var f := Holder(l, Refresh, d).0;
            Reflects(Rotated(Issued(rows, rows[d].userId, rows[d].family, pair, now).value, d,
                             rows[d], pair, now),
                     Extended(l, f, pair, now))
  {
    hide IsPairwiseNew, Issued, Has;
    HeldIsFound(rows, l, Refresh, d);
    var (f, n) := Holder(l, Refresh, d);
    IssuedAddsTwoRows(rows, rows[d].userId, f, pair, now);
    var issued := Issued(rows, rows[d].userId, f, pair, now).value;
    var after, l' := Rotated(issued, d, rows[d], pair, now), Extended(l, f, pair, now);
    forall g, i | g in l' && 0 <= i < |l'[g].issues|
      ensures IsRecorded(after, g, l'[g], i)
    {
      if g != f {
        assert IsRecorded(rows, g, l[g], i);
      } else if i <= n {
        assert IsRecorded(rows, f, l[f], i);
        OthersDiffer(l[f], i, n);
      }
    }
    forall e | e in after
      ensures exists i :: IsIssued(l', after[e].kind, e, after[e].family, i)
    {
      if e in rows {
        var i :| IsIssued(l, rows[e].kind, e, rows[e].family, i);
        assert IsIssued(l', after[e].kind, e, after[e].family, i);
      } else {
        assert IsIssued(l', after[e].kind, e, f, n + 1);
      }
    }
    ExtendedIsPairwiseNew(rows, l, f, pair, now);
  }

  lemma OthersDiffer(m: Member, i: nat, n: nat)
    requires IsPairwiseNew(m) && i <= n < |m.issues|
    ensures i < n ==> m.issues[i].refresh != m.issues[n].refresh
  {
  }

  lemma ExtendedIsPairwiseNew(rows: Table, l: Ledger, f: Family, pair: Pair, now: nat)
    requires Reflects(rows, l) && f in l && pair.access !in rows && pair.refresh !in rows
    ensures IsPairwiseNew(Extended(l, f, pair, now)[f])
  {
    forall i | 0 <= i < |l[f].issues|
      ensures l[f].issues[i].access != pair.access && l[f].issues[i].refresh != pair.refresh
    {
      assert IsRecorded(rows, f, l[f], i);
    }
  }

  // ----- one event -----

  /** Answered alike, and the table reflects the ledger afterwards too. */
  ghost predicate Agrees(rows: Table, l: Ledger, e: Event) {
    var (rows', result) := Outcome(rows, e);
    var (l', result') := Answered(l, e);
    Reflects(rows', l') && result == result'
  }

  lemma LoginAgrees(rows: Table, l: Ledger, e: Event)
    requires Reflects(rows, l) && e.Login? && e.family !in l
    ensures Agrees(rows, l, e)
  {
    hide Reflects, IsNew, Issued;
    NewIsUnused(rows, l, e.pair, e.userId, e.family, e.now);
    if e.commits && IsNew(l, e.pair) {
      LoginReflects(rows, l, e.userId, e.family, e.pair, e.now);
    }
  }

  lemma TradeAgrees(rows: Table, l: Ledger, e: Event)
    requires Reflects(rows, l) && e.Trade?
    ensures Agrees(rows, l, e)
  {
    hide Reflects, IsNew, Issued, Has, IsUnavailable, IsGood, FamilyRevoked, Revoked, Extended, Rotated;
    if e.token.Some? {
      var d := e.token.value;
      HeldIsFound(rows, l, Refresh, d);
      if Has(l, Refresh, d) {
        GoodIsAvailable(rows, l, d, e.now);
        NewIsUnused(rows, l, e.pair, rows[d].userId, rows[d].family, e.now);
        var (f, i) := Holder(l, Refresh, d);
        if !IsGood(l[f], i, e.now) {
          RevokingReflects(rows, l, f, e.now);
        } else if IsNew(l, e.pair) {
          TradeReflects(rows, l, d, e.pair, e.now);
        }
      }
    }
  }

  lemma LogoutAgrees(rows: Table, l: Ledger, e: Event)
    requires Reflects(rows, l) && e.Logout?
    ensures Agrees(rows, l, e)
  {
    hide Reflects, Has, FamilyRevoked, Revoked;
    if e.token.Some? {
      HeldIsFound(rows, l, Access, e.token.value);
      if Has(l, Access, e.token.value) {
        RevokingReflects(rows, l, Holder(l, Access, e.token.value).0, e.now);
      }
    }
  }

  // ----- whole runs -----

  ghost function LedgerAfter(events: seq<Event>): Ledger {
    if events == [] then map[]
    else Answered(LedgerAfter(events[..|events| - 1]), events[|events| - 1]).0
  }

  function RowsAfter(events: seq<Event>): Table {
    if events == [] then map[]
    else Outcome(RowsAfter(events[..|events| - 1]), events[|events| - 1]).0
  }

  lemma {:induction false} RunOneMore(s: Session, events: seq<Event>, e: Event)
    ensures Run(s, events + [e]) == Step(Run(s, events), e)
    decreases |events|
  {
    hide Step;
    if events == [] {
      assert [e][1..] == [] && events + [e] == [e];
    } else {
      assert (events + [e])[1..] == events[1..] + [e];
      RunOneMore(Step(s, events[0]), events[1..], e);
    }
  }

  lemma {:induction false} RowsOfRun(events: seq<Event>)
    ensures Run(START, events).rows == RowsAfter(events)
  {
    hide Outcome, FamilyOf;
    if events != [] {
      var front, last := events[..|events| - 1], events[|events| - 1];
      RowsOfRun(front);
      assert events == front + [last];
      RunOneMore(START, front, last);
    }
  }

  /** Every login of the run draws a family id that is not in use. */
  ghost predicate DrawsFreshIds(events: seq<Event>) {
    forall k :: 0 <= k < |events| && events[k].Login? ==>
      events[k].family !in LedgerAfter(events[..k])
  }

  lemma {:induction false} TableReflectsTheLedger(events: seq<Event>)
    requires DrawsFreshIds(events)
    ensures Reflects(RowsAfter(events), LedgerAfter(events))
  {
    hide Answered, Reflects;
    if events == [] {
      NothingIsReflected();
    } else {
      var front, last := events[..|events| - 1], events[|events| - 1];
      FreshPrefix(events, |events| - 1);
      TableReflectsTheLedger(front);
      EventAgrees(RowsAfter(front), LedgerAfter(front), last);
    }
  }

  lemma EventAgrees(rows: Table, l: Ledger, e: Event)
    requires Reflects(rows, l) && (e.Login? ==> e.family !in l)
    ensures Agrees(rows, l, e)
  {
    hide Reflects, Agrees;
    match e
    case Login(_, _, _, _, _) => LoginAgrees(rows, l, e);
    case Trade(_, _, _, _, _) => TradeAgrees(rows, l, e);
    case Logout(_, _, _, _) => LogoutAgrees(rows, l, e);
  }

  lemma NothingIsReflected()
    ensures Reflects(RowsAfter([]), LedgerAfter([]))
  {
  }

  lemma FreshPrefix(events: seq<Event>, n: nat)
    requires DrawsFreshIds(events) && n <= |events|
    ensures DrawsFreshIds(events[..n])
  {
    forall k | 0 <= k < n && events[..n][k].Login?
      ensures events[..n][k].family !in LedgerAfter(events[..n][..k])
    {
      assert events[..n][..k] == events[..k];
    }
  }

  /** Over every run of logins, refreshes and logouts, with failures anywhere: each event is answered
      as the ledger says, and an access token opens the account the ledger says, for as long as it
      says. */
  lemma EveryAnswerIsTheLedgers(events: seq<Event>, k: nat, token: Option<Digest>, now: nat)
    requires DrawsFreshIds(events) && k < |events|
    ensures Outcome(RowsAfter(events[..k]), events[k]).1
         == Answered(LedgerAfter(events[..k]), events[k]).1
    ensures var rows := RowsAfter(events);
            var account := Opened(LedgerAfter(events), token, now);
            && (IsGranted(rows, token, now) <==> account.Some?)
            && (account.Some? ==> rows[token.value].userId == account.value)
  {
    hide Reflects, Answered, Outcome, Has;
    FreshPrefix(events, k);
    TableReflectsTheLedger(events[..k]);
    EventAgrees(RowsAfter(events[..k]), LedgerAfter(events[..k]), events[k]);
    TableReflectsTheLedger(events);
    if token.Some? {
      HeldIsFound(RowsAfter(events), LedgerAfter(events), Access, token.value);
    }
  }
}
