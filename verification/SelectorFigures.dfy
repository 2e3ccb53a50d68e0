/** The selector's choice in figures, without scores, tiers or keys. */
module SelectorFigures {
  import opened Sequences
  import opened Selector
  import opened SelectorWeights

  predicate CanBeJoined(c: Candidate) {
    c.reachable && c.host != "" && c.port > 0 && c.capacity > 0 && c.players < c.capacity
  }

  function Load(c: Candidate): real
    requires c.capacity > 0
  {
    c.players as real / c.capacity as real
  }

  /** Candidates beyond 200 ms compete only when nobody nearer can be joined. */
  ghost predicate Competes(candidates: seq<Candidate>, c: Candidate) {
    && CanBeJoined(c)
    && (c.latency > 200 ==> forall d :: d in candidates && CanBeJoined(d) ==> d.latency > 200)
  }

  /** The greatest latency among the competitors, but not 0. */
  ghost predicate IsGreatestLatency(candidates: seq<Candidate>, scale: nat) {
    && scale > 0
    && (forall c :: c in candidates && Competes(candidates, c) ==> c.latency <= scale)
    && (scale == 1 || exists c :: c in candidates && Competes(candidates, c) && c.latency == scale)
  }

  /** Lower weighted sum of relative latency and load. */
  function Sum(c: Candidate, w: Weights, scale: nat): real
    requires c.capacity > 0 && scale > 0
  {
    w.latency * (c.latency as real / scale as real) + w.load * Load(c)
  }

  /** Among equals the closer, then the emptier, then the one first by host and port. */
  predicate IsBefore(c: Candidate, d: Candidate)
    requires c.capacity > 0 && d.capacity > 0
  {
    || c.latency < d.latency
    || (c.latency == d.latency
        && (|| Load(c) < Load(d)
            || (Load(c) == Load(d)
                && (TextLess(c.host, d.host) || (c.host == d.host && c.port < d.port)))))
  }

  lemma ChosenCompetes(candidates: seq<Candidate>, w: Weights, result: Selection, c: Candidate)
    requires IsChosen(candidates, w, result) && c in candidates
    ensures Competes(candidates, c) <==> IsEligible(c, result.fallback)
  {
    hide IsBest, Score;
    ChosenIsEligible(candidates, w, result);
    assert forall d :: IsJoinable(d) <==> CanBeJoined(d);
  }

  lemma ScaleIsTheGreatest(candidates: seq<Candidate>, w: Weights, result: Selection)
    requires IsChosen(candidates, w, result)
    ensures IsGreatestLatency(candidates, LatencyScale(candidates, result.fallback))
  {
    hide IsChosen, IsEligible, Competes, MaximumLatency;
    forall c | c in candidates
      ensures Competes(candidates, c) <==> IsEligible(c, result.fallback)
    {
      ChosenCompetes(candidates, w, result, c);
    }
    LatencyStaysBelowTheMaximum(candidates, result.fallback);
    if MaximumLatency(candidates, result.fallback) > 0 {
      var c :| c in candidates && IsEligible(c, result.fallback)
               && c.latency == MaximumLatency(candidates, result.fallback);
      assert Competes(candidates, c);
    }
  }

  lemma SumIsCost(c: Candidate, w: Weights, scale: nat)
    requires IsJoinable(c) && scale > 0
    ensures Sum(c, w, scale) == Cost(ScaledLatency(c, scale), LoadRatio(c), w)
    ensures Load(c) == LoadRatio(c)
  {
  }

  lemma SameSumSameScore(c: Candidate, d: Candidate, w: Weights, scale: nat)
    requires IsJoinable(c) && IsJoinable(d) && AreValid(w) && scale > 0
    requires Sum(c, w, scale) == Sum(d, w, scale)
    ensures Score(c, w, scale) == Score(d, w, scale)
  {
    hide Score, Sum, Cost, ScaledLatency, LoadRatio;
    SumIsCost(c, w, scale);
    SumIsCost(d, w, scale);
    ScoreIsCost(c, w, scale);
    ScoreIsCost(d, w, scale);
    SameFactor(Score(c, w, scale), Score(d, w, scale), w.latency + w.load);
  }

  lemma SameFactor(x: real, y: real, k: real)
    requires k > 0.0 && x * k == y * k
    ensures x == y
  {
    if x < y {
      ProductRises(k, x, y);
    } else if y < x {
      ProductRises(k, y, x);
    }
  }

  lemma BeforeWinsTie(c: Candidate, d: Candidate, w: Weights, scale: nat)
    requires IsJoinable(c) && IsJoinable(d) && AreValid(w) && scale > 0
    requires Score(c, w, scale) == Score(d, w, scale)
    ensures Precedes(KeyOf(c, w, scale), KeyOf(d, w, scale)) <==> IsBefore(c, d)
  {
    hide Score, TextLess;
    NotLessThanItself(c.host);
  }

  lemma BestByKeys(candidates: seq<Candidate>, w: Weights, result: Selection, i: nat)
    requires IsChosen(candidates, w, result)
    requires i < |candidates| && IsEligible(candidates[i], result.fallback)
    ensures result.index < |candidates|
    ensures IsJoinable(candidates[i]) && IsJoinable(candidates[result.index])
    ensures var scale, c, d := LatencyScale(candidates, result.fallback),
                               candidates[result.index], candidates[i];
            && !Precedes(KeyOf(d, w, scale), KeyOf(c, w, scale))
            && (i < result.index ==> Precedes(KeyOf(c, w, scale), KeyOf(d, w, scale)))
  {
    hide Precedes, Score, LoadRatio;
  }

  lemma BestIsNotBeaten(candidates: seq<Candidate>, w: Weights, result: Selection, i: nat)
    requires IsChosen(candidates, w, result)
    requires i < |candidates| && Competes(candidates, candidates[i])
    ensures result.index < |candidates| && Competes(candidates, candidates[result.index])
    ensures var scale, c, d := LatencyScale(candidates, result.fallback),
                               candidates[result.index], candidates[i];
            && Sum(c, w, scale) <= Sum(d, w, scale)
            && (Sum(c, w, scale) == Sum(d, w, scale) ==>
                  !IsBefore(d, c) && (i < result.index ==> IsBefore(c, d)))
  {
    hide Score, Cost, ScaledLatency, IsBefore, Sum, Precedes;
    var scale, d := LatencyScale(candidates, result.fallback), candidates[i];
    ChosenCompetes(candidates, w, result, d);
    BestByKeys(candidates, w, result, i);
    var c := candidates[result.index];
    ChosenCostsLeast(candidates, w, result, i);
    ChosenCompetes(candidates, w, result, c);
    SumIsCost(c, w, scale);
    SumIsCost(d, w, scale);
    if Sum(c, w, scale) == Sum(d, w, scale) {
      SameSumSameScore(c, d, w, scale);
      BeforeWinsTie(c, d, w, scale);
      BeforeWinsTie(d, c, w, scale);
    }
  }

  /** A server is chosen exactly when both weights are at least 0, not both are 0, and one can be
      joined. It competes; relative to the greatest latency no competitor has a lower weighted sum, and
      of those with the same sum none comes before it. The choice is marked exactly when it is
      beyond 200 ms. */
  lemma ChoiceInFigures(candidates: seq<Candidate>, w: Weights, result: Option<Selection>)
    returns (scale: nat)
    requires IsSelection(candidates, w, result)
    ensures result.Some? <==>
              && w.latency >= 0.0 && w.load >= 0.0 && (w.latency > 0.0 || w.load > 0.0)
              && exists c :: c in candidates && CanBeJoined(c)
    ensures result.Some? ==>
              && IsGreatestLatency(candidates, scale)
              && result.value.index < |candidates|
              && var c := candidates[result.value.index];
                 && Competes(candidates, c)
                 && (result.value.fallback <==> c.latency > 200)
                 && forall i :: 0 <= i < |candidates| && Competes(candidates, candidates[i]) ==>
                      var d := candidates[i];
                      && Sum(c, w, scale) <= Sum(d, w, scale)
                      && (Sum(c, w, scale) == Sum(d, w, scale) ==>
                            !IsBefore(d, c) && (i < result.value.index ==> IsBefore(c, d)))
  {
    hide IsBefore, Sum, IsBest, IsGreatestLatency;
    assert forall c :: IsJoinable(c) <==> CanBeJoined(c);
    scale := 1;
    if result.Some? {
      scale := LatencyScale(candidates, result.value.fallback);
      ChosenIsEligible(candidates, w, result.value);
      var c := candidates[result.value.index];
      ChosenCompetes(candidates, w, result.value, c);
      ScaleIsTheGreatest(candidates, w, result.value);
      assert result.value.fallback <==> c.latency > 200;
      forall i: nat | i < |candidates| && Competes(candidates, candidates[i])
        ensures Sum(c, w, scale) <= Sum(candidates[i], w, scale)
        ensures Sum(c, w, scale) == Sum(candidates[i], w, scale) ==>
                  !IsBefore(candidates[i], c) && (i < result.value.index ==> IsBefore(c, candidates[i]))
      {
        BestIsNotBeaten(candidates, w, result.value, i);
      }
    }
  }
}
