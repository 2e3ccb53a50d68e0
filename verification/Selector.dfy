/** The choice of a server: the best weighted score within the preferred latency tier, ties broken
    by latency, load, host and port. Scores are exact rationals. */
module Selector {
  import opened Sequences

  const PREFERRED_LATENCY_MS: nat := 200

  /** A missing host is the empty one: neither can be joined. */
  datatype Candidate = Candidate(host: string, port: nat, latency: nat, players: nat,
                                 capacity: nat, reachable: bool)

  datatype Weights = Weights(latency: real, load: real)

  datatype Selection = Selection(index: nat, score: real, fallback: bool)

  const DEFAULT_WEIGHTS := Weights(0.7, 0.3)

  predicate AreValid(w: Weights) {
    w.latency >= 0.0 && w.load >= 0.0 && w.latency + w.load > 0.0
  }

  predicate IsJoinable(c: Candidate) {
    c.reachable && c.host != "" && c.port != 0 && c.capacity != 0 && c.players < c.capacity
  }

  predicate IsNear(c: Candidate) {
    c.latency <= PREFERRED_LATENCY_MS
  }

  function LoadRatio(c: Candidate): real
    requires IsJoinable(c)
  {
    c.players as real / c.capacity as real
  }

  /** No candidate of the preferred tier can be joined. */
  predicate NeedsFallback(candidates: seq<Candidate>) {
    forall c :: c in candidates ==> !(IsJoinable(c) && IsNear(c))
  }

  predicate IsEligible(c: Candidate, fallback: bool) {
    IsJoinable(c) && (fallback || IsNear(c))
  }

  /** The largest latency among the eligible. */
  function MaximumLatency(candidates: seq<Candidate>, fallback: bool): nat {
    if candidates == [] then 0
    else
      var n := |candidates| - 1;
      var rest := MaximumLatency(candidates[..n], fallback);
      if IsEligible(candidates[n], fallback) && candidates[n].latency > rest
      then candidates[n].latency
      else rest
  }

  /** What latencies are divided by. */
  function LatencyScale(candidates: seq<Candidate>, fallback: bool): (scale: nat)
    ensures scale > 0
  {
    var maximum := MaximumLatency(candidates, fallback);
    if maximum == 0 then 1 else maximum
  }

  function Score(c: Candidate, w: Weights, scale: nat): real
    requires IsJoinable(c) && AreValid(w) && scale > 0
  {
    var total := w.latency + w.load;
    (w.latency / total) * (c.latency as real / scale as real) + (w.load / total) * LoadRatio(c)
  }

  /** What candidates are compared by, in order of importance. */
  datatype Key = Key(score: real, latency: nat, load: real, host: string, port: nat)

  function KeyOf(c: Candidate, w: Weights, scale: nat): Key
    requires IsJoinable(c) && AreValid(w) && scale > 0
  {
    Key(Score(c, w, scale), c.latency, LoadRatio(c), c.host, c.port)
  }

  predicate WinsTie(k: Key, incumbent: Key) {
    if k.latency != incumbent.latency then k.latency < incumbent.latency
    else if k.load != incumbent.load then k.load < incumbent.load
    else if k.host != incumbent.host then TextLess(k.host, incumbent.host)
    else k.port < incumbent.port
  }

  predicate Precedes(k: Key, incumbent: Key) {
    k.score < incumbent.score || (k.score == incumbent.score && WinsTie(k, incumbent))
  }

  lemma PrecedenceIsTransitive(a: Key, b: Key, c: Key)
    requires Precedes(a, b) && Precedes(b, c)
    ensures Precedes(a, c)
  {
    NotLessThanItself(a.host);
    if TextLess(a.host, b.host) && TextLess(b.host, c.host) {
      TextOrderIsTransitive(a.host, b.host, c.host);
    }
  }

  lemma PrecedenceIsTotal(a: Key, b: Key)
    ensures Precedes(a, b) || Precedes(b, a) || a == b
  {
    TextOrderIsTotal(a.host, b.host);
  }

  lemma NothingPrecedesItself(a: Key)
    ensures !Precedes(a, a)
  {
  }

  // ----- the choice over a list -----

  /** The position is that of an eligible candidate that no eligible candidate precedes; among
      equals it is the first. */
  ghost predicate IsBest(candidates: seq<Candidate>, w: Weights, fallback: bool, scale: nat,
                         index: nat)
    requires AreValid(w) && scale > 0
  {
    && index < |candidates| && IsEligible(candidates[index], fallback)
    && forall i :: 0 <= i < |candidates| && IsEligible(candidates[i], fallback) ==>
         && !Precedes(KeyOf(candidates[i], w, scale), KeyOf(candidates[index], w, scale))
         && (i < index ==>
               Precedes(KeyOf(candidates[index], w, scale), KeyOf(candidates[i], w, scale)))
  }

  /** The selection promised for a list: none exactly when the weights are unusable or nobody can
      be joined. */
  ghost predicate IsSelection(candidates: seq<Candidate>, w: Weights, result: Option<Selection>) {
    if !AreValid(w) || (forall c :: c in candidates ==> !IsJoinable(c)) then result.None?
    else
      var fallback := NeedsFallback(candidates);
      var scale := LatencyScale(candidates, fallback);
      && result.Some?
      && result.value.fallback == fallback
      && IsBest(candidates, w, fallback, scale, result.value.index)
      && result.value.score == Score(candidates[result.value.index], w, scale)
  }

  /** The best so far, one candidate at a time. */
  ghost predicate IsBestOf(candidates: seq<Candidate>, w: Weights, fallback: bool, scale: nat,
                           best: Option<nat>)
    requires AreValid(w) && scale > 0
  {
    match best
    case None => forall c :: c in candidates ==> !IsEligible(c, fallback)
    case Some(index) => IsBest(candidates, w, fallback, scale, index)
  }

  lemma OneMoreCandidate(candidates: seq<Candidate>, w: Weights, fallback: bool, scale: nat,
                         best: Option<nat>, next: Candidate)
    requires AreValid(w) && scale > 0
    requires IsBestOf(candidates, w, fallback, scale, best)
    ensures IsBestOf(candidates + [next], w, fallback, scale,
                     if IsEligible(next, fallback)
                        && (best.None?
                            || Precedes(KeyOf(next, w, scale),
                                        KeyOf(candidates[best.value], w, scale)))
                     then Some(|candidates|) else best)
  {
    hide KeyOf, Precedes;
    var longer := candidates + [next];
    if IsEligible(next, fallback) {
      NothingPrecedesItself(KeyOf(next, w, scale));
      if best.Some? && Precedes(KeyOf(next, w, scale), KeyOf(candidates[best.value], w, scale)) {
        forall i | 0 <= i < |candidates| && IsEligible(candidates[i], fallback)
          ensures !Precedes(KeyOf(longer[i], w, scale), KeyOf(next, w, scale))
          ensures Precedes(KeyOf(next, w, scale), KeyOf(longer[i], w, scale))
        {
          var incumbent := KeyOf(candidates[best.value], w, scale);
          var challenger := KeyOf(next, w, scale);
          var other := KeyOf(candidates[i], w, scale);
          if Precedes(other, challenger) {
            PrecedenceIsTransitive(other, challenger, incumbent);
          }
          PrecedenceIsTotal(other, challenger);
        }
      }
    }
  }

  lemma LatencyStaysBelowTheMaximum(candidates: seq<Candidate>, fallback: bool)
    ensures forall c :: c in candidates && IsEligible(c, fallback) ==>
              c.latency <= MaximumLatency(candidates, fallback)
    ensures MaximumLatency(candidates, fallback) > 0 ==>
              exists c :: c in candidates && IsEligible(c, fallback)
                          && c.latency == MaximumLatency(candidates, fallback)
  {
    if candidates != [] {
      var n := |candidates| - 1;
      LatencyStaysBelowTheMaximum(candidates[..n], fallback);
      assert candidates == candidates[..n] + [candidates[n]];
    }
  }

  /** The three passes over the list: tier, latency scale, best score. */
  method Select(candidates: seq<Candidate>, w: Weights) returns (result: Option<Selection>)
    ensures IsSelection(candidates, w, result)
  {
    hide KeyOf, Precedes, IsBest;
    if candidates == [] || !AreValid(w) {
      return None;
    }
    var fallback := IsFallbackNeeded(candidates);
    var scale := Scale(candidates, fallback);
    var best: Option<nat> := None;
    var bestScore := 0.0;
    for index := 0 to |candidates|
      invariant IsBestOf(candidates[..index], w, fallback, scale, best)
      invariant best.Some? ==>
                  && best.value < index && IsJoinable(candidates[best.value])
                  && bestScore == Score(candidates[best.value], w, scale)
    {
      var c := candidates[index];
      assert candidates[..index + 1] == candidates[..index] + [c];
      OneMoreCandidate(candidates[..index], w, fallback, scale, best, c);
      if IsEligible(c, fallback) {
        var score := Score(c, w, scale);
        var wins := best.None?;
        if best.Some? {
          KeyComparison(c, candidates[best.value], w, scale);
          wins := score < bestScore
                  || (score == bestScore
                      && WinsTie(KeyOf(c, w, scale), KeyOf(candidates[best.value], w, scale)));
        }
        if wins {
          best, bestScore := Some(index), score;
        }
      }
    }
    assert candidates[..|candidates|] == candidates;
    if best.None? {
      return None;
    }
    return Some(Selection(best.value, bestScore, fallback));
  }

  lemma KeyComparison(c: Candidate, d: Candidate, w: Weights, scale: nat)
    requires IsJoinable(c) && IsJoinable(d) && AreValid(w) && scale > 0
    ensures Precedes(KeyOf(c, w, scale), KeyOf(d, w, scale)) <==>
              || Score(c, w, scale) < Score(d, w, scale)
              || (Score(c, w, scale) == Score(d, w, scale)
                  && WinsTie(KeyOf(c, w, scale), KeyOf(d, w, scale)))
  {
    hide Score, LoadRatio, WinsTie;
  }

  method IsFallbackNeeded(candidates: seq<Candidate>) returns (fallback: bool)
    ensures fallback == NeedsFallback(candidates)
  {
    for index := 0 to |candidates|
      invariant NeedsFallback(candidates[..index])
    {
      if IsJoinable(candidates[index]) && IsNear(candidates[index]) {
        return false;
      }
      assert candidates[..index + 1] == candidates[..index] + [candidates[index]];
    }
    assert candidates[..|candidates|] == candidates;
    return true;
  }

  method Scale(candidates: seq<Candidate>, fallback: bool) returns (scale: nat)
    ensures scale == LatencyScale(candidates, fallback)
  {
    scale := 0;
    for index := 0 to |candidates|
      invariant scale == MaximumLatency(candidates[..index], fallback)
    {
      assert candidates[..index + 1][..index] == candidates[..index];
      if IsEligible(candidates[index], fallback) && candidates[index].latency > scale {
        scale := candidates[index].latency;
      }
    }
    assert candidates[..|candidates|] == candidates;
    if scale == 0 {
      scale := 1;
    }
  }

  // ----- what the choice does not depend on -----

  lemma ScaleDependsOnTheSetOnly(xs: seq<Candidate>, ys: seq<Candidate>, fallback: bool)
    requires forall c :: c in xs <==> c in ys
    ensures LatencyScale(xs, fallback) == LatencyScale(ys, fallback)
  {
    LatencyStaysBelowTheMaximum(xs, fallback);
    LatencyStaysBelowTheMaximum(ys, fallback);
  }

  /** Two lists of the same candidates, in any order and with any repetitions, lead to the same
      endpoint. */
  lemma SelectionIgnoresOrder(xs: seq<Candidate>, ys: seq<Candidate>, w: Weights,
                              x: Option<Selection>, y: Option<Selection>)
    requires forall c :: c in xs <==> c in ys
    requires IsSelection(xs, w, x) && IsSelection(ys, w, y)
    ensures x.Some? <==> y.Some?
    ensures x.Some? ==>
              && x.value.index < |xs| && y.value.index < |ys|
              && xs[x.value.index].host == ys[y.value.index].host
              && xs[x.value.index].port == ys[y.value.index].port
              && x.value.score == y.value.score && x.value.fallback == y.value.fallback
  {
    hide Precedes, WinsTie, Score, LoadRatio;
    if x.Some? {
      var fallback := NeedsFallback(xs);
      ScaleDependsOnTheSetOnly(xs, ys, fallback);
      var scale := LatencyScale(xs, fallback);
      var a, b := xs[x.value.index], ys[y.value.index];
      assert b in xs && a in ys;
      var i :| 0 <= i < |xs| && xs[i] == b;
      var j :| 0 <= j < |ys| && ys[j] == a;
      PrecedenceIsTotal(KeyOf(a, w, scale), KeyOf(b, w, scale));
    }
  }

  lemma ScoreRises(c: Candidate, d: Candidate, w: Weights, scale: nat)
    requires IsJoinable(c) && IsJoinable(d) && AreValid(w) && scale > 0
    requires c.latency <= d.latency && LoadRatio(c) <= LoadRatio(d)
    ensures Score(c, w, scale) <= Score(d, w, scale)
  {
    hide LoadRatio;
    var total := w.latency + w.load;
    DivisionRises(c.latency as real, d.latency as real, scale as real);
    DivisionRises(0.0, w.latency, total);
    DivisionRises(0.0, w.load, total);
    ProductRises(w.latency / total, c.latency as real / scale as real,
                 d.latency as real / scale as real);
    ProductRises(w.load / total, LoadRatio(c), LoadRatio(d));
  }

  lemma DivisionRises(a: real, b: real, n: real)
    requires a <= b && n > 0.0
    ensures a / n <= b / n
  {
  }

  lemma ProductRises(k: real, a: real, b: real)
    requires k >= 0.0 && a <= b
    ensures k * a <= k * b
  {
    assert k * (b - a) >= 0.0;
  }

  /** Whatever the weights, nobody who could have been chosen instead is at least as close and at
      least as empty, and better in one of the two. */
  lemma SelectionIsNotDominated(candidates: seq<Candidate>, w: Weights, result: Selection, i: nat)
    requires IsSelection(candidates, w, Some(result))
    requires i < |candidates| && IsEligible(candidates[i], result.fallback)
    requires result.index < |candidates| && IsJoinable(candidates[result.index])
    ensures var chosen := candidates[result.index];
            !(&& candidates[i].latency <= chosen.latency
              && LoadRatio(candidates[i]) <= LoadRatio(chosen)
              && (candidates[i].latency < chosen.latency
                  || LoadRatio(candidates[i]) < LoadRatio(chosen)))
  {
    hide LoadRatio, Score;
    var chosen := candidates[result.index];
    if candidates[i].latency <= chosen.latency && LoadRatio(candidates[i]) <= LoadRatio(chosen) {
      ScoreRises(candidates[i], chosen, w, LatencyScale(candidates, result.fallback));
    }
  }
}
