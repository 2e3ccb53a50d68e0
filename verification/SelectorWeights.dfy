/** What the two weights of the selector do. */
module SelectorWeights {
  import opened Sequences
  import opened Selector

  /** The score without its common divisor. */
  function Cost(latency: real, load: real, w: Weights): real {
    w.latency * latency + w.load * load
  }

  function ScaledLatency(c: Candidate, scale: nat): real
    requires scale > 0
  {
    c.latency as real / scale as real
  }

  lemma ScoreIsCost(c: Candidate, w: Weights, scale: nat)
    requires IsJoinable(c) && AreValid(w) && scale > 0
    ensures Score(c, w, scale) * (w.latency + w.load)
         == Cost(ScaledLatency(c, scale), LoadRatio(c), w)
  {
    hide LoadRatio;
    var total, x, y := w.latency + w.load, ScaledLatency(c, scale), LoadRatio(c);
    Cancelled(w.latency, total, x);
    Cancelled(w.load, total, y);
    Distributed(w.latency / total * x, w.load / total * y, total);
  }

  lemma Cancelled(a: real, total: real, x: real)
    requires total > 0.0
    ensures a / total * x * total == a * x
  {
    assert a / total * total == a;
  }

  lemma Distributed(a: real, b: real, c: real)
    ensures (a + b) * c == a * c + b * c
  {
  }

  lemma BestCostsLeast(c: Candidate, d: Candidate, w: Weights, scale: nat)
    requires IsJoinable(c) && IsJoinable(d) && AreValid(w) && scale > 0
    requires Score(c, w, scale) <= Score(d, w, scale)
    ensures Cost(ScaledLatency(c, scale), LoadRatio(c), w)
         <= Cost(ScaledLatency(d, scale), LoadRatio(d), w)
  {
    hide LoadRatio, Score, Cost, ScaledLatency;
    ScoreIsCost(c, w, scale);
    ScoreIsCost(d, w, scale);
    ProductRises(w.latency + w.load, Score(c, w, scale), Score(d, w, scale));
  }

  /** Between two bests, raising one weight alone moves towards its criterion. */
  lemma Exchange(x: real, y: real, a: real, b: real, k: real, l: real, more: real)
    requires more > 0.0
    requires k * x + l * a <= k * y + l * b
    requires (k + more) * y + l * b <= (k + more) * x + l * a
    ensures y <= x
  {
    Distributed(k, more, y);
    Distributed(k, more, x);
    OnlyOneTerm(y, x, more);
  }

  lemma ScaledLatencyOrder(c: Candidate, d: Candidate, scale: nat)
    requires scale > 0 && ScaledLatency(c, scale) <= ScaledLatency(d, scale)
    ensures c.latency <= d.latency
  {
    var n := scale as real;
    ProductRises(n, ScaledLatency(c, scale), ScaledLatency(d, scale));
    assert n * ScaledLatency(c, scale) == c.latency as real;
    assert n * ScaledLatency(d, scale) == d.latency as real;
  }

  ghost predicate IsChosen(candidates: seq<Candidate>, w: Weights, result: Selection) {
    IsSelection(candidates, w, Some(result)) && AreValid(w)
  }

  lemma ChosenCostsLeast(candidates: seq<Candidate>, w: Weights, result: Selection, i: nat)
    requires IsChosen(candidates, w, result)
    requires i < |candidates| && IsEligible(candidates[i], result.fallback)
    ensures var scale := LatencyScale(candidates, NeedsFallback(candidates));
            && result.index < |candidates| && IsJoinable(candidates[result.index])
            && IsEligible(candidates[result.index], result.fallback)
            && result.fallback == NeedsFallback(candidates)
            && Cost(ScaledLatency(candidates[result.index], scale),
                    LoadRatio(candidates[result.index]), w)
            <= Cost(ScaledLatency(candidates[i], scale), LoadRatio(candidates[i]), w)
  {
    hide LoadRatio, Score, Cost, ScaledLatency, WinsTie;
    BestCostsLeast(candidates[result.index], candidates[i], w,
                   LatencyScale(candidates, result.fallback));
  }

  /** Raising the weight of latency alone, the choice gets no farther. */
  lemma MoreLatencyWeight(candidates: seq<Candidate>, w: Weights, more: real, before: Selection,
                          after: Selection)
    requires more > 0.0
    requires IsChosen(candidates, w, before)
    requires IsChosen(candidates, w.(latency := w.latency + more), after)
    ensures before.index < |candidates| && after.index < |candidates|
    ensures candidates[after.index].latency <= candidates[before.index].latency
  {
    hide LoadRatio, ScaledLatency, IsChosen, IsEligible;
    var w' := w.(latency := w.latency + more);
    BothAreChosen(candidates, w, w', before, after);
    var scale := LatencyScale(candidates, NeedsFallback(candidates));
    var c, d := candidates[before.index], candidates[after.index];
    Exchange(ScaledLatency(c, scale), ScaledLatency(d, scale), LoadRatio(c), LoadRatio(d), w.latency,
             w.load, more);
    ScaledLatencyOrder(d, c, scale);
  }

  /** Raising the weight of the load alone, it gets no fuller. */
  lemma MoreLoadWeight(candidates: seq<Candidate>, w: Weights, more: real, before: Selection,
                       after: Selection)
    requires more > 0.0
    requires IsChosen(candidates, w, before)
    requires IsChosen(candidates, w.(load := w.load + more), after)
    ensures before.index < |candidates| && after.index < |candidates|
    ensures var c, d := candidates[before.index], candidates[after.index];
            IsJoinable(c) && IsJoinable(d) && LoadRatio(d) <= LoadRatio(c)
  {
    hide LoadRatio, ScaledLatency, IsChosen, IsEligible;
    var w' := w.(load := w.load + more);
    BothAreChosen(candidates, w, w', before, after);
    var scale := LatencyScale(candidates, NeedsFallback(candidates));
    var c, d := candidates[before.index], candidates[after.index];
    Exchange(LoadRatio(c), LoadRatio(d), ScaledLatency(c, scale), ScaledLatency(d, scale), w.load,
             w.latency, more);
  }

  lemma BothAreChosen(candidates: seq<Candidate>, v: Weights, w: Weights, x: Selection,
                      y: Selection)
    requires IsChosen(candidates, v, x) && IsChosen(candidates, w, y)
    ensures x.index < |candidates| && y.index < |candidates|
    ensures IsJoinable(candidates[x.index]) && IsJoinable(candidates[y.index])
    ensures var scale := LatencyScale(candidates, NeedsFallback(candidates));
            var c, d := candidates[x.index], candidates[y.index];
            && Cost(ScaledLatency(c, scale), LoadRatio(c), v)
               <= Cost(ScaledLatency(d, scale), LoadRatio(d), v)
            && Cost(ScaledLatency(d, scale), LoadRatio(d), w)
               <= Cost(ScaledLatency(c, scale), LoadRatio(c), w)
  {
    ChosenIsEligible(candidates, v, x);
    ChosenIsEligible(candidates, w, y);
    hide LoadRatio, Cost, ScaledLatency, IsChosen, IsEligible;
    ChosenCostsLeast(candidates, v, x, y.index);
    ChosenCostsLeast(candidates, w, y, x.index);
  }

  lemma ChosenIsEligible(candidates: seq<Candidate>, w: Weights, result: Selection)
    requires IsChosen(candidates, w, result)
    ensures result.index < |candidates| && result.fallback == NeedsFallback(candidates)
    ensures IsEligible(candidates[result.index], result.fallback)
  {
    hide Score, LoadRatio, Precedes;
  }

  /** Without weight on the load, the closest of the eligible servers is chosen. */
  lemma OnlyLatencyCounts(candidates: seq<Candidate>, w: Weights, result: Selection, i: nat)
    requires IsChosen(candidates, w, result) && w.load == 0.0
    requires i < |candidates| && IsEligible(candidates[i], result.fallback)
    ensures result.index < |candidates|
    ensures candidates[result.index].latency <= candidates[i].latency
  {
    hide LoadRatio, ScaledLatency, IsChosen, IsEligible;
    ChosenCostsLeast(candidates, w, result, i);
    WeightIsPositive(candidates, w, result);
    var scale := LatencyScale(candidates, NeedsFallback(candidates));
    var c, d := candidates[result.index], candidates[i];
    OnlyOneTerm(ScaledLatency(c, scale), ScaledLatency(d, scale), w.latency);
    ScaledLatencyOrder(c, d, scale);
  }

  /** Without weight on latency, the emptiest. */
  lemma OnlyLoadCounts(candidates: seq<Candidate>, w: Weights, result: Selection, i: nat)
    requires IsChosen(candidates, w, result) && w.latency == 0.0
    requires i < |candidates| && IsEligible(candidates[i], result.fallback)
    ensures result.index < |candidates| && IsJoinable(candidates[result.index])
    ensures LoadRatio(candidates[result.index]) <= LoadRatio(candidates[i])
  {
    hide LoadRatio, ScaledLatency, IsChosen;
    ChosenCostsLeast(candidates, w, result, i);
    WeightIsPositive(candidates, w, result);
    OnlyOneTerm(LoadRatio(candidates[result.index]), LoadRatio(candidates[i]), w.load);
  }

  lemma WeightIsPositive(candidates: seq<Candidate>, w: Weights, result: Selection)
    requires IsChosen(candidates, w, result)
    ensures w.load == 0.0 ==> w.latency > 0.0
    ensures w.latency == 0.0 ==> w.load > 0.0
  {
    hide IsSelection;
  }

  lemma OnlyOneTerm(x: real, y: real, k: real)
    requires k > 0.0 && k * x <= k * y
    ensures x <= y
  {
    PositiveProduct(k, x - y);
    assert k * (x - y) == k * x - k * y;
  }

  lemma PositiveProduct(k: real, d: real)
    ensures k > 0.0 && d > 0.0 ==> k * d > 0.0
  {
  }
}
