/** The server's input admission: a token bucket per client, and a serial-number test that drops
    inputs overtaken on the way. */
module Admission {
  import opened Serial

  const TOKEN_MILLI: nat := 1000
  const RATE_HZ: nat := 30
  const CAPACITY_MILLI: nat := 10000
  const HALF_WRAP: nat := 0x8000_0000

  datatype Result = Admitted | RejectedStale | RejectedRate

  datatype Bucket = Bucket(initialized: bool, hasSequence: bool, lastSequence: uint32,
                           lastRefillMs: nat, tokenMilli: nat, acceptedCount: nat, staleCount: nat,
                           rateLimitedCount: nat)

  const FRESH := Bucket(false, false, 0, 0, 0, 0, 0, 0)

  /** Serial comparison, section 3.2 of RFC 1982, for 32 bits. */
  predicate SequenceIsNewer(sequence: uint32, previous: uint32) {
    0 < Distance32(sequence, previous) < HALF_WRAP
  }

  function Refilled(b: Bucket, nowMs: nat): Bucket {
    if !b.initialized then
      b.(initialized := true, lastRefillMs := nowMs, tokenMilli := CAPACITY_MILLI)
    else if nowMs < b.lastRefillMs then b.(lastRefillMs := nowMs)
    else
      var refill := (nowMs - b.lastRefillMs) * RATE_HZ;
      b.(lastRefillMs := nowMs,
         tokenMilli := if b.tokenMilli + refill >= CAPACITY_MILLI then CAPACITY_MILLI
                       else b.tokenMilli + refill)
  }

  function Checked(b: Bucket, sequence: uint32, nowMs: nat): (Bucket, Result) {
    var b := Refilled(b, nowMs);
    if b.tokenMilli < TOKEN_MILLI then
      (b.(rateLimitedCount := b.rateLimitedCount + 1), RejectedRate)
    else
      var b := b.(tokenMilli := b.tokenMilli - TOKEN_MILLI);
      if sequence == 0 || (b.hasSequence && !SequenceIsNewer(sequence, b.lastSequence)) then
        (b.(staleCount := b.staleCount + 1), RejectedStale)
      else
        (b.(hasSequence := true, lastSequence := sequence, acceptedCount := b.acceptedCount + 1),
         Admitted)
  }

  class InputAdmission {
    var initialized: bool
    var hasSequence: bool
    var lastSequence: uint32
    var lastRefillMs: nat
    var tokenMilli: nat
    var acceptedCount: nat
    var staleCount: nat
    var rateLimitedCount: nat

    ghost predicate Valid()
      reads this
    {
      tokenMilli <= CAPACITY_MILLI
    }

    ghost function Model(): Bucket
      reads this
    {
      Bucket(initialized, hasSequence, lastSequence, lastRefillMs, tokenMilli, acceptedCount,
             staleCount, rateLimitedCount)
    }

    constructor ()
      ensures Valid() && Model() == FRESH
    {
      initialized, hasSequence, lastSequence, lastRefillMs, tokenMilli := false, false, 0, 0, 0;
      acceptedCount, staleCount, rateLimitedCount := 0, 0, 0;
    }

    method Refill(nowMs: nat)
      requires Valid()
      modifies this
      ensures Valid() && Model() == Refilled(old(Model()), nowMs)
    {
      if !initialized {
        initialized, lastRefillMs, tokenMilli := true, nowMs, CAPACITY_MILLI;
        return;
      }
      if nowMs < lastRefillMs {
        lastRefillMs := nowMs;
        return;
      }
      var refill := (nowMs - lastRefillMs) * RATE_HZ;
      lastRefillMs := nowMs;
      if refill >= CAPACITY_MILLI || tokenMilli >= CAPACITY_MILLI - refill {
        tokenMilli := CAPACITY_MILLI;
      } else {
        tokenMilli := tokenMilli + refill;
      }
    }

    method Check(sequence: uint32, nowMs: nat) returns (result: Result)
      requires Valid()
      modifies this
      ensures Valid()
      ensures (Model(), result) == Checked(old(Model()), sequence, nowMs)
    {
      Refill(nowMs);
      if tokenMilli < TOKEN_MILLI {
        rateLimitedCount := rateLimitedCount + 1;
        return RejectedRate;
      }
      tokenMilli := tokenMilli - TOKEN_MILLI;
      if sequence == 0 || (hasSequence && !SequenceIsNewer(sequence, lastSequence)) {
        staleCount := staleCount + 1;
        return RejectedStale;
      }
      hasSequence, lastSequence := true, sequence;
      acceptedCount := acceptedCount + 1;
      return Admitted;
    }
  }

  // ----- whole runs -----

  datatype Arrival = Arrival(sequence: uint32, atMs: nat)

  ghost predicate IsOrdered(arrivals: seq<Arrival>) {
    forall i, j :: 0 <= i <= j < |arrivals| ==> arrivals[i].atMs <= arrivals[j].atMs
  }

  function After(arrivals: seq<Arrival>): Bucket {
    if arrivals == [] then FRESH
    else
      var last := arrivals[|arrivals| - 1];
      Checked(After(arrivals[..|arrivals| - 1]), last.sequence, last.atMs).0
  }

  /** The answer to the k-th arrival of a run. */
  function Answer(arrivals: seq<Arrival>, k: nat): Result
    requires k < |arrivals|
  {
    Checked(After(arrivals[..k]), arrivals[k].sequence, arrivals[k].atMs).1
  }

  /** How many arrivals from i up to j were not turned away for rate. */
  function PassedBetween(arrivals: seq<Arrival>, i: nat, j: nat): nat
    requires i <= j <= |arrivals|
  {
    if i == j then 0
    else PassedBetween(arrivals, i, j - 1) +
         (if Answer(arrivals, j - 1) == RejectedRate then 0 else 1)
  }

  lemma AfterOneMore(arrivals: seq<Arrival>, k: nat)
    requires k < |arrivals|
    ensures After(arrivals[..k + 1]) ==
            Checked(After(arrivals[..k]), arrivals[k].sequence, arrivals[k].atMs).0
  {
    assert arrivals[..k + 1][..k] == arrivals[..k];
  }

  /** What one check leaves and takes, from any bucket and from one last refilled at some moment. */
  lemma CheckSpends(b: Bucket, sequence: uint32, nowMs: nat)
    requires b.tokenMilli <= CAPACITY_MILLI
    ensures var (after, result) := Checked(b, sequence, nowMs);
            var taken := if result == RejectedRate then 0 else TOKEN_MILLI;
            && after.initialized && after.lastRefillMs == nowMs
            && after.tokenMilli + taken <= CAPACITY_MILLI
            && (b.initialized && b.lastRefillMs <= nowMs ==>
                  after.tokenMilli + taken <= b.tokenMilli + RATE_HZ * (nowMs - b.lastRefillMs))
  {
    hide SequenceIsNewer;
  }

  lemma PassedOneMore(arrivals: seq<Arrival>, i: nat, k: nat)
    requires i <= k < |arrivals|
    ensures PassedBetween(arrivals, i, i) == 0
    ensures PassedBetween(arrivals, i, k + 1) == PassedBetween(arrivals, i, k) +
            (if Answer(arrivals, k) == RejectedRate then 0 else 1)
  {
    hide Answer;
  }

  /** What the bucket holds after k + 1 ordered arrivals, bounded from any earlier arrival i. */
  lemma {:induction false} TokensSpent(arrivals: seq<Arrival>, i: nat, k: nat)
    requires IsOrdered(arrivals) && i <= k < |arrivals|
    ensures var b := After(arrivals[..k + 1]);
            && b.initialized && b.lastRefillMs == arrivals[k].atMs
            && b.tokenMilli + TOKEN_MILLI * PassedBetween(arrivals, i, k + 1)
               <= CAPACITY_MILLI + RATE_HZ * (arrivals[k].atMs - arrivals[i].atMs)
  {
    hide Checked, After, PassedBetween;
    BucketNeverOverfull(arrivals[..k]);
    AfterOneMore(arrivals, k);
    CheckSpends(After(arrivals[..k]), arrivals[k].sequence, arrivals[k].atMs);
    PassedOneMore(arrivals, i, k);
    if i < k {
      TokensSpent(arrivals, i, k - 1);
      assert arrivals[k - 1].atMs <= arrivals[k].atMs;
    }
  }

  lemma {:induction false} BucketNeverOverfull(arrivals: seq<Arrival>)
    ensures After(arrivals).tokenMilli <= CAPACITY_MILLI
  {
    hide SequenceIsNewer;
    if arrivals != [] {
      BucketNeverOverfull(arrivals[..|arrivals| - 1]);
    }
  }

  /** In every window of an ordered run, the arrivals not turned away for rate number at most the
      burst plus the refill: 1000 N <= 10000 + 30 (t - s). */
  lemma WindowBound(arrivals: seq<Arrival>, i: nat, k: nat)
    requires IsOrdered(arrivals) && i <= k < |arrivals|
    ensures TOKEN_MILLI * PassedBetween(arrivals, i, k + 1)
            <= CAPACITY_MILLI + RATE_HZ * (arrivals[k].atMs - arrivals[i].atMs)
  {
    TokensSpent(arrivals, i, k);
  }

  ghost predicate Conforms(arrivals: seq<Arrival>) {
    forall i, k :: 0 <= i <= k < |arrivals| ==>
      TOKEN_MILLI * (k - i + 1) <= CAPACITY_MILLI + RATE_HZ * (arrivals[k].atMs - arrivals[i].atMs)
  }

  ghost predicate NoneRejectedForRate(arrivals: seq<Arrival>, n: nat)
    requires n <= |arrivals|
  {
    forall k :: 0 <= k < n ==> Answer(arrivals, k) != RejectedRate
  }

  lemma {:induction false} AllPassed(arrivals: seq<Arrival>, i: nat, j: nat)
    requires i <= j <= |arrivals| && NoneRejectedForRate(arrivals, j)
    ensures PassedBetween(arrivals, i, j) == j - i
  {
    if i < j {
      AllPassed(arrivals, i, j - 1);
    }
  }

  /** While nothing is rejected, the level an arrival finds is set by the last arrival that found
      the bucket full. */
  lemma {:induction false} LevelFound(arrivals: seq<Arrival>, k: nat) returns (full: nat)
    requires IsOrdered(arrivals) && k < |arrivals| && NoneRejectedForRate(arrivals, k)
    ensures full <= k
    ensures Refilled(After(arrivals[..k]), arrivals[k].atMs).tokenMilli ==
            CAPACITY_MILLI + RATE_HZ * (arrivals[k].atMs - arrivals[full].atMs)
            - TOKEN_MILLI * (k - full)
  {
    hide SequenceIsNewer, PassedBetween, After;
    full := k;
    if k == 0 {
      NothingArrivedYet(arrivals);
    } else {
      AfterOneMore(arrivals, k - 1);
      var before := LevelFound(arrivals, k - 1);
      assert Answer(arrivals, k - 1) != RejectedRate;
      TokensSpent(arrivals, k - 1, k - 1);
      if Refilled(After(arrivals[..k]), arrivals[k].atMs).tokenMilli < CAPACITY_MILLI {
        full := before;
      }
    }
  }

  lemma NothingArrivedYet(arrivals: seq<Arrival>)
    ensures After(arrivals[..0]) == FRESH
  {
  }

  /** An ordered run has no rejection for rate exactly when each of its windows fits the bound. */
  lemma NothingRejectedExactlyWhenConforming(arrivals: seq<Arrival>)
    requires IsOrdered(arrivals)
    ensures NoneRejectedForRate(arrivals, |arrivals|) <==> Conforms(arrivals)
  {
    hide NoneRejectedForRate;
    if NoneRejectedForRate(arrivals, |arrivals|) {
      forall i, k | 0 <= i <= k < |arrivals|
        ensures TOKEN_MILLI * (k - i + 1)
                <= CAPACITY_MILLI + RATE_HZ * (arrivals[k].atMs - arrivals[i].atMs)
      {
        WindowConforms(arrivals, i, k);
      }
    }
    if Conforms(arrivals) {
      hide Conforms;
      ConformingPasses(arrivals, |arrivals|);
    }
  }

  lemma WindowConforms(arrivals: seq<Arrival>, i: nat, k: nat)
    requires IsOrdered(arrivals) && i <= k < |arrivals| && NoneRejectedForRate(arrivals, |arrivals|)
    ensures TOKEN_MILLI * (k - i + 1)
            <= CAPACITY_MILLI + RATE_HZ * (arrivals[k].atMs - arrivals[i].atMs)
  {
    hide IsOrdered, PassedBetween, Answer;
    WindowBound(arrivals, i, k);
    AllPassed(arrivals, i, k + 1);
  }

  lemma {:induction false} ConformingPasses(arrivals: seq<Arrival>, n: nat)
    requires IsOrdered(arrivals) && Conforms(arrivals) && n <= |arrivals|
    ensures NoneRejectedForRate(arrivals, n)
  {
    hide After, Answer, Refilled, IsOrdered;
    if n > 0 {
      ConformingPasses(arrivals, n - 1);
      var full := LevelFound(arrivals, n - 1);
      AnswerByLevel(arrivals, n - 1);
      assert TOKEN_MILLI * (n - full)
             <= CAPACITY_MILLI + RATE_HZ * (arrivals[n - 1].atMs - arrivals[full].atMs);
    }
  }

  lemma AnswerByLevel(arrivals: seq<Arrival>, k: nat)
    requires k < |arrivals|
    ensures Answer(arrivals, k) == RejectedRate <==>
            Refilled(After(arrivals[..k]), arrivals[k].atMs).tokenMilli < TOKEN_MILLI
  {
    hide After, Refilled, SequenceIsNewer;
  }

  // ----- the client's sequence numbers -----

  /** The number the client gives its next input: zero is skipped at the 32-bit wrap. */
  function NextSequence(last: uint32): uint32 {
    if last == WRAP_32 - 1 then 1 else last + 1
  }

  function Advanced(last: uint32, steps: nat): uint32 {
    if steps == 0 then last else NextSequence(Advanced(last, steps - 1))
  }

  lemma {:induction false} AdvancedValue(last: uint32, steps: nat)
    requires steps < HALF_WRAP - 1
    ensures Advanced(last, steps) ==
            if last + steps < WRAP_32 then last + steps else last + steps - WRAP_32 + 1
  {
    if steps > 0 {
      AdvancedValue(last, steps - 1);
    }
  }

  /** Of two numbers at most one is newer, and neither only if they are equal or half the number space
      apart. */
  lemma NewerOneWayOnly(a: uint32, b: uint32)
    ensures !(SequenceIsNewer(a, b) && SequenceIsNewer(b, a))
    ensures !SequenceIsNewer(a, b) && !SequenceIsNewer(b, a) <==>
              a == b || Distance32(a, b) == HALF_WRAP
  {
    assert Distance32(a, b) == if a >= b then a - b else a - b + WRAP_32;
    assert Distance32(b, a) == if b >= a then b - a else b - a + WRAP_32;
  }

  /** Fewer than 2^31 - 1 inputs later the client's number still counts as newer, and as older the
      other way round, also across the wrap. */
  lemma LaterInputsAreNewer(last: uint32, steps: nat)
    requires 0 < steps < HALF_WRAP - 1
    ensures Advanced(last, steps) != 0
    ensures SequenceIsNewer(Advanced(last, steps), last)
    ensures !SequenceIsNewer(last, Advanced(last, steps))
  {
    AdvancedValue(last, steps);
  }
}
