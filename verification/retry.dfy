/** Fetching the manifest: retries with exponential backoff. */
module Retry {
  import opened Wrappers
  import opened Numbers
  import opened Degraded

  const MAX_BACKOFF_SECS: nat := 300

  type U32 = n: int | 0 <= n < TWO_32
  type U64 = n: int | 0 <= n <= 0xFFFF_FFFF_FFFF_FFFF

  // ---------------------------------------------------------------- backoff

  function Pow2(n: nat): (p: nat)
    ensures p >= 1
  {
    if n == 0 then 1 else 2 * Pow2(n - 1)
  }

  function SaturatingMul(a: nat, b: nat): nat {
    Min(a * b, U64_MAX)
  }

  function SaturatingAdd(a: nat, b: nat): nat {
    Min(a + b, U64_MAX)
  }

  /** `backoff_duration`, for the jitter that was drawn. */
  function Backoff(base: U64, retry: nat, jitter: nat): nat
    requires jitter <= base
  {
    Min(SaturatingAdd(SaturatingMul(base, Pow2(Min(retry, 30))), jitter), MAX_BACKOFF_SECS)
  }

  lemma {:induction false} Pow2Grows(a: nat, b: nat)
    requires a <= b
    ensures Pow2(a) <= Pow2(b)
  {
    if a < b { Pow2Grows(a, b - 1); }
  }

  lemma AtLeastFactor(base: nat, p: nat)
    requires base >= 1
    ensures base * p >= p
  {}

  /** The clamp at 30 and the saturating operations never show. */
  lemma {:induction false} BackoffIsIdeal(base: U64, retry: nat, jitter: nat)
    requires jitter <= base
    ensures Backoff(base, retry, jitter) == Min(base * Pow2(retry) + jitter, MAX_BACKOFF_SECS)
  {
    if retry > 30 && base >= 1 {
      assert Pow2(9) == 512;
      Pow2Grows(9, 30);
      Pow2Grows(9, retry);
      AtLeastFactor(base, Pow2(30));
      AtLeastFactor(base, Pow2(retry));
    }
  }

  /** Later retries never wait less. */
  lemma BackoffMonotone(base: U64, retry: nat, later: nat, jitter: nat)
    requires jitter <= base && retry <= later
    ensures Backoff(base, retry, jitter) <= Backoff(base, later, jitter)
  {
    BackoffIsIdeal(base, retry, jitter);
    BackoffIsIdeal(base, later, jitter);
    Pow2Grows(retry, later);
    TimesGrows(base, Pow2(retry), Pow2(later));
  }

  lemma TimesGrows(base: nat, p: nat, q: nat)
    requires p <= q
    ensures base * p <= base * q
  {}

  // -------------------------------------------------------------- the loop

  datatype Failing = Failing(error: Error, message: string)

  datatype Fetched<+M> = Got(manifest: M) | Failed(failing: Failing)

  const PLACEHOLDER := Failing(Network, "No attempts made")
  const REFUSED := Failing(Error.Degraded, "Degraded mode")

  predicate DrawnWithin(jitters: seq<nat>, base: U64) {
    forall i | 0 <= i < |jitters| :: jitters[i] <= base
  }

  /** The backoff before attempt number `retry + 1`. */
  function Delays(base: U64, jitters: seq<nat>): (f: nat -> nat)
    requires DrawnWithin(jitters, base)
  {
    (retry: nat) => if retry < |jitters| then Backoff(base, retry, jitters[retry]) else 0
  }

  /** The waits at the indices 0 to `n - 1`. */
  function Total(delay: nat -> nat, n: nat): nat {
    if n == 0 then 0 else Total(delay, n - 1) + delay(n - 1)
  }

  /** The seconds slept by the first `n` retries: doubling, with jitter, and at most five minutes each. */
  function Waits(base: U64, jitters: seq<nat>, n: nat): nat
    requires n <= |jitters|
  {
    if n == 0 then 0
    else
      var seconds := base * Pow2(n - 1) + jitters[n - 1];
      Waits(base, jitters, n - 1) + (if seconds > 300 then 300 else seconds)
  }

  lemma {:induction false} DelaysAreWaits(base: U64, jitters: seq<nat>, n: nat)
    requires DrawnWithin(jitters, base) && n <= |jitters|
    ensures Total(Delays(base, jitters), n) == Waits(base, jitters, n)
  {
    if n > 0 {
      DelaysAreWaits(base, jitters, n - 1);
      BackoffIsIdeal(base, n - 1, jitters[n - 1]);
    }
  }

  lemma {:induction false} TotalBounded(delay: nat -> nat, n: nat)
    requires forall i | 0 <= i < n :: delay(i) <= MAX_BACKOFF_SECS
    ensures Total(delay, n) <= MAX_BACKOFF_SECS * n
  {
    if n > 0 { TotalBounded(delay, n - 1); }
  }

  function Failures(n: nat): (r: History)
    ensures |r| == n && forall k | 0 <= k < n :: r[k] == Failure
  {
    seq(n, _ => Failure)
  }

  /** The number of attempts made: up to the first success, or all of them. */
  function Attempts<M>(answers: seq<Fetched<M>>): nat {
    if answers == [] then 0 else if answers[0].Got? then 1 else 1 + Attempts(answers[1..])
  }

  lemma {:induction false} AttemptsExact<M>(answers: seq<Fetched<M>>, n: nat)
    requires 0 < n <= |answers| && forall i | 0 <= i < n - 1 :: answers[i].Failed?
    requires answers[n - 1].Got? || n == |answers|
    ensures Attempts(answers) == n
  {
    if answers[0].Failed? && n > 1 { AttemptsExact(answers[1..], n - 1); }
  }

  /** `fetch_and_verify_manifest_internal`. Attempt number i would be answered by `answers[i]`. */
  method FetchManifest<M>(breaker: Breaker, maxRetries: U32, base: U64, answers: seq<Fetched<M>>, jitters: seq<nat>)
    returns (r: Fetched<M>, slept: nat)
    requires breaker.Valid()
    requires |answers| == maxRetries + 1 && |jitters| == maxRetries && DrawnWithin(jitters, base)
    modifies breaker
    ensures breaker.Valid()
    ensures old(breaker.degradedMode) ==> r == Failed(REFUSED) && slept == 0 && breaker.history == old(breaker.history)
    ensures !old(breaker.degradedMode) ==>
              && Answered(answers, r)
              && slept == Waits(base, jitters, Attempts(answers) - 1) <= 300 * maxRetries
              && breaker.history == old(breaker.history) + OpsOf(answers)
  {
    var checked := breaker.CheckDegraded();
    if checked.Err? {
      return Failed(REFUSED), 0;
    }
    r, slept := RetryLoop(breaker, maxRetries, Delays(base, jitters), answers);
    TotalBounded(Delays(base, jitters), Attempts(answers) - 1);
    DelaysAreWaits(base, jitters, Attempts(answers) - 1);
  }

  /** The result is that of the first success, or of the last attempt when there is none. */
  ghost predicate Answered<M>(answers: seq<Fetched<M>>, r: Fetched<M>) {
    var n := Attempts(answers);
    && 1 <= n <= |answers|
    && r == answers[n - 1]
    && (forall i | 0 <= i < n - 1 :: answers[i].Failed?)
    && (r.Failed? ==> n == |answers|)
  }

  function OpsOf<M>(answers: seq<Fetched<M>>): History {
    if answers == [] then []
    else if answers[0].Got? then [Success]
    else [Failure] + OpsOf(answers[1..])
  }

  lemma {:induction false} OpsExact<M>(answers: seq<Fetched<M>>, n: nat)
    requires 0 < n <= |answers| && forall i | 0 <= i < n - 1 :: answers[i].Failed?
    requires answers[n - 1].Got? || n == |answers|
    ensures OpsOf(answers) == if answers[n - 1].Got? then Failures(n - 1) + [Success] else Failures(n)
  {
    if answers[0].Failed? && n > 1 {
      OpsExact(answers[1..], n - 1);
      assert Failures(n) == [Failure] + Failures(n - 1);
      assert Failures(n - 1) == [Failure] + Failures(n - 2);
    }
  }

  /** Where the loop stops, and what it has recorded by then. */
  lemma LoopStops<M>(answers: seq<Fetched<M>>, n: nat)
    requires 0 < n <= |answers| && forall i | 0 <= i < n - 1 :: answers[i].Failed?
    requires answers[n - 1].Got? || n == |answers|
    ensures Attempts(answers) == n && Answered(answers, answers[n - 1])
    ensures OpsOf(answers) == if answers[n - 1].Got? then Failures(n - 1) + [Success] else Failures(n)
  {
    AttemptsExact(answers, n);
    OpsExact(answers, n);
  }

  method RetryLoop<M>(breaker: Breaker, maxRetries: U32, delay: nat -> nat, answers: seq<Fetched<M>>)
    returns (r: Fetched<M>, slept: nat)
    requires breaker.Valid() && |answers| == maxRetries + 1
    modifies breaker
    ensures breaker.Valid() && Answered(answers, r)
    ensures slept == Total(delay, Attempts(answers) - 1)
    ensures breaker.history == old(breaker.history) + OpsOf(answers)
  {
    slept := 0;
    var lastErr := PLACEHOLDER;
    for retry := 0 to maxRetries + 1
      invariant breaker.Valid()
      invariant forall i | 0 <= i < retry :: answers[i].Failed?
      invariant retry > 0 ==> answers[retry - 1] == Failed(lastErr)
      invariant slept == Total(delay, if retry == 0 then 0 else retry - 1)
      invariant breaker.history == old(breaker.history) + Failures(retry)
    {
      if retry > 0 {
        slept := slept + delay(retry - 1);
      }
      match answers[retry] {
        case Got(manifest) =>
          breaker.RecordSuccess();
          LoopStops(answers, retry + 1);
          return Got(manifest), slept;
        case Failed(e) =>
          breaker.RecordFailure();
          lastErr := e;
      }
    }
    LoopStops(answers, maxRetries + 1);
    return Failed(lastErr), slept;
  }

  // ------------------------------------------------- calls one after another

  /** A call of the downloader: refused, or some failures and perhaps a success at the end. */
  datatype Call = Call(failures: nat, succeeded: bool)

  function Recorded(c: Call): History {
    Failures(c.failures) + (if c.succeeded then [Success] else [])
  }

  /** A call records something only when the mode was not degraded before it. */
  function HistoryOf(calls: seq<Call>): History {
    if calls == [] then [] else HistoryOf(calls[..|calls| - 1]) + Recorded(calls[|calls| - 1])
  }

  ghost predicate Guarded(calls: seq<Call>, maxRetries: U32) {
    forall i | 0 <= i < |calls| ::
      && calls[i].failures <= maxRetries + 1
      && (FiveInARow(HistoryOf(calls[..i])) ==> calls[i] == Call(0, false))
  }

  function CallOf<M>(answers: seq<Fetched<M>>): Call {
    if answers == [] then Call(0, false)
    else if answers[0].Got? then Call(0, true)
    else var c := CallOf(answers[1..]); Call(c.failures + 1, c.succeeded)
  }

  /** What a fetch that is not refused records is a call with at most one failure for each attempt. */
  lemma {:induction false} FetchIsCall<M>(answers: seq<Fetched<M>>)
    ensures OpsOf(answers) == Recorded(CallOf(answers)) && CallOf(answers).failures <= |answers|
  {
    if answers != [] && answers[0].Failed? { FetchIsCall(answers[1..]); }
  }

  lemma {:induction false} TrailingOfRecorded(h: History, c: Call)
    ensures Trailing(h + Recorded(c)) == if c.succeeded then 0 else Trailing(h) + c.failures
    decreases c.failures
  {
    if c.succeeded {
      assert h + Recorded(c) == h + Failures(c.failures) + [Success];
    } else if c.failures > 0 {
      TrailingOfRecorded(h, Call(c.failures - 1, false));
      assert h + Recorded(c) == h + Recorded(Call(c.failures - 1, false)) + [Failure];
      TrailingAfter(h + Recorded(Call(c.failures - 1, false)));
    } else {
      assert h + Recorded(c) == h;
    }
  }

  lemma {:induction false} TailBounded(calls: seq<Call>, maxRetries: U32)
    requires Guarded(calls, maxRetries)
    ensures Trailing(HistoryOf(calls)) <= maxRetries + DEGRADED_THRESHOLD
  {
    if calls != [] {
      var n := |calls| - 1;
      var before := calls[..n];
      forall i | 0 <= i < n ensures before[..i] == calls[..i] {}
      TailBounded(before, maxRetries);
      TailStep(HistoryOf(before), calls[n], maxRetries);
    }
  }

  lemma TailStep(h: History, c: Call, maxRetries: U32)
    requires Trailing(h) <= maxRetries + DEGRADED_THRESHOLD && c.failures <= maxRetries + 1
    requires FiveInARow(h) ==> c == Call(0, false)
    ensures Trailing(h + Recorded(c)) <= maxRetries + DEGRADED_THRESHOLD
  {
    TrailingOfRecorded(h, c);
    if !FiveInARow(h) { NotDegradedIsFew(h); }
  }

  /** For calls one after another the counter never exceeds `maxRetries + 5`, and if that fits it never wraps. */
  lemma CounterBounded(calls: seq<Call>, maxRetries: U32)
    requires Guarded(calls, maxRetries)
    ensures Trailing(HistoryOf(calls)) % TWO_32 <= maxRetries + DEGRADED_THRESHOLD
    ensures maxRetries + DEGRADED_THRESHOLD < TWO_32 ==>
              Trailing(HistoryOf(calls)) % TWO_32 == Trailing(HistoryOf(calls))
  {
    TailBounded(calls, maxRetries);
    WrapOnlyLowers(Trailing(HistoryOf(calls)));
  }

  lemma WrapOnlyLowers(n: nat)
    ensures n % TWO_32 <= n && (n < TWO_32 ==> n % TWO_32 == n)
  {}
}
