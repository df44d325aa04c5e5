/** Degraded mode: a latch on five failures in a row, kept in two atomics. */
module Degraded {
  import opened Wrappers
  import opened Numbers

  const DEGRADED_THRESHOLD: nat := 5

  // ------------------------------------------------------- what is promised

  datatype Op = Failure | Success

  type History = seq<Op>

  predicate FailuresFrom(h: History, i: int, count: nat) {
    0 <= i && i + count <= |h| && forall k | i <= k < i + count :: h[k] == Failure
  }

  /** Somewhere in the history there are five failures with no success between them. */
  ghost predicate FiveInARow(h: History) {
    exists i :: FailuresFrom(h, i, DEGRADED_THRESHOLD)
  }

  /** The failures since the last success. */
  function Trailing(h: History): nat {
    if h == [] || h[|h| - 1] == Success then 0 else 1 + Trailing(h[..|h| - 1])
  }

  lemma {:induction false} TrailingFailures(h: History, n: nat)
    ensures Trailing(h) >= n <==> FailuresFrom(h, |h| - n, n)
  {
    if n > 0 && h != [] && h[|h| - 1] == Failure {
      var front := h[..|h| - 1];
      TrailingFailures(front, n - 1);
      assert FailuresFrom(h, |h| - n, n) <==> FailuresFrom(front, |front| - (n - 1), n - 1);
    }
  }

  lemma AddFailure(h: History)
    ensures FiveInARow(h + [Failure]) <==> FiveInARow(h) || Trailing(h) + 1 >= DEGRADED_THRESHOLD
  {
    var g := h + [Failure];
    TrailingFailures(h, 4);
    if FiveInARow(g) {
      var i :| FailuresFrom(g, i, 5);
      if i + 5 <= |h| {
        assert forall k | i <= k < i + 5 :: g[k] == h[k];
        assert FailuresFrom(h, i, 5);
      } else {
        assert forall k | i <= k < i + 4 :: g[k] == h[k];
        assert FailuresFrom(h, |h| - 4, 4);
      }
    }
    if FiveInARow(h) {
      var i :| FailuresFrom(h, i, 5);
      assert FailuresFrom(g, i, 5);
    }
    if Trailing(h) >= 4 { assert FailuresFrom(g, |h| - 4, 5); }
  }

  lemma AddSuccess(h: History)
    ensures FiveInARow(h + [Success]) <==> FiveInARow(h)
  {
    var g := h + [Success];
    if FiveInARow(g) {
      var i :| FailuresFrom(g, i, 5);
      assert g[|g| - 1] == Success;
      assert forall k | i <= k < i + 5 :: g[k] == h[k];
      assert FailuresFrom(h, i, 5);
    }
    if FiveInARow(h) {
      var i :| FailuresFrom(h, i, 5);
      assert FailuresFrom(g, i, 5);
    }
  }

  lemma TrailingAfter(h: History)
    ensures Trailing(h + [Failure]) == Trailing(h) + 1 && Trailing(h + [Success]) == 0
  {
    assert (h + [Failure])[..|h|] == h;
  }

  lemma LongTailIsFive(h: History)
    requires Trailing(h) >= DEGRADED_THRESHOLD
    ensures FiveInARow(h)
  {
    TrailingFailures(h, 5);
  }

  // -------------------------------------------------- callers side by side

  /**
   * The two atomics, the callers that have counted a fifth failure but not yet raised the flag, and the operations
   * on the counter in the order in which they took effect.
   */
  datatype State = State(counter: nat, flag: bool, raising: set<nat>, history: History)

  datatype Action = Fail(caller: nat) | Raise(caller: nat) | Succeed(caller: nat)

  const INITIAL := State(0, false, {}, [])

  predicate Enabled(s: State, a: Action) {
    match a
    case Raise(c) => c in s.raising
    case Fail(c) => c !in s.raising
    case Succeed(c) => c !in s.raising
  }

  /** `fetch_add(1)` wraps and gives the old value; one is added to that without wrapping. */
  function Counted(counter: nat): nat {
    if counter + 1 < TWO_32 then counter + 1 else TWO_32 - 1
  }

  function Next(s: State, a: Action): State {
    match a
    case Fail(c) =>
      State((s.counter + 1) % TWO_32, s.flag,
            if Counted(s.counter) >= DEGRADED_THRESHOLD then s.raising + {c} else s.raising, s.history + [Failure])
    case Raise(c) => s.(flag := true, raising := s.raising - {c})
    case Succeed(_) => s.(counter := 0, history := s.history + [Success])
  }

  function After(run: seq<Action>): State {
    if run == [] then INITIAL else Next(After(run[..|run| - 1]), run[|run| - 1])
  }

  predicate Possible(run: seq<Action>) {
    run == [] || (Possible(run[..|run| - 1]) && Enabled(After(run[..|run| - 1]), run[|run| - 1]))
  }

  /** The counter is the length of the failure tail up to wrap-around; someone knows of every five in a row. */
  ghost predicate Sound(s: State) {
    && s.counter == Trailing(s.history) % TWO_32
    && (s.flag || s.raising != {} <==> FiveInARow(s.history))
  }

  lemma CountedTail(h: History)
    ensures FiveInARow(h + [Failure]) <==> FiveInARow(h) || Counted(Trailing(h) % TWO_32) >= DEGRADED_THRESHOLD
    ensures (Trailing(h) % TWO_32 + 1) % TWO_32 == Trailing(h + [Failure]) % TWO_32
  {
    AddFailure(h);
    TrailingAfter(h);
    if Trailing(h) >= TWO_32 { LongTailIsFive(h); }
  }

  lemma NextSound(s: State, a: Action)
    requires Sound(s) && Enabled(s, a)
    ensures Sound(Next(s, a))
  {
    match a
    case Fail(_) => CountedTail(s.history);
    case Raise(_) =>
    case Succeed(_) =>
      AddSuccess(s.history);
      TrailingAfter(s.history);
  }

  lemma {:induction false} AlwaysSound(run: seq<Action>)
    requires Possible(run)
    ensures Sound(After(run))
  {
    if run == [] {
      assert !FiveInARow([]);
    } else {
      AlwaysSound(run[..|run| - 1]);
      NextSound(After(run[..|run| - 1]), run[|run| - 1]);
    }
  }

  /** The counter operations of a run, in order. */
  function Operations(run: seq<Action>): History {
    if run == [] then []
    else
      var ops := Operations(run[..|run| - 1]);
      match run[|run| - 1]
      case Fail(_) => ops + [Failure]
      case Raise(_) => ops
      case Succeed(_) => ops + [Success]
  }

  lemma {:induction false} HistoryIsOperations(run: seq<Action>)
    ensures After(run).history == Operations(run)
  {
    if run != [] { HistoryIsOperations(run[..|run| - 1]); }
  }

  /**
   * Under every interleaving of any number of callers and for runs of any length, the flag is raised only after
   * five failures in a row, and when no call is in progress it is raised exactly then.
   */
  lemma FlagIsLatch(run: seq<Action>)
    requires Possible(run)
    ensures After(run).flag ==> FiveInARow(Operations(run))
    ensures After(run).raising == {} ==> (After(run).flag <==> FiveInARow(Operations(run)))
  {
    AlwaysSound(run);
    HistoryIsOperations(run);
  }

  /** Once raised, the flag stays. */
  lemma {:induction false} FlagStays(run: seq<Action>, n: nat)
    requires n <= |run| && After(run[..n]).flag
    ensures After(run).flag
  {
    if n < |run| {
      assert run[..|run| - 1][..n] == run[..n];
      FlagStays(run[..|run| - 1], n);
    } else {
      assert run[..n] == run;
    }
  }

  // ----------------------------------------------------- one caller at a time

  /** The two fields of a downloader, with what has been recorded so far. */
  class Breaker {
    var consecutiveFailures: nat
    var degradedMode: bool
    ghost var history: History

    ghost predicate Valid()
      reads this
    {
      consecutiveFailures == Trailing(history) % TWO_32 && (degradedMode <==> FiveInARow(history))
    }

    constructor ()
      ensures Valid() && history == [] && !degradedMode && consecutiveFailures == 0
    {
      consecutiveFailures, degradedMode, history := 0, false, [];
      new;
      assert !FiveInARow([]);
    }

    /** Refuses exactly when there have been five failures in a row at some time. */
    method CheckDegraded() returns (r: Result<()>)
      requires Valid()
      ensures r.Err? <==> FiveInARow(history)
      ensures r.Err? ==> r.error == Error.Degraded
    {
      if degradedMode {
        return Err(Error.Degraded);
      }
      return Ok(());
    }

    method RecordFailure()
      requires Valid()
      modifies this
      ensures Valid() && history == old(history) + [Failure]
    {
      CountedTail(history);
      var previous := consecutiveFailures;
      consecutiveFailures := (previous + 1) % TWO_32;
      history := history + [Failure];
      if Counted(previous) >= DEGRADED_THRESHOLD {
        degradedMode := true;
      }
    }

    method RecordSuccess()
      requires Valid()
      modifies this
      ensures Valid() && history == old(history) + [Success]
    {
      AddSuccess(history);
      TrailingAfter(history);
      consecutiveFailures := 0;
      history := history + [Success];
    }
  }

  /** One caller at a time: while the mode is not degraded, at most four failures are on the counter. */
  lemma NotDegradedIsFew(h: History)
    requires !FiveInARow(h)
    ensures Trailing(h) % TWO_32 == Trailing(h) <= 4
  {
    if Trailing(h) >= 5 { LongTailIsFive(h); }
  }
}
