/** The bounded retry loop that wraps every store call of the pickle game
    (`get_size`, `set_size`, `get_leaderboard`, `get_history`): at most three
    attempts, and only a transaction-restart conflict is retried. */
module Retry {
  import opened Text

  const MaxRetries: nat := 3

  /** The text that marks CockroachDB's transaction-restart conflict. */
  const ConflictMarker: string := "TransactionRetryWithProtoRefreshError"

  /** A conflict is an error whose text has the marker at some position. */
  lemma ConflictIffMarkerOccurs(error: string)
    ensures IsConflict(error) <==> exists i :: OccursAt(error, ConflictMarker, i)
  {
    ContainsIffOccurs(error, ConflictMarker);
  }

  /** What one attempt did: returned a value, or raised an error with this text. */
  datatype Attempt<T> = Succeeded(value: T) | Raised(error: string)

  /** `"TransactionRetryWithProtoRefreshError" in str(e)`. */
  predicate IsConflict(error: string) {
    Contains(error, ConflictMarker)
  }

  /** The final state, the outcome the caller sees (a value or the re-raised
      error), and the errors of the attempts that were retried. */
  datatype Run<S, T> = Run(state: S, outcome: Attempt<T>, retried: seq<string>)

  /** The retry policy as a recursive reference definition. `op(s, i)` is attempt
      number `i` started in state `s`; it returns the state it leaves behind (work it
      committed stays committed) and its outcome. */
  function Retrying<S, T>(s: S, op: (S, nat) -> (S, Attempt<T>), count: nat): (r: Run<S, T>)
    requires count < MaxRetries
    ensures count + |r.retried| < MaxRetries
    ensures forall e :: e in r.retried ==> IsConflict(e)
    ensures r.outcome.Raised? && IsConflict(r.outcome.error) ==> count + |r.retried| == MaxRetries - 1
    decreases MaxRetries - count
  {
    var (next, attempt) := op(s, count);
    if attempt.Raised? && IsConflict(attempt.error) && count < MaxRetries - 1 then
      var rest := Retrying(next, op, count + 1);
      Run(rest.state, rest.outcome, [attempt.error] + rest.retried)
    else
      Run(next, attempt, [])
  }

  /** `run` with the errors `earlier` retried before it. */
  function After<S, T>(earlier: seq<string>, run: Run<S, T>): Run<S, T> {
    Run(run.state, run.outcome, earlier + run.retried)
  }

  /** A conflict below the last attempt is retried from the state it left. */
  lemma RetryingRetries<S, T>(s: S, op: (S, nat) -> (S, Attempt<T>), count: nat, earlier: seq<string>)
    requires count < MaxRetries - 1
    requires op(s, count).1.Raised? && IsConflict(op(s, count).1.error)
    ensures After(earlier, Retrying(s, op, count))
         == After(earlier + [op(s, count).1.error], Retrying(op(s, count).0, op, count + 1))
  {
    var rest := Retrying(op(s, count).0, op, count + 1);
    assert earlier + ([op(s, count).1.error] + rest.retried) == earlier + [op(s, count).1.error] + rest.retried;
  }

  /** The loop as the store methods write it: `retry_count` counts retries, a
      conflict below the last attempt continues, anything else ends the loop. */
  method RunWithRetries<S, T>(s0: S, op: (S, nat) -> (S, Attempt<T>))
    returns (state: S, outcome: Attempt<T>, retried: seq<string>)
    ensures Run(state, outcome, retried) == Retrying(s0, op, 0)
    ensures |retried| < MaxRetries
    ensures forall e :: e in retried ==> IsConflict(e)
    ensures outcome.Raised? && IsConflict(outcome.error) ==> |retried| == MaxRetries - 1
  {
    state, retried := s0, [];
    outcome := Raised("");
    var retryCount: nat := 0;
    var settled := false;
    while !settled
      invariant retryCount < MaxRetries
      invariant |retried| == retryCount
      invariant !settled ==> Retrying(s0, op, 0) == After(retried, Retrying(state, op, retryCount))
      invariant settled ==> Retrying(s0, op, 0) == Run(state, outcome, retried)
      decreases MaxRetries - retryCount, if settled then 0 else 1
    {
      var (next, attempt) := op(state, retryCount);
      if attempt.Raised? && IsConflict(attempt.error) && retryCount < MaxRetries - 1 {
        RetryingRetries(state, op, retryCount, retried);
        retried := retried + [attempt.error];
        retryCount := retryCount + 1;
      } else {
        assert Retrying(state, op, retryCount) == Run(next, attempt, []);
        outcome := attempt;
        settled := true;
        assert retried + [] == retried;
      }
      state := next;
    }
  }

  /** A read-only operation: the state is unchanged and the outcome is that of the
      last attempt made. */
  lemma {:induction false} ReadOnlyRetry<S, T>(s: S, op: (S, nat) -> (S, Attempt<T>), count: nat)
    requires count < MaxRetries
    requires forall i: nat :: op(s, i).0 == s
    ensures Retrying(s, op, count).state == s
    ensures Retrying(s, op, count).outcome == op(s, count + |Retrying(s, op, count).retried|).1
    decreases MaxRetries - count
  {
    var (next, attempt) := op(s, count);
    if attempt.Raised? && IsConflict(attempt.error) && count < MaxRetries - 1 {
      ReadOnlyRetry(s, op, count + 1);
    }
  }

  /** An invariant of the retry loop: if every attempt started where `inv` holds ends
      where `post` holds, and a failed attempt's `post` gives back `inv`, then the
      whole run ends where `post` holds. */
  lemma {:induction false} RetryEstablishes<S, T>(s: S, op: (S, nat) -> (S, Attempt<T>), count: nat,
                                                  inv: S -> bool, post: (S, Attempt<T>) -> bool)
    requires count < MaxRetries
    requires inv(s)
    requires forall st: S, i: nat :: inv(st) ==> post(op(st, i).0, op(st, i).1)
    requires forall st: S, a: Attempt<T> :: post(st, a) && a.Raised? ==> inv(st)
    ensures post(Retrying(s, op, count).state, Retrying(s, op, count).outcome)
    decreases MaxRetries - count
  {
    var (next, attempt) := op(s, count);
    if attempt.Raised? && IsConflict(attempt.error) && count < MaxRetries - 1 {
      RetryEstablishes(next, op, count + 1, inv, post);
    }
  }

  /** An attempt that succeeds, raises anything but a conflict, or is the last one
      allowed, ends the loop with its own outcome: a value is returned, an error is
      re-raised. */
  lemma SettledAttemptIsFinal<S, T>(s: S, op: (S, nat) -> (S, Attempt<T>), count: nat)
    requires count < MaxRetries
    requires !(op(s, count).1.Raised? && IsConflict(op(s, count).1.error)) || count == MaxRetries - 1
    ensures Retrying(s, op, count) == Run(op(s, count).0, op(s, count).1, [])
  {
  }
}
