/** `PickleData` of cogs/pickle.py: the per-user size table `pickle_sizes`, the
    append-only `pickle_history` table, and the four store calls, each wrapped in
    the bounded retry loop. Failures of the database are an oracle: `faults(i, st)`
    is the error statement `st` raises on attempt `i`, if any. */
module PickleStore {
  import opened Tables
  import opened Calendar
  import Ordering
  import Retry

  type UserId = int

  /** A `pickle_sizes` row's columns other than its key `user_id`. */
  datatype SizeRecord = SizeRecord(currentSize: int, lastUpdated: Timestamp)

  /** A `pickle_history` row; its primary key is (user, recordedAt). */
  datatype HistoryRow = HistoryRow(user: UserId, size: int, recordedAt: Timestamp)

  datatype Store = Store(sizes: seq<Row<SizeRecord>>, history: seq<HistoryRow>)

  /** The SQL statements the store issues. */
  datatype Statement = SelectSize | UpsertSize | InsertHistory | SelectLeaderboard | SelectHistory

  /** The error, if any, that a statement raises on a given attempt. */
  type Faults = (nat, Statement) -> Option<string>

  /** The error text of a second history row with the same (user_id, recorded_at). */
  const UniqueViolation: string := "duplicate key value violates unique constraint \"pickle_history_pkey\""

  /** `get_history`'s default window, in months. */
  const HistoryMonths: int := 12

  /** The history table's primary key (user_id, recorded_at). */
  ghost predicate HistoryKeysUnique(h: seq<HistoryRow>) {
    forall i, j :: 0 <= i < j < |h| ==> h[i].user != h[j].user || h[i].recordedAt != h[j].recordedAt
  }

  /** Both primary keys hold. */
  ghost predicate Consistent(s: Store) {
    UniqueKeys(s.sizes) && HistoryKeysUnique(s.history)
  }

  predicate HasHistoryKey(h: seq<HistoryRow>, user: UserId, at: Timestamp) {
    exists i :: 0 <= i < |h| && h[i].user == user && h[i].recordedAt == at
  }

  /** Appending a row whose key is not yet present keeps the key unique. */
  lemma AppendKeepsHistoryKeys(h: seq<HistoryRow>, row: HistoryRow)
    requires HistoryKeysUnique(h)
    requires !HasHistoryKey(h, row.user, row.recordedAt)
    ensures HistoryKeysUnique(h + [row])
  {
    var h' := h + [row];
    forall i, j | 0 <= i < j < |h'| ensures h'[i].user != h'[j].user || h'[i].recordedAt != h'[j].recordedAt {
      if j == |h| {
        assert h'[i] == h[i];
      }
    }
  }

  /** `SELECT current_size FROM pickle_sizes WHERE user_id = user`. */
  function CurrentSize(s: Store, user: UserId): Option<int> {
    match Lookup(s.sizes, user)
    case None => None
    case Some(rec) => Some(rec.currentSize)
  }

  // ---------------------------------------------------------------- get_size

  function SelectSizeAttempt(user: UserId, faults: Faults): (Store, nat) -> (Store, Retry.Attempt<Option<int>>) {
    (s: Store, i: nat) =>
      if faults(i, SelectSize).Some? then (s, Retry.Raised(faults(i, SelectSize).value))
      else (s, Retry.Succeeded(CurrentSize(s, user)))
  }

  /** `get_size`: the stored size or none; a raised error is one a retried attempt raised. */
  function GetSize(store: Store, user: UserId, faults: Faults): (r: Retry.Attempt<Option<int>>)
    ensures r.Succeeded? ==> r.value == CurrentSize(store, user)
    ensures r.Raised? ==> exists i :: 0 <= i < Retry.MaxRetries && faults(i, SelectSize) == Some(r.error)
    ensures faults(0, SelectSize).None? ==> r.Succeeded?
    ensures faults(0, SelectSize).Some? && !Retry.IsConflict(faults(0, SelectSize).value) ==> r == Retry.Raised(faults(0, SelectSize).value)
    ensures faults(0, SelectSize).Some? && Retry.IsConflict(faults(0, SelectSize).value) && faults(1, SelectSize).None? ==> r.Succeeded?
  {
    var op := SelectSizeAttempt(user, faults);
    Retry.ReadOnlyRetry(store, op, 0);
    Retry.Retrying(store, op, 0).outcome
  }

  // ---------------------------------------------------------------- set_size

  /** One attempt of `set_size`: the upsert and the history insert are committed
      one at a time, so a failing insert leaves the committed upsert in place. */
  function SetSizeAttempt(user: UserId, size: int, now: Timestamp, faults: Faults)
    : (op: (Store, nat) -> (Store, Retry.Attempt<()>))
    ensures forall s: Store, i: nat :: faults(i, UpsertSize).Some? ==> op(s, i) == (s, Retry.Raised(faults(i, UpsertSize).value))
    ensures forall s: Store, i: nat :: faults(i, UpsertSize).None? ==>
      op(s, i).0.sizes == Upsert(s.sizes, user, SizeRecord(size, now))
    ensures forall s: Store, i: nat :: op(s, i).1.Succeeded? <==>
      faults(i, UpsertSize).None? && faults(i, InsertHistory).None? && !HasHistoryKey(s.history, user, now)
    ensures forall s: Store, i: nat :: op(s, i).0.history == if op(s, i).1.Succeeded? then s.history + [HistoryRow(user, size, now)] else s.history
  {
    (s: Store, i: nat) =>
      if faults(i, UpsertSize).Some? then (s, Retry.Raised(faults(i, UpsertSize).value))
      else
        var upserted := s.(sizes := Upsert(s.sizes, user, SizeRecord(size, now)));
        if faults(i, InsertHistory).Some? then (upserted, Retry.Raised(faults(i, InsertHistory).value))
        else if HasHistoryKey(s.history, user, now) then (upserted, Retry.Raised(UniqueViolation))
        else (upserted.(history := s.history + [HistoryRow(user, size, now)]), Retry.Succeeded(()))
  }

  /** Every attempt starts from the original tables, or from them with the upsert
      already committed. */
  ghost predicate SetSizeStart(st: Store, store: Store, user: UserId, size: int, now: Timestamp) {
    && st.history == store.history
    && (st.sizes == store.sizes || st.sizes == Upsert(store.sizes, user, SizeRecord(size, now)))
  }

  /** How an attempt, and so the whole run, of `set_size` may end. */
  ghost predicate SetSizeEnd(state: Store, outcome: Retry.Attempt<()>, store: Store, user: UserId, size: int, now: Timestamp) {
    && (outcome.Succeeded? ==>
          && state.sizes == Upsert(store.sizes, user, SizeRecord(size, now))
          && state.history == store.history + [HistoryRow(user, size, now)]
          && !HasHistoryKey(store.history, user, now))
    && (outcome.Raised? ==> SetSizeStart(state, store, user, size, now))
  }

  /** One attempt from such a state either fails and leaves such a state (the upsert
      is idempotent), or commits both the upsert and the history row. */
  lemma SetSizeAttemptEffect(st: Store, store: Store, user: UserId, size: int, now: Timestamp,
                             faults: Faults, i: nat)
    requires SetSizeStart(st, store, user, size, now)
    ensures var step := SetSizeAttempt(user, size, now, faults)(st, i);
      SetSizeEnd(step.0, step.1, store, user, size, now)
  {
    var rec := SizeRecord(size, now);
    var step := SetSizeAttempt(user, size, now, faults)(st, i);
    if faults(i, UpsertSize).Some? {
      assert step == (st, Retry.Raised(faults(i, UpsertSize).value));
    } else {
      UpsertIdempotent(store.sizes, user, rec);
      var upserted := st.(sizes := Upsert(st.sizes, user, rec));
      assert upserted.sizes == Upsert(store.sizes, user, rec);
      if faults(i, InsertHistory).Some? {
        assert step == (upserted, Retry.Raised(faults(i, InsertHistory).value));
      } else if HasHistoryKey(st.history, user, now) {
        assert step == (upserted, Retry.Raised(UniqueViolation));
      } else {
        assert step == (upserted.(history := st.history + [HistoryRow(user, size, now)]), Retry.Succeeded(()));
      }
    }
  }

  /** So the retries end in one of the two outcomes `SetSize` promises. */
  lemma SetSizeRetries(store: Store, user: UserId, size: int, now: Timestamp, faults: Faults)
    ensures var r := Retry.Retrying(store, SetSizeAttempt(user, size, now, faults), 0);
      SetSizeEnd(r.state, r.outcome, store, user, size, now)
  {
    var op := SetSizeAttempt(user, size, now, faults);
    var inv := (st: Store) => SetSizeStart(st, store, user, size, now);
    var post := (st: Store, a: Retry.Attempt<()>) => SetSizeEnd(st, a, store, user, size, now);
    forall st: Store, i: nat | inv(st) ensures post(op(st, i).0, op(st, i).1) {
      SetSizeAttemptEffect(st, store, user, size, now, faults, i);
    }
    Retry.RetryEstablishes(store, op, 0, inv, post);
  }

  /** A first upsert error that is not a conflict is raised at once, with nothing
      written; a conflict is retried, and a clean second attempt succeeds. */
  lemma SetSizeFirstAttempt(store: Store, user: UserId, size: int, now: Timestamp, faults: Faults)
    ensures var r := Retry.Retrying(store, SetSizeAttempt(user, size, now, faults), 0);
      && (faults(0, UpsertSize).Some? && !Retry.IsConflict(faults(0, UpsertSize).value)
          ==> r == Retry.Run(store, Retry.Raised(faults(0, UpsertSize).value), []))
      && (faults(0, UpsertSize).Some? && Retry.IsConflict(faults(0, UpsertSize).value)
          && faults(1, UpsertSize).None? && faults(1, InsertHistory).None? && !HasHistoryKey(store.history, user, now)
          ==> r.outcome.Succeeded? && r.retried == [faults(0, UpsertSize).value])
  {
    var op := SetSizeAttempt(user, size, now, faults);
    if faults(0, UpsertSize).Some? && Retry.IsConflict(faults(0, UpsertSize).value) {
      assert op(store, 0) == (store, Retry.Raised(faults(0, UpsertSize).value));
      var next := Retry.Retrying(store, op, 1);
      assert Retry.Retrying(store, op, 0).retried == [faults(0, UpsertSize).value] + next.retried;
    }
  }

  /** `set_size`: upsert the user's current size and append a history row. */
  function SetSize(store: Store, user: UserId, size: int, now: Timestamp, faults: Faults): (r: Retry.Run<Store, ()>)
    ensures r.outcome.Succeeded? ==>
      && CurrentSize(r.state, user) == Some(size)
      && r.state.history == store.history + [HistoryRow(user, size, now)]
    ensures r.outcome.Raised? ==>
      && r.state.history == store.history
      && (CurrentSize(r.state, user) == CurrentSize(store, user) || CurrentSize(r.state, user) == Some(size))
    ensures forall v :: v != user ==> CurrentSize(r.state, v) == CurrentSize(store, v)
    ensures faults(0, UpsertSize).None? && faults(0, InsertHistory).None? && !HasHistoryKey(store.history, user, now)
            ==> r.outcome.Succeeded?
    ensures Consistent(store) ==> Consistent(r.state)
    ensures |r.retried| < Retry.MaxRetries
    ensures faults(0, UpsertSize).Some? && !Retry.IsConflict(faults(0, UpsertSize).value)
            ==> r == Retry.Run(store, Retry.Raised(faults(0, UpsertSize).value), [])
    ensures faults(0, UpsertSize).Some? && Retry.IsConflict(faults(0, UpsertSize).value)
            && faults(1, UpsertSize).None? && faults(1, InsertHistory).None? && !HasHistoryKey(store.history, user, now)
            ==> r.outcome.Succeeded? && r.retried == [faults(0, UpsertSize).value]
  {
    var op := SetSizeAttempt(user, size, now, faults);
    SetSizeRetries(store, user, size, now, faults);
    SetSizeFirstAttempt(store, user, size, now, faults);
    var r := Retry.Retrying(store, op, 0);
    assert Consistent(store) && r.outcome.Succeeded? ==> Consistent(r.state) by {
      if Consistent(store) && r.outcome.Succeeded? {
        AppendKeepsHistoryKeys(store.history, HistoryRow(user, size, now));
      }
    }
    r
  }

  // --------------------------------------------------------- get_leaderboard

  datatype LeaderRow = LeaderRow(user: UserId, size: int)

  /** `ORDER BY current_size DESC`: `a` may precede `b`. */
  predicate AtLeast(a: LeaderRow, b: LeaderRow) {
    a.size >= b.size
  }

  lemma AtLeastIsTotalPreorder()
    ensures Ordering.TotalPreorder(AtLeast)
  {
  }

  /** `SELECT user_id, current_size FROM pickle_sizes`, in storage order. */
  function Standings(sizes: seq<Row<SizeRecord>>): (r: seq<LeaderRow>)
    ensures |r| == |sizes|
    ensures forall i :: 0 <= i < |r| ==> r[i] == LeaderRow(sizes[i].key, sizes[i].value.currentSize)
  {
    seq(|sizes|, i requires 0 <= i < |sizes| => LeaderRow(sizes[i].key, sizes[i].value.currentSize))
  }

  /** The same rows, `ORDER BY current_size DESC`. */
  function Leaderboard(sizes: seq<Row<SizeRecord>>): (r: seq<LeaderRow>)
    ensures Ordering.Sorted(r, AtLeast)
    ensures multiset(r) == multiset(Standings(sizes))
  {
    AtLeastIsTotalPreorder();
    Ordering.Sort(Standings(sizes), AtLeast)
  }

  /** The leaderboard lists a (user, size) pair exactly when that is the user's
      current size. */
  lemma LeaderboardListsCurrentSizes(store: Store, user: UserId, size: int)
    requires Consistent(store)
    ensures LeaderRow(user, size) in Leaderboard(store.sizes) <==> CurrentSize(store, user) == Some(size)
  {
    var lb := Leaderboard(store.sizes);
    var st := Standings(store.sizes);
    assert LeaderRow(user, size) in lb <==> LeaderRow(user, size) in multiset(st);
    if LeaderRow(user, size) in st {
      var i :| 0 <= i < |st| && st[i] == LeaderRow(user, size);
      LookupUnique(store.sizes, user, store.sizes[i].value);
    }
    if CurrentSize(store, user) == Some(size) {
      var rec := Lookup(store.sizes, user).value;
      var i :| 0 <= i < |store.sizes| && store.sizes[i] == Row(user, rec);
      assert st[i] == LeaderRow(user, size);
    }
  }

  function SelectLeaderboardAttempt(faults: Faults): (Store, nat) -> (Store, Retry.Attempt<seq<LeaderRow>>) {
    (s: Store, i: nat) =>
      if faults(i, SelectLeaderboard).Some? then (s, Retry.Raised(faults(i, SelectLeaderboard).value))
      else (s, Retry.Succeeded(Leaderboard(s.sizes)))
  }

  /** `get_leaderboard`: every stored row, by descending size. */
  function GetLeaderboard(store: Store, faults: Faults): (r: Retry.Attempt<seq<LeaderRow>>)
    ensures r.Succeeded? ==> Ordering.Sorted(r.value, AtLeast)
    ensures r.Succeeded? ==> multiset(r.value) == multiset(Standings(store.sizes))
    ensures r.Raised? ==> exists i :: 0 <= i < Retry.MaxRetries && faults(i, SelectLeaderboard) == Some(r.error)
    ensures faults(0, SelectLeaderboard).None? ==> r.Succeeded?
    ensures faults(0, SelectLeaderboard).Some? && !Retry.IsConflict(faults(0, SelectLeaderboard).value) ==> r == Retry.Raised(faults(0, SelectLeaderboard).value)
    ensures faults(0, SelectLeaderboard).Some? && Retry.IsConflict(faults(0, SelectLeaderboard).value) && faults(1, SelectLeaderboard).None? ==> r.Succeeded?
  {
    var op := SelectLeaderboardAttempt(faults);
    Retry.ReadOnlyRetry(store, op, 0);
    var run := Retry.Retrying(store, op, 0);
    assert run.outcome == op(store, |run.retried|).1;
    assert run.outcome.Succeeded? ==> run.outcome.value == Leaderboard(store.sizes);
    run.outcome
  }

  // ------------------------------------------------------------- get_history

  /** `ts::date` and `size` of one history row. */
  datatype HistoryPoint = HistoryPoint(date: Date, size: int)

  /** `WHERE user_id = user AND recorded_at > cutoff`. */
  predicate InWindow(row: HistoryRow, user: UserId, cutoff: Timestamp) {
    row.user == user && Before(cutoff, row.recordedAt)
  }

  /** `ORDER BY recorded_at ASC`: `a` may precede `b`. */
  predicate RecordedNoLater(a: HistoryRow, b: HistoryRow) {
    TimestampLe(a.recordedAt, b.recordedAt)
  }

  lemma RecordedNoLaterIsTotalPreorder()
    ensures Ordering.TotalPreorder(RecordedNoLater)
  {
  }

  /** The window's rows, oldest first: each row of the history the WHERE clause
      keeps, as often as it is stored, and no other. */
  function HistoryWindow(h: seq<HistoryRow>, user: UserId, cutoff: Timestamp): (r: seq<HistoryRow>)
    ensures Ordering.Sorted(r, RecordedNoLater)
    ensures forall x :: x in r <==> x in h && InWindow(x, user, cutoff)
    ensures forall x :: multiset(r)[x] == if InWindow(x, user, cutoff) then multiset(h)[x] else 0
  {
    RecordedNoLaterIsTotalPreorder();
    var w := Filter(h, (x: HistoryRow) => InWindow(x, user, cutoff));
    FilterCounts(h, (x: HistoryRow) => InWindow(x, user, cutoff));
    var r := Ordering.Sort(w, RecordedNoLater);
    assert forall x :: x in r <==> x in w by {
      forall x ensures x in r <==> x in w {
        Ordering.SortMembers(w, RecordedNoLater, x);
      }
    }
    r
  }

  function Points(rows: seq<HistoryRow>): (r: seq<HistoryPoint>)
    ensures |r| == |rows|
    ensures forall i :: 0 <= i < |r| ==> r[i] == HistoryPoint(rows[i].recordedAt.date, rows[i].size)
  {
    seq(|rows|, i requires 0 <= i < |rows| => HistoryPoint(rows[i].recordedAt.date, rows[i].size))
  }

  /** Rows in recording order give points in date order. */
  lemma PointDatesAscend(rows: seq<HistoryRow>)
    requires Ordering.Sorted(rows, RecordedNoLater)
    ensures forall i, j :: 0 <= i < j < |rows| ==> DateLe(Points(rows)[i].date, Points(rows)[j].date)
  {
    forall i, j | 0 <= i < j < |rows| ensures DateLe(Points(rows)[i].date, Points(rows)[j].date) {
      assert RecordedNoLater(rows[i], rows[j]);
    }
  }

  function SelectHistoryAttempt(user: UserId, cutoff: Timestamp, faults: Faults): (Store, nat) -> (Store, Retry.Attempt<seq<HistoryPoint>>) {
    (s: Store, i: nat) =>
      if faults(i, SelectHistory).Some? then (s, Retry.Raised(faults(i, SelectHistory).value))
      else (s, Retry.Succeeded(Points(HistoryWindow(s.history, user, cutoff))))
  }

  /** `get_history(user, months)`: the user's rows recorded after `now - months`,
      as (date, size) pairs, oldest first. */
  function GetHistory(store: Store, user: UserId, months: int, now: Timestamp, faults: Faults)
    : (r: Retry.Attempt<seq<HistoryPoint>>)
    requires ValidTimestamp(now)
    ensures r.Succeeded? ==>
      var rows := HistoryWindow(store.history, user, MinusMonths(now, months));
      && |r.value| == |rows|
      && (forall i :: 0 <= i < |rows| ==> r.value[i] == HistoryPoint(rows[i].recordedAt.date, rows[i].size))
      && (forall x :: x in rows <==> x in store.history && x.user == user && Before(MinusMonths(now, months), x.recordedAt))
      && (forall x :: multiset(rows)[x] ==
            if x.user == user && Before(MinusMonths(now, months), x.recordedAt) then multiset(store.history)[x] else 0)
    ensures r.Succeeded? ==> forall i, j :: 0 <= i < j < |r.value| ==> DateLe(r.value[i].date, r.value[j].date)
    ensures r.Raised? ==> exists i :: 0 <= i < Retry.MaxRetries && faults(i, SelectHistory) == Some(r.error)
    ensures faults(0, SelectHistory).None? ==> r.Succeeded?
    ensures faults(0, SelectHistory).Some? && !Retry.IsConflict(faults(0, SelectHistory).value) ==> r == Retry.Raised(faults(0, SelectHistory).value)
    ensures faults(0, SelectHistory).Some? && Retry.IsConflict(faults(0, SelectHistory).value) && faults(1, SelectHistory).None? ==> r.Succeeded?
  {
    var cutoff := MinusMonths(now, months);
    var op := SelectHistoryAttempt(user, cutoff, faults);
    Retry.ReadOnlyRetry(store, op, 0);
    var rows := HistoryWindow(store.history, user, cutoff);
    PointDatesAscend(rows);
    var run := Retry.Retrying(store, op, 0);
    assert run.outcome == op(store, |run.retried|).1;
    assert run.outcome.Succeeded? ==> run.outcome.value == Points(rows);
    run.outcome
  }
}
