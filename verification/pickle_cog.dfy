/** The `Pickle` cog of cogs/pickle.py: the `/pickle` fetch-or-initialise rule and
    its message table, the `/pickleboard` rank numbering, the "best month" of
    `/picklegraph`, and the hourly monthly-reset task. The clock reading `now`, the
    random roll and Discord's user lookups are parameters. */
module PickleCog {
  import opened Tables
  import opened Calendar
  import opened PickleStore
  import Ordering
  import Retry

  /** `randint(MIN_SIZE, MAX_SIZE + 1)` draws from this range, both ends included. */
  const MinSize: int := 3
  const MaxSize: int := 32

  /** The ids read from STEVEID, LIORID and SELFID (each 0 when unset). */
  datatype SpecialIds = SpecialIds(steve: UserId, lior: UserId, self: UserId)

  /** The replies of `_get_size_message`, one per branch, each carrying the size shown. */
  datatype SizeMessage =
    | MasterOutranksBot(size: int)   // the bot's size, asked by Steve
    | BotDeflects(size: int)         // the bot's size, asked by anyone else
    | MasterProud(size: int)         // Steve's new size, above 25
    | MasterFailed(size: int)        // Steve's new size, 25 or less
    | MasterReminded(size: int)      // Steve's existing size
    | LiorMocked(size: int)          // Lior's size, a member named, below 10
    | LiorLuckyMentioned(size: int)  // Lior's size, a member named, 10 or more
    | LiorLucky(size: int)           // Lior's size, no member named, above 10
    | LiorSmall(size: int)           // Lior's size, no member named, 10 or less
    | Generic(user: UserId, size: int)

  // ------------------------------------------------------- _get_size_message

  /** The decision table: the bot's id is checked before Steve's and Steve's before
      Lior's; every (user, size, is_new, mentioned_by) gets exactly one message. */
  function SizeMessageFor(ids: SpecialIds, user: UserId, size: int, isNew: bool, mentionedBy: Option<UserId>)
    : (m: SizeMessage)
    ensures m.size == size
    ensures m.MasterOutranksBot? <==> user == ids.self && mentionedBy == Some(ids.steve)
    ensures m.BotDeflects? <==> user == ids.self && mentionedBy != Some(ids.steve)
    ensures m.MasterProud? <==> user != ids.self && user == ids.steve && isNew && size > 25
    ensures m.MasterFailed? <==> user != ids.self && user == ids.steve && isNew && size <= 25
    ensures m.MasterReminded? <==> user != ids.self && user == ids.steve && !isNew
    ensures m.LiorMocked? <==>
      user != ids.self && user != ids.steve && user == ids.lior && mentionedBy.Some? && size < 10
    ensures m.LiorLuckyMentioned? <==>
      user != ids.self && user != ids.steve && user == ids.lior && mentionedBy.Some? && size >= 10
    ensures m.LiorLucky? <==>
      user != ids.self && user != ids.steve && user == ids.lior && mentionedBy.None? && size > 10
    ensures m.LiorSmall? <==>
      user != ids.self && user != ids.steve && user == ids.lior && mentionedBy.None? && size <= 10
    ensures m.Generic? <==> user != ids.self && user != ids.steve && user != ids.lior
    ensures m.Generic? ==> m.user == user
  {
    if user == ids.self then
      if mentionedBy.Some? && mentionedBy.value == ids.steve then MasterOutranksBot(size)
      else BotDeflects(size)
    else if user == ids.steve then
      if isNew then
        if size > 25 then MasterProud(size) else MasterFailed(size)
      else MasterReminded(size)
    else if user == ids.lior then
      if mentionedBy.Some? then
        if size < 10 then LiorMocked(size) else LiorLuckyMentioned(size)
      else
        if size > 10 then LiorLucky(size) else LiorSmall(size)
    else Generic(user, size)
  }

  /** Size 10 falls on opposite sides of Lior's two thresholds: lucky when a member
      is named, small when no member is named. */
  lemma LiorTenIsSplit(ids: SpecialIds, asker: UserId, isNew: bool)
    requires ids.lior != ids.self && ids.lior != ids.steve
    ensures SizeMessageFor(ids, ids.lior, 10, isNew, Some(asker)) == LiorLuckyMentioned(10)
    ensures SizeMessageFor(ids, ids.lior, 10, isNew, None) == LiorSmall(10)
  {
  }

  // ------------------------------------------------------------------ /pickle

  datatype PickleReply = SizeReply(message: SizeMessage) | PickleFailure

  /** `member or interaction.user`. */
  function Target(invoker: UserId, member: Option<UserId>): (t: UserId)
    ensures member.Some? ==> t == member.value
    ensures member.None? ==> t == invoker
  {
    if member.Some? then member.value else invoker
  }

  /** `interaction.user if member else None`. */
  function MentionedBy(invoker: UserId, member: Option<UserId>): (r: Option<UserId>)
    ensures r.Some? <==> member.Some?
    ensures r.Some? ==> r.value == invoker
  {
    if member.Some? then Some(invoker) else None
  }

  /** `/pickle [member]`: show the target's stored size, or store a fresh `roll`
      first when there is none. Any store error gives the apology instead. */
  function PickleCommand(store: Store, ids: SpecialIds, invoker: UserId, member: Option<UserId>,
                         roll: int, now: Timestamp, faults: Faults): (r: (Store, PickleReply))
    requires MinSize <= roll <= MaxSize
    ensures var target := Target(invoker, member);
      && (CurrentSize(store, target).Some? ==> r.0 == store)
      && (GetSize(store, target, faults).Raised? ==> r.0 == store)
      && (r.1.SizeReply? ==> CurrentSize(r.0, target) == Some(r.1.message.size))
      && (r.1.SizeReply? && CurrentSize(store, target).None? ==>
            && r.1.message.size == roll
            && CurrentSize(r.0, target) == Some(roll)
            && r.0.history == store.history + [HistoryRow(target, roll, now)])
      && (r.1.SizeReply? ==>
            r.1.message == SizeMessageFor(ids, target, r.1.message.size, CurrentSize(store, target).None?,
                                          MentionedBy(invoker, member)))
      && (r.1.PickleFailure? <==>
            || GetSize(store, target, faults).Raised?
            || (GetSize(store, target, faults) == Retry.Succeeded(None)
                && SetSize(store, target, roll, now, faults).outcome.Raised?))
      && (r.1.PickleFailure? ==> r.0.history == store.history)
      && (r.1.PickleFailure? ==>
            CurrentSize(r.0, target) == CurrentSize(store, target) || CurrentSize(r.0, target) == Some(roll))
      && (forall v :: v != target ==> CurrentSize(r.0, v) == CurrentSize(store, v))
    ensures Consistent(store) ==> Consistent(r.0)
  {
    var target := Target(invoker, member);
    var mentionedBy := MentionedBy(invoker, member);
    match GetSize(store, target, faults)
    case Raised(_) => (store, PickleFailure)
    case Succeeded(Some(size)) => (store, SizeReply(SizeMessageFor(ids, target, size, false, mentionedBy)))
    case Succeeded(None) =>
      var run := SetSize(store, target, roll, now, faults);
      if run.outcome.Raised? then (run.state, PickleFailure)
      else (run.state, SizeReply(SizeMessageFor(ids, target, roll, true, mentionedBy)))
  }

  /** Naming oneself still counts as naming a member: Lior running `/pickle` on Lior
      with size 10 gets the mentioned reply, not the one for an unnamed target. */
  lemma LiorNamingLiorIsMentioned(ids: SpecialIds, isNew: bool)
    requires ids.lior != ids.self && ids.lior != ids.steve
    ensures Target(ids.lior, Some(ids.lior)) == ids.lior
    ensures SizeMessageFor(ids, ids.lior, 10, isNew, MentionedBy(ids.lior, Some(ids.lior))) == LiorLuckyMentioned(10)
    ensures SizeMessageFor(ids, ids.lior, 10, isNew, MentionedBy(ids.lior, None)) == LiorSmall(10)
  {
  }

  /** A user who already has a size keeps it, however often `/pickle` is run. */
  lemma {:induction false} ExistingSizeIsKept(store: Store, ids: SpecialIds, invoker: UserId, member: Option<UserId>,
                           rolls: seq<int>, now: Timestamp, faults: Faults)
    requires forall k :: 0 <= k < |rolls| ==> MinSize <= rolls[k] <= MaxSize
    requires CurrentSize(store, Target(invoker, member)).Some?
    ensures RepeatPickle(store, ids, invoker, member, rolls, now, faults) == store
    decreases |rolls|
  {
    if |rolls| > 0 {
      ExistingSizeIsKept(store, ids, invoker, member, rolls[1..], now, faults);
    }
  }

  /** `/pickle` run once per roll in `rolls`, on the store each run leaves. */
  function RepeatPickle(store: Store, ids: SpecialIds, invoker: UserId, member: Option<UserId>,
                        rolls: seq<int>, now: Timestamp, faults: Faults): Store
    requires forall k :: 0 <= k < |rolls| ==> MinSize <= rolls[k] <= MaxSize
    decreases |rolls|
  {
    if |rolls| == 0 then store
    else
      var next := PickleCommand(store, ids, invoker, member, rolls[0], now, faults).0;
      RepeatPickle(next, ids, invoker, member, rolls[1..], now, faults)
  }

  // ------------------------------------------------------------- /pickleboard

  /** What `bot.fetch_user` gives: a user, nothing, or an exception. */
  datatype UserLookup = Found(name: string) | Unresolved | LookupFailed

  datatype BoardLine = BoardLine(rank: nat, name: string, size: int)

  datatype BoardReply = NoSizesYet | Board(lines: seq<BoardLine>) | BoardFailure

  /** `enumerate(leaderboard, 1)` from position `i` on: a line for each entry whose
      user was found, numbered by its position in the whole leaderboard. */
  function RankLines(lb: seq<LeaderRow>, fetch: UserId -> UserLookup, i: nat): (lines: seq<BoardLine>)
    requires i <= |lb|
    ensures forall k :: 0 <= k < |lines| ==> i < lines[k].rank <= |lb|
    ensures forall k :: 0 <= k < |lines| ==>
      && fetch(lb[lines[k].rank - 1].user) == Found(lines[k].name)
      && lb[lines[k].rank - 1].size == lines[k].size
    ensures forall k, l :: 0 <= k < l < |lines| ==> lines[k].rank < lines[l].rank
    decreases |lb| - i
  {
    if i == |lb| then []
    else
      var rest := RankLines(lb, fetch, i + 1);
      if fetch(lb[i].user).Found? then [BoardLine(i + 1, fetch(lb[i].user).name, lb[i].size)] + rest
      else rest
  }

  /** No found user is left off: an entry whose lookup succeeds has a line with its
      leaderboard position as rank, whatever happened to the entries above it. */
  lemma {:induction false} RankLinesComplete(lb: seq<LeaderRow>, fetch: UserId -> UserLookup, i: nat, j: nat)
    requires i <= j < |lb| && fetch(lb[j].user).Found?
    ensures BoardLine(j + 1, fetch(lb[j].user).name, lb[j].size) in RankLines(lb, fetch, i)
    decreases |lb| - i
  {
    if i < j {
      RankLinesComplete(lb, fetch, i + 1, j);
    }
  }

  /** Lines follow the leaderboard, so their sizes never increase. */
  lemma RankLinesFollowLeaderboard(lb: seq<LeaderRow>, fetch: UserId -> UserLookup)
    requires Ordering.Sorted(lb, AtLeast)
    ensures var lines := RankLines(lb, fetch, 0);
      forall k, l :: 0 <= k < l < |lines| ==> lines[k].size >= lines[l].size
  {
    var lines := RankLines(lb, fetch, 0);
    forall k, l | 0 <= k < l < |lines| ensures lines[k].size >= lines[l].size {
      assert AtLeast(lb[lines[k].rank - 1], lb[lines[l].rank - 1]);
    }
  }

  predicate AnyLookupFails(lb: seq<LeaderRow>, fetch: UserId -> UserLookup) {
    exists j :: 0 <= j < |lb| && fetch(lb[j].user).LookupFailed?
  }

  /** `/pickleboard`. */
  function Pickleboard(store: Store, faults: Faults, fetch: UserId -> UserLookup): (r: BoardReply)
    ensures r.NoSizesYet? <==> GetLeaderboard(store, faults).Succeeded? && |store.sizes| == 0
    ensures r.Board? ==>
      && GetLeaderboard(store, faults).Succeeded?
      && r.lines == RankLines(GetLeaderboard(store, faults).value, fetch, 0)
      && !AnyLookupFails(GetLeaderboard(store, faults).value, fetch)
    ensures r.BoardFailure? ==>
      GetLeaderboard(store, faults).Raised? || AnyLookupFails(GetLeaderboard(store, faults).value, fetch)
  {
    match GetLeaderboard(store, faults)
    case Raised(_) => BoardFailure
    case Succeeded(lb) =>
      assert |lb| == |Standings(store.sizes)| by {
        assert |multiset(lb)| == |multiset(Standings(store.sizes))|;
      }
      if |lb| == 0 then NoSizesYet
      else if AnyLookupFails(lb, fetch) then BoardFailure
      else Board(RankLines(lb, fetch, 0))
  }

  // ------------------------------------------------------------- /picklegraph

  /** `sizes.index(max(sizes))`: the first position of the largest size. */
  function FirstMaxIndex(sizes: seq<int>): (k: nat)
    requires |sizes| > 0
    ensures k < |sizes|
    ensures forall j :: 0 <= j < |sizes| ==> sizes[j] <= sizes[k]
    ensures forall j :: 0 <= j < k ==> sizes[j] < sizes[k]
  {
    if |sizes| == 1 then 0
    else
      var k := FirstMaxIndex(sizes[..|sizes| - 1]);
      if sizes[|sizes| - 1] > sizes[k] then |sizes| - 1 else k
  }

  function PointSizes(points: seq<HistoryPoint>): (r: seq<int>)
    ensures |r| == |points|
    ensures forall i :: 0 <= i < |r| ==> r[i] == points[i].size
  {
    seq(|points|, i requires 0 <= i < |points| => points[i].size)
  }

  /** The earliest point of largest size, if there is any point. */
  function BestPoint(points: seq<HistoryPoint>): (r: Option<HistoryPoint>)
    ensures r.None? <==> points == []
    ensures r.Some? ==>
      exists k :: (0 <= k < |points| && points[k] == r.value
        && (forall j :: 0 <= j < |points| ==> points[j].size <= r.value.size)
        && (forall j :: 0 <= j < k ==> points[j].size < r.value.size))
  {
    if |points| == 0 then None
    else
      var sizes := PointSizes(points);
      var k := FirstMaxIndex(sizes);
      assert forall j :: 0 <= j < |points| ==> points[j].size == sizes[j];
      Some(points[k])
  }

  datatype GraphReply = NoHistory | BestMonth(month: int, size: int) | GraphFailure

  /** The "Best Month" field of `/picklegraph`: the month of the earliest largest
      size in the last twelve months of history. */
  function PickleGraph(store: Store, user: UserId, now: Timestamp, faults: Faults): (r: GraphReply)
    requires ValidTimestamp(now)
    ensures var hist := GetHistory(store, user, HistoryMonths, now, faults);
      && (r.GraphFailure? <==> hist.Raised?)
      && (r.NoHistory? <==> hist.Succeeded? && hist.value == [])
      && (r.BestMonth? ==>
            (hist.Succeeded? && BestPoint(hist.value).Some?
             && r.month == BestPoint(hist.value).value.date.month
             && r.size == BestPoint(hist.value).value.size))
  {
    var hist := GetHistory(store, user, HistoryMonths, now, faults);
    if hist.Raised? then GraphFailure
    else
      match BestPoint(hist.value)
      case None => NoHistory
      case Some(p) => BestMonth(p.date.month, p.size)
  }

  // ------------------------------------------------------------ monthly_reset

  /** The gate of `monthly_reset`: the first day of a month, between 00:00 and 01:00. */
  predicate IsResetHour(now: Timestamp)
    requires ValidTimestamp(now)
  {
    now.date.day == 1 && Hour(now) == 0
  }

  /** The reset hour is the first hour of the first day of a month: midnight up to,
      but not including, one o'clock. */
  lemma ResetHourIsFirstHourOfMonth(now: Timestamp)
    requires ValidTimestamp(now)
    ensures IsResetHour(now) <==> now.date.day == 1 && now.micros < MicrosPerHour
  {
    var h := Hour(now);
    assert h == 0 <==> now.micros < MicrosPerHour by {
      if h >= 1 {
        assert h * MicrosPerHour >= MicrosPerHour;
      }
    }
  }

  /** `EXISTS (SELECT 1 FROM pickle_history WHERE user_id = user AND
      DATE_TRUNC('month', recorded_at) = DATE_TRUNC('month', now))`. */
  predicate HasRowInMonth(h: seq<HistoryRow>, user: UserId, now: Timestamp) {
    exists i :: 0 <= i < |h| && h[i].user == user && SameMonth(h[i].recordedAt, now)
  }

  /** The rows the archive statement inserts: the current size of every user who has
      no history row in the current month, stamped `now`. */
  function ArchiveRows(sizes: seq<Row<SizeRecord>>, h: seq<HistoryRow>, now: Timestamp): (added: seq<HistoryRow>)
    ensures forall x :: x in added ==>
      && x.recordedAt == now
      && !HasRowInMonth(h, x.user, now)
      && exists i :: 0 <= i < |sizes| && sizes[i].key == x.user && sizes[i].value.currentSize == x.size
    ensures forall i :: 0 <= i < |sizes| && !HasRowInMonth(h, sizes[i].key, now) ==>
      HistoryRow(sizes[i].key, sizes[i].value.currentSize, now) in added
    ensures UniqueKeys(sizes) ==> forall i, j :: 0 <= i < j < |added| ==> added[i].user != added[j].user
  {
    if |sizes| == 0 then []
    else
      var rest := ArchiveRows(sizes[1..], h, now);
      assert UniqueKeys(sizes) ==> UniqueKeys(sizes[1..]);
      assert UniqueKeys(sizes) ==> forall x :: x in rest ==> x.user != sizes[0].key by {
        if UniqueKeys(sizes) {
          forall x | x in rest ensures x.user != sizes[0].key {
            var i :| 0 <= i < |sizes[1..]| && sizes[1..][i].key == x.user && sizes[1..][i].value.currentSize == x.size;
            assert sizes[i + 1].key == x.user;
          }
        }
      }
      if HasRowInMonth(h, sizes[0].key, now) then rest
      else [HistoryRow(sizes[0].key, sizes[0].value.currentSize, now)] + rest
  }

  /** The archive never breaks the history table's primary key. */
  lemma ArchiveKeepsHistoryKeys(store: Store, now: Timestamp)
    requires Consistent(store)
    ensures HistoryKeysUnique(store.history + ArchiveRows(store.sizes, store.history, now))
  {
    var h := store.history;
    var added := ArchiveRows(store.sizes, h, now);
    var all := h + added;
    forall i, j | 0 <= i < j < |all| ensures all[i].user != all[j].user || all[i].recordedAt != all[j].recordedAt {
      if i < |h| && j >= |h| {
        var x := added[j - |h|];
        assert all[i] == h[i] && all[j] == x && x in added;
        assert h[i].user != x.user || !SameMonth(h[i].recordedAt, now);
      } else if i >= |h| {
        assert all[i] == added[i - |h|] && all[j] == added[j - |h|];
      }
    }
  }

  /** Once every user with a size has a row in a month, archiving again in that
      month inserts nothing. */
  lemma {:induction false} NothingLeftToArchive(sizes: seq<Row<SizeRecord>>, h: seq<HistoryRow>, now: Timestamp)
    requires forall i :: 0 <= i < |sizes| ==> HasRowInMonth(h, sizes[i].key, now)
    ensures ArchiveRows(sizes, h, now) == []
  {
    if |sizes| > 0 {
      NothingLeftToArchive(sizes[1..], h, now);
    }
  }

  /** The archive is idempotent within a month: a second run at any time in the same
      month, even with the sizes table still full, inserts nothing. */
  lemma ArchiveIdempotent(sizes: seq<Row<SizeRecord>>, h: seq<HistoryRow>, now: Timestamp, later: Timestamp)
    requires SameMonth(now, later)
    ensures ArchiveRows(sizes, h + ArchiveRows(sizes, h, now), later) == []
  {
    var h' := h + ArchiveRows(sizes, h, now);
    forall i | 0 <= i < |sizes| ensures HasRowInMonth(h', sizes[i].key, later) {
      if HasRowInMonth(h, sizes[i].key, now) {
        var j :| 0 <= j < |h| && h[j].user == sizes[i].key && SameMonth(h[j].recordedAt, now);
        assert h'[j] == h[j];
      } else {
        var added := ArchiveRows(sizes, h, now);
        var row := HistoryRow(sizes[i].key, sizes[i].value.currentSize, now);
        assert row in added;
        var j :| 0 <= j < |added| && added[j] == row;
        assert h'[|h| + j] == row;
      }
    }
    NothingLeftToArchive(sizes, h', later);
  }

  /** `monthly_reset` at clock reading `now`: at the reset hour, archive and then
      empty the sizes table, each statement committed on its own; an error in either
      is logged and ends the run. */
  function MonthlyReset(store: Store, now: Timestamp, archiveFault: Option<string>, truncateFault: Option<string>)
    : (r: Store)
    requires ValidTimestamp(now)
    ensures !IsResetHour(now) ==> r == store
    ensures archiveFault.Some? ==> r == store
    ensures IsResetHour(now) && archiveFault.None? ==>
      r.history == store.history + ArchiveRows(store.sizes, store.history, now)
    ensures IsResetHour(now) && archiveFault.None? && truncateFault.None? ==> r.sizes == []
    ensures truncateFault.Some? ==> r.sizes == store.sizes
    ensures Consistent(store) ==> Consistent(r)
  {
    if !IsResetHour(now) || archiveFault.Some? then store
    else
      var archived := store.(history := store.history + ArchiveRows(store.sizes, store.history, now));
      assert Consistent(store) ==> Consistent(archived) by {
        if Consistent(store) {
          ArchiveKeepsHistoryKeys(store, now);
        }
      }
      if truncateFault.Some? then archived
      else archived.(sizes := [])
  }

  /** A second firing in the same month (the loop fires hourly, and the process may
      restart) archives nothing more, whether or not the first run's truncate failed. */
  lemma RepeatedResetArchivesOnce(store: Store, now: Timestamp, later: Timestamp, truncateFault: Option<string>,
                                  archiveFault2: Option<string>, truncateFault2: Option<string>)
    requires ValidTimestamp(now) && ValidTimestamp(later)
    requires IsResetHour(now) && SameMonth(now, later)
    ensures var first := MonthlyReset(store, now, None, truncateFault);
      MonthlyReset(first, later, archiveFault2, truncateFault2).history == first.history
  {
    var first := MonthlyReset(store, now, None, truncateFault);
    ArchiveIdempotent(store.sizes, store.history, now, later);
    if first.sizes == [] {
      NothingLeftToArchive(first.sizes, first.history, later);
    }
  }

  // ---------------------------------------------------------- reset notices

  /** The channel names the reset notice may go to. */
  const NoticeChannelNames: seq<string> := ["general", "bot", "bot-commands", "announcements"]

  /** The position of the first text channel, in guild order, whose name is one of
      `NoticeChannelNames`; none when there is no such channel. */
  function NoticeChannel(channels: seq<string>): (r: Option<nat>)
    ensures r.Some? ==> r.value < |channels| && channels[r.value] in NoticeChannelNames
    ensures r.Some? ==> forall j :: 0 <= j < r.value ==> channels[j] !in NoticeChannelNames
    ensures r.None? ==> forall j :: 0 <= j < |channels| ==> channels[j] !in NoticeChannelNames
  {
    FindFirst(channels, (c: string) => c in NoticeChannelNames)
  }
}
