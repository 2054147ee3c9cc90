# TrabajoBot core, modelled in Dafny

TrabajoBot is a Discord bot built as a set of cogs (extensions). This project models four parts of it as pure functions over immutable values and proves their contracts:

- **The pickle-size game** (`cogs/pickle.py`):
  - The store layer `PickleData`. It keeps two tables: the per-user `pickle_sizes` and the append-only `pickle_history`. It has four calls, each wrapped in the same bounded retry loop: at most three attempts, and only a CockroachDB transaction-restart conflict is retried.
  - The fetch-or-roll rule of `/pickle` and its message table.
  - The rank numbering of `/pickleboard`.
  - The "best month" of `/picklegraph`.
  - The hourly `monthly_reset` task. It archives sizes into the history, empties the sizes table, and picks one channel per guild for the notice.
- **The help cog** (`cogs/help.py`):
  - Resolving `/help item` to a category (cog) or to the category that owns a command.
  - The autocomplete suggestions.
  - The contents of the category page and the per-cog command page.
- **The birthdays cog** (`cogs/birthdays.py`):
  - Parsing `YYYY-MM-DD` the way CPython's `strptime` does.
  - The upsert of `/setbirthday`.
  - `/mybirthday`.
  - The date-ordered, member-filtered `/birthdaylist`.
- **Extension loading** in `setup_hook` (`main.py`): which files of `cogs/` are loaded, the `cogs.<stem>` name each one gets, and the order of the outcomes.

## How the model is built

- **Tables** are sequences of rows in storage order. A primary key is the invariant `UniqueKeys`. `INSERT … ON CONFLICT DO UPDATE` is `Tables.Upsert`.
- **Sorting.** `ORDER BY` and Python's `sorted` both use one insertion sort, `Ordering.Sort`. Its order is a total preorder given as a function.
- **The world outside is passed in as parameters:**
  - The clock reading `now`.
  - The random roll.
  - Discord's user and member lookups.
  - Failures of the database. For the pickle store, `faults(i, statement)` is the error a statement raises on attempt `i`.
- **The retry loop** is a recursive reference definition, `Retry.Retrying`, and a loop method, `Retry.RunWithRetries`, proved equal to it.
- **Dates and timestamps** are proleptic Gregorian dates plus microseconds since midnight. `ts - INTERVAL 'n MONTHS'` moves back `n` months and clamps the day to the end of the month, as PostgreSQL and CockroachDB do.

Two behaviours of the code that are easy to miss:

- **`set_size` commits its two statements separately.** The upsert and the history insert each run with `commit=True`, so no transaction spans both. A failing insert therefore leaves the new size in place. `PickleStore.SetSize` models exactly that:
  - on failure the user's size is either the old one or the new one;
  - on failure the history is unchanged.
- **Help autocomplete suggests categories only.** Its docstring speaks of categories and commands, but the command suggestions are commented out, so `Help.Autocomplete` suggests cog names alone.

## Model

| member | source | states |
|---|---|---|
| Text.ContainsIffOccurs | cogs/help.py:49 | Python's `needle in haystack` holds exactly when the needle occurs at some position of the haystack |
| Ordering.Sort | cogs/help.py:152-155 | the result is a permutation of the input (same multiset, same length), and it is ordered whenever the order given is a total preorder |
| Ordering.SortMembers | cogs/help.py:152-155 | sorting neither adds nor loses an element |
| Tables.Lookup | cogs/pickle.py:67-69 | finds no row exactly when no row has the key, and a row found is a row of the table |
| Tables.LookupUnique | cogs/birthdays.py:30-33 | under the primary key, a row (k, v) is stored exactly when the lookup of k gives v |
| Tables.Upsert | cogs/pickle.py:84-89 | afterwards the key maps to the new value, every other key reads as before, no row appears except the key's own, and the primary key still holds |
| Tables.UpsertIdempotent | cogs/pickle.py:84-89 | repeating the upsert, as a retried attempt does, changes nothing more |
| Tables.FindFirst | cogs/help.py:121-125 | the position returned satisfies the test and no earlier one does; none is returned only when no element satisfies it |
| Tables.Filter | cogs/help.py:179-182 | keeps exactly the elements that pass the test |
| Tables.FilterCounts | cogs/help.py:179-182 | each passing element is kept as often as it occurs, and failing ones never |
| Tables.FilterAppend | main.py:41-43 | filtering a listing that has one more entry adds that entry at the end exactly when it passes |
| Calendar.DaysInMonth | cogs/birthdays.py:51 | every month has 28 to 31 days, and February has 29 exactly in leap years |
| Calendar.Hour | cogs/pickle.py:204 | the hour is 0 to 23 and the time of day lies within it |
| Calendar.MinusMonths | cogs/pickle.py:135 | the result is a valid timestamp exactly n months earlier by month count, at the same time of day, with the day kept or clamped to the last day of the month reached |
| Calendar.MinusMonthsIsEarlier | cogs/pickle.py:135 | a window of a positive number of months starts strictly before now, and one of zero months starts at now |
| Retry.ConflictIffMarkerOccurs | cogs/pickle.py:71 | an error is a conflict exactly when the marker text occurs at some position of its message |
| Retry.Retrying | cogs/pickle.py:65-74 | at most three attempts are made; only conflicts are retried; a conflict is re-raised only on the last attempt |
| Retry.RunWithRetries | cogs/pickle.py:78-102 | the while loop with its retry counter computes the same run as the reference policy |
| Retry.RetryingRetries | cogs/pickle.py:99-101 | a conflict below the last attempt is retried from the state it left, its error recorded after the earlier ones |
| Retry.ReadOnlyRetry | cogs/pickle.py:65-69 | for a read, the tables are unchanged and the outcome is that of the last attempt made |
| Retry.RetryEstablishes | cogs/pickle.py:81-102 | a property that every attempt establishes, and that a failed attempt leaves ready for the next one, holds at the end of the whole loop |
| Retry.SettledAttemptIsFinal | cogs/pickle.py:70-74 | a success, an error that is not a conflict, or the last attempt ends the loop with that attempt's own outcome |
| PickleStore.AppendKeepsHistoryKeys | cogs/pickle.py:50-55 | appending a history row whose (user, time) is new keeps the history's primary key |
| PickleStore.GetSize | cogs/pickle.py:60-74 | a value returned is the user's stored size, or none when the user has no row; an error raised is one that some allowed attempt raised; a fault-free first attempt succeeds; a first error that is not a conflict is raised at once, and a first conflict followed by a clean second attempt succeeds |
| PickleStore.SetSizeAttempt | cogs/pickle.py:83-95 | an upsert error raises with nothing written; otherwise the upsert is committed whatever the insert does; the attempt succeeds exactly when neither statement fails and the history key is new, and only then is a history row appended |
| PickleStore.SetSizeFirstAttempt | cogs/pickle.py:96-102 | a first upsert error that is not a conflict is raised at once with nothing written; a conflict is retried, and a clean second attempt succeeds |
| PickleStore.SetSizeAttemptEffect | cogs/pickle.py:83-95 | one attempt either commits the upsert and the history row, or fails and leaves the history unchanged, with the sizes either unchanged or upserted |
| PickleStore.SetSizeRetries | cogs/pickle.py:81-102 | the whole retried run ends as one such attempt does |
| PickleStore.SetSize | cogs/pickle.py:76-102 | on success the user's size is the new one and exactly one history row is appended; on failure the history is unchanged and the size is the old or the new one; other users are untouched; both primary keys are kept; with no faults and no clashing history key it succeeds; a first upsert error that is not a conflict is raised at once with nothing written, and a first conflict followed by a clean second attempt succeeds after one retry |
| PickleStore.Leaderboard | cogs/pickle.py:111-115 | the rows are ordered by size, largest first, and are exactly the (user, size) pairs of the table |
| PickleStore.LeaderboardListsCurrentSizes | cogs/pickle.py:111-117 | a (user, size) pair is on the leaderboard exactly when it is that user's stored size |
| PickleStore.GetLeaderboard | cogs/pickle.py:104-122 | a value returned is the ordered leaderboard of the current table; an error raised is one that some attempt raised; a fault-free first attempt succeeds; a first error that is not a conflict is raised at once, and a first conflict followed by a clean second attempt succeeds |
| PickleStore.HistoryWindow | cogs/pickle.py:131-136 | every history row of the user recorded strictly after the cutoff, each as often as it is stored and no other row, ordered oldest first |
| PickleStore.PointDatesAscend | cogs/pickle.py:131-137 | rows in recording order give (date, size) pairs whose dates never decrease |
| PickleStore.GetHistory | cogs/pickle.py:124-144 | a value returned is one (date, size) pair per history row of the user recorded after `now` minus `months` months, each row as often as it is stored and no other, with dates ascending; errors come from the attempts; a fault-free first attempt succeeds; a first error that is not a conflict is raised at once, and a first conflict followed by a clean second attempt succeeds |
| PickleCog.SizeMessageFor | cogs/pickle.py:253-287 | exactly one message per case: the bot's id is checked before Steve's and Steve's before Lior's; Steve's new size is praised above 25; Lior's thresholds are below 10 when a member is named and above 10 when no member is named, whoever runs the command; the size shown is the size given |
| PickleCog.LiorTenIsSplit | cogs/pickle.py:275-283 | size 10 counts as lucky when a member is named and as small when no member is named |
| PickleCog.Target | cogs/pickle.py:292 | the named member when one is given, otherwise the user who ran the command |
| PickleCog.MentionedBy | cogs/pickle.py:293 | the user who ran the command exactly when a member is named, and none otherwise |
| PickleCog.LiorNamingLiorIsMentioned | cogs/pickle.py:274-293 | naming oneself still counts as naming a member: Lior naming Lior at size 10 gets the mentioned reply, and Lior naming no one gets the small one |
| PickleCog.PickleCommand | cogs/pickle.py:290-313 | an existing size is shown and nothing changes; a failed read writes nothing; for a user with no size the roll is stored, appended to the history and shown; the size in the reply is the stored one; the message is the one for the target, mentioner and newness; the apology is sent exactly when the read fails, or when the read finds no size and storing the roll fails; a failure appends no history and leaves the target with the old size or the roll; other users are untouched; the primary keys are kept |
| PickleCog.ExistingSizeIsKept | cogs/pickle.py:296-302 | however often `/pickle` runs, a user who already has a size keeps it and the store does not change |
| PickleCog.RankLines | cogs/pickle.py:327-330 | each line's rank is its 1-based position in the whole leaderboard and carries that entry's found name and size; ranks increase down the list |
| PickleCog.RankLinesComplete | cogs/pickle.py:327-330 | every entry whose user is found has its line, whatever happened to the entries above it |
| PickleCog.RankLinesFollowLeaderboard | cogs/pickle.py:114 | sizes never increase down the board |
| PickleCog.Pickleboard | cogs/pickle.py:316-345 | "no sizes yet" exactly when the read succeeds on an empty table; a board gives the rank lines of the leaderboard when no lookup failed; any store error or lookup error gives the apology |
| PickleCog.FirstMaxIndex | cogs/pickle.py:162 | the index holds a largest size and no earlier index does |
| PickleCog.BestPoint | cogs/pickle.py:179-180 | none only for an empty history; otherwise the earliest point of largest size |
| PickleCog.PickleGraph | cogs/pickle.py:353-379 | a store error gives the apology, an empty window gives the no-history reply, and otherwise the best month and size are those of the earliest largest point |
| PickleCog.ArchiveRows | cogs/pickle.py:207-217 | every user with a size and no history row this month gets one row with the current size, stamped now; no other row is inserted; no user gets two |
| PickleCog.ArchiveKeepsHistoryKeys | cogs/pickle.py:207-217 | the archive never breaks the history table's primary key |
| PickleCog.NothingLeftToArchive | cogs/pickle.py:211-216 | once every user with a size has a row this month, the archive inserts nothing |
| PickleCog.ArchiveIdempotent | cogs/pickle.py:211-216 | a second archive in the same month inserts nothing |
| PickleCog.ResetHourIsFirstHourOfMonth | cogs/pickle.py:204 | the reset hour is exactly day 1 from midnight up to, not including, one o'clock |
| PickleCog.MonthlyReset | cogs/pickle.py:199-245 | nothing happens outside 00:00 to 01:00 on the first of the month, or when the archive fails; otherwise the archive rows are appended, and the sizes are emptied unless the truncate fails; the primary keys are kept |
| PickleCog.RepeatedResetArchivesOnce | cogs/pickle.py:204-220 | a second firing in the same month adds no history, whether or not the first truncate succeeded |
| PickleCog.NoticeChannel | cogs/pickle.py:226-229 | the channel chosen is the first in guild order named general, bot, bot-commands or announcements; none only when there is no such channel |
| Help.FriendlyName | cogs/help.py:48 | the cog's `cog_name` when it has one, otherwise its registry key |
| Help.CogDescription | cogs/help.py:158-159 | the cog's `cog_description` when it has one, even an empty one, otherwise "No description." |
| Help.Normalize | cogs/help.py:89-96 | the item is lower-cased, and "info" and "mod" expand to "information" and "moderation" |
| Help.MatchCogByName | cogs/help.py:116-125 | the first cog in registration order whose lower-cased friendly name equals the input; none only when no cog's does |
| Help.MatchCogByCommand | cogs/help.py:127-136 | the binding of the first command whose lower-cased qualified name equals the input; none when no command matches |
| Help.FirstCommandDecides | cogs/help.py:132-135 | the first matching command decides, even when it has no cog and a later command of that name has one |
| Help.CategoryFields | cogs/help.py:151-164 | one field per cog (a permutation of the cogs' fields), ordered by lower-cased friendly name |
| Help.CategoryFieldsListEveryCog | cogs/help.py:157-164 | a field is on the category page exactly when it is some cog's name and description |
| Help.CommandsOf | cogs/help.py:179-188 | exactly the commands bound to the cog, each as often as the tree lists it, ordered by qualified name |
| Help.NoCommandsIffUnbound | cogs/help.py:179-185 | a cog's command list is empty exactly when no command of the tree is bound to it |
| Help.CogPageFor | cogs/help.py:167-194 | the title and description are the cog's; the page shows the placeholder exactly when no command is bound to the cog, and otherwise one field per bound command in name order |
| Help.HelpCommand | cogs/help.py:72-111 | no or empty item gives all categories; otherwise a category match wins over a command match; the not-found reply repeats the item as typed |
| Help.HelpIgnoresCase | cogs/help.py:88-89 | an item and its lower-cased form reach the same page, or miss together |
| Help.CategoryBeatsCommand | cogs/help.py:98-102 | when a cog's name matches, its page is shown without consulting the commands |
| Help.Suggestions | cogs/help.py:43-52 | exactly the friendly names of the cogs whose lower-cased name contains the lower-cased input |
| Help.SuggestionsAppend | cogs/help.py:46-52 | one more registered cog adds its name at the end exactly when it matches, so suggestions are one per matching cog, in registration order |
| Help.Autocomplete | cogs/help.py:37-64 | at most 25 suggestions: the first matches in registration order, and all of them when there are fewer than 25 |
| Help.EmptyInputSuggestsAll | cogs/help.py:44-49 | an empty input suggests every category in registration order |
| DateText.ParseYear | cogs/birthdays.py:51 | a year read from four digits lies in 0 to 9999 |
| DateText.ParseMonth | cogs/birthdays.py:51 | a month read lies in 1 to 12 |
| DateText.DayAlternative | cogs/birthdays.py:51 | the alternative found takes one or two characters and reads a day from 1 to 31 |
| DateText.ParseDay | cogs/birthdays.py:51 | a day read lies in 1 to 31 |
| DateText.SplitMonth | cogs/birthdays.py:51 | a month split off lies in 1 to 12 |
| DateText.ParseDate | cogs/birthdays.py:51 | every date returned is a real calendar date with a year from 1 to 9999 |
| DateText.YearRoundTrip | cogs/birthdays.py:51 | four characters read as year y exactly when they are y written with four digits |
| DateText.MonthRoundTrip | cogs/birthdays.py:51 | a text reads as month m exactly when it is one of m's spellings: two digits, or one digit below 10 |
| DateText.DayRoundTrip | cogs/birthdays.py:51 | a text reads as day d exactly when it is one of d's spellings: two digits, or for days below 10 one digit or a space and a digit |
| DateText.SplitMonthRoundTrip | cogs/birthdays.py:51 | the month field splits off exactly when the text is a spelling of the month, a `-`, and the rest |
| DateText.ParseDateAcceptsExactlySpellings | cogs/birthdays.py:51 | the parser accepts exactly the spellings of valid dates with years 1 to 9999, and returns the date spelled |
| DateText.ParsedTextSpellsDate | cogs/birthdays.py:51 | text the parser accepts is a spelling of the valid date it returns |
| DateText.SpelledDateParses | cogs/birthdays.py:51 | every spelling of a valid date with a year from 1 to 9999 parses to that date |
| DateText.IsoFormatRoundTrip | cogs/birthdays.py:67 | the canonical `YYYY-MM-DD` form of a date parses back to that date |
| DateText.LeapDayExample | cogs/birthdays.py:51 | 2024-02-29 is accepted |
| DateText.UnpaddedExample | cogs/birthdays.py:51 | 2024-1-5 is accepted as 5 January 2024 |
| DateText.SpacePaddedDayExample | cogs/birthdays.py:51 | a day written as a space and a digit is accepted |
| DateText.RefusedDatesExample | cogs/birthdays.py:51-55 | 29 February of a common year and year 0 are refused |
| DateText.RefusedFieldsExample | cogs/birthdays.py:51-55 | day 32 and month 13 are refused |
| DateText.RefusedShapesExample | cogs/birthdays.py:51-55 | a two-digit year and a trailing space are refused |
| Birthdays.SetBirthday | cogs/birthdays.py:43-70 | text that does not parse gives the format reply and changes nothing; a failed write changes nothing; otherwise the caller's birthday is the parsed date and no one else's changes |
| Birthdays.SetBirthdayAcceptsIsoText | cogs/birthdays.py:41-51 | a birthday typed in the canonical form is stored as that date |
| Birthdays.MyBirthday | cogs/birthdays.py:73-92 | the caller's stored date when there is one, "no birthday" exactly when there is none, and the error reply exactly on a store error |
| Birthdays.SetThenGet | cogs/birthdays.py:58-86 | after a successful set, `/mybirthday` shows the date just set, whatever was stored before |
| Birthdays.BirthdayList | cogs/birthdays.py:95-125 | an empty table and a table with no members' birthdays get different replies; otherwise the members' birthdays, each as stored, ordered by date |
| Tables.FilterKeepsOrder | cogs/birthdays.py:111-117 | dropping elements, such as the birthdays of non-members, keeps a sorted sequence sorted |
| Extensions.IsCogFileByCharacters | main.py:43 | a file is loaded exactly when it has at least three characters, ends in `.py` and does not start with `_` |
| Extensions.ExtensionName | main.py:44 | the name starts with `cogs.`, and it is as long as the file name with `.py` replaced by `cogs.` |
| Extensions.ExtensionNameRoundTrip | main.py:44 | the file can be recovered from its extension name |
| Extensions.ExtensionNameInjective | main.py:44 | no two cog files are loaded under the same name |
| Extensions.CogFiles | main.py:41-43 | exactly the listed files that end in `.py` and do not start with `_` |
| Extensions.LoadEventsStep | main.py:41-50 | one more listed file adds its load outcome at the end exactly when it is a cog file |
| Extensions.SetupHook | main.py:41-53 | one load outcome per cog file, in listing order, under its `cogs.` name; a failure is logged and the loop goes on; the tree is synced once, at the end |

## Left out

- Discord I/O is not modelled. This covers embeds, colours, emoji, mentions, deferring and ephemeral flags, and sending failures. Replies are values naming which reply is sent and the data it shows.
- The graph image (matplotlib) and the average (`np.mean`, rounded) on `/picklegraph` are not modelled, because they are plotting and floating point. The best month is modelled as the month number rather than its `%b` abbreviation.
- `reset_pickles` (the admin command that truncates both tables) is left out. It is a single unconditional statement outside the game's rules.
- Sending the reset notice, and the exception handling around it, are left out. Only the channel choice is modelled. The notice goes out only after both statements succeed.
- The connection handling of db.py is not part of this model: connecting, a missing cursor (on which `execute` silently does nothing), and closing. Rollback is not modelled either; no rollback is issued between retries. The fault oracle stands for everything a statement can raise.
- The logger is not modelled.
- Time zones are not modelled. `datetime.now()` in the reset loop and `NOW()`/`CURRENT_TIMESTAMP` in the database are taken as the same clock reading `now`. The clock does not advance between the attempts of one call.
- The `tasks.loop(hours=1)` scheduling and `before_loop` are not modelled. `PickleCog.MonthlyReset` is one firing at a given time.
- `Text.Lower` lower-cases ASCII letters only. Python's `str.lower` also maps other Unicode letters.
- `DateText.ParseDate` accepts ASCII digits only. The `\d` of Python's regular expressions also matches other Unicode decimal digits, which `int()` then reads.
- Ordering.Sort: its contract does not state stability. Python's `sorted` is stable, and SQL `ORDER BY` leaves ties in an unspecified order. The model sorts stably, but nothing proved depends on the order of ties.
- Birthdays.BirthdayList: ties between equal dates are not stated. They come out in an order the database chooses.
- Help.MatchCogByCommand: a command's binding is modelled as the cog value it is bound to, and `cmd.binding is cog` as equality of those values. Cog registry keys are unique, so no two registered cogs are equal values.
- Help.Autocomplete: the commented-out command suggestions are not modelled.
- The other cogs (music, fun, info, moderation, admin) and the wavelink connection in `setup_hook` are not part of this model.
- DateText.ParseYear: its own contract states only the range of the year read. The exact texts accepted are stated by DateText.YearRoundTrip.
- DateText.ParseMonth: its own contract states only the range. The exact texts accepted are stated by DateText.MonthRoundTrip.
- DateText.DayAlternative: its own contract states only how much is taken and the range read. What the whole day field accepts is stated by DateText.DayRoundTrip.
- DateText.ParseDay: its own contract states only the range. The exact texts accepted are stated by DateText.DayRoundTrip.
- DateText.SplitMonth: its own contract states only the range. The split itself is stated by DateText.SplitMonthRoundTrip.
- DateText.ParseDate: its own contract states only that a result is a valid date. The exact texts accepted, and the date read from each, are stated by DateText.ParseDateAcceptsExactlySpellings.
