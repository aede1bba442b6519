# Problem-of-the-day bot: a verified model of its bookkeeping

The bot runs a "problem of the day" (POTD) for a Discord server on top of the
Codeforces judge. It does the following:

- keeps a local catalog of judge contests and problems, and draws each day's
  problem from the unused ones at that weekday's target rating;
- keeps one true/false "solved" column per POTD day for every registered
  member;
- congratulates members who solve today's problem;
- ranks members by current streak and by total solves;
- lets members register their judge handle, either themselves or through an
  admin.

This project models that bookkeeping in Dafny:

- The relational store (`database.py`) is an in-memory class with four tables.
- The judge client (`cf_api.py`) takes the judge's answers as values.
- The decision logic of `main.py` is modelled against both.

## Modules

Each module is in one file.

- `common.dfy` (`Common`): shared helpers.
  - `Option` and `Fetch` (a `[True, value]` / `[False, message]` pair).
  - An order-keeping `Filter`.
  - ASCII lower-casing and substring search.
  - Decimal rendering of integers.
- `store.dfy` (`Store`): the `Database` class with its tables `handles`, `problems`, `contests` and `potds`.
  - The per-day `solved_<date>` columns of the handles table are two things together:
    - the `columns` field, which holds their dates in creation order;
    - a `solved` flag sequence in every handle row, aligned with `columns` by position.
  - Queries are functions with `reads this`. Updates are methods with `modifies this`.
  - `Valid()` keeps these invariants:
    - every row has one flag per column;
    - no date names two columns;
    - every POTD date has its column.
- `judge_client.dfy` (`JudgeClient`): the client in `cf_api.py`.
  - The retry loop of `api_response` runs over a sequence of answers, one per attempt.
  - Also the classification done by `check_handle`, `get_rating` and `get_first_name`.
  - The URL and normalisation of `get_user_problems`.
- `catalog.dfy` (`Catalog`): `is_non_standard` and `update_problemset`.
- `selection.dfy` (`Selection`): `potd_difficulties`, `find_problem` and the store part of `select_potd`.
- `solves.dfy` (`SolveTracking`): `check_solved` and `update_solvers`.
  - `Sweep` is the reference definition of the update loop. It returns the new handle rows and the members congratulated, in order.
- `leaderboard.dfy` (`Leaderboard`): the streak and solve counts, the sort, the places and `format_number`.
- `registration.dfy` (`Registration`): `has_admin_privilege` and the checks of `identify_handle`, `set_handle` and `remove_handle`.
  - Each command's checks are a decision function on the stored rows and the judge's answers, taken in the source's order. The command method applies the decision to the store.

Dates are day numbers. The weekday (Monday = 0) is a parameter. The random
challenge string is a parameter. The judge's answers are parameters: one per
attempt for `api_response`, and per handle for the submission fetch.

## Model

| member | source | states |
|---|---|---|
| Store.Database.constructor | database.py:11-15 | a new store has four empty tables and no flag columns, and satisfies the column invariant |
| Store.Database.GetHandle | database.py:62-76 | None exactly when no row has that guild and member; otherwise a handle held by a row of that member |
| Store.FirstHandle | database.py:62-76 | `fetchone` semantics: the handle of the first row of that guild and member, None iff there is none |
| Store.Database.AddHandle | database.py:78-89 | appends one row with a false flag for every existing column; nothing else changes; when the member had no row, `GetHandle` then returns the new handle |
| Store.AddHandleThenGet | database.py:62-89 | appending a row for a member without one makes that row the answer of the handle query |
| Store.Database.GetAllHandles | database.py:91-102 | exactly the rows of that guild (every row when no guild is given), in table order |
| Store.Database.RemoveHandle | database.py:104-115 | deletes exactly the rows of that guild and member, keeps all other rows in order; the member's handle is then unset |
| Store.RemoveKeepsOthers | database.py:104-115 | the kept rows are exactly the rows not owned by that member, and none of them is owned by the member |
| Store.Database.GetProblems | database.py:117-139 | without a key (or an empty one) every problem in order, without its tags column; with a key `contest/index`, exactly the problems whose decimal id is the part before the first `/` and whose index is the next part |
| Store.SplitKey | database.py:131 | the two halves are the text before the first `/` and the text up to the next `/` or the end, neither holding a `/` |
| Store.Database.GetContestsId | database.py:141-150 | the stored contest ids, one per row, in order |
| Store.Database.AddProblem | database.py:168-179 | appends one problem row without tags; nothing else changes |
| Store.Database.AddContest | database.py:257-269 | appends one contest row; nothing else changes |
| Store.Database.AddPotd | database.py:181-202 | adds today's column with a false flag to every handle row and appends one POTD row dated today; `GetPotd(today)` then returns that problem |
| Store.AddFlagColumn | database.py:182-189 | every handle row keeps its fields and gains exactly one trailing false flag |
| Store.Database.GetPotd | database.py:204-219 | None iff no POTD row is dated today; otherwise the id, index and name of the last row dated today |
| Store.LastPotdOn | database.py:204-219 | the last row with that date wins: no later row carries the date |
| Store.Database.CheckUserPotd | database.py:221-231 | the newest flag of the first row holding that handle |
| Store.Database.SetUserPotd | database.py:233-243 | today's flag becomes true on every row with that handle; other rows, other columns and other tables are unchanged |
| Store.MarkSolved | database.py:233-243 | row by row: rows with the handle get the flag at that column set, all others are unchanged |
| Store.Database.SetUsed | database.py:245-255 | `used` becomes true on exactly the rows matching id, index and name; no flag is ever cleared |
| Store.MarkUsedOnlyRaises | database.py:245-255 | marking never clears `used` and changes no other field of any row |
| Store.ColumnIndex | database.py:233-243 | the position of the first column named by that date |
| JudgeClient.Classify | cf_api.py:22-36 | an attempt is retried iff it is an HTTP 503 or a FAILED answer whose lower-cased comment contains "limit exceeded"; a thrown error or a FAILED answer without a comment ends the call; anything else is returned unchanged |
| JudgeClient.ApiResponse | cf_api.py:14-40 | the loop returns `Outcome(replies, 0)` after 1 to 5 attempts, every attempt but the last being a rate-limit answer, and stops early only on an answer that is not one |
| JudgeClient.OutcomeSkipsThrottled | cf_api.py:20-36 | rate-limit answers only pass the call on to the next attempt |
| JudgeClient.FirstSettledIsReturned | cf_api.py:30-36 | the first answer that is not a rate-limit failure is the result |
| JudgeClient.RaisedYieldsNone | cf_api.py:17-40 | an exception before any settled answer makes the result None, whether the request or decoder threw or a FAILED answer had no comment to read |
| JudgeClient.ExhaustedReturnsLastRateLimit | cf_api.py:37-38 | five rate-limit answers in a row: the fifth is returned, not None |
| JudgeClient.RateLimitedResultMeansExhausted | cf_api.py:20-38 | conversely, a rate-limit result means every attempt from then on was rate-limited |
| JudgeClient.CheckHandle | cf_api.py:42-52 | `[False, "Codeforces API Error"]` for a failed call, `[False, comment]` for a non-OK status, `[True, result[0]]` otherwise |
| JudgeClient.ThrottledLookupReportsComment | cf_api.py:37-52 | a handle lookup throttled five times reports the rate-limit comment (for a 503, "limit exceeded"), not the API error |
| JudgeClient.GetRating | cf_api.py:111-121 | returns None iff the call failed; raises iff an answer came back without a first user (KeyError when it has no `result`, as a FAILED answer has); otherwise returns the user's rating, or 0 for an unrated user |
| JudgeClient.GetFirstName | cf_api.py:123-128 | raises iff an answer came back without a first user (KeyError when it has no `result`); returns the first name iff the answer holds a first user who has one, and None otherwise |
| JudgeClient.ThrottledReadBackRaises | cf_api.py:14-128 | after five rate-limit answers whose last has no `result` (always so for HTTP 503), both get_first_name and get_rating raise KeyError rather than return None |
| JudgeClient.UserStatusUrl | cf_api.py:77-79 | the base address plus handle, followed by `&from=1&count=N` iff the count is present and non-zero |
| JudgeClient.NormaliseSubmissions | cf_api.py:90-107 | the loop builds exactly `Normalised(result)` |
| JudgeClient.NormalisedMembers | cf_api.py:90-107 | a record is kept iff it comes from a submission whose problem has a rating; its fields, verdict included (absent stays None), are carried over |
| JudgeClient.NormalisedAppend | cf_api.py:90-107 | normalisation preserves order: it distributes over concatenation |
| JudgeClient.NormalisedAllRated | cf_api.py:90-107 | when every problem is rated, nothing is dropped and the records align one to one |
| JudgeClient.GetUserProblems | cf_api.py:74-109 | `[False, "CF API Error"]` for a failed call, `[False, comment]` for a non-OK status, `[False, "'result'"]` (the KeyError's text) for an OK answer without a result, otherwise exactly the normalised records |
| Catalog.IsNonStandard | main.py:241-260 | true iff the lower-cased name contains one of the thirteen markers |
| Catalog.NonStandardIgnoresCase | main.py:241-260 | names equal up to case are classified alike |
| Catalog.AprilFoolsIsNonStandard | main.py:241-260 | an April Fools round is non-standard |
| Catalog.CapitalAprilFoolsIsNonStandard | main.py:241-260 | the same round written in capitals is non-standard too |
| Catalog.Names | main.py:273-274 | the id-to-name mapping covers exactly the fetched contest ids |
| Catalog.NamesLastWins | main.py:273-274 | for a repeated id the later entry wins: an id maps to the name of the last entry carrying it |
| Catalog.NewContestsExactly | main.py:273-281 | a contest row is inserted iff its id was not stored when the sync began, its phase is FINISHED and its name is standard |
| Catalog.NewProblemsExactly | main.py:283-298 | a problem row is inserted iff its contest is in the mapping with a standard name, it is rated, and its contest id is not among the stored problems' ids; it is inserted unused and without tags |
| Catalog.StoredContestBlocksAllItsProblems | main.py:265-288 | once any problem of a contest is stored, no problem of that contest is imported again, whatever its index |
| Catalog.NonStandardContestContributesNothing | main.py:283-287 | no problem of a contest with a non-standard fetched name is imported |
| Catalog.ImportContests | main.py:269-281 | the contest loop: the mapping covers every fetched contest, the last name winning for a repeated id; exactly the admitted contests are appended in order and counted |
| Catalog.ImportProblems | main.py:283-298 | the problem loop: exactly the admitted problems are appended in order, unused, and counted |
| Catalog.UpdateProblemset | main.py:263-298 | the store gains exactly the admitted contests and problems, in fetched order, judged against the ids stored before the sync; the two counters are their numbers; handles and POTDs are untouched |
| Selection.Options | main.py:305 | exactly the unused catalog problems of that rating |
| Selection.FindProblem | main.py:301-310 | a picked problem is in the catalog, unused and of that rating; the exhaustion message `Not enough problems with rating r left!` comes iff there is no such problem |
| Selection.SelectPotd | main.py:313-322 | with a problem left: today's column and POTD row are added for a problem of the weekday's rating from the table `800, 1200, 900, 1300, 1000, 1600, 1400` (Monday first), and that problem is marked used; otherwise the store is unchanged |
| Selection.ChosenProblemLeavesThePool | main.py:321-322 | after marking, the chosen problem's rows are no longer offered, whatever rating is asked for |
| SolveTracking.SolvedIn | main.py:349-353 | true iff some submission has that contest id and index and the verdict OK |
| SolveTracking.CheckSolved | main.py:346-354 | true iff the fetch succeeded and holds an accepted submission of the problem; a failed fetch counts as unsolved |
| SolveTracking.UpdateSolvers | main.py:357-374 | no POTD today: nothing changes and nobody is announced; otherwise the handle rows and the announcements are exactly `Sweep` over the guild's members |
| SolveTracking.CongratulateOne | main.py:362-366 | one member: today's flag is set on the member's handle rows and the member is announced exactly when they solved and their newest flag was false |
| SolveTracking.CongratulateSolvers | main.py:361-369 | the member loop produces exactly `Sweep`'s rows and announcements; the other tables are unchanged |
| SolveTracking.SweepChangesOnlyAnnouncedHandles | main.py:361-366 | a row's flag for today becomes true iff its handle was announced; every other row is unchanged |
| SolveTracking.SweepAnnouncesOnlyNewSolvers | main.py:361-366 | only guild members who solved today's problem and whose newest flag was false are announced |
| SolveTracking.SecondSweepAnnouncesNobody | main.py:357-369 | after one run every solver's newest flag is set, so a second run the same day that gets the same answers from the judge announces nobody |
| SolveTracking.NoSecondCongratulation | main.py:346-369 | with fresh answers from the judge on the second run of the day, nobody announced by the first run is announced again: a member is congratulated at most once a day |
| SolveTracking.SweepKeepsRaisedFlag | main.py:362-366 | a newest flag already true stays true through a run |
| SolveTracking.SweepSolversFlagged | main.py:362-366 | after a run, every member who solved has the newest flag set |
| SolveTracking.NothingToAnnounce | main.py:362-366 | when every solver's newest flag is already set, nobody is announced |
| SolveTracking.LastFlagUnderMark | database.py:221-243 | setting a flag never clears a newest flag, leaves other handles' newest flag alone, and sets the newest flag of that handle when the column is the newest |
| Leaderboard.TrailingTrue | main.py:413-421 | the length of the maximal run of true flags at the end |
| Leaderboard.Streak | main.py:413-421 | a false newest flag is skipped; the streak is the maximal run of true flags ending at the newest flag still counted |
| Leaderboard.StreakOf | main.py:412-422 | the backward loop with its continue and break computes `Streak` |
| Leaderboard.StreakExamples | main.py:413-421 | [T,F,T,T] gives 2, [T,F,T,F] gives 1, [T,T,F,F] gives 0 |
| Leaderboard.CountTrueIsMultiplicity | main.py:452-456 | the solve count is the number of true flags |
| Leaderboard.SolvesOf | main.py:452-456 | the backward summing loop computes that count |
| Leaderboard.StreakAtMostSolves | main.py:413-456 | a member's streak never exceeds their total solves |
| Leaderboard.StrLeTotal | main.py:423 | Python's string order is total |
| Leaderboard.StrLeTransitive | main.py:423 | Python's string order is transitive |
| Leaderboard.StrLeAntisymmetric | main.py:423 | Python's string order is antisymmetric |
| Leaderboard.SortDescending | main.py:423-424 | the pairs after `sort()` and `reverse()`: largest first by count, then by handle, and a permutation of the input |
| Leaderboard.SameHeadSameTail | main.py:423-424 | two descending arrangements of the same pairs start with the same pair and continue with the same pairs |
| Leaderboard.DescendingIsUnique | main.py:423-424 | any two descending permutations of the same pairs are equal, so the in-place sort's result is this one |
| Leaderboard.Place | main.py:425-429 | the place is the position of the first pair of its run of equal counts |
| Leaderboard.PlaceIsCompetitionRank | main.py:425-429 | on sorted pairs that place is one more than the number of strictly larger counts (competition ranking, 1,1,3,4) |
| Leaderboard.RenderBoard | main.py:425-437 | one line per pair, each with its place from the `curr_place` loop |
| Leaderboard.GroupKeepsDigits | main.py:384-404 | dropping the commas from the grouped number gives back its digits |
| Leaderboard.GroupCommaPlaces | main.py:384-404 | a comma stands exactly at every fourth position counted from the right, so the groups are threes |
| Leaderboard.FormatNumberDigits | main.py:384-404 | `format_number`'s text starts with `-` iff the number is negative; dropping the sign and the commas gives exactly the decimal digits of its magnitude |
| Leaderboard.FormatNumberGroups | main.py:384-404 | in `format_number`'s text, after the sign, a comma stands exactly at every fourth position from the right, so the digits come in groups of three |
| Leaderboard.FormatThousand | main.py:384-404 | 1000 is written "1,000" |
| Leaderboard.StandingLineStartsWithPlace | main.py:430-438 | a board line starts with the digits of its place, and the character after them is not a digit |
| Leaderboard.StandingLineEndsWithUnit | main.py:430-438 | a board line ends with a space and the unit word, with an `s` unless the count is exactly 1 |
| Leaderboard.StreakPairs | main.py:411-422 | one `[streak, handle]` pair per row, in row order |
| Leaderboard.SolvePairs | main.py:451-456 | one `[solved, handle]` pair per row, in row order |
| Leaderboard.RankedLines | main.py:423-437 | the lines of the sorted pairs, each with one plus the number of strictly larger counts as its place |
| Leaderboard.StreakLeaderboard | main.py:410-437 | the streak board of every stored row, ranked by competition places, in "day(s)" |
| Leaderboard.SolvesLeaderboard | main.py:449-476 | the solves board of every stored row, ranked by competition places, in "problem(s)" |
| Registration.HasAdminPrivilege | main.py:122-128 | true iff the caller may manage the guild or holds a role whose lower-cased name is "potd manager" |
| Registration.AdminRoleIgnoresCase | main.py:122-128 | "POTD MANAGER" and "potd manager" grant the privilege; an unrelated role does not |
| Registration.HandleHeld | main.py:85-86 | true iff some row of the guild holds that handle |
| Registration.IdentifyDecision | main.py:66-109 | a registration happens iff a handle is given, the author has no handle, the lookup succeeds, the canonical handle is free in the guild and the first name read back is the challenge; the command crashes, with get_first_name's exception, iff every earlier check passed and the read-back raised; an unrated user is registered with 0 and "unrated"; each refusal (missing argument, existing handle, failed lookup with the judge's message, handle in use, wrong first name) comes exactly when its check is the first to fail |
| Registration.ThrottledReadBackCrashesIdentify | main.py:66-98 | a member who passed every check but whose read-back was throttled five times by HTTP 503 is not refused: the command crashes with KeyError |
| Registration.SetHandleDecision | main.py:134-170 | a registration happens iff both arguments are given, the caller is an admin, the lookup succeeds, the member has no handle and the canonical handle is free; a non-admin is refused before the lookup; each refusal (missing argument, not admin, failed lookup with the judge's message, existing handle, handle in use) comes exactly when its check is the first to fail; the same defaults |
| Registration.IdentifyHandle | main.py:66-109 | the store gains the new row exactly on a registration and is otherwise unchanged, a crash included |
| Registration.SetHandle | main.py:134-171 | the store gains the new row exactly on a registration and is otherwise unchanged |
| Registration.AdmittedRowKeepsGuildUnique | main.py:70-161 | a row for a member without a handle, with a handle nobody in the guild holds, keeps the guild free of duplicate members and handles |
| Registration.IdentifyKeepsGuildUnique | main.py:66-109 | a registration through one identify_handle run, taken alone, keeps the guild free of duplicates |
| Registration.SetHandleKeepsGuildUnique | main.py:134-171 | a registration through set_handle keeps the guild free of duplicates |
| Registration.RemoveHandleCommand | main.py:220-238 | a non-admin is refused and nothing changes; an admin removes exactly the member's rows when the member has a handle, and reports it unset otherwise |

## Left out

- Discord: command decorators, replies, embeds, rank colours, the announcement channel, publishing, reactions and markdown escaping. Command outcomes are values (`CommandResult`, `Removal`, the `announced` rows and the leaderboard lines, which `"\n".join` would glue).
- Scheduling: the cron and interval jobs, the busy-wait while the hour is 23, and the 30-second wait before the first name is read back. The clock is a parameter (date and weekday).
- Randomness: the challenge token is a parameter.
- Selection.FindProblem: the `int(p.id * sqrt(p.id))` weights and the `random.choices` draw are floating point and random. Any unused problem of the rating may be picked, so the contract does not fix which one.
- HTTP and JSON: the session, the decoder and the one-second pause between attempts. Each attempt's answer is a `Reply` value. A body that is not a JSON object, or has no `status`, counts as a raised error.
- MySQL: connections, reconnects, cursors and the DDL of `make_tables`. The store compares the `id` column with the decimal text of the key as a plain string comparison. MySQL's type coercion and collation (case-insensitive handle comparison) are not modelled.
- `get_contest_name`, `get_contest_list`, `get_problem_list` and `get_user_info`: the first is unused by the core. The fetched lists are given to `UpdateProblemset` as values.
- Catalog.UpdateProblemset: a failed fetch makes the source iterate `False` and throw. The model takes the fetched lists, so this crash is not represented.
- The `get_handle`, `get_potd` and `update_potd` commands only format replies and call modelled members.
- The problem index is read as `.index` in `select_potd` and `update_solvers`, but the store's records name that field `rank`. On these named tuples `.index` is the tuple's `index` method, so reading it raises nothing. The model uses the intended field, `rank`, as the comment in `store.dfy` notes. As written the code behaves as follows:
  - `select_potd` calls `add_potd(index=…)`, but `add_potd`'s parameter is `rank`. The call raises TypeError before anything is stored, so no POTD is recorded and no problem is marked used.
  - `update_solvers` passes the bound method to `check_solved`, which compares each submission's index string with it. That comparison is always False, so nobody is flagged or congratulated.
- Selection.SelectPotd: with no problem of the weekday's rating left, the source fails reading `.id` off `False` after `find_problem`'s message. The model returns `Exhausted` with that message and leaves the store unchanged. That is what the store sees, since the crash comes before any write, but the exception itself is not represented.
- Store.Database.CheckUserPotd: when no row holds the handle, or there is no flag column, the source fails on `None[-1]` or reads another column. These cases are preconditions.
- Registration.RemoveHandleCommand: an admin naming no member makes the source fail on `member.id` after the "please specify" reply. This is a precondition.
- Store.Database.AddPotd and Selection.SelectPotd: a second POTD on the same day fails at `ALTER TABLE`. Both require that today has no column yet.
- Leaderboard.RankedLines: the in-place `sort()` and `reverse()` are modelled as a sorting function on values. `DescendingIsUnique` shows every correct sort gives the same sequence.
- Lower-casing is ASCII only. Python's full Unicode case mapping is not modelled.
- Judge answers are typed records. `get_user_problems` can also report `str(e)` for other missing fields; of these only a missing `result` is modelled.
- JudgeClient.CheckHandle: `result[0]` of an OK answer with an empty user list raises IndexError, and `response["comment"]` of an answer whose status is neither OK nor FAILED and has no comment raises KeyError. The precondition `CheckableUserInfo` excludes both. The judge answers a lookup of one handle with that user or with a FAILED answer carrying a comment, and api_response turns a FAILED answer without a comment into None.
- Registration.IdentifyDecision, Registration.IdentifyHandle, Registration.SetHandleDecision and Registration.SetHandle: they take the same `CheckableUserInfo` precondition on the lookup, so the two crashes of check_handle above are not represented. A crash of the first-name read-back is represented, as `Crashed`.
- JudgeClient.GetUserProblems: `response["comment"]` of an answer whose status is neither OK nor FAILED and has no comment raises KeyError outside the `try`. The precondition `CheckableSubmissions` excludes that case, for the same reason as for check_handle.
- Store.Database.GetProblems: a non-empty key without `/` makes `id.split('/')[1]` raise IndexError. The precondition requires a `/`. The core only calls get_problems without a key.
- Registration.IdentifyKeepsGuildUnique: the lemma covers one identify_handle run alone. The command checks the author's handle (main.py:70) and whether the handle is in use (main.py:86-89). Then it awaits the 30-second sleep and get_first_name (main.py:96-98) before `add_handle`. Another identify_handle or set_handle can complete in between, so commands interleaved during these waits can store a second row for a member or a handle held twice. The model decides and inserts in one step. set_handle does not await between its checks and `add_handle`, so `SetHandleKeepsGuildUnique` is not affected.
- Registration.HasHandle follows Python truthiness: a stored empty handle counts as "no handle". The uniqueness lemmas therefore assume every stored handle is non-empty.

## Notes on the code

- `update_problemset` reads the stored ids once, before either loop. In one sync, every rated problem of a new contest is imported. The id test only blocks contests whose problems were stored in an earlier sync. This is `Catalog.StoredContestBlocksAllItsProblems`.
- The streak skips only a false newest flag. So [T,F,T,F] gives 1.
- Tied counts share the place of the first of their run. This is competition ranking (1,1,3,4), not dense ranking.
- `check_user_potd` reads the last column of the row. `set_user_potd` writes the column named by today's date.
