# Quiz game server: a verified model

The quiz game is a Next.js application. Players register with a name and a roll
number, then answer five fixed challenges. Each correct answer earns 10 points,
and the fifth completes the game. A leaderboard ranks players: Completed before
everyone else, then more points, then faster time. An administrator starts,
stops and resets the game through a process-wide phase flag.

This project models the server side of that in Dafny:

- `wrappers.dfy`: the `Option` type.
- `digits.dfy`: decimal rendering of naturals and its inverse. It is used for
  record ids and for the time display.
- `user_store.dfy`: the player table (`UserTable`). It is a class over a
  sequence of records in creation order, with create, update and delete-all.
- `register_api.dfy`: `POST /api/register`.
- `game_phase.dfy`: the shared phase flag (`GameState`) and its three tests.
- `game_status_api.dfy`: `GET` and `POST /api/game-status`.
- `game_control_api.dfy`: `POST /api/game-control` (start, stop, reset).
- `submit_api.dfy`: the challenge catalog, answer checking and the reward
  update of `POST /api/submit`.
- `leaderboard_api.dfy`: elapsed seconds, the comparator, the sort, rank
  assignment of `GET /api/leaderboard`, and `DELETE`.
- `leaderboard_page.dfy`: `formatTime` of the leaderboard page.

Request handlers are module-level methods over the table and flag objects.
Each handler method states the new state, the response and the HTTP status
for every outcome. `GET /api/leaderboard` changes nothing, so it is the
function `Leaderboard` rather than a method. The catalog lookup, answer comparison, ranking and time formatting are functions,
and lemmas prove the properties the code promises about them.

Three behaviours of the server code are easy to miss, and the model keeps them:

- Answers are not trimmed before they are compared.
- A repeated correct answer pays again and re-stamps the finish time.
- The server accepts every phase change. Only the admin UI limits them.

The comparator skips the time tie-break when an elapsed value is 0 as well as
when it is null. With a zero time its "equal" relation is not transitive, the
comparator is inconsistent, and JavaScript leaves the order of `sort`
implementation-defined. So the model promises two different things:

- On every input, the leaderboard is a permutation of the store with ranks 1 to n.
- When every Completed player has a non-zero elapsed time, the comparator is
  consistent. Then the board is also sorted by it, and tied players keep their
  store order. `sort` is stable, and `StableSortUnique` proves that only one
  order is sorted and keeps every tie class in store order. The model's
  insertion sort returns that order, so in this case it agrees with any
  stable sort.

A zero time is reachable. `ZeroTimeConflict` shows that for a store of 5 s,
0 s and 3 s players, no order keeps the tied pairs in store order and is also
sorted. Whatever the engine returns breaks one or the other.

## Model

| member | source | states |
|---|---|---|
| Digits.NatToString | app/api/register/route.ts:17-22 | an id is a non-empty string of decimal digits with no leading zero; 0 renders as exactly "0" |
| Digits.NatToStringRoundTrip | app/api/register/route.ts:17-22 | reading the digits of a rendered counter back gives the counter |
| Digits.NatToStringInjective | app/api/register/route.ts:17-22 | distinct counters give distinct ids, so created ids never collide |
| UserStore.IndexOf | app/api/submit/route.ts:57-59 | `findUnique` by id: a found position holds that id; not found means no record has it |
| UserStore.UserTable.Create | app/api/register/route.ts:17-22 | appends exactly one record with the schema defaults, under an id no existing record has; earlier records unchanged |
| UserStore.UserTable.Update | app/api/submit/route.ts:68-77 | replaces the record at one position, keeping ids unique; every other record unchanged |
| UserStore.UserTable.DeleteAll | app/api/leaderboard/route.ts:68 | the table is empty afterwards |
| RegisterApi.Post | app/api/register/route.ts:6-32 | missing or empty name or roll gives 400 and no change; otherwise exactly one new record with the given name and roll and a fresh id is appended, whatever the game phase; well-formed records stay well formed |
| RegisterApi.RegisterTwice | app/api/register/route.ts:17-24 | registering the same name and roll twice adds two records with different ids |
| GamePhase.ParsePhase | app/api/game-status/route.ts:12 | accepts exactly "waiting", "active" and "stopped", and the phase it gives has that name |
| GamePhase.PhaseNameRoundTrip | app/lib/gameStatus.ts:2-6 | every phase's name parses back to that phase |
| GamePhase.GameState.constructor | app/lib/gameStatus.ts:2 | the initial phase is waiting |
| GamePhase.GameState.Set | app/lib/gameStatus.ts:6-8 | afterwards the phase is the one set, whatever it was before; setting it twice equals setting it once |
| GamePhase.ExactlyOnePhase | app/lib/gameStatus.ts:10-12 | exactly one of the active, waiting and stopped tests holds |
| GameStatusApi.Get | app/api/game-status/route.ts:4-6 | returns the current phase and changes nothing |
| GameStatusApi.Post | app/api/game-status/route.ts:8-22 | a valid name sets that phase from any phase and echoes it; any other value gives 400 and leaves the phase unchanged |
| GameControlApi.Post | app/api/game-control/route.ts:7-42 | start gives active and stop gives stopped, from any phase, with the store untouched; reset gives waiting and an empty store; any other action gives 400 and changes nothing; the reported status is the phase just set |
| SubmitApi.FindChallenge | app/api/submit/route.ts:46 | `find` by id: the challenge found has that id; none found means no challenge has it |
| SubmitApi.CatalogLookup | app/api/submit/route.ts:6-33 | the catalog holds exactly ids 1 to 5, id k at position k - 1 |
| SubmitApi.AnswerMatchesCharwise | app/api/submit/route.ts:54 | an answer matches iff it has the same length and agrees letter by letter up to case |
| SubmitApi.AnswerIgnoresCase | app/api/submit/route.ts:54 | lower-casing the submitted answer never changes the verdict |
| SubmitApi.NoTrimming | app/api/submit/route.ts:54 | a right answer with a leading or trailing space is wrong |
| SubmitApi.Evaluate | app/api/submit/route.ts:39-56 | missing fields (absent, empty or 0) iff 400 "Missing required fields"; an id outside 1 to 5 iff "Invalid challenge"; right iff the answer matches that challenge's answer |
| SubmitApi.Rewarded | app/api/submit/route.ts:68-77 | 10 more points; id, name, roll and start time kept; challenge 5 sets Completed and the finish time, others leave both alone |
| SubmitApi.RewardedWellFormed | app/api/submit/route.ts:68-77 | a reward keeps points a non-negative multiple of 10 and Completed paired with a finish time |
| SubmitApi.RepeatedReward | app/api/submit/route.ts:68-77 | the same reward twice adds 20 points, and on challenge 5 the finish time is the later one |
| SubmitApi.Post | app/api/submit/route.ts:35-94 | missing fields, invalid challenge and wrong answer change nothing, even for an unknown user; a right answer for an unknown id gives 404 and no change; otherwise only that record is rewarded, and `isComplete` is challenge = 5 |
| LeaderboardApi.RoundToSeconds | app/api/leaderboard/route.ts:24 | `Math.round(ms / 1000)`: the result is within half a second of the difference |
| LeaderboardApi.Elapsed | app/api/leaderboard/route.ts:21-26 | null exactly when the finish time is unset, otherwise the rounded seconds between start and finish |
| LeaderboardApi.WithTime | app/api/leaderboard/route.ts:21-26 | each record, in order, paired with its elapsed time |
| LeaderboardApi.CompareAntisymmetric | app/api/leaderboard/route.ts:29-46 | swapping the arguments negates the comparator |
| LeaderboardApi.CompareStrictThenWeak | app/api/leaderboard/route.ts:29-46 | strictly before then not after gives not after |
| LeaderboardApi.CompareStrictThenWeakTimed | app/api/leaderboard/route.ts:38-41 | with non-zero times, strictly before then not after gives strictly before |
| LeaderboardApi.CompareTiesTransitive | app/api/leaderboard/route.ts:38-45 | with non-zero times, ties are transitive |
| LeaderboardApi.TiesNotTransitive | app/api/leaderboard/route.ts:39 | with a zero time, two ties do not make a tie |
| LeaderboardApi.Insert | app/api/leaderboard/route.ts:29 | inserting adds exactly that row |
| LeaderboardApi.SortRows | app/api/leaderboard/route.ts:29 | the sort keeps length and is a permutation of its input |
| LeaderboardApi.InsertSorted | app/api/leaderboard/route.ts:29-46 | inserting into a sorted sequence keeps it sorted |
| LeaderboardApi.SortRowsSorted | app/api/leaderboard/route.ts:29-46 | when every Completed row has a non-zero time, the sort's output is ordered by the comparator |
| LeaderboardApi.InsertKeepsTies | app/api/leaderboard/route.ts:44-45 | with non-zero times, an inserted row lands after every row it ties with |
| LeaderboardApi.SortRowsStable | app/api/leaderboard/route.ts:44-45 | with non-zero times, rows that tie keep their store order |
| LeaderboardApi.SortedUnique | app/api/leaderboard/route.ts:29-46 | with non-zero times, two sorted permutations of each other that list every tie class in the same order are equal |
| LeaderboardApi.StableSortUnique | app/api/leaderboard/route.ts:29-46 | with non-zero times, every order a stable `sort` may return (sorted, each tie class in store order) is the model's order |
| LeaderboardApi.ZeroElapsedReachable | app/api/leaderboard/route.ts:23-25 | a well-formed Completed record that finished 0.4 s after registering has elapsed time 0 |
| LeaderboardApi.ZeroTimeConflict | app/api/leaderboard/route.ts:39-45 | with 5 s, 0 s and 3 s players tied on points, any order that keeps both tied pairs in store order is not sorted by the comparator |
| LeaderboardApi.Ranked | app/api/leaderboard/route.ts:48-56 | entry i carries rank i + 1 and the fields of the i-th sorted row |
| LeaderboardApi.Leaderboard | app/api/leaderboard/route.ts:6-63 | one entry per record, ranks 1 to n in order; an empty store gives an empty board |
| LeaderboardApi.SortRowsMapped | app/api/leaderboard/route.ts:29 | the sort permutes anything computed row by row |
| LeaderboardApi.LeaderboardPermutation | app/api/leaderboard/route.ts:8-56 | up to rank, the board holds each record's entry exactly as often as the store holds the record |
| LeaderboardApi.LeaderboardIds | app/api/leaderboard/route.ts:48-56 | each id appears on the board as often as in the store |
| LeaderboardApi.LeaderboardOrder | app/api/leaderboard/route.ts:29-46 | when every Completed player has a non-zero time: Completed before the rest; more points first within a status; among Completed with equal points, the faster first |
| LeaderboardApi.LeaderboardExample | app/api/leaderboard/route.ts:29-56 | A (Completed, 40, 120 s), B (Completed, 40, 90 s), C and D (in progress, 50) rank B, A, C, D |
| LeaderboardApi.Delete | app/api/leaderboard/route.ts:65-75 | the store is empty, so is the leaderboard, the message is "Leaderboard reset successfully", and the status is 200 |
| LeaderboardPage.JsRemainder60 | app/leaderboard/page.tsx:72 | JavaScript `% 60`: the usual remainder for non-negative input; for negative input it is non-positive with the sign of the dividend |
| LeaderboardPage.FormatTime | app/leaderboard/page.tsx:69-74 | the text is "--" exactly when the time is null or 0 |
| LeaderboardPage.SecondsField | app/leaderboard/page.tsx:72-73 | the seconds field is exactly two digits worth the seconds |
| LeaderboardPage.MinutesField | app/leaderboard/page.tsx:71-73 | the minutes field is unpadded decimal, starting with '0' only for zero, which renders as exactly "0" |
| LeaderboardPage.FormatTimeFields | app/leaderboard/page.tsx:71-73 | for a positive time: minutes s div 60, a colon, two digits of s mod 60; a leading '0' iff under a minute, and then the text is exactly 4 characters ("0:ss") |
| LeaderboardPage.FormatTimeRoundTrip | app/leaderboard/page.tsx:71-73 | reading `m:ss` back gives the positive time shown |
| LeaderboardPage.FormatTimeBlank | app/leaderboard/page.tsx:70 | null and 0 both show "--" |
| LeaderboardPage.FormatTimeUnderAMinute | app/leaderboard/page.tsx:71-73 | 59 shows as "0:59" |
| LeaderboardPage.FormatTimePadsSeconds | app/leaderboard/page.tsx:73 | 65 shows as "1:05" |
| LeaderboardPage.FormatTimeLongRun | app/leaderboard/page.tsx:71 | minutes are not capped: 7500 shows as "125:00" |
| LeaderboardPage.NegativeTime | app/leaderboard/page.tsx:71-73 | a negative time shows a sign on both fields and does not read back |

## Left out

- The database (Prisma) is modelled as an in-memory table. Its failures and the 500 responses of every `catch` block are not modelled.
- Request bodies that are not JSON are not modelled. Neither are fields of the wrong type, such as a `challengeId` sent as a string, which fails `===` in the catalog lookup. Fields are taken as already of the expected type, or absent.
- The column defaults of a new record come from a database schema that is not part of this model. They are stated assumptions: 0 points, status InProgress, start time now, no finish time.
- Ids: the database's generated id is modelled as a decimal counter. This stands for "unique and never reused", not for the real format.
- `findMany` is taken to return records in creation order. The code does not fix an order, and stability is stated against the store's order.
- Clocks are parameters. `new Date()` and the record timestamps are integer milliseconds passed in.
- `toLowerCase` is modelled for ASCII letters only. The catalog answers are ASCII, but a submitted non-ASCII letter folds differently in JavaScript.
- Concurrency is not modelled. The submit handler's read-then-write of the points can lose an update under concurrent requests; the model assumes one request at a time.
- The phase flag is process memory, so a server restart sets it back to waiting. Restarts are not modelled.
- LeaderboardApi.SortRows: `Array.prototype.sort` is modelled as a stable insertion sort. With a zero elapsed time the comparator is inconsistent, and JavaScript then leaves the order implementation-defined. In that case the model's order is only one of the possible orders, and only the permutation is promised. Without a zero time, `StableSortUnique` shows the model's order is the only one a stable sort can return.
- LeaderboardApi.LeaderboardOrder: the order is promised only when every Completed player has a non-zero elapsed time. With a zero time no order is promised, because none is consistent with the comparator (`ZeroTimeConflict`).
- LeaderboardApi.SortRowsSorted: promised under the same non-zero-time condition, for the same reason.
- LeaderboardApi.SortRowsStable: stability is proved only under the same non-zero-time condition, for the same reason.
- LeaderboardPage.FormatTimeRoundTrip: the round trip is stated for positive times only. Negative times, from a finish before the start, do not read back (`NegativeTime`).
- The pages' rendering, polling, animations, the client-side trimming of the name and roll on the registration page and of the answer on the game page (which hides the server's lack of trimming from players using the UI), the admin page's button rules, and its inline copy of the time format are user interface and are not modelled.
- The matrix rain canvas animation (random, floating point) and the configuration and layout files are not modelled.
