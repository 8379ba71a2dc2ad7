# Globetrotter game session engine in Dafny

This project models the game session engine of the Globetrotter backend, a
destination guessing game written in Go. A player registers a handle. They then
start a game of five questions. Each question shows a clue about a destination and
four candidate destinations. The player answers each question once and gets back a
verdict plus a fun fact or a trivia item. The model covers four layers:

- `rand.dfy` (module `Rand`): the randomness the engine uses (`rand.Intn`,
  `rand.Shuffle`), passed in as an oracle, which is a sequence of raw draws. Every
  value a draw can take is reachable, so each property proved below holds for
  every run of the random generator. `Shuffle` is Go's Fisher-Yates loop,
  performed in place on an array.
- `models.dfy` (module `Models`): the record types of `backend/models/models.go`.
  It also has `GenerateOptions`, which builds four "City, Country" labels: a retry
  loop with a duplicate scan, then a shuffle. The retry loop never ends on some
  catalogs, so its precondition is that the loop reaches four labels. Two lemmas
  show exactly when some oracle makes that true.
- `store.dfy` (module `Store`): the session store of `backend/db/db.go`. A
  `Database` object holds:
  - the `users`, `games` and `game_questions` tables in memory;
  - the catalog of destinations, which is read-only;
  - one counter per AUTOINCREMENT column.

  Writers are methods. Queries are functions over the tables. `Database.Valid()`
  keeps ids unique and increasing, and keeps `answered == correct + incorrect` on
  every game.
- `games.dfy` (module `Games`): the engine of `backend/services/game_service.go`.
  `GameService.Valid()` adds two facts to the store's invariant: every question
  row belongs to an existing game, and every game's counters equal the counts of
  its answered rows. `CreateGame` first resolves the handle to a user, as its
  caller in `backend/services/data_service.go` does. It then writes the game row,
  shuffles the catalog, and writes one planned question for each of the first
  five destinations.
- `users.dfy` (module `Users`): `CreateUser` and `GetUser` of
  `backend/services/user_service.go`.

Where the code and the documented design differ, the model follows the code:

- `CreateGame` is not atomic. The game row is written before the catalog is
  checked. With fewer than five destinations the slice `destinations[:5]` panics
  (modelled as `Err(SliceOutOfRange)`), and the game row stays behind with no
  questions.
- `CreateGame` picks wrong options by id only. Two options may show the same city
  and country if the catalog repeats that pair.
- `HasNextQuestion` answers `count > 1`. The last unanswered question is
  therefore not reported (`Store.LastOpenQuestionNotFlagged`).
- `CreateUser` returns the user it built, not the stored row, so the returned id
  is 0. A stored empty handle is not treated as taken: saving it again overwrites
  its timestamp.

## Model

| member | source | states |
|---|---|---|
| Rand.Intn | backend/services/game_service.go:53 | A draw is brought into [0, n), and every value in [0, n) is the image of some draw |
| Rand.Swap | backend/services/game_service.go:40-42 | The swap callback exchanges positions i and j and leaves every other position alone |
| Rand.ShuffledPermutation | backend/services/game_service.go:40-42 | A shuffle under any oracle is a permutation: same multiset, same members |
| Rand.ShuffledDistinct | backend/services/game_service.go:71-73 | Shuffling pairwise-distinct elements keeps them pairwise distinct |
| Rand.Shuffle | backend/services/game_service.go:79-81 | The in-place Fisher-Yates loop leaves the array holding the oracle's shuffle of its old contents |
| Models.IdsShuffled | backend/services/game_service.go:79-87 | The ids of a shuffled option list are the same shuffle of the ids |
| Models.Collect | backend/models/models.go:133-159 | The retry loop only appends, keeps labels distinct, stops at four labels, and adds only labels of catalog entries whose id is not the correct one |
| Models.EndsOnlyWithEnoughDistractors | backend/models/models.go:133-159 | If the loop ends, the catalog has three entries whose id is not the correct one, with labels distinct from each other and from the correct label |
| Models.ThreeDrawsEnd | backend/models/models.go:134-158 | Three draws that hit such entries end the loop |
| Models.EnoughDistractorsLetItEnd | backend/models/models.go:133-159 | If the catalog has such entries, some oracle ends the loop (the converse of EndsOnlyWithEnoughDistractors) |
| Models.GenerateOptions | backend/models/models.go:125-167 | Four labels, pairwise distinct, the correct label exactly once, every other label from an entry whose id is not the correct one, and a permutation of the collected list |
| Models.Contains | backend/models/models.go:147-153 | The duplicate scan reports true iff the label is already collected |
| Models.ShuffledLabels | backend/models/models.go:161-166 | The shuffled labels are a permutation of the collected ones, pairwise distinct, with the correct label exactly once and distractor labels elsewhere |
| Store.FindRow | backend/db/db.go:376-386 | Finds the row with both that id and that game id, or proves there is none |
| Store.FirstOpen | backend/db/db.go:346-353 | The first unanswered row of the game in table order, or proof that none remains |
| Store.RowsOf | backend/db/db.go:465-472 | A row is in the result iff it is a row of the table with that game id |
| Store.RowsOfInOrder | backend/db/db.go:465-472 | Over a table whose ids increase, the game's rows come out with increasing ids: each once, in table order |
| Store.OpenCountAboveOne | backend/db/db.go:502-515 | The unanswered count is above one iff two distinct unanswered rows of the game exist |
| Store.OpenCountPositive | backend/db/db.go:502-515 | The unanswered count is positive iff some unanswered row of the game exists |
| Store.Tally | backend/db/db.go:422-437 | Answered goes up by one, exactly one of correct and incorrect goes up by one according to the verdict, and nothing else changes |
| Store.LastOpenQuestionNotFlagged | backend/db/db.go:502-515 | With exactly one unanswered row, GetNextQuestion still serves it but HasNextQuestion is false |
| Store.Database.constructor | backend/db/db.go:57-118 | A store over a catalog with unique ids starts with empty tables and satisfies the invariant |
| Store.Database.GetUserByUsername | backend/db/db.go:257-266 | The row with that handle, or not-found when no row has it |
| Store.Database.GetUserById | backend/db/db.go:593-606 | The row with that id, or not-found when no row has it |
| Store.Database.SaveUser | backend/db/db.go:269-288 | An existing handle gets only its timestamp overwritten; otherwise a row with a fresh id is appended; afterwards the handle is found |
| Store.Database.GetDestinationById | backend/db/db.go:530-572 | The catalog entry with that id, or not-found when the id is not in the catalog |
| Store.Database.CreateGame | backend/db/db.go:296-311 | A new game row with a fresh id, the given question count and zero counters; every other row unchanged |
| Store.Database.AddGameQuestion | backend/db/db.go:314-335 | Appends an unanswered row with the options in the given order and an id above every earlier one |
| Store.Database.GetNextQuestion | backend/db/db.go:338-365 | The unanswered row of the game with the smallest id; not-found iff none remains |
| Store.Database.GetQuestionById | backend/db/db.go:368-394 | The row only if both id and game match; a row of another game reads as not-found |
| Store.Database.GetGame | backend/db/db.go:575-590 | The game row, whose answered count is correct plus incorrect, or not-found |
| Store.Database.HasNextQuestion | backend/db/db.go:502-515 | True iff at least two unanswered rows of the game remain |
| Store.Database.SubmitAnswer | backend/db/db.go:397-440 | Marks that one row answered with the selection and tallies its game; an unknown row changes nothing; there is no answered guard |
| Store.Database.GetGameResult | backend/db/db.go:443-499 | The game's counters and every row of the game, with the correct id zeroed exactly on unanswered rows; not-found iff the game is missing |
| Games.Prompt | backend/services/game_service.go:50-57 | The prompt is one of the destination's clues, or exactly "Where is <City> located?" when it has none |
| Games.OthersMembers | backend/services/game_service.go:62-68 | The pool holds an entry iff it is in the catalog and its id is not the correct one |
| Games.OthersOfUniqueIds | backend/services/game_service.go:62-68 | Over unique ids the pool keeps ids unique |
| Games.OthersLength | backend/services/game_service.go:62-68 | Over unique ids the pool is exactly one entry shorter than the catalog when the correct id is in it, and as long otherwise |
| Games.WrongOptionsDistinct | backend/services/game_service.go:70-76 | The three wrong options have distinct ids, none equal to the correct id, all from the catalog |
| Games.OptionsForWellFormed | backend/services/game_service.go:59-87 | The option ids are a permutation of the correct id and the pool's first three: four ids, the correct one exactly once, no repeats, all in the catalog |
| Games.ShuffledOptionsWellFormed | backend/services/game_service.go:78-87 | Shuffling four catalog entries with distinct ids, the correct one among them, gives four distinct catalog ids with the correct id exactly once |
| Games.PoolIsLargeEnough | backend/services/game_service.go:76 | With five or more unique catalog entries, `wrongOptionPool[:3]` is always in range |
| Games.BuildQuestion | backend/services/game_service.go:49-87 | One loop iteration computes the planned prompt and the ids of the shuffled options |
| Games.WrongOptionPool | backend/services/game_service.go:62-68 | The append loop builds exactly the wrong-option pool |
| Games.OptionIds | backend/services/game_service.go:83-87 | The id loop copies each option's id in order |
| Games.CountsAfterAnswer | backend/db/db.go:397-440 | Answering one unanswered row adds one to its game's answered count, and one to its correct count iff the selection is right; other games are unchanged |
| Games.CountsAfterAppend | backend/db/db.go:314-335 | Appending an unanswered row changes no game's counts |
| Games.CountsOfNewGame | backend/db/db.go:296-311 | A game that no row belongs to has zero answered and zero correct rows, matching the zero counters of a new game row |
| Games.AppendKeepsTallies | backend/db/db.go:314-335 | Appending an unanswered row keeps every game's counters equal to its answered and correct rows |
| Games.PlannedAppend | backend/services/game_service.go:48-94 | Writing the question planned for the next destination extends the rows written so far to the planned rows |
| Games.PlannedRowsWellFormed | backend/services/game_service.go:44-94 | The questions planned from a shuffled catalog are well formed and ask about five different destinations |
| Games.RowWellFormed | backend/services/game_service.go:49-90 | One planned question has the destination's id as correct id, a valid prompt, and well-formed options drawn from the catalog |
| Games.GameService.constructor | backend/services/game_service.go:19-23 | An engine over a valid store with no games and no questions satisfies the engine invariant |
| Games.GameService.CreateGame | backend/services/game_service.go:26-97 | Unknown handle: not-found and nothing written. Otherwise: one new game row with five questions and zero counters; exactly five well-formed questions planned from the first five shuffled destinations, or, with fewer than five destinations, the panic with the game row left behind; the engine invariant is kept |
| Games.GameService.NewGame | backend/services/game_service.go:28 | The first write of CreateGame: a new game row with five questions and zero counters that keeps the engine invariant |
| Games.GameService.AddQuestions | backend/services/game_service.go:47-94 | The loop writes exactly the five planned rows after the existing ones and keeps the engine invariant |
| Games.GameService.AddQuestion | backend/services/game_service.go:48-93 | One loop iteration appends exactly the row planned for destination k and keeps the engine invariant |
| Games.GameService.GetNextQuestion | backend/services/game_service.go:100-111 | The store's next unanswered question with its correct id zeroed, so the answer is never exposed |
| Games.GameService.SubmitAnswer | backend/services/game_service.go:114-171 | Not-found, already-answered and not-an-option fail and write nothing. An unanswered row with a listed selection is accepted iff its correct destination is in the catalog; a missing one fails with not-found and writes nothing. When accepted, that row is answered, the game is tallied, the verdict is selection == correct id, city and country come from the correct destination, a fun fact is given only when correct and a trivia item only when wrong, each from a non-empty list; the counters keep matching the answered rows |
| Games.GameService.GetGameResult | backend/services/game_service.go:174-176 | The store's result, whose counters equal the counts of the game's answered and correct rows |
| Games.GameService.HasNextQuestion | backend/services/game_service.go:179-181 | True iff at least two unanswered rows of the game remain |
| Games.GameService.GetGameSummary | backend/services/game_service.go:189-214 | The game's counts and owner handle with the supplied image URL, correct at most answered; not-found when the game or its owner is missing |
| Users.UserService.CreateUser | backend/services/user_service.go:23-36 | A stored non-empty handle is refused with the stored user and "username already exists", writing nothing. Otherwise the handle is saved (appended with a fresh id, or the empty handle's timestamp overwritten), the returned user has id 0, and the handle is then found |
| Users.UserService.GetUser | backend/services/user_service.go:39-41 | A read-only lookup: found iff some row has that handle, else not-found |

## Left out

- SQL text, JSON (un)marshalling of clues, options and facts, and every database or parse error. A failed write or read is not modelled; only the not-found of an empty result is.
- Timestamps. A new user carries the empty `CreatedAt` string (`Users.ZeroTime`), which is what the Go code writes. The game's creation time and its RFC 3339 formatting in `GetGameSummary` are dropped.
- The image lookup of `GetGameSummary`, which is a network call. The URL is a parameter.
- The distribution of `math/rand`. Choices are an oracle of raw draws, and properties hold for every oracle.
- Concurrency and the atomicity of the store's multi-statement writes. Every operation runs alone.
- Integer width. Ids and counters are unbounded; 64-bit overflow is not modelled.
- SQL result order. `SELECT` without `ORDER BY` in `GetGameResult` is taken to return rows in id order, which is the table order kept here.
- `GetAllDestinations` and `GameService.GetDestinationByID` are not modelled separately. The catalog is a constant field of the store, and `GetDestinationById` covers the lookup.
- Games.GameService.CreateGame: the slice panic is reported as an error value rather than a process panic. The capacity of the Go slice is not modelled: a slice of fewer than five entries built by appending from nil has a capacity below five, so `destinations[:5]` panics exactly when the catalog has fewer than five entries.
- Games.GameService.CreateGame: the engine invariant (counters equal the answered rows) holds only on the engine's path. A direct second call to the store's `SubmitAnswer` double-counts, as `Store.Database.SubmitAnswer` states.
- Models.GenerateOptions: the precondition that the retry loop reaches four labels stands in for termination. On other catalogs and oracles the Go loop never returns, and with an empty catalog `rand.Intn(0)` panics. No caller in the core uses this generator.
