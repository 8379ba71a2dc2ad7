/**
 * The game session engine of backend/services/game_service.go: creating a game of five
 * questions over a shuffled catalog, serving the next question without its answer,
 * judging one answer per question, and the summary view.
 *
 * Every random choice comes from an injected oracle (see module Rand), so each property
 * below holds for every outcome of the generator. The user-resolution step that the
 * caller performs before creating a game (backend/services/data_service.go) is folded
 * into CreateGame.
 */
module Games {
  import opened Rand
  import opened Models
  import opened Store

  /** Questions per game, as passed to the store when the game row is created. */
  const QuestionsPerGame: nat := 5

  /** How many wrong options each question takes from its shuffled pool. */
  const WrongOptions: nat := 3

  /** The draws one question consumes: the clue pick, the pool shuffle and the option shuffle. */
  datatype QuestionDraws = QuestionDraws(clue: nat, pool: seq<nat>, options: seq<nat>)

  /** The draws one CreateGame consumes: the catalog shuffle, then one QuestionDraws per question. */
  datatype GameDraws = GameDraws(catalog: seq<nat>, questions: seq<QuestionDraws>)

  /** The draws of question k; past the end of the oracle every draw reads as 0. */
  function DrawsFor(draws: GameDraws, k: nat): QuestionDraws
  {
    if k < |draws.questions| then draws.questions[k] else QuestionDraws(0, [], [])
  }

  /** The prompt used when a destination has no clues. */
  function DefaultQuestion(city: string): string
  {
    "Where is " + city + " located?"
  }

  /** The prompt of a question: a clue picked by rand.Intn, or the default question when there are none. */
  function Prompt(dest: Destination, clue: nat): (p: string)
    ensures |dest.clues| > 0 ==> p in dest.clues
    ensures |dest.clues| == 0 ==> p == DefaultQuestion(dest.city)
  {
    if |dest.clues| > 0 then dest.clues[Intn(clue, |dest.clues|)] else DefaultQuestion(dest.city)
  }

  /** The wrong-option pool before its shuffle: every destination whose id differs from `id`, in order. */
  function Others(ds: seq<Destination>, id: int): (r: seq<Destination>)
    ensures |r| <= |ds|
  {
    if |ds| == 0 then []
    else (if ds[0].id != id then [ds[0]] else []) + Others(ds[1..], id)
  }

  /** The pool holds exactly the catalog entries whose id is not the correct one. */
  lemma {:induction false} OthersMembers(ds: seq<Destination>, id: int)
    ensures forall d :: d in Others(ds, id) <==> d in ds && d.id != id
  {
    if |ds| > 0 {
      OthersMembers(ds[1..], id);
      assert ds == [ds[0]] + ds[1..];
    }
  }

  lemma IdsAppend(a: seq<Destination>, b: seq<Destination>)
    ensures Ids(a + b) == Ids(a) + Ids(b)
  {
  }

  /** Splitting a catalog with unique ids into its head and tail. */
  lemma UniqueIdsTail(ds: seq<Destination>)
    requires |ds| > 0 && Distinct(Ids(ds))
    ensures Ids(ds) == [ds[0].id] + Ids(ds[1..])
    ensures Distinct(Ids(ds[1..])) && ds[0].id !in Ids(ds[1..])
  {
    assert Ids(ds) == [ds[0].id] + Ids(ds[1..]);
  }

  /** Over a catalog with unique ids, the pool keeps ids unique. */
  lemma {:induction false} OthersOfUniqueIds(ds: seq<Destination>, id: int)
    requires Distinct(Ids(ds))
    ensures Distinct(Ids(Others(ds, id)))
  {
    if |ds| > 0 {
      var head := if ds[0].id != id then [ds[0]] else [];
      var rest := Others(ds[1..], id);
      UniqueIdsTail(ds);
      OthersOfUniqueIds(ds[1..], id);
      OthersMembers(ds[1..], id);
      forall k | 0 <= k < |rest|
        ensures Ids(rest)[k] != ds[0].id
      {
        assert rest[k] in ds[1..];
        var j :| 0 <= j < |ds[1..]| && ds[1..][j] == rest[k];
        assert Ids(ds[1..])[j] == rest[k].id;
      }
      IdsAppend(head, rest);
      DistinctConcat(Ids(head), Ids(rest));
    }
  }

  /** Over a catalog with unique ids, the pool is one entry shorter exactly when the id is in the catalog. */
  lemma {:induction false} OthersLength(ds: seq<Destination>, id: int)
    requires Distinct(Ids(ds))
    ensures |Others(ds, id)| == |ds| - (if id in Ids(ds) then 1 else 0)
  {
    if |ds| > 0 {
      UniqueIdsTail(ds);
      OthersLength(ds[1..], id);
    }
  }

  /** The wrong-option pool after its shuffle. */
  function Pool(dest: Destination, ds: seq<Destination>, d: QuestionDraws): seq<Destination>
  {
    Shuffled(Others(ds, dest.id), d.pool)
  }

  /** The option destinations: the correct one and the pool's first three, shuffled. */
  function OptionsFor(dest: Destination, ds: seq<Destination>, d: QuestionDraws): seq<Destination>
    requires WrongOptions <= |Others(ds, dest.id)|
  {
    Shuffled([dest] + Pool(dest, ds, d)[..WrongOptions], d.options)
  }

  /**
   * Four option ids, the correct id exactly once, no id twice, every id from the
   * catalog: the correct answer and three distinct wrong ones.
   */
  ghost predicate WellFormedOptions(ids: seq<int>, correctId: int, catalog: seq<Destination>)
  {
    && |ids| == 4
    && multiset(ids)[correctId] == 1
    && Distinct(ids)
    && forall o | o in ids :: o in Ids(catalog)
  }

  /** The three wrong options taken from the shuffled pool have distinct ids, none the correct one, all from the catalog. */
  lemma WrongOptionsDistinct(dest: Destination, ds: seq<Destination>, d: QuestionDraws)
    requires Distinct(Ids(ds))
    requires WrongOptions <= |Others(ds, dest.id)|
    ensures var wrong := Pool(dest, ds, d)[..WrongOptions];
      && Distinct(Ids(wrong))
      && dest.id !in Ids(wrong)
      && forall x | x in wrong :: x in ds
  {
    var others := Others(ds, dest.id);
    var pool := Pool(dest, ds, d);
    var wrong := pool[..WrongOptions];
    OthersOfUniqueIds(ds, dest.id);
    OthersMembers(ds, dest.id);
    IdsShuffled(others, d.pool);
    ShuffledDistinct(Ids(others), d.pool);
    ShuffledPermutation(others, d.pool);
    forall i, j | 0 <= i < j < |wrong|
      ensures Ids(wrong)[i] != Ids(wrong)[j]
    {
      assert Ids(pool)[i] != Ids(pool)[j];
    }
    forall k | 0 <= k < |wrong|
      ensures Ids(wrong)[k] != dest.id && wrong[k] in ds
    {
      assert wrong[k] in pool;
    }
  }

  /** The correct destination followed by the wrong options: distinct ids, the correct id once. */
  lemma BaseIds(dest: Destination, wrong: seq<Destination>)
    requires Distinct(Ids(wrong)) && dest.id !in Ids(wrong)
    ensures Ids([dest] + wrong) == [dest.id] + Ids(wrong)
    ensures Distinct(Ids([dest] + wrong))
    ensures multiset(Ids([dest] + wrong))[dest.id] == 1
  {
    var ids := Ids([dest] + wrong);
    assert ids == [dest.id] + Ids(wrong);
    assert multiset(ids) == multiset{dest.id} + multiset(Ids(wrong));
  }

  /** Shuffling four catalog entries with distinct ids, one of them the correct id, gives well-formed option ids. */
  lemma ShuffledOptionsWellFormed(base: seq<Destination>, js: seq<nat>, correctId: int, ds: seq<Destination>)
    requires |base| == 4 && Distinct(Ids(base)) && multiset(Ids(base))[correctId] == 1
    requires forall x | x in base :: x in ds
    ensures multiset(Ids(Shuffled(base, js))) == multiset(Ids(base))
    ensures WellFormedOptions(Ids(Shuffled(base, js)), correctId, ds)
  {
    IdsShuffled(base, js);
    ShuffledDistinct(Ids(base), js);
    ShuffledPermutation(Ids(base), js);
    var ids := Ids(Shuffled(base, js));
    forall o | o in ids
      ensures o in Ids(ds)
    {
      var k :| 0 <= k < |base| && Ids(base)[k] == o;
      assert base[k] in ds;
      var j :| 0 <= j < |ds| && ds[j] == base[k];
      assert Ids(ds)[j] == o;
    }
  }

  /** The option ids are a permutation of the correct id and the pool's first three, and are well formed. */
  lemma OptionsForWellFormed(dest: Destination, ds: seq<Destination>, d: QuestionDraws)
    requires Distinct(Ids(ds)) && dest in ds
    requires WrongOptions <= |Others(ds, dest.id)|
    ensures multiset(Ids(OptionsFor(dest, ds, d))) == multiset([dest.id] + Ids(Pool(dest, ds, d)[..WrongOptions]))
    ensures WellFormedOptions(Ids(OptionsFor(dest, ds, d)), dest.id, ds)
  {
    var wrong := Pool(dest, ds, d)[..WrongOptions];
    var base := [dest] + wrong;
    WrongOptionsDistinct(dest, ds, d);
    BaseIds(dest, wrong);
    ShuffledOptionsWellFormed(base, d.options, dest.id, ds);
  }

  /** The row AddGameQuestion writes for one destination of the shuffled catalog. */
  function PlannedQuestion(gameId: int, questionId: int, dest: Destination, ds: seq<Destination>, d: QuestionDraws): GameQuestionDetail
    requires WrongOptions <= |Others(ds, dest.id)|
  {
    GameQuestionDetail(questionId, gameId, Prompt(dest, d.clue), Ids(OptionsFor(dest, ds, d)), dest.id, 0, 0)
  }

  /** What every created question satisfies, whatever the draws. */
  ghost predicate WellFormedQuestion(q: GameQuestionDetail, gameId: int, dest: Destination, catalog: seq<Destination>)
  {
    && q.gameId == gameId
    && q.isAnswered == 0 && q.selectedDestinationId == 0
    && q.correctDestinationId == dest.id
    && (|dest.clues| > 0 ==> q.question in dest.clues)
    && (|dest.clues| == 0 ==> q.question == DefaultQuestion(dest.city))
    && WellFormedOptions(q.optionDestinationIds, dest.id, catalog)
  }

  lemma PlannedQuestionWellFormed(gameId: int, questionId: int, dest: Destination, ds: seq<Destination>, d: QuestionDraws)
    requires Distinct(Ids(ds)) && dest in ds
    requires WrongOptions <= |Others(ds, dest.id)|
    ensures WellFormedQuestion(PlannedQuestion(gameId, questionId, dest, ds, d), gameId, dest, ds)
  {
    OptionsForWellFormed(dest, ds, d);
  }

  /** A catalog of at least five unique ids leaves every question at least three wrong options. */
  lemma PoolIsLargeEnough(ds: seq<Destination>, k: nat)
    requires Distinct(Ids(ds)) && QuestionsPerGame <= |ds| && k < |ds|
    ensures WrongOptions <= |Others(ds, ds[k].id)|
  {
    OthersLength(ds, ds[k].id);
    assert Ids(ds)[k] == ds[k].id;
  }

  /**
   * One iteration of CreateGame's loop, before the row is written: the prompt, the
   * wrong-option pool built by appending, its shuffle, the options built by
   * appending, their shuffle, and the id list.
   */
  method BuildQuestion(dest: Destination, destinations: seq<Destination>, d: QuestionDraws)
    returns (question: string, optionIds: seq<int>)
    requires WrongOptions <= |Others(destinations, dest.id)|
    ensures question == Prompt(dest, d.clue)
    ensures optionIds == Ids(OptionsFor(dest, destinations, d))
  {
    if |dest.clues| > 0 {
      question := dest.clues[Intn(d.clue, |dest.clues|)];
    } else {
      question := DefaultQuestion(dest.city);
    }

    var wrongOptionPool := WrongOptionPool(dest, destinations);
    var pool := new Destination[|wrongOptionPool|](i requires 0 <= i < |wrongOptionPool| => wrongOptionPool[i]);
    assert pool[..] == wrongOptionPool;
    Shuffle(pool, d.pool);

    var optionDestinations := [dest] + pool[..WrongOptions];
    var options := new Destination[|optionDestinations|](i requires 0 <= i < |optionDestinations| => optionDestinations[i]);
    assert options[..] == optionDestinations;
    Shuffle(options, d.options);

    optionIds := OptionIds(options);
  }

  /** The loop that collects every destination whose id differs from the correct one. */
  method WrongOptionPool(dest: Destination, destinations: seq<Destination>) returns (wrongOptionPool: seq<Destination>)
    ensures wrongOptionPool == Others(destinations, dest.id)
  {
    wrongOptionPool := [];
    for i := 0 to |destinations|
      invariant wrongOptionPool == Others(destinations[..i], dest.id)
    {
      assert destinations[..i + 1] == destinations[..i] + [destinations[i]];
      OthersAppend(destinations[..i], destinations[i], dest.id);
      if destinations[i].id != dest.id {
        wrongOptionPool := wrongOptionPool + [destinations[i]];
      }
    }
    assert destinations[..|destinations|] == destinations;
  }

  /** The loop that fills `optionDestinationIDs[k] = optDest.ID`. */
  method OptionIds(options: array<Destination>) returns (optionIds: seq<int>)
    ensures optionIds == Ids(options[..])
  {
    var ids := new int[options.Length];
    for k := 0 to options.Length
      invariant forall m | 0 <= m < k :: ids[m] == options[m].id
    {
      ids[k] := options[k].id;
    }
    optionIds := ids[..];
  }

  lemma {:induction false} OthersAppend(ds: seq<Destination>, x: Destination, id: int)
    ensures Others(ds + [x], id) == Others(ds, id) + (if x.id != id then [x] else [])
    decreases |ds|
  {
    if |ds| > 0 {
      assert (ds + [x])[1..] == ds[1..] + [x];
      OthersAppend(ds[1..], x, id);
    }
  }

  /** Answered rows of the game. */
  function AnsweredCount(qs: seq<GameQuestionDetail>, gameId: int): nat
  {
    if |qs| == 0 then 0
    else AnsweredCount(qs[..|qs| - 1], gameId) + (if qs[|qs| - 1].gameId == gameId && qs[|qs| - 1].isAnswered == 1 then 1 else 0)
  }

  /** Answered rows of the game whose selection is the correct id. */
  function CorrectCount(qs: seq<GameQuestionDetail>, gameId: int): nat
  {
    if |qs| == 0 then 0
    else
      var q := qs[|qs| - 1];
      CorrectCount(qs[..|qs| - 1], gameId) + (if q.gameId == gameId && q.isAnswered == 1 && q.selectedDestinationId == q.correctDestinationId then 1 else 0)
  }

  /** The games row agrees with its answered question rows. */
  ghost predicate Tallied(g: Game, qs: seq<GameQuestionDetail>)
  {
    g.totalAnswered == AnsweredCount(qs, g.id) && g.totalCorrect == CorrectCount(qs, g.id)
  }

  /** The row after an accepted answer. */
  function Answered(q: GameQuestionDetail, selected: int): GameQuestionDetail
  {
    q.(selectedDestinationId := selected, isAnswered := 1)
  }

  /**
   * Answering one unanswered row adds one answered row to its game, and one correct
   * row when the selection is the correct id; every other game's counts stay.
   */
  lemma {:induction false} CountsAfterAnswer(qs: seq<GameQuestionDetail>, i: nat, selected: int, gameId: int)
    requires i < |qs| && qs[i].isAnswered == 0
    ensures AnsweredCount(qs[i := Answered(qs[i], selected)], gameId)
      == AnsweredCount(qs, gameId) + (if qs[i].gameId == gameId then 1 else 0)
    ensures CorrectCount(qs[i := Answered(qs[i], selected)], gameId)
      == CorrectCount(qs, gameId) + (if qs[i].gameId == gameId && selected == qs[i].correctDestinationId then 1 else 0)
    decreases |qs|
  {
    var qs' := qs[i := Answered(qs[i], selected)];
    var n := |qs| - 1;
    if i == n {
      assert qs'[..n] == qs[..n];
    } else {
      assert qs'[..n] == qs[..n][i := Answered(qs[i], selected)];
      CountsAfterAnswer(qs[..n], i, selected, gameId);
    }
  }

  /** A game no row belongs to has no answered and no correct rows. */
  lemma {:induction false} CountsOfNewGame(qs: seq<GameQuestionDetail>, gameId: int)
    requires forall i | 0 <= i < |qs| :: qs[i].gameId != gameId
    ensures AnsweredCount(qs, gameId) == 0 && CorrectCount(qs, gameId) == 0
  {
    if |qs| > 0 {
      CountsOfNewGame(qs[..|qs| - 1], gameId);
    }
  }

  /** Appending an unanswered row changes no game's counts. */
  lemma CountsAfterAppend(qs: seq<GameQuestionDetail>, q: GameQuestionDetail, gameId: int)
    requires q.isAnswered == 0
    ensures AnsweredCount(qs + [q], gameId) == AnsweredCount(qs, gameId)
    ensures CorrectCount(qs + [q], gameId) == CorrectCount(qs, gameId)
  {
    assert (qs + [q])[..|qs|] == qs;
  }

  /** Row k is the question planned from entry k of the shuffled catalog `ds`, with id lastId + k + 1. */
  ghost predicate Planned(rows: seq<GameQuestionDetail>, gameId: int, lastId: int, ds: seq<Destination>, draws: GameDraws)
  {
    && |rows| <= |ds|
    && forall k | 0 <= k < |rows| :: PlannedAt(rows[k], k, gameId, lastId, ds, draws)
  }

  /** The row planned from entry k of `ds`. */
  ghost predicate PlannedAt(q: GameQuestionDetail, k: nat, gameId: int, lastId: int, ds: seq<Destination>, draws: GameDraws)
  {
    && k < |ds|
    && WrongOptions <= |Others(ds, ds[k].id)|
    && q == PlannedQuestion(gameId, lastId + k + 1, ds[k], ds, DrawsFor(draws, k))
  }

  /** Every row is a well-formed question about entry k of `ds`, and no two rows share a correct id. */
  ghost predicate WellFormedRows(rows: seq<GameQuestionDetail>, gameId: int, ds: seq<Destination>, catalog: seq<Destination>)
  {
    && |rows| <= |ds|
    && (forall k | 0 <= k < |rows| :: WellFormedQuestion(rows[k], gameId, ds[k], catalog))
    && (forall k, m | 0 <= k < m < |rows| :: rows[k].correctDestinationId != rows[m].correctDestinationId)
  }

  /** Questions planned from a shuffle of a catalog with unique ids are well formed and ask about different destinations. */
  lemma PlannedRowsWellFormed(rows: seq<GameQuestionDetail>, gameId: int, lastId: int, catalog: seq<Destination>, draws: GameDraws)
    requires Distinct(Ids(catalog))
    requires Planned(rows, gameId, lastId, Shuffled(catalog, draws.catalog), draws)
    ensures WellFormedRows(rows, gameId, Shuffled(catalog, draws.catalog), catalog)
  {
    var ds := Shuffled(catalog, draws.catalog);
    forall k | 0 <= k < |rows|
      ensures WellFormedQuestion(rows[k], gameId, ds[k], catalog)
    {
      RowWellFormed(rows[k], gameId, lastId + k + 1, ds[k], catalog, draws.catalog, DrawsFor(draws, k));
    }
    IdsShuffled(catalog, draws.catalog);
    ShuffledDistinct(Ids(catalog), draws.catalog);
    forall k, m | 0 <= k < m < |rows|
      ensures rows[k].correctDestinationId != rows[m].correctDestinationId
    {
      assert rows[k].correctDestinationId == Ids(ds)[k];
      assert rows[m].correctDestinationId == Ids(ds)[m];
    }
  }

  /** One planned question over the shuffled catalog is well formed with respect to the catalog itself. */
  lemma RowWellFormed(q: GameQuestionDetail, gameId: int, questionId: int, dest: Destination,
                      catalog: seq<Destination>, js: seq<nat>, d: QuestionDraws)
    requires Distinct(Ids(catalog))
    requires dest in Shuffled(catalog, js)
    requires WrongOptions <= |Others(Shuffled(catalog, js), dest.id)|
    requires q == PlannedQuestion(gameId, questionId, dest, Shuffled(catalog, js), d)
    ensures WellFormedQuestion(q, gameId, dest, catalog)
  {
    var ds := Shuffled(catalog, js);
    IdsShuffled(catalog, js);
    ShuffledDistinct(Ids(catalog), js);
    ShuffledPermutation(Ids(catalog), js);
    PlannedQuestionWellFormed(gameId, questionId, dest, ds, d);
    forall o | o in q.optionDestinationIds
      ensures o in Ids(catalog)
    {
      assert o in Ids(ds);
    }
  }

  /** Appending to a sequence leaves its first n elements and extends the rest. */
  lemma SplitAppend<T>(s: seq<T>, x: T, n: nat)
    requires n <= |s|
    ensures (s + [x])[..n] == s[..n]
    ensures (s + [x])[n..] == s[n..] + [x]
  {
  }

  /** Appending an unanswered row keeps every game tallied. */
  lemma AppendKeepsTallies(games: map<int, Game>, rows: seq<GameQuestionDetail>, q: GameQuestionDetail)
    requires q.isAnswered == 0
    requires forall id | id in games :: Tallied(games[id], rows)
    ensures forall id | id in games :: Tallied(games[id], rows + [q])
  {
    forall id | id in games
      ensures Tallied(games[id], rows + [q])
    {
      CountsAfterAppend(rows, q, games[id].id);
    }
  }

  /** Appending the row planned from the next catalog entry extends the plan. */
  lemma PlannedAppend(rows: seq<GameQuestionDetail>, q: GameQuestionDetail, k: nat, gameId: int, lastId: int, ds: seq<Destination>, draws: GameDraws)
    requires Planned(rows, gameId, lastId, ds, draws)
    requires k == |rows| && PlannedAt(q, k, gameId, lastId, ds, draws)
    ensures Planned(rows + [q], gameId, lastId, ds, draws)
  {
    var rows' := rows + [q];
    assert |rows'| <= |ds|;
    forall m | 0 <= m < |rows'|
      ensures PlannedAt(rows'[m], m, gameId, lastId, ds, draws)
    {
      if m < |rows| {
        assert rows'[m] == rows[m] && PlannedAt(rows[m], m, gameId, lastId, ds, draws);
      } else {
        assert rows'[m] == q && m == k;
      }
    }
  }

  class GameService {
    const db: Database

    /**
     * The engine's invariant over the store: every question row belongs to an existing
     * game, and every game's counters equal the counts of its answered rows.
     */
    ghost predicate Valid()
      reads db
    {
      && db.Valid()
      && (forall i | 0 <= i < |db.questions| :: db.questions[i].gameId in db.games)
      && (forall id | id in db.games :: Tallied(db.games[id], db.questions))
    }

    /** An engine over a store with no games and no questions yet satisfies the engine's invariant. */
    constructor (database: Database)
      requires database.Valid() && database.questions == [] && database.games == map[]
      ensures db == database && Valid()
    {
      db := database;
    }

    /**
     * CreateGame for the handle `username`: resolve the user, write the games row, shuffle
     * the catalog, and write one question for each of its first five entries. With fewer
     * than five destinations the slice `destinations[:5]` panics after the games row is
     * written, and that row stays.
     */
    method CreateGame(username: string, draws: GameDraws) returns (r: Result<int>)
      requires Valid()
      modifies db
      ensures Valid()
      ensures old(db.GetUserByUsername(username)).Err? ==> r == Err(NotFound) && unchanged(db)
      ensures old(db.GetUserByUsername(username)).Ok? ==>
        var gameId := old(db.lastGameId) + 1;
        && gameId !in old(db.games)
        && db.games == old(db.games)[gameId := Game(gameId, old(db.GetUserByUsername(username)).value.id, QuestionsPerGame, 0, 0, 0)]
        && db.users == old(db.users)
        && (r.Ok? <==> QuestionsPerGame <= |db.destinations|)
        && (r.Err? ==> r.error == SliceOutOfRange && db.questions == old(db.questions))
        && (r.Ok? ==> r.value == gameId && Created(gameId, old(db.questions), old(db.lastQuestionId), draws))
    {
      var user := db.GetUserByUsername(username);
      if user.Err? {
        return Err(user.error);
      }
      var gameId := NewGame(user.value.id);
      var catalog := db.destinations;
      var a := new Destination[|catalog|](i requires 0 <= i < |catalog| => catalog[i]);
      assert a[..] == catalog;
      Shuffle(a, draws.catalog);
      var destinations := a[..];
      if |destinations| < QuestionsPerGame {
        return Err(SliceOutOfRange);
      }
      AddQuestions(gameId, destinations, draws);
      r := Ok(gameId);
    }

    /** The games row CreateGame writes first: fresh id, five questions, zero counters. */
    method NewGame(userId: int) returns (gameId: int)
      requires Valid()
      modifies db
      ensures Valid()
      ensures gameId == old(db.lastGameId) + 1 && gameId !in old(db.games)
      ensures db.games == old(db.games)[gameId := Game(gameId, userId, QuestionsPerGame, 0, 0, 0)]
      ensures db.users == old(db.users) && db.questions == old(db.questions)
      ensures db.lastQuestionId == old(db.lastQuestionId)
    {
      gameId := db.CreateGame(userId, QuestionsPerGame);
      CountsOfNewGame(db.questions, gameId);
    }

    /**
     * The questions CreateGame writes: five new rows after the old ones, row k planned from
     * entry k of the shuffled catalog, each well formed, with five different correct ids.
     */
    ghost predicate Created(gameId: int, before: seq<GameQuestionDetail>, lastId: int, draws: GameDraws)
      reads db
    {
      var ds := Shuffled(db.destinations, draws.catalog);
      && QuestionsPerGame <= |ds|
      && |db.questions| == |before| + QuestionsPerGame
      && db.questions[..|before|] == before
      && Planned(db.questions[|before|..], gameId, lastId, ds, draws)
      && WellFormedRows(db.questions[|before|..], gameId, ds, db.destinations)
    }

    /** The loop of CreateGame over the first five entries of the shuffled catalog. */
    method AddQuestions(gameId: int, destinations: seq<Destination>, draws: GameDraws)
      requires Valid() && gameId in db.games
      requires destinations == Shuffled(db.destinations, draws.catalog)
      requires QuestionsPerGame <= |destinations|
      modifies db
      ensures Valid()
      ensures db.games == old(db.games) && db.users == old(db.users)
      ensures Created(gameId, old(db.questions), old(db.lastQuestionId), draws)
    {
      IdsShuffled(db.destinations, draws.catalog);
      ShuffledDistinct(Ids(db.destinations), draws.catalog);
      var questionDestinations := destinations[..QuestionsPerGame];
      assert Distinct(Ids(destinations));
      ghost var before := db.questions;
      ghost var lastId := db.lastQuestionId;
      for k := 0 to QuestionsPerGame
        invariant Valid()
        invariant db.games == old(db.games) && db.users == old(db.users)
        invariant db.lastQuestionId == lastId + k
        invariant |db.questions| == |before| + k && db.questions[..|before|] == before
        invariant Planned(db.questions[|before|..], gameId, lastId, destinations, draws)
      {
        ghost var rows := db.questions;
        AddQuestion(gameId, questionDestinations[k], k, destinations, draws);
        ghost var q := db.questions[|rows|];
        assert PlannedAt(q, k, gameId, lastId, destinations, draws);
        SplitAppend(rows, q, |before|);
        PlannedAppend(rows[|before|..], q, k, gameId, lastId, destinations, draws);
      }
      assert db.questions[..|before|] == before;
      PlannedRowsWellFormed(db.questions[|before|..], gameId, lastId, db.destinations, draws);
    }

    /** One pass of CreateGame's loop: build the question for entry k of the shuffled catalog and store it. */
    method AddQuestion(gameId: int, dest: Destination, k: nat, destinations: seq<Destination>, draws: GameDraws)
      requires Valid() && gameId in db.games
      requires Distinct(Ids(destinations)) && QuestionsPerGame <= |destinations| && k < |destinations|
      requires dest == destinations[k]
      modifies db
      ensures Valid()
      ensures db.games == old(db.games) && db.users == old(db.users)
      ensures db.lastQuestionId == old(db.lastQuestionId) + 1
      ensures WrongOptions <= |Others(destinations, dest.id)|
      ensures db.questions == old(db.questions) + [PlannedQuestion(gameId, db.lastQuestionId, dest, destinations, DrawsFor(draws, k))]
    {
      PoolIsLargeEnough(destinations, k);
      var question, optionIds := BuildQuestion(dest, destinations, DrawsFor(draws, k));
      ghost var rows := db.questions;
      var _ := db.AddGameQuestion(gameId, question, optionIds, dest.id);
      AppendKeepsTallies(db.games, rows, db.questions[|rows|]);
      assert db.questions == rows + [db.questions[|rows|]];
    }

    /** GetNextQuestion: the store's next unanswered question with its correct id withheld (zeroed). */
    function GetNextQuestion(gameId: int): (r: Result<GameQuestionDetail>)
      reads db
      requires db.Valid()
      ensures r.Ok? ==> r.value.correctDestinationId == 0
      ensures r.Ok? <==> exists q | q in db.questions :: Open(q, gameId)
      ensures r.Ok? ==> exists q | q in db.questions :: Open(q, gameId) && r.value == q.(correctDestinationId := 0)
      ensures r.Ok? ==> forall q | q in db.questions && Open(q, gameId) :: r.value.id <= q.id
      ensures r.Err? ==> r.error == NotFound
    {
      match db.GetNextQuestion(gameId)
      case Ok(q) => Ok(q.(correctDestinationId := 0))
      case Err(e) => Err(e)
    }

    /**
     * SubmitAnswer: reject a question of another game or an unknown one (not-found), a
     * second answer, or a selection outside the stored options, all without writing; else
     * record the answer, count it, and report the verdict with a fun fact when correct or
     * a trivia item when wrong, each picked by rand.Intn from a non-empty list.
     */
    method SubmitAnswer(gameId: int, questionId: int, selectedDestinationId: int, factDraw: nat)
      returns (r: Result<SubmitAnswerResponse>)
      requires Valid()
      modifies db
      ensures Valid()
      ensures db.users == old(db.users)
      ensures old(db.GetQuestionById(gameId, questionId)).Err? ==> r == Err(NotFound) && unchanged(db)
      ensures old(db.GetQuestionById(gameId, questionId)).Ok? && old(db.GetQuestionById(gameId, questionId)).value.isAnswered == 1 ==>
        r == Err(AlreadyAnswered) && unchanged(db)
      ensures old(db.GetQuestionById(gameId, questionId)).Ok? ==>
        var q := old(db.GetQuestionById(gameId, questionId)).value;
        q.isAnswered != 1 && selectedDestinationId !in q.optionDestinationIds ==>
          r == Err(NotAnOption) && unchanged(db)
      ensures old(db.GetQuestionById(gameId, questionId)).Ok? ==>
        var q := old(db.GetQuestionById(gameId, questionId)).value;
        q.isAnswered != 1 && selectedDestinationId in q.optionDestinationIds ==>
          && (r.Ok? <==> db.GetDestinationById(q.correctDestinationId).Ok?)
          && (r.Err? ==> r == Err(NotFound))
      ensures r.Ok? ==>
        && old(db.GetQuestionById(gameId, questionId)).Ok?
        && var q := old(db.GetQuestionById(gameId, questionId)).value;
        && q.isAnswered == 0 && selectedDestinationId in q.optionDestinationIds
        && db.GetDestinationById(q.correctDestinationId).Ok?
        && var dest := db.GetDestinationById(q.correctDestinationId).value;
        && var i := old(FindRow(db.questions, gameId, questionId)).value;
        && db.questions == old(db.questions)[i := Answered(q, selectedDestinationId)]
        && db.games == old(db.games)[gameId := Tally(old(db.games)[gameId], selectedDestinationId == q.correctDestinationId)]
        && r.value.correct == (selectedDestinationId == q.correctDestinationId)
        && r.value.correctCity == dest.city && r.value.correctCountry == dest.country
        && r.value.correctOptionId == q.correctDestinationId
        && (if r.value.correct && |dest.funFact| > 0 then r.value.funFact in dest.funFact else r.value.funFact == "")
        && (if !r.value.correct && |dest.trivia| > 0 then r.value.trivia in dest.trivia else r.value.trivia == "")
      ensures r.Err? ==> unchanged(db)
    {
      var found := db.GetQuestionById(gameId, questionId);
      if found.Err? {
        return Err(found.error);
      }
      var question := found.value;
      if question.isAnswered == 1 {
        return Err(AlreadyAnswered);
      }

      var isValidOption := false;
      var k := 0;
      while k < |question.optionDestinationIds|
        invariant 0 <= k <= |question.optionDestinationIds|
        invariant isValidOption ==> selectedDestinationId in question.optionDestinationIds
        invariant !isValidOption ==> selectedDestinationId !in question.optionDestinationIds[..k]
      {
        if question.optionDestinationIds[k] == selectedDestinationId {
          isValidOption := true;
          break;
        }
        k := k + 1;
      }
      if !isValidOption {
        assert question.optionDestinationIds[..k] == question.optionDestinationIds;
        return Err(NotAnOption);
      }

      var correctDest := db.GetDestinationById(question.correctDestinationId);
      if correctDest.Err? {
        return Err(correctDest.error);
      }

      ghost var rows := db.questions;
      ghost var i := FindRow(rows, gameId, questionId).value;
      var submitted := db.SubmitAnswer(gameId, questionId, selectedDestinationId);
      forall id | id in db.games
        ensures Tallied(db.games[id], db.questions)
      {
        CountsAfterAnswer(rows, i, selectedDestinationId, id);
      }

      var isCorrect := selectedDestinationId == question.correctDestinationId;
      var dest := correctDest.value;
      var response := SubmitAnswerResponse(isCorrect, "", "", dest.city, dest.country, question.correctDestinationId);
      if isCorrect && |dest.funFact| > 0 {
        response := response.(funFact := dest.funFact[Intn(factDraw, |dest.funFact|)]);
      } else if !isCorrect && |dest.trivia| > 0 {
        response := response.(trivia := dest.trivia[Intn(factDraw, |dest.trivia|)]);
      }
      r := Ok(response);
    }

    /**
     * GetGameResult: the store's result. On the engine's path its counters agree with
     * the answered rows of the game.
     */
    method GetGameResult(gameId: int) returns (r: Result<GameResult>)
      requires Valid()
      ensures r.Err? <==> gameId !in db.games
      ensures r.Err? ==> r.error == NotFound
      ensures r.Ok? ==>
        && r.value.gameId == gameId && r.value.totalQuestions == db.games[gameId].totalQuestions
        && r.value.totalCorrect == CorrectCount(db.questions, gameId)
        && r.value.totalCorrect + r.value.totalIncorrect == AnsweredCount(db.questions, gameId)
      ensures r.Ok? ==>
        var rows := RowsOf(db.questions, gameId);
        |r.value.questions| == |rows| && forall i | 0 <= i < |rows| :: Hidden(rows[i], r.value.questions[i])
    {
      r := db.GetGameResult(gameId);
    }

    /** HasNextQuestion: whether two or more unanswered questions of the game remain. */
    function HasNextQuestion(gameId: int): (r: bool)
      reads db
      ensures r <==> exists i, j | 0 <= i < j < |db.questions| :: Open(db.questions[i], gameId) && Open(db.questions[j], gameId)
    {
      db.HasNextQuestion(gameId)
    }

    /** GetGameSummary: the game's counts and owner handle, with an image URL supplied by the caller. */
    function GetGameSummary(gameId: int, imageUrl: string): (r: Result<GameSummary>)
      reads db
      requires db.Valid()
      ensures r.Ok? <==> gameId in db.games && db.GetUserById(db.games[gameId].userId).Ok?
      ensures r.Err? ==> r.error == NotFound
      ensures r.Ok? ==>
        var g := db.games[gameId];
        && r.value.gameId == gameId && r.value.imageUrl == imageUrl
        && r.value.username == db.GetUserById(g.userId).value.username
        && r.value.totalQuestions == g.totalQuestions
        && r.value.totalAnswered == g.totalAnswered && r.value.totalCorrect == g.totalCorrect
        && r.value.totalCorrect <= r.value.totalAnswered
    {
      match db.GetGame(gameId)
      case Err(e) => Err(e)
      case Ok(game) =>
        match db.GetUserById(game.userId)
        case Err(e) => Err(e)
        case Ok(user) =>
          Ok(GameSummary(game.id, user.username, imageUrl, game.totalQuestions, game.totalAnswered, game.totalCorrect))
    }
  }
}
