/**
 * The session store of backend/db/db.go: the games, game_questions and users tables
 * held in memory, with the catalog of destinations, which is read-only after seeding.
 *
 * Writers are methods that change the tables; queries are functions over them.
 * An AUTOINCREMENT column is a counter of the last id handed out. SQL text, JSON
 * (un)marshalling and I/O failures of the database are not modelled.
 */
module Store {
  import opened Rand
  import opened Models

  /** True iff the row answers `WHERE game_id = gameId AND is_answered = 0`. */
  predicate Open(q: GameQuestionDetail, gameId: int)
  {
    q.gameId == gameId && q.isAnswered == 0
  }

  /** Ids strictly increase along the table: rows are kept in insertion (id) order. */
  ghost predicate IdsIncrease(qs: seq<GameQuestionDetail>)
  {
    forall i, j | 0 <= i < j < |qs| :: qs[i].id < qs[j].id
  }

  /** The index of the row `WHERE id = questionId AND game_id = gameId`, if there is one. */
  function FindRow(qs: seq<GameQuestionDetail>, gameId: int, questionId: int): (r: Option<nat>)
    ensures r.Some? ==> r.value < |qs| && qs[r.value].id == questionId && qs[r.value].gameId == gameId
    ensures r.None? ==> forall i | 0 <= i < |qs| :: !(qs[i].id == questionId && qs[i].gameId == gameId)
  {
    if |qs| == 0 then None
    else if qs[0].id == questionId && qs[0].gameId == gameId then Some(0)
    else match FindRow(qs[1..], gameId, questionId)
      case None => None
      case Some(i) => Some(i + 1)
  }

  /** The index of the first unanswered row of the game, if there is one. */
  function FirstOpen(qs: seq<GameQuestionDetail>, gameId: int): (r: Option<nat>)
    ensures r.Some? ==> r.value < |qs| && Open(qs[r.value], gameId)
    ensures r.Some? ==> forall i | 0 <= i < r.value :: !Open(qs[i], gameId)
    ensures r.None? ==> forall i | 0 <= i < |qs| :: !Open(qs[i], gameId)
  {
    if |qs| == 0 then None
    else if Open(qs[0], gameId) then Some(0)
    else match FirstOpen(qs[1..], gameId)
      case None => None
      case Some(i) => Some(i + 1)
  }

  /** The rows of one game, in table order (`SELECT ... WHERE game_id = ?`). */
  function RowsOf(qs: seq<GameQuestionDetail>, gameId: int): (r: seq<GameQuestionDetail>)
    ensures forall q | q in r :: q in qs && q.gameId == gameId
    ensures forall q | q in qs && q.gameId == gameId :: q in r
  {
    if |qs| == 0 then []
    else (if qs[0].gameId == gameId then [qs[0]] else []) + RowsOf(qs[1..], gameId)
  }

  /** Dropping the first row keeps the ids increasing. */
  lemma IdsIncreaseTail(qs: seq<GameQuestionDetail>)
    requires IdsIncrease(qs) && |qs| > 0
    ensures IdsIncrease(qs[1..])
  {
    var tail := qs[1..];
    forall i, j | 0 <= i < j < |tail| ensures tail[i].id < tail[j].id {
      assert tail[i] == qs[i + 1] && tail[j] == qs[j + 1];
    }
  }

  /** Over increasing ids, the first row's id is below that of every later row of any game. */
  lemma HeadBelowRowsOf(qs: seq<GameQuestionDetail>, gameId: int)
    requires IdsIncrease(qs) && |qs| > 0
    ensures forall q | q in RowsOf(qs[1..], gameId) :: qs[0].id < q.id
  {
    var tail := qs[1..];
    forall q | q in RowsOf(tail, gameId) ensures qs[0].id < q.id {
      assert q in tail;
      var k :| 0 <= k < |tail| && tail[k] == q;
      assert tail[k] == qs[k + 1];
    }
  }

  /** A row whose id is below every id of an increasing table can be put in front of it. */
  lemma ConsInOrder(h: GameQuestionDetail, rest: seq<GameQuestionDetail>)
    requires IdsIncrease(rest) && forall q | q in rest :: h.id < q.id
    ensures IdsIncrease([h] + rest)
  {
    var r := [h] + rest;
    forall i, j | 0 <= i < j < |r| ensures r[i].id < r[j].id {
      assert r[j] == rest[j - 1] && rest[j - 1] in rest;
      if i > 0 {
        assert r[i] == rest[i - 1];
      }
    }
  }

  /**
   * RowsOf keeps table order: over a table whose ids increase, the game's rows come out
   * with increasing ids, so each row appears once and in the order of the table.
   */
  lemma {:induction false} RowsOfInOrder(qs: seq<GameQuestionDetail>, gameId: int)
    requires IdsIncrease(qs)
    ensures IdsIncrease(RowsOf(qs, gameId))
  {
    if |qs| > 0 {
      IdsIncreaseTail(qs);
      RowsOfInOrder(qs[1..], gameId);
      var rest := RowsOf(qs[1..], gameId);
      if qs[0].gameId == gameId {
        HeadBelowRowsOf(qs, gameId);
        ConsInOrder(qs[0], rest);
        assert RowsOf(qs, gameId) == [qs[0]] + rest;
      } else {
        assert RowsOf(qs, gameId) == rest;
      }
    }
  }

  /** `SELECT COUNT(*) ... WHERE game_id = ? AND is_answered = 0`. */
  function OpenCount(qs: seq<GameQuestionDetail>, gameId: int): nat
  {
    if |qs| == 0 then 0
    else (if Open(qs[0], gameId) then 1 else 0) + OpenCount(qs[1..], gameId)
  }

  /** More than one unanswered row of the game is the same as two distinct such rows. */
  lemma {:induction false} OpenCountAboveOne(qs: seq<GameQuestionDetail>, gameId: int)
    ensures OpenCount(qs, gameId) > 1 <==>
      exists i, j | 0 <= i < j < |qs| :: Open(qs[i], gameId) && Open(qs[j], gameId)
  {
    if |qs| > 0 {
      OpenCountAboveOne(qs[1..], gameId);
      OpenCountPositive(qs[1..], gameId);
      if OpenCount(qs, gameId) > 1 {
        if Open(qs[0], gameId) {
          var j :| 0 <= j < |qs[1..]| && Open(qs[1..][j], gameId);
          assert Open(qs[0], gameId) && Open(qs[j + 1], gameId);
        } else {
          var i, j :| 0 <= i < j < |qs[1..]| && Open(qs[1..][i], gameId) && Open(qs[1..][j], gameId);
          assert Open(qs[i + 1], gameId) && Open(qs[j + 1], gameId);
        }
      }
      if exists i, j | 0 <= i < j < |qs| :: Open(qs[i], gameId) && Open(qs[j], gameId) {
        var i, j :| 0 <= i < j < |qs| && Open(qs[i], gameId) && Open(qs[j], gameId);
        if i == 0 {
          assert Open(qs[1..][j - 1], gameId);
        } else {
          assert Open(qs[1..][i - 1], gameId) && Open(qs[1..][j - 1], gameId);
        }
      }
    }
  }

  /** At least one unanswered row of the game is the same as a positive count. */
  lemma {:induction false} OpenCountPositive(qs: seq<GameQuestionDetail>, gameId: int)
    ensures OpenCount(qs, gameId) > 0 <==> exists i | 0 <= i < |qs| :: Open(qs[i], gameId)
  {
    if |qs| > 0 {
      OpenCountPositive(qs[1..], gameId);
      if exists i | 0 <= i < |qs| :: Open(qs[i], gameId) {
        var i :| 0 <= i < |qs| && Open(qs[i], gameId);
        if i > 0 {
          assert Open(qs[1..][i - 1], gameId);
        }
      }
      if OpenCount(qs[1..], gameId) > 0 {
        var i :| 0 <= i < |qs[1..]| && Open(qs[1..][i], gameId);
        assert Open(qs[i + 1], gameId);
      }
    }
  }

  /** The copy GetGameResult reports for a row: the correct id zeroed while unanswered, all else kept. */
  predicate Hidden(row: GameQuestionDetail, shown: GameQuestionDetail)
  {
    && shown == row.(correctDestinationId := shown.correctDestinationId)
    && shown.correctDestinationId == (if row.isAnswered == 0 then 0 else row.correctDestinationId)
  }

  /** The games row after one answer: answered and exactly one of correct / incorrect go up by one. */
  function Tally(g: Game, isCorrect: bool): (r: Game)
    ensures r.totalAnswered == g.totalAnswered + 1
    ensures r.totalCorrect == g.totalCorrect + (if isCorrect then 1 else 0)
    ensures r.totalIncorrect == g.totalIncorrect + (if isCorrect then 0 else 1)
    ensures r.(totalAnswered := g.totalAnswered, totalCorrect := g.totalCorrect, totalIncorrect := g.totalIncorrect) == g
  {
    if isCorrect then g.(totalCorrect := g.totalCorrect + 1, totalAnswered := g.totalAnswered + 1)
    else g.(totalIncorrect := g.totalIncorrect + 1, totalAnswered := g.totalAnswered + 1)
  }

  /** Where the user with that handle sits, if anywhere. */
  function FindUser(users: seq<User>, username: string): (r: Option<nat>)
    ensures r.Some? ==> r.value < |users| && users[r.value].username == username
    ensures r.None? ==> forall i | 0 <= i < |users| :: users[i].username != username
  {
    if |users| == 0 then None
    else if users[0].username == username then Some(0)
    else match FindUser(users[1..], username)
      case None => None
      case Some(i) => Some(i + 1)
  }

  /** Where the user with that id sits, if anywhere. */
  function FindUserById(users: seq<User>, userId: int): (r: Option<nat>)
    ensures r.Some? ==> r.value < |users| && users[r.value].id == userId
    ensures r.None? ==> forall i | 0 <= i < |users| :: users[i].id != userId
  {
    if |users| == 0 then None
    else if users[0].id == userId then Some(0)
    else match FindUserById(users[1..], userId)
      case None => None
      case Some(i) => Some(i + 1)
  }

  /** Where the catalog entry with that id sits, if anywhere. */
  function FindDestination(ds: seq<Destination>, id: int): (r: Option<nat>)
    ensures r.Some? ==> r.value < |ds| && ds[r.value].id == id
    ensures r.None? ==> id !in Ids(ds)
  {
    if |ds| == 0 then None
    else if ds[0].id == id then Some(0)
    else match FindDestination(ds[1..], id)
      case None => None
      case Some(i) => Some(i + 1)
  }

  class Database {
    /** The destinations table, seeded once at start-up and never written afterwards. */
    const destinations: seq<Destination>
    var users: seq<User>
    var games: map<int, Game>
    var questions: seq<GameQuestionDetail>
    var lastUserId: int
    var lastGameId: int
    var lastQuestionId: int

    ghost predicate Valid()
      reads this
    {
      && Distinct(Ids(destinations))
      && (forall i | 0 <= i < |users| :: 0 < users[i].id <= lastUserId)
      && (forall i, j | 0 <= i < j < |users| :: users[i].username != users[j].username && users[i].id < users[j].id)
      && (forall id | id in games :: games[id].id == id && 0 < id <= lastGameId)
      && (forall id | id in games :: games[id].totalAnswered == games[id].totalCorrect + games[id].totalIncorrect)
      && (forall id | id in games :: 0 <= games[id].totalCorrect && 0 <= games[id].totalIncorrect)
      && (forall i | 0 <= i < |questions| :: 0 < questions[i].id <= lastQuestionId)
      && (forall i | 0 <= i < |questions| :: questions[i].isAnswered == 0 || questions[i].isAnswered == 1)
      && IdsIncrease(questions)
      && 0 <= lastUserId && 0 <= lastGameId && 0 <= lastQuestionId
    }

    /** A database over a seeded catalog with empty users, games and questions tables. */
    constructor (catalog: seq<Destination>)
      requires Distinct(Ids(catalog))
      ensures Valid()
      ensures destinations == catalog && users == [] && games == map[] && questions == []
    {
      destinations := catalog;
      users := [];
      games := map[];
      questions := [];
      lastUserId, lastGameId, lastQuestionId := 0, 0, 0;
    }

    /** GetUserByUsername: the row with that handle, or not-found. */
    function GetUserByUsername(username: string): (r: Result<User>)
      reads this
      ensures r.Ok? ==> r.value in users && r.value.username == username
      ensures r.Err? ==> r.error == NotFound && forall u | u in users :: u.username != username
    {
      match FindUser(users, username)
      case Some(i) => Ok(users[i])
      case None => Err(NotFound)
    }

    /** GetUserByID: the row with that id, or not-found. */
    function GetUserById(userId: int): (r: Result<User>)
      reads this
      ensures r.Ok? ==> r.value in users && r.value.id == userId
      ensures r.Err? ==> r.error == NotFound && forall u | u in users :: u.id != userId
    {
      match FindUserById(users, userId)
      case Some(i) => Ok(users[i])
      case None => Err(NotFound)
    }

    /**
     * SaveUser: a handle already present only has its created_at overwritten; a new
     * handle is inserted with a fresh id.
     */
    method SaveUser(user: User)
      requires Valid()
      modifies this
      ensures Valid()
      ensures games == old(games) && questions == old(questions)
      ensures lastGameId == old(lastGameId) && lastQuestionId == old(lastQuestionId)
      ensures old(FindUser(users, user.username)).Some? ==>
        var i := old(FindUser(users, user.username)).value;
        users == old(users)[i := old(users)[i].(createdAt := user.createdAt)] && lastUserId == old(lastUserId)
      ensures old(FindUser(users, user.username)).None? ==>
        users == old(users) + [User(old(lastUserId) + 1, user.username, user.createdAt)] && lastUserId == old(lastUserId) + 1
      ensures GetUserByUsername(user.username).Ok?
    {
      var found := FindUser(users, user.username);
      if found.Some? {
        users := users[found.value := users[found.value].(createdAt := user.createdAt)];
        assert users[found.value].username == user.username;
      } else {
        lastUserId := lastUserId + 1;
        users := users + [User(lastUserId, user.username, user.createdAt)];
      }
    }

    /** GetDestinationByID: the catalog entry with that id, or not-found. */
    function GetDestinationById(destinationId: int): (r: Result<Destination>)
      reads this
      ensures r.Ok? ==> r.value in destinations && r.value.id == destinationId
      ensures r.Err? ==> r.error == NotFound && destinationId !in Ids(destinations)
    {
      match FindDestination(destinations, destinationId)
      case Some(i) => Ok(destinations[i])
      case None => Err(NotFound)
    }

    /** CreateGame: a new games row with the given question count, zero counters and a fresh id. */
    method CreateGame(userId: int, totalQuestions: int) returns (gameId: int)
      requires Valid()
      modifies this
      ensures Valid()
      ensures gameId == old(lastGameId) + 1 && gameId !in old(games)
      ensures games == old(games)[gameId := Game(gameId, userId, totalQuestions, 0, 0, 0)]
      ensures lastGameId == gameId
      ensures users == old(users) && questions == old(questions)
      ensures lastUserId == old(lastUserId) && lastQuestionId == old(lastQuestionId)
    {
      lastGameId := lastGameId + 1;
      gameId := lastGameId;
      games := games[gameId := Game(gameId, userId, totalQuestions, 0, 0, 0)];
    }

    /**
     * AddGameQuestion: a new unanswered game_questions row with the options in the given
     * order and an id above every earlier one.
     */
    method AddGameQuestion(gameId: int, question: string, optionDestinationIds: seq<int>, correctDestinationId: int)
      returns (questionId: int)
      requires Valid()
      modifies this
      ensures Valid()
      ensures questionId == old(lastQuestionId) + 1 && lastQuestionId == questionId
      ensures forall q | q in old(questions) :: q.id < questionId
      ensures questions == old(questions) + [GameQuestionDetail(questionId, gameId, question, optionDestinationIds, correctDestinationId, 0, 0)]
      ensures users == old(users) && games == old(games)
      ensures lastUserId == old(lastUserId) && lastGameId == old(lastGameId)
    {
      lastQuestionId := lastQuestionId + 1;
      questionId := lastQuestionId;
      questions := questions + [GameQuestionDetail(questionId, gameId, question, optionDestinationIds, correctDestinationId, 0, 0)];
    }

    /** GetNextQuestion: the unanswered row of the game with the smallest id, or not-found. */
    function GetNextQuestion(gameId: int): (r: Result<GameQuestionDetail>)
      reads this
      requires Valid()
      ensures r.Ok? ==> r.value in questions && Open(r.value, gameId)
      ensures r.Ok? ==> forall q | q in questions && Open(q, gameId) :: r.value.id <= q.id
      ensures r.Err? <==> forall q | q in questions :: !Open(q, gameId)
      ensures r.Err? ==> r.error == NotFound
    {
      match FirstOpen(questions, gameId)
      case Some(i) =>
        assert forall j | 0 <= j < |questions| && Open(questions[j], gameId) :: i <= j;
        Ok(questions[i])
      case None => Err(NotFound)
    }

    /** GetQuestionByID: the row with that id only if it belongs to that game; a mismatch reads as not-found. */
    function GetQuestionById(gameId: int, questionId: int): (r: Result<GameQuestionDetail>)
      reads this
      ensures r.Ok? ==> r.value in questions && r.value.id == questionId && r.value.gameId == gameId
      ensures r.Err? <==> forall q | q in questions :: !(q.id == questionId && q.gameId == gameId)
      ensures r.Err? ==> r.error == NotFound
    {
      match FindRow(questions, gameId, questionId)
      case Some(i) => Ok(questions[i])
      case None => Err(NotFound)
    }

    /** GetGame: the games row with that id, or not-found. */
    function GetGame(gameId: int): (r: Result<Game>)
      reads this
      requires Valid()
      ensures r.Ok? <==> gameId in games
      ensures r.Ok? ==> r.value == games[gameId] && r.value.id == gameId
      ensures r.Ok? ==> r.value.totalAnswered == r.value.totalCorrect + r.value.totalIncorrect
      ensures r.Err? ==> r.error == NotFound
    {
      if gameId in games then Ok(games[gameId]) else Err(NotFound)
    }

    /** HasNextQuestion: true iff MORE THAN ONE unanswered row of the game remains. */
    function HasNextQuestion(gameId: int): (r: bool)
      reads this
      ensures r <==> exists i, j | 0 <= i < j < |questions| :: Open(questions[i], gameId) && Open(questions[j], gameId)
    {
      OpenCountAboveOne(questions, gameId);
      OpenCount(questions, gameId) > 1
    }

    /**
     * SubmitAnswer: record the selection on the one row with that id and game, then
     * count the answer on the games row. There is no answered guard at this layer.
     */
    method SubmitAnswer(gameId: int, questionId: int, selectedDestinationId: int) returns (r: Outcome)
      requires Valid()
      modifies this
      ensures Valid()
      ensures users == old(users) && lastUserId == old(lastUserId)
      ensures lastGameId == old(lastGameId) && lastQuestionId == old(lastQuestionId)
      ensures old(FindRow(questions, gameId, questionId)).None? ==>
        r == Fail(NotFound) && questions == old(questions) && games == old(games)
      ensures old(FindRow(questions, gameId, questionId)).Some? ==>
        var i := old(FindRow(questions, gameId, questionId)).value;
        var row := old(questions)[i];
        && r == Pass
        && questions == old(questions)[i := row.(selectedDestinationId := selectedDestinationId, isAnswered := 1)]
        && games == if gameId in old(games)
                    then old(games)[gameId := Tally(old(games)[gameId], selectedDestinationId == row.correctDestinationId)]
                    else old(games)
    {
      var found := FindRow(questions, gameId, questionId);
      if found.None? {
        return Fail(NotFound);
      }
      var i := found.value;
      questions := questions[i := questions[i].(selectedDestinationId := selectedDestinationId, isAnswered := 1)];
      var correctDestinationId := questions[i].correctDestinationId;
      var isCorrect := selectedDestinationId == correctDestinationId;
      if gameId in games {
        games := games[gameId := Tally(games[gameId], isCorrect)];
      }
      r := Pass;
    }

    /**
     * GetGameResult: the game's counters and a copy of each of its rows in which the
     * correct id is zeroed while the row is unanswered.
     */
    method GetGameResult(gameId: int) returns (r: Result<GameResult>)
      requires Valid()
      ensures r.Err? <==> gameId !in games
      ensures r.Err? ==> r.error == NotFound
      ensures r.Ok? ==>
        var g := games[gameId];
        && r.value.gameId == gameId && r.value.totalQuestions == g.totalQuestions
        && r.value.totalCorrect == g.totalCorrect && r.value.totalIncorrect == g.totalIncorrect
      ensures r.Ok? ==>
        var rows := RowsOf(questions, gameId);
        |r.value.questions| == |rows| && forall i | 0 <= i < |rows| :: Hidden(rows[i], r.value.questions[i])
    {
      if gameId !in games {
        return Err(NotFound);
      }
      var game := games[gameId];
      var rows := RowsOf(questions, gameId);
      var shown: seq<GameQuestionDetail> := [];
      for i := 0 to |rows|
        invariant |shown| == i
        invariant forall k | 0 <= k < i :: Hidden(rows[k], shown[k])
      {
        var q := rows[i];
        if q.isAnswered == 0 {
          q := q.(correctDestinationId := 0);
        }
        shown := shown + [q];
      }
      r := Ok(GameResult(game.id, game.totalQuestions, game.totalCorrect, game.totalIncorrect, shown));
    }
  }

  /**
   * The `count > 1` test: while exactly one unanswered question of a game remains,
   * GetNextQuestion still serves it but HasNextQuestion already answers false.
   */
  lemma LastOpenQuestionNotFlagged(db: Database, gameId: int)
    requires db.Valid()
    requires OpenCount(db.questions, gameId) == 1
    ensures db.GetNextQuestion(gameId).Ok?
    ensures !db.HasNextQuestion(gameId)
  {
    OpenCountPositive(db.questions, gameId);
    var i :| 0 <= i < |db.questions| && Open(db.questions[i], gameId);
    assert db.questions[i] in db.questions;
  }
}
