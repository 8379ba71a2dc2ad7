/**
 * The record shapes of backend/models/models.go and the label-based option generator
 * GenerateOptions, with the error kinds the services report.
 *
 * Lists stored as JSON text in the database (clues, fun facts, trivia, option ids) are
 * plain sequences here. Timestamps are left out.
 */
module Models {
  import opened Rand

  datatype Option<T> = None | Some(value: T)

  /** A catalog entry; `id` is the table's primary key. */
  datatype Destination = Destination(
    id: int,
    city: string,
    country: string,
    clues: seq<string>,
    funFact: seq<string>,
    trivia: seq<string>)

  datatype User = User(id: int, username: string, createdAt: string)

  /** A games row: the three counters and the fixed question count. */
  datatype Game = Game(
    id: int,
    userId: int,
    totalQuestions: int,
    totalCorrect: int,
    totalIncorrect: int,
    totalAnswered: int)

  /** A game_questions row; `isAnswered` is 0 or 1 and `selectedDestinationId` is 0 until answered. */
  datatype GameQuestionDetail = GameQuestionDetail(
    id: int,
    gameId: int,
    question: string,
    optionDestinationIds: seq<int>,
    correctDestinationId: int,
    selectedDestinationId: int,
    isAnswered: int)

  /** The answer verdict; an empty `funFact` or `trivia` is Go's omitted string. */
  datatype SubmitAnswerResponse = SubmitAnswerResponse(
    correct: bool,
    funFact: string,
    trivia: string,
    correctCity: string,
    correctCountry: string,
    correctOptionId: int)

  datatype GameResult = GameResult(
    gameId: int,
    totalQuestions: int,
    totalCorrect: int,
    totalIncorrect: int,
    questions: seq<GameQuestionDetail>)

  datatype GameSummary = GameSummary(
    gameId: int,
    username: string,
    imageUrl: string,
    totalQuestions: int,
    totalAnswered: int,
    totalCorrect: int)

  /** Failures the store and the services report; `NotFound` is sql.ErrNoRows, `SliceOutOfRange` a Go panic. */
  datatype Error = NotFound | AlreadyAnswered | NotAnOption | UsernameExists | SliceOutOfRange

  datatype Result<T> = Ok(value: T) | Err(error: Error)

  datatype Outcome = Pass | Fail(error: Error)

  /** The id column of a list of destinations. */
  function Ids(ds: seq<Destination>): (r: seq<int>)
    ensures |r| == |ds| && forall i | 0 <= i < |ds| :: r[i] == ds[i].id
  {
    seq(|ds|, i requires 0 <= i < |ds| => ds[i].id)
  }

  lemma IdsSwap(ds: seq<Destination>, i: nat, j: nat)
    requires i < |ds| && j < |ds|
    ensures Ids(Swap(ds, i, j)) == Swap(Ids(ds), i, j)
  {
    var l := Ids(Swap(ds, i, j));
    var r := Swap(Ids(ds), i, j);
    assert forall k | 0 <= k < |ds| :: l[k] == r[k];
  }

  lemma {:induction false} IdsShuffleDown(ds: seq<Destination>, js: seq<nat>, i: nat)
    requires i < |ds|
    ensures Ids(ShuffleDown(ds, js, i)) == ShuffleDown(Ids(ds), js, i)
    decreases i
  {
    if i > 0 {
      var j := Intn(Draw(js, i), i + 1);
      IdsSwap(ds, i, j);
      IdsShuffleDown(Swap(ds, i, j), js, i - 1);
    }
  }

  /** Shuffling destinations and then taking their ids is shuffling the ids. */
  lemma IdsShuffled(ds: seq<Destination>, js: seq<nat>)
    ensures Ids(Shuffled(ds, js)) == Shuffled(Ids(ds), js)
  {
    if |ds| > 0 {
      IdsShuffleDown(ds, js, |ds| - 1);
    }
  }

  /** The option label "City, Country". */
  function Label(d: Destination): string
  {
    d.city + ", " + d.country
  }

  /** A label GenerateOptions may add as a distractor: that of a catalog entry whose id is not the correct one. */
  ghost predicate Distractor(correct: Destination, all: seq<Destination>, o: string)
  {
    exists d | d in all :: d.id != correct.id && Label(d) == o
  }

  /** Three catalog entries, none with the correct id, whose labels are pairwise distinct and differ from the correct label. */
  ghost predicate EnoughDistractors(correct: Destination, all: seq<Destination>)
  {
    exists a, b, c | a in all && b in all && c in all ::
      && a.id != correct.id && b.id != correct.id && c.id != correct.id
      && Distinct([Label(correct), Label(a), Label(b), Label(c)])
  }

  /**
   * The retry loop of GenerateOptions as a function: from draw k on, with `options`
   * collected so far, the list the loop holds when it reaches four labels or the oracle
   * runs out of draws.
   */
  function Collect(correct: Destination, all: seq<Destination>, draws: seq<nat>, k: nat, options: seq<string>): (r: seq<string>)
    ensures |options| <= |r| && r[..|options|] == options
    ensures |options| <= 4 ==> |r| <= 4
    ensures Distinct(options) ==> Distinct(r)
    ensures forall i | |options| <= i < |r| :: Distractor(correct, all, r[i])
    decreases |draws| - k
  {
    if |options| >= 4 || k >= |draws| || |all| == 0 then options
    else
      var d := all[Intn(draws[k], |all|)];
      if d.id == correct.id || Label(d) in options then Collect(correct, all, draws, k + 1, options)
      else
        var r := Collect(correct, all, draws, k + 1, options + [Label(d)]);
        assert r[|options|] == Label(d);
        r
  }

  /** The labels the loop starts from: the correct one alone. */
  function Start(correct: Destination): seq<string>
  {
    [Label(correct)]
  }

  /** The loop ends only for an oracle under which it collects four labels. */
  ghost predicate Ends(correct: Destination, all: seq<Destination>, draws: seq<nat>)
  {
    |Collect(correct, all, draws, 0, Start(correct))| == 4
  }

  /** If the retry loop ends, the catalog holds three usable distractors. */
  lemma EndsOnlyWithEnoughDistractors(correct: Destination, all: seq<Destination>, draws: seq<nat>)
    requires Ends(correct, all, draws)
    ensures EnoughDistractors(correct, all)
  {
    var r := Collect(correct, all, draws, 0, Start(correct));
    assert r[..1] == Start(correct);
    assert Distractor(correct, all, r[1]) && Distractor(correct, all, r[2]) && Distractor(correct, all, r[3]);
    var a :| a in all && a.id != correct.id && Label(a) == r[1];
    var b :| b in all && b.id != correct.id && Label(b) == r[2];
    var c :| c in all && c.id != correct.id && Label(c) == r[3];
    assert [Label(correct), Label(a), Label(b), Label(c)] == r;
  }

  /** One pass of the retry loop while fewer than four labels are collected and draws remain. */
  lemma CollectStep(correct: Destination, all: seq<Destination>, draws: seq<nat>, k: nat, options: seq<string>)
    requires k < |draws| && |options| < 4 && 0 < |all|
    ensures var d := all[Intn(draws[k], |all|)];
      Collect(correct, all, draws, k, options) ==
        if d.id == correct.id || Label(d) in options then Collect(correct, all, draws, k + 1, options)
        else Collect(correct, all, draws, k + 1, options + [Label(d)])
  {
  }

  /** The duplicate scan of GenerateOptions. */
  method Contains(options: seq<string>, option: string) returns (duplicate: bool)
    ensures duplicate <==> option in options
  {
    duplicate := false;
    var i := 0;
    while i < |options|
      invariant 0 <= i <= |options|
      invariant !duplicate ==> option !in options[..i]
      invariant duplicate ==> option in options
    {
      if options[i] == option {
        duplicate := true;
        break;
      }
      i := i + 1;
    }
    assert duplicate || options[..i] == options;
  }

  /** One pass of the retry loop that accepts the drawn destination. */
  lemma CollectAccepts(correct: Destination, all: seq<Destination>, draws: seq<nat>, k: nat, options: seq<string>, d: Destination)
    requires k < |draws| && |options| < 4 && 0 < |all| && all[Intn(draws[k], |all|)] == d
    requires d.id != correct.id && Label(d) !in options
    ensures Collect(correct, all, draws, k, options) == Collect(correct, all, draws, k + 1, options + [Label(d)])
  {
  }

  /** Three draws that hit usable distractors end the retry loop. */
  lemma ThreeDrawsEnd(correct: Destination, all: seq<Destination>, a: Destination, b: Destination, c: Destination, ia: nat, ib: nat, ic: nat)
    requires ia < |all| && ib < |all| && ic < |all| && all[ia] == a && all[ib] == b && all[ic] == c
    requires a.id != correct.id && b.id != correct.id && c.id != correct.id
    requires Distinct([Label(correct), Label(a), Label(b), Label(c)])
    ensures Ends(correct, all, [ia, ib, ic])
  {
    var draws: seq<nat> := [ia, ib, ic];
    var l := [Label(correct), Label(a), Label(b), Label(c)];
    assert l[0] != l[1] && l[0] != l[2] && l[0] != l[3] && l[1] != l[2] && l[1] != l[3] && l[2] != l[3];
    assert l[..1] == [l[0]] && l[..2] == [l[0], l[1]] && l[..3] == [l[0], l[1], l[2]];
    CollectAccepts(correct, all, draws, 0, l[..1], a);
    CollectAccepts(correct, all, draws, 1, l[..2], b);
    CollectAccepts(correct, all, draws, 2, l[..3], c);
    assert l[..1] + [l[1]] == l[..2] && l[..2] + [l[2]] == l[..3] && l[..3] + [l[3]] == l;
  }

  /** If the catalog holds three usable distractors, some oracle lets the retry loop end. */
  lemma EnoughDistractorsLetItEnd(correct: Destination, all: seq<Destination>)
    requires EnoughDistractors(correct, all)
    ensures exists draws :: Ends(correct, all, draws)
  {
    var a, b, c :| a in all && b in all && c in all
      && a.id != correct.id && b.id != correct.id && c.id != correct.id
      && Distinct([Label(correct), Label(a), Label(b), Label(c)]);
    var ia := PositionOf(all, a);
    var ib := PositionOf(all, b);
    var ic := PositionOf(all, c);
    ThreeDrawsEnd(correct, all, a, b, c, ia, ib, ic);
    ghost var draws: seq<nat> := [ia, ib, ic];
    assert Ends(correct, all, draws);
  }

  /** A position at which a member of a sequence sits. */
  lemma PositionOf<T>(s: seq<T>, x: T) returns (i: nat)
    requires x in s
    ensures i < |s| && s[i] == x
  {
    i :| 0 <= i < |s| && s[i] == x;
  }

  /**
   * GenerateOptions: the correct label, then distractor labels drawn by rand.Intn
   * until four distinct labels exist, then rand.Shuffle. `draws` feeds the retry
   * loop and `perm` the shuffle.
   */
  method GenerateOptions(correctDest: Destination, allDests: seq<Destination>, draws: seq<nat>, perm: seq<nat>)
    returns (options: seq<string>)
    requires Ends(correctDest, allDests, draws)
    ensures |options| == 4
    ensures multiset(options) == multiset(Collect(correctDest, allDests, draws, 0, Start(correctDest)))
    ensures multiset(options)[Label(correctDest)] == 1
    ensures Distinct(options)
    ensures forall o | o in options :: o == Label(correctDest) || Distractor(correctDest, allDests, o)
  {
    var collected := [Label(correctDest)];
    var k := 0;
    while |collected| < 4
      invariant k <= |draws|
      invariant 1 <= |collected| <= 4 && collected[0] == Label(correctDest) && Distinct(collected)
      invariant forall i | 1 <= i < |collected| :: Distractor(correctDest, allDests, collected[i])
      invariant Collect(correctDest, allDests, draws, k, collected) == Collect(correctDest, allDests, draws, 0, Start(correctDest))
      decreases |draws| - k
    {
      CollectStep(correctDest, allDests, draws, k, collected);
      var randIndex := Intn(draws[k], |allDests|);
      k := k + 1;
      var randDest := allDests[randIndex];
      if randDest.id == correctDest.id {
        continue;
      }
      var option := Label(randDest);
      var duplicate := Contains(collected, option);
      if !duplicate {
        collected := collected + [option];
      }
    }
    var a := new string[4](i requires 0 <= i < 4 => collected[i]);
    assert a[..] == collected;
    Shuffle(a, perm);
    options := a[..];
    ShuffledLabels(correctDest, allDests, collected, perm);
  }

  /** The shuffle of the collected labels keeps them distinct, with the correct label once and distractors elsewhere. */
  lemma ShuffledLabels(correct: Destination, all: seq<Destination>, collected: seq<string>, perm: seq<nat>)
    requires 1 <= |collected| && collected[0] == Label(correct) && Distinct(collected)
    requires forall i | 1 <= i < |collected| :: Distractor(correct, all, collected[i])
    ensures multiset(Shuffled(collected, perm)) == multiset(collected)
    ensures multiset(Shuffled(collected, perm))[Label(correct)] == 1
    ensures Distinct(Shuffled(collected, perm))
    ensures forall o | o in Shuffled(collected, perm) :: o == Label(correct) || Distractor(correct, all, o)
  {
    ShuffledPermutation(collected, perm);
    ShuffledDistinct(collected, perm);
    assert collected == [Label(correct)] + collected[1..];
    assert Label(correct) !in collected[1..];
  }
}
