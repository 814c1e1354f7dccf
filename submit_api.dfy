/** `POST /api/submit`: checks an answer against the fixed challenge catalog and,
    when it is right, awards points to the player. */
module SubmitApi {
  import opened Wrappers
  import opened UserStore

  datatype Challenge = Challenge(id: int, question: string, options: seq<string>, answer: string)

  const Catalog: seq<Challenge> := [
    Challenge(1, "Decrypt this Caesar cipher (shift of 3): Khoor", [], "Hello"),
    Challenge(2, "Decode this binary: 01001000 01001001", [], "HI"),
    Challenge(3, "What does 'HTTP' stand for?", [], "HyperText Transfer Protocol"),
    Challenge(4, "What does 'SQL' stand for?",
      ["Standard Query Language", "Structured Query Language",
       "Simple Query Language", "System Query Language"],
      "Structured Query Language"),
    Challenge(5, "Final riddle: What message appears when you successfully breach a system? (format: 'Hacked by __')",
      [], "Hacked by JH")
  ]

  /** Answering this challenge correctly completes the game. */
  const FinalChallenge := 5

  /** Points awarded for each correct answer. */
  const Award := 10

  /** `challenges.find(c => c.id === id)`: the first challenge with this id. */
  function FindChallenge(cs: seq<Challenge>, id: int): (r: Option<Challenge>)
    ensures r.Some? ==> r.value in cs && r.value.id == id
    ensures r.None? ==> forall i :: 0 <= i < |cs| ==> cs[i].id != id
  {
    if cs == [] then None
    else if cs[0].id == id then Some(cs[0])
    else FindChallenge(cs[1..], id)
  }

  /** The catalog holds exactly the ids 1 to 5, the challenge with id k at position k - 1. */
  lemma CatalogLookup(id: int)
    ensures FindChallenge(Catalog, id).Some? <==> 1 <= id <= 5
    ensures 1 <= id <= 5 ==> FindChallenge(Catalog, id) == Some(Catalog[id - 1])
  {
    assert forall i :: 0 <= i < |Catalog| ==> Catalog[i].id == i + 1;
    if 1 <= id <= 5 {
      assert Catalog[id - 1].id == id;
    }
  }

  /** ASCII case folding, the part of `toLowerCase` the catalog answers use. */
  function LowerChar(c: char): char {
    if 'A' <= c <= 'Z' then (c as int + 32) as char else c
  }

  function LowerAscii(s: string): string {
    seq(|s|, i requires 0 <= i < |s| => LowerChar(s[i]))
  }

  /** `challenge.answer.toLowerCase() === answer.toLowerCase()`. */
  predicate AnswerMatches(expected: string, given: string) {
    LowerAscii(expected) == LowerAscii(given)
  }

  /** Matching is character by character up to case: the whole string must
      match, with no trimming and no partial credit. */
  lemma AnswerMatchesCharwise(expected: string, given: string)
    ensures AnswerMatches(expected, given) <==>
      |given| == |expected| &&
      forall i :: 0 <= i < |expected| ==> LowerChar(given[i]) == LowerChar(expected[i])
  {
    if |given| == |expected| &&
       forall i :: 0 <= i < |expected| ==> LowerChar(given[i]) == LowerChar(expected[i]) {
      assert LowerAscii(expected) == LowerAscii(given);
    }
    if AnswerMatches(expected, given) {
      assert |LowerAscii(given)| == |given|;
      forall i | 0 <= i < |expected|
        ensures LowerChar(given[i]) == LowerChar(expected[i])
      {
        assert LowerAscii(given)[i] == LowerAscii(expected)[i];
      }
    }
  }

  /** Changing the case of the submitted answer never changes the verdict. */
  lemma AnswerIgnoresCase(expected: string, given: string)
    ensures AnswerMatches(expected, LowerAscii(given)) <==> AnswerMatches(expected, given)
  {
    assert LowerAscii(LowerAscii(given)) == LowerAscii(given);
  }

  /** A padded answer is wrong even if the bare one is right. */
  lemma NoTrimming(expected: string, given: string)
    requires AnswerMatches(expected, given)
    ensures !AnswerMatches(expected, " " + given)
    ensures !AnswerMatches(expected, given + " ")
  {
    assert |LowerAscii(" " + given)| == |given| + 1;
    assert |LowerAscii(given + " ")| == |given| + 1;
  }

  /** The decision the handler takes before it touches the store. */
  datatype Verdict = MissingFields | InvalidChallenge | Wrong | Right(challenge: int)

  function Evaluate(userId: Option<string>, challengeId: Option<int>, answer: Option<string>): (v: Verdict)
    ensures v == MissingFields <==> FalsyText(userId) || FalsyNumber(challengeId) || FalsyText(answer)
    ensures v == InvalidChallenge <==>
      !FalsyText(userId) && !FalsyNumber(challengeId) && !FalsyText(answer)
      && !(1 <= challengeId.value <= 5)
    ensures v.Right? <==>
      !FalsyText(userId) && !FalsyNumber(challengeId) && !FalsyText(answer)
      && 1 <= challengeId.value <= 5
      && AnswerMatches(Catalog[challengeId.value - 1].answer, answer.value)
    ensures v.Right? ==> v.challenge == challengeId.value
  {
    if FalsyText(userId) || FalsyNumber(challengeId) || FalsyText(answer) then MissingFields
    else
      CatalogLookup(challengeId.value);
      match FindChallenge(Catalog, challengeId.value)
      case None => InvalidChallenge
      case Some(c) =>
        if AnswerMatches(c.answer, answer.value) then Right(challengeId.value) else Wrong
  }

  /** The record after a correct answer: ten more points and, for the final
      challenge, completion stamped with the current time. */
  function Rewarded(u: Player, challenge: int, now: int): (r: Player)
    ensures r.points == u.points + Award
    ensures r.id == u.id && r.name == u.name && r.roll == u.roll && r.startTime == u.startTime
    ensures challenge == FinalChallenge ==> r.status == Completed && r.finishTime == Some(now)
    ensures challenge != FinalChallenge ==> r.status == u.status && r.finishTime == u.finishTime
  {
    if challenge == FinalChallenge then
      u.(points := u.points + Award, status := Completed, finishTime := Some(now))
    else
      u.(points := u.points + Award)
  }

  /** Rewarding keeps a record well formed: points stay a multiple of ten and
      Completed still goes with a finish time. */
  lemma RewardedWellFormed(u: Player, challenge: int, now: int)
    requires WellFormed(u)
    ensures WellFormed(Rewarded(u, challenge, now))
  {
  }

  /** Nothing guards against repeats: the same correct answer submitted twice
      pays twice, and the final challenge moves the finish time to the later submission. */
  lemma {:induction false} RepeatedReward(u: Player, challenge: int, now1: int, now2: int)
    ensures Rewarded(Rewarded(u, challenge, now1), challenge, now2).points == u.points + 2 * Award
    ensures challenge == FinalChallenge ==>
      Rewarded(Rewarded(u, challenge, now1), challenge, now2).finishTime == Some(now2)
  {
  }

  datatype SubmitResponse =
    | MissingFieldsError
    | InvalidChallengeError
    | Incorrect
    | UserNotFound
    | Correct(user: Player, isComplete: bool)

  function HttpStatus(r: SubmitResponse): int {
    match r
    case MissingFieldsError => 400
    case InvalidChallengeError => 400
    case Incorrect => 200
    case UserNotFound => 404
    case Correct(_, _) => 200
  }

  /** The handler. A wrong answer is reported without looking the player up,
      so it is `correct: false` even for an unknown id. */
  method Post(users: UserTable, userId: Option<string>, challengeId: Option<int>,
              answer: Option<string>, now: int) returns (r: SubmitResponse)
    requires users.Valid()
    modifies users
    ensures users.Valid() && users.nextId == old(users.nextId)
    ensures AllWellFormed(old(users.rows)) ==> AllWellFormed(users.rows)
    ensures var v := Evaluate(userId, challengeId, answer);
      && (v == MissingFields ==> r == MissingFieldsError && HttpStatus(r) == 400 && users.rows == old(users.rows))
      && (v == InvalidChallenge ==> r == InvalidChallengeError && HttpStatus(r) == 400 && users.rows == old(users.rows))
      && (v == Wrong ==> r == Incorrect && HttpStatus(r) == 200 && users.rows == old(users.rows))
      && (v.Right? && IndexOf(old(users.rows), userId.value).None? ==>
            r == UserNotFound && HttpStatus(r) == 404 && users.rows == old(users.rows))
      && (v.Right? && IndexOf(old(users.rows), userId.value).Some? ==>
            var i := IndexOf(old(users.rows), userId.value).value;
            && users.rows == old(users.rows)[i := Rewarded(old(users.rows)[i], v.challenge, now)]
            && r == Correct(users.rows[i], v.challenge == FinalChallenge) && HttpStatus(r) == 200)
  {
    var v := Evaluate(userId, challengeId, answer);
    match v
    case MissingFields =>
      r := MissingFieldsError;
    case InvalidChallenge =>
      r := InvalidChallengeError;
    case Wrong =>
      r := Incorrect;
    case Right(challenge) =>
      var found := IndexOf(users.rows, userId.value);
      if found.None? {
        r := UserNotFound;
      } else {
        var i := found.value;
        var updated := Rewarded(users.rows[i], challenge, now);
        if WellFormed(users.rows[i]) {
          RewardedWellFormed(users.rows[i], challenge, now);
        }
        users.Update(i, updated);
        r := Correct(updated, challenge == FinalChallenge);
      }
  }
}
