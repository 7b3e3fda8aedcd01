/** The in-process workload driver (server/bench/quiz_service_stress.ts):
    simulated users that join and answer through the quiz service directly,
    one operation at a time.  The driver keeps, per user, the index of the
    question it expects next; on a seeded database that index mirrors the
    progress the database stores.  `Math.random()` draws and clock
    readings are parameters. */
module ServiceDriver {
  import opened Wrappers
  import opened QuizStore
  import opened QuizService
  import Decimal
  import OptionChoice

  /** `UserState`. */
  datatype UserState = UserState(username: string, questionIndex: nat, complete: bool)

  /** The driver's state: the database, the user population and the
      counter user names are numbered from. */
  datatype Driver = Driver(store: Store, users: seq<UserState>, counter: nat)

  // ---------------------------------------------------------------------
  // Question ids and user names
  // ---------------------------------------------------------------------

  /** `questionId.replace(/^q/, "")`: drop one leading `q`. */
  function DropLeadingQ(questionId: string): (r: string)
    ensures |questionId| > 0 && questionId[0] == 'q' ==> r == questionId[1..]
    ensures !(|questionId| > 0 && questionId[0] == 'q') ==> r == questionId
  {
    if |questionId| > 0 && questionId[0] == 'q' then questionId[1..] else questionId
  }

  /** `parseQuestionIndex`: the number after the `q`, minus one; 0 when
      there is no number or it is below 1. */
  function ParseQuestionIndex(questionId: string): (r: nat)
  {
    match Decimal.ParseInt(DropLeadingQ(questionId))
    case NaN => 0
    case Int(v) => if v < 1 then 0 else v - 1
  }

  /** Reading a question id back gives the index it was built from:
      `q(k)` is index k - 1, and `q0` falls back to 0. */
  lemma ParseQuestionIndexOfId(k: nat)
    ensures ParseQuestionIndex(QuestionId(k)) == if k >= 1 then k - 1 else 0
  {
    assert DropLeadingQ(QuestionId(k)) == Decimal.NatToString(k);
    Decimal.ParseIntOfNatToString(k);
  }

  /** Text without any digit after the optional `q` reads as index 0. */
  lemma ParseQuestionIndexWithoutDigits(questionId: string)
    requires Decimal.ParseInt(DropLeadingQ(questionId)).NaN?
    ensures ParseQuestionIndex(questionId) == 0
  {
  }

  const UserNamePrefix := "stress-user-"

  /** `stress-user-${String(n).padStart(8, "0")}`. */
  function UserName(n: nat): string {
    UserNamePrefix + Decimal.PadZeros(Decimal.NatToString(n), 8)
  }

  /** Different counters give different user names. */
  lemma UserNameInjective(a: nat, b: nat)
    requires UserName(a) == UserName(b)
    ensures a == b
  {
    var n := |UserNamePrefix|;
    assert UserName(a)[n..] == Decimal.PadZeros(Decimal.NatToString(a), 8);
    assert UserName(b)[n..] == Decimal.PadZeros(Decimal.NatToString(b), 8);
    Decimal.PaddedRoundTrip(a, 8);
    Decimal.PaddedRoundTrip(b, 8);
  }

  /** `createUser`: the counter goes up by one and names a fresh user at
      index 0, not complete. */
  function CreateUser(counter: nat): (r: (UserState, nat))
    ensures r.1 == counter + 1
    ensures r.0.questionIndex == 0 && !r.0.complete
    ensures r.0.username == UserName(r.1)
  {
    (UserState(UserName(counter + 1), 0, false), counter + 1)
  }

  // ---------------------------------------------------------------------
  // Joining and answering
  // ---------------------------------------------------------------------

  /** `joinUser`: join, then take the returned question's index, or mark
      the user complete when no question comes back. */
  function JoinUser(s: Store, quizId: string, user: UserState, now: int): (r: (Store, UserState))
    ensures r.1.username == user.username
    ensures r.1.complete ==> r.1.questionIndex == user.questionIndex
  {
    var t := Enrol(s, quizId, user.username, now);
    (t, AfterReply(user, QuestionAt(t, quizId, user.username)))
  }

  /** What both `joinUser` and `answerUser` do with the question that comes
      back: none marks the user complete, one sets the index from its id. */
  function AfterReply(user: UserState, question: Option<QuestionPayload>): (r: UserState)
    ensures r.username == user.username
    ensures r.complete <==> question.None?
    ensures question.Some? ==> r.questionIndex == ParseQuestionIndex(question.value.questionId)
  {
    match question
    case None => user.(complete := true)
    case Some(q) => user.(complete := false, questionIndex := ParseQuestionIndex(q.questionId))
  }

  /** The join is `handleJoin`: the database it leaves and the question
      it returns are the ones the driver uses. */
  lemma JoinUserFollowsHandleJoin(s: Store, quizId: string, user: UserState, now: int)
    ensures var result := HandleJoin(s, quizId, user.username, now);
            && JoinUser(s, quizId, user, now).0 == result.store
            && JoinUser(s, quizId, user, now).1 == AfterReply(user, result.question)
  {
  }

  /** `answerUser`: a complete user, or one past the last question, is
      marked complete without a call; otherwise the driver answers
      `q(index + 1)` with the option the draw chooses and takes the next
      question's index, or marks the user complete. */
  function AnswerUser(s: Store, quizId: string, totalQuestions: int, user: UserState,
                      optionDraw: real, now: int): (r: (Store, UserState))
    ensures r.1.username == user.username
    ensures user.complete || user.questionIndex >= totalQuestions ==> r == (s, user.(complete := true))
    ensures !user.complete && user.questionIndex < totalQuestions ==>
              var questionId := QuestionId(user.questionIndex + 1);
              var result := HandleAnswer(s, quizId, user.username, questionId,
                                         OptionChoice.ChooseOptionId(questionId, optionDraw), now);
              r.0 == result.store && r.1 == AfterReply(user, result.question)
  {
    if user.complete || user.questionIndex >= totalQuestions then (s, user.(complete := true))
    else
      var questionId := QuestionId(user.questionIndex + 1);
      var optionId := OptionChoice.ChooseOptionId(questionId, optionDraw);
      var t := AnswerStore(s, quizId, user.username, questionId, optionId, now);
      (t, AfterReply(user, QuestionAt(t, quizId, user.username)))
  }

  /** The database an answering user leaves is the one `handleAnswer`
      leaves. */
  lemma AnswerUserStore(s: Store, quizId: string, totalQuestions: int, user: UserState,
                        optionDraw: real, now: int)
    requires !user.complete && user.questionIndex < totalQuestions
    ensures var questionId := QuestionId(user.questionIndex + 1);
            AnswerUser(s, quizId, totalQuestions, user, optionDraw, now).0
              == AnswerStore(s, quizId, user.username, questionId, OptionChoice.ChooseOptionId(questionId, optionDraw), now)
  {
  }

  /** Random probes `pickAnswerUser` makes before giving up. */
  const AnswerTries: nat := 25

  function PickFrom(users: seq<UserState>, draws: seq<nat>, tries: nat): (r: Option<nat>)
    ensures r.Some? ==> r.value < |users| && !users[r.value].complete
    ensures r.Some? ==> exists t :: tries <= t < AnswerTries && t < |draws| && draws[t] == r.value
    ensures r.None? ==> forall t :: tries <= t < AnswerTries && t < |draws| ==>
                          draws[t] >= |users| || users[draws[t]].complete
    decreases AnswerTries - tries
  {
    if tries >= AnswerTries || tries >= |draws| then None
    else if draws[tries] < |users| && !users[draws[tries]].complete then Some(draws[tries])
    else PickFrom(users, draws, tries + 1)
  }

  /** `pickAnswerUser` with the random indices as `draws`: `None` on an
      empty population or when no probe finds an incomplete user. */
  function PickAnswerUser(users: seq<UserState>, draws: seq<nat>): (r: Option<nat>)
    ensures |users| == 0 ==> r.None?
    ensures r.Some? ==> r.value < |users| && !users[r.value].complete
    ensures |users| > 0 && r.None? ==> forall t :: 0 <= t < AnswerTries && t < |draws| ==>
                                         draws[t] >= |users| || users[draws[t]].complete
  {
    if |users| == 0 then None else PickFrom(users, draws, 0)
  }

  /** If every probe lands on an incomplete user, one is picked. */
  lemma PickFindsIncompleteUser(users: seq<UserState>, draws: seq<nat>)
    requires |draws| > 0 && draws[0] < |users| && !users[draws[0]].complete
    ensures PickAnswerUser(users, draws) == Some(draws[0])
  {
  }

  // ---------------------------------------------------------------------
  // The stage operation
  // ---------------------------------------------------------------------

  datatype OpKind = JoinOp | AnswerOp

  datatype OpResult = OpResult(driver: Driver, ok: bool, kind: OpKind)

  /** Create a user, join it and add it to the population. */
  function AddUser(d: Driver, quizId: string, now: int): (r: Driver)
    ensures r.counter == d.counter + 1
    ensures |r.users| == |d.users| + 1 && r.users[..|d.users|] == d.users
    ensures r.users[|d.users|].username == UserName(d.counter + 1)
  {
    var (user, counter) := CreateUser(d.counter);
    var (store, joined) := JoinUser(d.store, quizId, user, now);
    Driver(store, d.users + [joined], counter)
  }

  /** The operation closure of a stage: with probability `joinRatio` a new
      user joins; otherwise an incomplete user answers, and when none is
      found a new user joins instead.  It always reports success. */
  function Operation(d: Driver, quizId: string, totalQuestions: int, joinRatio: real, joinDraw: real,
                     pickDraws: seq<nat>, optionDraw: real, now: int): (r: OpResult)
    ensures r.ok
    ensures |r.driver.users| >= |d.users|
    ensures forall i :: 0 <= i < |d.users| ==> r.driver.users[i].username == d.users[i].username
    ensures r.kind == JoinOp <==> joinDraw < joinRatio || PickAnswerUser(d.users, pickDraws).None?
    ensures r.kind == JoinOp ==> r.driver == AddUser(d, quizId, now)
    ensures r.kind == AnswerOp ==> |r.driver.users| == |d.users| && r.driver.counter == d.counter
  {
    if joinDraw < joinRatio then OpResult(AddUser(d, quizId, now), true, JoinOp)
    else
      match PickAnswerUser(d.users, pickDraws)
      case None => OpResult(AddUser(d, quizId, now), true, JoinOp)
      case Some(i) =>
        var (store, answered) := AnswerUser(d.store, quizId, totalQuestions, d.users[i], optionDraw, now);
        OpResult(Driver(store, d.users[i := answered], d.counter), true, AnswerOp)
  }

  /** The warm-up loop: `count` users created and joined one after
      another; it keeps the driver consistent. */
  method WarmUp(d: Driver, quizId: string, count: nat, now: int) returns (r: Driver)
    ensures r.counter == d.counter + count
    ensures |r.users| == |d.users| + count && r.users[..|d.users|] == d.users
    ensures Consistent(d, quizId) ==> Consistent(r, quizId)
  {
    r := d;
    var index := 0;
    while index < count
      invariant 0 <= index <= count
      invariant r.counter == d.counter + index
      invariant |r.users| == |d.users| + index && r.users[..|d.users|] == d.users
      invariant Consistent(d, quizId) ==> Consistent(r, quizId)
    {
      if Consistent(d, quizId) {
        AddUserConsistent(r, quizId, now);
      }
      var next := AddUser(r, quizId, now);
      assert next.users[..|d.users|] == r.users[..|d.users|];
      r := next;
      index := index + 1;
    }
  }

  /** A fresh database seeded, and no users yet. */
  function Start(): (r: Driver)
    ensures r.users == [] && r.counter == 0
  {
    Driver(SeedQuestions(Empty), [], 0)
  }

  // ---------------------------------------------------------------------
  // The local index mirrors the database
  // ---------------------------------------------------------------------

  /** A user the driver still drives expects exactly the question at the
      progress the database stores for it. */
  ghost predicate Mirrors(s: Store, quizId: string, u: UserState) {
    !u.complete ==> (quizId, u.username) in s.progress && u.questionIndex == s.progress[(quizId, u.username)]
  }

  /** The driver's invariant: the database is seeded, user i is named by
      counter value i + 1, and every user mirrors the database. */
  ghost predicate Consistent(d: Driver, quizId: string) {
    && Seeded(d.store)
    && d.counter == |d.users|
    && NamedInOrder(d.users)
    && AllMirror(d.store, quizId, d.users)
  }

  /** User i is named by counter value i + 1. */
  ghost predicate NamedInOrder(users: seq<UserState>) {
    forall i :: 0 <= i < |users| ==> users[i].username == UserName(i + 1)
  }

  ghost predicate AllMirror(s: Store, quizId: string, users: seq<UserState>) {
    forall i :: 0 <= i < |users| ==> Mirrors(s, quizId, users[i])
  }

  /** The driver starts consistent. */
  lemma StartConsistent(quizId: string)
    ensures Consistent(Start(), quizId)
  {
    SeedEmptyTables(Empty);
  }

  /** On a seeded database a join leaves the user mirroring its progress. */
  lemma JoinMirrors(s: Store, quizId: string, user: UserState, now: int)
    requires Seeded(s)
    ensures var r := JoinUser(s, quizId, user, now);
            Seeded(r.0) && Mirrors(r.0, quizId, r.1)
  {
    var t := Enrol(s, quizId, user.username, now);
    var p := GetParticipantProgress(t, quizId, user.username);
    var r := JoinUser(s, quizId, user, now);
    assert r.0 == t && r.1 == AfterReply(user, QuestionAt(t, quizId, user.username));
    assert t.questions == s.questions && t.options == s.options;
    if QuestionAt(t, quizId, user.username).Some? {
      SeededPayload(t, p);
      ParseQuestionIndexOfId(p + 1);
    }
  }

  /** On a seeded database an answer by a mirroring user answers the
      question at its progress, so the progress moves on by one and the
      user still mirrors it. */
  lemma AnswerMirrors(s: Store, quizId: string, user: UserState, optionDraw: real, now: int)
    requires Seeded(s) && Mirrors(s, quizId, user)
    ensures var r := AnswerUser(s, quizId, QuestionCount, user, optionDraw, now);
            && Seeded(r.0) && Mirrors(r.0, quizId, r.1)
            && (!user.complete && user.questionIndex < QuestionCount ==>
                  GetParticipantProgress(r.0, quizId, user.username) == user.questionIndex + 1)
  {
    if !user.complete && user.questionIndex < QuestionCount {
      var k := user.questionIndex;
      var questionId := QuestionId(k + 1);
      var optionId := OptionChoice.ChooseOptionId(questionId, optionDraw);
      var a := AnswerStore(s, quizId, user.username, questionId, optionId, now);
      var r := AnswerUser(s, quizId, QuestionCount, user, optionDraw, now);
      EnrolAdds(s, quizId, user.username, now);
      SeededWalkStep(s, quizId, user.username, optionId, now, k);
      assert r.0 == a;
      if k + 1 < QuestionCount {
        ParseQuestionIndexOfId(k + 2);
        assert r.1 == user.(complete := false, questionIndex := k + 1);
      } else {
        assert r.1.complete;
      }
    }
  }

  /** A user whose progress row another step left as it was still
      mirrors the database. */
  lemma MirrorsKept(s: Store, t: Store, quizId: string, u: UserState)
    requires Mirrors(s, quizId, u)
    requires !u.complete ==> (quizId, u.username) in t.progress
                             && t.progress[(quizId, u.username)] == s.progress[(quizId, u.username)]
    ensures Mirrors(t, quizId, u)
  {
  }

  /** An answer by one user leaves every other user's progress row as it
      was. */
  lemma AnswerKeepsOthers(s: Store, quizId: string, user: UserState, totalQuestions: int,
                          optionDraw: real, now: int, other: string)
    requires other != user.username && (quizId, other) in s.progress
    ensures var r := AnswerUser(s, quizId, totalQuestions, user, optionDraw, now);
            (quizId, other) in r.0.progress && r.0.progress[(quizId, other)] == s.progress[(quizId, other)]
  {
    if !(user.complete || user.questionIndex >= totalQuestions) {
      var questionId := QuestionId(user.questionIndex + 1);
      var optionId := OptionChoice.ChooseOptionId(questionId, optionDraw);
      AnswerUserStore(s, quizId, totalQuestions, user, optionDraw, now);
      EnrolAdds(s, quizId, user.username, now);
      AnswerAdvancesExactly(s, quizId, user.username, questionId, optionId, now);
    }
  }

  /** A join by one user leaves every other user's progress row as it
      was. */
  lemma JoinKeepsOthers(s: Store, quizId: string, user: UserState, now: int, other: string)
    requires (quizId, other) in s.progress
    ensures var r := JoinUser(s, quizId, user, now);
            (quizId, other) in r.0.progress && r.0.progress[(quizId, other)] == s.progress[(quizId, other)]
  {
    EnrolAdds(s, quizId, user.username, now);
  }

  /** Adding a user keeps the driver consistent. */
  lemma AddUserConsistent(d: Driver, quizId: string, now: int)
    requires Consistent(d, quizId)
    ensures Consistent(AddUser(d, quizId, now), quizId)
  {
    var r := AddUser(d, quizId, now);
    var user := CreateUser(d.counter).0;
    var joined := JoinUser(d.store, quizId, user, now);
    assert r == Driver(joined.0, d.users + [joined.1], d.counter + 1);
    JoinMirrors(d.store, quizId, user, now);
    forall i | 0 <= i < |d.users|
      ensures Mirrors(joined.0, quizId, d.users[i])
    {
      if !d.users[i].complete {
        JoinKeepsOthers(d.store, quizId, user, now, d.users[i].username);
      }
      MirrorsKept(d.store, joined.0, quizId, d.users[i]);
    }
    ConsistentAppend(joined.0, d.users, joined.1, quizId);
  }

  /** Appending a mirroring user named by the next counter value to a
      consistent population keeps it consistent. */
  lemma ConsistentAppend(s: Store, users: seq<UserState>, u: UserState, quizId: string)
    requires Seeded(s) && Mirrors(s, quizId, u) && u.username == UserName(|users| + 1)
    requires NamedInOrder(users) && AllMirror(s, quizId, users)
    ensures Consistent(Driver(s, users + [u], |users| + 1), quizId)
  {
    NamedAppend(users, u);
    MirrorAppend(s, quizId, users, u);
  }

  lemma NamedAppend(users: seq<UserState>, u: UserState)
    requires NamedInOrder(users) && u.username == UserName(|users| + 1)
    ensures NamedInOrder(users + [u])
  {
    var all := users + [u];
    assert forall i :: 0 <= i < |users| ==> all[i] == users[i];
  }

  lemma MirrorAppend(s: Store, quizId: string, users: seq<UserState>, u: UserState)
    requires AllMirror(s, quizId, users) && Mirrors(s, quizId, u)
    ensures AllMirror(s, quizId, users + [u])
  {
    var all := users + [u];
    assert forall i :: 0 <= i < |users| ==> all[i] == users[i];
  }

  /** An answer by user i keeps the driver consistent. */
  lemma AnswerStepConsistent(d: Driver, quizId: string, i: nat, optionDraw: real, now: int)
    requires Consistent(d, quizId) && i < |d.users|
    ensures var r := AnswerUser(d.store, quizId, QuestionCount, d.users[i], optionDraw, now);
            Consistent(Driver(r.0, d.users[i := r.1], d.counter), quizId)
  {
    var user := d.users[i];
    var r := AnswerUser(d.store, quizId, QuestionCount, user, optionDraw, now);
    var users := d.users[i := r.1];
    AnswerMirrors(d.store, quizId, user, optionDraw, now);
    forall j | 0 <= j < |d.users| && j != i
      ensures Mirrors(r.0, quizId, users[j])
    {
      assert users[j] == d.users[j];
      if !d.users[j].complete {
        if d.users[j].username == user.username {
          UserNameInjective(j + 1, i + 1);
        }
        AnswerKeepsOthers(d.store, quizId, user, QuestionCount, optionDraw, now, d.users[j].username);
      }
      MirrorsKept(d.store, r.0, quizId, d.users[j]);
    }
    assert AllMirror(r.0, quizId, users) by {
      forall j | 0 <= j < |users|
        ensures Mirrors(r.0, quizId, users[j])
      {
        if j == i {
          assert users[j] == r.1;
        }
      }
    }
    NamedKept(d.users, i, r.1);
  }

  /** Replacing a user by one with the same name keeps the naming. */
  lemma NamedKept(users: seq<UserState>, i: nat, v: UserState)
    requires NamedInOrder(users) && i < |users| && v.username == users[i].username
    ensures NamedInOrder(users[i := v])
  {
    var next := users[i := v];
    assert forall j :: 0 <= j < |users| && j != i ==> next[j] == users[j];
  }

  /** Every stage operation keeps the driver consistent. */
  lemma OperationConsistent(d: Driver, quizId: string, joinRatio: real, joinDraw: real,
                            pickDraws: seq<nat>, optionDraw: real, now: int)
    requires Consistent(d, quizId)
    ensures Consistent(Operation(d, quizId, QuestionCount, joinRatio, joinDraw, pickDraws, optionDraw, now).driver,
                       quizId)
  {
    if joinDraw < joinRatio || PickAnswerUser(d.users, pickDraws).None? {
      AddUserConsistent(d, quizId, now);
    } else {
      AnswerStepConsistent(d, quizId, PickAnswerUser(d.users, pickDraws).value, optionDraw, now);
    }
  }
}
