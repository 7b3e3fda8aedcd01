/** The quiz logic over the store (server/src/quiz_service.ts): building a
    question payload, joining a quiz and answering a question.  Every
    statement a handler runs is the corresponding store function; the one
    clock reading `now` stands for every `new Date()` of the call. */
module QuizService {
  import opened Wrappers
  import opened QuizStore

  datatype OptionPayload = OptionPayload(id: string, text: string)

  datatype QuestionPayload = QuestionPayload(questionId: string, prompt: string, options: seq<OptionPayload>)

  /** What `handleJoin` hands back, with the store it leaves behind. */
  datatype Joined = Joined(store: Store, leaderboard: seq<LeaderboardRow>, question: Option<QuestionPayload>)

  /** What `handleAnswer` hands back, with the store it leaves behind. */
  datatype Answered = Answered(store: Store, leaderboard: seq<LeaderboardRow>,
                               question: Option<QuestionPayload>, isCorrect: bool)

  // ---------------------------------------------------------------------
  // Question payload
  // ---------------------------------------------------------------------

  function ToPayload(o: OptionRow): OptionPayload {
    OptionPayload(o.id, o.optionText)
  }

  /** The `{ id, text }` objects of a list of option rows, in order. */
  function ToPayloads(rows: seq<OptionRow>): (r: seq<OptionPayload>)
    ensures |r| == |rows|
  {
    seq(|rows|, i requires 0 <= i < |rows| => ToPayload(rows[i]))
  }

  /** `buildQuestionPayload`: null for a negative index or one past the
      last question; otherwise the question at that index with its
      options, as id and text, in the order the store lists them. */
  function BuildQuestionPayload(s: Store, questionIndex: int): (r: Option<QuestionPayload>)
    ensures r.Some? <==> 0 <= questionIndex < |s.questions|
  {
    if questionIndex < 0 then None
    else if questionIndex >= GetQuestionCount(s) then None
    else match GetQuestionByIndex(s, questionIndex)
      case None => None
      case Some(question) =>
        var options := GetOptionsForQuestion(s, question.id);
        Some(QuestionPayload(question.id, question.prompt, ToPayloads(options)))
  }

  /** A payload names a stored question and lists exactly that question's
      options, each with its stored text. */
  lemma PayloadMatchesStore(s: Store, questionIndex: int)
    requires BuildQuestionPayload(s, questionIndex).Some?
    ensures var p := BuildQuestionPayload(s, questionIndex).value;
            && GetQuestionByIndex(s, questionIndex) == Some(QuestionRow(p.questionId, p.prompt, GetQuestionByIndex(s, questionIndex).value.sortOrder))
            && (forall k :: 0 <= k < |p.options| ==>
                  exists o :: o in s.options && o.questionId == p.questionId && ToPayload(o) == p.options[k])
            && (forall o :: o in s.options && o.questionId == p.questionId ==> ToPayload(o) in p.options)
  {
    var question := GetQuestionByIndex(s, questionIndex).value;
    var rows := GetOptionsForQuestion(s, question.id);
    var p := BuildQuestionPayload(s, questionIndex).value;
    GetOptionsForQuestionMeans(s, question.id);
    assert |p.options| == |rows|;
    forall k | 0 <= k < |p.options|
      ensures exists o :: o in s.options && o.questionId == p.questionId && ToPayload(o) == p.options[k]
    {
      assert rows[k] in rows;
    }
    forall o | o in s.options && o.questionId == p.questionId
      ensures ToPayload(o) in p.options
    {
      var k :| 0 <= k < |rows| && rows[k] == o;
      assert p.options[k] == ToPayload(o);
    }
  }

  /** In a seeded database the payload at index k is question q(k+1) with
      its options a, b, c, d in that order. */
  lemma SeededPayload(s: Store, k: int)
    requires Seeded(s)
    ensures k < 0 || k >= QuestionCount ==> BuildQuestionPayload(s, k).None?
    ensures 0 <= k < QuestionCount ==>
              BuildQuestionPayload(s, k)
              == Some(QuestionPayload(QuestionId(k + 1), SeedQuestion(k + 1).prompt, ToPayloads(SeedOptions(k + 1))))
  {
    if 0 <= k < QuestionCount {
      SeededQuestionAt(s, k);
      SeededOptionsOf(s, k + 1);
    }
  }

  // ---------------------------------------------------------------------
  // Joining
  // ---------------------------------------------------------------------

  /** The three insert-or-ignore statements both handlers begin with:
      session, participant (score 0) and progress (index 0).  None of them
      can fail, because the session exists before the other two run. */
  function Enrol(s: Store, quizId: string, username: string, now: int): (r: Store)
    ensures quizId in r.sessions && (quizId, username) in r.progress
    ensures FindParticipant(r, quizId, username).Some?
    ensures r.answers == s.answers && r.questions == s.questions && r.options == s.options
    ensures WellFormed(s) ==> WellFormed(r)
  {
    var s1 := EnsureSession(s, quizId, now);
    var s2 := EnsureParticipant(s1, quizId, username, now).value;
    assert FindParticipant(s2, quizId, username).Some? by {
      if FindParticipant(s1, quizId, username).None? {
        assert s2.participants[|s1.participants|] == Participant(quizId, username, 0, now);
      }
    }
    var s3 := EnsureParticipantProgress(s2, quizId, username).value;
    assert s3.participants == s2.participants;
    s3
  }

  /** Enrolment only adds: a known participant keeps row, score and
      progress; a new one gets score 0 and index 0, at the end of the
      table; nobody else's row or progress changes. */
  lemma EnrolAdds(s: Store, quizId: string, username: string, now: int)
    ensures var r := Enrol(s, quizId, username, now);
            && (FindParticipant(s, quizId, username).Some? ==> r.participants == s.participants)
            && (FindParticipant(s, quizId, username).None? ==>
                  r.participants == s.participants + [Participant(quizId, username, 0, now)])
            && r.progress.Keys == s.progress.Keys + {(quizId, username)}
            && (forall k :: k in s.progress ==> r.progress[k] == s.progress[k])
            && ((quizId, username) !in s.progress ==> r.progress[(quizId, username)] == 0)
            && (forall q :: q in s.sessions ==> q in r.sessions && r.sessions[q] == s.sessions[q])
  {
  }

  /** Enrolling twice is enrolling once. */
  lemma EnrolIdempotent(s: Store, quizId: string, username: string, now: int, later: int)
    ensures var t := Enrol(s, quizId, username, now);
            Enrol(t, quizId, username, later) == t
  {
    var t := Enrol(s, quizId, username, now);
    assert EnsureSession(t, quizId, later) == t;
    assert EnsureParticipant(t, quizId, username, later) == Some(t);
  }

  /** `handleJoin`: enrol, then read the leaderboard and the question at
      the participant's stored progress. */
  function HandleJoin(s: Store, quizId: string, username: string, now: int): (r: Joined)
    ensures r.store == Enrol(s, quizId, username, now)
    ensures r.leaderboard == GetLeaderboard(r.store, quizId)
    ensures r.question == QuestionAt(r.store, quizId, username)
    ensures r.question.Some? <==> 0 <= GetParticipantProgress(r.store, quizId, username) < |s.questions|
  {
    var t := Enrol(s, quizId, username, now);
    Joined(t, GetLeaderboard(t, quizId),
           BuildQuestionPayload(t, GetParticipantProgress(t, quizId, username)))
  }

  /** The question at the participant's stored progress, as both handlers
      return it. */
  function QuestionAt(s: Store, quizId: string, username: string): Option<QuestionPayload> {
    BuildQuestionPayload(s, GetParticipantProgress(s, quizId, username))
  }

  /** A repeated join changes nothing and sees the same leaderboard and
      question. */
  lemma JoinIdempotent(s: Store, quizId: string, username: string, now: int, later: int)
    ensures var first := HandleJoin(s, quizId, username, now);
            HandleJoin(first.store, quizId, username, later) == first
  {
    EnrolIdempotent(s, quizId, username, now, later);
  }

  /** Every participant row of the quiz shows on its leaderboard. */
  lemma OnLeaderboard(st: Store, quizId: string, i: nat)
    requires i < |st.participants| && st.participants[i].quizId == quizId
    ensures LeaderboardRow(st.participants[i].username, st.participants[i].score) in GetLeaderboard(st, quizId)
  {
    LeaderboardMeans(st, quizId);
    assert st.participants[i] in st.participants;
  }

  /** The joiner is on the leaderboard the join returns. */
  lemma JoinerOnLeaderboard(s: Store, quizId: string, username: string, now: int)
    ensures var r := HandleJoin(s, quizId, username, now);
            exists score :: LeaderboardRow(username, score) in r.leaderboard
  {
    var r := HandleJoin(s, quizId, username, now);
    var i := FindParticipant(r.store, quizId, username).value;
    OnLeaderboard(r.store, quizId, i);
  }

  /** A first join on a seeded database starts at question q1 with score
      0. */
  lemma FreshJoinStartsAtFirstQuestion(s: Store, quizId: string, username: string, now: int)
    requires Seeded(s) && (quizId, username) !in s.progress
    requires FindParticipant(s, quizId, username).None?
    ensures var r := HandleJoin(s, quizId, username, now);
            && r.question.Some? && r.question.value.questionId == QuestionId(1)
            && LeaderboardRow(username, 0) in r.leaderboard
  {
    var t := Enrol(s, quizId, username, now);
    EnrolAdds(s, quizId, username, now);
    assert GetParticipantProgress(t, quizId, username) == 0;
    SeededPayload(t, 0);
    OnLeaderboard(t, quizId, |s.participants|);
  }

  // ---------------------------------------------------------------------
  // Answering
  // ---------------------------------------------------------------------

  /** `scoreAnswer`: a right answer is worth one point, a wrong one none. */
  function ScoreAnswer(isCorrect: bool): (r: int)
    ensures 0 <= r <= 1 && (r == 1 <==> isCorrect)
  {
    if isCorrect then 1 else 0
  }

  /** The store after the answer row and the score update, before the
      progress check. */
  function Scored(s: Store, quizId: string, username: string, questionId: string,
                  optionId: string, now: int): (r: Store)
  {
    var t := Enrol(s, quizId, username, now);
    var isCorrect := IsOptionCorrect(t, questionId, optionId);
    var withAnswer := InsertAnswer(t, quizId, username, questionId, optionId, isCorrect, now).value;
    IncrementScore(withAnswer, quizId, username, ScoreAnswer(isCorrect)).0
  }

  /** Recording and scoring adds exactly one answer row and moves exactly
      the answerer's score, by the points the answer is worth; progress,
      sessions and the catalogue stay as enrolment left them. */
  lemma ScoredFacts(s: Store, quizId: string, username: string, questionId: string,
                    optionId: string, now: int)
    ensures var t := Enrol(s, quizId, username, now);
            var u := Scored(s, quizId, username, questionId, optionId, now);
            var c := IsOptionCorrect(s, questionId, optionId);
            var i := FindParticipant(t, quizId, username).value;
            && u.answers == s.answers + [AnswerRow(quizId, username, questionId, optionId, if c then 1 else 0, now)]
            && u.progress == t.progress && u.sessions == t.sessions
            && u.questions == s.questions && u.options == s.options
            && |u.participants| == |t.participants|
            && u.participants[i] == t.participants[i].(score := t.participants[i].score + ScoreAnswer(c))
            && (forall j :: 0 <= j < |t.participants| && j != i ==> u.participants[j] == t.participants[j])
    ensures WellFormed(s) ==> WellFormed(Scored(s, quizId, username, questionId, optionId, now))
  {
    var t := Enrol(s, quizId, username, now);
    var c := IsOptionCorrect(t, questionId, optionId);
    var w := InsertAnswer(t, quizId, username, questionId, optionId, c, now).value;
    assert FindParticipant(w, quizId, username) == FindParticipant(t, quizId, username) by {
      assert w.participants == t.participants;
    }
  }

  /** `handleAnswer`: enrol, grade the option, record the answer, add the
      points, and advance the progress only when the answered question is
      the one at the participant's current index; then read the
      leaderboard and the question at the resulting index.  The grade
      depends only on the option table, and the question handed back is
      always the one at the participant's stored progress. */
  function HandleAnswer(s: Store, quizId: string, username: string, questionId: string,
                        optionId: string, now: int): (r: Answered)
    ensures r.isCorrect == IsOptionCorrect(s, questionId, optionId)
    ensures r.leaderboard == GetLeaderboard(r.store, quizId)
    ensures r.store == AnswerStore(s, quizId, username, questionId, optionId, now)
    ensures r.question == QuestionAt(r.store, quizId, username)
    ensures r.store.questions == s.questions && r.store.options == s.options
  {
    var t := Enrol(s, quizId, username, now);
    var isCorrect := IsOptionCorrect(t, questionId, optionId);
    var u := Scored(s, quizId, username, questionId, optionId, now);
    ScoredFacts(s, quizId, username, questionId, optionId, now);
    var moved := MoveOn(u, quizId, username, questionId);
    Answered(moved.0, GetLeaderboard(moved.0, quizId), BuildQuestionPayload(moved.0, moved.1), isCorrect)
  }

  /** The database `handleAnswer` leaves behind. */
  function AnswerStore(s: Store, quizId: string, username: string, questionId: string,
                       optionId: string, now: int): Store
  {
    MoveOn(Scored(s, quizId, username, questionId, optionId, now), quizId, username, questionId).0
  }

  /** The progress step of `handleAnswer`: advance when the question at
      the current index has the answered id, otherwise stay; the index
      returned is the stored one afterwards. */
  function MoveOn(u: Store, quizId: string, username: string, questionId: string): (r: (Store, int))
    ensures r.1 == GetParticipantProgress(r.0, quizId, username)
  {
    var currentIndex := GetParticipantProgress(u, quizId, username);
    var current := GetQuestionByIndex(u, currentIndex);
    if current.Some? && current.value.id == questionId then AdvanceParticipantProgress(u, quizId, username)
    else (u, currentIndex)
  }

  /** Answering the question at the participant's current index moves the
      progress on by one; any other question id leaves it where it was.
      Nobody else's progress moves, and the answer row and the score
      change are the ones recording and scoring made. */
  lemma AnswerAdvancesExactly(s: Store, quizId: string, username: string, questionId: string,
                              optionId: string, now: int)
    ensures var t := Enrol(s, quizId, username, now);
            var before := GetParticipantProgress(t, quizId, username);
            var current := GetQuestionByIndex(s, before);
            var a := AnswerStore(s, quizId, username, questionId, optionId, now);
            var u := Scored(s, quizId, username, questionId, optionId, now);
            && (current.Some? && current.value.id == questionId ==>
                  GetParticipantProgress(a, quizId, username) == before + 1)
            && (!(current.Some? && current.value.id == questionId) ==> a == u)
            && a.participants == u.participants && a.answers == u.answers
            && a.sessions == u.sessions && a.questions == s.questions && a.options == s.options
            && a.progress.Keys == t.progress.Keys
            && (forall k :: k in t.progress && k != (quizId, username) ==> a.progress[k] == t.progress[k])
  {
    ScoredFacts(s, quizId, username, questionId, optionId, now);
  }

  /** The answer leaves the database well formed. */
  lemma AnswerKeepsWellFormed(s: Store, quizId: string, username: string, questionId: string,
                              optionId: string, now: int)
    requires WellFormed(s)
    ensures WellFormed(HandleAnswer(s, quizId, username, questionId, optionId, now).store)
  {
    ScoredFacts(s, quizId, username, questionId, optionId, now);
  }

  /** The answer's leaderboard shows the answerer with the score they had
      after enrolment plus the points for this answer. */
  lemma AnswerScoreOnLeaderboard(s: Store, quizId: string, username: string, questionId: string,
                                 optionId: string, now: int)
    ensures var t := Enrol(s, quizId, username, now);
            var before := t.participants[FindParticipant(t, quizId, username).value].score;
            var r := HandleAnswer(s, quizId, username, questionId, optionId, now);
            LeaderboardRow(username, before + ScoreAnswer(r.isCorrect)) in r.leaderboard
  {
    var t := Enrol(s, quizId, username, now);
    var i := FindParticipant(t, quizId, username).value;
    var r := HandleAnswer(s, quizId, username, questionId, optionId, now);
    var u := Scored(s, quizId, username, questionId, optionId, now);
    ScoredFacts(s, quizId, username, questionId, optionId, now);
    AnswerAdvancesExactly(s, quizId, username, questionId, optionId, now);
    var a := AnswerStore(s, quizId, username, questionId, optionId, now);
    assert r.store == a && r.leaderboard == GetLeaderboard(a, quizId);
    var p := a.participants[i];
    assert p == u.participants[i];
    assert p.username == username && p.quizId == quizId;
    assert p.score == t.participants[i].score + ScoreAnswer(r.isCorrect);
    OnLeaderboard(a, quizId, i);
    assert LeaderboardRow(p.username, p.score) in r.leaderboard;
    assert LeaderboardRow(username, t.participants[i].score + ScoreAnswer(r.isCorrect)) in r.leaderboard;
  }

  /** On a seeded database, answering is graded correct exactly for option
      b of a seeded question, and never for a question id the seed does
      not contain. */
  lemma SeededAnswerGrade(s: Store, quizId: string, username: string, questionId: string,
                          optionId: string, now: int)
    requires Seeded(s)
    ensures forall k :: 1 <= k <= QuestionCount && questionId == QuestionId(k) ==>
              (HandleAnswer(s, quizId, username, questionId, optionId, now).isCorrect <==> optionId == OptionId(k, 'b'))
    ensures (forall k :: 1 <= k <= QuestionCount ==> questionId != QuestionId(k)) ==>
              !HandleAnswer(s, quizId, username, questionId, optionId, now).isCorrect
  {
    forall k | 1 <= k <= QuestionCount && questionId == QuestionId(k)
      ensures HandleAnswer(s, quizId, username, questionId, optionId, now).isCorrect <==> optionId == OptionId(k, 'b')
    {
      SeededCorrectness(s, k, optionId);
    }
    if forall k :: 1 <= k <= QuestionCount ==> questionId != QuestionId(k) {
      UnknownQuestionNeverCorrect(s, questionId, optionId);
    }
  }

  /** One step of a seeded walk: a participant at index k who answers q(k+1)
      is moved to k+1 and shown q(k+2), or nothing after the last
      question; the database stays seeded. */
  lemma SeededWalkStep(s: Store, quizId: string, username: string, optionId: string, now: int, k: nat)
    requires Seeded(s) && k < QuestionCount
    requires GetParticipantProgress(Enrol(s, quizId, username, now), quizId, username) == k
    ensures var a := AnswerStore(s, quizId, username, QuestionId(k + 1), optionId, now);
            var next := QuestionAt(a, quizId, username);
            && Seeded(a)
            && GetParticipantProgress(a, quizId, username) == k + 1
            && (k + 1 < QuestionCount ==> next.Some? && next.value.questionId == QuestionId(k + 2))
            && (k + 1 == QuestionCount ==> next.None?)
  {
    var q := QuestionId(k + 1);
    var a := AnswerStore(s, quizId, username, q, optionId, now);
    SeededQuestionAt(s, k);
    AnswerAdvancesExactly(s, quizId, username, q, optionId, now);
    assert GetParticipantProgress(a, quizId, username) == k + 1;
    assert a.questions == s.questions && a.options == s.options;
    SeededPayload(a, k + 1);
    assert QuestionAt(a, quizId, username) == BuildQuestionPayload(a, k + 1);
  }

  /** In a seeded database the question after index k is not q(k+1). */
  lemma SeededNextQuestionDiffers(s: Store, k: nat)
    requires Seeded(s)
    ensures var next := GetQuestionByIndex(s, k + 1);
            next.None? || next.value.id != QuestionId(k + 1)
  {
    SeededQuestionAt(s, k + 1);
    if k + 1 < QuestionCount && QuestionId(k + 2) == QuestionId(k + 1) {
      QuestionIdInjective(k + 2, k + 1);
    }
  }

  /** Answering the same question again after it advanced the progress
      records and scores a second time but does not advance again. */
  lemma SeededReplayScoresWithoutAdvancing(s: Store, quizId: string, username: string, optionId: string,
                                           now: int, later: int, k: nat)
    requires Seeded(s) && k < QuestionCount
    requires GetParticipantProgress(Enrol(s, quizId, username, now), quizId, username) == k
    ensures var first := AnswerStore(s, quizId, username, QuestionId(k + 1), optionId, now);
            var again := AnswerStore(first, quizId, username, QuestionId(k + 1), optionId, later);
            && GetParticipantProgress(again, quizId, username) == k + 1
            && |again.answers| == |first.answers| + 1
            && IsOptionCorrect(first, QuestionId(k + 1), optionId) == IsOptionCorrect(s, QuestionId(k + 1), optionId)
  {
    var q := QuestionId(k + 1);
    var first := AnswerStore(s, quizId, username, q, optionId, now);
    var again := AnswerStore(first, quizId, username, q, optionId, later);
    SeededWalkStep(s, quizId, username, optionId, now, k);
    var t := Enrol(first, quizId, username, later);
    EnrolAdds(first, quizId, username, later);
    assert GetParticipantProgress(t, quizId, username) == k + 1;
    SeededNextQuestionDiffers(first, k);
    AnswerAdvancesExactly(first, quizId, username, q, optionId, later);
    ScoredFacts(first, quizId, username, q, optionId, later);
    assert GetParticipantProgress(again, quizId, username) == k + 1;
    assert |again.answers| == |first.answers| + 1;
  }
}
