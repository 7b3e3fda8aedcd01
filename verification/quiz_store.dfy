/** The persistence layer (server/src/db.ts) as an abstract store: each
    table is a value, each prepared statement a pure function of the store.
    `new Date().toISOString()` becomes an integer clock reading `now`
    supplied by the caller; ISO-8601 texts of one clock order as the
    readings do, which is all `ORDER BY joined_at` relies on. */
module QuizStore {
  import opened Wrappers
  import Sorting
  import Decimal

  datatype Participant = Participant(quizId: string, username: string, score: int, joinedAt: int)

  datatype AnswerRow = AnswerRow(
    quizId: string, username: string, questionId: string,
    answerText: string, isCorrect: int, createdAt: int)

  datatype QuestionRow = QuestionRow(id: string, prompt: string, sortOrder: int)

  datatype OptionRow = OptionRow(id: string, questionId: string, optionText: string, isCorrect: int)

  datatype LeaderboardRow = LeaderboardRow(username: string, score: int)

  /** The six tables.  Participants and answers are kept in row-id
      (insertion) order; sessions map a quiz id to its creation time and
      progress maps (quiz id, user name) to the question index. */
  datatype Store = Store(
    sessions: map<string, int>,
    participants: seq<Participant>,
    answers: seq<AnswerRow>,
    questions: seq<QuestionRow>,
    options: seq<OptionRow>,
    progress: map<(string, string), int>)

  /** The tables `createDatabase` creates in a new database file. */
  const Empty := Store(map[], [], [], [], [], map[])

  /** The declared keys and foreign keys: primary keys are unique,
      `(quiz_id, username)` is unique among participants, and every row
      that names a quiz names an existing session. */
  ghost predicate WellFormed(s: Store) {
    && UniqueParticipants(s.participants)
    && (forall i :: 0 <= i < |s.participants| ==> s.participants[i].quizId in s.sessions)
    && (forall i :: 0 <= i < |s.answers| ==> s.answers[i].quizId in s.sessions)
    && (forall k :: k in s.progress ==> k.0 in s.sessions)
    && UniqueQuestionIds(s.questions)
    && UniqueOptionIds(s.options)
  }

  ghost predicate UniqueParticipants(ps: seq<Participant>) {
    forall i, j :: 0 <= i < j < |ps| ==> !(ps[i].quizId == ps[j].quizId && ps[i].username == ps[j].username)
  }

  ghost predicate UniqueQuestionIds(qs: seq<QuestionRow>) {
    forall i, j :: 0 <= i < j < |qs| ==> qs[i].id != qs[j].id
  }

  ghost predicate UniqueOptionIds(os: seq<OptionRow>) {
    forall i, j :: 0 <= i < j < |os| ==> os[i].id != os[j].id
  }

  lemma EmptyWellFormed()
    ensures WellFormed(Empty)
  {
  }

  /** The first position whose element satisfies `p`: what `stmt.get`
      returns when several rows match. */
  function First<T>(s: seq<T>, p: T -> bool): (r: Option<nat>)
    ensures r.Some? ==> r.value < |s| && p(s[r.value])
    ensures r.Some? ==> forall j :: 0 <= j < r.value ==> !p(s[j])
    ensures r.None? ==> forall j :: 0 <= j < |s| ==> !p(s[j])
  {
    if |s| == 0 then None
    else if p(s[0]) then Some(0)
    else match First(s[1..], p)
      case None => None
      case Some(k) => Some(k + 1)
  }

  // ---------------------------------------------------------------------
  // Sessions and participants
  // ---------------------------------------------------------------------

  /** `ensureSession`: insert-or-ignore; a session keeps its first
      creation time, and no other table changes. */
  function EnsureSession(s: Store, quizId: string, now: int): (r: Store)
    ensures r.sessions.Keys == s.sessions.Keys + {quizId}
    ensures forall q :: q in s.sessions ==> r.sessions[q] == s.sessions[q]
    ensures quizId !in s.sessions ==> r.sessions[quizId] == now
    ensures r.(sessions := s.sessions) == s
    ensures WellFormed(s) ==> WellFormed(r)
  {
    if quizId in s.sessions then s else s.(sessions := s.sessions[quizId := now])
  }

  function FindParticipant(s: Store, quizId: string, username: string): (r: Option<nat>)
    ensures r.Some? ==> r.value < |s.participants|
    ensures r.Some? ==> s.participants[r.value].quizId == quizId && s.participants[r.value].username == username
    ensures r.None? ==> forall i :: 0 <= i < |s.participants| ==>
              !(s.participants[i].quizId == quizId && s.participants[i].username == username)
  {
    First(s.participants, (p: Participant) => p.quizId == quizId && p.username == username)
  }

  /** `ensureParticipant`: insert-or-ignore on `(quiz_id, username)` with
      score 0.  `None` is the FOREIGN KEY failure the statement throws
      when the session does not exist (OR IGNORE does not cover it). */
  function EnsureParticipant(s: Store, quizId: string, username: string, now: int): (r: Option<Store>)
    ensures r.None? <==> FindParticipant(s, quizId, username).None? && quizId !in s.sessions
    ensures FindParticipant(s, quizId, username).Some? ==> r == Some(s)
    ensures r.Some? && FindParticipant(s, quizId, username).None? ==>
              && r.value.participants == s.participants + [Participant(quizId, username, 0, now)]
              && r.value.(participants := s.participants) == s
    ensures WellFormed(s) && r.Some? ==> WellFormed(r.value)
  {
    if FindParticipant(s, quizId, username).Some? then Some(s)
    else if quizId !in s.sessions then None
    else Some(s.(participants := s.participants + [Participant(quizId, username, 0, now)]))
  }

  /** `incrementScore`: add `delta` to the participant's score and return
      the new score; a missing participant changes nothing and reads as 0. */
  function IncrementScore(s: Store, quizId: string, username: string, delta: int): (r: (Store, int))
    ensures match FindParticipant(s, quizId, username)
            case None => r == (s, 0)
            case Some(i) =>
              && |r.0.participants| == |s.participants|
              && r.0.participants[i] == s.participants[i].(score := s.participants[i].score + delta)
              && (forall j :: 0 <= j < |s.participants| && j != i ==> r.0.participants[j] == s.participants[j])
              && r.1 == s.participants[i].score + delta
    ensures r.0.(participants := s.participants) == s
    ensures WellFormed(s) ==> WellFormed(r.0)
  {
    match FindParticipant(s, quizId, username)
    case None => (s, 0)
    case Some(i) =>
      var p := s.participants[i];
      (s.(participants := s.participants[i := p.(score := p.score + delta)]), p.score + delta)
  }

  /** `insertAnswer`: append one row, the correctness stored as 1 or 0;
      `None` is the FOREIGN KEY failure for an unknown session. */
  function InsertAnswer(s: Store, quizId: string, username: string, questionId: string,
                        optionId: string, isCorrect: bool, now: int): (r: Option<Store>)
    ensures r.None? <==> quizId !in s.sessions
    ensures r.Some? ==>
              && r.value.answers == s.answers + [AnswerRow(quizId, username, questionId, optionId,
                                                           if isCorrect then 1 else 0, now)]
              && r.value.(answers := s.answers) == s
    ensures WellFormed(s) && r.Some? ==> WellFormed(r.value)
  {
    if quizId !in s.sessions then None
    else Some(s.(answers := s.answers + [AnswerRow(quizId, username, questionId, optionId,
                                                    if isCorrect then 1 else 0, now)]))
  }

  // ---------------------------------------------------------------------
  // Progress
  // ---------------------------------------------------------------------

  /** `ensureParticipantProgress`: insert-or-ignore with index 0; `None` is
      the FOREIGN KEY failure for an unknown session. */
  function EnsureParticipantProgress(s: Store, quizId: string, username: string): (r: Option<Store>)
    ensures r.None? <==> (quizId, username) !in s.progress && quizId !in s.sessions
    ensures (quizId, username) in s.progress ==> r == Some(s)
    ensures r.Some? ==>
              && r.value.progress.Keys == s.progress.Keys + {(quizId, username)}
              && (forall k :: k in s.progress ==> r.value.progress[k] == s.progress[k])
              && r.value.(progress := s.progress) == s
    ensures r.Some? && (quizId, username) !in s.progress ==> r.value.progress[(quizId, username)] == 0
    ensures WellFormed(s) && r.Some? ==> WellFormed(r.value)
  {
    if (quizId, username) in s.progress then Some(s)
    else if quizId !in s.sessions then None
    else Some(s.(progress := s.progress[(quizId, username) := 0]))
  }

  /** `getParticipantProgress`: the stored index, or 0 without a row. */
  function GetParticipantProgress(s: Store, quizId: string, username: string): (r: int)
    ensures (quizId, username) in s.progress ==> r == s.progress[(quizId, username)]
    ensures (quizId, username) !in s.progress ==> r == 0
  {
    if (quizId, username) in s.progress then s.progress[(quizId, username)] else 0
  }

  /** `advanceParticipantProgress`: one more than before when the row
      exists; without a row nothing changes and the result reads 0.  The
      result is always the stored progress afterwards. */
  function AdvanceParticipantProgress(s: Store, quizId: string, username: string): (r: (Store, int))
    ensures r.1 == GetParticipantProgress(r.0, quizId, username)
    ensures (quizId, username) in s.progress ==> r.1 == GetParticipantProgress(s, quizId, username) + 1
    ensures (quizId, username) !in s.progress ==> r == (s, 0)
    ensures r.0.progress.Keys == s.progress.Keys
    ensures forall k :: k in s.progress && k != (quizId, username) ==> r.0.progress[k] == s.progress[k]
    ensures r.0.(progress := s.progress) == s
    ensures WellFormed(s) ==> WellFormed(r.0)
  {
    var key := (quizId, username);
    var t := if key in s.progress then s.(progress := s.progress[key := s.progress[key] + 1]) else s;
    (t, GetParticipantProgress(t, quizId, username))
  }

  // ---------------------------------------------------------------------
  // Questions and options
  // ---------------------------------------------------------------------

  /** `getQuestionCount`. */
  function GetQuestionCount(s: Store): (r: nat)
    ensures r == |s.questions|
  {
    |s.questions|
  }

  predicate SortOrderLe(a: QuestionRow, b: QuestionRow) {
    a.sortOrder <= b.sortOrder
  }

  lemma SortOrderIsTotal()
    ensures Sorting.TotalPreorder(SortOrderLe)
  {
  }

  /** The questions in `ORDER BY sort_order ASC`; rows with equal sort
      order keep their insertion order. */
  function QuestionsInOrder(s: Store): (r: seq<QuestionRow>)
    ensures |r| == |s.questions|
  {
    Sorting.Sort(s.questions, SortOrderLe)
  }

  /** The ordered questions are the table's rows, by ascending sort order. */
  lemma QuestionsInOrderMeans(s: Store)
    ensures var r := QuestionsInOrder(s);
            && multiset(r) == multiset(s.questions)
            && (forall q :: q in r <==> q in s.questions)
            && (forall i, j :: 0 <= i < j < |r| ==> r[i].sortOrder <= r[j].sortOrder)
  {
    SortOrderIsTotal();
    Sorting.SortSpec(s.questions, SortOrderLe);
    Sorting.SameMembers(QuestionsInOrder(s), s.questions);
  }

  /** `getQuestionByIndex`: the row at `LIMIT 1 OFFSET index` of the
      questions by sort order; SQLite reads a negative offset as 0. */
  function GetQuestionByIndex(s: Store, index: int): (r: Option<QuestionRow>)
    ensures r.Some? <==> (if index < 0 then 0 else index) < |s.questions|
    ensures r.Some? ==> r.value in s.questions
  {
    var offset := if index < 0 then 0 else index;
    var ordered := QuestionsInOrder(s);
    QuestionsInOrderMeans(s);
    if offset < |ordered| then Some(ordered[offset]) else None
  }

  /** Later indices never come earlier in sort order. */
  lemma QuestionIndexFollowsSortOrder(s: Store, i: int, j: int)
    requires 0 <= i <= j
    requires GetQuestionByIndex(s, j).Some?
    ensures GetQuestionByIndex(s, i).Some?
    ensures GetQuestionByIndex(s, i).value.sortOrder <= GetQuestionByIndex(s, j).value.sortOrder
  {
    QuestionsInOrderMeans(s);
  }

  /** A negative index reads the first question. */
  lemma NegativeIndexReadsFirst(s: Store, index: int)
    requires index < 0
    ensures GetQuestionByIndex(s, index) == GetQuestionByIndex(s, 0)
  {
  }

  /** Text order of SQLite's BINARY collation: code point by code point,
      a proper prefix first. */
  predicate TextLe(a: string, b: string) {
    if |a| == 0 then true
    else if |b| == 0 then false
    else if a[0] != b[0] then a[0] < b[0]
    else TextLe(a[1..], b[1..])
  }

  lemma {:induction false} TextLeTotal(a: string, b: string)
    ensures TextLe(a, b) || TextLe(b, a)
  {
    if |a| > 0 && |b| > 0 && a[0] == b[0] {
      TextLeTotal(a[1..], b[1..]);
    }
  }

  lemma {:induction false} TextLeTransitive(a: string, b: string, c: string)
    requires TextLe(a, b) && TextLe(b, c)
    ensures TextLe(a, c)
  {
    if |a| > 0 && |b| > 0 && |c| > 0 && a[0] == b[0] && b[0] == c[0] {
      TextLeTransitive(a[1..], b[1..], c[1..]);
    }
  }

  lemma {:induction false} TextLeAntisymmetric(a: string, b: string)
    requires TextLe(a, b) && TextLe(b, a)
    ensures a == b
  {
    if |a| > 0 && |b| > 0 {
      TextLeAntisymmetric(a[1..], b[1..]);
      assert a == [a[0]] + a[1..];
      assert b == [b[0]] + b[1..];
    }
  }

  /** A common prefix does not change the order of two texts. */
  lemma {:induction false} TextLeCommonPrefix(p: string, x: string, y: string)
    ensures TextLe(p + x, p + y) == TextLe(x, y)
  {
    if |p| == 0 {
      assert p + x == x && p + y == y;
    } else {
      assert (p + x)[0] == p[0] == (p + y)[0];
      assert (p + x)[1..] == p[1..] + x;
      assert (p + y)[1..] == p[1..] + y;
      TextLeCommonPrefix(p[1..], x, y);
    }
  }

  predicate IdLe(a: OptionRow, b: OptionRow) {
    TextLe(a.id, b.id)
  }

  lemma IdOrderIsTotal()
    ensures Sorting.TotalPreorder(IdLe)
  {
    forall a: OptionRow, b: OptionRow
      ensures IdLe(a, b) || IdLe(b, a)
    {
      TextLeTotal(a.id, b.id);
    }
    forall a: OptionRow, b: OptionRow, c: OptionRow | IdLe(a, b) && IdLe(b, c)
      ensures IdLe(a, c)
    {
      TextLeTransitive(a.id, b.id, c.id);
    }
  }

  /** The rows a `WHERE` condition keeps, in table order. */
  function Where<T>(rows: seq<T>, keep: T -> bool): (r: seq<T>)
    ensures |r| <= |rows|
  {
    if |rows| == 0 then []
    else
      var rest := Where(rows[1..], keep);
      if keep(rows[0]) then [rows[0]] + rest else rest
  }

  /** The filter keeps exactly the rows that meet the condition. */
  lemma {:induction false} WhereMembers<T>(rows: seq<T>, keep: T -> bool)
    ensures forall x :: x in Where(rows, keep) <==> x in rows && keep(x)
  {
    if |rows| > 0 {
      WhereMembers(rows[1..], keep);
      assert rows == [rows[0]] + rows[1..];
    }
  }

  /** Filtering distributes over concatenation. */
  lemma {:induction false} WhereConcat<T>(a: seq<T>, b: seq<T>, keep: T -> bool)
    ensures Where(a + b, keep) == Where(a, keep) + Where(b, keep)
    decreases |a|
  {
    if |a| == 0 {
      assert a + b == b;
    } else {
      assert (a + b)[1..] == a[1..] + b;
      WhereConcat(a[1..], b, keep);
    }
  }

  /** Rows that all meet the condition, or all fail it, are kept whole or
      dropped whole. */
  lemma {:induction false} WhereUniform<T>(rows: seq<T>, keep: T -> bool, mine: bool)
    requires forall k :: 0 <= k < |rows| ==> keep(rows[k]) == mine
    ensures Where(rows, keep) == if mine then rows else []
  {
    if |rows| > 0 {
      WhereUniform(rows[1..], keep, mine);
      assert rows == [rows[0]] + rows[1..];
    }
  }

  /** `WHERE question_id = ?`. */
  function OfQuestion(questionId: string): OptionRow -> bool {
    (o: OptionRow) => o.questionId == questionId
  }

  /** The option rows of one question, in table order. */
  function OptionsOf(options: seq<OptionRow>, questionId: string): seq<OptionRow> {
    Where(options, OfQuestion(questionId))
  }

  /** The filter keeps exactly the rows of the question. */
  lemma OptionsOfMembers(options: seq<OptionRow>, questionId: string)
    ensures forall o :: o in OptionsOf(options, questionId) <==> o in options && o.questionId == questionId
  {
    WhereMembers(options, OfQuestion(questionId));
  }

  /** `getOptionsForQuestion`: exactly the options of the question,
      ordered by id. */
  function GetOptionsForQuestion(s: Store, questionId: string): (r: seq<OptionRow>)
    ensures |r| == |OptionsOf(s.options, questionId)|
  {
    Sorting.Sort(OptionsOf(s.options, questionId), IdLe)
  }

  /** The options returned are exactly the question's rows, ordered by id. */
  lemma GetOptionsForQuestionMeans(s: Store, questionId: string)
    ensures var r := GetOptionsForQuestion(s, questionId);
            && (forall o :: o in r <==> o in s.options && o.questionId == questionId)
            && multiset(r) == multiset(OptionsOf(s.options, questionId))
            && (forall i, j :: 0 <= i < j < |r| ==> TextLe(r[i].id, r[j].id))
  {
    var mine := OptionsOf(s.options, questionId);
    IdOrderIsTotal();
    Sorting.SortSpec(mine, IdLe);
    Sorting.SameMembers(GetOptionsForQuestion(s, questionId), mine);
    OptionsOfMembers(s.options, questionId);
  }

  /** `isOptionCorrect`: the first option row of the question with that id
      has `is_correct` equal to 1; false when there is none. */
  function IsOptionCorrect(s: Store, questionId: string, optionId: string): bool {
    FirstMatchCorrect(OptionsOf(s.options, questionId), optionId)
  }

  /** Whether the first row with the id is marked correct. */
  function FirstMatchCorrect(rows: seq<OptionRow>, optionId: string): bool {
    match First(rows, (o: OptionRow) => o.id == optionId)
    case None => false
    case Some(i) => rows[i].isCorrect == 1
  }

  /** Among rows with distinct ids, the first match is the only one. */
  lemma FirstMatchCorrectUnique(rows: seq<OptionRow>, optionId: string)
    requires UniqueOptionIds(rows)
    ensures FirstMatchCorrect(rows, optionId) <==>
            exists j :: 0 <= j < |rows| && rows[j].id == optionId && rows[j].isCorrect == 1
  {
    match First(rows, (o: OptionRow) => o.id == optionId)
    case None =>
    case Some(i) =>
      forall j | 0 <= j < |rows| && rows[j].id == optionId
        ensures j == i
      {
      }
  }

  /** A correct verdict names an option of the question marked correct;
      with unique option ids, such an option is also sufficient. */
  lemma IsOptionCorrectMeans(s: Store, questionId: string, optionId: string)
    ensures IsOptionCorrect(s, questionId, optionId) ==>
              exists o :: o in s.options && o.questionId == questionId && o.id == optionId && o.isCorrect == 1
    ensures WellFormed(s) ==>
              (IsOptionCorrect(s, questionId, optionId) <==>
               exists o :: o in s.options && o.questionId == questionId && o.id == optionId && o.isCorrect == 1)
  {
    var mine := OptionsOf(s.options, questionId);
    OptionsOfMembers(s.options, questionId);
    match First(mine, (o: OptionRow) => o.id == optionId)
    case None =>
      forall o | o in s.options && o.questionId == questionId
        ensures o.id != optionId
      {
        assert o in mine;
      }
    case Some(i) =>
      UniqueIdsPick(s, mine, questionId, i);
  }

  lemma UniqueIdsPick(s: Store, mine: seq<OptionRow>, questionId: string, i: nat)
    requires mine == OptionsOf(s.options, questionId) && i < |mine|
    ensures mine[i] in s.options && mine[i].questionId == questionId
    ensures WellFormed(s) ==> forall o :: o in s.options && o.id == mine[i].id ==> o == mine[i]
  {
    OptionsOfMembers(s.options, questionId);
    assert mine[i] in mine;
    if WellFormed(s) {
      forall o | o in s.options && o.id == mine[i].id
        ensures o == mine[i]
      {
        var a :| 0 <= a < |s.options| && s.options[a] == o;
        var b :| 0 <= b < |s.options| && s.options[b] == mine[i];
      }
    }
  }

  // ---------------------------------------------------------------------
  // Leaderboard
  // ---------------------------------------------------------------------

  /** `ORDER BY score DESC, joined_at ASC`. */
  predicate RankLe(a: Participant, b: Participant) {
    a.score > b.score || (a.score == b.score && a.joinedAt <= b.joinedAt)
  }

  lemma RankOrderIsTotal()
    ensures Sorting.TotalPreorder(RankLe)
  {
  }

  function ParticipantsOf(ps: seq<Participant>, quizId: string): seq<Participant> {
    Where(ps, InQuiz(quizId))
  }

  /** `WHERE quiz_id = ?`. */
  function InQuiz(quizId: string): Participant -> bool {
    (p: Participant) => p.quizId == quizId
  }

  /** The filter keeps exactly the quiz's participants. */
  lemma ParticipantsOfMembers(ps: seq<Participant>, quizId: string)
    ensures forall p :: p in ParticipantsOf(ps, quizId) <==> p in ps && p.quizId == quizId
  {
    WhereMembers(ps, InQuiz(quizId));
  }

  /** The quiz's participants ranked: higher score first, then earlier
      joiner first.  SQLite leaves the order of rows equal in both
      unspecified; the model picks row-id (insertion) order for them. */
  function Ranked(s: Store, quizId: string): (r: seq<Participant>)
    ensures |r| == |ParticipantsOf(s.participants, quizId)|
  {
    Sorting.Sort(ParticipantsOf(s.participants, quizId), RankLe)
  }

  /** The ranking holds exactly the quiz's participants, by descending
      score and then ascending join time. */
  lemma RankedMeans(s: Store, quizId: string)
    ensures var r := Ranked(s, quizId);
            && multiset(r) == multiset(ParticipantsOf(s.participants, quizId))
            && (forall p :: p in r <==> p in s.participants && p.quizId == quizId)
            && (forall i, j :: 0 <= i < j < |r| ==> r[i].score >= r[j].score)
            && (forall i, j :: 0 <= i < j < |r| && r[i].score == r[j].score ==> r[i].joinedAt <= r[j].joinedAt)
  {
    var mine := ParticipantsOf(s.participants, quizId);
    RankOrderIsTotal();
    Sorting.SortSpec(mine, RankLe);
    Sorting.SameMembers(Ranked(s, quizId), mine);
    ParticipantsOfMembers(s.participants, quizId);
    RankOrderMeans(Ranked(s, quizId));
  }

  lemma RankOrderMeans(r: seq<Participant>)
    requires Sorting.SortedBy(r, RankLe)
    ensures forall i, j :: 0 <= i < j < |r| ==> r[i].score >= r[j].score
    ensures forall i, j :: 0 <= i < j < |r| && r[i].score == r[j].score ==> r[i].joinedAt <= r[j].joinedAt
  {
    forall i, j | 0 <= i < j < |r|
      ensures r[i].score >= r[j].score
      ensures r[i].score == r[j].score ==> r[i].joinedAt <= r[j].joinedAt
    {
      assert RankLe(r[i], r[j]);
    }
  }

  /** `getLeaderboard`: user name and score of every participant of the
      quiz, in rank order. */
  function GetLeaderboard(s: Store, quizId: string): (r: seq<LeaderboardRow>)
    ensures |r| == |ParticipantsOf(s.participants, quizId)|
  {
    var ranked := Ranked(s, quizId);
    seq(|ranked|, i requires 0 <= i < |ranked| => LeaderboardRow(ranked[i].username, ranked[i].score))
  }

  /** The leaderboard lists exactly the quiz's participants, scores
      descending. */
  lemma LeaderboardMeans(s: Store, quizId: string)
    ensures var r := GetLeaderboard(s, quizId);
            forall i, j :: 0 <= i < j < |r| ==> r[i].score >= r[j].score
    ensures var r := GetLeaderboard(s, quizId);
            forall p :: p in s.participants && p.quizId == quizId ==> LeaderboardRow(p.username, p.score) in r
    ensures var r := GetLeaderboard(s, quizId);
            forall i :: 0 <= i < |r| ==>
              exists p :: p in s.participants && p.quizId == quizId && r[i] == LeaderboardRow(p.username, p.score)
  {
    var ranked, r := Ranked(s, quizId), GetLeaderboard(s, quizId);
    RankedMeans(s, quizId);
    forall p | p in s.participants && p.quizId == quizId
      ensures LeaderboardRow(p.username, p.score) in r
    {
      var i :| 0 <= i < |ranked| && ranked[i] == p;
      assert r[i] == LeaderboardRow(p.username, p.score);
    }
    forall i | 0 <= i < |r|
      ensures exists p :: p in s.participants && p.quizId == quizId && r[i] == LeaderboardRow(p.username, p.score)
    {
      assert ranked[i] in ranked;
    }
  }

  // ---------------------------------------------------------------------
  // Seeding
  // ---------------------------------------------------------------------

  /** Questions `seedQuestions` provides. */
  const QuestionCount: nat := 100

  /** `q${index}`. */
  function QuestionId(index: nat): (r: string)
    ensures |r| >= 2 && r[0] == 'q' && r[1..] == Decimal.NatToString(index)
  {
    "q" + Decimal.NatToString(index)
  }

  lemma QuestionIdInjective(a: nat, b: nat)
    requires QuestionId(a) == QuestionId(b)
    ensures a == b
  {
    assert QuestionId(a)[1..] == QuestionId(b)[1..];
    Decimal.NatToStringInjective(a, b);
  }

  /** `${questionId}_${suffix}`. */
  function OptionId(index: nat, suffix: char): string {
    QuestionId(index) + ['_', suffix]
  }

  lemma OptionIdInjective(a: nat, x: char, b: nat, y: char)
    requires OptionId(a, x) == OptionId(b, y)
    ensures a == b && x == y
  {
    var s, t := OptionId(a, x), OptionId(b, y);
    assert |QuestionId(a)| == |QuestionId(b)|;
    assert QuestionId(a) == s[..|s| - 2] == t[..|t| - 2] == QuestionId(b);
    QuestionIdInjective(a, b);
    assert x == s[|s| - 1] == t[|t| - 1] == y;
  }

  /** Question `index` asks for `index + (index + 1)` and sorts at
      `index - 1`. */
  function SeedQuestion(index: nat): (r: QuestionRow)
    requires index >= 1
    ensures r.id == QuestionId(index) && r.sortOrder == index - 1
  {
    QuestionRow(QuestionId(index),
                "What is " + Decimal.NatToString(index) + " + " + Decimal.NatToString(index + 1) + "?",
                index - 1)
  }

  /** Options a..d of question `index`; with `c = 2 * index + 1` the
      right answer, their texts are c + 1, c, c - 1 and c + 2. */
  function SeedOptions(index: nat): (r: seq<OptionRow>)
    ensures |r| == 4
  {
    var correct := 2 * index + 1;
    [ OptionRow(OptionId(index, 'a'), QuestionId(index), Decimal.NatToString(correct + 1), 0),
      OptionRow(OptionId(index, 'b'), QuestionId(index), Decimal.NatToString(correct), 1),
      OptionRow(OptionId(index, 'c'), QuestionId(index), Decimal.NatToString(correct - 1), 0),
      OptionRow(OptionId(index, 'd'), QuestionId(index), Decimal.NatToString(correct + 2), 0) ]
  }

  /** The four options belong to question `index`, carry ids a..d, and
      exactly option b, whose text is the sum asked for, is correct; the
      distractors read one more, one less and two more than the sum. */
  lemma SeedOptionsFacts(index: nat)
    ensures forall k :: 0 <= k < 4 ==> SeedOptions(index)[k].questionId == QuestionId(index)
    ensures forall k :: 0 <= k < 4 ==> SeedOptions(index)[k].id == OptionId(index, "abcd"[k])
    ensures forall k :: 0 <= k < 4 ==> (SeedOptions(index)[k].isCorrect == 1 <==> k == 1)
    ensures SeedOptions(index)[1].optionText == Decimal.NatToString(index + (index + 1))
    ensures SeedOptions(index)[0].optionText == Decimal.NatToString(2 * index + 2)
    ensures SeedOptions(index)[2].optionText == Decimal.NatToString(2 * index)
    ensures SeedOptions(index)[3].optionText == Decimal.NatToString(2 * index + 3)
  {
  }

  predicate HasQuestionId(qs: seq<QuestionRow>, id: string) {
    exists i :: 0 <= i < |qs| && qs[i].id == id
  }

  predicate HasOptionId(os: seq<OptionRow>, id: string) {
    exists i :: 0 <= i < |os| && os[i].id == id
  }

  /** `INSERT OR IGNORE INTO questions`: a row whose id exists is dropped. */
  function InsertQuestionOrIgnore(qs: seq<QuestionRow>, row: QuestionRow): (r: seq<QuestionRow>)
    ensures HasQuestionId(qs, row.id) ==> r == qs
    ensures !HasQuestionId(qs, row.id) ==> r == qs + [row]
    ensures HasQuestionId(r, row.id)
    ensures UniqueQuestionIds(qs) ==> UniqueQuestionIds(r)
  {
    if HasQuestionId(qs, row.id) then qs
    else
      assert (qs + [row])[|qs|] == row;
      qs + [row]
  }

  function InsertOptionOrIgnore(os: seq<OptionRow>, row: OptionRow): (r: seq<OptionRow>)
    ensures HasOptionId(os, row.id) ==> r == os
    ensures !HasOptionId(os, row.id) ==> r == os + [row]
  {
    if HasOptionId(os, row.id) then os else os + [row]
  }

  /** The `forEach` over the option list, one insert-or-ignore each. */
  function InsertOptionsOrIgnore(os: seq<OptionRow>, rows: seq<OptionRow>): seq<OptionRow>
    decreases |rows|
  {
    if |rows| == 0 then os else InsertOptionsOrIgnore(InsertOptionOrIgnore(os, rows[0]), rows[1..])
  }

  /** Insert-or-ignore never creates a duplicate id. */
  lemma {:induction false} InsertOptionsKeepsUnique(os: seq<OptionRow>, rows: seq<OptionRow>)
    ensures UniqueOptionIds(os) ==> UniqueOptionIds(InsertOptionsOrIgnore(os, rows))
    decreases |rows|
  {
    if |rows| > 0 {
      var next := InsertOptionOrIgnore(os, rows[0]);
      InsertOptionsStep(os, rows);
      InsertOptionsKeepsUnique(next, rows[1..]);
    }
  }

  /** No id of `rows` occurs in `os`. */
  ghost predicate DisjointIds(os: seq<OptionRow>, rows: seq<OptionRow>) {
    forall i, k :: 0 <= i < |os| && 0 <= k < |rows| ==> os[i].id != rows[k].id
  }

  /** Rows whose ids are new and pairwise distinct are all appended. */
  lemma {:induction false} InsertFreshOptions(os: seq<OptionRow>, rows: seq<OptionRow>)
    requires DisjointIds(os, rows) && UniqueOptionIds(rows)
    ensures InsertOptionsOrIgnore(os, rows) == os + rows
    decreases |rows|
  {
    if |rows| > 0 {
      var next, rest := os + [rows[0]], rows[1..];
      FreshFirst(os, rows);
      FreshRest(os, rows);
      InsertFreshOptions(next, rest);
      InsertOptionsStep(os, rows);
      AppendFirst(os, rows);
    }
  }

  lemma AppendFirst<T>(os: seq<T>, rows: seq<T>)
    requires |rows| > 0
    ensures os + [rows[0]] + rows[1..] == os + rows
  {
    assert rows == [rows[0]] + rows[1..];
  }

  lemma FreshFirst(os: seq<OptionRow>, rows: seq<OptionRow>)
    requires |rows| > 0 && DisjointIds(os, rows)
    ensures InsertOptionOrIgnore(os, rows[0]) == os + [rows[0]]
  {
    forall i | 0 <= i < |os|
      ensures os[i].id != rows[0].id
    {
    }
  }

  lemma FreshRest(os: seq<OptionRow>, rows: seq<OptionRow>)
    requires |rows| > 0 && DisjointIds(os, rows) && UniqueOptionIds(rows)
    ensures DisjointIds(os + [rows[0]], rows[1..]) && UniqueOptionIds(rows[1..])
  {
    var next, rest := os + [rows[0]], rows[1..];
    forall i, k | 0 <= i < |next| && 0 <= k < |rest|
      ensures next[i].id != rest[k].id
    {
      assert rest[k] == rows[k + 1];
      if i < |os| {
        assert next[i] == os[i];
      }
    }
    forall i, j | 0 <= i < j < |rest|
      ensures rest[i].id != rest[j].id
    {
      assert rest[i] == rows[i + 1] && rest[j] == rows[j + 1];
    }
  }

  lemma InsertOptionsStep(os: seq<OptionRow>, rows: seq<OptionRow>)
    requires |rows| > 0
    ensures InsertOptionsOrIgnore(os, rows) == InsertOptionsOrIgnore(InsertOptionOrIgnore(os, rows[0]), rows[1..])
  {
  }

  lemma FreshAfterAppend(os: seq<OptionRow>, row: OptionRow, id: string)
    requires !HasOptionId(os, id) && row.id != id
    ensures !HasOptionId(os + [row], id)
  {
    var next := os + [row];
    forall i | 0 <= i < |next|
      ensures next[i].id != id
    {
      if i < |os| {
        assert next[i] == os[i];
      }
    }
  }

  lemma KeepsQuestionId(a: seq<QuestionRow>, b: seq<QuestionRow>, id: string)
    requires |b| >= |a| && b[..|a|] == a && HasQuestionId(a, id)
    ensures HasQuestionId(b, id)
  {
    var i :| 0 <= i < |a| && a[i].id == id;
    assert b[i] == a[i];
  }

  /** The two tables seeding writes. */
  datatype Catalog = Catalog(questions: seq<QuestionRow>, options: seq<OptionRow>)

  /** What one iteration of the seeding loop writes: a question and its
      options. */
  datatype SeedBlock = SeedBlock(question: QuestionRow, options: seq<OptionRow>)

  /** The iterations of the loop, for indices 1..100 in order. */
  function SeedPlan(): (r: seq<SeedBlock>)
    ensures |r| == QuestionCount
  {
    seq(QuestionCount, i requires 0 <= i < QuestionCount => SeedBlock(SeedQuestion(i + 1), SeedOptions(i + 1)))
  }

  lemma SeedPlanAt(i: nat)
    requires i < QuestionCount
    ensures SeedPlan()[i] == SeedBlock(SeedQuestion(i + 1), SeedOptions(i + 1))
  {
  }

  /** One iteration of the seeding loop. */
  function SeedOne(c: Catalog, b: SeedBlock): Catalog {
    Catalog(InsertQuestionOrIgnore(c.questions, b.question), InsertOptionsOrIgnore(c.options, b.options))
  }

  /** The remaining iterations of the loop. */
  function SeedLoop(c: Catalog, plan: seq<SeedBlock>): Catalog
    decreases |plan|
  {
    if |plan| == 0 then c else SeedLoop(SeedOne(c, plan[0]), plan[1..])
  }

  lemma SeedLoopStep(c: Catalog, plan: seq<SeedBlock>)
    requires |plan| > 0
    ensures SeedLoop(c, plan) == SeedLoop(SeedOne(c, plan[0]), plan[1..])
  {
  }

  /** One iteration keeps the rows already there, adds its question
      unless the id exists, and creates no duplicate id. */
  lemma SeedOneKeeps(c: Catalog, b: SeedBlock)
    ensures var r := SeedOne(c, b);
            |r.questions| >= |c.questions| && r.questions[..|c.questions|] == c.questions
    ensures HasQuestionId(SeedOne(c, b).questions, b.question.id)
    ensures UniqueQuestionIds(c.questions) ==> UniqueQuestionIds(SeedOne(c, b).questions)
    ensures UniqueOptionIds(c.options) ==> UniqueOptionIds(SeedOne(c, b).options)
  {
    InsertOptionsKeepsUnique(c.options, b.options);
  }

  lemma {:induction false} SeedLoopKeeps(c: Catalog, plan: seq<SeedBlock>)
    ensures var r := SeedLoop(c, plan);
            |r.questions| >= |c.questions| && r.questions[..|c.questions|] == c.questions
    ensures UniqueQuestionIds(c.questions) ==> UniqueQuestionIds(SeedLoop(c, plan).questions)
    ensures UniqueOptionIds(c.options) ==> UniqueOptionIds(SeedLoop(c, plan).options)
    decreases |plan|
  {
    if |plan| > 0 {
      var t := SeedOne(c, plan[0]);
      var r := SeedLoop(t, plan[1..]);
      SeedLoopStep(c, plan);
      SeedOneKeeps(c, plan[0]);
      SeedLoopKeeps(t, plan[1..]);
      assert r.questions[..|c.questions|] == r.questions[..|t.questions|][..|c.questions|];
    }
  }

  /** Insert-or-ignore keeps the rows already there and appends only rows
      of the list. */
  lemma {:induction false} InsertOptionsAppends(os: seq<OptionRow>, rows: seq<OptionRow>)
    ensures var r := InsertOptionsOrIgnore(os, rows);
            |r| >= |os| && r[..|os|] == os && forall i :: |os| <= i < |r| ==> r[i] in rows
    decreases |rows|
  {
    if |rows| > 0 {
      var next := InsertOptionOrIgnore(os, rows[0]);
      InsertOptionsStep(os, rows);
      InsertOptionsAppends(next, rows[1..]);
      var r := InsertOptionsOrIgnore(next, rows[1..]);
      assert r[..|os|] == r[..|next|][..|os|];
      forall i | |os| <= i < |r|
        ensures r[i] in rows
      {
        if i < |next| {
          assert r[i] == r[..|next|][i] == next[i] == rows[0];
        } else {
          assert r[i] in rows[1..];
        }
      }
    }
  }

  /** Every question row past `n` is the question of some iteration. */
  ghost predicate QuestionsFromPlan(qs: seq<QuestionRow>, n: nat, plan: seq<SeedBlock>) {
    forall i :: n <= i < |qs| ==> exists j :: 0 <= j < |plan| && qs[i] == plan[j].question
  }

  /** Every option row past `n` is an option of some iteration. */
  ghost predicate OptionsFromPlan(os: seq<OptionRow>, n: nat, plan: seq<SeedBlock>) {
    forall i :: n <= i < |os| ==> exists j :: 0 <= j < |plan| && os[i] in plan[j].options
  }

  /** The loop keeps the option rows already there, and everything it
      appends to either table comes from its iterations. */
  lemma {:induction false} SeedLoopAppends(c: Catalog, plan: seq<SeedBlock>)
    ensures var r := SeedLoop(c, plan);
            |r.options| >= |c.options| && r.options[..|c.options|] == c.options
    ensures QuestionsFromPlan(SeedLoop(c, plan).questions, |c.questions|, plan)
    ensures OptionsFromPlan(SeedLoop(c, plan).options, |c.options|, plan)
    decreases |plan|
  {
    if |plan| > 0 {
      var t := SeedOne(c, plan[0]);
      var r := SeedLoop(t, plan[1..]);
      SeedLoopStep(c, plan);
      SeedOneKeeps(c, plan[0]);
      InsertOptionsAppends(c.options, plan[0].options);
      SeedLoopKeeps(t, plan[1..]);
      SeedLoopAppends(t, plan[1..]);
      assert r.options[..|c.options|] == r.options[..|t.options|][..|c.options|];
      forall i | |c.questions| <= i < |r.questions|
        ensures exists j :: 0 <= j < |plan| && r.questions[i] == plan[j].question
      {
        if i < |t.questions| {
          assert r.questions[i] == r.questions[..|t.questions|][i] == t.questions[i] == plan[0].question;
        } else {
          var j :| 0 <= j < |plan[1..]| && r.questions[i] == plan[1..][j].question;
          assert plan[1..][j] == plan[j + 1];
        }
      }
      forall i | |c.options| <= i < |r.options|
        ensures exists j :: 0 <= j < |plan| && r.options[i] in plan[j].options
      {
        if i < |t.options| {
          assert r.options[i] == r.options[..|t.options|][i] == t.options[i];
          assert r.options[i] in plan[0].options;
        } else {
          var j :| 0 <= j < |plan[1..]| && r.options[i] in plan[1..][j].options;
          assert plan[1..][j] == plan[j + 1];
        }
      }
    }
  }

  /** Every question row past `n` is one of the catalogue's questions. */
  ghost predicate CatalogueQuestionsAfter(qs: seq<QuestionRow>, n: nat) {
    forall i :: n <= i < |qs| ==> exists k :: 1 <= k <= QuestionCount && qs[i] == SeedQuestion(k)
  }

  /** Every option row past `n` is one of the catalogue's options. */
  ghost predicate CatalogueOptionsAfter(os: seq<OptionRow>, n: nat) {
    forall i :: n <= i < |os| ==> exists k :: 1 <= k <= QuestionCount && os[i] in SeedOptions(k)
  }

  /** The rows seeding appends are catalogue rows. */
  lemma SeedAppendsCatalogue(c: Catalog)
    ensures var r := SeedLoop(c, SeedPlan());
            && |r.options| >= |c.options| && r.options[..|c.options|] == c.options
            && CatalogueQuestionsAfter(r.questions, |c.questions|)
            && CatalogueOptionsAfter(r.options, |c.options|)
  {
    var r := SeedLoop(c, SeedPlan());
    SeedLoopAppends(c, SeedPlan());
    forall i | |c.questions| <= i < |r.questions|
      ensures exists k :: 1 <= k <= QuestionCount && r.questions[i] == SeedQuestion(k)
    {
      var j :| 0 <= j < |SeedPlan()| && r.questions[i] == SeedPlan()[j].question;
      SeedPlanAt(j);
    }
    forall i | |c.options| <= i < |r.options|
      ensures exists k :: 1 <= k <= QuestionCount && r.options[i] in SeedOptions(k)
    {
      var j :| 0 <= j < |SeedPlan()| && r.options[i] in SeedPlan()[j].options;
      SeedPlanAt(j);
    }
  }

  /** Whatever the tables held, the question of every iteration is
      present afterwards; `i` is its position. */
  lemma {:induction false} SeedLoopCovers(c: Catalog, plan: seq<SeedBlock>, j: nat) returns (i: nat)
    requires j < |plan|
    ensures i < |SeedLoop(c, plan).questions| && SeedLoop(c, plan).questions[i].id == plan[j].question.id
    decreases |plan|
  {
    var t := SeedOne(c, plan[0]);
    var r := SeedLoop(t, plan[1..]);
    SeedLoopStep(c, plan);
    if j == 0 {
      SeedOneKeeps(c, plan[0]);
      SeedLoopKeeps(t, plan[1..]);
      i :| 0 <= i < |t.questions| && t.questions[i].id == plan[0].question.id;
      assert r.questions[i] == r.questions[..|t.questions|][i];
    } else {
      i := SeedLoopCovers(t, plan[1..], j - 1);
    }
  }

  /** `seedQuestions`: nothing happens when the table already holds 100
      rows; otherwise questions q1..q100 and their options are inserted,
      rows already present being kept as they are.  Only the question and
      option tables change. */
  function SeedQuestions(s: Store): (r: Store)
    ensures |s.questions| >= QuestionCount ==> r == s
    ensures r.sessions == s.sessions && r.participants == s.participants
    ensures r.answers == s.answers && r.progress == s.progress
    ensures |r.questions| >= |s.questions| && r.questions[..|s.questions|] == s.questions
    ensures |r.options| >= |s.options| && r.options[..|s.options|] == s.options
    ensures CatalogueQuestionsAfter(r.questions, |s.questions|)
    ensures CatalogueOptionsAfter(r.options, |s.options|)
    ensures UniqueQuestionIds(s.questions) ==> UniqueQuestionIds(r.questions)
    ensures UniqueOptionIds(s.options) ==> UniqueOptionIds(r.options)
  {
    if |s.questions| >= QuestionCount then s
    else
      var start := Catalog(s.questions, s.options);
      SeedLoopKeeps(start, SeedPlan());
      SeedAppendsCatalogue(start);
      var c := SeedLoop(start, SeedPlan());
      s.(questions := c.questions, options := c.options)
  }

  /** After seeding, every id q1..q100 is present unless the table
      already held 100 rows. */
  lemma SeedQuestionsCovers(s: Store)
    requires |s.questions| < QuestionCount
    ensures forall k :: 1 <= k <= QuestionCount ==> HasQuestionId(SeedQuestions(s).questions, QuestionId(k))
  {
    forall k | 1 <= k <= QuestionCount
      ensures HasQuestionId(SeedQuestions(s).questions, QuestionId(k))
    {
      var i := SeedLoopCovers(Catalog(s.questions, s.options), SeedPlan(), k - 1);
      SeedPlanAt(k - 1);
    }
  }

  lemma SeedKeepsWellFormed(s: Store)
    requires WellFormed(s)
    ensures WellFormed(SeedQuestions(s))
  {
    var r := SeedQuestions(s);
    assert r.participants == s.participants && r.answers == s.answers;
    assert r.sessions == s.sessions && r.progress == s.progress;
  }

  /** q1..qn in order. */
  function SeedQuestionRows(n: nat): (r: seq<QuestionRow>)
    ensures |r| == n
  {
    seq(n, i requires 0 <= i < n => SeedQuestion(i + 1))
  }

  lemma SeedQuestionRowsAt(n: nat)
    ensures forall i :: 0 <= i < n ==> SeedQuestionRows(n)[i] == SeedQuestion(i + 1)
  {
  }

  /** Row k of the seeded option table. */
  function SeedOptionAt(k: nat): OptionRow {
    SeedOptions(k / 4 + 1)[k % 4]
  }

  /** The options of q1..qn in order, four per question. */
  function SeedOptionRows(n: nat): (r: seq<OptionRow>)
    ensures |r| == 4 * n
  {
    seq(4 * n, k requires 0 <= k < 4 * n => SeedOptionAt(k))
  }

  lemma SeedOptionRowsAt(n: nat, k: nat)
    requires k < 4 * n
    ensures SeedOptionRows(n)[k] == SeedOptionAt(k)
  {
  }

  lemma SeedOptionAtFacts(k: nat)
    ensures SeedOptionAt(k).questionId == QuestionId(k / 4 + 1)
    ensures SeedOptionAt(k).id == OptionId(k / 4 + 1, "abcd"[k % 4])
  {
    SeedOptionsFacts(k / 4 + 1);
  }

  /** The question and option tables of a freshly seeded database. */
  ghost predicate Seeded(s: Store) {
    s.questions == SeedQuestionRows(QuestionCount) && s.options == SeedOptionRows(QuestionCount)
  }

  lemma QuestionNotYetSeeded(index: nat)
    requires index >= 1
    ensures !HasQuestionId(SeedQuestionRows(index - 1), QuestionId(index))
  {
    var prev := SeedQuestionRows(index - 1);
    SeedQuestionRowsAt(index - 1);
    forall i | 0 <= i < |prev|
      ensures prev[i].id != QuestionId(index)
    {
      if prev[i].id == QuestionId(index) {
        QuestionIdInjective(i + 1, index);
      }
    }
  }

  lemma OptionsNotYetSeeded(index: nat)
    requires index >= 1
    ensures DisjointIds(SeedOptionRows(index - 1), SeedOptions(index))
  {
    var prev, rows := SeedOptionRows(index - 1), SeedOptions(index);
    SeedOptionsFacts(index);
    forall k, m | 0 <= k < 4 && 0 <= m < |prev|
      ensures prev[m].id != rows[k].id
    {
      SeedOptionRowsAt(index - 1, m);
      SeedOptionAtFacts(m);
      if prev[m].id == rows[k].id {
        OptionIdInjective(m / 4 + 1, "abcd"[m % 4], index, "abcd"[k]);
      }
    }
  }

  lemma SeedOptionsUnique(index: nat)
    ensures UniqueOptionIds(SeedOptions(index))
  {
    var rows := SeedOptions(index);
    SeedOptionsFacts(index);
    forall i, j | 0 <= i < j < 4
      ensures rows[i].id != rows[j].id
    {
      if rows[i].id == rows[j].id {
        OptionIdInjective(index, "abcd"[i], index, "abcd"[j]);
      }
    }
  }

  lemma SeedQuestionRowsGrow(index: nat)
    requires index >= 1
    ensures SeedQuestionRows(index - 1) + [SeedQuestion(index)] == SeedQuestionRows(index)
  {
    SeedQuestionRowsAt(index - 1);
    SeedQuestionRowsAt(index);
  }

  lemma SeedOptionRowsGrow(index: nat)
    requires index >= 1
    ensures SeedOptionRows(index - 1) + SeedOptions(index) == SeedOptionRows(index)
  {
    var b := SeedOptionRows(index);
    var base := 4 * (index - 1);
    SeedOptionRowsPrefix(index);
    SeedOptionRowsBlock(index);
    assert b == b[..base] + b[base..];
  }

  lemma SeedOptionRowsPrefix(index: nat)
    requires index >= 1
    ensures SeedOptionRows(index)[..4 * (index - 1)] == SeedOptionRows(index - 1)
  {
    var b, prev := SeedOptionRows(index), SeedOptionRows(index - 1);
    forall k | 0 <= k < |prev|
      ensures b[k] == prev[k]
    {
      SeedOptionRowsAt(index, k);
      SeedOptionRowsAt(index - 1, k);
    }
  }

  lemma SeedOptionRowsBlock(index: nat)
    requires index >= 1
    ensures SeedOptionRows(index)[4 * (index - 1)..] == SeedOptions(index)
  {
    var b, block := SeedOptionRows(index), SeedOptions(index);
    var base := 4 * (index - 1);
    forall m | 0 <= m < 4
      ensures b[base..][m] == block[m]
    {
      SeedOptionRowsAt(index, base + m);
      SeedOptionAtBlock(index, m);
    }
  }

  lemma SeedOptionAtBlock(index: nat, m: nat)
    requires index >= 1 && m < 4
    ensures SeedOptionAt(4 * (index - 1) + m) == SeedOptions(index)[m]
  {
    BlockPosition(index, m);
  }

  lemma BlockPosition(index: nat, m: nat)
    requires index >= 1 && m < 4
    ensures (4 * (index - 1) + m) / 4 + 1 == index && (4 * (index - 1) + m) % 4 == m
  {
  }

  /** On tables holding exactly q1..q(index-1), one seeding step adds
      q(index) and its four options. */
  lemma SeedOneFresh(c: Catalog, index: nat)
    requires index >= 1
    requires c == Catalog(SeedQuestionRows(index - 1), SeedOptionRows(index - 1))
    ensures SeedOne(c, SeedBlock(SeedQuestion(index), SeedOptions(index)))
            == Catalog(SeedQuestionRows(index), SeedOptionRows(index))
  {
    QuestionNotYetSeeded(index);
    OptionsNotYetSeeded(index);
    SeedOptionsUnique(index);
    InsertFreshOptions(c.options, SeedOptions(index));
    SeedQuestionRowsGrow(index);
    SeedOptionRowsGrow(index);
  }

  /** From tables holding q1..qn, the rest of the loop yields exactly
      q1..q100. */
  lemma {:induction false} SeedLoopFresh(c: Catalog, n: nat)
    requires n <= QuestionCount
    requires c == Catalog(SeedQuestionRows(n), SeedOptionRows(n))
    ensures SeedLoop(c, SeedPlan()[n..]) == Catalog(SeedQuestionRows(QuestionCount), SeedOptionRows(QuestionCount))
    decreases QuestionCount - n
  {
    var plan := SeedPlan()[n..];
    if n == QuestionCount {
      assert plan == [];
    } else {
      var b := SeedBlock(SeedQuestion(n + 1), SeedOptions(n + 1));
      SeedPlanAt(n);
      assert plan[0] == b;
      assert plan[1..] == SeedPlan()[n + 1..];
      var next := SeedOne(c, b);
      SeedOneFresh(c, n + 1);
      SeedLoopStep(c, plan);
      SeedLoopFresh(next, n + 1);
    }
  }

  /** Seeding a database without questions yields exactly q1..q100 with
      their options. */
  lemma SeedEmptyTables(s: Store)
    requires s.questions == [] && s.options == []
    ensures Seeded(SeedQuestions(s))
    ensures GetQuestionCount(SeedQuestions(s)) == QuestionCount
  {
    var c := Catalog(s.questions, s.options);
    assert c == Catalog(SeedQuestionRows(0), SeedOptionRows(0));
    SeedLoopFresh(c, 0);
    assert SeedPlan()[0..] == SeedPlan();
  }

  /** In a seeded database the question at index k is q(k+1). */
  lemma SeededQuestionAt(s: Store, index: int)
    requires Seeded(s)
    ensures 0 <= index < QuestionCount ==> GetQuestionByIndex(s, index) == Some(SeedQuestion(index + 1))
    ensures index >= QuestionCount ==> GetQuestionByIndex(s, index).None?
  {
    SeedQuestionRowsAt(QuestionCount);
    SortOrderIsTotal();
    Sorting.SortOfSorted(s.questions, SortOrderLe);
  }

  lemma OptionsOfUniform(rows: seq<OptionRow>, questionId: string, mine: bool)
    requires forall k :: 0 <= k < |rows| ==> (rows[k].questionId == questionId) == mine
    ensures OptionsOf(rows, questionId) == if mine then rows else []
  {
    WhereUniform(rows, OfQuestion(questionId), mine);
  }

  lemma OptionsOfSeedGrow(n: nat, k: nat)
    requires n > 0
    ensures OptionsOf(SeedOptionRows(n), QuestionId(k))
            == OptionsOf(SeedOptionRows(n - 1), QuestionId(k)) + OptionsOf(SeedOptions(n), QuestionId(k))
  {
    SeedOptionRowsGrow(n);
    WhereConcat(SeedOptionRows(n - 1), SeedOptions(n), OfQuestion(QuestionId(k)));
  }

  lemma OptionsOfSeedBlock(n: nat, k: nat)
    ensures OptionsOf(SeedOptions(n), QuestionId(k)) == if n == k then SeedOptions(n) else []
  {
    if QuestionId(n) == QuestionId(k) {
      QuestionIdInjective(n, k);
    }
    SeedOptionsFacts(n);
    OptionsOfUniform(SeedOptions(n), QuestionId(k), n == k);
  }

  /** The options of question k among those of q1..qn. */
  lemma {:induction false} SeedOptionsOf(n: nat, k: nat)
    requires k >= 1
    ensures OptionsOf(SeedOptionRows(n), QuestionId(k)) == if k <= n then SeedOptions(k) else []
  {
    var q := QuestionId(k);
    if n == 0 {
      assert SeedOptionRows(0) == [];
    } else {
      var prev, block := OptionsOf(SeedOptionRows(n - 1), q), OptionsOf(SeedOptions(n), q);
      SeedOptionsOf(n - 1, k);
      OptionsOfSeedGrow(n, k);
      OptionsOfSeedBlock(n, k);
      assert OptionsOf(SeedOptionRows(n), q) == prev + block;
      if k < n {
        assert block == [] && prev == SeedOptions(k);
        assert prev + block == prev;
      } else if k == n {
        assert prev == [] && block == SeedOptions(k);
        assert prev + block == block;
      } else {
        assert prev == [] && block == [];
      }
    }
  }

  /** In a seeded database the options of question k are a, b, c, d in that
      order. */
  lemma SeededOptionsOf(s: Store, k: nat)
    requires Seeded(s) && 1 <= k <= QuestionCount
    ensures GetOptionsForQuestion(s, QuestionId(k)) == SeedOptions(k)
  {
    SeedOptionsOf(QuestionCount, k);
    SeedOptionsInIdOrder(k);
    IdOrderIsTotal();
    Sorting.SortOfSorted(SeedOptions(k), IdLe);
  }

  /** Option ids a < b < c < d share the question id as prefix. */
  lemma SeedOptionsInIdOrder(k: nat)
    ensures Sorting.SortedBy(SeedOptions(k), IdLe)
  {
    var p := QuestionId(k);
    TextLeCommonPrefix(p, ['_', 'a'], ['_', 'b']);
    TextLeCommonPrefix(p, ['_', 'a'], ['_', 'c']);
    TextLeCommonPrefix(p, ['_', 'a'], ['_', 'd']);
    TextLeCommonPrefix(p, ['_', 'b'], ['_', 'c']);
    TextLeCommonPrefix(p, ['_', 'b'], ['_', 'd']);
    TextLeCommonPrefix(p, ['_', 'c'], ['_', 'd']);
  }

  /** In a seeded database, an answer to question k is correct exactly
      when it names option b of that question. */
  lemma SeededCorrectness(s: Store, k: nat, optionId: string)
    requires Seeded(s) && 1 <= k <= QuestionCount
    ensures IsOptionCorrect(s, QuestionId(k), optionId) <==> optionId == OptionId(k, 'b')
  {
    var rows := SeedOptions(k);
    SeedOptionsOf(QuestionCount, k);
    assert IsOptionCorrect(s, QuestionId(k), optionId) == FirstMatchCorrect(rows, optionId);
    SeedOptionsUnique(k);
    FirstMatchCorrectUnique(rows, optionId);
    SeedOptionsFacts(k);
    if optionId == OptionId(k, 'b') {
      assert rows[1].id == optionId && rows[1].isCorrect == 1;
    }
  }

  /** A question id that no seeded question has has no correct option. */
  lemma UnknownQuestionNeverCorrect(s: Store, questionId: string, optionId: string)
    requires Seeded(s)
    requires forall k :: 1 <= k <= QuestionCount ==> questionId != QuestionId(k)
    ensures !IsOptionCorrect(s, questionId, optionId)
  {
    forall m | 0 <= m < |s.options|
      ensures s.options[m].questionId != questionId
    {
      SeedOptionRowsAt(QuestionCount, m);
      SeedOptionAtFacts(m);
    }
    OptionsOfUniform(s.options, questionId, false);
  }
}
