/** The WebSocket front end of the quiz server (server/src/index.ts): the
    shape checks on parsed client messages, the registry of sockets per quiz
    session, the dispatch of one message to the quiz service with the
    messages it sends back, and the close handler.  Sockets are named by
    numbers; the JSON text, the socket I/O and logging are left out, and
    what a handler sends is an ordered outbox. */
module Server {
  import opened Wrappers
  import opened QuizStore
  import opened QuizService

  type SocketId = nat

  /** A value `JSON.parse` can return. */
  datatype Json =
    | JNull
    | JBool(b: bool)
    | JNumber(x: real)
    | JString(text: string)
    | JArray(items: seq<Json>)
    | JObject(fields: map<string, Json>)

  /** `value.key` on a parsed value other than `null`: an object's own
      member, and `undefined` (none) for a missing key or any other kind of
      value. */
  function Member(v: Json, key: string): Option<Json> {
    if v.JObject? && key in v.fields then Some(v.fields[key]) else None
  }

  /** `typeof value.key === "string"`. */
  predicate HasString(v: Json, key: string) {
    Member(v, key).Some? && Member(v, key).value.JString?
  }

  function StringAt(v: Json, key: string): string
    requires HasString(v, key)
  {
    Member(v, key).value.text
  }

  /** `isJoinMessage`; reading a member of `null` throws, so the check is
      only defined on other values. */
  predicate IsJoinMessage(m: Json)
    requires !m.JNull?
  {
    Member(m, "type") == Some(JString("join")) && HasString(m, "quizId") && HasString(m, "username")
  }

  /** `isAnswerMessage`: the join fields plus string `questionId` and
      `optionId`, under type "answer". */
  predicate IsAnswerMessage(m: Json)
    requires !m.JNull?
  {
    && Member(m, "type") == Some(JString("answer"))
    && HasString(m, "quizId") && HasString(m, "username")
    && HasString(m, "questionId") && HasString(m, "optionId")
  }

  /** The two client messages the server understands. */
  datatype ClientMessage =
    | JoinMessage(quizId: string, username: string)
    | AnswerMessage(quizId: string, username: string, questionId: string, optionId: string)

  /** The typed message `handleClientMessage` acts on: the join check runs
      first, then the answer check; anything else has no type. */
  function Classify(m: Json): (r: Option<ClientMessage>)
    requires !m.JNull?
    ensures r.Some? <==> IsJoinMessage(m) || IsAnswerMessage(m)
    ensures r.Some? && r.value.JoinMessage? <==> IsJoinMessage(m)
  {
    if IsJoinMessage(m) then Some(JoinMessage(StringAt(m, "quizId"), StringAt(m, "username")))
    else if IsAnswerMessage(m) then
      Some(AnswerMessage(StringAt(m, "quizId"), StringAt(m, "username"),
                         StringAt(m, "questionId"), StringAt(m, "optionId")))
    else None
  }

  /** The members a client puts in the JSON of a message. */
  function Fields(c: ClientMessage): map<string, Json> {
    match c
    case JoinMessage(q, u) =>
      map["type" := JString("join"), "quizId" := JString(q), "username" := JString(u)]
    case AnswerMessage(q, u, qid, oid) =>
      map["type" := JString("answer"), "quizId" := JString(q), "username" := JString(u),
          "questionId" := JString(qid), "optionId" := JString(oid)]
  }

  /** A message the clients send is read back as itself, whatever other
      members the object carries. */
  lemma ClassifyRoundTrip(c: ClientMessage, extra: map<string, Json>)
    ensures Classify(JObject(extra + Fields(c))) == Some(c)
  {
    var m := JObject(extra + Fields(c));
    assert Member(m, "type") == Some(Fields(c)["type"]);
    assert Member(m, "quizId") == Some(JString(c.quizId));
    assert Member(m, "username") == Some(JString(c.username));
    if c.AnswerMessage? {
      assert Member(m, "questionId") == Some(JString(c.questionId));
      assert Member(m, "optionId") == Some(JString(c.optionId));
    }
  }

  /** An answer whose question or option id is not a string (a number, a
      missing key) is no message at all, and so is any value that is not an
      object. */
  lemma ClassifyRejects(m: Json)
    requires !m.JNull?
    ensures !m.JObject? ==> Classify(m).None?
    ensures Member(m, "type") == Some(JString("answer")) && !(HasString(m, "questionId") && HasString(m, "optionId"))
            ==> Classify(m).None?
    ensures Member(m, "type") != Some(JString("join")) && Member(m, "type") != Some(JString("answer"))
            ==> Classify(m).None?
  {
  }

  // ---------------------------------------------------------------------
  // Session registry
  // ---------------------------------------------------------------------

  /** A Set of sockets, kept as a sequence in insertion order (the order
      `forEach` visits them). */
  predicate NoDup(s: seq<SocketId>) {
    forall i, j :: 0 <= i < j < |s| ==> s[i] != s[j]
  }

  /** What the handlers keep true of `sessions`: no empty session set (an
      emptied one is deleted) and no socket twice. */
  ghost predicate RegistryOk(sessions: map<string, seq<SocketId>>) {
    forall q :: q in sessions ==> |sessions[q]| > 0 && NoDup(sessions[q])
  }

  /** `getSessionSockets`: the quiz's set, created empty and stored when the
      quiz has none yet. */
  function GetSessionSockets(sessions: map<string, seq<SocketId>>, quizId: string)
    : (r: (map<string, seq<SocketId>>, seq<SocketId>))
    ensures quizId in r.0 && r.1 == r.0[quizId]
    ensures quizId in sessions ==> r == (sessions, sessions[quizId])
    ensures quizId !in sessions ==> r == (sessions[quizId := []], [])
  {
    if quizId in sessions then (sessions, sessions[quizId]) else (sessions[quizId := []], [])
  }

  /** `Set.prototype.add`: appended when absent, otherwise no change. */
  function Add(s: seq<SocketId>, ws: SocketId): seq<SocketId> {
    if ws in s then s else s + [ws]
  }

  /** `attachToSession`: the socket joins the quiz's set; no other session
      changes. */
  function Attach(sessions: map<string, seq<SocketId>>, ws: SocketId, quizId: string)
    : (r: map<string, seq<SocketId>>)
    ensures r.Keys == sessions.Keys + {quizId}
    ensures ws in r[quizId]
    ensures quizId in sessions ==> forall x :: x in sessions[quizId] ==> x in r[quizId]
    ensures forall q :: q in sessions && q != quizId ==> r[q] == sessions[q]
    ensures RegistryOk(sessions) ==> RegistryOk(r)
  {
    var (present, sockets) := GetSessionSockets(sessions, quizId);
    var r := present[quizId := Add(sockets, ws)];
    assert RegistryOk(sessions) ==> NoDup(Add(sockets, ws));
    r
  }

  /** `Set.prototype.delete`. */
  function Remove(s: seq<SocketId>, ws: SocketId): (r: seq<SocketId>)
    ensures |r| <= |s|
  {
    if |s| == 0 then []
    else (if s[0] == ws then [] else [s[0]]) + Remove(s[1..], ws)
  }

  /** Deleting keeps every other socket, in order, and drops the one. */
  lemma {:induction false} RemoveMeans(s: seq<SocketId>, ws: SocketId)
    ensures forall x :: x in Remove(s, ws) <==> x in s && x != ws
    ensures NoDup(s) ==> NoDup(Remove(s, ws))
    ensures ws !in s ==> Remove(s, ws) == s
  {
    if |s| > 0 {
      RemoveMeans(s[1..], ws);
      assert s == [s[0]] + s[1..];
      var r := Remove(s, ws);
      if NoDup(s) {
        assert NoDup(s[1..]);
        if s[0] != ws {
          forall i, j | 0 <= i < j < |r|
            ensures r[i] != r[j]
          {
            if i == 0 {
              assert r[j] in Remove(s[1..], ws);
              assert s[0] !in s[1..];
            } else {
              assert r[i] == Remove(s[1..], ws)[i - 1] && r[j] == Remove(s[1..], ws)[j - 1];
            }
          }
        }
      }
    }
  }

  /** Deleting the socket last added gives back the set before the add. */
  lemma {:induction false} RemoveAppended(s: seq<SocketId>, ws: SocketId)
    requires ws !in s
    ensures Remove(s + [ws], ws) == s
  {
    if |s| > 0 {
      assert (s + [ws])[1..] == s[1..] + [ws];
      RemoveAppended(s[1..], ws);
      assert s == [s[0]] + s[1..];
    } else {
      assert Remove([ws], ws) == [] + Remove([], ws);
    }
  }

  /** `ws.data`: the quiz and user a join bound to the connection. */
  datatype Binding = Binding(quizId: Option<string>, username: Option<string>)

  /** `!quizId` in JavaScript: no binding, or the empty string. */
  predicate Falsy(quizId: Option<string>) {
    quizId.None? || quizId.value == ""
  }

  /** `detachFromSession` as written: a connection whose bound quiz id is
      falsy is skipped, so one bound to "" is never detached. */
  function DetachAsWritten(sessions: map<string, seq<SocketId>>, binding: Binding, ws: SocketId)
    : (r: map<string, seq<SocketId>>)
    ensures Falsy(binding.quizId) ==> r == sessions
    ensures !Falsy(binding.quizId) ==> r == Detach(sessions, binding, ws)
  {
    if Falsy(binding.quizId) then sessions else Detach(sessions, binding, ws)
  }

  /** `detachFromSession`, skipping only a connection that never joined:
      the socket leaves its quiz's set and the set is deleted once empty. */
  function Detach(sessions: map<string, seq<SocketId>>, binding: Binding, ws: SocketId)
    : (r: map<string, seq<SocketId>>)
  {
    if binding.quizId.None? then sessions
    else
      var quizId := binding.quizId.value;
      if quizId !in sessions then sessions
      else
        var rest := Remove(sessions[quizId], ws);
        if |rest| == 0 then sessions - {quizId} else sessions[quizId := rest]
  }

  /** A connection that never joined detaches nothing; otherwise the socket
      is no longer in its quiz's set, an emptied set is gone, and no other
      session changes. */
  lemma DetachMeans(sessions: map<string, seq<SocketId>>, binding: Binding, ws: SocketId)
    ensures binding.quizId.None? ==> Detach(sessions, binding, ws) == sessions
    ensures binding.quizId.Some? ==>
              var q := binding.quizId.value;
              var r := Detach(sessions, binding, ws);
              && (q in r ==> ws !in r[q] && |r[q]| > 0)
              && (q in sessions && (forall x :: x in sessions[q] ==> x == ws) ==> q !in r)
              && (forall p :: p != q ==> (p in r <==> p in sessions))
              && (forall p :: p in sessions && p != q ==> r[p] == sessions[p])
    ensures RegistryOk(sessions) ==> RegistryOk(Detach(sessions, binding, ws))
  {
    if binding.quizId.Some? && binding.quizId.value in sessions {
      var q := binding.quizId.value;
      var rest := Remove(sessions[q], ws);
      RemoveMeans(sessions[q], ws);
      if |rest| > 0 {
        assert rest[0] in rest;
      }
    }
  }

  /** Attaching a socket and detaching it again leaves the registry as it
      was. */
  lemma AttachThenDetach(sessions: map<string, seq<SocketId>>, ws: SocketId, quizId: string, username: Option<string>)
    requires RegistryOk(sessions)
    requires quizId in sessions ==> ws !in sessions[quizId]
    ensures Detach(Attach(sessions, ws, quizId), Binding(Some(quizId), username), ws) == sessions
  {
    var before := if quizId in sessions then sessions[quizId] else [];
    var attached := Attach(sessions, ws, quizId);
    assert attached[quizId] == before + [ws];
    RemoveAppended(before, ws);
    if quizId in sessions {
      assert attached[quizId := before] == sessions;
    } else {
      assert attached - {quizId} == sessions;
    }
  }

  /** The same round trip through the close handler as written fails for
      the quiz id "": the socket stays in the "" session after its
      connection closed. */
  lemma EmptyQuizIdLeaksSocket(ws: SocketId, username: string)
    ensures var attached := Attach(map[], ws, "");
            var closed := DetachAsWritten(attached, Binding(Some(""), Some(username)), ws);
            "" in closed && ws in closed[""] && closed != map[]
  {
  }

  // ---------------------------------------------------------------------
  // Dispatch
  // ---------------------------------------------------------------------

  /** The messages the server sends. */
  datatype ServerMessage =
    | JoinedMessage(quizId: string, username: string)
    | LeaderboardUpdate(quizId: string, leaderboard: seq<LeaderboardRow>)
    | QuestionMessage(quizId: string, question: QuestionPayload)
    | QuizComplete(quizId: string)
    | ErrorMessage(code: string, message: string)

  /** One `send` on one socket. */
  datatype Outgoing = Outgoing(to: SocketId, message: ServerMessage)

  /** The process state the handlers share: the database, the sessions and
      each open connection's `ws.data`. */
  datatype State = State(store: Store, sessions: map<string, seq<SocketId>>, bindings: map<SocketId, Binding>)

  /** What a handler leaves behind and what it sent, in order. */
  datatype Step = Step(state: State, out: seq<Outgoing>)

  /** A fresh process: a new database seeded with the questions, no
      sessions and no connections. */
  function Start(): (r: State)
    ensures r.sessions == map[] && r.bindings == map[]
    ensures Seeded(r.store)
  {
    SeedEmptyTables(Empty);
    State(SeedQuestions(Empty), map[], map[])
  }

  /** `ws.data` of a socket; an upgraded connection starts with `{}`. */
  function BindingOf(st: State, ws: SocketId): Binding {
    if ws in st.bindings then st.bindings[ws] else Binding(None, None)
  }

  /** The upgrade: the connection's data is `{}`. */
  function Open(st: State, ws: SocketId): (r: State)
    ensures BindingOf(r, ws) == Binding(None, None)
    ensures r.store == st.store && r.sessions == st.sessions
  {
    st.(bindings := st.bindings[ws := Binding(None, None)])
  }

  /** `broadcastLeaderboard`: one send to every socket of the quiz's set, in
      set order; nothing when the quiz has no set. */
  function Broadcast(sessions: map<string, seq<SocketId>>, quizId: string, message: ServerMessage)
    : (r: seq<Outgoing>)
    ensures quizId !in sessions ==> r == []
    ensures quizId in sessions ==>
              |r| == |sessions[quizId]| &&
              forall i :: 0 <= i < |r| ==> r[i] == Outgoing(sessions[quizId][i], message)
  {
    if quizId !in sessions then []
    else
      var sockets := sessions[quizId];
      seq(|sockets|, i requires 0 <= i < |sockets| => Outgoing(sockets[i], message))
  }

  /** `sendQuestion` with the next question, or `sendQuizComplete`. */
  function NextMessage(quizId: string, question: Option<QuestionPayload>): ServerMessage {
    match question
    case Some(q) => QuestionMessage(quizId, q)
    case None => QuizComplete(quizId)
  }

  const InvalidMessage := ErrorMessage("invalid_message", "Unsupported message shape.")
  const QuizMismatch := ErrorMessage("quiz_mismatch", "Quiz ID does not match session.")
  const ParseError := ErrorMessage("parse_error", "Invalid JSON payload.")

  /** The join branch: bind the connection, attach the socket, run
      `handleJoin`, then send `joined`, the leaderboard to the session and
      the next question or the completion notice. */
  function JoinStep(st: State, ws: SocketId, quizId: string, username: string, now: int): Step {
    var sessions := Attach(st.sessions, ws, quizId);
    var joined := HandleJoin(st.store, quizId, username, now);
    Step(
      State(joined.store, sessions, st.bindings[ws := Binding(Some(quizId), Some(username))]),
      [Outgoing(ws, JoinedMessage(quizId, username))]
      + Broadcast(sessions, quizId, LeaderboardUpdate(quizId, joined.leaderboard))
      + [Outgoing(ws, NextMessage(quizId, joined.question))])
  }

  /** The answer branch: refuse a quiz id other than the (truthy) bound
      one; otherwise run `handleAnswer` with the message's own fields and
      send the leaderboard to the session, then the next question or the
      completion notice. */
  function AnswerStep(st: State, ws: SocketId, quizId: string, username: string,
                      questionId: string, optionId: string, now: int): Step {
    var bound := BindingOf(st, ws).quizId;
    if !Falsy(bound) && bound.value != quizId then Step(st, [Outgoing(ws, QuizMismatch)])
    else
      var answered := HandleAnswer(st.store, quizId, username, questionId, optionId, now);
      Step(
        st.(store := answered.store),
        Broadcast(st.sessions, quizId, LeaderboardUpdate(quizId, answered.leaderboard))
        + [Outgoing(ws, NextMessage(quizId, answered.question))])
  }

  /** `handleClientMessage`; none when it throws, which happens exactly
      when the parsed value is `null` (its `type` cannot be read). */
  function HandleClientMessage(st: State, ws: SocketId, message: Json, now: int): (r: Option<Step>)
    ensures r.None? <==> message.JNull?
  {
    if message.JNull? then None
    else match Classify(message)
      case Some(JoinMessage(quizId, username)) => Some(JoinStep(st, ws, quizId, username, now))
      case Some(AnswerMessage(quizId, username, questionId, optionId)) =>
        Some(AnswerStep(st, ws, quizId, username, questionId, optionId, now))
      case None => Some(Step(st, [Outgoing(ws, InvalidMessage)]))
  }

  /** The `message` handler: text that does not parse (none) and anything
      `handleClientMessage` throws become one `parse_error` to the sender,
      with nothing changed. */
  function OnMessage(st: State, ws: SocketId, parsed: Option<Json>, now: int): (r: Step)
    ensures parsed.None? || parsed.value.JNull? ==> r == Step(st, [Outgoing(ws, ParseError)])
  {
    match parsed
    case None => Step(st, [Outgoing(ws, ParseError)])
    case Some(message) =>
      match HandleClientMessage(st, ws, message, now)
      case None => Step(st, [Outgoing(ws, ParseError)])
      case Some(step) => step
  }

  /** The `close` handler, with the corrected detach (see
      `EmptyQuizIdLeaksSocket`); the connection's data is left as it was. */
  function OnClose(st: State, ws: SocketId): (r: State)
    ensures r.store == st.store && r.bindings == st.bindings
  {
    st.(sessions := Detach(st.sessions, BindingOf(st, ws), ws))
  }

  /** The `close` handler as written. */
  function OnCloseAsWritten(st: State, ws: SocketId): (r: State)
    ensures r.store == st.store && r.bindings == st.bindings
  {
    st.(sessions := DetachAsWritten(st.sessions, BindingOf(st, ws), ws))
  }

  // ---------------------------------------------------------------------
  // Properties of the handlers
  // ---------------------------------------------------------------------

  /** A valid join binds the connection and attaches the socket, then sends
      `joined` to the sender, the leaderboard `handleJoin` returned to every
      socket of the session (the sender included) in set order, and last
      the next question or the completion notice to the sender. */
  lemma JoinSends(st: State, ws: SocketId, m: Json, now: int)
    requires !m.JNull? && IsJoinMessage(m)
    ensures var quizId, username := StringAt(m, "quizId"), StringAt(m, "username");
            var joined := HandleJoin(st.store, quizId, username, now);
            var r := OnMessage(st, ws, Some(m), now);
            && BindingOf(r.state, ws) == Binding(Some(quizId), Some(username))
            && quizId in r.state.sessions && ws in r.state.sessions[quizId]
            && r.state.store == joined.store
            && |r.out| == |r.state.sessions[quizId]| + 2
            && r.out[0] == Outgoing(ws, JoinedMessage(quizId, username))
            && (forall i :: 1 <= i < |r.out| - 1 ==>
                  r.out[i] == Outgoing(r.state.sessions[quizId][i - 1], LeaderboardUpdate(quizId, joined.leaderboard)))
            && r.out[|r.out| - 1] == Outgoing(ws, NextMessage(quizId, joined.question))
  {
    var quizId, username := StringAt(m, "quizId"), StringAt(m, "username");
    var r := JoinStep(st, ws, quizId, username, now);
    assert OnMessage(st, ws, Some(m), now) == r;
    var sessions := Attach(st.sessions, ws, quizId);
    var joined := HandleJoin(st.store, quizId, username, now);
    var b := Broadcast(sessions, quizId, LeaderboardUpdate(quizId, joined.leaderboard));
    assert r.out == [Outgoing(ws, JoinedMessage(quizId, username))] + b + [Outgoing(ws, NextMessage(quizId, joined.question))];
    forall i | 1 <= i < |r.out| - 1
      ensures r.out[i] == Outgoing(r.state.sessions[quizId][i - 1], LeaderboardUpdate(quizId, joined.leaderboard))
    {
      assert r.out[i] == b[i - 1];
    }
  }

  /** An answer on a connection bound to another quiz is refused with one
      `quiz_mismatch` error, and the service is not called: nothing
      changes. */
  lemma AnswerOtherQuizRefused(st: State, ws: SocketId, m: Json, now: int)
    requires !m.JNull? && IsAnswerMessage(m)
    requires !Falsy(BindingOf(st, ws).quizId) && BindingOf(st, ws).quizId.value != StringAt(m, "quizId")
    ensures OnMessage(st, ws, Some(m), now) == Step(st, [Outgoing(ws, QuizMismatch)])
  {
  }

  /** An answer on a connection that never joined (or is bound to the same
      quiz) goes to `handleAnswer` with the message's own user name; the
      session's sockets get the new leaderboard, then the sender gets the
      next question or the completion notice.  A quiz without sockets gets
      no leaderboard update. */
  lemma AnswerAccepted(st: State, ws: SocketId, m: Json, now: int)
    requires !m.JNull? && IsAnswerMessage(m)
    requires Falsy(BindingOf(st, ws).quizId) || BindingOf(st, ws).quizId.value == StringAt(m, "quizId")
    ensures var quizId := StringAt(m, "quizId");
            var answered := HandleAnswer(st.store, quizId, StringAt(m, "username"),
                                         StringAt(m, "questionId"), StringAt(m, "optionId"), now);
            var r := OnMessage(st, ws, Some(m), now);
            && r.state == st.(store := answered.store)
            && r.out == Broadcast(st.sessions, quizId, LeaderboardUpdate(quizId, answered.leaderboard))
                        + [Outgoing(ws, NextMessage(quizId, answered.question))]
            && (quizId !in st.sessions ==> r.out == [Outgoing(ws, NextMessage(quizId, answered.question))])
  {
    assert !IsJoinMessage(m);
  }

  /** Any other value (not null) gets one `invalid_message` error and
      changes nothing. */
  lemma OtherShapeRejected(st: State, ws: SocketId, m: Json, now: int)
    requires !m.JNull? && !IsJoinMessage(m) && !IsAnswerMessage(m)
    ensures OnMessage(st, ws, Some(m), now) == Step(st, [Outgoing(ws, InvalidMessage)])
  {
  }

  /** Joining a second quiz rebinds the connection and adds the socket to
      the new session, but leaves it in the first one. */
  lemma RejoinKeepsOldSession(st: State, ws: SocketId, first: Json, second: Json, now: int, later: int)
    requires !first.JNull? && IsJoinMessage(first)
    requires !second.JNull? && IsJoinMessage(second)
    requires StringAt(first, "quizId") != StringAt(second, "quizId")
    ensures var once := OnMessage(st, ws, Some(first), now).state;
            var twice := OnMessage(once, ws, Some(second), later).state;
            && BindingOf(twice, ws).quizId == Some(StringAt(second, "quizId"))
            && StringAt(first, "quizId") in twice.sessions && ws in twice.sessions[StringAt(first, "quizId")]
            && StringAt(second, "quizId") in twice.sessions && ws in twice.sessions[StringAt(second, "quizId")]
  {
    var q1, u1 := StringAt(first, "quizId"), StringAt(first, "username");
    var q2, u2 := StringAt(second, "quizId"), StringAt(second, "username");
    var once := JoinStep(st, ws, q1, u1, now).state;
    assert OnMessage(st, ws, Some(first), now).state == once;
    assert OnMessage(once, ws, Some(second), later).state == JoinStep(once, ws, q2, u2, later).state;
  }

  /** Every message and every close keeps the registry free of empty sets
      and duplicate sockets. */
  lemma HandlersKeepRegistry(st: State, ws: SocketId, parsed: Option<Json>, now: int)
    requires RegistryOk(st.sessions)
    ensures RegistryOk(OnMessage(st, ws, parsed, now).state.sessions)
    ensures RegistryOk(OnClose(st, ws).sessions)
  {
    DetachMeans(st.sessions, BindingOf(st, ws), ws);
    if parsed.Some? && !parsed.value.JNull? {
      var m := parsed.value;
      match Classify(m)
      case Some(JoinMessage(quizId, username)) =>
        assert OnMessage(st, ws, parsed, now).state.sessions == Attach(st.sessions, ws, quizId);
      case Some(AnswerMessage(quizId, username, questionId, optionId)) =>
        assert OnMessage(st, ws, parsed, now).state.sessions == st.sessions;
      case None =>
    }
  }

  /** A socket that joined and then closed is in no session of the quiz it
      joined, and the other sessions are as before. */
  lemma JoinThenCloseLeavesSession(st: State, ws: SocketId, m: Json, now: int)
    requires RegistryOk(st.sessions)
    requires !m.JNull? && IsJoinMessage(m)
    ensures var quizId := StringAt(m, "quizId");
            var closed := OnClose(OnMessage(st, ws, Some(m), now).state, ws);
            && (quizId in closed.sessions ==> ws !in closed.sessions[quizId])
            && (forall q :: q in st.sessions && q != quizId ==> q in closed.sessions && closed.sessions[q] == st.sessions[q])
  {
    var quizId, username := StringAt(m, "quizId"), StringAt(m, "username");
    var joined := JoinStep(st, ws, quizId, username, now).state;
    assert OnMessage(st, ws, Some(m), now).state == joined;
    assert BindingOf(joined, ws) == Binding(Some(quizId), Some(username));
    DetachMeans(joined.sessions, Binding(Some(quizId), Some(username)), ws);
  }

  /** The same round trip through the close handler as written: a socket
      that joined a non-empty quiz id and then closed is in no session of
      that quiz, and the other sessions are as before.  For the quiz id ""
      this fails (`EmptyQuizIdLeaksSocket`). */
  lemma JoinThenCloseAsWrittenLeavesSession(st: State, ws: SocketId, m: Json, now: int)
    requires RegistryOk(st.sessions)
    requires !m.JNull? && IsJoinMessage(m) && StringAt(m, "quizId") != ""
    ensures var quizId := StringAt(m, "quizId");
            var closed := OnCloseAsWritten(OnMessage(st, ws, Some(m), now).state, ws);
            && (quizId in closed.sessions ==> ws !in closed.sessions[quizId])
            && (forall q :: q in st.sessions && q != quizId ==> q in closed.sessions && closed.sessions[q] == st.sessions[q])
  {
    var quizId, username := StringAt(m, "quizId"), StringAt(m, "username");
    var joined := JoinStep(st, ws, quizId, username, now).state;
    assert OnMessage(st, ws, Some(m), now).state == joined;
    assert BindingOf(joined, ws) == Binding(Some(quizId), Some(username));
    DetachMeans(joined.sessions, Binding(Some(quizId), Some(username)), ws);
  }
}
