/** The connection-based workload driver (server/bench/ws_stress.ts): one
    client record per WebSocket with at most one outstanding request, the
    socket handlers that resolve it, and the choice of a client for each
    operation.  Every handler is a pure transition on the client record;
    the clock is a parameter and the socket itself is left out. */
module WsClient {
  import opened Wrappers
  import StageRunner

  datatype PendingKind = JoinRequest | AnswerRequest

  /** How a `sendAndWait` call finished. */
  datatype Completion = Question | QuizComplete | Error | Timeout | Close

  datatype SendResult = SendResult(ok: bool, latencyMs: real, completion: Completion)

  /** The outstanding request.  `request` numbers the accepted sends on
      this client; the source has no request id on the wire, so replies are
      matched to whatever is pending. */
  datatype Pending = Pending(request: nat, kind: PendingKind, startedAt: real)

  /** `StressClient`, plus the settled value of every accepted request
      (`resolved`) and the number of accepted requests (`issued`). */
  datatype Client = Client(
    id: nat,
    username: string,
    open: bool,
    closed: bool,
    currentQuestionId: Option<string>,
    pending: Option<Pending>,
    issued: nat,
    resolved: map<nat, SendResult>)

  /** A server message as the client sees it after `JSON.parse`. */
  datatype ServerReply =
    | Unparseable
    | QuestionReply(questionId: string)
    | QuizCompleteReply
    | ErrorReply
    | JoinedReply
    | LeaderboardReply
    | OtherReply(kind: string)

  /** What a handler did to the caller of `sendAndWait`: nothing, an
      immediate refusal that never became a request, or the settlement of
      request `request`. */
  datatype Effect = Nothing | Refused(result: SendResult) | Settled(request: nat, result: SendResult)

  datatype Step = Step(client: Client, effect: Effect)

  /** The state every client keeps: the pending request is the latest one
      and unsettled, every earlier request is settled, a closed client has
      nothing pending. */
  ghost predicate Valid(c: Client) {
    && (c.pending.Some? ==> c.pending.value.request + 1 == c.issued && c.pending.value.request !in c.resolved)
    && (forall r :: r in c.resolved ==> r < c.issued)
    && (forall r :: 0 <= r < c.issued ==> r in c.resolved || (c.pending.Some? && c.pending.value.request == r))
    && (c.closed ==> c.pending.None?)
  }

  /** `d` keeps every settlement `c` had: a settled request never changes. */
  ghost predicate Extends(c: Client, d: Client) {
    && d.issued >= c.issued
    && forall r :: r in c.resolved ==> r in d.resolved && d.resolved[r] == c.resolved[r]
  }

  /** The record `createClient` builds before the socket opens. */
  function NewClient(id: nat, username: string): (c: Client)
    ensures Valid(c) && !c.open && !c.closed && c.pending.None? && c.currentQuestionId.None?
  {
    Client(id, username, false, false, None, None, 0, map[])
  }

  /** `socket.onopen`. */
  function OnOpen(c: Client): (d: Client)
    requires Valid(c)
    ensures Valid(d) && Extends(c, d) && d.open
    ensures d == c.(open := true)
  {
    c.(open := true)
  }

  /** Ready for a request: open, not closed, nothing pending. */
  predicate Available(c: Client) {
    c.open && !c.closed && c.pending.None?
  }

  const RefusedResult := SendResult(false, 0.0, Close)

  /** `sendAndWait` up to the successful `socket.send`: refused at once,
      leaving the record untouched, unless the client is available;
      otherwise this request becomes the pending one. */
  function SendAndWait(c: Client, kind: PendingKind, startedAt: real): (s: Step)
    requires Valid(c)
    ensures Valid(s.client) && Extends(c, s.client)
    ensures !Available(c) ==> s == Step(c, Refused(RefusedResult))
    ensures Available(c) ==>
              && s.client == c.(pending := Some(Pending(c.issued, kind, startedAt)), issued := c.issued + 1)
              && s.effect == Nothing
  {
    if !Available(c) then Step(c, Refused(RefusedResult))
    else Step(c.(pending := Some(Pending(c.issued, kind, startedAt)), issued := c.issued + 1), Nothing)
  }

  /** `sendAndWait` when `socket.send` throws: the request is installed and
      at once cleared again, and settles as a "close" failure. */
  function SendAndWaitThrows(c: Client, kind: PendingKind, startedAt: real, nowMs: real): (s: Step)
    requires Valid(c)
    ensures Valid(s.client) && Extends(c, s.client)
    ensures !Available(c) ==> s == Step(c, Refused(RefusedResult))
    ensures Available(c) ==>
              && s.client.pending.None?
              && s.effect == Settled(c.issued, SendResult(false, nowMs - startedAt, Close))
              && s.client.resolved == c.resolved[c.issued := s.effect.result]
  {
    if !Available(c) then Step(c, Refused(RefusedResult))
    else
      var result := SendResult(false, nowMs - startedAt, Close);
      Step(c.(issued := c.issued + 1, resolved := c.resolved[c.issued := result]),
           Settled(c.issued, result))
  }

  /** Clear the pending request and settle it with `result`. */
  function SettlePending(c: Client, result: SendResult): (s: Step)
    requires Valid(c) && c.pending.Some?
    ensures Valid(s.client) && Extends(c, s.client)
    ensures s.client.pending.None? && s.client.issued == c.issued
    ensures s.effect == Settled(c.pending.value.request, result)
    ensures s.client.resolved == c.resolved[c.pending.value.request := result]
  {
    var request := c.pending.value.request;
    Step(c.(pending := None, resolved := c.resolved[request := result]), Settled(request, result))
  }

  /** The response timer of request `request` fires: it settles that
      request as a timeout only if it is still the pending one. */
  function OnTimeout(c: Client, request: nat, nowMs: real): (s: Step)
    requires Valid(c)
    ensures Valid(s.client) && Extends(c, s.client)
    ensures (c.pending.Some? && c.pending.value.request == request) ==>
              && s.client == c.(pending := None, resolved := s.client.resolved)
              && s.effect == Settled(request, SendResult(false, nowMs - c.pending.value.startedAt, Timeout))
    ensures !(c.pending.Some? && c.pending.value.request == request) ==> s == Step(c, Nothing)
  {
    if c.pending.Some? && c.pending.value.request == request then
      SettlePending(c, SendResult(false, nowMs - c.pending.value.startedAt, Timeout))
    else Step(c, Nothing)
  }

  /** Only these three reply types resolve a pending request. */
  predicate Resolves(reply: ServerReply) {
    reply.QuestionReply? || reply.QuizCompleteReply? || reply.ErrorReply?
  }

  function CompletionOf(reply: ServerReply): Completion
    requires Resolves(reply)
  {
    match reply
    case QuestionReply(_) => Question
    case QuizCompleteReply => QuizComplete
    case ErrorReply => Error
  }

  /** `socket.onmessage`: unparseable text is dropped; `question` records
      its question id and `quiz_complete` forgets it whether or not anything
      is pending; then `question`, `quiz_complete` and `error` settle the
      pending request, if any, successful unless it is `error`. */
  function OnMessage(c: Client, reply: ServerReply, nowMs: real): (s: Step)
    requires Valid(c)
    ensures Valid(s.client) && Extends(c, s.client)
    ensures reply.Unparseable? ==> s == Step(c, Nothing)
    ensures reply.QuestionReply? ==> s.client.currentQuestionId == Some(reply.questionId)
    ensures reply.QuizCompleteReply? ==> s.client.currentQuestionId.None?
    ensures !(reply.QuestionReply? || reply.QuizCompleteReply?) ==> s.client.currentQuestionId == c.currentQuestionId
    ensures !Resolves(reply) || c.pending.None? ==> s.effect == Nothing && s.client.pending == c.pending && s.client.resolved == c.resolved
    ensures Resolves(reply) && c.pending.Some? ==>
              && s.client.pending.None?
              && s.effect == Settled(c.pending.value.request,
                                     SendResult(!reply.ErrorReply?, nowMs - c.pending.value.startedAt, CompletionOf(reply)))
    ensures s.client.open == c.open && s.client.closed == c.closed && s.client.issued == c.issued
  {
    if reply.Unparseable? then Step(c, Nothing)
    else
      var c1 := match reply
        case QuestionReply(questionId) => c.(currentQuestionId := Some(questionId))
        case QuizCompleteReply => c.(currentQuestionId := None)
        case _ => c;
      if !Resolves(reply) || c1.pending.None? then Step(c1, Nothing)
      else SettlePending(c1, SendResult(!reply.ErrorReply?, nowMs - c1.pending.value.startedAt, CompletionOf(reply)))
  }

  /** `socket.onclose` (the handler `createClient` installs): the client is
      marked closed and a pending request settles as a "close" failure. */
  function OnClose(c: Client, nowMs: real): (s: Step)
    requires Valid(c)
    ensures Valid(s.client) && Extends(c, s.client)
    ensures !s.client.open && s.client.closed && s.client.pending.None?
    ensures c.pending.None? ==> s.effect == Nothing && s.client.resolved == c.resolved
    ensures c.pending.Some? ==>
              s.effect == Settled(c.pending.value.request, SendResult(false, nowMs - c.pending.value.startedAt, Close))
  {
    if c.pending.None? then Step(c.(open := false, closed := true), Nothing)
    else
      var s := SettlePending(c, SendResult(false, nowMs - c.pending.value.startedAt, Close));
      Step(s.client.(open := false, closed := true), s.effect)
  }

  datatype Event =
    | Opened
    | Send(kind: PendingKind, atMs: real)
    | SendThrows(kind: PendingKind, atMs: real, failMs: real)
    | Reply(reply: ServerReply, atMs: real)
    | TimerFires(request: nat, atMs: real)
    | SocketClosed(atMs: real)

  /** Any event on one client: the settlement it reports, if any, is of a
      request that was not settled before and is now recorded as such. */
  function Apply(c: Client, e: Event): (s: Step)
    requires Valid(c)
    ensures Valid(s.client) && Extends(c, s.client)
    ensures s.effect.Settled? ==>
              && s.effect.request !in c.resolved
              && s.effect.request in s.client.resolved
              && s.client.resolved[s.effect.request] == s.effect.result
    ensures s.effect.Settled? ==> s.client.pending.None?
    ensures s.client.resolved.Keys <= c.resolved.Keys + (if s.effect.Settled? then {s.effect.request} else {})
  {
    match e
    case Opened => Step(OnOpen(c), Nothing)
    case Send(kind, atMs) => SendAndWait(c, kind, atMs)
    case SendThrows(kind, atMs, failMs) => SendAndWaitThrows(c, kind, atMs, failMs)
    case Reply(reply, atMs) => OnMessage(c, reply, atMs)
    case TimerFires(request, atMs) => OnTimeout(c, request, atMs)
    case SocketClosed(atMs) => OnClose(c, atMs)
  }

  /** The effects of a sequence of events on one client. */
  function Effects(c: Client, events: seq<Event>): (r: seq<Effect>)
    requires Valid(c)
    ensures |r| == |events|
    decreases |events|
  {
    if |events| == 0 then []
    else
      var s := Apply(c, events[0]);
      [s.effect] + Effects(s.client, events[1..])
  }

  function Final(c: Client, events: seq<Event>): (d: Client)
    requires Valid(c)
    ensures Valid(d) && Extends(c, d)
    decreases |events|
  {
    if |events| == 0 then c else Final(Apply(c, events[0]).client, events[1..])
  }

  /** No request is settled twice in `effs`. */
  ghost predicate DistinctSettlements(effs: seq<Effect>) {
    forall i, j :: (0 <= i < j < |effs| && effs[i].Settled? && effs[j].Settled?) ==>
                     effs[i].request != effs[j].request
  }

  /** Every settlement in `effs` is of a request `before` had not settled
      and is recorded in `after` with the value reported. */
  ghost predicate SettlementsRecorded(effs: seq<Effect>, before: Client, after: Client) {
    forall i :: 0 <= i < |effs| && effs[i].Settled? ==>
                  && effs[i].request !in before.resolved
                  && effs[i].request in after.resolved
                  && after.resolved[effs[i].request] == effs[i].result
  }

  /** Exactly-once settlement: along any sequence of events, every request
      is settled at most once, never one that was settled before, and each
      settlement stays recorded with the value reported. */
  lemma {:induction false} SettledAtMostOnce(c: Client, events: seq<Event>)
    requires Valid(c)
    ensures DistinctSettlements(Effects(c, events))
    ensures SettlementsRecorded(Effects(c, events), c, Final(c, events))
    decreases |events|
  {
    if |events| > 0 {
      var s := Apply(c, events[0]);
      var rest := events[1..];
      SettledAtMostOnce(s.client, rest);
      var effs := Effects(c, events);
      var tail := Effects(s.client, rest);
      var last := Final(s.client, rest);
      assert effs == [s.effect] + tail;
      assert Final(c, events) == last;
      assert SettlementsRecorded(tail, s.client, last);
      forall i | 0 <= i < |effs| && effs[i].Settled?
        ensures effs[i].request !in c.resolved && effs[i].request in last.resolved
        ensures last.resolved[effs[i].request] == effs[i].result
      {
        if i > 0 {
          assert effs[i] == tail[i - 1];
        } else {
          assert effs[0] == s.effect && s.effect.request in s.client.resolved;
        }
      }
      forall i, j | 0 <= i < j < |effs| && effs[i].Settled? && effs[j].Settled?
        ensures effs[i].request != effs[j].request
      {
        assert effs[j] == tail[j - 1];
        if i > 0 {
          assert effs[i] == tail[i - 1];
        } else {
          assert effs[0] == s.effect && s.effect.request in s.client.resolved;
        }
      }
    }
  }

  /** There is no request id: a reply that arrives after its request timed
      out settles the NEXT request sent on that client. */
  lemma LateReplySettlesNextRequest(c: Client)
    requires Valid(c) && Available(c)
    ensures var n := c.issued;
            Effects(c, [Send(JoinRequest, 0.0), TimerFires(n, 3000.0),
                        Send(AnswerRequest, 3001.0), Reply(QuestionReply("q2"), 3002.0)])
            == [Nothing, Settled(n, SendResult(false, 3000.0, Timeout)),
                Nothing, Settled(n + 1, SendResult(true, 1.0, Question))]
  {
    var n := c.issued;
    var e1, e2, e3, e4 := Send(JoinRequest, 0.0), TimerFires(n, 3000.0),
                          Send(AnswerRequest, 3001.0), Reply(QuestionReply("q2"), 3002.0);
    var s1 := Apply(c, e1);
    var s2 := Apply(s1.client, e2);
    var s3 := Apply(s2.client, e3);
    var s4 := Apply(s3.client, e4);
    LateReplyFirstHalf(c);
    LateReplySecondHalf(s2.client, n);
    EffectsStep(s3.client, [e4]);
    EffectsStep(s2.client, [e3, e4]);
    assert [e3, e4][1..] == [e4];
    EffectsStep(s1.client, [e2, e3, e4]);
    assert [e2, e3, e4][1..] == [e3, e4];
    EffectsStep(c, [e1, e2, e3, e4]);
    assert [e1, e2, e3, e4][1..] == [e2, e3, e4];
  }

  /** The join goes out, then times out after 3000 ms. */
  lemma LateReplyFirstHalf(c: Client)
    requires Valid(c) && Available(c)
    ensures var s1 := Apply(c, Send(JoinRequest, 0.0));
            var s2 := Apply(s1.client, TimerFires(c.issued, 3000.0));
            && s1.effect == Nothing
            && s2.effect == Settled(c.issued, SendResult(false, 3000.0, Timeout))
            && Available(s2.client) && s2.client.issued == c.issued + 1
  {
  }

  /** The answer goes out, and the join's late question reply settles it. */
  lemma LateReplySecondHalf(c: Client, n: nat)
    requires Valid(c) && Available(c) && c.issued == n + 1
    ensures var s3 := Apply(c, Send(AnswerRequest, 3001.0));
            var s4 := Apply(s3.client, Reply(QuestionReply("q2"), 3002.0));
            && s3.effect == Nothing
            && s4.effect == Settled(n + 1, SendResult(true, 1.0, Question))
  {
  }

  lemma EffectsStep(c: Client, events: seq<Event>)
    requires Valid(c) && |events| > 0
    ensures Effects(c, events) == [Apply(c, events[0]).effect] + Effects(Apply(c, events[0]).client, events[1..])
  {
  }

  // ---------------------------------------------------------------------
  // Choosing a client for an operation
  // ---------------------------------------------------------------------

  /** Random probes `pickAvailableClient` makes before giving up. */
  const PickTries: nat := 40

  function Min(a: nat, b: nat): nat { if a < b then a else b }

  function PickFrom(pool: seq<Client>, draws: seq<nat>, tries: nat): (r: Option<nat>)
    ensures r.Some? ==> r.value < |pool| && Available(pool[r.value])
    ensures r.Some? ==> exists t :: tries <= t < Min(PickTries, |draws|) && draws[t] == r.value
    ensures r.None? ==> forall t :: tries <= t < Min(PickTries, |draws|) ==>
                          draws[t] >= |pool| || !Available(pool[draws[t]])
    decreases PickTries - tries
  {
    if tries >= PickTries || tries >= |draws| then None
    else if draws[tries] < |pool| && Available(pool[draws[tries]]) then Some(draws[tries])
    else PickFrom(pool, draws, tries + 1)
  }

  /** `pickAvailableClient` with the random indices as `draws` (an index
      beyond the pool finds no candidate, as `clients[i]` is undefined):
      `None` on an empty pool or when no probe finds an available client. */
  function PickAvailableClient(pool: seq<Client>, draws: seq<nat>): (r: Option<nat>)
    ensures |pool| == 0 ==> r.None?
    ensures r.Some? ==> r.value < |pool| && Available(pool[r.value])
    ensures r.Some? ==> exists t :: 0 <= t < Min(PickTries, |draws|) && draws[t] == r.value
    ensures |pool| > 0 && r.None? ==> forall t :: 0 <= t < Min(PickTries, |draws|) ==>
                          draws[t] >= |pool| || !Available(pool[draws[t]])
  {
    if |pool| == 0 then None else PickFrom(pool, draws, 0)
  }

  /** The operation result as the stage runner sees it. */
  function AsOutcome(r: SendResult): StageRunner.OperationOutcome {
    StageRunner.ResultOutcome(r.ok, Some(r.latencyMs))
  }

  /** `runJoin` with no client to reuse returns `{ok: false, latencyMs: 0}`. */
  const NoClientOutcome := StageRunner.ResultOutcome(false, Some(0.0))

  datatype JoinRoute = OpenNewClient | ReuseClient(index: nat) | NoClientAvailable

  /** `runJoin`: below the client cap a new connection is opened; at or
      above it an available client is reused, if one is found. */
  function RouteJoin(pool: seq<Client>, maxClients: int, draws: seq<nat>): (r: JoinRoute)
    ensures r.OpenNewClient? <==> |pool| < maxClients
    ensures r.ReuseClient? ==> r.index < |pool| && Available(pool[r.index])
    ensures r.NoClientAvailable? <==> |pool| >= maxClients && PickAvailableClient(pool, draws).None?
  {
    if |pool| < maxClients then OpenNewClient
    else
      match PickAvailableClient(pool, draws)
      case None => NoClientAvailable
      case Some(i) => ReuseClient(i)
  }

  /** After a join on a new connection, the client joins the pool only if
      the join succeeded (a failed one is closed and dropped). */
  function AdmitNewClient(pool: seq<Client>, client: Client, result: SendResult): (r: seq<Client>)
    ensures |r| >= |pool| && r[..|pool|] == pool
    ensures result.ok ==> r == pool + [client]
    ensures !result.ok ==> r == pool
  {
    if result.ok then pool + [client] else pool
  }

  datatype AnswerRoute = FallBackToJoin | AnswerOn(index: nat, questionId: string)

  /** `runAnswer`: answer on an available client that knows its current
      question (a non-empty id, as JavaScript treats "" as absent);
      otherwise fall back to `runJoin`. */
  function RouteAnswer(pool: seq<Client>, draws: seq<nat>): (r: AnswerRoute)
    ensures r.AnswerOn? ==>
              && r.index < |pool| && Available(pool[r.index])
              && pool[r.index].currentQuestionId == Some(r.questionId) && r.questionId != ""
    ensures r.FallBackToJoin? <==>
              match PickAvailableClient(pool, draws)
              case None => true
              case Some(i) => pool[i].currentQuestionId.None? || pool[i].currentQuestionId == Some("")
  {
    match PickAvailableClient(pool, draws)
    case None => FallBackToJoin
    case Some(i) =>
      match pool[i].currentQuestionId
      case None => FallBackToJoin
      case Some(q) => if q == "" then FallBackToJoin else AnswerOn(i, q)
  }

  /** The cap check happens before the connection is awaited, so two joins
      that both see one free slot both open a connection and the pool ends
      one past the cap. */
  lemma ConcurrentJoinsCanOvershootCap(pool: seq<Client>, maxClients: int, d1: seq<nat>, d2: seq<nat>,
                                       c1: Client, c2: Client, r1: SendResult, r2: SendResult)
    requires |pool| + 1 == maxClients && r1.ok && r2.ok
    ensures RouteJoin(pool, maxClients, d1).OpenNewClient? && RouteJoin(pool, maxClients, d2).OpenNewClient?
    ensures |AdmitNewClient(AdmitNewClient(pool, c1, r1), c2, r2)| == maxClients + 1
  {
  }
}
