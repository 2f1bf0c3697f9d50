/** The failover walk over one group, as a record of its attempts, and what its result means (src/upstream.rs). */
module Walks {
  import opened Outcomes
  import opened Names
  import opened Types
  import opened Messages
  import opened Records
  import opened SentQueries
  import opened Transport
  import opened Exchanges
  import opened Acceptance
  import opened Attempts

  /**
   * One server of the group: when its turn began and when the attempt ended, its budget, the first ID, the
   * exchanges, and the outcome.
   */
  datatype Attempt = Attempt(
    server: Endpoint, start: Moment, end: Moment, deadline: Deadline, id: TransactionId, tries: seq<Try>,
    outcome: Result<Packet, ForwardError>)
  {
    function Sends(): seq<Transmission> {
      TrySends(tries)
    }
  }

  /**
   * What every attempt is: within two seconds of the request's time, after a check that found time left and an
   * ID that could be read, the client's own query goes out on the client's own transport, and the exchanges
   * follow the cookie protocol to the outcome.
   */
  ghost predicate GoodAttempt(query: Packet, transport: Protocol, deadline: Deadline, a: Attempt)
    requires |query.wire| >= HEADER_LENGTH
  {
    && Follows(Sent(query, a.id), transport, a.server, a.deadline, a.tries, a.end, a.outcome)
    && Before(a.start, a.end) && OnlyChecked(a.start, a.tries[0].begin) && a.tries[0].begin.checks == a.start.checks + 1
    && a.deadline.at <= deadline.at
    && (a.deadline == deadline
        || a.start.now + 2000 <= a.deadline.at <= a.tries[0].begin.now + 2000)
  }

  ghost predicate GoodAttempts(query: Packet, transport: Protocol, deadline: Deadline, attempts: seq<Attempt>)
    requires |query.wire| >= HEADER_LENGTH
  {
    forall a :: a in attempts ==> GoodAttempt(query, transport, deadline, a)
  }

  /**
   * What an attempt means: bounded work, the client's query first, an answer to that query validated against the
   * last message sent, and a failure only without any answer in time but such that ask for a retry.
   */
  lemma AttemptMeaning(query: Packet, transport: Protocol, deadline: Deadline, a: Attempt)
    requires Faithful(query) && |query.wire| >= HEADER_LENGTH
    requires GoodAttempt(query, transport, deadline, a)
    ensures ServerWork(a.Sends(), a.server, transport)
    ensures a.Sends() != [] ==> a.Sends()[0] == Transmission(a.server, transport, query.WithId(a.id))
    ensures a.tries != []
    ensures a.outcome.Ok? ==>
              var last := a.tries[|a.tries| - 1];
              && last.outcome == a.outcome && last.end == a.end
              && AnswersQuery(query, last.sent, a.outcome.value) && EndsWith(a.Sends(), last.sent.packet.wire)
    ensures a.outcome.Err? ==>
              forall t :: t in a.tries && t.outcome.Ok? ==> t.outcome.value.ResponseCode() == BadCookie
    ensures forall t :: t in a.tries && t.outcome.Err? ==> Missed(t.begin, t.end, a.deadline, t.sent)
    ensures a.outcome == Err(ShutdownRequested) ==> a.end.stop
  {
    hide Follows, Faithful, ServerWork, AnswersQuery, AnswersOctets, EndsWith, Packet.ResponseCode, TrySends, Before,
      Missed;
    var first := Sent(query, a.id);
    AttemptIsServerWork(first, transport, a.server, a.deadline, a.tries, a.end, a.outcome);
    OutcomeIsLast(first, transport, a.server, a.deadline, a.tries, a.end, a.outcome);
    NoAnswerIsDropped(first, transport, a.server, a.deadline, a.tries, a.end, a.outcome);
    StoppedAttempt(first, transport, a.server, a.deadline, a.tries, a.end, a.outcome);
    if a.outcome.Ok? {
      AttemptAnswers(query, a.id, transport, a.server, a.deadline, a.tries, a.end, a.outcome);
    }
  }

  /** Why a walk stopped before its group was exhausted and before a final response. */
  datatype Abort =
    | Stopped
    | RequestExpired
    | AttemptStalled
    | IdUnavailable(io: IoError)
  {
    /** The next attempt could not begin. */
    predicate Unstarted() {
      AttemptStalled? || IdUnavailable?
    }
  }

  /** A whole walk, from its first moment to its last. */
  datatype Walk = Walk(
    begin: Moment, attempts: seq<Attempt>, end: Moment, abort: Option<Abort>, result: Result<Packet, ForwardError>)

  /** What cuts a walk short at `end`, when nothing else was attempted since `from`. */
  ghost predicate Cut(a: Abort, e: ForwardError, from: Moment, end: Moment, deadline: Deadline) {
    match a
    case Stopped => e == ShutdownRequested && end.stop
    case RequestExpired => e == ExchangeTimeout && end.now >= deadline.at
    case AttemptStalled =>
      e == ExchangeTimeout && end.now >= from.now + 2000 && end.lapses > from.lapses
    case IdUnavailable(io) => e == FromIo(io) && io != Cancelled && end.idFailures == from.idFailures + [io]
  }

  /** The end of the last attempt, or the beginning of the walk. */
  function LastEnd(begin: Moment, attempts: seq<Attempt>): Moment {
    if attempts == [] then begin else attempts[|attempts| - 1].end
  }

  /** Attempts follow one another in time, and nothing happens between them but one check at most. */
  ghost predicate Chronological(begin: Moment, attempts: seq<Attempt>) {
    && (attempts != [] ==> OnlyChecked(begin, attempts[0].start) && Prompt(begin, attempts[0].start, 0))
    && (forall i :: 0 <= i < |attempts| ==> Before(attempts[i].start, attempts[i].end))
    && (forall i, j :: 0 <= i < j < |attempts| && j == i + 1 ==>
          OnlyChecked(attempts[i].end, attempts[j].start) && Prompt(attempts[i].end, attempts[j].start, 1))
  }

  /**
   * What every walk is: good attempts through the group, in order and one after the other. If it was not cut
   * short, its result is that of the plain walk over the outcomes. It is cut short only by a stop or by the
   * expiry of the request itself, or, while servers remain and nothing final arrived, because the next attempt
   * could not begin: its own budget ran out after the end of the last one, or its ID could not be read.
   */
  ghost predicate GoodWalk(
    query: Packet, servers: seq<Endpoint>, transport: Protocol, deadline: Deadline, w: Walk)
  {
    && |query.wire| >= HEADER_LENGTH
    && WalksInOrder(servers, w.attempts)
    && GoodAttempts(query, transport, deadline, w.attempts)
    && Chronological(w.begin, w.attempts) && NothingMoved(LastEnd(w.begin, w.attempts), w.end)
    && Prompt(LastEnd(w.begin, w.attempts), w.end, 2)
    && match w.abort
       case None => WalkResult(servers, w.attempts, w.result) && !w.end.stop && w.end.now < deadline.at
       case Some(a) =>
         && w.result.Err?
         && Cut(a, w.result.error, LastEnd(w.begin, w.attempts), w.end, deadline)
         && (a.Unstarted() ==>
               |w.attempts| < |servers| && forall x :: x in w.attempts ==> !Final(x))
  }

  /** Responses other than SERVFAIL, which is 2, and REFUSED, which is 5, end the walk. */
  predicate Final(a: Attempt) {
    a.outcome.Ok? && a.outcome.value.CombinedCode() !in {2, 5}
  }

  lemma FinalCodes(a: Attempt)
    requires a.outcome.Ok?
    ensures var code := a.outcome.value.ResponseCode();
            Final(a) <==> code == BadCookie || !RetriesInGroup(code)
  {
    hide Packet.CombinedCode;
    CodeNumbers(a.outcome.value.CombinedCode());
  }

  /**
   * The rule of the walk, in numbers: another server is asked only after a failure, SERVFAIL or REFUSED; any other
   * response is the result unless the request expired or was stopped; and servers are left out only after such a
   * response, or for want of time, a stop, or a next attempt that could not begin.
   */
  ghost predicate RetriesTwoAndFive(servers: seq<Endpoint>, deadline: Deadline, w: Walk) {
    && (forall i :: 0 <= i < |w.attempts| - 1 && w.attempts[i].outcome.Ok? ==>
          w.attempts[i].outcome.value.CombinedCode() in {2, 5})
    && (w.attempts != [] ==>
          var last := w.attempts[|w.attempts| - 1].outcome;
          && (last.Ok? && last.value.CombinedCode() !in {2, 5} ==>
                w.result == last || w.end.stop || w.end.now >= deadline.at)
          && (|w.attempts| < |servers| && (last.Ok? ==> last.value.CombinedCode() in {2, 5}) ==>
                w.result.Err? && (w.end.stop || w.end.now >= deadline.at || NextCouldNotBegin(servers, w))))
  }

  lemma WalkRetries(query: Packet, servers: seq<Endpoint>, transport: Protocol, deadline: Deadline, w: Walk)
    requires GoodWalk(query, servers, transport, deadline, w)
    ensures RetriesTwoAndFive(servers, deadline, w)
  {
    hide GoodAttempts, Chronological, LastResponse, FromIo, Packet.CombinedCode, Before, Prompt, NothingMoved;
    if w.attempts != [] {
      assert w.attempts[|w.attempts| - 1] in w.attempts;
    }
  }

  /** The last validated response of the attempts: a later failure never replaces it. */
  function LastResponse(attempts: seq<Attempt>): Option<Packet> {
    if attempts == [] then None
    else if attempts[|attempts| - 1].outcome.Ok? then Some(attempts[|attempts| - 1].outcome.value)
    else LastResponse(attempts[..|attempts| - 1])
  }

  /** Attempts go through the group in order, and only the last of them can be final. */
  ghost predicate WalksInOrder(servers: seq<Endpoint>, attempts: seq<Attempt>) {
    && |attempts| <= |servers|
    && (forall i :: 0 <= i < |attempts| ==> attempts[i].server == servers[i])
    && (forall i :: 0 <= i < |attempts| - 1 ==> !Final(attempts[i]))
  }

  /** The result of a walk that was not aborted. */
  ghost predicate WalkResult(servers: seq<Endpoint>, attempts: seq<Attempt>, r: Result<Packet, ForwardError>) {
    && attempts != []
    && var last := attempts[|attempts| - 1];
       if Final(last) then r == last.outcome
       else
         && |attempts| == |servers|
         && match LastResponse(attempts)
            case Some(p) => r == Ok(p)
            case None => r == last.outcome && last.outcome.Err?
  }

  /** The state of a walk that goes on: nothing final so far, and what would be returned now. */
  ghost predicate WalkGoesOn(
    servers: seq<Endpoint>, attempts: seq<Attempt>, relayed: Option<Packet>, lastError: ForwardError)
  {
    && WalksInOrder(servers, attempts)
    && (forall a :: a in attempts ==> !Final(a))
    && relayed == LastResponse(attempts)
    && (relayed.None? && attempts != [] ==> attempts[|attempts| - 1].outcome == Err(lastError))
  }

  /** Good attempts one after the other, and no ID was asked for since the last of them. */
  ghost predicate Continued(
    query: Packet, transport: Protocol, deadline: Deadline, begin: Moment, attempts: seq<Attempt>, now: Moment)
  {
    && |query.wire| >= HEADER_LENGTH
    && GoodAttempts(query, transport, deadline, attempts)
    && Chronological(begin, attempts)
    && OnlyChecked(LastEnd(begin, attempts), now)
    && Prompt(LastEnd(begin, attempts), now, if attempts == [] then 0 else 1)
  }

  /** `a` is a good attempt at `address` that began at `start`. */
  ghost predicate Visited(
    a: Attempt, start: Moment, address: Endpoint, query: Packet, transport: Protocol, deadline: Deadline)
  {
    a.start == start && a.server == address
    && |query.wire| >= HEADER_LENGTH && GoodAttempt(query, transport, deadline, a)
  }

  lemma VisitedMeaning(
    a: Attempt, start: Moment, address: Endpoint, query: Packet, transport: Protocol, deadline: Deadline)
    requires Faithful(query) && Visited(a, start, address, query, transport, deadline)
    ensures a.tries != []
    ensures a.outcome.Ok? ==> AnswersQuery(query, a.tries[|a.tries| - 1].sent, a.outcome.value)
  {
    hide GoodAttempt, Faithful, AnswersQuery, ServerWork, EndsWith, Packet.ResponseCode, Missed;
    AttemptMeaning(query, transport, deadline, a);
  }

  /** One more attempt in order. */
  lemma WalkStep(
    servers: seq<Endpoint>, attempts: seq<Attempt>, relayed: Option<Packet>, lastError: ForwardError, a: Attempt)
    requires WalkGoesOn(servers, attempts, relayed, lastError)
    requires |attempts| < |servers| && a.server == servers[|attempts|]
    ensures WalksInOrder(servers, attempts + [a])
    ensures Final(a) ==> WalkResult(servers, attempts + [a], a.outcome)
    ensures !Final(a) && a.outcome.Err? ==> WalkGoesOn(servers, attempts + [a], relayed, a.outcome.error)
    ensures !Final(a) && a.outcome.Ok? ==>
              forall e :: WalkGoesOn(servers, attempts + [a], Some(a.outcome.value), e)
  {
    SendsAppend(attempts, a);
    assert forall i :: 0 <= i < |attempts| ==> attempts[i] in attempts;
    hide Final, SendsOf;
  }

  /** One more attempt in time. */
  lemma ContinuedStep(
    query: Packet, transport: Protocol, deadline: Deadline, begin: Moment, attempts: seq<Attempt>, now: Moment,
    a: Attempt, address: Endpoint)
    requires Continued(query, transport, deadline, begin, attempts, now)
    requires Visited(a, now, address, query, transport, deadline)
    ensures Continued(query, transport, deadline, begin, attempts + [a], a.end)
    ensures a.server == address
  {
    hide Before, Follows;
    BeforeItself(a.end);
  }

  lemma {:induction false} ChronologyIsOrder(begin: Moment, attempts: seq<Attempt>)
    requires Chronological(begin, attempts)
    ensures Before(begin, LastEnd(begin, attempts))
    decreases |attempts|
  {
    hide Before;
    if attempts == [] {
      BeforeItself(begin);
    } else {
      var n := |attempts| - 1;
      ChronologyIsOrder(begin, attempts[..n]);
      if n > 0 {
        BeforeTrans(begin, attempts[n - 1].end, attempts[n].start);
      }
      BeforeTrans(begin, attempts[n].start, attempts[n].end);
    }
  }

  lemma ContinuedLater(
    query: Packet, transport: Protocol, deadline: Deadline, begin: Moment, attempts: seq<Attempt>, now: Moment,
    later: Moment)
    requires Continued(query, transport, deadline, begin, attempts, now)
    requires OnlyChecked(now, later)
    requires Prompt(LastEnd(begin, attempts), later, if attempts == [] then 0 else 1)
    ensures Continued(query, transport, deadline, begin, attempts, later)
  {
    OnlyCheckedTrans(LastEnd(begin, attempts), now, later);
    hide OnlyChecked, GoodAttempts, Chronological;
  }

  /** A walk that is cut short at `walk.end`, after the moment `from` when it still went on. */
  lemma WalkCut(
    query: Packet, servers: seq<Endpoint>, transport: Protocol, deadline: Deadline, walk: Walk, from: Moment)
    requires Continued(query, transport, deadline, walk.begin, walk.attempts, from)
    requires NothingMoved(from, walk.end) && Prompt(from, walk.end, 1)
    requires WalksInOrder(servers, walk.attempts)
    requires walk.abort.Some? && walk.result.Err?
    requires Cut(walk.abort.value, walk.result.error, from, walk.end, deadline)
    requires walk.abort.value.Unstarted() ==>
               |walk.attempts| < |servers| && forall a :: a in walk.attempts ==> !Final(a)
    ensures GoodWalk(query, servers, transport, deadline, walk)
    ensures RetriesTwoAndFive(servers, deadline, walk)
  {
    NothingMovedTrans(LastEnd(walk.begin, walk.attempts), from, walk.end);
    hide RetriesTwoAndFive, GoodAttempts, Chronological, WalksInOrder, Final, FromIo;
    WalkRetries(query, servers, transport, deadline, walk);
  }

  /** A walk that ended by itself, with time left. */
  lemma WalkEnded(
    query: Packet, servers: seq<Endpoint>, transport: Protocol, deadline: Deadline, walk: Walk, from: Moment)
    requires Continued(query, transport, deadline, walk.begin, walk.attempts, from)
    requires NothingMoved(from, walk.end) && Prompt(from, walk.end, 1)
    requires walk.abort.None? && !walk.end.stop && walk.end.now < deadline.at
    requires WalksInOrder(servers, walk.attempts) && WalkResult(servers, walk.attempts, walk.result)
    ensures GoodWalk(query, servers, transport, deadline, walk)
    ensures RetriesTwoAndFive(servers, deadline, walk)
  {
    NothingMovedTrans(LastEnd(walk.begin, walk.attempts), from, walk.end);
    hide RetriesTwoAndFive, GoodAttempts, Chronological, WalksInOrder, WalkResult, Before;
    WalkRetries(query, servers, transport, deadline, walk);
  }

  /** A walk that went through the whole group returns its last response, or its last error. */
  lemma WalkExhausted(
    servers: seq<Endpoint>, attempts: seq<Attempt>, relayed: Option<Packet>, lastError: ForwardError)
    requires WalkGoesOn(servers, attempts, relayed, lastError)
    requires |attempts| == |servers| > 0
    ensures WalkResult(servers, attempts, if relayed.Some? then Ok(relayed.value) else Err(lastError))
  {
    assert attempts[|attempts| - 1] in attempts;
    hide Final;
  }

  /** The last response belongs to an attempt after which every other one failed; without it all failed. */
  lemma {:induction false} LastResponseIsLast(attempts: seq<Attempt>) returns (i: nat)
    ensures match LastResponse(attempts)
            case Some(p) =>
              && i < |attempts| && attempts[i].outcome == Ok(p)
              && forall j :: i < j < |attempts| ==> attempts[j].outcome.Err?
            case None => forall j :: 0 <= j < |attempts| ==> attempts[j].outcome.Err?
    decreases |attempts|
  {
    i := 0;
    if attempts != [] {
      var n := |attempts| - 1;
      if attempts[n].outcome.Ok? {
        i := n;
      } else {
        i := LastResponseIsLast(attempts[..n]);
        assert forall j :: 0 <= j < n ==> attempts[j] == attempts[..n][j];
      }
    }
  }

  /** Servers remain and nothing was final, but since the last attempt an ID was refused or a check found no time. */
  ghost predicate NextCouldNotBegin(servers: seq<Endpoint>, w: Walk) {
    && |w.attempts| < |servers|
    && (forall a :: a in w.attempts ==> !Final(a))
    && var from := LastEnd(w.begin, w.attempts);
       w.end.idFailures != from.idFailures || w.end.lapses != from.lapses
  }

  /**
   * What a walk hands back. A response is that of attempt `i`: it is final and the walk ends with it, or every
   * server was tried, nothing was final, and every later attempt failed. The walk ends in an error exactly on a
   * stop, on expiry of the request, when the next attempt could not begin, or when every server was tried and
   * none gave a response; a response that was saved changes nothing about the first three.
   */
  lemma WalkMeaning(query: Packet, servers: seq<Endpoint>, transport: Protocol, deadline: Deadline, w: Walk)
    returns (i: nat)
    requires GoodWalk(query, servers, transport, deadline, w) && servers != []
    ensures w.result.Ok? ==>
              && i < |w.attempts| && w.attempts[i].outcome == w.result
              && (if Final(w.attempts[i]) then i == |w.attempts| - 1
                  else
                    && |w.attempts| == |servers|
                    && (forall a :: a in w.attempts ==> !Final(a))
                    && forall j :: i < j < |w.attempts| ==> w.attempts[j].outcome.Err?)
    ensures w.result.Err? <==>
            || w.end.stop || w.end.now >= deadline.at || NextCouldNotBegin(servers, w)
            || (|w.attempts| == |servers| && forall a :: a in w.attempts ==> a.outcome.Err?)
    ensures (exists a :: a in w.attempts && a.outcome.Ok?) ==>
              (w.result.Err? <==> w.end.stop || w.end.now >= deadline.at || NextCouldNotBegin(servers, w))
    ensures w.result.Err? && w.abort.None? ==> w.attempts != [] && w.attempts[|w.attempts| - 1].outcome == w.result
  {
    hide GoodAttempts, Chronological, LastResponse, FromIo, Packet.CombinedCode;
    i := LastResponseIsLast(w.attempts);
    if w.abort.None? && Final(w.attempts[|w.attempts| - 1]) {
      i := |w.attempts| - 1;
    }
  }

  /** A walk reports a shutdown only when the stop flag is up. */
  lemma CancelledWalk(query: Packet, servers: seq<Endpoint>, transport: Protocol, deadline: Deadline, w: Walk)
    requires Faithful(query)
    requires GoodWalk(query, servers, transport, deadline, w) && w.result == Err(ShutdownRequested)
    ensures w.end.stop
  {
    hide Faithful, WalksInOrder, Chronological, Final, LastResponse, GoodAttempt, ServerWork, AnswersQuery, EndsWith,
      Packet.ResponseCode;
    if w.abort.None? {
      var last := w.attempts[|w.attempts| - 1];
      assert last in w.attempts;
      AttemptMeaning(query, transport, deadline, last);
    }
  }

  lemma EmptyWalk(query: Packet, servers: seq<Endpoint>, transport: Protocol, deadline: Deadline, begin: Moment)
    requires |query.wire| >= HEADER_LENGTH
    ensures SendsOf([]) == [] && WalkGoesOn(servers, [], None, ExchangeTimeout)
    ensures Continued(query, transport, deadline, begin, [], begin)
  {
  }

  /** The sends of a walk, attempt by attempt. */
  function SendsOf(attempts: seq<Attempt>): seq<Transmission> {
    if attempts == [] then [] else SendsOf(attempts[..|attempts| - 1]) + attempts[|attempts| - 1].Sends()
  }

  lemma SendsAppend(attempts: seq<Attempt>, a: Attempt)
    ensures SendsOf(attempts + [a]) == SendsOf(attempts) + a.Sends()
    ensures LastResponse(attempts + [a]) == if a.outcome.Ok? then Some(a.outcome.value) else LastResponse(attempts)
  {
    assert (attempts + [a])[..|attempts|] == attempts;
  }
}
