/**
 * One attempt at a server: an exchange, and the cookie retries of section 5.3 of RFC 7873 (src/upstream.rs). An
 * attempt is a list of exchanges in which every one but the last leads to the next; what a server can be sent, and
 * what can be handed back, follows from that list.
 */
module Attempts {
  import opened Outcomes
  import opened Bytes
  import opened Names
  import opened Types
  import opened Messages
  import opened Records
  import opened Cookies
  import opened CookieRetry
  import opened CookieRewrite
  import opened SentQueries
  import opened Transport
  import opened Exchanges
  import opened Acceptance

  // ----- the cookie protocol -----

  /** What follows an exchange: the attempt has its outcome, or some bytes are sent once more. */
  datatype Decision = Done(outcome: Result<Packet, ForwardError>) | Again(wire: seq<byte>, over: Protocol)

  /**
   * A BADCOOKIE is retried with the server's cookie over the client's transport. Over UDP a second BADCOOKIE, or
   * one with nothing to rewrite, is asked once more over TCP. (Every sound query has a well-shaped slot.)
   */
  function Decide(transport: Protocol, t: Try): Decision {
    if t.outcome.Err? || t.outcome.value.ResponseCode() != BadCookie || !SlotShaped(t.sent.packet) then Done(t.outcome)
    else if t.over != transport || (transport == Protocol.Tcp && t.sent.cookieRequired) then Done(t.outcome)
    else
      var retry := Retry(t.sent.packet, t.outcome.value);
      if retry.Absent? then Done(if t.sent.cookieRequired then Err(InvalidResponse) else t.outcome)
      else if retry.Discard? then Done(Err(InvalidResponse))
      else if retry.Rewrite? then Again(retry.wire, if t.sent.cookieRequired then Protocol.Tcp else transport)
      else if transport == Protocol.Tcp then Done(t.outcome)
      else Again(t.sent.packet.wire, Protocol.Tcp)
  }

  /** The query of `u` is `wire` under some ID. */
  ghost predicate Resends(wire: seq<byte>, sent: SentQuery) {
    |wire| >= 2 && exists id :: RetrySent(wire, id) == Ok(sent)
  }

  /** Nothing happens between two exchanges but a check that found time left and the choice of an ID. */
  ghost predicate Leads(transport: Protocol, t: Try, u: Try) {
    && Decide(transport, t).Again?
    && u.over == Decide(transport, t).over && Resends(Decide(transport, t).wire, u.sent)
    && OnlyChecked(t.end, u.begin) && u.begin.checks == t.end.checks + 1
  }

  /** A retry that was due did not begin: no time, a stop, no ID, or bytes that do not parse. */
  ghost predicate NotRetried(a: Moment, b: Moment, deadline: Deadline, wire: seq<byte>, e: ForwardError) {
    || (e == ShutdownRequested && b.stop)
    || (e == ExchangeTimeout && b.now >= deadline.at)
    || (e != ShutdownRequested && exists io :: b.idFailures == a.idFailures + [io] && e == FromIo(io))
    || (|wire| >= 2 && exists id, pe :: RetrySent(wire, id) == Err(pe) && e == ParseFailed(pe))
  }

  /** Good exchanges, each of which leads to the next. */
  ghost predicate Chain(transport: Protocol, server: Endpoint, deadline: Deadline, tries: seq<Try>) {
    && tries != []
    && (forall i :: 0 <= i < |tries| ==> GoodTry(tries[i], server, deadline))
    && (forall i, j :: 0 <= i < j < |tries| && j == i + 1 ==> Leads(transport, tries[i], tries[j]))
  }

  /** What the last exchange makes of the attempt at `end`. */
  ghost predicate Concludes(
    transport: Protocol, t: Try, deadline: Deadline, end: Moment, outcome: Result<Packet, ForwardError>)
  {
    match Decide(transport, t)
    case Done(r) => end == t.end && outcome == r
    case Again(wire, _) =>
      && NothingMoved(t.end, end) && Prompt(t.end, end, 1)
      && outcome.Err? && NotRetried(t.end, end, deadline, wire, outcome.error)
  }

  /** A whole attempt that starts with `first`. */
  ghost predicate Follows(
    first: SentQuery, transport: Protocol, server: Endpoint, deadline: Deadline, tries: seq<Try>, end: Moment,
    outcome: Result<Packet, ForwardError>)
  {
    && Chain(transport, server, deadline, tries)
    && tries[0].sent == first && tries[0].over == transport && !first.cookieRequired
    && Concludes(transport, tries[|tries| - 1], deadline, end, outcome)
  }

  /** Everything that the exchanges sent, in order. */
  function TrySends(tries: seq<Try>): seq<Transmission> {
    if tries == [] then [] else TrySends(tries[..|tries| - 1]) + tries[|tries| - 1].sends
  }

  lemma TrySendsAppend(tries: seq<Try>, t: Try)
    ensures TrySends(tries + [t]) == TrySends(tries) + t.sends
  {
    assert (tries + [t])[..|tries|] == tries;
  }

  lemma OneIsChain(transport: Protocol, server: Endpoint, deadline: Deadline, t: Try)
    requires GoodTry(t, server, deadline)
    ensures Chain(transport, server, deadline, [t]) && TrySends([t]) == t.sends
  {
    TrySendsAppend([], t);
    assert [] + [t] == [t];
    hide GoodTry;
  }

  lemma ChainIsThere(transport: Protocol, server: Endpoint, deadline: Deadline, tries: seq<Try>)
    requires Chain(transport, server, deadline, tries)
    ensures tries != [] && GoodTry(tries[0], server, deadline) && GoodTry(tries[|tries| - 1], server, deadline)
    ensures |tries| > 1 ==> Leads(transport, tries[0], tries[1])
  {
    hide GoodTry, Leads;
  }

  lemma ChainAppend(transport: Protocol, server: Endpoint, deadline: Deadline, tries: seq<Try>, t: Try)
    requires Chain(transport, server, deadline, tries) && GoodTry(t, server, deadline)
    requires Leads(transport, tries[|tries| - 1], t)
    ensures Chain(transport, server, deadline, tries + [t])
  {
    hide GoodTry, Leads;
  }

  /** Anything but a BADCOOKIE, and whatever came over the last resort, is the outcome. */
  lemma DoneAlready(transport: Protocol, t: Try)
    requires || t.outcome.Err? || t.outcome.value.ResponseCode() != BadCookie || t.over != transport
             || (transport == Protocol.Tcp && t.sent.cookieRequired)
    ensures Decide(transport, t) == Done(t.outcome)
  {
    hide Packet.ResponseCode, Retry, SlotShaped;
  }

  lemma DoneConcludes(transport: Protocol, t: Try, deadline: Deadline, r: Result<Packet, ForwardError>)
    requires Decide(transport, t) == Done(r)
    ensures Concludes(transport, t, deadline, t.end, r)
  {
    hide Decide;
  }

  /** The decision after a first BADCOOKIE. */
  lemma FirstDecision(transport: Protocol, t: Try)
    requires t.outcome.Ok? && t.outcome.value.ResponseCode() == BadCookie && SlotShaped(t.sent.packet)
    requires t.over == transport && !t.sent.cookieRequired
    ensures Decide(transport, t) ==
            match Retry(t.sent.packet, t.outcome.value)
            case Absent => Done(t.outcome)
            case Discard => Done(Err(InvalidResponse))
            case Rewrite(wire) => Again(wire, transport)
            case _ => if transport == Protocol.Tcp then Done(t.outcome) else Again(t.sent.packet.wire, Protocol.Tcp)
  {
    hide Packet.ResponseCode, Retry, SlotShaped;
  }

  /** The decision after a second BADCOOKIE by datagram. */
  lemma SecondDecision(transport: Protocol, t: Try)
    requires t.outcome.Ok? && t.outcome.value.ResponseCode() == BadCookie && SlotShaped(t.sent.packet)
    requires t.over == transport == Udp && t.sent.cookieRequired
    ensures Decide(transport, t) ==
            match Retry(t.sent.packet, t.outcome.value)
            case Absent => Done(Err(InvalidResponse))
            case Discard => Done(Err(InvalidResponse))
            case Rewrite(wire) => Again(wire, Protocol.Tcp)
            case _ => Again(t.sent.packet.wire, Protocol.Tcp)
  {
    hide Packet.ResponseCode, Retry, SlotShaped;
  }

  lemma FollowsHasFirst(
    first: SentQuery, transport: Protocol, server: Endpoint, deadline: Deadline, tries: seq<Try>, end: Moment,
    outcome: Result<Packet, ForwardError>)
    requires Follows(first, transport, server, deadline, tries, end, outcome)
    ensures tries != []
  {
    hide Concludes, GoodTry, Leads;
  }

  // ----- what a step means -----

  /** The octets after the ID. */
  function AfterId(w: seq<byte>): seq<byte> {
    if |w| < 2 then [] else w[2..]
  }

  /** The first response was validated, so it carries a cookie, and so did the query. */
  lemma BadCookieFacts(sent: SentQuery, response: Packet)
    requires Validated(sent, response) && response.ResponseCode() == BadCookie
    ensures SlotShaped(sent.packet) && sent.packet.Forwardable()
    ensures sent.packet.edns.Some? && sent.packet.cookie.Some?
    ensures |sent.packet.wire| >= HEADER_LENGTH
  {
    hide Parse;
    SoundHasSlots(sent);
    CookieNeedsOpt(sent.packet);
  }

  /** A validated BADCOOKIE never meets the branch for queries without a cookie. */
  lemma BadCookieIsNeverAbsent(sent: SentQuery, response: Packet)
    requires Validated(sent, response) && response.ResponseCode() == BadCookie
    ensures SlotShaped(sent.packet) && Retry(sent.packet, response) != Absent
  {
    hide Parse, ValidResponse, Retry;
    SoundHasSlots(sent);
    BadCookieAllowsRetry(sent.packet, response, sent.cookieRequired);
  }

  /** The bytes of a rewrite are new, and a plain query keeps its question through them. */
  lemma RewriteFacts(sent: SentQuery, response: Packet, id: TransactionId)
    requires Validated(sent, response) && response.ResponseCode() == BadCookie
    requires SlotShaped(sent.packet) && Retry(sent.packet, response).Rewrite?
    ensures var w := Retry(sent.packet, response).wire;
            && |w| >= 2 && AfterId(w) != AfterId(sent.packet.wire)
            && (Plain(sent.packet) && RetrySent(w, id).Ok? ==>
                  && RetrySent(w, id).value.packet.questions == sent.packet.questions
                  && Plain(RetrySent(w, id).value.packet))
  {
    hide Parse, Retry, RetrySent, Plain;
    BadCookieFacts(sent, response);
    RewriteIsNew(sent, response);
    if Plain(sent.packet) {
      RetryOfRewrite(sent, response, id);
    }
  }

  lemma TryAnswers(t: Try, server: Endpoint, deadline: Deadline)
    requires GoodTry(t, server, deadline) && t.outcome.Ok?
    ensures Validated(t.sent, t.outcome.value) && t.sends != []
    ensures Heard(t.begin, t.end, t.sent, t.outcome.value.wire)
  {
    hide Sound, Heard, UdpOutcome, OneWork, Validated;
  }

  /** A step follows a validated BADCOOKIE; a second datagram carries new bytes. */
  lemma StepFacts(transport: Protocol, server: Endpoint, deadline: Deadline, t: Try, u: Try)
    requires GoodTry(t, server, deadline) && Leads(transport, t, u)
    ensures t.outcome.Ok? && t.outcome.value.ResponseCode() == BadCookie && Validated(t.sent, t.outcome.value)
    ensures u.sent.cookieRequired && t.over == transport
    ensures t.sent.cookieRequired ==> transport == Udp && u.over == Protocol.Tcp
    ensures transport == Protocol.Tcp ==> u.over == Protocol.Tcp
    ensures u.over == Udp ==> AfterId(u.sent.packet.wire) != AfterId(t.sent.packet.wire)
  {
    hide Parse, Validated, Retry, RetrySent, Heard, UdpOutcome, OneWork, ResponseCodeFromWire, Packet.CombinedCode,
      SlotShaped;
    var wire := Decide(transport, t).wire;
    var id :| RetrySent(wire, id) == Ok(u.sent);
    RetrySentWire(wire, id);
    if u.over == Udp {
      RewriteFacts(t.sent, t.outcome.value, id);
    }
  }

  lemma ResentNeedsCookie(wire: seq<byte>, sent: SentQuery)
    requires Resends(wire, sent)
    ensures sent.cookieRequired
  {
    hide Parse;
  }

  lemma RetrySentWire(wire: seq<byte>, id: TransactionId)
    requires |wire| >= 2 && RetrySent(wire, id).Ok?
    ensures RetrySent(wire, id).value.cookieRequired
    ensures AfterId(RetrySent(wire, id).value.packet.wire) == AfterId(wire)
  {
    RetryIsSound(wire, id);
    hide Parse;
  }

  /** A step keeps the question of a plain query. */
  lemma StepKeepsQuestion(transport: Protocol, server: Endpoint, deadline: Deadline, t: Try, u: Try)
    requires GoodTry(t, server, deadline) && Leads(transport, t, u) && Plain(t.sent.packet)
    ensures Plain(u.sent.packet) && u.sent.packet.questions == t.sent.packet.questions
  {
    hide Parse, Validated, Retry, RetrySent, Heard, UdpOutcome, OneWork, ResponseCodeFromWire, Packet.CombinedCode,
      SlotShaped, Plain, Sound;
    StepFacts(transport, server, deadline, t, u);
    var wire := Decide(transport, t).wire;
    var id :| RetrySent(wire, id) == Ok(u.sent);
    if Retry(t.sent.packet, t.outcome.value).Rewrite? {
      RewriteFacts(t.sent, t.outcome.value, id);
    } else {
      SameBytesKeepQuestion(t.sent, id);
    }
  }

  lemma SameBytesKeepQuestion(sent: SentQuery, id: TransactionId)
    requires Sound(sent) && Plain(sent.packet)
    ensures |sent.packet.wire| >= 2
    ensures var r := RetrySent(sent.packet.wire, id);
            r.Ok? && Plain(r.value.packet) && r.value.packet.questions == sent.packet.questions
  {
    RetryOfSameBytes(sent, id);
    SoundIsFramable(sent);
    PlainWithId(sent.packet, id);
    hide Parse, QuestionStandsAlone;
  }

  // ----- the protocol in numbers -----

  /** The cookie of the response is new and can be put into the query. */
  ghost predicate RewriteDue(t: Try)
    requires t.outcome.Ok? && BothCookies(t.sent.packet, t.outcome.value)
  {
    Replaceable(t.sent.packet, t.outcome.value) && RewrittenSize(t.sent.packet, t.outcome.value) <= 65535
  }

  ghost predicate RewriteTooLong(t: Try)
    requires t.outcome.Ok? && BothCookies(t.sent.packet, t.outcome.value)
  {
    Replaceable(t.sent.packet, t.outcome.value) && RewrittenSize(t.sent.packet, t.outcome.value) > 65535
  }

  /** Behind the ID, `w` is the query with the server's cookie put after the client's eight octets. */
  ghost predicate Recookied(t: Try, w: seq<byte>)
    requires t.outcome.Ok? && BothCookies(t.sent.packet, t.outcome.value)
  {
    exists v ::
      && AfterId(w) == AfterId(v)
      && IsRewrite(t.sent.packet, t.outcome.value, v)
  }

  ghost predicate IsRewrite(sent: Packet, response: Packet, v: seq<byte>)
    requires BothCookies(sent, response)
  {
    var slot, data := sent.cookie.value.slot, CookieData(response);
    && Rewritten(sent.wire, v, slot, |data|)
    && v[slot.dataAt..slot.dataAt + |data|] == CookieData(sent)[..8] + data[8..]
  }

  /** The choice after a validated BADCOOKIE. */
  lemma BadCookieChoice(t: Try)
    requires t.outcome.Ok? && Validated(t.sent, t.outcome.value) && t.outcome.value.ResponseCode() == BadCookie
    ensures SlotShaped(t.sent.packet) && BothCookies(t.sent.packet, t.outcome.value)
    ensures match Retry(t.sent.packet, t.outcome.value)
            case Absent => false
            case Discard => RewriteTooLong(t) && !RewriteDue(t)
            case Rewrite(w) => RewriteDue(t) && IsRewrite(t.sent.packet, t.outcome.value, w) && !RewriteTooLong(t)
            case _ => !RewriteDue(t) && !RewriteTooLong(t)
  {
    hide Parse, ValidResponse, Retry, Rewritten, Packet.ResponseCode, Packet.CorrespondsTo;
    SoundHasSlots(t.sent);
    BadCookieAllowsRetry(t.sent.packet, t.outcome.value, t.sent.cookieRequired);
    if Retry(t.sent.packet, t.outcome.value).Rewrite? {
      AcceptedSlotFits(t.sent.packet);
      RetryRewrites(t.sent.packet, t.outcome.value);
    }
  }

  lemma BadCookieIs23(p: Packet)
    ensures p.ResponseCode() == BadCookie <==> p.CombinedCode() == 23
  {
    hide Packet.CombinedCode;
    CodeNumbers(p.CombinedCode());
  }

  /**
   * What one exchange leads to, without the functions that decide it. Only code 23 is followed by another exchange.
   * If the new cookie can be put into the query, the rewritten query follows, the first time over the client's own
   * transport; otherwise the same query does, over TCP.
   */
  lemma StepMeaning(transport: Protocol, server: Endpoint, deadline: Deadline, t: Try, u: Try)
    requires GoodTry(t, server, deadline) && Leads(transport, t, u)
    ensures t.outcome.Ok? && t.outcome.value.CombinedCode() == 23 && t.over == transport
    ensures BothCookies(t.sent.packet, t.outcome.value) && !RewriteTooLong(t)
    ensures RewriteDue(t) ==>
              && Recookied(t, u.sent.packet.wire)
              && u.over == if t.sent.cookieRequired then Protocol.Tcp else transport
    ensures !RewriteDue(t) ==>
              AfterId(u.sent.packet.wire) == AfterId(t.sent.packet.wire) && transport == Udp && u.over == Protocol.Tcp
  {
    hide Parse, Validated, Retry, RetrySent, Heard, UdpOutcome, OneWork, Packet.ResponseCode, Packet.CombinedCode,
      SlotShaped, RewriteDue, RewriteTooLong, IsRewrite, AfterId, BothCookies;
    StepFacts(transport, server, deadline, t, u);
    BadCookieIs23(t.outcome.value);
    BadCookieChoice(t);
    var wire := Decide(transport, t).wire;
    var id :| RetrySent(wire, id) == Ok(u.sent);
    RetrySentWire(wire, id);
  }

  // ----- what an attempt means -----

  /** At most three exchanges; only a BADCOOKIE is followed by another one. */
  lemma ChainShape(transport: Protocol, server: Endpoint, deadline: Deadline, tries: seq<Try>)
    requires Chain(transport, server, deadline, tries)
    requires tries[0].over == transport && !tries[0].sent.cookieRequired
    ensures 1 <= |tries| <= if transport == Protocol.Tcp then 2 else 3
    ensures forall i :: 0 < i < |tries| ==> tries[i].sent.cookieRequired
    ensures forall i :: 0 <= i < |tries| - 1 ==>
                          tries[i].outcome.Ok? && tries[i].outcome.value.ResponseCode() == BadCookie
    ensures transport == Protocol.Tcp && |tries| > 1 ==> tries[1].over == Protocol.Tcp
    ensures |tries| == 3 ==> tries[1].over == Udp && tries[2].over == Protocol.Tcp
    ensures |tries| > 1 && tries[1].over == Udp ==>
              AfterId(tries[1].sent.packet.wire) != AfterId(tries[0].sent.packet.wire)
  {
    hide GoodTry, Leads, AfterId, Packet.ResponseCode, Validated;
    if |tries| > 1 {
      StepFacts(transport, server, deadline, tries[0], tries[1]);
    }
    if |tries| > 2 {
      StepFacts(transport, server, deadline, tries[1], tries[2]);
    }
    if |tries| > 3 {
      StepFacts(transport, server, deadline, tries[2], tries[3]);
    }
  }

  /** A response that an attempt hands back is that of its last exchange. */
  lemma OutcomeIsLast(
    first: SentQuery, transport: Protocol, server: Endpoint, deadline: Deadline, tries: seq<Try>, end: Moment,
    outcome: Result<Packet, ForwardError>)
    requires Follows(first, transport, server, deadline, tries, end, outcome)
    ensures tries != []
    ensures outcome.Ok? ==>
              var last := tries[|tries| - 1];
              last.outcome == outcome && last.end == end && Decide(transport, last) == Done(outcome)
  {
    hide GoodTry, Leads, Retry, Packet.ResponseCode;
  }

  /** Some retry did not begin. */
  ghost predicate RetryFailed(a: Moment, b: Moment, deadline: Deadline, e: ForwardError) {
    exists wire :: NotRetried(a, b, deadline, wire, e)
  }

  /**
   * How an attempt ends, without the functions that decide it. Whatever is not code 23 is the outcome, and so is a
   * 23 that came over TCP where there is nothing more to try. Any other 23 is retried: the attempt ends without
   * another exchange only if the rewrite would be too long, or if the retry could not begin.
   */
  lemma AttemptEnds(
    first: SentQuery, transport: Protocol, server: Endpoint, deadline: Deadline, tries: seq<Try>, end: Moment,
    outcome: Result<Packet, ForwardError>)
    requires Follows(first, transport, server, deadline, tries, end, outcome)
    ensures var t := tries[|tries| - 1];
            if t.outcome.Err? || t.outcome.value.CombinedCode() != 23 || t.over != transport
               || (transport == Protocol.Tcp && t.sent.cookieRequired)
            then outcome == t.outcome && end == t.end
            else
              && BothCookies(t.sent.packet, t.outcome.value)
              && if RewriteTooLong(t) then outcome == Err(InvalidResponse) && end == t.end
                 else if transport == Protocol.Tcp && !RewriteDue(t) then outcome == t.outcome && end == t.end
                 else outcome.Err? && RetryFailed(t.end, end, deadline, outcome.error)
  {
    hide GoodTry, Leads, Retry, Packet.ResponseCode, Packet.CombinedCode, RewriteDue, RewriteTooLong, BothCookies,
      NotRetried, SlotShaped, Validated, Heard;
    var t := tries[|tries| - 1];
    ChainIsThere(transport, server, deadline, tries);
    if t.outcome.Ok? {
      TryAnswers(t, server, deadline);
      BadCookieIs23(t.outcome.value);
      if t.outcome.value.CombinedCode() == 23 {
        BadCookieChoice(t);
      }
    }
  }

  /** In an exchange that failed no answer arrived, unless the next check found that it was too late. */
  lemma FailedTriesMissed(transport: Protocol, server: Endpoint, deadline: Deadline, tries: seq<Try>)
    requires Chain(transport, server, deadline, tries)
    ensures forall t :: t in tries && t.outcome.Err? ==> Missed(t.begin, t.end, deadline, t.sent)
  {
    hide Sound, Heard, UdpOutcome, OneWork, Leads, Validated, Missed, BadFrame, Flooded, Failed;
  }

  /**
   * An attempt that fails had no validated response but a BADCOOKIE that asks for a retry, and no exchange of it
   * failed after an answer that had arrived in time.
   */
  lemma NoAnswerIsDropped(
    first: SentQuery, transport: Protocol, server: Endpoint, deadline: Deadline, tries: seq<Try>, end: Moment,
    outcome: Result<Packet, ForwardError>)
    requires Follows(first, transport, server, deadline, tries, end, outcome)
    ensures outcome.Err? ==>
              forall t :: t in tries && t.outcome.Ok? ==> t.outcome.value.ResponseCode() == BadCookie
    ensures forall t :: t in tries && t.outcome.Err? ==> Missed(t.begin, t.end, deadline, t.sent)
  {
    hide Missed;
    FailedTriesMissed(transport, server, deadline, tries);
    hide Chain, Retry, Packet.ResponseCode, AfterId, NotRetried, SlotShaped;
    ChainShape(transport, server, deadline, tries);
  }

  /** What an attempt may hand back for the query it started from. */
  ghost predicate Answered(first: SentQuery, last: SentQuery, p: Packet) {
    && Validated(last, p)
    && (last == first || (first.packet.edns.Some? && first.packet.cookie.Some?))
    && (last == first || Plain(first.packet) ==> last.packet.questions == first.packet.questions)
  }

  /**
   * A response for the client: validated against the bytes that were last sent; it has OPT only if the query
   * has, and it answers the query's own question unless a rewrite of a query that is not plain intervened.
   */
  ghost predicate AnswersQuery(query: Packet, last: SentQuery, p: Packet) {
    && Validated(last, p)
    && OptAgrees(query, p)
    && (Plain(query) || query.cookie.None? ==> SameQuestions(p.questions, query.questions))
  }

  lemma AnsweredQuery(query: Packet, id: TransactionId, last: SentQuery, p: Packet)
    requires Faithful(query) && |query.wire| >= HEADER_LENGTH
    requires Answered(Sent(query, id), last, p)
    ensures AnswersQuery(query, last, p)
  {
    hide Parse, ValidResponse;
    if Plain(query) {
      PlainWithId(query, id);
    }
  }

  lemma {:induction false} ChainKeepsQuestion(
    transport: Protocol, server: Endpoint, deadline: Deadline, tries: seq<Try>, i: nat)
    requires Chain(transport, server, deadline, tries) && i < |tries| && Plain(tries[0].sent.packet)
    ensures Plain(tries[i].sent.packet) && tries[i].sent.packet.questions == tries[0].sent.packet.questions
    decreases i
  {
    hide GoodTry, Leads, Plain;
    if i > 0 {
      ChainKeepsQuestion(transport, server, deadline, tries, i - 1);
      StepKeepsQuestion(transport, server, deadline, tries[i - 1], tries[i]);
    }
  }

  lemma AttemptAnswered(
    first: SentQuery, transport: Protocol, server: Endpoint, deadline: Deadline, tries: seq<Try>, end: Moment,
    outcome: Result<Packet, ForwardError>)
    requires Follows(first, transport, server, deadline, tries, end, outcome) && outcome.Ok?
    ensures tries != [] && Answered(first, tries[|tries| - 1].sent, outcome.value)
  {
    hide Chain, GoodTry, Leads, Decide, Concludes, Plain, Validated, Packet.ResponseCode, AfterId;
    ChainIsThere(transport, server, deadline, tries);
    OutcomeIsLast(first, transport, server, deadline, tries, end, outcome);
    TryAnswers(tries[|tries| - 1], server, deadline);
    if |tries| > 1 {
      StepFacts(transport, server, deadline, tries[0], tries[1]);
      BadCookieFacts(first, tries[0].outcome.value);
      if Plain(first.packet) {
        ChainKeepsQuestion(transport, server, deadline, tries, |tries| - 1);
      }
    }
  }

  /** What an attempt hands back answers the query that it started from, and the octets of its last one. */
  lemma AttemptAnswers(
    query: Packet, id: TransactionId, transport: Protocol, server: Endpoint, deadline: Deadline, tries: seq<Try>,
    end: Moment, outcome: Result<Packet, ForwardError>)
    requires Faithful(query) && |query.wire| >= HEADER_LENGTH
    requires Follows(Sent(query, id), transport, server, deadline, tries, end, outcome) && outcome.Ok?
    ensures tries != [] && AnswersQuery(query, tries[|tries| - 1].sent, outcome.value)
    ensures var last := tries[|tries| - 1].sent;
            AnswersOctets(last.packet.wire, last.cookieRequired, outcome.value.wire)
  {
    hide Follows, Faithful, Answered, Sent, AnswersOctets, Validates, OptAgrees, Plain, Sound;
    AttemptAnswered(Sent(query, id), transport, server, deadline, tries, end, outcome);
    AnsweredQuery(query, id, tries[|tries| - 1].sent, outcome.value);
    ValidatedAnswers(tries[|tries| - 1].sent, outcome.value);
  }

  /** Validation of the decoded view is an answer octet by octet. */
  lemma ValidatedAnswers(sent: SentQuery, p: Packet)
    requires Validated(sent, p)
    ensures AnswersOctets(sent.packet.wire, sent.cookieRequired, p.wire)
  {
    hide Parse, Validates, AnswersOctets;
    AcceptedIffAnswers(sent, p.wire);
  }

  /** The server already has the cookie that it asks for, or a rewrite would move other records. */
  ghost predicate NothingToRewrite(sent: SentQuery, p: Packet) {
    SlotShaped(sent.packet) && (Retry(sent.packet, p) == Current || Retry(sent.packet, p) == ServerCookieRetry.Tcp)
  }

  /** BADCOOKIE is handed back only from TCP, and to a TCP client only after a rewrite if there is one. */
  lemma BadCookieIsSettled(
    first: SentQuery, transport: Protocol, server: Endpoint, deadline: Deadline, tries: seq<Try>, end: Moment,
    outcome: Result<Packet, ForwardError>)
    requires Follows(first, transport, server, deadline, tries, end, outcome)
    requires outcome.Ok? && outcome.value.ResponseCode() == BadCookie
    ensures var last := tries[|tries| - 1];
            && last.over == Protocol.Tcp
            && (transport == Protocol.Tcp ==> last.sent.cookieRequired || NothingToRewrite(last.sent, outcome.value))
  {
    var last := tries[|tries| - 1];
    hide Follows, GoodTry, Decide, Retry, Validated, Packet.ResponseCode, SlotShaped, NothingToRewrite, Heard;
    OutcomeIsLast(first, transport, server, deadline, tries, end, outcome);
    LastOver(first, transport, server, deadline, tries, end, outcome);
    TryAnswers(last, server, deadline);
    BadCookieIsNeverAbsent(last.sent, outcome.value);
    DoneWithBadCookie(transport, last);
  }

  /** An attempt is cancelled only when the stop flag is up. */
  lemma StoppedAttempt(
    first: SentQuery, transport: Protocol, server: Endpoint, deadline: Deadline, tries: seq<Try>, end: Moment,
    outcome: Result<Packet, ForwardError>)
    requires Follows(first, transport, server, deadline, tries, end, outcome)
    ensures outcome == Err(ShutdownRequested) ==> end.stop
  {
    hide Chain, Concludes, GoodTry;
    LastOver(first, transport, server, deadline, tries, end, outcome);
    StoppedConclusion(tries[|tries| - 1], transport, server, deadline, end, outcome);
  }

  lemma StoppedConclusion(
    t: Try, transport: Protocol, server: Endpoint, deadline: Deadline, end: Moment,
    outcome: Result<Packet, ForwardError>)
    requires GoodTry(t, server, deadline) && Concludes(transport, t, deadline, end, outcome)
    ensures outcome == Err(ShutdownRequested) ==> end.stop
  {
    hide Sound, Heard, UdpOutcome, OneWork, Validated, Retry, RetrySent, BadFrame, Flooded, SlotShaped, Before,
      Packet.ResponseCode;
  }

  lemma LastOver(
    first: SentQuery, transport: Protocol, server: Endpoint, deadline: Deadline, tries: seq<Try>, end: Moment,
    outcome: Result<Packet, ForwardError>)
    requires Follows(first, transport, server, deadline, tries, end, outcome)
    ensures tries != [] && GoodTry(tries[|tries| - 1], server, deadline)
    ensures transport == Protocol.Tcp ==> tries[|tries| - 1].over == Protocol.Tcp
  {
    hide Chain, Concludes, GoodTry, AfterId, Packet.ResponseCode;
    ChainShape(transport, server, deadline, tries);
    ChainIsThere(transport, server, deadline, tries);
  }

  lemma DoneWithBadCookie(transport: Protocol, t: Try)
    requires t.outcome.Ok? && t.outcome.value.ResponseCode() == BadCookie && Decide(transport, t) == Done(t.outcome)
    requires SlotShaped(t.sent.packet) && Retry(t.sent.packet, t.outcome.value) != Absent
    ensures transport == Protocol.Tcp && t.over == transport ==>
              t.sent.cookieRequired || NothingToRewrite(t.sent, t.outcome.value)
    ensures transport == Udp ==> t.over == Protocol.Tcp
  {
    hide Retry, Packet.ResponseCode;
  }

  // ----- what one server may be sent -----

  /** Everything that one server is sent during one request. */
  ghost predicate ServerWork(ss: seq<Transmission>, server: Endpoint, transport: Protocol) {
    && |ss| <= 8
    && (forall s :: s in ss ==> s.server == server && (transport == Protocol.Tcp ==> s.protocol == Protocol.Tcp))
    && (exists a, b, c :: ThreeMessages(ss, a, b, c))
    && (forall i, j :: 0 <= i < j < |ss| && ss[i].protocol == Udp && ss[j].protocol == Udp ==>
          AfterId(ss[i].wire) != AfterId(ss[j].wire))
    && (forall i, j, k :: 0 <= i < j < k < |ss| ==>
          !(ss[i].protocol == Udp && ss[j].protocol == Udp && ss[k].protocol == Udp))
  }

  ghost predicate ThreeMessages(ss: seq<Transmission>, a: seq<byte>, b: seq<byte>, c: seq<byte>) {
    forall s :: s in ss ==> s.wire == a || s.wire == b || s.wire == c
  }

  /** Eight sends at most, of three messages, two of them datagrams that differ behind their IDs. */
  lemma AttemptIsServerWork(
    first: SentQuery, transport: Protocol, server: Endpoint, deadline: Deadline, tries: seq<Try>, end: Moment,
    outcome: Result<Packet, ForwardError>)
    requires Follows(first, transport, server, deadline, tries, end, outcome)
    ensures ServerWork(TrySends(tries), server, transport)
    ensures TrySends(tries) != [] ==> TrySends(tries)[0] == Transmission(server, transport, first.packet.wire)
    ensures outcome.Ok? ==> EndsWith(TrySends(tries), tries[|tries| - 1].sent.packet.wire)
  {
    hide Chain, Concludes, OneWork, ServerWork, Packet.ResponseCode, AfterId, EndsWith, TrySends;
    ChainShape(transport, server, deadline, tries);
    TriesWork(transport, server, deadline, tries);
    OutcomeIsLast(first, transport, server, deadline, tries, end, outcome);
    ShortAttemptWork(tries, server, transport);
    ShortAttemptEnds(tries, server, transport);
  }

  /** The shape of an attempt, without what its exchanges mean. */
  ghost predicate ShortAttempt(tries: seq<Try>, server: Endpoint, transport: Protocol) {
    && 1 <= |tries| <= (if transport == Protocol.Tcp then 2 else 3) && tries[0].over == transport
    && (forall i :: 0 <= i < |tries| ==> OneWork(tries[i].sends, server, tries[i].over, tries[i].sent.packet.wire))
    && (forall i :: 0 <= i < |tries| - 1 ==> tries[i].sends != [])
    && (transport == Protocol.Tcp && |tries| > 1 ==> tries[1].over == Protocol.Tcp)
    && (|tries| == 3 ==> tries[1].over == Udp && tries[2].over == Protocol.Tcp)
    && (|tries| > 1 && tries[1].over == Udp ==>
          AfterId(tries[1].sent.packet.wire) != AfterId(tries[0].sent.packet.wire))
  }

  lemma ShortAttemptWork(tries: seq<Try>, server: Endpoint, transport: Protocol)
    requires ShortAttempt(tries, server, transport)
    ensures ServerWork(TrySends(tries), server, transport)
  {
    hide OneWork, ServerWork;
    var n, wire := |tries|, tries[0].sent.packet.wire;
    var u: seq<Transmission> := if n > 1 then tries[1].sends else [];
    var v: seq<Transmission> := if n > 2 then tries[2].sends else [];
    TrySendsUnrolled(tries, u, v);
    if transport == Protocol.Tcp {
      TcpAttempt(tries[0].sends, u, server, wire, if n > 1 then tries[1].sent.packet.wire else []);
    } else if n > 1 && tries[1].over == Udp {
      UdpAttempt(tries[0].sends, u, v, server, wire, tries[1].sent.packet.wire,
                 if n > 2 then tries[2].sent.packet.wire else []);
    } else {
      var other: seq<byte> := if AfterId(wire) == [] then [0, 0, 0] else [];
      UdpAttempt(tries[0].sends, [], u, server, wire, other, if n > 1 then tries[1].sent.packet.wire else []);
    }
  }

  lemma ThreePartsEnd(a: seq<Transmission>, b: seq<Transmission>, c: seq<Transmission>)
    ensures a != [] ==> (a + b + c)[0] == a[0]
    ensures a + b + c != [] ==>
              (a + b + c)[|a + b + c| - 1]
              == if c != [] then c[|c| - 1] else if b != [] then b[|b| - 1] else a[|a| - 1]
  {
  }

  lemma ShortAttemptEnds(tries: seq<Try>, server: Endpoint, transport: Protocol)
    requires ShortAttempt(tries, server, transport)
    ensures TrySends(tries) != [] ==>
              TrySends(tries)[0] == Transmission(server, transport, tries[0].sent.packet.wire)
    ensures tries[|tries| - 1].sends != [] ==> EndsWith(TrySends(tries), tries[|tries| - 1].sent.packet.wire)
  {
    hide OneWork, AfterId, TrySends;
    var n := |tries|;
    var u: seq<Transmission> := if n > 1 then tries[1].sends else [];
    var v: seq<Transmission> := if n > 2 then tries[2].sends else [];
    TrySendsUnrolled(tries, u, v);
    OneWorkIsUniform(tries[0].sends, server, transport, tries[0].sent.packet.wire);
    OneWorkIsUniform(tries[n - 1].sends, server, tries[n - 1].over, tries[n - 1].sent.packet.wire);
    ThreePartsEnd(tries[0].sends, u, v);
  }

  /** The work of each exchange; all but the last were answered, so something was sent. */
  lemma TriesWork(transport: Protocol, server: Endpoint, deadline: Deadline, tries: seq<Try>)
    requires Chain(transport, server, deadline, tries)
    ensures forall i :: 0 <= i < |tries| ==> OneWork(tries[i].sends, server, tries[i].over, tries[i].sent.packet.wire)
    ensures forall i :: 0 <= i < |tries| && tries[i].outcome.Ok? ==> tries[i].sends != []
  {
    hide Sound, Heard, UdpOutcome, OneWork, Leads, Validated, Excused;
  }

  lemma TrySendsUnrolled(tries: seq<Try>, u: seq<Transmission>, v: seq<Transmission>)
    requires 1 <= |tries| <= 3
    requires u == (if |tries| > 1 then tries[1].sends else []) && v == if |tries| > 2 then tries[2].sends else []
    ensures TrySends(tries) == tries[0].sends + u + v
  {
    hide TrySends;
    var one, two := [tries[0]], if |tries| > 1 then [tries[0], tries[1]] else [tries[0]];
    NoTrySends();
    TrySendsAppend([], tries[0]);
    assert [] + [tries[0]] == one;
    if |tries| > 1 {
      TrySendsAppend(one, tries[1]);
      assert one + [tries[1]] == two;
    }
    if |tries| > 2 {
      TrySendsAppend(two, tries[2]);
      assert two + [tries[2]] == tries;
    } else {
      assert tries == two;
    }
  }

  lemma NoTrySends()
    ensures TrySends([]) == []
  {
  }

  lemma TcpAttempt(a: seq<Transmission>, b: seq<Transmission>, server: Endpoint, wire: seq<byte>, w: seq<byte>)
    requires OneWork(a, server, Protocol.Tcp, wire) && (b == [] || OneWork(b, server, Protocol.Tcp, w))
    ensures ServerWork(a + b + [], server, Protocol.Tcp)
  {
    TcpAttemptShape(a, b, server, wire, w);
    assert a + b + [] == a + b;
  }

  lemma UdpAttempt(
    a: seq<Transmission>, b: seq<Transmission>, c: seq<Transmission>, server: Endpoint,
    wire: seq<byte>, w1: seq<byte>, w2: seq<byte>)
    requires OneWork(a, server, Udp, wire) && (b == [] || OneWork(b, server, Udp, w1))
    requires c == [] || OneWork(c, server, Protocol.Tcp, w2)
    requires AfterId(w1) != AfterId(wire)
    ensures ServerWork(a + b + c, server, Udp)
    ensures b == [] ==> ServerWork(a + c + [], server, Udp)
  {
    UdpAttemptShape(a, b, c, server, wire, w1, w2);
    ShapeIsServerWork(a + b + c, server, |a|, wire, w1, w2);
    assert b == [] ==> a + b + c == a + c + [];
  }

  lemma TcpAttemptShape(a: seq<Transmission>, b: seq<Transmission>, server: Endpoint, wire: seq<byte>, w: seq<byte>)
    requires TcpWork(a, server, wire) && TcpWork(b, server, w)
    ensures ServerWork(a + b, server, Protocol.Tcp)
  {
    var ss := a + b;
    assert ThreeMessages(ss, wire, w, w);
    forall i | 0 <= i < |ss| ensures ss[i].protocol == Protocol.Tcp {
      assert ss[i] in a || ss[i] in b;
    }
    hide AfterId, TcpWork;
  }

  /** Datagrams are only at the start and at `k`, where a retry with other bytes starts. */
  ghost predicate UdpShape(
    ss: seq<Transmission>, server: Endpoint, k: nat, wire: seq<byte>, w1: seq<byte>, w2: seq<byte>)
  {
    forall i :: 0 <= i < |ss| ==>
      && ss[i].server == server
      && (ss[i].wire == wire || ss[i].wire == w1 || ss[i].wire == w2)
      && (ss[i].protocol == Udp ==> (i == 0 < k && ss[i].wire == wire) || (i == k && ss[i].wire == w1))
  }

  lemma UdpAttemptShape(
    a: seq<Transmission>, b: seq<Transmission>, c: seq<Transmission>, server: Endpoint,
    wire: seq<byte>, w1: seq<byte>, w2: seq<byte>)
    requires UdpWork(a, server, wire) && UdpWork(b, server, w1) && TcpWork(c, server, w2)
    ensures UdpShape(a + b + c, server, |a|, wire, w1, w2) && |a + b + c| <= 8
  {
    UdpWorkShape(a, server, wire);
    UdpWorkShape(b, server, w1);
    hide UdpWork;
    var ss := a + b + c;
    forall i | 0 <= i < |ss|
      ensures ss[i] == if i < |a| then a[i] else if i < |a| + |b| then b[i - |a|] else c[i - |a| - |b|]
    {
    }
    assert forall i :: 0 <= i < |c| ==> c[i] in c;
  }

  lemma ShapeIsServerWork(
    ss: seq<Transmission>, server: Endpoint, k: nat, wire: seq<byte>, w1: seq<byte>, w2: seq<byte>)
    requires UdpShape(ss, server, k, wire, w1, w2) && |ss| <= 8
    requires AfterId(w1) != AfterId(wire)
    ensures ServerWork(ss, server, Udp)
  {
    assert ThreeMessages(ss, wire, w1, w2);
    hide AfterId;
  }

}
