/** What the handler answers to any client packet, whom it asks for it, and when it is silent (src/forwarding.rs). */
module Forwarding {
  import opened Outcomes
  import opened Bytes
  import opened Names
  import opened Types
  import opened Messages
  import opened Records
  import opened Reader
  import opened HeaderEdits
  import opened Cookies
  import opened CookieRetry
  import opened Replies
  import opened ReplyMeaning
  import opened ReplyContent
  import opened SentQueries
  import opened Transport
  import opened Routing
  import opened Exchanges
  import opened Attempts
  import opened Walks
  import opened WireMeaning
  import opened Upstream

  /** Every group of a table was validated when it was configured. */
  ghost predicate ValidGroups(table: RoutingTable) {
    && (table.fallback.Some? ==> table.fallback.value.Valid())
    && forall r :: r in table.routes ==> r.policy.Valid()
  }

  /** The servers that a client packet may reach: those of the one group its name selects. */
  function EligibleServers(table: RoutingTable, wire: seq<byte>): seq<Endpoint> {
    match Parse(wire)
    case Err(_) => []
    case Ok(p) =>
      if !p.Forwardable() then []
      else
        match Select(table, p.questions[0].name)
        case Default(group) => group.servers
        case Routed(route) => route.policy.servers
        case Local(_) => []
        case Unmatched => []
  }

  /** The packet is a query to be forwarded to some group. */
  predicate SelectsGroup(table: RoutingTable, wire: seq<byte>) {
    match Parse(wire)
    case Err(_) => false
    case Ok(p) =>
      p.Forwardable()
      && match Select(table, p.questions[0].name)
         case Default(_) => true
         case Routed(_) => true
         case Local(_) => false
         case Unmatched => false
  }

  /** The size a client accepts over UDP; a packet that does not parse gets the classic bound. */
  function ClientLimit(wire: seq<byte>): nat {
    match Parse(wire)
    case Err(_) => CLASSIC_UDP_LENGTH
    case Ok(p) => p.UdpLimit()
  }

  /** What `reply` means to the client that sent `wire`. */
  ghost predicate RepliesTo(wire: seq<byte>, transport: Protocol, reply: seq<byte>) {
    && Parse(reply).Ok?
    && var r := Parse(reply).value;
       && ParseHeader(wire).Ok?
       && r.header.MessageType() == ResponseMessage
       && r.header.id == ParseHeader(wire).value.id
       && (transport == Udp ==> |reply| <= ClientLimit(wire))
       && match Parse(wire)
          case Err(_) => r.ResponseCode() == FormatError
          case Ok(p) =>
            match p.ValidateQuery()
            case Reject(code) => r.ResponseCode() == code
            case Forward => Plain(p) || p.cookie.None? ==> r.CorrespondsTo(p, p.header.id)
            case Ignore => false
  }

  /** The outcome of an exchange, if the name of the query selects a group. */
  type Exchanged = Option<Result<Packet, ForwardError>>

  /** A response that can be relayed or summarised. */
  predicate Usable(exchanged: Exchanged) {
    exchanged.Some? && exchanged.value.Ok? ==>
      SlotInWire(exchanged.value.value) && |exchanged.value.value.wire| >= HEADER_LENGTH
  }

  /** The reply to a forwardable query. */
  function QueryReply(table: RoutingTable, p: Packet, transport: Protocol, exchanged: Exchanged): Option<seq<byte>>
    requires p.Forwardable() && SlotInWire(p) && Usable(exchanged)
  {
    match Select(table, p.questions[0].name)
    case Local(record) => LocalAReply(p, record.policy)
    case Unmatched => LocalErrorReply(p, NameError)
    case _ =>
      match exchanged
      case None => None
      case Some(Err(e)) => if e == ShutdownRequested then None else LocalErrorReply(p, ServerFailure)
      case Some(Ok(response)) =>
        if transport == Udp && |response.wire| > p.UdpLimit() then Some(TruncatedReply(p, response))
        else Some(response.WithId(p.header.id))
  }

  /** The exact reply to any packet, before RA is cleared, or silence. */
  ghost function ReplyTo(table: RoutingTable, wire: seq<byte>, transport: Protocol, exchanged: Exchanged)
    : Option<seq<byte>>
  {
    match Parse(wire)
    case Err(failure) => if failure.context.Some? then Some(FormatReply(failure.context.value)) else None
    case Ok(p) =>
      if !SlotInWire(p) || !Usable(exchanged) then None
      else
        match p.ValidateQuery()
        case Ignore => None
        case Reject(code) => LocalErrorReply(p, code)
        case Forward => QueryReply(table, p, transport, exchanged)
  }

  /** A service without upstreams offers no recursion. */
  ghost predicate FinalReplyIs(
    table: RoutingTable, wire: seq<byte>, transport: Protocol, exchanged: Exchanged, reply: seq<byte>)
  {
    exists inner ::
      && ReplyTo(table, wire, transport, exchanged) == Some(inner) && |inner| >= HEADER_LENGTH
      && reply == if table.HasUpstreams() then inner else WithoutRecursion(inner)
  }

  function ResultOf(walk: Option<Walk>): Exchanged {
    if walk.Some? then Some(walk.value.result) else None
  }

  /**
   * What was sent for a client packet between two moments is the work of one good walk over the servers its
   * name selects; before and after it there are only checks, `lead` and `tail` of which may find time left. A
   * packet that selects no group causes no work at all.
   */
  ghost predicate Walked(
    table: RoutingTable, wire: seq<byte>, transport: Protocol, deadline: Deadline, sends: seq<Transmission>,
    walk: Option<Walk>, before: Moment, after: Moment, lead: nat, tail: nat)
  {
    match walk
    case None => sends == [] && Idle(before, after, lead + tail)
    case Some(w) =>
      && SelectsGroup(table, wire)
      && sends == SendsOf(w.attempts)
      && Idle(before, w.begin, lead) && Idle(w.end, after, tail)
      && GoodWalk(Parse(wire).value, EligibleServers(table, wire), transport, deadline, w)
  }

  /** Silence without a cause in time or shutdown: a packet that must not, or cannot safely, be answered. */
  ghost predicate Silent(wire: seq<byte>) {
    |wire| > 65535 || |wire| < 12 || IsResponse(wire) || BringsServerCookie(wire)
  }

  /** Only such packets are answered by silence, unless an exchange was due and never ran or was cancelled. */
  lemma SilenceHasReason(table: RoutingTable, wire: seq<byte>, transport: Protocol, exchanged: Exchanged)
    requires Usable(exchanged) && ReplyTo(table, wire, transport, exchanged).None?
    ensures Silent(wire) || (SelectsGroup(table, wire) && exchanged in {None, Some(Err(ShutdownRequested))})
  {
    hide Parse, ErrorReply, TruncatedReply, FormatReply, ReplyWire, Find, IsSubdomainOf, SuppliesServerCookie,
      BringsServerCookie, IsResponse, Header.MessageType;
    if |wire| >= 12 {
      HeaderMeaning(wire);
      match Parse(wire) {
        case Err(_) =>
          if ParseHeader(wire).value.MessageType() == QueryMessage {
            FailuresHaveContext(wire);
          }
        case Ok(p) =>
          ParsedIsFaithful(wire);
          FaithfulHeader(p);
          AcceptedCookies(p);
          ServerCookieMeaning(p);
      }
    }
  }

  // ----- each kind of reply -----

  lemma FormatReplyRepliesTo(wire: seq<byte>, transport: Protocol)
    requires Parse(wire).Err? && Parse(wire).error.context.Some?
    ensures RepliesTo(wire, transport, FormatReply(Parse(wire).error.context.value))
  {
    hide Parse, FormatReply;
    FormatReplyAnswers(wire);
  }

  /** A query that does not parse has a context, unless it is oversized or has no header. */
  lemma FailuresHaveContext(wire: seq<byte>)
    requires Parse(wire).Err? && ParseHeader(wire).Ok? && ParseHeader(wire).value.MessageType() == QueryMessage
    ensures |wire| > MAX_MESSAGE_LENGTH || Parse(wire).error.context.Some?
  {
    hide QuestionsAt, ReadRecords, CountsFit;
  }

  lemma RejectionRepliesTo(p: Packet, transport: Protocol)
    requires Faithful(p) && p.ValidateQuery().Reject?
    ensures RepliesTo(p.wire, transport, ErrorReply(p, p.ValidateQuery().code))
  {
    hide Parse, ErrorReply;
    FaithfulHeader(p);
    RejectionCodeFits(p);
    RejectionParses(p, p.ValidateQuery().code);
  }

  lemma ErrorRepliesTo(p: Packet, transport: Protocol, code: ResponseCode)
    requires Faithful(p) && p.Forwardable() && code.Wire() < 16
    ensures RepliesTo(p.wire, transport, ErrorReply(p, code))
  {
    hide Parse, ErrorReply, Plain;
    FaithfulHeader(p);
    ErrorReplyAnswers(p, code);
  }

  lemma LocalRepliesTo(p: Packet, transport: Protocol, answer: LocalAnswer)
    requires Faithful(p) && p.Forwardable() && SlotInWire(p) && LocalAReply(p, answer).Some?
    ensures RepliesTo(p.wire, transport, LocalAReply(p, answer).value)
  {
    hide Parse, LocalAReply, Plain, RecordAt, Holds;
    FaithfulHeader(p);
    LocalAReplyAnswers(p, answer);
  }

  lemma TruncatedRepliesTo(p: Packet, transport: Protocol, last: SentQuery, response: Packet)
    requires Faithful(p) && p.Forwardable() && AnswersQuery(p, last, response)
    ensures SlotInWire(response)
    ensures RepliesTo(p.wire, transport, TruncatedReply(p, response))
  {
    hide Parse, TruncatedReply, Plain, Sound, Validates;
    FaithfulHeader(p);
    TruncatedReplyKeepsMeaning(p, response);
  }

  /** The upstream response under the client's ID. */
  lemma RelayRepliesTo(p: Packet, transport: Protocol, last: SentQuery, response: Packet)
    requires Faithful(p) && p.Forwardable() && AnswersQuery(p, last, response)
    requires transport == Udp ==> |response.wire| <= p.UdpLimit()
    ensures |response.wire| >= HEADER_LENGTH
    ensures RepliesTo(p.wire, transport, response.WithId(p.header.id))
  {
    hide Parse, Plain, Sound, ValidResponse;
    FaithfulHeader(p);
    FaithfulHeader(response);
    WithIdIsSound(response, p.header.id);
  }

  /** Clearing RA keeps the meaning of a reply. */
  lemma WithoutRecursionRepliesTo(wire: seq<byte>, transport: Protocol, reply: seq<byte>)
    requires RepliesTo(wire, transport, reply)
    ensures |reply| >= HEADER_LENGTH
    ensures RepliesTo(wire, transport, WithoutRecursion(reply))
    ensures Octet(WithoutRecursion(reply), 3) < 0x80
  {
    hide Parse, Plain;
    ParsedIsFaithful(reply);
    WithoutRecursionIsSound(Parse(reply).value);
  }

  // ----- what a reply says -----

  /** What a walk for `p` is good for: servers of the selected group, and a response that answers the query. */
  ghost predicate Serves(table: RoutingTable, p: Packet, walk: Option<Walk>) {
    walk.Some? ==>
      && SelectsGroup(table, p.wire)
      && Visits(walk.value, EligibleServers(table, p.wire))
      && (walk.value.result.Ok? ==> exists last :: AnswersQuery(p, last, walk.value.result.value))
  }

  lemma GoodWalkServes(
    table: RoutingTable, p: Packet, transport: Protocol, deadline: Deadline, w: Walk)
    requires Faithful(p) && SelectsGroup(table, p.wire)
    requires GoodWalk(p, EligibleServers(table, p.wire), transport, deadline, w)
    ensures Serves(table, p, Some(w))
  {
    hide Faithful, SelectsGroup, EligibleServers, GoodAttempt, Chronological, LastResponse, AnswersQuery, ServerWork,
      EndsWith, Packet.CombinedCode, Before, Prompt, NothingMoved, Missed;
    if w.result.Ok? {
      var i := LastResponseIsLast(w.attempts);
      if Final(w.attempts[|w.attempts| - 1]) {
        i := |w.attempts| - 1;
      }
      AttemptMeaning(p, transport, deadline, w.attempts[i]);
    }
  }

  lemma RelayedOctets(p: Packet, response: Packet)
    requires Faithful(p) && |response.wire| >= HEADER_LENGTH
    ensures var reply := response.WithId(p.header.id);
            && |reply| == |response.wire| && Number(reply, 0) == Number(p.wire, 0) && reply[2..] == response.wire[2..]
  {
    hide Parse;
    FaithfulHeader(p);
  }

  lemma OutcomeSays(
    p: Packet, m: Reading, transport: Protocol, outcome: Result<Packet, ForwardError>, table: RoutingTable,
    reply: seq<byte>)
    requires Faithful(p) && p.Forwardable() && SlotInWire(p) && Reads(p.wire, m) && Usable(Some(outcome))
    requires SelectsGroup(table, p.wire) && QueryReply(table, p, transport, Some(outcome)) == Some(reply)
    requires outcome.Ok? ==> exists last :: AnswersQuery(p, last, outcome.value)
    ensures SaysOutcome(p.wire, m, transport, outcome, reply)
  {
    hide Parse, Reads, ErrorReply, TruncatedReply, Find, Packet.Forwardable, Carries, SuppliesServerCookie,
      BringsServerCookie, TooLong, LocalAReply, Plain, Validates, Sound, Packet.UdpLimit, Packet.WithId,
      Packet.CombinedCode;
    ForwardableHasQuestion(p);
    match outcome {
      case Err(_) =>
        ErrorCarries(p, ServerFailure);
        ServerCookieMeaning(p);
      case Ok(response) =>
        var last :| AnswersQuery(p, last, response);
        LimitMeaning(p.wire, m, |response.wire|);
        TruncatedCarries(p, response);
        RelayedOctets(p, response);
    }
  }

  /** The reply to an acceptable query says what the selection calls for. */
  lemma SelectedSays(
    table: RoutingTable, p: Packet, m: Reading, transport: Protocol, walk: Option<Walk>, reply: seq<byte>)
    requires Prepared(table) && Faithful(p) && p.Forwardable() && SlotInWire(p) && Reads(p.wire, m)
    requires Serves(table, p, walk) && Usable(ResultOf(walk))
    requires QueryReply(table, p, transport, ResultOf(walk)) == Some(reply)
    ensures SaysSelected(p.wire, m, transport, Select(table, p.questions[0].name), walk, reply)
  {
    hide Parse, Reads, ErrorReply, TruncatedReply, Find, Packet.Forwardable, Carries, SuppliesServerCookie,
      BringsServerCookie, LocalAReply, AnswersQuery, SaysOutcome, SaysLocal, Visits, Prepared;
    ForwardableHasQuestion(p);
    SelectedServers(table, p);
    ServerCookieMeaning(p);
    match Select(table, p.questions[0].name) {
      case Local(record) => LocalSays(p, m, record.policy);
      case Unmatched => ErrorCarries(p, NameError);
      case _ => OutcomeSays(p, m, transport, walk.value.result, table, reply);
    }
  }

  lemma ReplySaysFor(
    table: RoutingTable, p: Packet, m: Reading, transport: Protocol, walk: Option<Walk>, reply: seq<byte>)
    requires Prepared(table) && Faithful(p) && Reads(p.wire, m) && Usable(ResultOf(walk))
    requires Serves(table, p, walk)
    requires ReplyTo(table, p.wire, transport, ResultOf(walk)) == Some(reply)
    ensures SaysFor(table, p.wire, transport, walk, reply, m)
  {
    hide Parse, Reads, ErrorReply, QueryReply, Carries, SuppliesServerCookie, BringsServerCookie, SaysSelected, Visits,
      Select, Wins, Acceptable, RefusedWith, IsResponse, SelectsGroup, Packet.ValidateQuery, DistinctRules;
    UnforwardableSelectsNothing(table, p.wire);
    DecisionMeaning(p.wire, m);
    QuestionMeaning(p.wire, m);
    ServerCookieMeaning(p);
    match p.ValidateQuery() {
      case Ignore =>
      case Reject(code) =>
        RejectionCodeFits(p);
        ErrorCarries(p, code);
      case Forward =>
        ForwardableHasQuestion(p);
        var name := p.questions[0].name;
        SelectedSays(table, p, m, transport, walk, reply);
        PreparedSelectsLongest(table, name);
        forall s | Wins(table.fallback, table.routes, table.local, name, s) ensures s == Select(table, name) {
          WinnerIsUnique(table.fallback, table.routes, table.local, name, s, Select(table, name));
        }
    }
  }

  /** The reply before RA is cleared says what is due. */
  lemma ReplySays(table: RoutingTable, wire: seq<byte>, transport: Protocol, walk: Option<Walk>, reply: seq<byte>)
    requires Prepared(table) && Usable(ResultOf(walk))
    requires walk.Some? ==> Parse(wire).Ok? && Serves(table, Parse(wire).value, walk)
    requires ReplyTo(table, wire, transport, ResultOf(walk)) == Some(reply)
    ensures SaysWhatIsDue(table, wire, transport, walk, reply)
  {
    hide Parse, Reads, ErrorReply, FormatReply, QueryReply, Packet.Forwardable, Carries, SuppliesServerCookie,
      BringsServerCookie, SaysSelected, Visits, Prepared, Select, Wins, Acceptable, RefusedWith, IsResponse;
    UnforwardableSelectsNothing(table, wire);
    match Parse(wire) {
      case Err(_) => FormatCarries(wire);
      case Ok(p) =>
        ParsedIsFaithful(wire);
        forall m | Reads(wire, m) ensures SaysFor(table, wire, transport, walk, reply, m) {
          ReplySaysFor(table, p, m, transport, walk, reply);
        }
    }
  }

  // ----- the handler -----

  /** The handler of one worker: a fixed table and a forwarder whose stream no other handler shares. */
  class RequestHandler {
    const table: RoutingTable
    const forwarder: Forwarder

    constructor (table: RoutingTable, forwarder: Forwarder)
      ensures this.table == table && this.forwarder == forwarder
    {
      this.table, this.forwarder := table, forwarder;
    }

    ghost predicate Valid()
      reads this, forwarder, forwarder.os, forwarder.Streams()
    {
      forwarder.Valid() && ValidGroups(table) && Prepared(table)
    }

    /** The reply to a query that may be forwarded, and the walk if its name selects a group. */
    method RespondToQuery(packet: Packet, transport: Protocol, deadline: Deadline)
      returns (r: Option<seq<byte>>, ghost t: Trace, ghost walk: Option<Walk>)
      requires Valid() && Faithful(packet) && packet.Forwardable() && SlotInWire(packet)
      modifies forwarder, forwarder.os, forwarder.Streams()
      ensures Valid() && fresh(forwarder.Streams() - old(forwarder.Streams()))
      ensures Before(old(forwarder.os.Seen()), forwarder.os.Seen())
      ensures forwarder.os.sends == old(forwarder.os.sends) + t.sends
      ensures forwarder.os.stamps == old(forwarder.os.stamps) + t.stamps
      ensures t.Within(deadline)
      ensures forall s :: s in t.sends ==> s.server in EligibleServers(table, packet.wire)
      ensures SelectsGroup(table, packet.wire) ==> walk.Some?
      ensures Walked(table, packet.wire, transport, deadline, t.sends, walk,
                     old(forwarder.os.Seen()), forwarder.os.Seen(), 0, 1)
      ensures r.Some? ==> RepliesTo(packet.wire, transport, r.value)
      ensures r.Some? ==> SaysWhatIsDue(table, packet.wire, transport, walk, r.value)
      ensures Usable(ResultOf(walk)) && (r.Some? ==> r == QueryReply(table, packet, transport, ResultOf(walk)))
      ensures r.None? ==>
                || forwarder.os.stop || forwarder.os.now >= deadline.at
                || QueryReply(table, packet, transport, ResultOf(walk)).None?
    {
      hide Parse, RepliesTo, LocalAReply, ErrorReply, TruncatedReply, Sound, Validated, Synchronized, Plain, ServerWork,
        GoodWalk, SendsOf, AnswersQuery, Find, Packet.Forwardable, SelectsGroup, EligibleServers, Prepared,
        SaysWhatIsDue;
      var os := forwarder.os;
      t, walk := Trace([], []), None;
      IdleItself(os.Seen());
      FaithfulHeader(packet);
      ForwardableHasQuestion(packet);
      SelectedGroup(table, packet.questions[0].name);
      SelectedServers(table, packet);
      var group;
      match Select(table, packet.questions[0].name) {
        case Local(record) =>
          r := BuildLocalAReply(packet, record.policy);
          if r.Some? {
            LocalRepliesTo(packet, transport, record.policy);
          }
          QuerySays(packet, transport, deadline, None, r);
          return;
        case Unmatched =>
          r := BuildErrorReply(packet, NameError);
          ErrorRepliesTo(packet, transport, NameError);
          QuerySays(packet, transport, deadline, None, r);
          return;
        case Default(fallback) => group := fallback;
        case Routed(route) => group := route.policy;
      }
      var forwarded;
      ghost var done, last;
      forwarded, t, done, last := forwarder.Forward(packet, group, transport, deadline);
      walk := Some(done);
      IdleItself(done.begin);
      GoodWalkOrder(packet, group.servers, transport, deadline, done);
      if forwarded.Ok? {
        AnswersAreUsable(packet, last, forwarded.value);
      }
      r := RelayOutcome(packet, transport, deadline, forwarded, last);
      QuerySays(packet, transport, deadline, walk, r);
    }

    /** The reply to a forwardable query says what is due. */
    lemma QuerySays(p: Packet, transport: Protocol, deadline: Deadline, walk: Option<Walk>, r: Option<seq<byte>>)
      requires Prepared(table) && Faithful(p) && p.Forwardable() && SlotInWire(p) && Usable(ResultOf(walk))
      requires walk.Some? ==>
                 && SelectsGroup(table, p.wire)
                 && GoodWalk(p, EligibleServers(table, p.wire), transport, deadline, walk.value)
      ensures r.Some? && r == QueryReply(table, p, transport, ResultOf(walk)) ==>
                SaysWhatIsDue(table, p.wire, transport, walk, r.value)
    {
      hide Parse, Prepared, QueryReply, SaysWhatIsDue, GoodWalk, Serves, EligibleServers, SelectsGroup;
      if r.Some? && r == QueryReply(table, p, transport, ResultOf(walk)) {
        if walk.Some? {
          GoodWalkServes(table, p, transport, deadline, walk.value);
        }
        ReplySays(table, p.wire, transport, walk, r.value);
      }
    }

    /** What an exchange that ended means for the client, if there is still time to say it. */
    method RelayOutcome(
      packet: Packet, transport: Protocol, deadline: Deadline, forwarded: Result<Packet, ForwardError>,
      ghost last: SentQuery)
      returns (r: Option<seq<byte>>)
      requires forwarder.os.Valid()
      requires Faithful(packet) && packet.Forwardable() && SlotInWire(packet) && SelectsGroup(table, packet.wire)
      requires forwarded.Ok? ==> AnswersQuery(packet, last, forwarded.value)
      requires Usable(Some(forwarded))
      modifies forwarder.os`now, forwarder.os`stop, forwarder.os`patience, forwarder.os`cleared,
               forwarder.os`checks, forwarder.os`lapses
      ensures Idle(old(forwarder.os.Seen()), forwarder.os.Seen(), 1)
      ensures r.Some? ==> RepliesTo(packet.wire, transport, r.value)
      ensures r.Some? ==> r == QueryReply(table, packet, transport, Some(forwarded))
      ensures r.None? ==>
                || forwarder.os.stop || forwarder.os.now >= deadline.at
                || QueryReply(table, packet, transport, Some(forwarded)).None?
    {
      hide Parse, RepliesTo, LocalAReply, ErrorReply, TruncatedReply, Find, Packet.Forwardable, AnswersQuery;
      if forwarded.Err? && forwarded.error == ShutdownRequested {
        return None;
      }
      var left := forwarder.os.Remaining(deadline);
      if left.Err? {
        return None;
      }
      match forwarded {
        case Err(_) =>
          r := BuildErrorReply(packet, ServerFailure);
          ErrorRepliesTo(packet, transport, ServerFailure);
        case Ok(response) =>
          if transport == Udp && |response.wire| > packet.UdpLimit() {
            TruncatedRepliesTo(packet, transport, last, response);
            var wire := BuildTruncatedReply(packet, response);
            return Some(wire);
          }
          RelayRepliesTo(packet, transport, last, response);
          return Some(response.WithId(packet.header.id));
      }
    }

    /** The reply before RA is cleared for a service without upstreams. */
    method RespondInner(wire: seq<byte>, transport: Protocol, deadline: Deadline)
      returns (r: Option<seq<byte>>, ghost t: Trace, ghost walk: Option<Walk>)
      requires Valid()
      modifies forwarder, forwarder.os, forwarder.Streams()
      ensures Valid() && fresh(forwarder.Streams() - old(forwarder.Streams()))
      ensures Before(old(forwarder.os.Seen()), forwarder.os.Seen())
      ensures forwarder.os.sends == old(forwarder.os.sends) + t.sends
      ensures forwarder.os.stamps == old(forwarder.os.stamps) + t.stamps
      ensures t.Within(deadline)
      ensures forall s :: s in t.sends ==> s.server in EligibleServers(table, wire)
      ensures Walked(table, wire, transport, deadline, t.sends, walk,
                     old(forwarder.os.Seen()), forwarder.os.Seen(), 1, 1)
      ensures r.Some? ==> RepliesTo(wire, transport, r.value)
      ensures Usable(ResultOf(walk)) && (r.Some? ==> r == ReplyTo(table, wire, transport, ResultOf(walk)))
      ensures r.None? ==>
                || forwarder.os.stop || forwarder.os.now >= deadline.at
                || (ReplyTo(table, wire, transport, ResultOf(walk)).None?
                    && (SelectsGroup(table, wire) ==> walk.Some?))
    {
      hide Parse, RepliesTo, ErrorReply, FormatReply, Synchronized, EligibleServers, SelectsGroup, SuppliesServerCookie,
        QueryReply, GoodWalk, SlotInWire, SlotShaped, Before;
      var os := forwarder.os;
      ghost var start := os.Seen();
      t, walk := Trace([], []), None;
      var left := os.Remaining(deadline);
      if left.Err? {
        return None, t, walk;
      }
      var header := ParseHeader(wire);
      if header.Err? {
        UnansweredHasNoReply(table, wire, transport);
        return None, t, walk;
      }
      if header.value.MessageType() != QueryMessage {
        UnansweredHasNoReply(table, wire, transport);
        return None, t, walk;
      }
      var parsed := ParseMessage(wire);
      UnforwardableSelectsNothing(table, wire);
      if parsed.Err? || parsed.value.ValidateQuery() != Forward {
        r := AnswerLocally(wire, transport, parsed);
        return;
      }
      ParsedIsFaithful(wire);
      AcceptedCookies(parsed.value);
      ghost var entered := os.Seen();
      r, t, walk := RespondToQuery(parsed.value, transport, deadline);
      BeforeTrans(start, entered, os.Seen());
      IdleItself(os.Seen());
      WalkedWider(table, wire, transport, deadline, t.sends, walk, start, entered, os.Seen(), os.Seen(), 1, 0, 1, 0);
    }

    /** The reply to a packet that does not parse or is rejected. */
    method AnswerLocally(wire: seq<byte>, transport: Protocol, parsed: Result<Packet, ParseFailure>)
      returns (r: Option<seq<byte>>)
      requires parsed == Parse(wire) && (parsed.Ok? ==> !parsed.value.Forwardable())
      ensures r == ReplyTo(table, wire, transport, None)
      ensures r.Some? ==> RepliesTo(wire, transport, r.value)
    {
      hide Parse, RepliesTo, ErrorReply, FormatReply, SuppliesServerCookie, QueryReply;
      match parsed {
        case Err(failure) =>
          if failure.context.None? {
            return None;
          }
          FormatReplyRepliesTo(wire, transport);
          var reply := BuildFormatReply(failure.context.value);
          return Some(reply);
        case Ok(packet) =>
          ParsedIsFaithful(wire);
          AcceptedCookies(packet);
          match packet.ValidateQuery() {
            case Ignore => return None;
            case Reject(code) =>
              r := BuildErrorReply(packet, code);
              RejectionRepliesTo(packet, transport);
          }
      }
    }

    /**
     * The reply to a client, or silence. Every reply means what the packet calls for; what was sent for it is one
     * good walk; and silence has its cause in the packet, the time or a stop.
     */
    method Respond(wire: seq<byte>, transport: Protocol, deadline: Deadline)
      returns (r: Option<seq<byte>>, ghost t: Trace, ghost walk: Option<Walk>)
      requires Valid()
      modifies forwarder, forwarder.os, forwarder.Streams()
      ensures Valid() && fresh(forwarder.Streams() - old(forwarder.Streams()))
      ensures forwarder.os.sends == old(forwarder.os.sends) + t.sends
      ensures forwarder.os.stamps == old(forwarder.os.stamps) + t.stamps
      ensures t.Within(deadline)
      ensures forall s :: s in t.sends ==> s.server in EligibleServers(table, wire)
      ensures Walked(table, wire, transport, deadline, t.sends, walk,
                     old(forwarder.os.Seen()), forwarder.os.Seen(), 1, 2)
      ensures r.Some? ==> RepliesTo(wire, transport, r.value)
      ensures Usable(ResultOf(walk)) && (r.Some? ==> FinalReplyIs(table, wire, transport, ResultOf(walk), r.value))
      ensures r.Some? ==> SaysWhatIsDue(table, wire, transport, walk, r.value)
      ensures r.Some? && table.fallback.None? && table.routes == [] ==> Octet(r.value, 3) < 0x80
      ensures r.None? ==> forwarder.os.stop || forwarder.os.now >= deadline.at || Silent(wire)
      ensures r.None? ==>
                || forwarder.os.stop || forwarder.os.now >= deadline.at
                || (ReplyTo(table, wire, transport, ResultOf(walk)).None?
                    && (SelectsGroup(table, wire) ==> walk.Some?))
      ensures |wire| >= 12 && IsResponse(wire) ==> r.None? && t.sends == []
    {
      hide Parse, RepliesTo, Synchronized, EligibleServers, SelectsGroup, Silent, ReplyTo, Usable, GoodWalk, Prepared,
        SaysWhatIsDue, IsResponse, WithoutRecursion;
      UnansweredSelectsNothing(table, wire, transport);
      ghost var entered := forwarder.os.Seen();
      r, t, walk := RespondInner(wire, transport, deadline);
      ghost var inner, answered := r, forwarder.os.Seen();
      if r.None? {
        SilenceOf(table, wire, transport, deadline, walk, t.sends, entered, answered, 1, 1);
        return;
      }
      ReplyHasHeader(wire, transport, r.value);
      var left := forwarder.os.Remaining(deadline);
      IdleItself(entered);
      WalkedWider(table, wire, transport, deadline, t.sends, walk, entered, entered, answered, forwarder.os.Seen(),
                  0, 1, 1, 1);
      if left.Err? {
        return None, t, walk;
      }
      if !table.HasUpstreams() {
        WithoutRecursionRepliesTo(wire, transport, r.value);
        r := Some(WithoutRecursion(r.value));
      }
      FinalReply(table, wire, transport, ResultOf(walk), inner.value, r.value);
      FinalSays(table, wire, transport, deadline, t.sends, walk, entered, forwarder.os.Seen(), inner.value, r.value);
    }
  }

  lemma FinalSays(
    table: RoutingTable, wire: seq<byte>, transport: Protocol, deadline: Deadline, sends: seq<Transmission>,
    walk: Option<Walk>, before: Moment, after: Moment, inner: seq<byte>, reply: seq<byte>)
    requires Prepared(table) && Walked(table, wire, transport, deadline, sends, walk, before, after, 1, 2)
    requires Usable(ResultOf(walk)) && ReplyTo(table, wire, transport, ResultOf(walk)) == Some(inner)
    requires |inner| >= 12 && reply == if table.HasUpstreams() then inner else WithoutRecursion(inner)
    ensures SaysWhatIsDue(table, wire, transport, walk, reply)
  {
    hide Parse, Prepared, ReplyTo, Usable, SaysWhatIsDue, GoodWalk, Serves, EligibleServers, WithoutRecursion,
      RoutingTable.HasUpstreams;
    if walk.Some? {
      ParsedIsFaithful(wire);
      GoodWalkServes(table, Parse(wire).value, transport, deadline, walk.value);
    }
    ReplySays(table, wire, transport, walk, inner);
    if !table.HasUpstreams() {
      SaysTheSame(table, wire, transport, walk, inner);
    }
  }

  lemma FinalReply(
    table: RoutingTable, wire: seq<byte>, transport: Protocol, exchanged: Exchanged, inner: seq<byte>, reply: seq<byte>)
    requires ReplyTo(table, wire, transport, exchanged) == Some(inner) && |inner| >= HEADER_LENGTH
    requires reply == if table.HasUpstreams() then inner else WithoutRecursion(inner)
    ensures FinalReplyIs(table, wire, transport, exchanged, reply)
  {
    hide ReplyTo, WithoutRecursion;
  }

  lemma ReplyHasHeader(wire: seq<byte>, transport: Protocol, reply: seq<byte>)
    requires RepliesTo(wire, transport, reply)
    ensures |reply| >= HEADER_LENGTH
  {
    hide Parse, Plain;
    ParsedIsFaithful(reply);
    FaithfulHeader(Parse(reply).value);
  }

  /** Neither an unreadable header nor a response is answered or forwarded. */
  lemma UnansweredHasNoReply(table: RoutingTable, wire: seq<byte>, transport: Protocol)
    requires ParseHeader(wire).Err? || ParseHeader(wire).value.MessageType() != QueryMessage
    ensures ReplyTo(table, wire, transport, None).None? && !SelectsGroup(table, wire)
  {
    hide QuestionsAt, ReadRecords, CountsFit, QueryReply;
    if Parse(wire).Ok? {
      ParsedIsFaithful(wire);
      FaithfulHeader(Parse(wire).value);
    }
  }

  lemma UnansweredSelectsNothing(table: RoutingTable, wire: seq<byte>, transport: Protocol)
    ensures |wire| >= 12 && IsResponse(wire) ==>
              ReplyTo(table, wire, transport, None).None? && !SelectsGroup(table, wire)
  {
    hide ReplyTo, SelectsGroup;
    if |wire| >= 12 && IsResponse(wire) {
      HeaderMeaning(wire);
      UnansweredHasNoReply(table, wire, transport);
    }
  }

  lemma UnforwardableSelectsNothing(table: RoutingTable, wire: seq<byte>)
    ensures Parse(wire).Err? || !Parse(wire).value.Forwardable() ==> !SelectsGroup(table, wire)
  {
    hide Parse;
  }

  /** Silence of the handler, for a walk whose result is known. */
  lemma SilenceOf(
    table: RoutingTable, wire: seq<byte>, transport: Protocol, deadline: Deadline, walk: Option<Walk>,
    sends: seq<Transmission>, before: Moment, after: Moment, lead: nat, tail: nat)
    requires Walked(table, wire, transport, deadline, sends, walk, before, after, lead, tail) && Usable(ResultOf(walk))
    ensures ReplyTo(table, wire, transport, ResultOf(walk)).None? && (SelectsGroup(table, wire) ==> walk.Some?) ==>
              after.stop || Silent(wire)
  {
    hide ReplyTo, Silent, Usable, GoodWalk, Parse, EligibleServers, Select;
    if ReplyTo(table, wire, transport, ResultOf(walk)).None? {
      SilenceHasReason(table, wire, transport, ResultOf(walk));
      if walk.Some? && walk.value.result == Err(ShutdownRequested) {
        ParsedIsFaithful(wire);
        CancelledWalk(Parse(wire).value, EligibleServers(table, wire), transport, deadline, walk.value);
      }
    }
  }

  lemma WalkedWider(
    table: RoutingTable, wire: seq<byte>, transport: Protocol, deadline: Deadline, sends: seq<Transmission>,
    walk: Option<Walk>, a: Moment, b: Moment, c: Moment, d: Moment, before: nat, lead: nat, tail: nat, after: nat)
    requires Walked(table, wire, transport, deadline, sends, walk, b, c, lead, tail)
    requires Idle(a, b, before) && Idle(c, d, after)
    ensures Walked(table, wire, transport, deadline, sends, walk, a, d, before + lead, tail + after)
  {
    hide GoodWalk, Parse, EligibleServers, SelectsGroup, Idle;
    match walk {
      case None =>
        IdleThen(a, b, c, before, lead + tail);
        IdleThen(a, c, d, before + lead + tail, after);
      case Some(w) =>
        IdleThen(a, b, w.begin, before, lead);
        IdleThen(w.end, c, d, tail, after);
    }
  }

  lemma GoodWalkOrder(query: Packet, servers: seq<Endpoint>, transport: Protocol, deadline: Deadline, w: Walk)
    requires Faithful(query) && GoodWalk(query, servers, transport, deadline, w)
    ensures Before(w.begin, w.end)
    ensures forall s :: s in SendsOf(w.attempts) ==> s.server in servers
  {
    SendsStayInGroup(query, transport, deadline, servers, w.attempts);
    ChronologyIsOrder(w.begin, w.attempts);
    BeforeTrans(w.begin, LastEnd(w.begin, w.attempts), w.end);
    hide Before, Faithful, GoodAttempts, WalksInOrder, Chronological, WalkResult, SendsOf;
  }

  lemma AnswersAreUsable(p: Packet, last: SentQuery, response: Packet)
    requires AnswersQuery(p, last, response)
    ensures Usable(Some(Ok(response)))
  {
    hide Parse, Plain, Validates;
    FaithfulHeader(response);
  }

  /** The servers of a selection are the eligible ones. */
  lemma SelectedServers(table: RoutingTable, p: Packet)
    requires Faithful(p) && p.Forwardable()
    ensures match Select(table, p.questions[0].name)
            case Default(group) => EligibleServers(table, p.wire) == group.servers && SelectsGroup(table, p.wire)
            case Routed(route) => EligibleServers(table, p.wire) == route.policy.servers && SelectsGroup(table, p.wire)
            case Local(_) => !SelectsGroup(table, p.wire)
            case Unmatched => !SelectsGroup(table, p.wire)
  {
    hide Parse, Find, IsSubdomainOf;
  }

  /** The group of a selection is a configured group. */
  lemma SelectedGroup(table: RoutingTable, name: DomainName)
    requires ValidGroups(table)
    ensures match Select(table, name)
            case Default(group) => group.Valid()
            case Routed(route) => route.policy.Valid()
            case _ => true
  {
    hide IsSubdomainOf;
  }

  lemma {:induction false} SendsStayInGroup(
    query: Packet, transport: Protocol, deadline: Deadline, servers: seq<Endpoint>, attempts: seq<Attempt>)
    requires Faithful(query)
    requires |query.wire| >= HEADER_LENGTH && GoodAttempts(query, transport, deadline, attempts)
    requires WalksInOrder(servers, attempts)
    ensures forall s :: s in SendsOf(attempts) ==> s.server in servers
    decreases |attempts|
  {
    hide Final, Faithful, GoodAttempt, AnswersQuery, EndsWith, Packet.ResponseCode;
    if attempts != [] {
      var init := attempts[..|attempts| - 1];
      SendsStayInGroup(query, transport, deadline, servers, init);
      var last := attempts[|attempts| - 1];
      assert last in attempts && last.server in servers;
      AttemptMeaning(query, transport, deadline, last);
    }
  }

  // ----- configured tables -----

  /**
   * In a table that was built from distinct rules, the servers that a query may reach are those of the one longest
   * match: the route's own, the default's only if nothing matches, and none for a local record.
   */
  lemma EligibleServersOfTable(
    fallback: Option<UpstreamGroup>, routes: seq<Route>, local: seq<LocalRecord>, wire: seq<byte>, s: Selection)
    requires DistinctRules(routes, local)
    requires Parse(wire).Ok? && Parse(wire).value.Forwardable()
    requires Wins(fallback, routes, local, Parse(wire).value.questions[0].name, s)
    ensures EligibleServers(RoutingTable(fallback, Sort(routes), Sort(local)), wire)
            == match s
               case Default(group) => group.servers
               case Routed(route) => route.policy.servers
               case Local(_) => []
               case Unmatched => []
    ensures SelectsGroup(RoutingTable(fallback, Sort(routes), Sort(local)), wire) <==> s.Default? || s.Routed?
  {
    hide Parse, Select, Wins, DistinctRules, Sort;
    var table := RoutingTable(fallback, Sort(routes), Sort(local));
    var name := Parse(wire).value.questions[0].name;
    SelectIsLongestMatch(fallback, routes, local, name);
    WinnerIsUnique(fallback, routes, local, name, Select(table, name), s);
  }
}
