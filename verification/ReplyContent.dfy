/**
 * What a reply says to the client, in numbers: its code, its answers and TC, and the octets that are relayed. The
 * rules are those of the handler (src/forwarding.rs, src/dns/reply.rs), stated without the functions that choose or
 * print a reply.
 */
module ReplyContent {
  import opened Outcomes
  import opened Bytes
  import opened Names
  import opened Types
  import opened Messages
  import opened Records
  import opened Grammar
  import opened HeaderEdits
  import opened Cookies
  import opened Replies
  import opened ReplyRoundTrip
  import opened ReplyMeaning
  import opened WireMeaning
  import opened Acceptance
  import opened Transport
  import opened Routing
  import opened Exchanges
  import opened Walks

  /** The reply has this code, this many answers, and TC or not. */
  ghost predicate Carries(reply: seq<byte>, code: int, answers: int, truncated: bool) {
    && Parse(reply).Ok?
    && var r := Parse(reply).value;
       r.CombinedCode() == code && r.header.answers == answers && (r.header.Truncated() <==> truncated)
  }

  /** Behind its question the reply has an A record of that name, with the TTL and the address of `answer`. */
  ghost predicate GivesAddress(reply: seq<byte>, name: DomainName, answer: LocalAnswer) {
    exists q: Question, end: nat ::
      && IsQuestion(reply, 12, q, end) && q.name == name
      && IsRecord(reply, end, ResourceRecord(name, A, Dns(In), answer.ttl, end + 12, 4))
      && Number(reply, end + 12) * 0x1_0000 + Number(reply, end + 14) == answer.address
  }

  /** A COOKIE with octets of the server: a packet that has it gets no reply of the forwarder's own. */
  ghost predicate BringsServerCookie(wire: seq<byte>) {
    exists m, at, len :: Reads(wire, m) && HasCookie(wire, m, at, len) && 16 <= len <= 40
  }

  /** A local answer: code 0 in class 1, else 5; the address for types 1 and 255 of class 1. */
  ghost predicate SaysLocal(wire: seq<byte>, m: Reading, answer: LocalAnswer, reply: seq<byte>) {
    && !BringsServerCookie(wire)
    && var given := AskedClass(wire, m) == 1 && AskedType(wire, m) in {1, 255};
       && Carries(reply, if AskedClass(wire, m) == 1 then 0 else 5, if given then 1 else 0, false)
       && (given ==> |m.questions| == 1 && GivesAddress(reply, m.questions[0].name, answer))
  }

  /** The attempts of a walk go through these servers, from the first on. */
  ghost predicate Visits(w: Walk, servers: seq<Endpoint>) {
    |w.attempts| <= |servers| && forall i :: 0 <= i < |w.attempts| ==> w.attempts[i].server == servers[i]
  }

  /**
   * The outcome of a walk: code 2 without answers for a failure; the response's own code with TC and no answers if a
   * datagram would be too long for the client; otherwise the response octet for octet behind the client's ID.
   */
  ghost predicate SaysOutcome(
    wire: seq<byte>, m: Reading, transport: Protocol, outcome: Result<Packet, ForwardError>, reply: seq<byte>)
  {
    match outcome
    case Err(e) => e != ShutdownRequested && !BringsServerCookie(wire) && Carries(reply, 2, 0, false)
    case Ok(response) =>
      if transport == Udp && TooLong(wire, m, |response.wire|) then Carries(reply, response.CombinedCode(), 0, true)
      else
        && |reply| == |response.wire| && |reply| >= 12
        && Number(reply, 0) == Number(wire, 0) && reply[2..] == response.wire[2..]
  }

  /** The reply that is due to an acceptable query, by the longest match of its name. */
  ghost predicate SaysSelected(
    wire: seq<byte>, m: Reading, transport: Protocol, s: Selection, walk: Option<Walk>, reply: seq<byte>)
  {
    match s
    case Unmatched => walk.None? && !BringsServerCookie(wire) && Carries(reply, 3, 0, false)
    case Local(record) => walk.None? && SaysLocal(wire, m, record.policy, reply)
    case Routed(route) =>
      && walk.Some? && Visits(walk.value, route.policy.servers)
      && SaysOutcome(wire, m, transport, walk.value.result, reply)
    case Default(group) =>
      && walk.Some? && Visits(walk.value, group.servers)
      && SaysOutcome(wire, m, transport, walk.value.result, reply)
  }

  /** What the reply to a packet says, by the way in which the grammar divides it. */
  ghost predicate SaysFor(
    table: RoutingTable, wire: seq<byte>, transport: Protocol, walk: Option<Walk>, reply: seq<byte>, m: Reading)
  {
    if Acceptable(wire, m) then
      && |m.questions| == 1
      && forall s :: Wins(table.fallback, table.routes, table.local, m.questions[0].name, s) ==>
           SaysSelected(wire, m, transport, s, walk, reply)
    else
      && walk.None? && !IsResponse(wire) && !BringsServerCookie(wire)
      && exists code :: RefusedWith(wire, m, code) && Carries(reply, code, 0, false)
  }

  /**
   * What the reply to any packet says: code 1 if it does not parse, the code of the refusal if it is not acceptable,
   * and otherwise what the one longest match of its name calls for.
   */
  ghost predicate SaysWhatIsDue(
    table: RoutingTable, wire: seq<byte>, transport: Protocol, walk: Option<Walk>, reply: seq<byte>)
  {
    if Parse(wire).Err? then walk.None? && Carries(reply, 1, 0, false)
    else forall m :: Reads(wire, m) ==> SaysFor(table, wire, transport, walk, reply, m)
  }

  // ----- printed replies -----

  lemma PrintedCarries(
    h: Header, question: Option<Question>, code: ResponseCode, truncated: bool, opt: GeneratedOpt,
    answer: Option<LocalAnswer>)
    requires Printable(question, opt, answer) && CodeFits(code, opt)
    ensures Carries(ReplyWire(h, question, code, truncated, opt, answer), code.Wire(),
                    if answer.Some? then 1 else 0, truncated)
  {
    hide Parse, ReplyWire, ReplyFlags, PrintedEdns, PrintedCookie, CodeFits, Printable;
    ReplyParses(h, question, code, truncated, opt, answer);
    PrintedCode(h, code, truncated, opt, PrintedPacket(h, question, code, truncated, opt, answer));
  }

  lemma FormatCarries(wire: seq<byte>)
    requires Parse(wire).Err? && Parse(wire).error.context.Some?
    ensures Carries(FormatReply(Parse(wire).error.context.value), 1, 0, false)
  {
    hide Parse, ReplyWire, Carries;
    FailureContextIsSafe(wire);
    var c := Parse(wire).error.context.value;
    PrintedCarries(c.header, if c.edns.None? then None else c.question, FormatError, false,
                   GeneratedOptFor(c.edns), None);
  }

  lemma ErrorCarries(p: Packet, code: ResponseCode)
    requires Faithful(p) && CodeFits(code, GeneratedOptFor(p.edns))
    ensures Carries(ErrorReply(p, code), code.Wire(), 0, false)
  {
    hide Parse, ReplyWire, Carries;
    AcceptedQuestionsAreValid(p);
    PrintedCarries(p.header, FirstQuestion(p.questions), code, false, GeneratedOptFor(p.edns), None);
  }

  lemma TruncatedCarries(query: Packet, response: Packet)
    requires Faithful(query) && |query.questions| <= 1
    requires Faithful(response) && SlotInWire(response) && OptAgrees(query, response)
    ensures Carries(TruncatedReply(query, response), response.CombinedCode(), 0, true)
  {
    hide Parse, ReplyWire, Carries, ResponseCodeFromWire, ResponseCode.Wire;
    WireCodesRoundTrip(response.CombinedCode());
    AcceptedQuestionsAreValid(query);
    PrintedCarries(query.header, FirstQuestion(query.questions), response.ResponseCode(), true,
                   TruncatedOpt(query, response), None);
  }

  lemma AddressNumbers(w: seq<byte>, at: nat, n: u32)
    requires Holds(w, at, Be32(n))
    ensures at + 4 <= |w| && Number(w, at) * 0x1_0000 + Number(w, at + 2) == n
  {
    HoldsFits(w, at, Be32(n));
    HoldsDoubleWord(w, at, n);
    WordIsNumber(w, at);
    WordIsNumber(w, at + 2);
  }

  lemma AddressIsGiven(w: seq<byte>, q: Question, at: nat, answer: LocalAnswer)
    requires QuestionAt(w, 12) == Ok(ReadQuestion(q, at))
    requires RecordAt(w, at) == Ok(ResourceRecord(q.name, A, Dns(In), answer.ttl, at + 12, 4))
    requires Holds(w, at + 12, Be32(answer.address))
    ensures GivesAddress(w, q.name, answer)
  {
    hide QuestionAt, RecordAt, Holds, IsQuestion, IsRecord, Be32;
    AddressNumbers(w, at + 12, answer.address);
    QuestionIff(w, 12, q, at);
    RecordIff(w, at, ResourceRecord(q.name, A, Dns(In), answer.ttl, at + 12, 4));
  }

  /** A server cookie in the decoded view is one in the octets. */
  lemma ServerCookieMeaning(p: Packet)
    requires Faithful(p) && SlotInWire(p)
    ensures SuppliesServerCookie(p) <==> BringsServerCookie(p.wire)
  {
    hide Parse, Reads, HasCookie, ResponseCookie, SlotInWire;
    forall m | Reads(p.wire, m)
      ensures p.cookie.None? <==> NoCookie(p.wire, m)
      ensures forall at, len :: HasCookie(p.wire, m, at, len) ==> CookieIs(ResponseCookie(p), p.wire, at, len)
    {
      CookieOctets(p.wire, m);
    }
    if SuppliesServerCookie(p) {
      var m := ParsedReads(p.wire);
      if p.cookie.None? {
        CookieAbsent(p);
      }
      var at, len :| HasCookie(p.wire, m, at, len);
    }
  }

  lemma ForwardableHasQuestion(p: Packet)
    requires p.Forwardable()
    ensures |p.questions| == 1 && p.header.MessageType() == QueryMessage
  {
  }

  lemma LocalSays(p: Packet, m: Reading, answer: LocalAnswer)
    requires Faithful(p) && p.Forwardable() && SlotInWire(p) && Reads(p.wire, m)
    requires LocalAReply(p, answer).Some?
    ensures SaysLocal(p.wire, m, answer, LocalAReply(p, answer).value)
  {
    hide Parse, Reads, LocalAReply, QuestionAt, RecordAt, Holds, NameSpan, AskedType, AskedClass, GivesAddress,
      RecordTypeFromWire, RecordClassFromWire, Packet.Forwardable, SuppliesServerCookie, BringsServerCookie,
      Packet.CombinedCode, Packet.CorrespondsTo, Header.Truncated, Question.Encode;
    ForwardableHasQuestion(p);
    LocalAReplyAnswers(p, answer);
    ServerCookieMeaning(p);
    QuestionMeaning(p.wire, m);
    CodeNumbers(AskedType(p.wire, m));
    CodeNumbers(AskedClass(p.wire, m));
    var q := p.questions[0];
    if q.class_ == In && q.kind in {A, Any} {
      AddressIsGiven(LocalAReply(p, answer).value, q, HEADER_LENGTH + |q.Encode()|, answer);
    }
  }

  // ----- clearing RA -----

  lemma CarriesStill(reply: seq<byte>, code: int, answers: int, truncated: bool)
    requires Carries(reply, code, answers, truncated)
    ensures |reply| >= 12 && Carries(WithoutRecursion(reply), code, answers, truncated)
  {
    hide Parse, WithoutRecursion;
    ParsedIsFaithful(reply);
    WithoutRecursionIsSound(Parse(reply).value);
  }

  lemma BodyStays(w: seq<byte>)
    requires |w| >= 12
    ensures SameFrom(w, WithoutRecursion(w), 12)
  {
  }

  lemma AddressIsStillGiven(reply: seq<byte>, name: DomainName, answer: LocalAnswer)
    requires |reply| >= 12 && GivesAddress(reply, name, answer)
    ensures GivesAddress(WithoutRecursion(reply), name, answer)
  {
    hide IsQuestion, IsRecord, QuestionAt, RecordAt, WithoutRecursion;
    var w := WithoutRecursion(reply);
    BodyStays(reply);
    var q, end: nat :|
      && IsQuestion(reply, 12, q, end) && q.name == name
      && IsRecord(reply, end, ResourceRecord(name, A, Dns(In), answer.ttl, end + 12, 4))
      && Number(reply, end + 12) * 0x1_0000 + Number(reply, end + 14) == answer.address;
    var r := ResourceRecord(name, A, Dns(In), answer.ttl, end + 12, 4);
    QuestionIff(reply, 12, q, end);
    QuestionIff(w, 12, q, end);
    QuestionSame(reply, w, 12);
    RecordIff(reply, end, r);
    RecordIff(w, end, r);
    RecordSame(reply, w, end);
  }

  /** A reply says the same without RA, where no upstream can be asked. */
  lemma SaysTheSame(
    table: RoutingTable, wire: seq<byte>, transport: Protocol, walk: Option<Walk>, reply: seq<byte>)
    requires !table.HasUpstreams() && |reply| >= 12 && SaysWhatIsDue(table, wire, transport, walk, reply)
    ensures SaysWhatIsDue(table, wire, transport, walk, WithoutRecursion(reply))
  {
    hide Parse, Reads, Acceptable, Carries, GivesAddress, BringsServerCookie, RefusedWith, Longest, NothingMatches,
      WithoutRecursion, IsResponse, AskedType, AskedClass, SaysOutcome, Visits;
    forall code, answers, truncated | Carries(reply, code, answers, truncated)
      ensures Carries(WithoutRecursion(reply), code, answers, truncated)
    {
      CarriesStill(reply, code, answers, truncated);
    }
    forall name, answer | GivesAddress(reply, name, answer)
      ensures GivesAddress(WithoutRecursion(reply), name, answer)
    {
      AddressIsStillGiven(reply, name, answer);
    }
  }
}
