/** What the generated replies mean to the client whose query they answer. */
module ReplyMeaning {
  import opened Outcomes
  import opened Bytes
  import opened Names
  import opened Types
  import opened Messages
  import opened Records
  import opened Cookies
  import opened CookieRetry
  import opened Replies
  import opened ReplyRoundTrip

  lemma QuestionIsValid(w: seq<byte>, pos: nat)
    requires QuestionAt(w, pos).Ok?
    ensures QuestionAt(w, pos).value.question.Valid()
  {
    DecodedIsValid(w, pos);
    var end := Decode(w, pos).value.end;
    WireCodesRoundTrip(WordAt(w, end));
    WireCodesRoundTrip(WordAt(w, end + 2));
    hide Decode, WordAt;
  }

  lemma {:induction false} QuestionsAreValid(w: seq<byte>, pos: nat, count: nat)
    requires QuestionsAt(w, pos, count).Ok?
    ensures forall i :: 0 <= i < |QuestionsAt(w, pos, count).value.questions| ==>
                          QuestionsAt(w, pos, count).value.questions[i].Valid()
    decreases count
  {
    hide QuestionAt, Question.Valid;
    if count > 0 {
      QuestionIsValid(w, pos);
      QuestionsAreValid(w, QuestionAt(w, pos).value.end, count - 1);
    }
  }

  /** The questions of an accepted packet can be printed. */
  lemma AcceptedQuestionsAreValid(p: Packet)
    requires Faithful(p)
    ensures forall i :: 0 <= i < |p.questions| ==> p.questions[i].Valid()
  {
    hide Parse, QuestionsAt, Question.Valid;
    var qs := FaithfulSteps(p);
    QuestionsAreValid(p.wire, HEADER_LENGTH, p.header.questions);
  }

  /** The code that a reply can carry: twelve bits with OPT, four without. */
  ghost predicate CodeFits(code: ResponseCode, opt: GeneratedOpt) {
    code.Wire() < if opt.WithOpt? then 0x1000 else 0x10
  }

  /** `reply` answers `query` with `code`: identity, question, OPT presence, DO, TC and the combined code. */
  ghost predicate Answers(reply: Packet, query: Packet, code: ResponseCode, truncated: bool) {
    && reply.CorrespondsTo(query, query.header.id)
    && (reply.header.Truncated() <==> truncated)
    && (reply.edns.Some? <==> query.edns.Some?)
    && (query.edns.Some? ==> reply.edns.value.dnssecOk == query.edns.value.dnssecOk)
    && reply.CombinedCode() == code.Wire()
  }

  lemma SameQuestionsReflexive(qs: seq<Question>)
    ensures SameQuestions(qs, qs)
  {
    forall i | 0 <= i < |qs| ensures SameQuestion(qs[i], qs[i]) {
      SameNameIsEquivalence(qs[i].name, qs[i].name, qs[i].name);
    }
  }

  lemma PrintedCode(h: Header, code: ResponseCode, truncated: bool, opt: GeneratedOpt, p: Packet)
    requires CodeFits(code, opt)
    requires p.header.flags == ReplyFlags(h.flags, code, truncated) && p.edns == PrintedEdns(code, opt)
    ensures p.CombinedCode() == code.Wire()
    ensures p.header.MessageType() == ResponseMessage && p.header.Opcode() == h.Opcode()
    ensures p.header.Truncated() <==> truncated
  {
    PrintedFlags(h.flags, code, truncated);
    hide ReplyFlags, ResponseCode.Wire;
    var n: int := code.Wire();
    assert n == n / 16 * 16 + n % 16;
  }

  /** Whatever is printed for a query with at most one question answers it. */
  lemma PrintedReplyAnswers(
    query: Packet, code: ResponseCode, truncated: bool, opt: GeneratedOpt, answer: Option<LocalAnswer>)
    requires Faithful(query) && |query.questions| <= 1
    requires answer.Some? ==> query.questions != []
    requires PrintableOpt(opt) && CodeFits(code, opt)
    requires opt.WithOpt? <==> query.edns.Some?
    requires opt.WithOpt? ==> opt.dnssecOk == query.edns.value.dnssecOk
    ensures var w := ReplyWire(query.header, FirstQuestion(query.questions), code, truncated, opt, answer);
            && Parse(w) == Ok(PrintedPacket(query.header, FirstQuestion(query.questions), code, truncated, opt, answer))
            && Answers(Parse(w).value, query, code, truncated)
            && |w| <= CLASSIC_UDP_LENGTH
  {
    hide Parse, ReplyWire, ReplyFlags, PrintedCookie;
    AcceptedQuestionsAreValid(query);
    var question := FirstQuestion(query.questions);
    ReplyParses(query.header, question, code, truncated, opt, answer);
    PrintedCode(query.header, code, truncated, opt,
                PrintedPacket(query.header, question, code, truncated, opt, answer));
    SameQuestionsReflexive(query.questions);
    assert query.questions == if question.Some? then [question.value] else [];
  }

  /** Every local error answers its query with the code that was chosen. */
  lemma ErrorReplyAnswers(query: Packet, code: ResponseCode)
    requires Faithful(query) && |query.questions| <= 1
    requires CodeFits(code, GeneratedOptFor(query.edns))
    ensures Parse(ErrorReply(query, code)).Ok?
    ensures Answers(Parse(ErrorReply(query, code)).value, query, code, false)
    ensures Parse(ErrorReply(query, code)).value.cookie.None?
    ensures |ErrorReply(query, code)| <= CLASSIC_UDP_LENGTH
  {
    hide Parse, ReplyWire, ReplyHeader, Answers;
    PrintedReplyAnswers(query, code, false, GeneratedOptFor(query.edns), None);
  }

  /** A rejection carries its code under the query's own ID, however many questions there were. */
  lemma RejectionParses(query: Packet, code: ResponseCode)
    requires Faithful(query)
    requires CodeFits(code, GeneratedOptFor(query.edns))
    ensures var w := ErrorReply(query, code);
            && Parse(w).Ok?
            && Parse(w).value.header.MessageType() == ResponseMessage
            && Parse(w).value.header.id == query.header.id
            && Parse(w).value.CombinedCode() == code.Wire()
            && |w| <= CLASSIC_UDP_LENGTH
  {
    hide Parse, ReplyWire, ReplyFlags, PrintedCookie;
    AcceptedQuestionsAreValid(query);
    var question, opt := FirstQuestion(query.questions), GeneratedOptFor(query.edns);
    ReplyParses(query.header, question, code, false, opt, None);
    PrintedCode(query.header, code, false, opt, PrintedPacket(query.header, question, code, false, opt, None));
  }

  /** The codes that query validation chooses can always be carried. */
  lemma RejectionCodeFits(query: Packet)
    requires query.ValidateQuery().Reject?
    ensures CodeFits(query.ValidateQuery().code, GeneratedOptFor(query.edns))
  {
    hide ResponseCodeFromWire;
  }

  /** A local answer: the address for IN queries of type A or ANY, an empty NOERROR or REFUSED otherwise. */
  lemma LocalAReplyAnswers(query: Packet, answer: LocalAnswer)
    requires Faithful(query) && query.Forwardable() && SlotInWire(query)
    ensures LocalAReply(query, answer).None? <==> SuppliesServerCookie(query)
    ensures var r := LocalAReply(query, answer);
            r.Some? ==>
              var q := query.questions[0];
              && Parse(r.value).Ok?
              && Answers(Parse(r.value).value, query, LocalCode(q), false)
              && |r.value| <= CLASSIC_UDP_LENGTH
              && Parse(r.value).value.header.answers == (if q.class_ == In && q.kind in {A, Any} then 1 else 0)
              && (q.class_ == In && q.kind in {A, Any} ==>
                    && QuestionAt(r.value, HEADER_LENGTH) == Ok(ReadQuestion(q, HEADER_LENGTH + |q.Encode()|))
                    && RecordAt(r.value, HEADER_LENGTH + |q.Encode()|)
                       == Ok(ResourceRecord(q.name, A, Dns(In), answer.ttl, HEADER_LENGTH + |q.Encode()| + 12, 4))
                    && Holds(r.value, HEADER_LENGTH + |q.Encode()| + 12, Be32(answer.address)))
  {
    hide Parse, ReplyWire, Answers, QuestionAt, RecordAt, Holds, Question.Encode, PrintedPacket;
    if !SuppliesServerCookie(query) {
      var q := query.questions[0];
      var opt := GeneratedOptFor(query.edns);
      PrintedReplyAnswers(query, LocalCode(q), false, opt, LocalData(q, answer));
      PrintedAnswers(query.header, Some(q), LocalCode(q), false, opt, LocalData(q, answer));
      if LocalData(q, answer).Some? {
        AcceptedQuestionsAreValid(query);
        AnswerIsThere(query.header, q, LocalCode(q), opt, answer);
      }
    }
  }

  lemma PrintedAnswers(
    h: Header, question: Option<Question>, code: ResponseCode, truncated: bool, opt: GeneratedOpt,
    answer: Option<LocalAnswer>)
    ensures PrintedPacket(h, question, code, truncated, opt, answer).header.answers == if answer.Some? then 1 else 0
  {
    hide ReplyWire, ReplyFlags, PrintedEdns, PrintedCookie;
  }

  /** The answer owner, written as a pointer to byte 12, expands to the question name. */
  lemma AnswerIsThere(h: Header, q: Question, code: ResponseCode, opt: GeneratedOpt, answer: LocalAnswer)
    requires q.Valid()
    ensures var w := ReplyWire(h, Some(q), code, false, opt, Some(answer));
            var at := HEADER_LENGTH + |q.Encode()|;
            && QuestionAt(w, HEADER_LENGTH) == Ok(ReadQuestion(q, at))
            && RecordAt(w, at) == Ok(ResourceRecord(q.name, A, Dns(In), answer.ttl, at + 12, 4))
            && Holds(w, at + 12, Be32(answer.address))
  {
    hide ReplyWire, QuestionAt, RecordAt, Holds, Decode, Question.Encode, OptBytes, AnswerBytes;
    var w := ReplyWire(h, Some(q), code, false, opt, Some(answer));
    ReplyLayout(h, Some(q), code, false, opt, Some(answer));
    QuestionReads(w, HEADER_LENGTH, q);
    QuestionTakesRoom(q);
    AnswerEnvelope(w, AnswerAt(Some(q)), q.name, answer);
  }

  lemma QuestionTakesRoom(q: Question)
    ensures |q.Encode()| > 0
  {
  }

  /**
   * Truncation keeps meaning: the combined twelve-bit code and the cookie octets of the upstream response
   * survive in the TC reply. This needs the client's OPT whenever the response has one.
   */
  lemma TruncatedReplyKeepsMeaning(query: Packet, response: Packet)
    requires Faithful(query) && |query.questions| <= 1
    requires Faithful(response) && SlotInWire(response)
    requires OptAgrees(query, response)
    ensures var w := TruncatedReply(query, response);
            && Parse(w).Ok?
            && Answers(Parse(w).value, query, response.ResponseCode(), true)
            && Parse(w).value.CombinedCode() == response.CombinedCode()
            && Parse(w).value.ResponseCode() == response.ResponseCode()
            && |w| <= CLASSIC_UDP_LENGTH
            && SlotInWire(Parse(w).value)
            && ResponseCookie(Parse(w).value) == ResponseCookie(response)
  {
    hide Parse, ReplyWire, ReplyFlags, Answers, ResponseCodeFromWire, ResponseCode.Wire;
    var opt, code := TruncatedOpt(query, response), response.ResponseCode();
    WireCodesRoundTrip(response.CombinedCode());
    PrintedReplyAnswers(query, code, true, opt, None);
    var w := TruncatedReply(query, response);
    if response.edns.None? {
      if response.cookie.Some? {
        CookieNeedsOpt(response);
      }
    }
    AnswersGivesCode(Parse(w).value, query, code, true);
    AcceptedQuestionsAreValid(query);
    PrintedCookieIsThere(query.header, FirstQuestion(query.questions), code, true, opt);
  }

  lemma AnswersGivesCode(reply: Packet, query: Packet, code: ResponseCode, truncated: bool)
    requires Answers(reply, query, code, truncated)
    ensures reply.CombinedCode() == code.Wire()
  {
  }

  lemma PrintedCookieIsThere(
    h: Header, question: Option<Question>, code: ResponseCode, truncated: bool, opt: GeneratedOpt)
    requires Printable(question, opt, None)
    ensures var p := PrintedPacket(h, question, code, truncated, opt, None);
            && SlotInWire(p)
            && ResponseCookie(p) == if opt.WithOpt? then opt.cookie else None
  {
    hide ReplyWire, ReplyHeader, PrintedEdns, OptBytes, QuestionBytes, AnswerBytes, Holds, ReadRecord;
    var w := ReplyWire(h, question, code, truncated, opt, None);
    ReplyLayout(h, question, code, truncated, opt, None);
    if opt.WithOpt? && opt.cookie.Some? {
      OptReads(w, OptAt(question, None), code, opt, Findings(OptAt(question, None), None, None, false));
      HoldsSlice(w, OptAt(question, None) + 15, opt.cookie.value);
    }
  }

  lemma HoldsSlice(w: seq<byte>, at: nat, chunk: seq<byte>)
    requires Holds(w, at, chunk)
    ensures at + |chunk| <= |w| && w[at..at + |chunk|] == chunk
  {
  }

  // ----- answers to packets that do not parse -----

  /** The context of a failure comes from the query's own header, and its question can be printed. */
  lemma FailureContextIsSafe(w: seq<byte>)
    requires Parse(w).Err? && Parse(w).error.context.Some?
    ensures var c := Parse(w).error.context.value;
            && ParseHeader(w) == Ok(c.header)
            && c.header.MessageType() == QueryMessage
            && (c.question.Some? ==> c.question.value.Valid())
            && (c.edns.Some? ==> Parse(w).error.error == InvalidEdns)
  {
    hide QuestionsAt, ReadRecords, Question.Valid, CountsFit;
    var h := ParseHeader(w).value;
    if QuestionsAt(w, HEADER_LENGTH, h.questions).Ok? {
      QuestionsAreValid(w, HEADER_LENGTH, h.questions);
    }
  }

  /** A malformed query is answered with FORMERR under its own ID, with OPT only after an OPT error. */
  lemma FormatReplyAnswers(w: seq<byte>)
    requires Parse(w).Err? && Parse(w).error.context.Some?
    ensures var c := Parse(w).error.context.value;
            var r := FormatReply(c);
            && Parse(r).Ok?
            && Parse(r).value.header.MessageType() == ResponseMessage
            && ParseHeader(w).Ok? && Parse(r).value.header.id == ParseHeader(w).value.id
            && Parse(r).value.CombinedCode() == FormatError.Wire()
            && (Parse(r).value.edns.Some? ==> Parse(w).error.error == InvalidEdns)
            && (Parse(r).value.edns.Some? <==> c.edns.Some?)
            && (c.edns.Some? ==> Parse(r).value.edns.value.dnssecOk == c.edns.value.dnssecOk)
            && (Parse(r).value.questions != [] <==> c.edns.Some? && c.question.Some?)
            && |r| <= CLASSIC_UDP_LENGTH
  {
    FailureContextIsSafe(w);
    hide Parse, ReplyWire, ReplyFlags, PrintedCookie;
    var c := Parse(w).error.context.value;
    var question := if c.edns.None? then None else c.question;
    ReplyParses(c.header, question, FormatError, false, GeneratedOptFor(c.edns), None);
    PrintedCode(c.header, FormatError, false, GeneratedOptFor(c.edns),
                PrintedPacket(c.header, question, FormatError, false, GeneratedOptFor(c.edns), None));
  }
}
