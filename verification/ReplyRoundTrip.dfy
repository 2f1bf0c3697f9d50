/** Every generated reply parses to what was asked of the printer, and answers the query it was made for. */
module ReplyRoundTrip {
  import opened Outcomes
  import opened Bytes
  import opened Names
  import opened Types
  import opened Options
  import opened Messages
  import opened Records
  import opened Replies

  // ----- flags and codes -----

  /** Each flag of a printed reply. */
  lemma PrintedFlags(flags: u16, code: ResponseCode, truncated: bool)
    ensures var f := ReplyFlags(flags, code, truncated);
            && Bit(f, QR_MASK)
            && f / OPCODE_UNIT % 16 == flags / OPCODE_UNIT % 16
            && (Bit(f, TC_MASK) <==> truncated)
            && (Bit(f, RD_MASK) <==> Bit(flags, RD_MASK))
            && Bit(f, RA_MASK)
            && (Bit(f, CD_MASK) <==> Bit(flags, CD_MASK))
            && f % 16 == code.Wire() % 16
  {
    var opcode: int := flags / OPCODE_UNIT % 16;
    var rd: int := flags / RD_MASK % 2;
    var cd: int := flags / CD_MASK % 2;
    var rcode: int := code.Wire() % 16;
    var tc := if truncated then 1 else 0;
    FlagLayout(opcode, tc, rd, cd, rcode);
  }

  lemma FlagLayout(opcode: int, tc: int, rd: int, cd: int, rcode: int)
    requires 0 <= opcode < 16 && 0 <= tc < 2 && 0 <= rd < 2 && 0 <= cd < 2 && 0 <= rcode < 16
    ensures var f := 0x8000 + opcode * 0x800 + tc * 0x200 + rd * 0x100 + 0x80 + cd * 0x10 + rcode;
            && f / 0x8000 == 1
            && f / 0x800 == 16 + opcode
            && f / 0x200 == 64 + opcode * 4 + tc
            && f / 0x100 == 128 + opcode * 8 + tc * 2 + rd
            && f / 0x80 == 256 + opcode * 16 + tc * 4 + rd * 2 + 1
            && f / 0x10 == 2048 + opcode * 128 + tc * 32 + rd * 16 + 8 + cd
            && f % 0x10 == rcode
  {
  }

  /** What OPT metadata a printed reply carries. */
  function PrintedEdns(code: ResponseCode, opt: GeneratedOpt): Option<Edns> {
    match opt
    case NoOpt => None
    case WithOpt(dnssecOk, _) => Some(Edns(SERVER_UDP_LENGTH, 0, code.Wire() / 16 % 0x100, dnssecOk))
  }

  lemma PrintedTtl(code: ResponseCode, dnssecOk: bool)
    ensures EdnsOf(SERVER_UDP_LENGTH, OptTtl(code, dnssecOk))
            == Edns(SERVER_UDP_LENGTH, 0, code.Wire() / 16 % 0x100, dnssecOk)
  {
    TtlLayout(code.Wire() / 16 % 0x100, dnssecOk);
  }

  lemma TtlLayout(extended: int, dnssecOk: bool)
    requires 0 <= extended < 0x100
    ensures var ttl := extended * 0x100_0000 + (if dnssecOk then 0x8000 else 0);
            && ttl / 0x1_0000 % 0x100 == 0
            && ttl / 0x100_0000 == extended
            && (Bit(ttl, 0x8000) <==> dnssecOk)
  {
    var ttl := extended * 0x100_0000 + (if dnssecOk then 0x8000 else 0);
    assert ttl / 0x1_0000 == extended * 0x100;
    assert ttl / 0x8000 == extended * 0x200 + (if dnssecOk then 1 else 0);
  }

  // ----- reading the parts back -----

  lemma HeaderReads(w: seq<byte>, h: Header)
    requires Holds(w, 0, h.Encode())
    ensures |w| >= HEADER_LENGTH && ParseHeader(w) == Ok(h)
  {
    hide Holds;
    assert h.Encode() == Be16(h.id) + (Be16(h.flags) + (Be16(h.questions) + (Be16(h.answers)
                         + (Be16(h.authorities) + Be16(h.additionals)))));
    HoldsConcat(w, 0, Be16(h.id), Be16(h.flags) + (Be16(h.questions) + (Be16(h.answers)
                         + (Be16(h.authorities) + Be16(h.additionals)))));
    HoldsConcat(w, 2, Be16(h.flags), Be16(h.questions) + (Be16(h.answers)
                         + (Be16(h.authorities) + Be16(h.additionals))));
    HoldsConcat(w, 4, Be16(h.questions), Be16(h.answers) + (Be16(h.authorities) + Be16(h.additionals)));
    HoldsConcat(w, 6, Be16(h.answers), Be16(h.authorities) + Be16(h.additionals));
    HoldsConcat(w, 8, Be16(h.authorities), Be16(h.additionals));
    HoldsWord(w, 0, h.id);
    HoldsWord(w, 2, h.flags);
    HoldsWord(w, 4, h.questions);
    HoldsWord(w, 6, h.answers);
    HoldsWord(w, 8, h.authorities);
    HoldsWord(w, 10, h.additionals);
  }

  /** A printed question reads back to itself, wherever it is. */
  lemma QuestionReads(w: seq<byte>, pos: nat, q: Question)
    requires q.Valid() && Holds(w, pos, q.Encode())
    ensures QuestionAt(w, pos) == Ok(ReadQuestion(q, pos + |q.Encode()|))
    ensures Holds(w, pos, Names.Encode(q.name.labels))
  {
    hide Holds, Decode, Names.Encode, RecordTypeFromWire, RecordClassFromWire, RecordType.Wire, WordAt, Be16;
    var name := Names.Encode(q.name.labels);
    DecodeNamePart(w, pos, q);
    TwoWordsRead(w, pos + |name|, q.kind.Wire(), q.class_.Wire());
  }

  lemma TwoWordsRead(w: seq<byte>, at: nat, a: u16, b: u16)
    requires Holds(w, at, Be16(a) + Be16(b))
    ensures at + 4 <= |w| && WordAt(w, at) == a && WordAt(w, at + 2) == b
  {
    HoldsConcat(w, at, Be16(a), Be16(b));
    HoldsWord(w, at, a);
    HoldsWord(w, at + 2, b);
  }

  lemma DecodeNamePart(w: seq<byte>, pos: nat, q: Question)
    requires q.Valid() && Holds(w, pos, q.Encode())
    ensures var name := Names.Encode(q.name.labels);
            && Decode(w, pos) == Ok(Decoded(q.name.labels, pos + |name|))
            && Holds(w, pos, name)
            && Holds(w, pos + |name|, Be16(q.kind.Wire()) + Be16(q.class_.Wire()))
            && |q.Encode()| == |name| + 4
  {
    hide Holds, Decode;
    var name, rest := Names.Encode(q.name.labels), Be16(q.kind.Wire()) + Be16(q.class_.Wire());
    assert q.Encode() == name + rest;
    HoldsConcat(w, pos, name, rest);
    DecodeOfEncode(w, pos, q.name);
  }

  /** An envelope written after its owner name. */
  lemma EnvelopeReads(w: seq<byte>, pos: nat, owner: DomainName, at: nat, kind: RecordType, class_: u16, ttl: u32,
                      data: seq<byte>)
    requires Decode(w, pos) == Ok(Decoded(owner.labels, at))
    requires RecordTypeFromWire(kind.Wire()) == kind && |data| < 0x1_0000
    requires Holds(w, at, Be16(kind.Wire()) + (Be16(class_) + (Be32(ttl) + (Be16(|data|) + data))))
    ensures RecordAt(w, pos)
            == Ok(ResourceRecord(owner, kind, ClassFieldOf(kind, class_), ttl, at + 10, |data|))
    ensures Holds(w, at + 10, data)
  {
    hide Holds, Decode, Be16, Be32, WordAt, DoubleWordAt, RecordTypeFromWire, RecordType.Wire;
    BeSizes(kind.Wire(), class_, ttl, |data|);
    HoldsConcat(w, at, Be16(kind.Wire()), Be16(class_) + (Be32(ttl) + (Be16(|data|) + data)));
    HoldsConcat(w, at + 2, Be16(class_), Be32(ttl) + (Be16(|data|) + data));
    HoldsConcat(w, at + 4, Be32(ttl), Be16(|data|) + data);
    HoldsConcat(w, at + 8, Be16(|data|), data);
    HoldsWord(w, at, kind.Wire());
    HoldsWord(w, at + 2, class_);
    HoldsDoubleWord(w, at + 4, ttl);
    HoldsWord(w, at + 8, |data|);
  }

  lemma BeSizes(a: u16, b: u16, c: u32, d: u16)
    ensures |Be16(a)| == |Be16(b)| == |Be16(d)| == 2 && |Be32(c)| == 4
  {
  }

  lemma AnswerEnvelope(w: seq<byte>, pos: nat, name: DomainName, a: LocalAnswer)
    requires pos > HEADER_LENGTH
    requires name.Valid() && Holds(w, HEADER_LENGTH, Names.Encode(name.labels))
    requires Holds(w, pos, AnswerBytes(Some(a)))
    ensures RecordAt(w, pos) == Ok(ResourceRecord(name, A, Dns(In), a.ttl, pos + 12, 4))
    ensures Holds(w, pos + 12, Be32(a.address))
  {
    hide Holds, Decode, RecordAt, Be16, Be32;
    BeSizes(0, 0, a.address, 0);
    var envelope := Be16(A.Wire()) + (Be16(In.Wire()) + (Be32(a.ttl) + (Be16(4) + Be32(a.address))));
    HoldsConcat(w, pos, [0xc0, 0x0c], envelope);
    DecodePointerTo(w, pos, HEADER_LENGTH, name);
    EnvelopeReads(w, pos, name, pos + 2, A, In.Wire(), a.ttl, Be32(a.address));
  }

  lemma AddressReads(w: seq<byte>, s: Findings, r: ResourceRecord)
    requires RecordAt(w, s.pos) == Ok(r)
    requires r.kind == A && r.classField == Dns(In) && r.dataLength == 4 && r.End() <= |w|
    ensures ReadRecord(w, Answer, s) == Ok(s.(pos := r.End()))
  {
    hide RecordAt, Decode, ValidateFrom, Locate;
  }

  /** The answer is an A record of the question name. */
  lemma AnswerReads(w: seq<byte>, pos: nat, name: DomainName, a: LocalAnswer, s: Findings)
    requires s.pos == pos > HEADER_LENGTH
    requires name.Valid() && Holds(w, HEADER_LENGTH, Names.Encode(name.labels))
    requires Holds(w, pos, AnswerBytes(Some(a)))
    ensures ReadRecord(w, Answer, s) == Ok(s.(pos := pos + 16))
  {
    hide RecordAt, AnswerBytes, Decode, ReadRecord, Holds;
    AnswerEnvelope(w, pos, name, a);
    HoldsFits(w, pos + 12, Be32(a.address));
    AddressReads(w, s, ResourceRecord(name, A, Dns(In), a.ttl, pos + 12, 4));
  }

  function PrintedCookie(opt: GeneratedOpt, rdataAt: nat): Option<CookieField>
    requires rdataAt >= 2
  {
    if opt.WithOpt? && opt.cookie.Some? then
      Some(Present(CookieSlot(rdataAt + 2, rdataAt + 4, |opt.cookie.value|, rdataAt - 2)))
    else None
  }

  /** A cookie that is printed has a length that COOKIE allows. */
  predicate PrintableOpt(opt: GeneratedOpt) {
    opt.WithOpt? && opt.cookie.Some? ==> CookieLength(|opt.cookie.value|)
  }

  lemma CookieOptionReads(w: seq<byte>, at: nat, opt: GeneratedOpt)
    requires opt.WithOpt? && PrintableOpt(opt) && at >= 2
    requires Holds(w, at, CookieBytes(opt.cookie))
    ensures OptionsFill(w, at, at + |CookieBytes(opt.cookie)|)
    ensures Locate(w, at, |CookieBytes(opt.cookie)|) == PrintedCookie(opt, at)
    ensures opt.cookie.Some? ==> Holds(w, at + 4, opt.cookie.value)
  {
    hide Holds, Be16, WordAt;
    var end := at + |CookieBytes(opt.cookie)|;
    HoldsFits(w, at, CookieBytes(opt.cookie));
    if opt.cookie.None? {
      assert OptionsTile(w, at, [], end);
    } else {
      var c := opt.cookie.value;
      BeSizes(COOKIE_OPTION, |c|, 0, 0);
      HoldsConcat(w, at, Be16(COOKIE_OPTION), Be16(|c|) + c);
      HoldsConcat(w, at + 2, Be16(|c|), c);
      HoldsWord(w, at, COOKIE_OPTION);
      HoldsWord(w, at + 2, |c|);
      assert OptionsTile(w, end, [], end);
      OptionsFillNext(w, at, end);
    }
  }

  lemma OptEnvelope(w: seq<byte>, pos: nat, code: ResponseCode, opt: GeneratedOpt)
    requires opt.WithOpt? && PrintableOpt(opt) && Holds(w, pos, OptBytes(code, opt))
    ensures var data := CookieBytes(opt.cookie);
            && RecordAt(w, pos) == Ok(ResourceRecord(DomainName([]), Opt, UdpPayload(SERVER_UDP_LENGTH),
                                                     OptTtl(code, opt.dnssecOk), pos + 11, |data|))
            && |OptBytes(code, opt)| == 11 + |data|
            && Holds(w, pos + 11, data)
  {
    hide Holds, Decode, RecordAt, OptTtl, CookieBytes, OptBytes, Be16, Be32;
    var data := CookieBytes(opt.cookie);
    CookieSizes(opt);
    OptBytesShape(code, opt);
    HoldsConcat(w, pos, [0], OptFields(code, opt));
    RootReads(w, pos);
    EnvelopeReads(w, pos, DomainName([]), pos + 1, Opt, SERVER_UDP_LENGTH, OptTtl(code, opt.dnssecOk), data);
  }

  /** The octets of OPT after its owner. */
  function OptFields(code: ResponseCode, opt: GeneratedOpt): seq<byte>
    requires opt.WithOpt? && PrintableOpt(opt)
  {
    CookieSizes(opt);
    var data := CookieBytes(opt.cookie);
    Be16(Opt.Wire()) + (Be16(SERVER_UDP_LENGTH) + (Be32(OptTtl(code, opt.dnssecOk)) + (Be16(|data|) + data)))
  }

  lemma OptBytesShape(code: ResponseCode, opt: GeneratedOpt)
    requires opt.WithOpt? && PrintableOpt(opt)
    ensures OptBytes(code, opt) == [0] + OptFields(code, opt)
    ensures |OptBytes(code, opt)| == 11 + |CookieBytes(opt.cookie)|
  {
    hide Be16, Be32, CookieBytes, OptTtl;
    CookieSizes(opt);
    BeSizes(Opt.Wire(), SERVER_UDP_LENGTH, OptTtl(code, opt.dnssecOk), |CookieBytes(opt.cookie)|);
  }

  lemma RootReads(w: seq<byte>, pos: nat)
    requires Holds(w, pos, [0])
    ensures Decode(w, pos) == Ok(Decoded([], pos + 1))
  {
    DecodeOfEncode(w, pos, DomainName([]));
    hide Decode;
  }

  lemma CookieSizes(opt: GeneratedOpt)
    requires opt.WithOpt? && PrintableOpt(opt)
    ensures |CookieBytes(opt.cookie)| == if opt.cookie.Some? then 4 + |opt.cookie.value| else 0
  {
  }

  /** A printed OPT is accepted, with the metadata that was printed. */
  lemma OptReads(w: seq<byte>, pos: nat, code: ResponseCode, opt: GeneratedOpt, s: Findings)
    requires s.pos == pos && s.edns.None?
    requires opt.WithOpt? && PrintableOpt(opt) && Holds(w, pos, OptBytes(code, opt))
    ensures ReadRecord(w, Additional, s)
            == Ok(Findings(pos + |OptBytes(code, opt)|, PrintedEdns(code, opt), PrintedCookie(opt, pos + 11),
                           s.authenticated))
    ensures opt.cookie.Some? ==> Holds(w, pos + 15, opt.cookie.value)
  {
    hide ReadRecord, RecordAt, OptionsFill, Locate, EdnsOf, OptTtl, OptBytes, CookieBytes, Holds;
    var data := CookieBytes(opt.cookie);
    OptEnvelope(w, pos, code, opt);
    CookieOptionReads(w, pos + 11, opt);
    HoldsFits(w, pos + 11, data);
    PrintedTtl(code, opt.dnssecOk);
    OptRecordReads(w, s, ResourceRecord(DomainName([]), Opt, UdpPayload(SERVER_UDP_LENGTH),
                                        OptTtl(code, opt.dnssecOk), pos + 11, |data|));
  }

  // ----- the whole reply -----

  function AnswerAt(question: Option<Question>): nat {
    HEADER_LENGTH + |QuestionBytes(question)|
  }

  function OptAt(question: Option<Question>, answer: Option<LocalAnswer>): nat {
    AnswerAt(question) + |AnswerBytes(answer)|
  }

  /** The packet that a printed reply denotes. */
  function PrintedPacket(
    h: Header, question: Option<Question>, code: ResponseCode, truncated: bool, opt: GeneratedOpt,
    answer: Option<LocalAnswer>): Packet
  {
    Packet(ReplyWire(h, question, code, truncated, opt, answer),
           ReplyHeader(h, question, code, truncated, opt, answer),
           if question.Some? then [question.value] else [],
           PrintedEdns(code, opt), false, PrintedCookie(opt, OptAt(question, answer) + 11))
  }

  /** What the printer is asked for: a decoded question, an answer only to a question, a legal cookie. */
  ghost predicate Printable(question: Option<Question>, opt: GeneratedOpt, answer: Option<LocalAnswer>) {
    && (question.Some? ==> question.value.Valid())
    && (answer.Some? ==> question.Some?)
    && PrintableOpt(opt)
  }

  lemma {:induction false} ReadRecordsConcat(
    w: seq<byte>, first: seq<RecordSection>, rest: seq<RecordSection>, s: Findings)
    ensures ReadRecords(w, first + rest, s)
            == match ReadRecords(w, first, s)
               case Err(e) => Err(e)
               case Ok(next) => ReadRecords(w, rest, next)
    decreases |first|
  {
    hide ReadRecord;
    if first == [] {
      assert first + rest == rest;
    } else {
      assert (first + rest)[0] == first[0] && (first + rest)[1..] == first[1..] + rest;
      if ReadRecord(w, first[0], s).Ok? {
        ReadRecordsConcat(w, first[1..], rest, ReadRecord(w, first[0], s).value);
      }
    }
  }

  lemma ReadOne(w: seq<byte>, section: RecordSection, s: Findings)
    ensures ReadRecords(w, [section], s) == ReadRecord(w, section, s)
    ensures ReadRecords(w, [], s) == Ok(s)
  {
    hide ReadRecord;
    if ReadRecord(w, section, s).Ok? {
      assert ReadRecords(w, [], ReadRecord(w, section, s).value) == ReadRecord(w, section, s);
    }
  }

  lemma PrintedSections(h: Header)
    requires h.answers <= 1 && h.authorities == 0 && h.additionals <= 1
    ensures h.Sections()
            == (if h.answers == 1 then [Answer] else []) + (if h.additionals == 1 then [Additional] else [])
  {
  }

  /** The parts of a reply, where they are. */
  lemma ReplyLayout(
    h: Header, question: Option<Question>, code: ResponseCode, truncated: bool, opt: GeneratedOpt,
    answer: Option<LocalAnswer>)
    ensures var w := ReplyWire(h, question, code, truncated, opt, answer);
            && Holds(w, 0, ReplyHeader(h, question, code, truncated, opt, answer).Encode())
            && Holds(w, HEADER_LENGTH, QuestionBytes(question))
            && Holds(w, AnswerAt(question), AnswerBytes(answer))
            && Holds(w, OptAt(question, answer), OptBytes(code, opt))
            && |w| == OptAt(question, answer) + |OptBytes(code, opt)|
  {
    var w := ReplyWire(h, question, code, truncated, opt, answer);
    var header := ReplyHeader(h, question, code, truncated, opt, answer).Encode();
    var tail := AnswerBytes(answer) + OptBytes(code, opt);
    hide ReplyHeader, QuestionBytes, AnswerBytes, OptBytes, Header.Encode;
    HoldsAll(w);
    hide Holds;
    HoldsConcat(w, 0, header, QuestionBytes(question) + tail);
    HoldsConcat(w, HEADER_LENGTH, QuestionBytes(question), tail);
    HoldsConcat(w, AnswerAt(question), AnswerBytes(answer), OptBytes(code, opt));
  }

  lemma PartSizes(question: Option<Question>, code: ResponseCode, opt: GeneratedOpt, answer: Option<LocalAnswer>)
    requires Printable(question, opt, answer)
    ensures if question.Some? then 5 <= |QuestionBytes(question)| <= 259 else QuestionBytes(question) == []
    ensures |AnswerBytes(answer)| == if answer.Some? then 16 else 0
    ensures if opt.WithOpt? then 11 <= |OptBytes(code, opt)| <= 55 else OptBytes(code, opt) == []
  {
  }

  /** The questions of a reply. */
  lemma QuestionsRead(w: seq<byte>, question: Option<Question>)
    requires question.Some? ==> question.value.Valid()
    requires Holds(w, HEADER_LENGTH, QuestionBytes(question))
    ensures QuestionsAt(w, HEADER_LENGTH, if question.Some? then 1 else 0)
            == Ok(ReadQuestions(if question.Some? then [question.value] else [], AnswerAt(question)))
  {
    if question.Some? {
      hide QuestionAt, Holds, Question.Encode;
      var q := question.value;
      QuestionReads(w, HEADER_LENGTH, q);
      assert QuestionsAt(w, AnswerAt(question), 0) == Ok(ReadQuestions([], AnswerAt(question)));
      assert [q] + [] == [q];
    }
  }

  /** The records of a reply. */
  lemma RecordsRead(w: seq<byte>, h: Header, question: Option<Question>, code: ResponseCode, opt: GeneratedOpt,
                    answer: Option<LocalAnswer>)
    requires Printable(question, opt, answer)
    requires h.answers == (if answer.Some? then 1 else 0) && h.authorities == 0
    requires h.additionals == if opt.WithOpt? then 1 else 0
    requires Holds(w, HEADER_LENGTH, QuestionBytes(question))
    requires Holds(w, AnswerAt(question), AnswerBytes(answer))
    requires Holds(w, OptAt(question, answer), OptBytes(code, opt))
    ensures ReadRecords(w, h.Sections(), Findings(AnswerAt(question), None, None, false))
            == Ok(Findings(OptAt(question, answer) + |OptBytes(code, opt)|, PrintedEdns(code, opt),
                           PrintedCookie(opt, OptAt(question, answer) + 11), false))
  {
    hide ReadRecords, ReadRecord, Header.Sections, Holds, OptBytes, AnswerBytes, QuestionBytes, QuestionAt, PrintedEdns;
    PrintedSections(h);
    var s := Findings(AnswerAt(question), None, None, false);
    var t := Findings(OptAt(question, answer), None, None, false);
    ReadRecordsConcat(w, if answer.Some? then [Answer] else [], if opt.WithOpt? then [Additional] else [], s);
    AnswersRead(w, question, answer, s);
    OptsRead(w, code, opt, t);
  }

  lemma AnswersRead(w: seq<byte>, question: Option<Question>, answer: Option<LocalAnswer>, s: Findings)
    requires question.Some? ==> question.value.Valid()
    requires answer.Some? ==> question.Some?
    requires s.pos == AnswerAt(question)
    requires Holds(w, HEADER_LENGTH, QuestionBytes(question))
    requires Holds(w, AnswerAt(question), AnswerBytes(answer))
    ensures ReadRecords(w, if answer.Some? then [Answer] else [], s) == Ok(s.(pos := OptAt(question, answer)))
  {
    hide ReadRecords, ReadRecord, Holds, AnswerBytes, QuestionAt;
    ReadOne(w, Answer, s);
    AnswerSize(answer);
    if answer.Some? {
      QuestionReads(w, HEADER_LENGTH, question.value);
      AnswerReads(w, AnswerAt(question), question.value.name, answer.value, s);
    }
  }

  lemma AnswerSize(answer: Option<LocalAnswer>)
    ensures |AnswerBytes(answer)| == if answer.Some? then 16 else 0
  {
  }

  lemma OptsRead(w: seq<byte>, code: ResponseCode, opt: GeneratedOpt, s: Findings)
    requires s.edns.None? && s.cookie.None? && PrintableOpt(opt)
    requires Holds(w, s.pos, OptBytes(code, opt))
    ensures ReadRecords(w, if opt.WithOpt? then [Additional] else [], s)
            == Ok(Findings(s.pos + |OptBytes(code, opt)|, PrintedEdns(code, opt), PrintedCookie(opt, s.pos + 11),
                           s.authenticated))
  {
    hide ReadRecords, ReadRecord, Holds;
    ReadOne(w, Additional, s);
    if opt.WithOpt? {
      hide OptBytes, PrintedEdns;
      OptReads(w, s.pos, code, opt, s);
    }
  }

  /** Parsing undoes printing, for every reply; and a reply always fits the classic UDP bound. */
  lemma ReplyParses(
    h: Header, question: Option<Question>, code: ResponseCode, truncated: bool, opt: GeneratedOpt,
    answer: Option<LocalAnswer>)
    requires Printable(question, opt, answer)
    ensures Parse(ReplyWire(h, question, code, truncated, opt, answer))
            == Ok(PrintedPacket(h, question, code, truncated, opt, answer))
    ensures |ReplyWire(h, question, code, truncated, opt, answer)| <= CLASSIC_UDP_LENGTH
  {
    hide QuestionsAt, ReadRecords, Holds, ReplyWire, QuestionBytes, AnswerBytes, OptBytes, ReplyFlags, PrintedEdns,
      PrintedCookie, Header.Sections;
    var w := ReplyWire(h, question, code, truncated, opt, answer);
    var header := ReplyHeader(h, question, code, truncated, opt, answer);
    ReplyLayout(h, question, code, truncated, opt, answer);
    PartSizes(question, code, opt, answer);
    HeaderReads(w, header);
    QuestionsRead(w, question);
    RecordsRead(w, header, question, code, opt, answer);
  }
}
