/**
 * What the message parser computes (src/dns/parser.rs), as functions of the wire and a position: names,
 * questions, resource records, RDATA checks, the record loop and the whole message with its error kinds.
 */
module Records {
  import opened Outcomes
  import opened Bytes
  import opened Names
  import opened Types
  import opened Options
  import opened Messages

  const QUESTION_FIXED_LENGTH := 4
  const RECORD_FIXED_LENGTH := 10

  /** What is safe to use of a malformed query when answering it. */
  datatype ReplyContext = ReplyContext(header: Header, question: Option<Question>, edns: Option<Edns>)

  datatype ParseFailure = ParseFailure(error: ParseError, context: Option<ReplyContext>)

  datatype ReadQuestion = ReadQuestion(question: Question, end: nat)

  function QuestionAt(w: seq<byte>, pos: nat): Result<ReadQuestion, ParseError> {
    var name :- Decode(w, pos);
    if name.end + 4 > |w| then Err(UnexpectedEnd)
    else
      Ok(ReadQuestion(
           Question(DomainName(name.labels),
                    RecordTypeFromWire(WordAt(w, name.end)),
                    RecordClassFromWire(WordAt(w, name.end + 2))),
           name.end + 4))
  }

  /** The two readings of the CLASS octets, chosen by the record type. */
  datatype ClassField = Dns(class_: RecordClass) | UdpPayload(size: u16)

  datatype ResourceRecord = ResourceRecord(
    owner: DomainName, kind: RecordType, classField: ClassField, ttl: u32, dataStart: nat, dataLength: u16)
  {
    function End(): nat {
      dataStart + dataLength
    }
  }

  function ClassFieldOf(kind: RecordType, wire: u16): ClassField {
    if kind == Opt then UdpPayload(wire) else Dns(RecordClassFromWire(wire))
  }

  /** A record envelope; its data is not bounded yet. */
  function RecordAt(w: seq<byte>, pos: nat): Result<ResourceRecord, ParseError> {
    var name :- Decode(w, pos);
    var at := name.end;
    if at + RECORD_FIXED_LENGTH > |w| then Err(UnexpectedEnd)
    else
      var kind := RecordTypeFromWire(WordAt(w, at));
      Ok(ResourceRecord(DomainName(name.labels), kind, ClassFieldOf(kind, WordAt(w, at + 2)),
                        DoubleWordAt(w, at + 4), at + RECORD_FIXED_LENGTH, WordAt(w, at + 8)))
  }

  /** Advances over `length` octets. */
  function Skip(w: seq<byte>, pos: nat, length: nat): Result<nat, ParseError> {
    if pos + length > |w| then Err(UnexpectedEnd) else Ok(pos + length)
  }

  function SkipName(w: seq<byte>, pos: nat): Result<nat, ParseError> {
    var name :- Decode(w, pos);
    Ok(name.end)
  }

  /** Advances over character strings until `end` is reached or passed. */
  function SkipStrings(w: seq<byte>, pos: nat, end: nat): Result<nat, ParseError>
    decreases end - pos
  {
    if pos >= end then Ok(pos)
    else if pos + 1 > |w| then Err(UnexpectedEnd)
    else
      var next :- Skip(w, pos + 1, w[pos]);
      SkipStrings(w, next, end)
  }

  /** Where the RDATA layout of a type ends when it is read from the start of the data. */
  function SkipLayout(w: seq<byte>, kind: RecordType, class_: RecordClass, start: nat, end: nat)
    : Result<nat, ParseError>
  {
    if kind == A && class_ == In then Skip(w, start, 4)
    else if kind == Aaaa && class_ == In then Skip(w, start, 16)
    else
      match kind
      case Ns => SkipName(w, start)
      case Cname => SkipName(w, start)
      case Ptr => SkipName(w, start)
      case Mx =>
        var at :- Skip(w, start, 2);
        SkipName(w, at)
      case Soa =>
        var at :- SkipName(w, start);
        var at :- SkipName(w, at);
        Skip(w, at, 20)
      case Srv =>
        var at :- Skip(w, start, 6);
        SkipName(w, at)
      case Txt => if start == end then Err(InvalidRecord) else SkipStrings(w, start, end)
      case _ => Ok(end)
  }

  /** Known layouts must fill the declared data exactly. */
  function ValidateData(w: seq<byte>, record: ResourceRecord): Result<nat, ParseError> {
    match record.classField
    case UdpPayload(_) => Err(InvalidRecord)
    case Dns(class_) =>
      var end :- SkipLayout(w, record.kind, class_, record.dataStart, record.End());
      if end != record.End() then Err(InvalidRecord) else Ok(end)
  }

  predicate Authenticates(section: RecordSection, kind: RecordType) {
    kind in {Tsig, Tkey} || (section == Additional && kind == Sig)
  }

  /** The state of the record loop. */
  datatype Findings = Findings(pos: nat, edns: Option<Edns>, cookie: Option<CookieField>, authenticated: bool)

  /** An error of the record loop, with the OPT that was seen before it. */
  datatype Fault = Fault(error: ParseError, edns: Option<Edns>)

  function ReadRecord(w: seq<byte>, section: RecordSection, s: Findings): Result<Findings, Fault> {
    match RecordAt(w, s.pos)
    case Err(e) => Err(Fault(e, s.edns))
    case Ok(record) =>
      if record.kind == Opt then
        if section != Additional || s.edns.Some? || record.owner.labels != [] then Err(Fault(InvalidEdns, s.edns))
        else
          match record.classField
          case Dns(_) => Err(Fault(InvalidEdns, s.edns))
          case UdpPayload(size) =>
            var edns := Some(EdnsOf(size, record.ttl));
            if record.End() > |w| then Err(Fault(InvalidEdns, edns))
            else if ValidateFrom(w[record.dataStart..record.End()], 0).Err? then Err(Fault(InvalidEdns, edns))
            else Ok(Findings(record.End(), edns, Locate(w, record.dataStart, record.dataLength), s.authenticated))
      else if record.End() > |w| then Err(Fault(UnexpectedEnd, s.edns))
      else
        match ValidateData(w, record)
        case Err(e) => Err(Fault(e, s.edns))
        case Ok(_) =>
          Ok(s.(pos := record.End(), authenticated := s.authenticated || Authenticates(section, record.kind)))
  }

  function ReadRecords(w: seq<byte>, sections: seq<RecordSection>, s: Findings): Result<Findings, Fault>
    decreases |sections|
  {
    if sections == [] then Ok(s)
    else
      var next :- ReadRecord(w, sections[0], s);
      ReadRecords(w, sections[1..], next)
  }

  datatype ReadQuestions = ReadQuestions(questions: seq<Question>, end: nat)

  function QuestionsAt(w: seq<byte>, pos: nat, count: nat): Result<ReadQuestions, ParseError>
    decreases count
  {
    if count == 0 then Ok(ReadQuestions([], pos))
    else
      var first :- QuestionAt(w, pos);
      var rest :- QuestionsAt(w, first.end, count - 1);
      Ok(ReadQuestions([first.question] + rest.questions, rest.end))
  }

  /** Counts that cannot fit the message are rejected before anything is allocated. */
  predicate CountsFit(w: seq<byte>, h: Header) {
    h.questions * (QUESTION_FIXED_LENGTH + 1)
    + (h.answers + h.authorities + h.additionals) * (RECORD_FIXED_LENGTH + 1) <= |w| - HEADER_LENGTH
  }

  function FirstQuestion(questions: seq<Question>): Option<Question> {
    if questions == [] then None else Some(questions[0])
  }

  /** The context kept for a failure: header only, unless the error is an OPT error. Responses have none. */
  function Failure(h: Header, error: ParseError, question: Option<Question>, edns: Option<Edns>): ParseFailure {
    ParseFailure(
      error,
      if h.MessageType() != QueryMessage then None
      else if error == InvalidEdns then Some(ReplyContext(h, question, edns))
      else Some(ReplyContext(h, None, None)))
  }

  /** The sections after an acceptable header. */
  function ParseBody(w: seq<byte>, h: Header): Result<Packet, ParseFailure> {
    match QuestionsAt(w, HEADER_LENGTH, h.questions)
    case Err(e) => Err(Failure(h, e, None, None))
    case Ok(qs) =>
      match ReadRecords(w, h.Sections(), Findings(qs.end, None, None, false))
      case Err(fault) => Err(Failure(h, fault.error, FirstQuestion(qs.questions), fault.edns))
      case Ok(s) =>
        if s.pos != |w| then Err(Failure(h, TrailingData, FirstQuestion(qs.questions), s.edns))
        else Ok(Packet(w, h, qs.questions, s.edns, s.authenticated, s.cookie))
  }

  function Parse(w: seq<byte>): Result<Packet, ParseFailure> {
    if |w| > MAX_MESSAGE_LENGTH then Err(ParseFailure(OversizedMessage, None))
    else
      match ParseHeader(w)
      case Err(e) => Err(ParseFailure(e, None))
      case Ok(h) =>
        if h.questions > 1 && h.Opcode() == StandardQuery then Err(Failure(h, InvalidCount, None, None))
        else if !CountsFit(w, h) then Err(Failure(h, InvalidCount, None, None))
        else ParseBody(w, h)
  }

  /** A packet whose decoded view is exactly what its own wire parses to. */
  ghost predicate Faithful(p: Packet) {
    Parse(p.wire) == Ok(p)
  }

  lemma FaithfulHeader(p: Packet)
    requires Faithful(p)
    ensures HEADER_LENGTH <= |p.wire| <= MAX_MESSAGE_LENGTH && ParseHeader(p.wire) == Ok(p.header)
  {
  }

  lemma {:induction false} QuestionsCount(w: seq<byte>, pos: nat, count: nat)
    requires QuestionsAt(w, pos, count).Ok?
    ensures |QuestionsAt(w, pos, count).value.questions| == count
    decreases count
  {
    if count > 0 {
      QuestionsCount(w, QuestionAt(w, pos).value.end, count - 1);
    }
  }

  /** What the section loops found in an accepted packet. */
  lemma FaithfulSteps(p: Packet) returns (qs: ReadQuestions)
    requires Faithful(p)
    ensures |p.questions| == p.header.questions
    ensures QuestionsAt(p.wire, HEADER_LENGTH, p.header.questions) == Ok(qs) && qs.questions == p.questions
    ensures ReadRecords(p.wire, p.header.Sections(), Findings(qs.end, None, None, false))
            == Ok(Findings(|p.wire|, p.edns, p.cookie, p.authenticated))
  {
    qs := QuestionsAt(p.wire, HEADER_LENGTH, p.header.questions).value;
    QuestionsCount(p.wire, HEADER_LENGTH, p.header.questions);
  }

  /** An OPT record with a fresh state and an option list that fills its data is accepted. */
  lemma OptRecordReads(w: seq<byte>, s: Findings, r: ResourceRecord)
    requires RecordAt(w, s.pos) == Ok(r) && s.edns.None?
    requires r.kind == Opt && r.owner.labels == [] && r.classField.UdpPayload?
    requires r.End() <= |w| && OptionsFill(w, r.dataStart, r.End())
    ensures ReadRecord(w, Additional, s)
            == Ok(Findings(r.End(), Some(EdnsOf(r.classField.size, r.ttl)), Locate(w, r.dataStart, r.dataLength),
                           s.authenticated))
  {
    ValidateIffFilled(w, r.dataStart, r.End(), 0);
    hide RecordAt, OptionsFill, Locate, EdnsOf, ValidateFrom;
  }
}
