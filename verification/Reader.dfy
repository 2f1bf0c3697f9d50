/** The parser as it runs (src/dns/parser.rs): a cursor that every read advances, and the section loops. */
module Reader {
  import opened Outcomes
  import opened Bytes
  import opened Names
  import opened Types
  import opened Options
  import opened Messages
  import opened Records

  /** The cursor of the parser; every method says where it stands afterwards in terms of where it stood. */
  class Reader {
    const wire: seq<byte>
    var cursor: nat

    constructor (wire: seq<byte>, cursor: nat)
      ensures this.wire == wire && this.cursor == cursor
    {
      this.wire := wire;
      this.cursor := cursor;
    }

    method Take(length: nat) returns (r: Result<seq<byte>, ParseError>)
      modifies this
      ensures old(cursor) + length <= |wire| ==>
                r == Ok(wire[old(cursor)..old(cursor) + length]) && cursor == old(cursor) + length
      ensures old(cursor) + length > |wire| ==> r == Err(UnexpectedEnd) && cursor == old(cursor)
    {
      var end := cursor + length;
      if end > |wire| {
        return Err(UnexpectedEnd);
      }
      var bytes := wire[cursor..end];
      cursor := end;
      return Ok(bytes);
    }

    method Word() returns (r: Result<u16, ParseError>)
      modifies this
      ensures old(cursor) + 2 <= |wire| ==> r == Ok(WordAt(wire, old(cursor))) && cursor == old(cursor) + 2
      ensures old(cursor) + 2 > |wire| ==> r == Err(UnexpectedEnd) && cursor == old(cursor)
    {
      var bytes :- Take(2);
      return Ok(WordAt(bytes, 0));
    }

    method DoubleWord() returns (r: Result<u32, ParseError>)
      modifies this
      ensures old(cursor) + 4 <= |wire| ==> r == Ok(DoubleWordAt(wire, old(cursor))) && cursor == old(cursor) + 4
      ensures old(cursor) + 4 > |wire| ==> r == Err(UnexpectedEnd) && cursor == old(cursor)
    {
      var bytes :- Take(4);
      return Ok(DoubleWordAt(bytes, 0));
    }

    method Name() returns (r: Result<DomainName, ParseError>)
      modifies this
      ensures match Decode(wire, old(cursor))
              case Ok(d) => r == Ok(DomainName(d.labels)) && cursor == d.end
              case Err(e) => r == Err(e)
    {
      r, cursor := DecodeName(wire, cursor);
    }

    method ReadQuestion() returns (r: Result<Question, ParseError>)
      modifies this
      ensures match QuestionAt(wire, old(cursor))
              case Ok(q) => r == Ok(q.question) && cursor == q.end
              case Err(e) => r == Err(e)
    {
      var name :- Name();
      var kind :- Word();
      var class_ :- Word();
      return Ok(Question(name, RecordTypeFromWire(kind), RecordClassFromWire(class_)));
    }

    /** Reads character strings until `end` is reached or passed. */
    method Strings(end: nat) returns (r: Result<(), ParseError>)
      modifies this
      ensures match SkipStrings(wire, old(cursor), end)
              case Ok(at) => r == Ok(()) && cursor == at
              case Err(e) => r == Err(e)
    {
      while cursor < end
        invariant SkipStrings(wire, old(cursor), end) == SkipStrings(wire, cursor, end)
        decreases end - cursor
      {
        var length :- Take(1);
        var _ :- Take(length[0]);
      }
      return Ok(());
    }

    /** Reads a record envelope; the cursor stops at its data, which is bounded later. */
    method ReadResourceRecord() returns (r: Result<ResourceRecord, ParseError>)
      modifies this
      ensures r == RecordAt(wire, old(cursor))
      ensures r.Ok? ==> cursor == r.value.dataStart
    {
      var owner :- Name();
      var kindWire :- Word();
      var kind := RecordTypeFromWire(kindWire);
      var classWire :- Word();
      var classField := if kind == Opt then UdpPayload(classWire) else Dns(RecordClassFromWire(classWire));
      var ttl :- DoubleWord();
      var dataLength :- Word();
      return Ok(ResourceRecord(owner, kind, classField, ttl, cursor, dataLength));
    }
  }

  method ValidateOptions(bytes: seq<byte>) returns (r: Result<(), ParseError>)
    ensures r.Ok? <==> ValidateFrom(bytes, 0).Ok?
    ensures r.Err? ==> r.error == InvalidEdns
  {
    var reader := new Reader(bytes, 0);
    while reader.cursor < |bytes|
      invariant reader.wire == bytes && reader.cursor <= |bytes|
      invariant ValidateFrom(bytes, 0) == ValidateFrom(bytes, reader.cursor)
      decreases |bytes| - reader.cursor
    {
      var code := reader.Word();
      if code.Err? {
        return Err(InvalidEdns);
      }
      var length := reader.Word();
      if length.Err? {
        return Err(InvalidEdns);
      }
      var data := reader.Take(length.value);
      if data.Err? {
        return Err(InvalidEdns);
      }
    }
    return Ok(());
  }

  method ReadRdata(wire: seq<byte>, record: ResourceRecord) returns (r: Result<(), ParseError>)
    ensures r == (match ValidateData(wire, record) case Ok(_) => Ok(()) case Err(e) => Err(e))
  {
    var reader := new Reader(wire, record.dataStart);
    if record.classField.UdpPayload? {
      return Err(InvalidRecord);
    }
    var class_ := record.classField.class_;
    if record.kind == A && class_ == In {
      var _ :- reader.Take(4);
    } else if record.kind == Aaaa && class_ == In {
      var _ :- reader.Take(16);
    } else {
      match record.kind {
        case Ns => var _ :- reader.Name();
        case Cname => var _ :- reader.Name();
        case Ptr => var _ :- reader.Name();
        case Mx =>
          var _ :- reader.Word();
          var _ :- reader.Name();
        case Soa =>
          var _ :- reader.Name();
          var _ :- reader.Name();
          var _ :- reader.Take(20);
        case Srv =>
          var _ :- reader.Take(6);
          var _ :- reader.Name();
        case Txt =>
          if record.dataLength == 0 {
            return Err(InvalidRecord);
          }
          var _ :- reader.Strings(record.End());
        case _ => reader.cursor := record.End();
      }
    }
    if reader.cursor != record.End() {
      return Err(InvalidRecord);
    }
    return Ok(());
  }

  method ReadAllQuestions(reader: Reader, count: nat) returns (r: Result<seq<Question>, ParseError>)
    modifies reader
    ensures match QuestionsAt(reader.wire, old(reader.cursor), count)
            case Ok(read) => r == Ok(read.questions) && reader.cursor == read.end
            case Err(e) => r == Err(e)
  {
    var questions: seq<Question> := [];
    assert forall rest: seq<Question> :: [] + rest == rest;
    for i := 0 to count
      invariant QuestionsAt(reader.wire, old(reader.cursor), count)
                == Prepend(questions, QuestionsAt(reader.wire, reader.cursor, count - i))
    {
      var question :- reader.ReadQuestion();
      PrependOne(questions, question, QuestionsAt(reader.wire, reader.cursor, count - i - 1));
      questions := questions + [question];
    }
    assert questions + [] == questions;
    return Ok(questions);
  }

  /** OPT is recorded before its data is bounded and its options are checked. */
  method ReadOpt(reader: Reader, record: ResourceRecord, s: Findings) returns (r: Result<Findings, Fault>)
    requires record.classField.UdpPayload? && record.dataStart == reader.cursor
    modifies reader
    ensures var edns := Some(EdnsOf(record.classField.size, record.ttl));
            r == if record.End() > |reader.wire|
                    || ValidateFrom(reader.wire[record.dataStart..record.End()], 0).Err?
                 then Err(Fault(InvalidEdns, edns))
                 else Ok(Findings(record.End(), edns,
                                  Locate(reader.wire, record.dataStart, record.dataLength), s.authenticated))
    ensures r.Ok? ==> r.value.pos == reader.cursor
  {
    var edns := Some(EdnsOf(record.classField.size, record.ttl));
    var data := reader.Take(record.dataLength);
    if data.Err? {
      return Err(Fault(InvalidEdns, edns));
    }
    var options := ValidateOptions(data.value);
    if options.Err? {
      return Err(Fault(options.error, edns));
    }
    var cookie := LocateCookie(reader.wire, record.dataStart, record.dataLength);
    return Ok(Findings(reader.cursor, edns, cookie, s.authenticated));
  }

  /** One turn of the record loop. */
  method ReadNext(reader: Reader, section: RecordSection, s: Findings) returns (r: Result<Findings, Fault>)
    requires s.pos == reader.cursor
    modifies reader
    ensures r == ReadRecord(reader.wire, section, s)
    ensures r.Ok? ==> r.value.pos == reader.cursor
  {
    var read := reader.ReadResourceRecord();
    if read.Err? {
      return Err(Fault(read.error, s.edns));
    }
    var record := read.value;
    if record.kind == Opt {
      if section != Additional || s.edns.Some? || |record.owner.labels| != 0 || record.classField.Dns? {
        return Err(Fault(InvalidEdns, s.edns));
      }
      r := ReadOpt(reader, record, s);
    } else {
      var data := reader.Take(record.dataLength);
      if data.Err? {
        return Err(Fault(data.error, s.edns));
      }
      var rdata := ReadRdata(reader.wire, record);
      if rdata.Err? {
        return Err(Fault(rdata.error, s.edns));
      }
      return Ok(s.(pos := reader.cursor, authenticated := s.authenticated || Authenticates(section, record.kind)));
    }
  }

  lemma ReadRecordsStep(w: seq<byte>, section: RecordSection, count: nat, later: seq<RecordSection>, s: Findings)
    requires count > 0
    ensures ReadRecords(w, Repeat(section, count) + later, s)
            == match ReadRecord(w, section, s)
               case Err(e) => Err(e)
               case Ok(next) => ReadRecords(w, Repeat(section, count - 1) + later, next)
  {
    var all := Repeat(section, count) + later;
    assert all[0] == section && all[1..] == Repeat(section, count - 1) + later;
  }

  /** All records of one section, whatever sections come `later`. */
  method ReadSection(reader: Reader, section: RecordSection, count: nat, ghost later: seq<RecordSection>, s: Findings)
    returns (r: Result<Findings, Fault>)
    requires s.pos == reader.cursor
    modifies reader
    ensures ReadRecords(reader.wire, Repeat(section, count) + later, s)
            == match r case Err(e) => Err(e) case Ok(next) => ReadRecords(reader.wire, later, next)
    ensures r.Ok? ==> r.value.pos == reader.cursor
  {
    var next := s;
    for j := 0 to count
      invariant next.pos == reader.cursor
      invariant ReadRecords(reader.wire, Repeat(section, count) + later, s)
                == ReadRecords(reader.wire, Repeat(section, count - j) + later, next)
    {
      ReadRecordsStep(reader.wire, section, count - j, later, next);
      next :- ReadNext(reader, section, next);
    }
    assert Repeat(section, 0) + later == later;
    return Ok(next);
  }

  /** The sections in the physical order of the message. */
  method ReadSections(reader: Reader, header: Header) returns (r: Result<Findings, Fault>)
    modifies reader
    ensures r == ReadRecords(reader.wire, header.Sections(), Findings(old(reader.cursor), None, None, false))
  {
    ghost var third := Repeat(Additional, header.additionals);
    ghost var second := Repeat(Authority, header.authorities) + third;
    assert header.Sections() == Repeat(Answer, header.answers) + second;
    assert third == third + [];
    var s := Findings(reader.cursor, None, None, false);
    s :- ReadSection(reader, Answer, header.answers, second, s);
    s :- ReadSection(reader, Authority, header.authorities, third, s);
    s :- ReadSection(reader, Additional, header.additionals, [], s);
    return Ok(s);
  }

  method ParseMessage(wire: seq<byte>) returns (r: Result<Packet, ParseFailure>)
    ensures r == Parse(wire)
  {
    if |wire| > MAX_MESSAGE_LENGTH {
      return Err(ParseFailure(OversizedMessage, None));
    }
    var parsed := ParseHeader(wire);
    if parsed.Err? {
      return Err(ParseFailure(parsed.error, None));
    }
    var header := parsed.value;
    if header.questions > 1 && header.Opcode() == StandardQuery {
      return Err(Failure(header, InvalidCount, None, None));
    }
    if !CountsFit(wire, header) {
      return Err(Failure(header, InvalidCount, None, None));
    }
    var reader := new Reader(wire, HEADER_LENGTH);
    var questions := ReadAllQuestions(reader, header.questions);
    if questions.Err? {
      return Err(Failure(header, questions.error, None, None));
    }
    var first := FirstQuestion(questions.value);
    var found := ReadSections(reader, header);
    if found.Err? {
      return Err(Failure(header, found.error.error, first, found.error.edns));
    }
    var s := found.value;
    if s.pos != |wire| {
      return Err(Failure(header, TrailingData, first, s.edns));
    }
    return Ok(Packet(wire, header, questions.value, s.edns, s.authenticated, s.cookie));
  }

  /** The result of the question loop, from what one of its states still yields. */
  ghost function Prepend(questions: seq<Question>, rest: Result<ReadQuestions, ParseError>)
    : Result<ReadQuestions, ParseError>
  {
    match rest
    case Err(e) => Err(e)
    case Ok(read) => Ok(ReadQuestions(questions + read.questions, read.end))
  }

  lemma PrependOne(questions: seq<Question>, q: Question, rest: Result<ReadQuestions, ParseError>)
    ensures Prepend(questions, Prepend([q], rest)) == Prepend(questions + [q], rest)
  {
    if rest.Ok? {
      assert questions + ([q] + rest.value.questions) == questions + [q] + rest.value.questions;
    }
  }
}
