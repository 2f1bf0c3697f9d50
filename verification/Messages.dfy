/** Parsed message metadata and the policy that classifies it (src/dns/message.rs). */
module Messages {
  import opened Outcomes
  import opened Bytes
  import opened Names
  import opened Types
  import opened Options

  const MAX_MESSAGE_LENGTH := 65535
  const CLASSIC_UDP_LENGTH := 512
  const SERVER_UDP_LENGTH := 1232

  const QR_MASK := 0x8000
  const OPCODE_UNIT := 0x800
  const TC_MASK := 0x200
  const RD_MASK := 0x100
  const RA_MASK := 0x80
  const CD_MASK := 0x10
  const DO_MASK := 0x8000

  datatype RecordSection = Answer | Authority | Additional

  datatype Header = Header(
    id: TransactionId, flags: u16, questions: u16, answers: u16, authorities: u16, additionals: u16)
  {
    function MessageType(): MessageType {
      if Bit(flags, QR_MASK) then ResponseMessage else QueryMessage
    }

    function Opcode(): Opcode {
      OpcodeFromWire(flags / OPCODE_UNIT % 16)
    }

    predicate Truncated() {
      Bit(flags, TC_MASK)
    }

    /** The section of every resource record, in the physical order of the message. */
    function Sections(): seq<RecordSection> {
      Repeat(Answer, answers) + Repeat(Authority, authorities) + Repeat(Additional, additionals)
    }

    function Encode(): (r: seq<byte>)
      ensures |r| == HEADER_LENGTH
    {
      Be16(id) + Be16(flags) + Be16(questions) + Be16(answers) + Be16(authorities) + Be16(additionals)
    }
  }

  function Repeat(section: RecordSection, count: nat): (r: seq<RecordSection>)
    ensures |r| == count
  {
    seq(count, _ => section)
  }

  /** Twelve octets decide the header; nothing behind them matters. */
  function ParseHeader(w: seq<byte>): Result<Header, ParseError> {
    if |w| < HEADER_LENGTH then Err(UnexpectedEnd)
    else Ok(Header(WordAt(w, 0), WordAt(w, 2), WordAt(w, 4), WordAt(w, 6), WordAt(w, 8), WordAt(w, 10)))
  }

  datatype Question = Question(name: DomainName, kind: RecordType, class_: RecordClass) {
    function Encode(): seq<byte> {
      Names.Encode(name.labels) + Be16(kind.Wire()) + Be16(class_.Wire())
    }

    ghost predicate Valid() {
      && name.Valid()
      && RecordTypeFromWire(kind.Wire()) == kind
      && RecordClassFromWire(class_.Wire()) == class_
    }
  }

  /** Query identity: the name without regard to case, the type and the class. */
  predicate SameQuestion(a: Question, b: Question) {
    SameName(a.name, b.name) && a.kind == b.kind && a.class_ == b.class_
  }

  predicate SameQuestions(a: seq<Question>, b: seq<Question>) {
    |a| == |b| && forall i :: 0 <= i < |a| ==> SameQuestion(a[i], b[i])
  }

  /** The fields of an OPT record that are read out of its CLASS and TTL. */
  datatype Edns = Edns(udpSize: u16, version: byte, extendedRcode: byte, dnssecOk: bool)

  /** OPT reuses CLASS for the UDP size and TTL for the extended code, the version and DO. */
  function EdnsOf(size: u16, ttl: u32): Edns {
    Edns(size, ttl / 0x1_0000 % 0x100, ttl / 0x100_0000, Bit(ttl, DO_MASK))
  }

  datatype QueryDecision = Forward | Reject(code: ResponseCode) | Ignore

  /** A decoded view together with the bytes it is a view of; `Records.Faithful` says that the two agree. */
  datatype Packet = Packet(
    wire: seq<byte>,
    header: Header,
    questions: seq<Question>,
    edns: Option<Edns>,
    authenticated: bool,
    cookie: Option<CookieField>)
  {
    /** The header's four bits and the extended code of OPT, as one number. */
    function CombinedCode(): u16 {
      (if edns.Some? then edns.value.extendedRcode as int * 16 else 0) + header.flags % 16
    }

    function ResponseCode(): ResponseCode {
      ResponseCodeFromWire(CombinedCode())
    }

    /** The bytes with only the transaction ID replaced. */
    function WithId(id: TransactionId): seq<byte>
      requires |wire| >= HEADER_LENGTH
    {
      Be16(id) + wire[2..]
    }

    /** The client's UDP capacity, between the classic bound and the local ceiling. */
    function UdpLimit(): (r: nat)
      ensures CLASSIC_UDP_LENGTH <= r <= SERVER_UDP_LENGTH
    {
      if edns.None? then CLASSIC_UDP_LENGTH
      else if edns.value.udpSize < CLASSIC_UDP_LENGTH then CLASSIC_UDP_LENGTH
      else if edns.value.udpSize > SERVER_UDP_LENGTH then SERVER_UDP_LENGTH
      else edns.value.udpSize
    }

    function ValidateQuery(): QueryDecision {
      if header.MessageType() != QueryMessage then Ignore
      else if header.Opcode() != StandardQuery then Reject(NotImplemented)
      else if |questions| != 1 || header.Truncated() || ResponseCode() != NoError
              || header.answers != 0 || header.authorities != 0 then Reject(FormatError)
      else if cookie == Some(Malformed) then Reject(FormatError)
      else if edns.Some? && edns.value.version != 0 then Reject(BadVersion)
      else if authenticated || questions[0].kind in {Axfr, Ixfr, Tkey, Tsig, Opt} then Reject(Refused)
      else Forward
    }

    predicate Forwardable() {
      ValidateQuery() == Forward
    }

    /** The packet is a response to `query` under the ID that was sent, with OPT only if the query has it. */
    predicate CorrespondsTo(query: Packet, expected: TransactionId) {
      && header.MessageType() == ResponseMessage
      && header.id == expected
      && header.Opcode() == query.header.Opcode()
      && SameQuestions(questions, query.questions)
      && (edns.Some? ==> edns.value.version == 0)
      && (query.edns.Some? || edns.None?)
      && !authenticated
    }
  }

  /** Between a client query and the response that will answer it: neither side invents OPT. */
  predicate OptAgrees(query: Packet, response: Packet) {
    query.edns.Some? || response.edns.None?
  }
}
