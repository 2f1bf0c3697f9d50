/** Minimal local replies printed from validated metadata (src/dns/reply.rs), and reading them back. */
module Replies {
  import opened Outcomes
  import opened Bytes
  import opened Names
  import opened Types
  import opened Options
  import opened Messages
  import opened Records
  import opened Cookies

  /** The OPT record to print, if any. */
  datatype GeneratedOpt = NoOpt | WithOpt(dnssecOk: bool, cookie: Option<seq<byte>>)

  function GeneratedOptFor(edns: Option<Edns>): GeneratedOpt {
    match edns
    case None => NoOpt
    case Some(opt) => WithOpt(opt.dnssecOk, None)
  }

  /** An IPv4 address and the TTL to announce. */
  datatype LocalAnswer = LocalAnswer(address: u32, ttl: u32)

  /** Opcode, RD and CD are echoed, authority and authentication claims are cleared. */
  function ReplyFlags(flags: u16, code: ResponseCode, truncated: bool): u16 {
    var opcode: int := flags / OPCODE_UNIT % 16;
    var rd: int := flags / RD_MASK % 2;
    var cd: int := flags / CD_MASK % 2;
    var rcode: int := code.Wire() % 16;
    QR_MASK + opcode * OPCODE_UNIT + (if truncated then TC_MASK else 0) + rd * RD_MASK + RA_MASK
    + cd * CD_MASK + rcode
  }

  function ReplyHeader(
    h: Header, question: Option<Question>, code: ResponseCode, truncated: bool, opt: GeneratedOpt,
    answer: Option<LocalAnswer>): Header
  {
    Header(h.id, ReplyFlags(h.flags, code, truncated), if question.Some? then 1 else 0,
           if answer.Some? then 1 else 0, 0, if opt.WithOpt? then 1 else 0)
  }

  function QuestionBytes(question: Option<Question>): seq<byte> {
    if question.Some? then question.value.Encode() else []
  }

  /** The owner is a pointer to the question name, which starts at byte 12. */
  function AnswerBytes(answer: Option<LocalAnswer>): seq<byte> {
    match answer
    case None => []
    case Some(a) => [0xc0, 0x0c] + (Be16(A.Wire()) + (Be16(In.Wire()) + (Be32(a.ttl) + (Be16(4) + Be32(a.address)))))
  }

  /** The extended code is one octet; wider codes cannot be represented. */
  function OptTtl(code: ResponseCode, dnssecOk: bool): u32 {
    code.Wire() / 16 % 0x100 * 0x100_0000 + (if dnssecOk then DO_MASK else 0)
  }

  function CookieBytes(cookie: Option<seq<byte>>): seq<byte> {
    match cookie
    case None => []
    case Some(c) => Be16(COOKIE_OPTION) + (Be16(|c| % 0x1_0000) + c)
  }

  function OptBytes(code: ResponseCode, opt: GeneratedOpt): seq<byte> {
    match opt
    case NoOpt => []
    case WithOpt(dnssecOk, cookie) =>
      var data := CookieBytes(cookie);
      [0] + (Be16(Opt.Wire()) + (Be16(SERVER_UDP_LENGTH) + (Be32(OptTtl(code, dnssecOk))
      + (Be16(|data| % 0x1_0000) + data))))
  }

  function ReplyWire(
    h: Header, question: Option<Question>, code: ResponseCode, truncated: bool, opt: GeneratedOpt,
    answer: Option<LocalAnswer>): seq<byte>
  {
    ReplyHeader(h, question, code, truncated, opt, answer).Encode()
    + (QuestionBytes(question) + (AnswerBytes(answer) + OptBytes(code, opt)))
  }

  method AppendQuestion(out: seq<byte>, question: Question) returns (wire: seq<byte>)
    ensures wire == out + question.Encode()
  {
    wire := EncodeName(question.name, out);
    wire := wire + Be16(question.kind.Wire());
    wire := wire + Be16(question.class_.Wire());
  }

  method AppendAnswer(out: seq<byte>, answer: LocalAnswer) returns (wire: seq<byte>)
    ensures wire == out + AnswerBytes(Some(answer))
  {
    wire := out + [0xc0, 0x0c];
    wire := wire + Be16(A.Wire());
    wire := wire + Be16(In.Wire());
    wire := wire + Be32(answer.ttl);
    wire := wire + Be16(4);
    wire := wire + Be32(answer.address);
    hide Be16, Be32;
  }

  method AppendCookie(out: seq<byte>, cookie: seq<byte>) returns (wire: seq<byte>)
    ensures wire == out + CookieBytes(Some(cookie))
  {
    wire := out + Be16(COOKIE_OPTION);
    wire := wire + Be16(|cookie| % 0x1_0000);
    wire := wire + cookie;
  }

  method AppendOpt(out: seq<byte>, code: ResponseCode, opt: GeneratedOpt) returns (wire: seq<byte>)
    requires opt.WithOpt?
    ensures wire == out + OptBytes(code, opt)
  {
    var length := if opt.cookie.Some? then 4 + |opt.cookie.value| else 0;
    assert length == |CookieBytes(opt.cookie)|;
    wire := out + [0];
    wire := wire + Be16(Opt.Wire());
    wire := wire + Be16(SERVER_UDP_LENGTH);
    wire := wire + Be32(OptTtl(code, opt.dnssecOk));
    wire := wire + Be16(length % 0x1_0000);
    hide Be16, Be32, OptTtl, CookieBytes;
    ghost var envelope := wire;
    assert envelope + CookieBytes(opt.cookie) == out + OptBytes(code, opt);
    if opt.cookie.Some? {
      wire := AppendCookie(wire, opt.cookie.value);
    } else {
      assert CookieBytes(None) == [] by {
        NoCookieBytes();
      }
    }
  }

  lemma NoCookieBytes()
    ensures CookieBytes(None) == []
  {
  }

  /** Appends the reply part by part. */
  method MakeReply(
    h: Header, question: Option<Question>, code: ResponseCode, truncated: bool, opt: GeneratedOpt,
    answer: Option<LocalAnswer>) returns (wire: seq<byte>)
    ensures wire == ReplyWire(h, question, code, truncated, opt, answer)
  {
    wire := ReplyHeader(h, question, code, truncated, opt, answer).Encode();
    ghost var first, second, third := QuestionBytes(question), AnswerBytes(answer), OptBytes(code, opt);
    ghost var all := wire + (first + (second + third));
    assert all == ReplyWire(h, question, code, truncated, opt, answer);
    AbsentPartsAreEmpty(code);
    hide ReplyWire, QuestionBytes, AnswerBytes, OptBytes, ReplyHeader, ReplyFlags;
    Associate(wire, first, second, third);
    if question.Some? {
      wire := AppendQuestion(wire, question.value);
    }
    if answer.Some? {
      wire := AppendAnswer(wire, answer.value);
    }
    if opt.WithOpt? {
      wire := AppendOpt(wire, code, opt);
    }
  }

  lemma AbsentPartsAreEmpty(code: ResponseCode)
    ensures QuestionBytes(None) == [] && AnswerBytes(None) == [] && OptBytes(code, NoOpt) == []
    ensures forall q :: QuestionBytes(Some(q)) == q.Encode()
  {
  }

  lemma Associate(a: seq<byte>, b: seq<byte>, c: seq<byte>, d: seq<byte>)
    ensures a + (b + (c + d)) == a + b + c + d
    ensures b == [] ==> a + b == a
    ensures c == [] ==> a + b + c == a + b
    ensures d == [] ==> a + b + c + d == a + b + c
  {
  }

  // ----- which reply -----

  /** A local answer must not pretend to hold a verified cookie. */
  predicate SuppliesServerCookie(p: Packet)
    requires SlotInWire(p)
  {
    ResponseCookie(p).Some? && |ResponseCookie(p).value| > 8
  }

  function ErrorReply(p: Packet, code: ResponseCode): seq<byte> {
    ReplyWire(p.header, FirstQuestion(p.questions), code, false, GeneratedOptFor(p.edns), None)
  }

  function LocalErrorReply(p: Packet, code: ResponseCode): Option<seq<byte>>
    requires SlotInWire(p)
  {
    if SuppliesServerCookie(p) then None else Some(ErrorReply(p, code))
  }

  function LocalCode(q: Question): ResponseCode {
    if q.class_ == In then NoError else Refused
  }

  function LocalData(q: Question, answer: LocalAnswer): Option<LocalAnswer> {
    if q.class_ == In && q.kind in {A, Any} then Some(answer) else None
  }

  function LocalAReply(p: Packet, answer: LocalAnswer): Option<seq<byte>>
    requires SlotInWire(p)
  {
    if SuppliesServerCookie(p) || p.questions == [] then None
    else
      var q := p.questions[0];
      Some(ReplyWire(p.header, Some(q), LocalCode(q), false, GeneratedOptFor(p.edns), LocalData(q, answer)))
  }

  /** TC replies keep the validated response cookie when the client sent OPT. */
  function TruncatedOpt(query: Packet, response: Packet): GeneratedOpt
    requires SlotInWire(response)
  {
    match GeneratedOptFor(query.edns)
    case NoOpt => NoOpt
    case WithOpt(dnssecOk, _) => WithOpt(dnssecOk, ResponseCookie(response))
  }

  function TruncatedReply(query: Packet, response: Packet): seq<byte>
    requires SlotInWire(response)
  {
    ReplyWire(query.header, FirstQuestion(query.questions), response.ResponseCode(), true,
              TruncatedOpt(query, response), None)
  }

  /** The answer to a packet that does not parse; without OPT metadata it is a bare header. */
  function FormatReply(context: ReplyContext): seq<byte> {
    if context.edns.None? then ReplyWire(context.header, None, FormatError, false, NoOpt, None)
    else ReplyWire(context.header, context.question, FormatError, false, GeneratedOptFor(context.edns), None)
  }

  // ----- the builders, over the printer -----

  method BuildErrorReply(p: Packet, code: ResponseCode) returns (r: Option<seq<byte>>)
    requires SlotInWire(p)
    ensures r == LocalErrorReply(p, code)
  {
    hide ReplyWire;
    if SuppliesServerCookie(p) {
      return None;
    }
    var wire := MakeReply(p.header, FirstQuestion(p.questions), code, false, GeneratedOptFor(p.edns), None);
    return Some(wire);
  }

  method BuildLocalAReply(p: Packet, answer: LocalAnswer) returns (r: Option<seq<byte>>)
    requires SlotInWire(p)
    ensures r == LocalAReply(p, answer)
  {
    hide ReplyWire;
    if SuppliesServerCookie(p) || p.questions == [] {
      return None;
    }
    var q := p.questions[0];
    var wire := MakeReply(p.header, Some(q), LocalCode(q), false, GeneratedOptFor(p.edns), LocalData(q, answer));
    return Some(wire);
  }

  method BuildTruncatedReply(query: Packet, response: Packet) returns (wire: seq<byte>)
    requires SlotInWire(response)
    ensures wire == TruncatedReply(query, response)
  {
    hide ReplyWire;
    wire := MakeReply(query.header, FirstQuestion(query.questions), response.ResponseCode(), true,
                      TruncatedOpt(query, response), None);
  }

  method BuildFormatReply(context: ReplyContext) returns (wire: seq<byte>)
    ensures wire == FormatReply(context)
  {
    hide ReplyWire;
    if context.edns.None? {
      wire := MakeReply(context.header, None, FormatError, false, NoOpt, None);
    } else {
      wire := MakeReply(context.header, context.question, FormatError, false, GeneratedOptFor(context.edns), None);
    }
  }
}
