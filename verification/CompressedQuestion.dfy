/**
 * Why a rewrite needs a question that stands alone: a validated BADCOOKIE exchange whose retry asks for a
 * different name. The question name `01 1c c0 0d` jumps into the middle of its own first label; read forward
 * from there, its second label covers RDLENGTH and the option length, which the rewrite changes.
 */
module CompressedQuestion {
  import opened Outcomes
  import opened Bytes
  import opened Names
  import opened Types
  import opened Options
  import opened Messages
  import opened Records
  import opened HeaderEdits
  import opened Cookies
  import opened CookieRewrite
  import opened Replies
  import opened ReplyRoundTrip
  import opened ReplyMeaning
  import opened SentQueries

  const CLIENT: seq<byte> := [1, 2, 3, 4, 5, 6, 7, 0]
  const SERVER: seq<byte> := [9, 9, 9, 9, 9, 9, 9, 9]

  /** The query, with `n` octets of cookie. */
  function Prefix(n: byte): (r: seq<byte>)
    requires n <= 40
    ensures |r| == 35
  {
    [0x12, 0x34, 1, 0, 0, 1, 0, 0, 0, 0, 0, 1, 1, 28, 0xc0, 13, 0, 1, 0, 1,
     0, 0, 41, 4, 208, 0, 0, 0, 0, 0, 4 + n, 0, 10, 0, n]
  }

  function Example(cookie: seq<byte>): seq<byte>
    requires |cookie| <= 40
  {
    Prefix(|cookie|) + cookie
  }

  function ExampleName(cookie: seq<byte>): DomainName
    requires 8 <= |cookie| <= 40
  {
    DomainName([[28], Example(cookie)[14..42]])
  }

  function ExamplePacket(cookie: seq<byte>): Packet
    requires 8 <= |cookie| <= 40
  {
    Packet(Example(cookie), Header(0x1234, 0x100, 1, 0, 0, 1), [Question(ExampleName(cookie), A, In)],
           Some(Edns(1232, 0, 0, false)), false, Some(Present(CookieSlot(33, 35, |cookie|, 29))))
  }

  lemma ExampleNameDecodes(cookie: seq<byte>)
    requires 8 <= |cookie| <= 40 && cookie[7] == 0
    ensures Decode(Example(cookie), HEADER_LENGTH) == Ok(Decoded(ExampleName(cookie).labels, 16))
  {
    var w := Example(cookie);
    var labels: seq<Label> := ExampleName(cookie).labels;
    var none: seq<nat>, jump: seq<nat> := [], [13];
    assert w[42] == cookie[7];
    assert w[12] == 1 && w[13] == 28 && w[14] == 0xc0 && w[15] == 13;
    assert w[13..14] == [28];
    var rest: seq<Label> := [w[14..42]];
    assert labels[1..] == rest && |rest[1..]| == 0 && jump[1..] == none;
    assert Expands(w, 42, rest[1..], none);
    assert Expands(w, 13, rest, none);
    assert PointerTarget(w, 14) == 13;
    assert Expands(w, 14, rest, jump);
    assert Expands(w, 12, labels, jump);
    assert PhysicalEnd(w, 14) == 16;
    assert EncodedLength(rest) == 30;
    DecodeIffNameSpan(w, HEADER_LENGTH, labels, 16);
  }

  lemma ExampleWords(cookie: seq<byte>)
    requires |cookie| <= 40
    ensures var w := Example(cookie);
            && |w| == 35 + |cookie|
            && ParseHeader(w) == Ok(Header(0x1234, 0x100, 1, 0, 0, 1))
            && WordAt(w, 16) == 1 && WordAt(w, 18) == 1
            && WordAt(w, 21) == 41 && WordAt(w, 23) == 1232 && DoubleWordAt(w, 25) == 0
            && WordAt(w, 29) == 4 + |cookie| && WordAt(w, 31) == 10 && WordAt(w, 33) == |cookie|
            && w[20] == 0
  {
  }

  lemma ExampleOpt(cookie: seq<byte>)
    requires CookieLength(|cookie|) && cookie[7] == 0
    ensures SoleOpt(Example(cookie), ReadQuestion(Question(ExampleName(cookie), A, In), 20),
                    ResourceRecord(DomainName([]), Opt, UdpPayload(1232), 0, 31, 4 + |cookie|),
                    CookieSlot(33, 35, |cookie|, 29))
  {
    hide Example, WordAt, DoubleWordAt;
    var w := Example(cookie);
    ExampleWords(cookie);
    ExampleNameDecodes(cookie);
    DecodeOfEncode(w, 20, DomainName([]));
    hide Decode;
    assert OptionsTile(w, |w|, [], |w|);
    OptionsFillNext(w, 31, |w|);
  }

  lemma ExampleParses(cookie: seq<byte>)
    requires CookieLength(|cookie|) && cookie[7] == 0
    ensures Parse(Example(cookie)) == Ok(ExamplePacket(cookie))
  {
    hide Parse, SoleOpt, Example, ExampleName, ParseHeader;
    ExampleWords(cookie);
    ExampleOpt(cookie);
    SoleOptParses(Example(cookie), ExamplePacket(cookie).header, ReadQuestion(Question(ExampleName(cookie), A, In), 20),
                  ResourceRecord(DomainName([]), Opt, UdpPayload(1232), 0, 31, 4 + |cookie|),
                  CookieSlot(33, 35, |cookie|, 29));
    TtlLayout(0, false);
  }

  /** A BADCOOKIE for the query, its question written out, with the server's cookie. */
  function ExampleResponse(): seq<byte> {
    ReplyWire(ExamplePacket(CLIENT).header, Some(Question(ExampleName(CLIENT), A, In)), BadCookie, false,
              WithOpt(false, Some(CLIENT + SERVER)), None)
  }

  lemma ExampleRewrittenWire()
    ensures RewrittenWire(Example(CLIENT), CookieSlot(33, 35, 8, 29), CLIENT, SERVER) == Some(Example(CLIENT + SERVER))
  {
    var w, slot := Example(CLIENT), CookieSlot(33, 35, 8, 29);
    var out := Spliced(w, slot, CLIENT + SERVER);
    assert out == Prefix(8) + (CLIENT + SERVER);
    var sized := Patch(out, 33, 16);
    assert WordAt(sized, 29) == 12;
    assert Patch(sized, 29, 20) == Example(CLIENT + SERVER);
  }

  lemma ExampleCookies()
    ensures |CLIENT| == 8 && |SERVER| == 8
    ensures (CLIENT + SERVER)[8..] == SERVER && (CLIENT + SERVER)[..8] == CLIENT && CLIENT[..8] == CLIENT
    ensures |Example(CLIENT)| == 43 && Example(CLIENT)[35..43] == CLIENT
  {
  }

  lemma ExampleRewrite(response: Packet)
    requires SlotInWire(response) && ResponseCookie(response) == Some(CLIENT + SERVER)
    ensures SlotShaped(ExamplePacket(CLIENT))
    ensures Retry(ExamplePacket(CLIENT), response) == Rewrite(Example(CLIENT + SERVER))
  {
    ExampleRewrittenWire();
    ExampleCookies();
    hide RewrittenWire, Example, ExampleName;
  }

  lemma ExampleNamesDiffer()
    ensures !SameName(ExampleName(CLIENT + SERVER), ExampleName(CLIENT))
  {
    var a, b := ExampleName(CLIENT + SERVER), ExampleName(CLIENT);
    SameNameIsSameLabels(a, b);
    assert a.labels[1][16] == 20 && b.labels[1][16] == 12;
  }

  lemma ExampleDoesNotStandAlone()
    ensures !QuestionStandsAlone(ExamplePacket(CLIENT))
  {
    var w := Example(CLIENT);
    ExampleWords(CLIENT);
    var p := w[..29];
    assert p[12] == 1 && p[13] == 28 && p[14] == 0xc0 && p[15] == 13;
    assert PointerTarget(p, 14) == 13;
    assert DecodeFrom(p, 13, 3, [13]) == Err(UnexpectedEnd);
    assert DecodeFrom(p, 14, 3, []).Err?;
    assert DecodeFrom(p, 12, 1, []).Err?;
  }

  ghost predicate ExampleExchange(sent: SentQuery, response: Packet) {
    && sent == SentQuery(ExamplePacket(CLIENT), false)
    && Sound(sent) && Faithful(response) && SlotInWire(response)
    && Validates(sent, response)
    && response.CombinedCode() == 23
    && ResponseCookie(response) == Some(CLIENT + SERVER)
  }

  /** The response: it answers the example with BADCOOKIE and carries both cookies. */
  lemma ExampleResponseReads() returns (response: Packet)
    ensures Faithful(response) && SlotInWire(response)
    ensures Answers(response, ExamplePacket(CLIENT), BadCookie, false)
    ensures ResponseCookie(response) == Some(CLIENT + SERVER)
  {
    hide Parse, Example, ExampleName, ReplyWire, ReplyFlags, PrintedCookie, SameName, Answers;
    var packet := ExamplePacket(CLIENT);
    ExampleParses(CLIENT);
    ExampleCookies();
    var opt := WithOpt(false, Some(CLIENT + SERVER));
    PrintedReplyAnswers(packet, BadCookie, false, opt, None);
    response := Parse(ExampleResponse()).value;
    AcceptedQuestionsAreValid(packet);
    PrintedCookieIsThere(packet.header, Some(packet.questions[0]), BadCookie, false, opt);
  }

  lemma AnswersFacts(reply: Packet, query: Packet)
    requires Answers(reply, query, BadCookie, false)
    ensures reply.CorrespondsTo(query, query.header.id) && !reply.header.Truncated() && reply.CombinedCode() == 23
  {
    hide Packet.CorrespondsTo;
  }

  lemma ExampleIsValidated() returns (sent: SentQuery, response: Packet)
    ensures ExampleExchange(sent, response)
  {
    hide Parse, Example, ExampleName, SameName, Answers, Packet.CorrespondsTo, Packet.CombinedCode;
    ExampleParses(CLIENT);
    sent := SentQuery(ExamplePacket(CLIENT), false);
    FaithfulIsSound(sent);
    response := ExampleResponseReads();
    AnswersFacts(response, sent.packet);
    ExampleCookies();
    ExampleForwards();
  }

  lemma ExampleForwards()
    ensures ExamplePacket(CLIENT).Forwardable()
  {
    hide Example, ExampleName;
  }

  lemma ExampleRetry(id: TransactionId)
    ensures |Example(CLIENT + SERVER)| >= 2
    ensures var r := RetrySent(Example(CLIENT + SERVER), id);
            r.Ok? && r.value.packet.questions == ExamplePacket(CLIENT + SERVER).questions
  {
    hide Parse, ExampleName;
    ExampleParses(CLIENT + SERVER);
    ExampleWords(CLIENT + SERVER);
    WithIdIsSound(ExamplePacket(CLIENT + SERVER), id);
    hide Example;
  }

  /**
   * Without the hypothesis the property is false of the code: the query is forwardable with OPT as its only
   * additional record, the BADCOOKIE is validated, and the retry goes out with another question.
   */
  lemma CompressedRewriteChangesQuestion(id: TransactionId) returns (sent: SentQuery, response: Packet)
    ensures Sound(sent) && sent.packet.Forwardable() && sent.packet.header.additionals == 1
    ensures !QuestionStandsAlone(sent.packet)
    ensures Faithful(response) && SlotInWire(response) && Validates(sent, response)
    ensures response.ResponseCode() == BadCookie
    ensures Retry(sent.packet, response).Rewrite? && |Retry(sent.packet, response).wire| >= 2
    ensures var r := RetrySent(Retry(sent.packet, response).wire, id);
            r.Ok? && !SameQuestions(r.value.packet.questions, sent.packet.questions)
  {
    hide Parse, Example, ExampleName, QuestionStandsAlone, SameName, RetrySent, Retry, Validates, Sound;
    sent, response := ExampleIsValidated();
    ExampleDoesNotStandAlone();
    ExampleNamesDiffer();
    ExampleRewrite(response);
    ExampleRetry(id);
  }
}
