/** The exact outgoing bytes with their metadata, and what may answer them (src/dns/message.rs, src/dns/parser.rs). */
module SentQueries {
  import opened Outcomes
  import opened Bytes
  import opened Names
  import opened Types
  import opened Messages
  import opened Records
  import opened HeaderEdits
  import opened Cookies
  import opened CookieRetry
  import opened CookieRewrite

  datatype SentQuery = SentQuery(packet: Packet, cookieRequired: bool)

  /** The first attempt: only the ID of the client's query is replaced. */
  function Sent(query: Packet, id: TransactionId): SentQuery
    requires |query.wire| >= HEADER_LENGTH
  {
    SentQuery(query.(header := query.header.(id := id), wire := query.WithId(id)), false)
  }

  /** A retry takes new bytes and therefore parses them again; from now on the response needs a cookie. */
  function RetrySent(wire: seq<byte>, id: TransactionId): Result<SentQuery, ParseError>
    requires |wire| >= 2
  {
    match Parse(Be16(id) + wire[2..])
    case Err(failure) => Err(failure.error)
    case Ok(packet) => Ok(SentQuery(packet, true))
  }

  /** A complete response that is correlated to the bytes that were sent, cookie included. */
  predicate Validates(sent: SentQuery, response: Packet)
    requires SlotInWire(sent.packet) && SlotInWire(response)
  {
    && sent.packet.Forwardable()
    && !response.header.Truncated()
    && response.CorrespondsTo(sent.packet, sent.packet.header.id)
    && ValidResponse(sent.packet, response, sent.cookieRequired)
  }

  /** The header and question of a datagram that may be cut inside a record. */
  predicate MatchesTruncated(sent: SentQuery, wire: seq<byte>) {
    match ParseHeader(wire)
    case Err(_) => false
    case Ok(h) =>
      && h.Truncated()
      && h.id == sent.packet.header.id
      && h.MessageType() == ResponseMessage
      && h.Opcode() == sent.packet.header.Opcode()
      && h.questions == 1
      && match QuestionAt(wire, HEADER_LENGTH)
         case Err(_) => false
         case Ok(q) => SameQuestions(sent.packet.questions, [q.question])
  }

  /** What every query that reaches a socket satisfies: its decoded view is that of its own bytes. */
  ghost predicate Sound(sent: SentQuery) {
    && Faithful(sent.packet)
    && SlotInWire(sent.packet) && SlotShaped(sent.packet)
    && HEADER_LENGTH <= |sent.packet.wire| <= MAX_MESSAGE_LENGTH
  }

  lemma FaithfulIsSound(sent: SentQuery)
    requires Faithful(sent.packet)
    ensures Sound(sent)
  {
    hide Parse;
    AcceptedCookies(sent.packet);
    FaithfulHeader(sent.packet);
  }

  /** Sending under a new ID keeps the decoded view true of the bytes, without parsing again. */
  lemma SentIsSound(query: Packet, id: TransactionId)
    requires Faithful(query)
    ensures |query.wire| >= HEADER_LENGTH
    ensures Sound(Sent(query, id))
    ensures query.Forwardable() ==> Sent(query, id).packet.Forwardable()
    ensures var w := Sent(query, id).packet.wire;
            |w| == |query.wire| && WordAt(w, 0) == id && w[2..] == query.wire[2..]
  {
    hide Parse;
    WithIdIsSound(query, id);
    FaithfulIsSound(Sent(query, id));
  }

  /** Retrying unchanged bytes always succeeds, and changes only the ID. */
  lemma RetryOfSameBytes(sent: SentQuery, id: TransactionId)
    requires Sound(sent)
    ensures RetrySent(sent.packet.wire, id) == Ok(SentQuery(Sent(sent.packet, id).packet, true))
    ensures Sound(RetrySent(sent.packet.wire, id).value)
  {
    hide Parse, SlotInWire, SlotShaped;
    WithIdIsSound(sent.packet, id);
    FaithfulIsSound(SentQuery(Sent(sent.packet, id).packet, true));
  }

  lemma RetryIsSound(wire: seq<byte>, id: TransactionId)
    requires |wire| >= 2 && RetrySent(wire, id).Ok?
    ensures Sound(RetrySent(wire, id).value)
    ensures RetrySent(wire, id).value.packet.header.id == id
    ensures RetrySent(wire, id).value.packet.wire == Be16(id) + wire[2..]
  {
    var w := Be16(id) + wire[2..];
    ParsedWire(w);
    FaithfulIsSound(RetrySent(wire, id).value);
    FaithfulHeader(RetrySent(wire, id).value.packet);
    HoldsId(w, id, wire[2..]);
    hide Parse;
  }

  lemma ParsedWire(w: seq<byte>)
    requires Parse(w).Ok?
    ensures Parse(w).value.wire == w
  {
  }

  lemma HoldsId(w: seq<byte>, id: TransactionId, rest: seq<byte>)
    requires w == Be16(id) + rest
    ensures |w| >= 2 && WordAt(w, 0) == id
  {
  }

  /** A query whose rewrites keep its meaning: OPT is the only additional record, and the question stands alone. */
  ghost predicate Plain(p: Packet) {
    p.header.additionals == 1 && QuestionStandsAlone(p)
  }

  /** A new ID keeps a query plain. */
  lemma PlainWithId(p: Packet, id: TransactionId)
    requires |p.wire| >= HEADER_LENGTH && QuestionStandsAlone(p)
    ensures QuestionStandsAlone(p.(header := p.header.(id := id), wire := p.WithId(id)))
  {
    if p.cookie.Some? && p.cookie.value.Present? {
      var limit, w := p.cookie.value.slot.rdlengthAt, p.WithId(id);
      assert forall i :: 2 <= i < |w| ==> w[i] == p.wire[i];
      DecodeReadsNoHeader(p.wire[..limit], w[..limit], HEADER_LENGTH, 1, []);
    }
  }

  /** The cookie retry that `retry` proposes goes out as the same query with the new cookie and a new ID. */
  lemma RetryOfRewrite(sent: SentQuery, response: Packet, id: TransactionId)
    requires Sound(sent) && Faithful(response)
    requires Retry(sent.packet, response).Rewrite?
    requires sent.packet.Forwardable() && Plain(sent.packet)
    ensures |Retry(sent.packet, response).wire| >= HEADER_LENGTH
    ensures var r := RetrySent(Retry(sent.packet, response).wire, id);
            && r.Ok? && Sound(r.value) && r.value.cookieRequired
            && r.value.packet.Forwardable()
            && r.value.packet.header == sent.packet.header.(id := id)
            && r.value.packet.questions == sent.packet.questions
            && r.value.packet.edns == sent.packet.edns
            && Plain(r.value.packet)
  {
    hide Parse, Retry, QuestionStandsAlone, Rewritten;
    RewriteKeepsMeaning(sent.packet, response);
    var w := Retry(sent.packet, response).wire;
    var p := Parse(w).value;
    assert Faithful(p);
    WithIdIsSound(p, id);
    PlainWithId(p, id);
    RetryIsSound(w, id);
  }

  /** A rewrite never repeats the bytes that were sent, whatever the two IDs are. */
  lemma RewriteIsNew(sent: SentQuery, response: Packet)
    requires Sound(sent) && Faithful(response) && Retry(sent.packet, response).Rewrite?
    ensures |Retry(sent.packet, response).wire| >= HEADER_LENGTH
    ensures Retry(sent.packet, response).wire[2..] != sent.packet.wire[2..]
  {
    hide Parse;
    AcceptedCookies(response);
    AcceptedSlotFits(sent.packet);
    hide Retry, RewrittenWire;
    RewriteNeedsMatch(sent.packet, response);
    RetryRewrites(sent.packet, response);
    RewriteChangesCookie(sent.packet, response);
    var slot, w := sent.packet.cookie.value.slot, Retry(sent.packet, response).wire;
    var newLen := response.cookie.value.slot.dataLen;
    assert ResponseCookie(sent.packet).value == sent.packet.wire[slot.dataAt..slot.dataAt + slot.dataLen];
    DifferentSlices(w, sent.packet.wire, slot.dataAt, slot.dataAt + newLen);
  }

  lemma DifferentSlices(a: seq<byte>, b: seq<byte>, i: nat, j: nat)
    requires 2 <= i <= j <= |a| && |b| >= 2
    requires |a| == |b| ==> a[i..j] != b[i..j]
    ensures a[2..] != b[2..]
  {
    SliceOfTail(a, i, j);
    if |a| == |b| {
      SliceOfTail(b, i, j);
    }
  }

  lemma SliceOfTail(a: seq<byte>, i: nat, j: nat)
    requires 2 <= i <= j <= |a|
    ensures a[2..][i - 2..j - 2] == a[i..j]
  {
    forall k | 0 <= k < j - i ensures a[2..][i - 2..j - 2][k] == a[i..j][k] {
    }
  }
}
