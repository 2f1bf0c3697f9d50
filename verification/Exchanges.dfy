/**
 * One exchange with one server: what it may send, what it hands back, and what its failure rests on
 * (src/upstream.rs).
 */
module Exchanges {
  import opened Outcomes
  import opened Bytes
  import opened Names
  import opened Types
  import opened Messages
  import opened Records
  import opened Cookies
  import opened SentQueries
  import opened Transport

  /** Milliseconds. */
  const ATTEMPT_TIMEOUT: nat := 2000
  const TCP_REUSE_IDLE: nat := 2000
  const MAX_INVALID_RESPONSES: nat := 64

  /** Checks of one exchange that are not followed by a call, at most. */
  const SPARE_CHECKS: nat := 12

  datatype ForwardError =
    | ExchangeTimeout
    | ShutdownRequested
    | IoFailure(io: IoError)
    | ParseFailed(parse: ParseError)
    | InvalidResponse
    | UpstreamServerFailure
    | UpstreamRefused

  function FromIo(e: IoError): ForwardError {
    match e
    case Cancelled => ShutdownRequested
    case TimedOut => ExchangeTimeout
    case WouldBlock => ExchangeTimeout
    case _ => IoFailure(e)
  }

  function FromRcode(code: ResponseCode): (r: ForwardError)
    ensures r == UpstreamRefused <==> code == Refused
    ensures r != ShutdownRequested
  {
    if code == Refused then UpstreamRefused else UpstreamServerFailure
  }

  /** SERVFAIL and REFUSED describe the server, not the name. */
  predicate RetriesInGroup(code: ResponseCode) {
    code in {ServerFailure, Refused}
  }

  /** One attempt keeps its query, its ID and its deadline across fallback. */
  datatype Exchange = Exchange(sent: SentQuery, deadline: Deadline)

  datatype CachedConnection = CachedConnection(address: Endpoint, stream: TcpStream, lastUsed: nat)

  /** `p` is a complete packet that answers exactly the bytes of `sent`. */
  ghost predicate Validated(sent: SentQuery, p: Packet) {
    Sound(sent) && Faithful(p) && SlotInWire(p) && Validates(sent, p)
  }

  /** A query and the reply that was validated against it. */
  ghost predicate Correlated(e: Exchanged) {
    exists sent, p :: Validated(sent, p) && sent.packet.wire == e.query && p.wire == e.reply
  }

  function Queries(es: seq<Exchanged>): seq<seq<byte>> {
    seq(|es|, i requires 0 <= i < |es| => es[i].query)
  }

  function Replies(es: seq<Exchanged>): seq<seq<byte>> {
    seq(|es|, i requires 0 <= i < |es| => es[i].reply)
  }

  /** The stream has read exactly as many complete, correlated frames as it has written, and nothing else. */
  ghost predicate Synchronized(stream: TcpStream)
    reads stream
  {
    && stream.written == Frames(Queries(stream.exchanges))
    && stream.consumed == Frames(Replies(stream.exchanges))
    && forall e :: e in stream.exchanges ==> Correlated(e)
  }

  // ----- what a result rests on -----

  /** The message does not parse, or is not validated against the bytes that were sent. */
  ghost predicate Rejected(sent: SentQuery, w: seq<byte>) {
    !(Parse(w).Ok? && Validated(sent, Parse(w).value))
  }

  /** What one frame read moved is a whole frame with an answer. */
  ghost predicate AnswerFrame(sent: SentQuery, s: seq<byte>) {
    exists w :: Framable(w) && s == Frame(w) && !Rejected(sent, w)
  }

  /** None of the frames with numbers from `from` to `to` is an answer. */
  ghost predicate NoAnswerFrame(sent: SentQuery, frames: seq<seq<byte>>, from: nat, to: nat) {
    forall i :: from <= i < to && i < |frames| ==> !AnswerFrame(sent, frames[i])
  }

  ghost predicate NoAnswerDatagram(sent: SentQuery, received: seq<seq<byte>>, from: nat, to: nat) {
    forall i :: from <= i < to && i < |received| ==> Rejected(sent, received[i])
  }

  /** Nothing that arrived between two moments answers the query. */
  ghost predicate Unanswered(a: Moment, b: Moment, sent: SentQuery) {
    && NoAnswerFrame(sent, b.frames, |a.frames|, |b.frames|)
    && NoAnswerDatagram(sent, b.received, |a.received|, |b.received|)
  }

  /** The message was the last frame or the last datagram to arrive, and nothing else answers the query. */
  ghost predicate Heard(a: Moment, b: Moment, sent: SentQuery, w: seq<byte>) {
    || (|a.frames| < |b.frames| && b.frames[|b.frames| - 1] == Frame(w)
        && NoAnswerFrame(sent, b.frames, |a.frames|, |b.frames| - 1)
        && NoAnswerDatagram(sent, b.received, |a.received|, |b.received|))
    || (|a.received| < |b.received| && b.received[|b.received| - 1] == w
        && NoAnswerDatagram(sent, b.received, |a.received|, |b.received| - 1)
        && NoAnswerFrame(sent, b.frames, |a.frames|, |b.frames|))
  }

  /** The last frame read moved a frame that is rejected, or a length that no message has. */
  ghost predicate BadFrame(a: Moment, b: Moment, sent: SentQuery) {
    |a.frames| < |b.frames| && BadPiece(b.frames[|b.frames| - 1], sent)
  }

  ghost predicate BadPiece(s: seq<byte>, sent: SentQuery) {
    ShortFrame(s) || exists w :: Framable(w) && s == Frame(w) && Rejected(sent, w)
  }

  /** The last datagrams that arrived, as many as are put up with, were all ignored. */
  ghost predicate Flooded(a: Moment, b: Moment, sent: SentQuery) {
    && |a.received| + 64 <= |b.received|
    && forall i :: |b.received| - 64 <= i < |b.received| ==> Ignored(sent, b.received[i])
  }

  /** The stop flag is up, a call failed for good, or the deadline passed. */
  predicate Failed(a: Moment, b: Moment, deadline: Deadline, e: ForwardError) {
    if e == ShutdownRequested then b.stop else Troubled(a, b, deadline)
  }

  /** Whatever arrives now is too late. */
  predicate Late(m: Moment, deadline: Deadline) {
    m.stop || m.now >= deadline.at
  }

  /** One answer arrived, but the check that followed it found no time. */
  ghost predicate LateAnswer(a: Moment, b: Moment, deadline: Deadline, sent: SentQuery) {
    Late(b, deadline) && b.checks == b.arrival && exists w :: Heard(a, b, sent, w)
  }

  /** Nothing answered, or it was too late by the first check. */
  ghost predicate Missed(a: Moment, b: Moment, deadline: Deadline, sent: SentQuery) {
    Unanswered(a, b, sent) || LateAnswer(a, b, deadline, sent)
  }

  /**
   * An exchange ends without a response only because of the system, the deadline or the peer, and never after an
   * answer that arrived in time.
   */
  ghost predicate Excused(a: Moment, b: Moment, deadline: Deadline, sent: SentQuery, e: ForwardError) {
    && (Failed(a, b, deadline, e) || (e != ShutdownRequested && (BadFrame(a, b, sent) || Flooded(a, b, sent))))
    && Missed(a, b, deadline, sent)
  }

  /** From one moment to the next nothing arrived and no check found time. */
  predicate NothingMore(a: Moment, b: Moment) {
    b.frames == a.frames && b.received == a.received && b.checks == a.checks && b.arrival == a.arrival
  }

  lemma UnansweredWhole(a: Moment, b: Moment, c: Moment, sent: SentQuery)
    requires Before(a, b) && Before(b, c) && Unanswered(a, b, sent) && Unanswered(b, c, sent)
    ensures Unanswered(a, c, sent)
  {
    hide AnswerFrame, Rejected;
    forall i | |a.frames| <= i < |c.frames| ensures !AnswerFrame(sent, c.frames[i]) {
      assert i < |b.frames| ==> c.frames[i] == b.frames[i];
    }
    forall i | |a.received| <= i < |c.received| ensures Rejected(sent, c.received[i]) {
      assert i < |b.received| ==> c.received[i] == b.received[i];
    }
  }

  lemma NothingArrived(a: Moment, b: Moment, sent: SentQuery)
    requires b.frames == a.frames && b.received == a.received
    ensures Unanswered(a, b, sent)
  {
  }

  /** What excuses the later part of an exchange excuses the whole, unless an answer in time came before. */
  lemma ExcusedEarlier(a: Moment, b: Moment, c: Moment, deadline: Deadline, sent: SentQuery, e: ForwardError)
    requires Before(a, b) && Before(b, c) && Excused(b, c, deadline, sent, e)
    requires Unanswered(a, b, sent) || (LateAnswer(a, b, deadline, sent) && NothingMore(b, c))
    ensures Excused(a, c, deadline, sent, e)
  {
    hide BadPiece, Ignored, Unanswered, Heard;
    if Unanswered(a, b, sent) {
      if Unanswered(b, c, sent) {
        UnansweredWhole(a, b, c, sent);
      } else {
        var w :| Heard(b, c, sent, w);
        HeardEarlier(a, b, c, sent, w);
      }
    } else {
      var w :| Heard(a, b, sent, w);
      HeardStill(a, b, c, sent, w);
    }
  }

  lemma HeardEarlier(a: Moment, b: Moment, c: Moment, sent: SentQuery, w: seq<byte>)
    requires Before(a, b) && Before(b, c) && Unanswered(a, b, sent) && Heard(b, c, sent, w)
    ensures Heard(a, c, sent, w)
  {
    hide Frame, AnswerFrame, Rejected;
    forall i | |a.frames| <= i < |c.frames| && i < |b.frames| ensures !AnswerFrame(sent, c.frames[i]) {
      assert c.frames[i] == b.frames[i];
    }
    forall i | |a.received| <= i < |c.received| && i < |b.received| ensures Rejected(sent, c.received[i]) {
      assert c.received[i] == b.received[i];
    }
  }

  /** What was heard stays so while nothing arrives. */
  lemma HeardStill(a: Moment, b: Moment, c: Moment, sent: SentQuery, w: seq<byte>)
    requires Heard(a, b, sent, w) && c.frames == b.frames && c.received == b.received
    ensures Heard(a, c, sent, w)
  {
    hide Frame, AnswerFrame, Rejected, NoAnswerFrame, NoAnswerDatagram;
  }

  lemma FrameIsHeard(a: Moment, b: Moment, sent: SentQuery, w: seq<byte>)
    requires b.frames == a.frames + [Frame(w)] && b.received == a.received
    ensures Heard(a, b, sent, w)
  {
    hide Frame, AnswerFrame, Rejected;
  }

  lemma DatagramIsHeard(a: Moment, b: Moment, sent: SentQuery, w: seq<byte>)
    requires |a.received| < |b.received| && b.received[|b.received| - 1] == w && b.frames == a.frames
    requires forall i :: |a.received| <= i < |b.received| - 1 ==> Ignored(sent, b.received[i])
    ensures Heard(a, b, sent, w)
  {
    hide Rejected, MatchesTruncated;
  }

  lemma IgnoredAreUnanswered(a: Moment, b: Moment, sent: SentQuery)
    requires b.frames == a.frames
    requires forall i :: |a.received| <= i < |b.received| ==> Ignored(sent, b.received[i])
    ensures Unanswered(a, b, sent)
    ensures |b.received| == |a.received| + MAX_INVALID_RESPONSES ==> Flooded(a, b, sent)
  {
    hide Rejected, MatchesTruncated;
  }

  /** A truncated message answers nothing. */
  lemma TruncatedIsRejected(sent: SentQuery, w: seq<byte>)
    requires MatchesTruncated(sent, w)
    ensures Rejected(sent, w)
  {
    if Parse(w).Ok? {
      ParsedIsFaithful(w);
      FaithfulHeader(Parse(w).value);
    }
    hide Parse, QuestionAt;
  }

  lemma TruncatedIsUnanswered(a: Moment, b: Moment, sent: SentQuery)
    requires b.frames == a.frames && |a.received| < |b.received|
    requires forall i :: |a.received| <= i < |b.received| - 1 ==> Ignored(sent, b.received[i])
    requires MatchesTruncated(sent, b.received[|b.received| - 1])
    ensures Unanswered(a, b, sent)
  {
    hide Rejected, MatchesTruncated;
    TruncatedIsRejected(sent, b.received[|b.received| - 1]);
  }

  /** A frame that is rejected is a cause, and no answer. */
  lemma RejectedFrameExcuses(a: Moment, b: Moment, deadline: Deadline, sent: SentQuery, w: seq<byte>, e: ForwardError)
    requires b.frames == a.frames + [Frame(w)] && b.received == a.received
    requires Framable(w) && Rejected(sent, w) && e != ShutdownRequested
    ensures Excused(a, b, deadline, sent, e)
  {
    hide Frame, Rejected, ShortFrame;
    assert BadPiece(Frame(w), sent);
    forall v | Framable(v) && Frame(v) == Frame(w) ensures v == w {
      SameFrame(v, w);
    }
  }

  lemma SameFrame(v: seq<byte>, w: seq<byte>)
    requires Framable(v) && Framable(w) && Frame(v) == Frame(w)
    ensures v == w
  {
    FrameIsUnique(v, w, [], []);
  }

  /** A read that did not end in a whole frame, or ended too late, excuses what its cause excuses. */
  lemma PieceExcuses(
    a: Moment, b: Moment, deadline: Deadline, sent: SentQuery, piece: seq<byte>, e: ForwardError)
    requires b.frames == a.frames + [piece] && b.received == a.received
    requires !WholeFrame(piece) || (Late(b, deadline) && b.checks == b.arrival)
    requires Failed(a, b, deadline, e) || (ShortFrame(piece) && e != ShutdownRequested)
    ensures Excused(a, b, deadline, sent, e)
  {
    hide Frame, Rejected, ShortFrame, Framable;
    if AnswerFrame(sent, piece) {
      var w :| Framable(w) && piece == Frame(w);
      FrameIsHeard(a, b, sent, w);
    }
  }

  /** A failure with nothing arrived excuses itself. */
  lemma NothingExcuses(a: Moment, b: Moment, deadline: Deadline, sent: SentQuery, e: ForwardError)
    requires b.frames == a.frames && b.received == a.received && Failed(a, b, deadline, e)
    ensures Excused(a, b, deadline, sent, e)
  {
    NothingArrived(a, b, sent);
  }

  /** A failure while listening, after datagrams that were ignored and perhaps one that came too late. */
  lemma PollExcuses(a: Moment, b: Moment, c: Moment, deadline: Deadline, sent: SentQuery, e: ForwardError)
    requires Before(a, b) && Before(b, c) && a.frames == b.frames == c.frames
    requires forall i :: |a.received| <= i < |b.received| ==> Ignored(sent, b.received[i])
    requires c.received == b.received
             || (Late(c, deadline) && c.checks == c.arrival && |c.received| == |b.received| + 1)
    requires Failed(b, c, deadline, e)
    ensures Excused(a, c, deadline, sent, e)
  {
    hide MatchesTruncated, Rejected, Heard;
    if |c.received| > |b.received| {
      var d := c.received[|b.received|];
      forall i | |a.received| <= i < |c.received| - 1 ensures Ignored(sent, c.received[i]) {
        assert c.received[i] == b.received[i];
      }
      DatagramIsHeard(a, c, sent, d);
    }
  }

  lemma FloodExcuses(a: Moment, b: Moment, deadline: Deadline, sent: SentQuery)
    requires Flooded(a, b, sent) && Unanswered(a, b, sent)
    ensures Excused(a, b, deadline, sent, InvalidResponse)
  {
  }

  lemma ExcusedIsMissed(a: Moment, b: Moment, deadline: Deadline, sent: SentQuery, e: ForwardError)
    requires Excused(a, b, deadline, sent, e)
    ensures Missed(a, b, deadline, sent)
  {
    hide Unanswered, LateAnswer;
  }

  lemma UnansweredIsMissed(a: Moment, b: Moment, deadline: Deadline, sent: SentQuery)
    requires Unanswered(a, b, sent)
    ensures Missed(a, b, deadline, sent)
  {
    hide Unanswered, LateAnswer;
  }

  lemma MissedInTime(a: Moment, b: Moment, deadline: Deadline, sent: SentQuery)
    requires Missed(a, b, deadline, sent)
    ensures Late(b, deadline) || Unanswered(a, b, sent)
  {
    hide Unanswered, Heard;
  }

  lemma ResultRestsOnWhole(
    a: Moment, b: Moment, c: Moment, exchange: Exchange, r: Result<Packet, ForwardError>)
    requires Before(a, b) && Before(b, c)
    requires Missed(a, b, exchange.deadline, exchange.sent)
    requires Late(b, exchange.deadline) ==> r.Err? && NothingMore(b, c)
    requires r.Ok? ==> Heard(b, c, exchange.sent, r.value.wire)
    requires r.Err? ==> Excused(b, c, exchange.deadline, exchange.sent, r.error)
    ensures r.Ok? ==> Heard(a, c, exchange.sent, r.value.wire)
    ensures r.Err? ==> Excused(a, c, exchange.deadline, exchange.sent, r.error)
  {
    hide Heard, Excused, Unanswered;
    MissedInTime(a, b, exchange.deadline, exchange.sent);
    match r {
      case Ok(p) => HeardEarlier(a, b, c, exchange.sent, p.wire);
      case Err(e) => ExcusedEarlier(a, b, c, exchange.deadline, exchange.sent, e);
    }
  }

  /** The same where nothing answered before, early or late. */
  lemma ResultRestsOnLater(
    a: Moment, b: Moment, c: Moment, exchange: Exchange, r: Result<Packet, ForwardError>)
    requires Before(a, b) && Before(b, c) && Unanswered(a, b, exchange.sent)
    requires r.Ok? ==> Heard(b, c, exchange.sent, r.value.wire)
    requires r.Err? ==> Excused(b, c, exchange.deadline, exchange.sent, r.error)
    ensures r.Ok? ==> Heard(a, c, exchange.sent, r.value.wire)
    ensures r.Err? ==> Excused(a, c, exchange.deadline, exchange.sent, r.error)
  {
    hide Heard, Excused, Unanswered;
    match r {
      case Ok(p) => HeardEarlier(a, b, c, exchange.sent, p.wire);
      case Err(e) => ExcusedEarlier(a, b, c, exchange.deadline, exchange.sent, e);
    }
  }

  // ----- queries, streams and datagrams -----

  lemma SoundIsFramable(sent: SentQuery)
    requires Sound(sent)
    ensures Framable(sent.packet.wire)
  {
    hide Parse;
  }

  lemma SoundHasSlots(sent: SentQuery)
    requires Sound(sent)
    ensures SlotInWire(sent.packet) && SlotShaped(sent.packet)
  {
    hide Parse;
  }

  lemma ParsedIsFaithful(w: seq<byte>)
    requires Parse(w).Ok?
    ensures Faithful(Parse(w).value) && Parse(w).value.wire == w
  {
    ParsedWire(w);
    hide Parse;
  }

  lemma ExchangesAppend(es: seq<Exchanged>, e: Exchanged)
    ensures Frames(Queries(es + [e])) == Frames(Queries(es)) + Frame(e.query)
    ensures Frames(Replies(es + [e])) == Frames(Replies(es)) + Frame(e.reply)
  {
    FramesAppend(Queries(es), e.query);
    FramesAppend(Replies(es), e.reply);
    assert Queries(es + [e]) == Queries(es) + [e.query];
    assert Replies(es + [e]) == Replies(es) + [e.reply];
  }

  lemma NewStreamIsSynchronized(stream: TcpStream)
    requires stream.written == [] && stream.consumed == [] && stream.exchanges == []
    ensures Synchronized(stream)
  {
    assert Queries([]) == [] && Replies([]) == [];
  }

  /** The datagram neither calls for TCP nor answers the query. */
  ghost predicate Ignored(sent: SentQuery, bytes: seq<byte>) {
    !MatchesTruncated(sent, bytes) && Rejected(sent, bytes)
  }

  /**
   * What a UDP exchange makes of the datagrams it received: all but the last are ignored, the last one is the
   * answer or moves the exchange to TCP, and only a full count of ignored ones makes it give up on the peer.
   */
  ghost predicate UdpOutcome(
    sent: SentQuery, got: seq<seq<byte>>, ss: seq<Transmission>, r: Result<Packet, ForwardError>)
  {
    && |got| <= 64
    && (forall i :: 0 <= i < |got| - 1 ==> Ignored(sent, got[i]))
    && (|ss| > 1 ==> got != [] && MatchesTruncated(sent, got[|got| - 1]))
    && (|ss| <= 1 && r.Ok? ==>
          got != [] && !MatchesTruncated(sent, got[|got| - 1]) && Parse(got[|got| - 1]) == Ok(r.value))
    && (|ss| <= 1 && r == Err(InvalidResponse) ==>
          |got| == 64 && Ignored(sent, got[|got| - 1]))
  }

  /** Copies of one message, all to one server over one protocol. */
  ghost predicate AllAre(ss: seq<Transmission>, server: Endpoint, protocol: Protocol, wire: seq<byte>) {
    forall s :: s in ss ==> s == Transmission(server, protocol, wire)
  }

  /** One TCP exchange: at most two copies, the second only on a reconnect. */
  ghost predicate TcpWork(ss: seq<Transmission>, server: Endpoint, wire: seq<byte>) {
    |ss| <= 2 && AllAre(ss, server, Protocol.Tcp, wire)
  }

  /** One UDP exchange: one datagram, then one TCP exchange of the same bytes if the answer was truncated. */
  ghost predicate UdpWork(ss: seq<Transmission>, server: Endpoint, wire: seq<byte>) {
    ss == [] || (ss[0] == Transmission(server, Udp, wire) && TcpWork(ss[1..], server, wire))
  }

  /** What a listener makes of the datagrams it received; `None` is a truncated answer. */
  ghost predicate Listened(sent: SentQuery, got: seq<seq<byte>>, r: Result<Option<Packet>, ForwardError>) {
    && |got| <= MAX_INVALID_RESPONSES
    && (forall i :: 0 <= i < |got| - 1 ==> Ignored(sent, got[i]))
    && match r
       case Ok(None) => got != [] && MatchesTruncated(sent, got[|got| - 1])
       case Ok(Some(p)) =>
         got != [] && !MatchesTruncated(sent, got[|got| - 1]) && Parse(got[|got| - 1]) == Ok(p)
       case Err(InvalidResponse) => |got| == MAX_INVALID_RESPONSES && Ignored(sent, got[|got| - 1])
       case Err(_) => true
  }

  /** What was heard decides the outcome of the exchange. */
  lemma ListenedDecides(
    sent: SentQuery, got: seq<seq<byte>>, listened: Result<Option<Packet>, ForwardError>, ss: seq<Transmission>,
    r: Result<Packet, ForwardError>)
    requires Listened(sent, got, listened)
    requires match listened
             case Ok(None) => |ss| > 1 || (r.Err? && r != Err(InvalidResponse))
             case Ok(Some(p)) => |ss| <= 1 && r == Ok(p)
             case Err(e) => |ss| <= 1 && r == Err(e)
    ensures UdpOutcome(sent, got, ss, r)
  {
    hide Ignored, MatchesTruncated, Parse;
  }

  // ----- a whole exchange -----

  /** The last message sent is `wire`. */
  ghost predicate EndsWith(ss: seq<Transmission>, wire: seq<byte>) {
    ss != [] && ss[|ss| - 1].wire == wire
  }

  /** The last message sent went over TCP. */
  ghost predicate EndsOverTcp(ss: seq<Transmission>, wire: seq<byte>) {
    EndsWith(ss, wire) && ss[|ss| - 1].protocol == Protocol.Tcp
  }

  /** The work of one exchange over either transport. */
  ghost predicate OneWork(ss: seq<Transmission>, server: Endpoint, transport: Protocol, wire: seq<byte>) {
    if transport == Protocol.Tcp then TcpWork(ss, server, wire) else UdpWork(ss, server, wire)
  }

  /** Every send of one exchange carries the same message; the first goes over the exchange's own transport. */
  lemma OneWorkIsUniform(ss: seq<Transmission>, server: Endpoint, transport: Protocol, wire: seq<byte>)
    requires OneWork(ss, server, transport, wire)
    ensures ss != [] ==> ss[0] == Transmission(server, transport, wire) && EndsWith(ss, wire)
    ensures ss != [] && transport == Protocol.Tcp ==> EndsOverTcp(ss, wire)
  {
    if ss != [] {
      assert ss[0] in ss && ss[|ss| - 1] in ss;
      if |ss| > 1 && transport == Udp {
        assert ss[|ss| - 1] == ss[1..][|ss| - 2] && ss[|ss| - 1] in ss[1..];
      }
    }
  }

  /** In a UDP exchange only the first send is a datagram. */
  lemma UdpWorkShape(ss: seq<Transmission>, server: Endpoint, wire: seq<byte>)
    requires UdpWork(ss, server, wire)
    ensures |ss| <= 3
    ensures forall i :: 0 <= i < |ss| ==> ss[i] == Transmission(server, if i == 0 then Udp else Protocol.Tcp, wire)
  {
    forall i | 0 < i < |ss| ensures ss[i] == Transmission(server, Protocol.Tcp, wire) {
      assert ss[i] == ss[1..][i - 1] && ss[i] in ss[1..];
    }
  }

  /** One exchange that took place: the query, how it was sent, when, what was sent for it, and the outcome. */
  datatype Try = Try(
    sent: SentQuery, over: Protocol, begin: Moment, end: Moment, sends: seq<Transmission>,
    outcome: Result<Packet, ForwardError>)

  /**
   * What every exchange is. It began with time left. A response was the first answer to arrive during the exchange,
   * and was validated against the query that was sent. Without one, the system, the deadline or the peer is the
   * cause, and no answer arrived in time.
   */
  ghost predicate GoodTry(t: Try, server: Endpoint, deadline: Deadline) {
    && Sound(t.sent)
    && t.begin.now < deadline.at && !t.begin.stop
    && Before(t.begin, t.end) && t.end.idFailures == t.begin.idFailures
    && OneWork(t.sends, server, t.over, t.sent.packet.wire)
    && Busy(t.begin, t.end, SPARE_CHECKS)
    && |t.end.received| <= |t.begin.received| + (if t.over == Udp then MAX_INVALID_RESPONSES else 0)
    && (t.over == Udp ==> UdpOutcome(t.sent, t.end.received[|t.begin.received|..], t.sends, t.outcome))
    && match t.outcome
       case Ok(p) => t.sends != [] && Validated(t.sent, p) && Heard(t.begin, t.end, t.sent, p.wire)
       case Err(e) => Excused(t.begin, t.end, deadline, t.sent, e)
  }
}
