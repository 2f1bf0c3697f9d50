/**
 * The exchange with upstream servers (src/upstream.rs): every exchange is a good one, every attempt follows the
 * cookie protocol, and every request is one good walk.
 */
module Upstream {
  import opened Outcomes
  import opened Bytes
  import opened Names
  import opened Types
  import opened Messages
  import opened Records
  import opened Reader
  import opened Cookies
  import opened CookieRetry
  import opened SentQueries
  import opened Transport
  import opened Routing
  import opened Exchanges
  import opened Acceptance
  import opened Attempts
  import opened Walks

  /** Reads one message, without looking at it. */
  method ReadReply(os: Platform, stream: TcpStream, exchange: Exchange) returns (r: Result<seq<byte>, ForwardError>)
    requires os.Valid()
    modifies os`now, os`stop, os`patience, os`cleared, os`checks, os`lapses, os`faults, os`broken, os`calls,
             os`delivered, os`frames, os`arrival, stream`inbox, stream`consumed
    ensures os.Valid()
    ensures Before(old(os.Seen()), os.Seen()) && os.patience <= old(os.patience)
    ensures Busy(old(os.Seen()), os.Seen(), 3)
    ensures r.Ok? ==>
              && stream.consumed == old(stream.consumed) + Frame(r.value)
              && Framable(r.value) && os.frames == old(os.frames) + [Frame(r.value)]
              && !Late(os.Seen(), exchange.deadline)
    ensures r.Err? ==> Excused(old(os.Seen()), os.Seen(), exchange.deadline, exchange.sent, r.error)
  {
    hide Frame, ShortFrame, FrameRead, WholeFrame, Excused;
    ghost var start := os.Seen();
    var read;
    ghost var piece;
    read, piece := ReadFrame(os, stream, exchange.deadline);
    if read.Err? {
      PieceExcuses(start, os.Seen(), exchange.deadline, exchange.sent, piece, FromIo(read.error));
      return Err(FromIo(read.error));
    }
    if read.value.None? {
      EmptyIsNotWhole();
      PieceExcuses(start, os.Seen(), exchange.deadline, exchange.sent, piece, InvalidResponse);
      return Err(InvalidResponse);
    }
    var left := os.Remaining(exchange.deadline);
    if left.Err? {
      PieceExcuses(start, os.Seen(), exchange.deadline, exchange.sent, piece, FromIo(left.error));
      return Err(FromIo(left.error));
    }
    return Ok(read.value.value);
  }

  /** Sends one message and reads one, without looking at it. */
  method SwapFrames(os: Platform, stream: TcpStream, exchange: Exchange)
    returns (r: Result<seq<byte>, ForwardError>, ghost t: Trace)
    requires os.Valid() && Sound(exchange.sent)
    modifies os`now, os`stop, os`patience, os`cleared, os`checks, os`lapses, os`stamps, os`sends, os`faults,
             os`broken, os`calls, os`delivered, os`frames, os`arrival, stream
    ensures os.Valid() && stream.exchanges == old(stream.exchanges)
    ensures Before(old(os.Seen()), os.Seen()) && os.patience <= old(os.patience)
    ensures Busy(old(os.Seen()), os.Seen(), 4)
    ensures os.sends == old(os.sends) + t.sends && os.stamps == old(os.stamps) + t.stamps
    ensures t.Under(exchange.deadline)
    ensures t.sends == [Transmission(stream.address, Protocol.Tcp, exchange.sent.packet.wire)]
    ensures r.Ok? ==>
              && stream.written == old(stream.written) + Frame(exchange.sent.packet.wire)
              && stream.consumed == old(stream.consumed) + Frame(r.value)
              && Framable(r.value) && os.frames == old(os.frames) + [Frame(r.value)]
              && !Late(os.Seen(), exchange.deadline)
    ensures r.Err? ==> Excused(old(os.Seen()), os.Seen(), exchange.deadline, exchange.sent, r.error)
  {
    hide Parse, Sound, Frame, Unanswered, Excused;
    ghost var start := os.Seen();
    SoundIsFramable(exchange.sent);
    var wrote;
    wrote, t := WriteFrame(os, stream, exchange.sent.packet.wire, exchange.deadline);
    ghost var written := os.Seen();
    NothingArrived(start, written, exchange.sent);
    if wrote.Err? {
      NothingExcuses(start, written, exchange.deadline, exchange.sent, FromIo(wrote.error));
      return Err(FromIo(wrote.error)), t;
    }
    r := ReadReply(os, stream, exchange);
    if r.Err? {
      ExcusedEarlier(start, written, os.Seen(), exchange.deadline, exchange.sent, r.error);
    }
  }

  /** On success the stream carries one more validated query and reply, and nothing besides. */
  method SendOverTcp(os: Platform, stream: TcpStream, exchange: Exchange)
    returns (r: Result<Packet, ForwardError>, ghost t: Trace)
    requires os.Valid() && Sound(exchange.sent) && Synchronized(stream)
    modifies os`now, os`stop, os`patience, os`cleared, os`checks, os`lapses, os`stamps, os`sends, os`faults,
             os`broken, os`calls, os`delivered, os`frames, os`arrival, stream
    ensures os.Valid()
    ensures Before(old(os.Seen()), os.Seen()) && os.patience <= old(os.patience)
    ensures Busy(old(os.Seen()), os.Seen(), 4)
    ensures os.sends == old(os.sends) + t.sends && os.stamps == old(os.stamps) + t.stamps
    ensures t.Under(exchange.deadline)
    ensures t.sends == [Transmission(stream.address, Protocol.Tcp, exchange.sent.packet.wire)]
    ensures r.Ok? ==> Validated(exchange.sent, r.value) && Synchronized(stream)
    ensures r.Ok? ==>
              stream.exchanges == old(stream.exchanges) + [Exchanged(exchange.sent.packet.wire, r.value.wire)]
    ensures r.Ok? ==> Heard(old(os.Seen()), os.Seen(), exchange.sent, r.value.wire)
    ensures r.Err? ==> Excused(old(os.Seen()), os.Seen(), exchange.deadline, exchange.sent, r.error)
  {
    hide Parse, Validates, Sound, Frame, Heard, Excused, AnswersOctets;
    ghost var start := os.Seen();
    var read;
    read, t := SwapFrames(os, stream, exchange);
    if read.Err? {
      return Err(read.error), t;
    }
    r := Judge(exchange.sent, read.value);
    if r.Err? {
      RejectedFrameExcuses(start, os.Seen(), exchange.deadline, exchange.sent, read.value, r.error);
      return;
    }
    ghost var done := Exchanged(exchange.sent.packet.wire, read.value);
    assert Validated(exchange.sent, r.value) && Correlated(done);
    ExchangesAppend(stream.exchanges, done);
    stream.exchanges := stream.exchanges + [done];
    FrameIsHeard(start, os.Seen(), exchange.sent, read.value);
  }

  /**
   * A complete message is accepted exactly if it parses and is validated against the bytes that were sent, which is
   * to say exactly if its octets answer theirs.
   */
  method Judge(sent: SentQuery, bytes: seq<byte>) returns (r: Result<Packet, ForwardError>)
    requires Sound(sent)
    ensures r.Err? <==> Rejected(sent, bytes)
    ensures r.Ok? <==> AnswersOctets(sent.packet.wire, sent.cookieRequired, bytes)
    ensures r.Ok? ==> Parse(bytes) == Ok(r.value) && r.value.wire == bytes
    ensures r.Err? ==>
              r.error == match Parse(bytes) case Ok(_) => InvalidResponse case Err(f) => ParseFailed(f.error)
  {
    hide Parse, Validates, Sound, AnswersOctets;
    AcceptedIffAnswers(sent, bytes);
    var parsed := ParseMessage(bytes);
    if parsed.Err? {
      return Err(ParseFailed(parsed.error.error));
    }
    ParsedIsFaithful(bytes);
    AcceptedCookies(parsed.value);
    SoundHasSlots(sent);
    return if Validates(sent, parsed.value) then Ok(parsed.value) else Err(InvalidResponse);
  }

  /** A fresh socket, connected to one peer, with time left to send. */
  method OpenSocket(os: Platform, address: Endpoint, deadline: Deadline) returns (r: Result<UdpSocket, ForwardError>)
    modifies os`now, os`stop, os`patience, os`cleared, os`checks, os`lapses, os`faults, os`broken, os`calls
    ensures Before(old(os.Seen()), os.Seen()) && os.patience <= old(os.patience)
    ensures Busy(old(os.Seen()), os.Seen(), 1)
    ensures r.Ok? ==> r.value.peer == address && os.cleared == Some(deadline) && os.now < deadline.at
    ensures r != Err(InvalidResponse)
    ensures r.Err? ==> Failed(old(os.Seen()), os.Seen(), deadline, r.error)
  {
    var configured := os.Configure();
    if configured.Err? {
      return Err(FromIo(configured.error));
    }
    var socket := new UdpSocket(address);
    var left := os.Remaining(deadline);
    if left.Err? {
      return Err(FromIo(left.error));
    }
    configured := os.Configure();
    if configured.Err? {
      return Err(FromIo(configured.error));
    }
    return Ok(socket);
  }

  /** Opens a fresh socket and sends the query on it. */
  method OpenAndSend(os: Platform, address: Endpoint, exchange: Exchange)
    returns (r: Result<UdpSocket, ForwardError>, ghost t: Trace)
    requires os.Valid()
    modifies os`now, os`stop, os`patience, os`cleared, os`checks, os`lapses, os`stamps, os`sends, os`faults,
             os`broken, os`calls
    ensures os.Valid()
    ensures Before(old(os.Seen()), os.Seen()) && os.patience <= old(os.patience)
    ensures Busy(old(os.Seen()), os.Seen(), 1)
    ensures os.sends == old(os.sends) + t.sends && os.stamps == old(os.stamps) + t.stamps
    ensures t.Under(exchange.deadline)
    ensures t.sends == [] || t.sends == [Transmission(address, Udp, exchange.sent.packet.wire)]
    ensures r.Ok? ==> t.sends != []
    ensures r != Err(InvalidResponse)
    ensures r.Err? ==> Failed(old(os.Seen()), os.Seen(), exchange.deadline, r.error)
  {
    t := Trace([], []);
    r := OpenSocket(os, address, exchange.deadline);
    if r.Err? {
      return;
    }
    var sent := r.value.Send(os, exchange.deadline, exchange.sent.packet.wire);
    t := Trace([Transmission(address, Udp, exchange.sent.packet.wire)], [Stamp(os.now, exchange.deadline)]);
    if sent.Err? {
      r := Err(FromIo(sent.error));
    }
  }

  /** One turn of the receive loop: a datagram within the deadline, or nothing yet. */
  method Poll(os: Platform, socket: UdpSocket, deadline: Deadline) returns (r: Result<Option<seq<byte>>, ForwardError>)
    modifies os`now, os`stop, os`patience, os`cleared, os`checks, os`lapses, os`received, os`arrival, os`faults,
             os`broken, os`calls
    ensures Before(old(os.Seen()), os.Seen()) && os.patience <= old(os.patience)
    ensures Busy(old(os.Seen()), os.Seen(), 1)
    ensures r.Ok? ==> os.patience < old(os.patience) && Busy(old(os.Seen()), os.Seen(), 0)
    ensures |os.received| <= |old(os.received)| + 1
    ensures r.Ok? ==> os.received == old(os.received) + (if r.value.Some? then [r.value.value] else [])
    ensures r.Err? ==>
              || os.received == old(os.received)
              || (Late(os.Seen(), deadline) && os.checks == os.arrival)
    ensures r != Err(InvalidResponse)
    ensures r.Err? ==> Failed(old(os.Seen()), os.Seen(), deadline, r.error)
  {
    var left := os.Remaining(deadline);
    if left.Err? {
      return Err(FromIo(left.error));
    }
    var configured := os.Configure();
    if configured.Err? {
      return Err(FromIo(configured.error));
    }
    var received := socket.Receive(os);
    if received.Err? {
      return if Transient(received.error) then Ok(None) else Err(FromIo(received.error));
    }
    left := os.Remaining(deadline);
    if left.Err? {
      return Err(FromIo(left.error));
    }
    return Ok(Some(received.value));
  }

  /** Waits for the answer among a bounded number of datagrams. */
  method Listen(os: Platform, socket: UdpSocket, exchange: Exchange) returns (r: Result<Option<Packet>, ForwardError>)
    requires Sound(exchange.sent)
    modifies os`now, os`stop, os`patience, os`cleared, os`checks, os`lapses, os`received, os`arrival, os`faults,
             os`broken, os`calls
    ensures Before(old(os.Seen()), os.Seen()) && os.patience <= old(os.patience)
    ensures Busy(old(os.Seen()), os.Seen(), 1)
    ensures Listened(exchange.sent, os.received[|old(os.received)|..], r)
    ensures |os.received| <= |old(os.received)| + MAX_INVALID_RESPONSES
    ensures r == Ok(None) ==> Unanswered(old(os.Seen()), os.Seen(), exchange.sent)
    ensures r.Ok? && r.value.Some? ==>
              && Validated(exchange.sent, r.value.value)
              && Heard(old(os.Seen()), os.Seen(), exchange.sent, r.value.value.wire)
    ensures r.Err? ==> Excused(old(os.Seen()), os.Seen(), exchange.deadline, exchange.sent, r.error)
  {
    hide Parse, Validated, Sound, MatchesTruncated, BadFrame, Heard, Flooded, Excused, Unanswered, AnswersOctets;
    ghost var start := os.Seen();
    var invalid: nat := 0;
    while true
      invariant invalid < MAX_INVALID_RESPONSES
      invariant Before(start, os.Seen()) && os.patience <= old(os.patience) && Busy(start, os.Seen(), 0)
      invariant |os.received| == |start.received| + invalid
      invariant forall i :: |start.received| <= i < |os.received| ==> Ignored(exchange.sent, os.received[i])
      decreases os.patience
    {
      ghost var before := os.Seen();
      var received := Poll(os, socket, exchange.deadline);
      if received.Err? {
        PollExcuses(start, before, os.Seen(), exchange.deadline, exchange.sent, received.error);
        return Err(received.error);
      }
      if received.value.None? {
        continue;
      }
      var bytes := received.value.value;
      if MatchesTruncated(exchange.sent, bytes) {
        TruncatedIsUnanswered(start, os.Seen(), exchange.sent);
        return Ok(None);
      }
      var judged := Judge(exchange.sent, bytes);
      if judged.Ok? {
        DatagramIsHeard(start, os.Seen(), exchange.sent, bytes);
        return Ok(Some(judged.value));
      }
      invalid := invalid + 1;
      IgnoredAreUnanswered(start, os.Seen(), exchange.sent);
      if invalid == MAX_INVALID_RESPONSES {
        FloodExcuses(start, os.Seen(), exchange.deadline, exchange.sent);
        return Err(InvalidResponse);
      }
    }
  }

  /** One datagram from a fresh socket, and what is heard on it; `None` is a truncated answer. */
  method AskByDatagram(os: Platform, address: Endpoint, exchange: Exchange)
    returns (r: Result<Option<Packet>, ForwardError>, ghost t: Trace)
    requires os.Valid() && Sound(exchange.sent)
    modifies os`now, os`stop, os`patience, os`cleared, os`checks, os`lapses, os`stamps, os`sends, os`received,
             os`arrival, os`faults, os`broken, os`calls
    ensures os.Valid()
    ensures Before(old(os.Seen()), os.Seen()) && os.patience <= old(os.patience)
    ensures Busy(old(os.Seen()), os.Seen(), 2)
    ensures os.sends == old(os.sends) + t.sends && os.stamps == old(os.stamps) + t.stamps
    ensures t.Under(exchange.deadline)
    ensures t.sends == [] || t.sends == [Transmission(address, Udp, exchange.sent.packet.wire)]
    ensures r.Ok? ==> t.sends != []
    ensures |old(os.received)| <= |os.received| <= |old(os.received)| + MAX_INVALID_RESPONSES
    ensures Listened(exchange.sent, os.received[|old(os.received)|..], r)
    ensures r == Ok(None) ==> Unanswered(old(os.Seen()), os.Seen(), exchange.sent)
    ensures r.Ok? && r.value.Some? ==>
              && Validated(exchange.sent, r.value.value)
              && Heard(old(os.Seen()), os.Seen(), exchange.sent, r.value.value.wire)
    ensures r.Err? ==> Excused(old(os.Seen()), os.Seen(), exchange.deadline, exchange.sent, r.error)
  {
    hide Parse, Validated, Sound, MatchesTruncated, BadFrame, Heard, Flooded, Ignored, Before, Unanswered, Excused;
    ghost var start := os.Seen();
    var connection;
    connection, t := OpenAndSend(os, address, exchange);
    ghost var ready := os.Seen();
    if connection.Err? {
      NothingExcuses(start, ready, exchange.deadline, exchange.sent, connection.error);
      assert os.received[|start.received|..] == [];
      return Err(connection.error), t;
    }
    r := Listen(os, connection.value, exchange);
    BeforeTrans(start, ready, os.Seen());
    NothingArrived(start, ready, exchange.sent);
    if r.Err? {
      ExcusedEarlier(start, ready, os.Seen(), exchange.deadline, exchange.sent, r.error);
    } else if r.value.Some? {
      HeardEarlier(start, ready, os.Seen(), exchange.sent, r.value.value.wire);
    } else {
      UnansweredWhole(start, ready, os.Seen(), exchange.sent);
    }
  }

  /** A new connection within the deadline, configured for exchanges. */
  method OpenStream(os: Platform, address: Endpoint, deadline: Deadline) returns (r: Result<TcpStream, ForwardError>)
    modifies os`now, os`stop, os`patience, os`cleared, os`checks, os`lapses, os`faults, os`broken, os`calls, os`connects
    ensures Before(old(os.Seen()), os.Seen()) && os.patience <= old(os.patience)
    ensures Busy(old(os.Seen()), os.Seen(), 1)
    ensures r.Ok? ==> fresh(r.value) && r.value.address == address && Synchronized(r.value)
    ensures r.Ok? ==> r.value.exchanges == []
    ensures r != Err(InvalidResponse)
    ensures old(Late(os.Seen(), deadline)) ==> r.Err? && os.checks == old(os.checks)
    ensures r.Err? ==> Failed(old(os.Seen()), os.Seen(), deadline, r.error)
    ensures os.connects >= old(os.connects)
    ensures os.connects > old(os.connects) || (r.Err? && (os.stop || os.now >= deadline.at))
  {
    var left := os.Remaining(deadline);
    if left.Err? {
      return Err(FromIo(left.error));
    }
    var connected := TcpStream.Connect(os, address);
    if connected.Err? {
      return Err(FromIo(connected.error));
    }
    NewStreamIsSynchronized(connected.value);
    var configured := os.Configure();
    if configured.Err? {
      return Err(FromIo(configured.error));
    }
    return Ok(connected.value);
  }

  /** The exchange on a connection of its own, if there is one to be had in time. */
  method SendOverNewStream(os: Platform, address: Endpoint, exchange: Exchange)
    returns (r: Result<Packet, ForwardError>, stream: Option<TcpStream>, ghost t: Trace)
    requires os.Valid() && Sound(exchange.sent)
    modifies os`now, os`stop, os`patience, os`cleared, os`checks, os`lapses, os`stamps, os`sends, os`faults,
             os`broken, os`calls, os`connects, os`delivered, os`frames, os`arrival
    ensures os.Valid()
    ensures Before(old(os.Seen()), os.Seen()) && os.patience <= old(os.patience)
    ensures Busy(old(os.Seen()), os.Seen(), 5)
    ensures os.sends == old(os.sends) + t.sends && os.stamps == old(os.stamps) + t.stamps
    ensures t.Under(exchange.deadline)
    ensures t.sends == [] || t.sends == [Transmission(address, Protocol.Tcp, exchange.sent.packet.wire)]
    ensures t.sends == [] ==>
              r.Err? && (os.connects > old(os.connects) || os.stop || os.now >= exchange.deadline.at)
    ensures r == Err(InvalidResponse) ==> t.sends != []
    ensures r.Ok? ==>
              && Validated(exchange.sent, r.value) && stream.Some? && fresh(stream.value)
              && stream.value.address == address && Synchronized(stream.value)
              && stream.value.exchanges == [Exchanged(exchange.sent.packet.wire, r.value.wire)]
    ensures r.Ok? ==> Heard(old(os.Seen()), os.Seen(), exchange.sent, r.value.wire)
    ensures r.Err? ==> Excused(old(os.Seen()), os.Seen(), exchange.deadline, exchange.sent, r.error)
    ensures old(Late(os.Seen(), exchange.deadline)) ==> r.Err? && NothingMore(old(os.Seen()), os.Seen())
  {
    hide Parse, Validated, Sound, Synchronized, Heard, Excused, Unanswered;
    ghost var start := os.Seen();
    t, stream := Trace([], []), None;
    var connection := OpenStream(os, address, exchange.deadline);
    ghost var begun := os.Seen();
    if connection.Err? {
      NothingExcuses(start, begun, exchange.deadline, exchange.sent, connection.error);
      return Err(connection.error), stream, t;
    }
    stream := Some(connection.value);
    r, t := SendOverTcp(os, connection.value, exchange);
    NothingArrived(start, begun, exchange.sent);
    ResultRestsOnLater(start, begun, os.Seen(), exchange, r);
  }

  /** Each worker owns at most one reusable stream. */
  class Forwarder {
    const os: Platform
    var tcp: Option<CachedConnection>

    ghost predicate Valid()
      reads this, os, Streams()
    {
      && os.Valid()
      && (tcp.Some? ==> tcp.value.stream.address == tcp.value.address && Synchronized(tcp.value.stream))
    }

    ghost function Streams(): set<object>
      reads this
    {
      if tcp.Some? then {tcp.value.stream} else {}
    }

    constructor (os: Platform)
      requires os.Valid()
      ensures Valid() && tcp.None? && this.os == os
    {
      this.os := os;
      tcp := None;
    }

    /** Empties the cache exactly if its stream has been idle for too long by the clock that is read now. */
    method ExpireIdle()
      requires Valid()
      modifies this, os`now
      ensures Valid() && os.now >= old(os.now)
      ensures tcp == if old(tcp).Some? && os.now - old(tcp).value.lastUsed >= 2000 then None else old(tcp)
    {
      var now := os.Clock();
      if tcp.Some? && now - tcp.value.lastUsed >= TCP_REUSE_IDLE {
        tcp := None;
      }
    }

    /** The cached stream may carry an exchange with `address` that starts at `at`. */
    ghost predicate Reusable(address: Endpoint, at: nat)
      reads this
    {
      tcp.Some? && tcp.value.address == address && at - tcp.value.lastUsed < 2000
    }

    /** Empties the cache before anything can fail, and yields its stream if it may be reused. */
    method TakeStream(address: Endpoint) returns (cached: Option<TcpStream>, ghost at: nat)
      requires Valid()
      modifies this, os`now
      ensures Valid() && tcp.None? && Before(old(os.Seen()), os.Seen())
      ensures old(os.now) <= at == os.now && cached.Some? == old(Reusable(address, at))
      ensures cached.Some? ==>
                && old(tcp).Some? && cached.value == old(tcp).value.stream
                && cached.value.address == address && Synchronized(cached.value)
    {
      hide Synchronized;
      ExpireIdle();
      at := os.now;
      cached := if tcp.Some? && tcp.value.address == address then Some(tcp.value.stream) else None;
      tcp := None;
    }

    /** The stream to reuse, if there is one, configured for an exchange. */
    method TakeReady(address: Endpoint) returns (r: Result<Option<TcpStream>, ForwardError>, ghost at: nat)
      requires Valid()
      modifies this, os`now, os`faults, os`broken
      ensures Valid() && tcp.None? && Before(old(os.Seen()), os.Seen())
      ensures old(os.now) <= at == os.now
      ensures r.Ok? ==> r.value.Some? == old(Reusable(address, at))
      ensures r.Ok? && r.value.Some? ==>
                && old(tcp).Some? && r.value.value == old(tcp).value.stream
                && r.value.value.address == address && Synchronized(r.value.value)
      ensures r.Err? ==>
                && old(Reusable(address, at)) && r.error !in {InvalidResponse, ShutdownRequested}
                && os.faults > old(os.faults) && os.broken
    {
      hide Synchronized;
      var cached;
      cached, at := TakeStream(address);
      if cached.None? {
        return Ok(None), at;
      }
      var configured := os.Configure();
      if configured.Err? {
        return Err(FromIo(configured.error)), at;
      }
      return Ok(cached), at;
    }

    /**
     * At most two copies of the query, the second only after a reused stream failed, and then unless no connection
     * was to be had in time. Failure caches nothing.
     */
    method TcpExchange(address: Endpoint, exchange: Exchange)
      returns (r: Result<Packet, ForwardError>, ghost t: Trace, ghost at: nat, ghost gap: Moment)
      requires Valid() && Sound(exchange.sent)
      modifies this, os, Streams()
      ensures Valid() && fresh(Streams() - old(Streams()))
      ensures Before(old(os.Seen()), os.Seen()) && os.patience <= old(os.patience)
      ensures Busy(old(os.Seen()), os.Seen(), 9)
      ensures os.received == old(os.received) && os.idFailures == old(os.idFailures)
      ensures os.sends == old(os.sends) + t.sends && os.stamps == old(os.stamps) + t.stamps
      ensures t.Under(exchange.deadline)
      ensures TcpWork(t.sends, address, exchange.sent.packet.wire)
      ensures old(os.now) <= at <= os.now
      ensures |t.sends| == 2 ==>
                && old(Reusable(address, at))
                && Before(old(os.Seen()), gap) && Before(gap, os.Seen())
                && exists e :: Excused(old(os.Seen()), gap, exchange.deadline, exchange.sent, e)
      ensures old(Reusable(address, at)) && r.Err? && |t.sends| == 1 ==>
                os.connects > old(os.connects) || os.stop || os.now >= exchange.deadline.at
      ensures r.Ok? ==> Validated(exchange.sent, r.value) && t.sends != []
      ensures r == Err(InvalidResponse) ==> t.sends != []
      ensures r.Ok? ==>
                && tcp.Some? && tcp.value.address == address
                && var es := tcp.value.stream.exchanges;
                   es != [] && es[|es| - 1] == Exchanged(exchange.sent.packet.wire, r.value.wire)
      ensures r.Ok? && !(old(Reusable(address, at)) && |t.sends| == 1) ==> tcp.Some? && fresh(tcp.value.stream)
      ensures r.Ok? && old(Reusable(address, at)) && |t.sends| == 1 ==>
                tcp.Some? && old(tcp).Some? && tcp.value.stream == old(tcp).value.stream
      ensures r.Ok? ==> Heard(old(os.Seen()), os.Seen(), exchange.sent, r.value.wire)
      ensures r.Err? ==> tcp.None?
      ensures r.Err? ==> Excused(old(os.Seen()), os.Seen(), exchange.deadline, exchange.sent, r.error)
    {
      hide Parse, Validated, Sound, Synchronized, Heard, Before, Excused, Reusable, Missed;
      ghost var start := os.Seen();
      var first;
      first, t, at := TryCached(address, exchange);
      gap := os.Seen();
      if first.Some? {
        return first.value, t, at, gap;
      }
      var stream;
      ghost var second := t;
      r, stream, second := SendOverNewStream(os, address, exchange);
      BeforeTrans(start, gap, os.Seen());
      BeforeTicks(start, gap);
      BeforeTicks(start, os.Seen());
      BeforeTicks(gap, os.Seen());
      BeforeItself(os.Seen());
      t := t.Then(second);
      ResultRestsOnWhole(start, gap, os.Seen(), exchange, r);
      if r.Ok? {
        ghost var answered := os.Seen();
        Keep(address, stream.value, exchange.sent, start, r.value.wire);
        BeforeTrans(gap, answered, os.Seen());
      }
    }

    /** The exchange on the cached stream, if it may be reused; nothing if another connection is to be tried. */
    method TryCached(address: Endpoint, exchange: Exchange)
      returns (r: Option<Result<Packet, ForwardError>>, ghost t: Trace, ghost at: nat)
      requires Valid() && Sound(exchange.sent)
      modifies this, os, Streams()
      ensures Valid() && fresh(Streams() - old(Streams())) && (r.None? ==> tcp.None?)
      ensures Before(old(os.Seen()), os.Seen()) && os.patience <= old(os.patience)
      ensures Busy(old(os.Seen()), os.Seen(), 4)
      ensures os.received == old(os.received) && os.idFailures == old(os.idFailures)
      ensures os.connects == old(os.connects)
      ensures os.sends == old(os.sends) + t.sends && os.stamps == old(os.stamps) + t.stamps
      ensures t.Under(exchange.deadline)
      ensures t.sends == [] || t.sends == [Transmission(address, Protocol.Tcp, exchange.sent.packet.wire)]
      ensures old(os.now) <= at <= os.now
      ensures r.None? ==> (t.sends != [] <==> old(Reusable(address, at)))
      ensures r.Some? ==> old(Reusable(address, at)) && (r.value.Ok? <==> t.sends != [])
      ensures r.None? && t.sends != [] ==>
                exists e :: Excused(old(os.Seen()), os.Seen(), exchange.deadline, exchange.sent, e)
      ensures r.None? ==> Missed(old(os.Seen()), os.Seen(), exchange.deadline, exchange.sent)
      ensures r.Some? && r.value.Ok? ==>
                && Validated(exchange.sent, r.value.value)
                && Heard(old(os.Seen()), os.Seen(), exchange.sent, r.value.value.wire)
                && tcp.Some? && tcp.value.address == address && old(tcp).Some?
                && tcp.value.stream == old(tcp).value.stream
                && var es := tcp.value.stream.exchanges;
                   es != [] && es[|es| - 1] == Exchanged(exchange.sent.packet.wire, r.value.value.wire)
      ensures r.Some? && r.value.Err? ==>
                && tcp.None? && r.value != Err(InvalidResponse)
                && Excused(old(os.Seen()), os.Seen(), exchange.deadline, exchange.sent, r.value.error)
    {
      hide Parse, Validated, Sound, Synchronized, Heard, Before, Excused, Unanswered, Missed;
      ghost var start := os.Seen();
      t := Trace([], []);
      var cached;
      cached, at := TakeReady(address);
      ghost var begun := os.Seen();
      NothingArrived(start, begun, exchange.sent);
      if cached.Err? {
        NothingExcuses(start, begun, exchange.deadline, exchange.sent, cached.error);
        return Some(Err(cached.error)), t, at;
      }
      if cached.value.None? {
        UnansweredIsMissed(start, begun, exchange.deadline, exchange.sent);
        return None, t, at;
      }
      var stream := cached.value.value;
      var sent;
      sent, t := SendOverTcp(os, stream, exchange);
      BeforeTrans(start, begun, os.Seen());
      BeforeTicks(begun, os.Seen());
      ResultRestsOnLater(start, begun, os.Seen(), exchange, sent);
      if sent.Err? {
        ExcusedIsMissed(start, os.Seen(), exchange.deadline, exchange.sent, sent.error);
        return None, t, at;
      }
      Keep(address, stream, exchange.sent, start, sent.value.wire);
      return Some(sent), t, at;
    }

    /** Caches a stream that worked. */
    method Keep(
      address: Endpoint, stream: TcpStream, ghost sent: SentQuery, ghost start: Moment, ghost heard: seq<byte>)
      requires os.Valid() && stream.address == address && Synchronized(stream)
      requires Before(start, os.Seen()) && Heard(start, os.Seen(), sent, heard)
      modifies this, os`now
      ensures Valid() && tcp.Some? && tcp.value.address == address && tcp.value.stream == stream
      ensures os.now >= old(os.now) && Before(old(os.Seen()), os.Seen())
      ensures Before(start, os.Seen()) && Heard(start, os.Seen(), sent, heard)
    {
      hide Synchronized, Heard;
      ghost var before := os.Seen();
      var now := os.Clock();
      HeardStill(start, before, os.Seen(), sent, heard);
      tcp := Some(CachedConnection(address, stream, now));
    }

    /** Uses a fresh connected socket, and TCP for the same query if the answer was truncated. */
    method UdpExchange(address: Endpoint, exchange: Exchange)
      returns (r: Result<Packet, ForwardError>, ghost t: Trace)
      requires Valid() && Sound(exchange.sent)
      modifies this, os, Streams()
      ensures Valid() && fresh(Streams() - old(Streams()))
      ensures Before(old(os.Seen()), os.Seen()) && os.patience <= old(os.patience)
      ensures Busy(old(os.Seen()), os.Seen(), 11)
      ensures os.sends == old(os.sends) + t.sends && os.stamps == old(os.stamps) + t.stamps
      ensures t.Under(exchange.deadline)
      ensures UdpWork(t.sends, address, exchange.sent.packet.wire)
      ensures |os.received| <= |old(os.received)| + MAX_INVALID_RESPONSES && os.idFailures == old(os.idFailures)
      ensures UdpOutcome(exchange.sent, os.received[|old(os.received)|..], t.sends, r)
      ensures r.Ok? ==> Validated(exchange.sent, r.value) && t.sends != []
      ensures r.Ok? ==> Heard(old(os.Seen()), os.Seen(), exchange.sent, r.value.wire)
      ensures r.Err? ==> Excused(old(os.Seen()), os.Seen(), exchange.deadline, exchange.sent, r.error)
    {
      hide Parse, Validated, Sound, Synchronized, Heard, Excused, Before, Listened, UdpOutcome, Unanswered;
      ghost var start := os.Seen();
      var listened;
      listened, t := AskByDatagram(os, address, exchange);
      ghost var got := os.received[|start.received|..];
      if listened.Err? {
        r := Err(listened.error);
      } else if listened.value.Some? {
        r := Ok(listened.value.value);
      } else {
        ghost var second, begun := t, os.Seen();
        ghost var at, gap;
        r, second, at, gap := TcpExchange(address, exchange);
        BeforeTrans(start, begun, os.Seen());
        ResultRestsOnLater(start, begun, os.Seen(), exchange, r);
        assert (t.sends + second.sends)[1..] == second.sends;
        t := t.Then(second);
      }
      ListenedDecides(exchange.sent, got, listened, t.sends, r);
    }

    /** One exchange over either transport, and the record of it. */
    method RunExchange(address: Endpoint, exchange: Exchange, over: Protocol)
      returns (r: Result<Packet, ForwardError>, ghost t: Trace, ghost done: Try)
      requires Valid() && Sound(exchange.sent) && os.now < exchange.deadline.at && !os.stop
      modifies this, os, Streams()
      ensures Valid() && fresh(Streams() - old(Streams()))
      ensures Before(old(os.Seen()), os.Seen())
      ensures os.sends == old(os.sends) + t.sends && os.stamps == old(os.stamps) + t.stamps
      ensures t.Under(exchange.deadline)
      ensures |os.received| <= |old(os.received)| + if over == Udp then MAX_INVALID_RESPONSES else 0
      ensures done == Try(exchange.sent, over, old(os.Seen()), os.Seen(), t.sends, r)
      ensures GoodTry(done, address, exchange.deadline)
    {
      hide Parse, Validated, Sound, Synchronized, Heard, Excused, UdpOutcome, TcpWork, UdpWork;
      ghost var start := os.Seen();
      if over == Protocol.Tcp {
        ghost var at, gap;
        r, t, at, gap := TcpExchange(address, exchange);
      } else {
        r, t := UdpExchange(address, exchange);
      }
      done := Try(exchange.sent, over, start, os.Seen(), t.sends, r);
    }

    /** A retry keeps the deadline and takes a fresh ID. */
    method RetryExchange(exchange: Exchange, wire: seq<byte>) returns (r: Result<Exchange, ForwardError>)
      requires |wire| >= 2
      modifies os`now, os`stop, os`patience, os`cleared, os`checks, os`lapses, os`idFailures
      ensures Before(old(os.Seen()), os.Seen())
      ensures r.Ok? ==> r.value.deadline == exchange.deadline && Resends(wire, r.value.sent)
      ensures r.Ok? ==> Sound(r.value.sent) && AfterId(r.value.sent.packet.wire) == AfterId(wire)
      ensures NothingMoved(old(os.Seen()), os.Seen()) && Prompt(old(os.Seen()), os.Seen(), 1)
      ensures r.Ok? ==> os.checks == old(os.checks) + 1 && OnlyChecked(old(os.Seen()), os.Seen())
      ensures r.Ok? ==> os.now < r.value.deadline.at && !os.stop
      ensures r.Err? ==> NotRetried(old(os.Seen()), os.Seen(), exchange.deadline, wire, r.error)
    {
      hide Parse, Sound;
      var left := os.Remaining(exchange.deadline);
      if left.Err? {
        return Err(FromIo(left.error));
      }
      var next := os.NextTransactionId();
      if next.Err? {
        return Err(FromIo(next.error));
      }
      var sent := RetrySent(wire, next.value);
      if sent.Err? {
        return Err(ParseFailed(sent.error));
      }
      RetryIsSound(wire, next.value);
      return Ok(Exchange(sent.value, exchange.deadline));
    }

    /**
     * The next exchange of an attempt, if it can begin. `tries` are the exchanges so far, the last of which asks
     * for `wire` over `over`; `longer` has one more, or the attempt is over.
     */
    method TryAgain(
      address: Endpoint, exchange: Exchange, wire: seq<byte>, over: Protocol, ghost transport: Protocol,
      ghost tries: seq<Try>)
      returns (r: Result<Packet, ForwardError>, retry: Option<Exchange>, ghost t: Trace, ghost longer: seq<Try>)
      requires Valid() && |wire| >= 2
      requires Chain(transport, address, exchange.deadline, tries)
      requires var last := tries[|tries| - 1]; Decide(transport, last) == Again(wire, over) && last.end == os.Seen()
      modifies this, os, Streams()
      ensures Valid() && fresh(Streams() - old(Streams()))
      ensures Before(old(os.Seen()), os.Seen())
      ensures os.sends == old(os.sends) + t.sends && os.stamps == old(os.stamps) + t.stamps
      ensures t.Under(exchange.deadline)
      ensures |os.received| <= |old(os.received)| + if over == Udp then MAX_INVALID_RESPONSES else 0
      ensures TrySends(longer) == TrySends(tries) + t.sends
      ensures Chain(transport, address, exchange.deadline, longer) && longer != [] && longer[0] == tries[0]
      ensures retry.None? ==>
                r.Err? && Concludes(transport, longer[|longer| - 1], exchange.deadline, os.Seen(), r)
      ensures retry.Some? ==>
                var last := longer[|longer| - 1];
                && last.sent == retry.value.sent && last.over == over && last.outcome == r && last.end == os.Seen()
                && Sound(last.sent) && last.sent.cookieRequired
                && retry.value.deadline == exchange.deadline
                && (r.Ok? ==> Validated(last.sent, r.value))
    {
      hide Parse, Sound, Validated, Synchronized, Decide, GoodTry, NotRetried, TrySends, Chain;
      ghost var start := os.Seen();
      t, longer, retry := Trace([], []), tries, None;
      ChainIsThere(transport, address, exchange.deadline, tries);
      BeforeItself(start);
      var again := RetryExchange(exchange, wire);
      if again.Err? {
        return Err(again.error), retry, t, longer;
      }
      ghost var done;
      r, t, done := RunExchange(address, again.value, over);
      retry := Some(again.value);
      ChainAppend(transport, address, exchange.deadline, tries, done);
      TrySendsAppend(tries, done);
      longer := tries + [done];
      ResentNeedsCookie(wire, done.sent);
      if r.Ok? {
        TryAnswers(done, address, exchange.deadline);
      }
    }

    /**
     * Section 5.3 of RFC 7873, after a first BADCOOKIE: the attempt goes on to its outcome. SERVFAIL and REFUSED
     * that come back here still fail over.
     */
    method FinishBadcookie(
      address: Endpoint, exchange: Exchange, response: Packet, transport: Protocol, ghost first: Try)
      returns (r: Result<Packet, ForwardError>, ghost t: Trace, ghost tries: seq<Try>)
      requires Valid() && Validated(exchange.sent, response) && response.ResponseCode() == BadCookie
      requires GoodTry(first, address, exchange.deadline) && first.end == os.Seen()
      requires first.sent == exchange.sent && !first.sent.cookieRequired && first.over == transport
      requires first.outcome == Ok(response)
      modifies this, os, Streams()
      ensures Valid() && fresh(Streams() - old(Streams()))
      ensures Before(old(os.Seen()), os.Seen())
      ensures os.sends == old(os.sends) + t.sends && os.stamps == old(os.stamps) + t.stamps
      ensures t.Under(exchange.deadline)
      ensures |os.received| <= |old(os.received)| + MAX_INVALID_RESPONSES
      ensures TrySends(tries) == first.sends + t.sends
      ensures Follows(exchange.sent, transport, address, exchange.deadline, tries, os.Seen(), r)
      ensures tries != [] && tries[0] == first
    {
      hide Parse, Validated, Sound, Synchronized, Retry, GoodTry, NotRetried, SlotShaped, Packet.ResponseCode, Chain,
        TrySends, AfterId, Decide, Concludes;
      BadCookieFacts(exchange.sent, response);
      t, tries := Trace([], []), [first];
      OneIsChain(transport, address, exchange.deadline, first);
      BeforeItself(os.Seen());
      FirstDecision(transport, first);
      match Retry(exchange.sent.packet, response) {
        case Absent =>
          r := Ok(response);
          DoneConcludes(transport, first, exchange.deadline, r);
        case Discard =>
          r := Err(InvalidResponse);
          DoneConcludes(transport, first, exchange.deadline, r);
        case Rewrite(wire) =>
          RewriteFacts(exchange.sent, response, 0);
          r, t, tries := AskAgain(address, exchange, wire, transport, transport, tries);
        case _ =>
          if transport == Protocol.Tcp {
            r := Ok(response);
            DoneConcludes(transport, first, exchange.deadline, r);
          } else {
            r, t, tries := AskAgain(address, exchange, exchange.sent.packet.wire, Protocol.Tcp, transport, tries);
          }
      }
    }

    /** A first retry, and over TCP once more if a datagram is answered by BADCOOKIE again. */
    method AskAgain(
      address: Endpoint, exchange: Exchange, wire: seq<byte>, over: Protocol, transport: Protocol,
      ghost tries: seq<Try>)
      returns (r: Result<Packet, ForwardError>, ghost t: Trace, ghost longer: seq<Try>)
      requires Valid() && |wire| >= 2 && (over == transport || over == Protocol.Tcp)
      requires Chain(transport, address, exchange.deadline, tries)
      requires var last := tries[|tries| - 1]; Decide(transport, last) == Again(wire, over) && last.end == os.Seen()
      modifies this, os, Streams()
      ensures Valid() && fresh(Streams() - old(Streams()))
      ensures Before(old(os.Seen()), os.Seen())
      ensures os.sends == old(os.sends) + t.sends && os.stamps == old(os.stamps) + t.stamps
      ensures t.Under(exchange.deadline)
      ensures |os.received| <= |old(os.received)| + MAX_INVALID_RESPONSES
      ensures TrySends(longer) == TrySends(tries) + t.sends
      ensures Chain(transport, address, exchange.deadline, longer) && longer != [] && longer[0] == tries[0]
      ensures Concludes(transport, longer[|longer| - 1], exchange.deadline, os.Seen(), r)
    {
      hide Parse, Validated, Sound, Synchronized, Retry, GoodTry, NotRetried, SlotShaped, Packet.ResponseCode, Chain,
        TrySends, AfterId, Decide, Concludes;
      var retry;
      r, retry, t, longer := TryAgain(address, exchange, wire, over, transport, tries);
      if retry.None? {
        return;
      }
      ghost var last := longer[|longer| - 1];
      if r.Err? || r.value.ResponseCode() != BadCookie || over == Protocol.Tcp {
        DoneAlready(transport, last);
        DoneConcludes(transport, last, exchange.deadline, r);
        return;
      }
      BadCookieFacts(retry.value.sent, r.value);
      SecondDecision(transport, last);
      var next: seq<byte>;
      match Retry(retry.value.sent.packet, r.value) {
        case Absent =>
          r := Err(InvalidResponse);
          DoneConcludes(transport, last, exchange.deadline, r);
          return;
        case Discard =>
          r := Err(InvalidResponse);
          DoneConcludes(transport, last, exchange.deadline, r);
          return;
        case Rewrite(rewritten) =>
          RewriteFacts(retry.value.sent, r.value, 0);
          next := rewritten;
        case _ => next := retry.value.sent.packet.wire;
      }
      ghost var added := t;
      r, t, longer := AskLast(address, retry.value, next, transport, longer);
      t := added.Then(t);
    }

    /** The last exchange of an attempt, over TCP. */
    method AskLast(
      address: Endpoint, exchange: Exchange, wire: seq<byte>, ghost transport: Protocol, ghost tries: seq<Try>)
      returns (r: Result<Packet, ForwardError>, ghost t: Trace, ghost longer: seq<Try>)
      requires Valid() && |wire| >= 2
      requires Chain(transport, address, exchange.deadline, tries)
      requires var last := tries[|tries| - 1];
               Decide(transport, last) == Again(wire, Protocol.Tcp) && last.end == os.Seen()
      modifies this, os, Streams()
      ensures Valid() && fresh(Streams() - old(Streams()))
      ensures Before(old(os.Seen()), os.Seen())
      ensures os.sends == old(os.sends) + t.sends && os.stamps == old(os.stamps) + t.stamps
      ensures t.Under(exchange.deadline)
      ensures |os.received| <= |old(os.received)|
      ensures TrySends(longer) == TrySends(tries) + t.sends
      ensures Chain(transport, address, exchange.deadline, longer) && longer != [] && longer[0] == tries[0]
      ensures Concludes(transport, longer[|longer| - 1], exchange.deadline, os.Seen(), r)
    {
      hide Parse, Validated, Sound, Synchronized, GoodTry, NotRetried, Chain, TrySends, Decide, Concludes;
      var retry;
      r, retry, t, longer := TryAgain(address, exchange, wire, Protocol.Tcp, transport, tries);
      if retry.Some? {
        DoneAlready(transport, longer[|longer| - 1]);
        DoneConcludes(transport, longer[|longer| - 1], exchange.deadline, r);
      }
    }

    /** One attempt: the exchange itself, and the cookie protocol if it ends in BADCOOKIE. */
    method TryServer(address: Endpoint, exchange: Exchange, transport: Protocol)
      returns (r: Result<Packet, ForwardError>, ghost t: Trace, ghost tries: seq<Try>)
      requires Valid() && Sound(exchange.sent) && !exchange.sent.cookieRequired
      requires os.now < exchange.deadline.at && !os.stop
      modifies this, os, Streams()
      ensures Valid() && fresh(Streams() - old(Streams()))
      ensures Before(old(os.Seen()), os.Seen())
      ensures os.sends == old(os.sends) + t.sends && os.stamps == old(os.stamps) + t.stamps
      ensures t.Under(exchange.deadline)
      ensures |os.received| <= |old(os.received)| + 2 * MAX_INVALID_RESPONSES
      ensures TrySends(tries) == t.sends
      ensures Follows(exchange.sent, transport, address, exchange.deadline, tries, os.Seen(), r)
      ensures tries != [] && tries[0].begin == old(os.Seen())
    {
      hide Parse, Validated, Sound, Synchronized, GoodTry, NotRetried, Packet.ResponseCode, Chain, TrySends, Decide,
        Concludes;
      ghost var first;
      r, t, first := RunExchange(address, exchange, transport);
      tries := [first];
      OneIsChain(transport, address, exchange.deadline, first);
      if r.Ok? {
        TryAnswers(first, address, exchange.deadline);
        if r.value.ResponseCode() == BadCookie {
          ghost var second;
          r, second, tries := FinishBadcookie(address, exchange, r.value, transport, first);
          t := t.Then(second);
          return;
        }
      }
      DoneAlready(transport, first);
      DoneConcludes(transport, first, exchange.deadline, r);
    }

    /** The request itself must still have time, whatever was received. */
    method CheckRequest(deadline: Deadline) returns (r: Result<(), ForwardError>, ghost abort: Option<Abort>)
      modifies os`now, os`stop, os`patience, os`cleared, os`checks, os`lapses
      ensures NothingMoved(old(os.Seen()), os.Seen()) && (r.Ok? ==> OnlyChecked(old(os.Seen()), os.Seen()))
      ensures Prompt(old(os.Seen()), os.Seen(), 1)
      ensures r.Ok? ==> abort.None?
      ensures r.Err? ==> abort.Some? && Cut(abort.value, r.error, old(os.Seen()), os.Seen(), deadline)
      ensures abort.Some? ==> !abort.value.Unstarted()
      ensures r == Err(ShutdownRequested) ==> os.stop
      ensures r.Ok? ==> !os.stop && os.now < deadline.at
    {
      var left := os.Remaining(deadline);
      if left.Err? {
        return Err(FromIo(left.error)), Some(if left.error == Cancelled then Stopped else RequestExpired);
      }
      return Ok(()), None;
    }

    /** A fresh ID within the budget of the attempt, which never exceeds that of the request. */
    method BeginAttempt(query: Packet, deadline: Deadline)
      returns (r: Result<Exchange, ForwardError>, ghost id: TransactionId, ghost abort: Option<Abort>)
      requires Faithful(query) && |query.wire| >= HEADER_LENGTH
      modifies os`now, os`stop, os`patience, os`cleared, os`checks, os`lapses, os`idFailures
      ensures NothingMoved(old(os.Seen()), os.Seen())
      ensures r.Ok? ==> abort.None? && r.value.sent == Sent(query, id) && Sound(r.value.sent)
      ensures Prompt(old(os.Seen()), os.Seen(), 1)
      ensures r.Ok? ==> os.checks == old(os.checks) + 1 && OnlyChecked(old(os.Seen()), os.Seen())
      ensures r.Ok? ==> os.now < r.value.deadline.at && !os.stop
      ensures r.Ok? ==>
                && r.value.deadline.at <= deadline.at
                && (r.value.deadline == deadline
                    || old(os.now) + ATTEMPT_TIMEOUT <= r.value.deadline.at <= os.now + ATTEMPT_TIMEOUT)
      ensures r.Err? ==> abort.Some? && Cut(abort.value, r.error, old(os.Seen()), os.Seen(), deadline)
      ensures r == Err(ShutdownRequested) ==> os.stop
    {
      hide Parse, Sound;
      id, abort := 0, None;
      var now := os.Clock();
      var budget := deadline.Capped(now, ATTEMPT_TIMEOUT);
      var left := os.Remaining(budget);
      if left.Err? {
        abort := Some(if left.error == Cancelled then Stopped
                      else if os.now >= deadline.at then RequestExpired else AttemptStalled);
        return Err(FromIo(left.error)), id, abort;
      }
      var next := os.NextTransactionId();
      if next.Err? {
        abort := Some(IdUnavailable(next.error));
        return Err(FromIo(next.error)), id, abort;
      }
      id := next.value;
      SentIsSound(query, next.value);
      return Ok(Exchange(Sent(query, next.value), budget)), id, abort;
    }

    /**
     * One turn of the walk. `r` is an error only when the walk is cut short; otherwise it holds what the
     * attempt yielded.
     */
    method Visit(address: Endpoint, query: Packet, transport: Protocol, deadline: Deadline)
      returns (r: Result<Result<Packet, ForwardError>, ForwardError>, ghost t: Trace, ghost attempt: Option<Attempt>,
               ghost abort: Option<Abort>)
      requires Valid() && Faithful(query) && |query.wire| >= HEADER_LENGTH
      modifies this, os, Streams()
      ensures Valid() && fresh(Streams() - old(Streams()))
      ensures Before(old(os.Seen()), os.Seen())
      ensures os.sends == old(os.sends) + t.sends && os.stamps == old(os.stamps) + t.stamps
      ensures t.Within(deadline)
      ensures |os.received| <= |old(os.received)| + 2 * MAX_INVALID_RESPONSES
      ensures r.Ok? ==> abort.None? && attempt.Some? && attempt.value.outcome == r.value
      ensures r.Ok? ==> r.value != Err(ShutdownRequested)
      ensures r.Err? ==> abort.Some?
      ensures r == Err(ShutdownRequested) ==> os.stop
      ensures attempt.None? ==>
                r.Err? && t.sends == [] && Cut(abort.value, r.error, old(os.Seen()), os.Seen(), deadline)
      ensures attempt.Some? ==> Visited(attempt.value, old(os.Seen()), address, query, transport, deadline)
      ensures attempt.Some? ==> t.sends == attempt.value.Sends() && NothingMoved(attempt.value.end, os.Seen())
      ensures r.Ok? ==> OnlyChecked(attempt.value.end, os.Seen())
      ensures attempt.None? ==> NothingMoved(old(os.Seen()), os.Seen()) && os.received == old(os.received)
      ensures Prompt(if attempt.Some? then attempt.value.end else old(os.Seen()), os.Seen(), 1)
      ensures attempt.Some? && r.Err? ==>
                Cut(abort.value, r.error, attempt.value.end, os.Seen(), deadline) && !abort.value.Unstarted()
      ensures r.Ok? && r.value.Ok? ==> !os.stop && os.now < deadline.at
    {
      hide Parse, Sound, Validated, Synchronized, Faithful, Follows, FromIo, TrySends, RetriesInGroup, ServerWork,
        AnswersQuery, EndsWith, Packet.ResponseCode, Before;
      attempt, abort, t := None, None, Trace([], []);
      ghost var start := os.Seen();
      var begun;
      ghost var id;
      begun, id, abort := BeginAttempt(query, deadline);
      if begun.Err? {
        return Err(begun.error), t, attempt, abort;
      }
      var result;
      ghost var tries, entered := [], os.Seen();
      result, t, tries := TryServer(address, begun.value, transport);
      FollowsHasFirst(begun.value.sent, transport, address, begun.value.deadline, tries, os.Seen(), result);
      BeforeTrans(start, entered, os.Seen());
      attempt := Some(Attempt(address, start, os.Seen(), begun.value.deadline, id, tries, result));
      AttemptMeaning(query, transport, deadline, attempt.value);
      BeforeItself(os.Seen());
      match result {
        case Err(error) =>
          if error == ShutdownRequested {
            abort := Some(Stopped);
            return Err(ShutdownRequested), t, attempt, abort;
          }
        case Ok(_) =>
          var left;
          ghost var answered := os.Seen();
          left, abort := CheckRequest(deadline);
          BeforeTrans(start, answered, os.Seen());
          if left.Err? {
            return Err(left.error), t, attempt, abort;
          }
      }
      return Ok(result), t, attempt, abort;
    }

    /**
     * Tries the servers of one group in order under one request deadline. `walk` is the record of it, and says
     * why if it was cut short.
     */
    method Forward(query: Packet, group: UpstreamGroup, transport: Protocol, deadline: Deadline)
      returns (r: Result<Packet, ForwardError>, ghost t: Trace, ghost walk: Walk, ghost last: SentQuery)
      requires Valid() && Faithful(query) && query.Forwardable() && group.Valid()
      modifies this, os, Streams()
      ensures Valid() && fresh(Streams() - old(Streams()))
      ensures os.sends == old(os.sends) + t.sends && os.stamps == old(os.stamps) + t.stamps
      ensures t.Within(deadline)
      ensures |os.received| <= |old(os.received)| + 2 * MAX_INVALID_RESPONSES * |walk.attempts|
      ensures walk.begin == old(os.Seen()) && walk.end == os.Seen() && walk.result == r
      ensures t.sends == SendsOf(walk.attempts)
      ensures GoodWalk(query, group.servers, transport, deadline, walk)
      ensures RetriesTwoAndFive(group.servers, deadline, walk)
      ensures r.Ok? ==> AnswersQuery(query, last, r.value)
      ensures r == Err(ShutdownRequested) ==> os.stop
    {
      hide Parse, Sound, Validated, Synchronized, Plain, ServerWork, SendsOf, AnswersQuery, Faithful, FromRcode,
        FromIo, ResponseCodeFromWire, Packet.CombinedCode, Packet.Forwardable, Visited, Continued, Cut, GoodWalk,
        WalksInOrder, WalkResult, LastResponse, Before, NothingMoved, RetriesTwoAndFive;
      FaithfulHeader(query);
      ghost var begin := os.Seen();
      EmptyWalk(query, group.servers, transport, deadline, begin);
      var lastError := ExchangeTimeout;
      var relayed: Option<Packet> := None;
      t, last := Trace([], []), SentQuery(query, false);
      ghost var attempts: seq<Attempt> := [];
      for n := 0 to |group.servers|
        invariant Valid() && fresh(Streams() - old(Streams()))
        invariant os.sends == old(os.sends) + t.sends && os.stamps == old(os.stamps) + t.stamps
        invariant t.Within(deadline)
        invariant t.sends == SendsOf(attempts)
        invariant |attempts| == n && WalkGoesOn(group.servers, attempts, relayed, lastError)
        invariant Continued(query, transport, deadline, begin, attempts, os.Seen())
        invariant |os.received| <= |old(os.received)| + 2 * MAX_INVALID_RESPONSES * n
        invariant lastError != ShutdownRequested
        invariant relayed.Some? ==> AnswersQuery(query, last, relayed.value)
      {
        var turn;
        ghost var added, attempt, abort;
        ghost var entered := os.Seen();
        turn, added, attempt, abort := Visit(group.servers[n], query, transport, deadline);
        t := t.Then(added);
        if attempt.Some? {
          ContinuedStep(query, transport, deadline, begin, attempts, entered, attempt.value, group.servers[n]);
          WalkStep(group.servers, attempts, relayed, lastError, attempt.value);
          VisitedMeaning(attempt.value, entered, group.servers[n], query, transport, deadline);
          SendsAppend(attempts, attempt.value);
          attempts, entered := attempts + [attempt.value], attempt.value.end;
        }
        if turn.Err? {
          walk := Walk(begin, attempts, os.Seen(), abort, Err(turn.error));
          WalkCut(query, group.servers, transport, deadline, walk, entered);
          return Err(turn.error), t, walk, last;
        }
        ContinuedLater(query, transport, deadline, begin, attempts, entered, os.Seen());
        match turn.value {
          case Err(error) =>
            lastError := error;
          case Ok(response) =>
            last := attempt.value.tries[|attempt.value.tries| - 1].sent;
            FinalCodes(attempt.value);
            var code := response.ResponseCode();
            if code == BadCookie || !RetriesInGroup(code) {
              walk := Walk(begin, attempts, os.Seen(), None, Ok(response));
              BeforeItself(os.Seen());
              NothingMovedItself(os.Seen());
              WalkEnded(query, group.servers, transport, deadline, walk, os.Seen());
              return Ok(response), t, walk, last;
            }
            lastError := FromRcode(code);
            relayed := Some(response);
        }
      }
      var left;
      ghost var abort;
      ghost var entered := os.Seen();
      left, abort := CheckRequest(deadline);
      if left.Err? {
        walk := Walk(begin, attempts, os.Seen(), abort, Err(left.error));
        WalkCut(query, group.servers, transport, deadline, walk, entered);
        return Err(left.error), t, walk, last;
      }
      r := match relayed case Some(response) => Ok(response) case None => Err(lastError);
      walk := Walk(begin, attempts, os.Seen(), None, r);
      WalkExhausted(group.servers, attempts, relayed, lastError);
      WalkEnded(query, group.servers, transport, deadline, walk, entered);
    }
  }
}
