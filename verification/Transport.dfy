/**
 * DNS over TCP framing under absolute deadlines (src/transport.rs). The operating system is arbitrary: time
 * only moves forward, the stop flag is only raised, and every read or write moves any number of octets or fails.
 */
module Transport {
  import opened Outcomes
  import opened Bytes
  import opened Names
  import opened Messages

  datatype IoError =
    | Cancelled
    | TimedOut
    | WouldBlock
    | Interrupted
    | UnexpectedEof
    | InvalidData
    | InvalidInput
    | WriteZero
    | OtherIo

  /** Kinds that a system call can report by itself. */
  predicate SystemKind(e: IoError) {
    e in {TimedOut, WouldBlock, Interrupted, OtherIo}
  }

  /** Outcomes of single I/O calls that are retried after another check. */
  predicate Transient(e: IoError) {
    e in {WouldBlock, TimedOut, Interrupted}
  }

  datatype Protocol = Udp | Tcp

  /** A peer: any value that can be compared. */
  type Endpoint = nat

  /** A moment after which nothing more is sent. */
  datatype Deadline = Deadline(at: nat) {
    function Capped(now: nat, duration: nat): (r: Deadline)
      ensures r.at <= at && r.at <= now + duration
    {
      if at < now + duration then this else Deadline(now + duration)
    }
  }

  /** One write to a socket: when the budget was last checked, and against which deadline. */
  datatype Stamp = Stamp(checked: nat, deadline: Deadline)

  /** One message handed to a socket. */
  datatype Transmission = Transmission(server: Endpoint, protocol: Protocol, wire: seq<byte>)

  /** What one operation adds to the trace. */
  datatype Trace = Trace(sends: seq<Transmission>, stamps: seq<Stamp>) {
    function Then(next: Trace): Trace {
      Trace(sends + next.sends, stamps + next.stamps)
    }

    /** Every write was checked against a deadline no later than `deadline`. */
    ghost predicate Within(deadline: Deadline) {
      forall s :: s in stamps ==> s.deadline.at <= deadline.at
    }

    /** Every write was checked against `deadline`. */
    ghost predicate Under(deadline: Deadline) {
      forall s :: s in stamps ==> s.deadline == deadline
    }
  }

  /** What the system has done to a worker up to one moment. */
  datatype Moment = Moment(
    now: nat,
    stop: bool,
    checks: nat,
    lapses: nat,
    faults: nat,
    broken: bool,
    calls: nat,
    arrival: nat,
    idFailures: seq<IoError>,
    received: seq<seq<byte>>,
    frames: seq<seq<byte>>)

  /** The clock, the stop flag and the counts only go up. */
  predicate Ticks(a: Moment, b: Moment) {
    a.now <= b.now && (a.stop ==> b.stop) && a.checks <= b.checks && a.lapses <= b.lapses
    && a.faults <= b.faults && a.calls <= b.calls
  }

  /** Time was not just left to pass: at most two checks for each call that may wait, and a few more. */
  predicate Busy(a: Moment, b: Moment, spare: nat) {
    b.checks + 2 * a.calls <= a.checks + 2 * b.calls + spare
  }

  /** `b` is no earlier than `a`: nothing that was done is undone. */
  ghost predicate Before(a: Moment, b: Moment) {
    && Ticks(a, b)
    && a.idFailures <= b.idFailures && a.received <= b.received && a.frames <= b.frames
  }

  lemma BeforeItself(a: Moment)
    ensures Before(a, a)
  {
  }

  /** No octet arrived and no call failed between two moments. */
  ghost predicate NothingMoved(a: Moment, b: Moment) {
    && Before(a, b)
    && b.faults == a.faults && b.broken == a.broken && b.calls == a.calls
    && b.received == a.received && b.frames == a.frames && b.arrival == a.arrival
  }

  /** Between two moments no more than `n` checks found time left. */
  predicate Prompt(a: Moment, b: Moment, n: nat) {
    b.checks <= a.checks + n
  }

  /** Nothing happened between two moments but checks that found time left, and the reading of IDs. */
  ghost predicate OnlyChecked(a: Moment, b: Moment) {
    NothingMoved(a, b) && b.idFailures == a.idFailures && b.lapses == a.lapses
  }

  lemma NothingMovedItself(a: Moment)
    ensures NothingMoved(a, a)
  {
  }

  /** Between two moments nothing happened but checks, of which no more than `n` found time left. */
  ghost predicate Idle(a: Moment, b: Moment, n: nat) {
    NothingMoved(a, b) && b.idFailures == a.idFailures && Prompt(a, b, n)
  }

  lemma IdleItself(a: Moment)
    ensures forall n: nat :: Idle(a, a, n)
  {
  }

  lemma IdleThen(a: Moment, b: Moment, c: Moment, m: nat, n: nat)
    requires Idle(a, b, m) && Idle(b, c, n)
    ensures Idle(a, c, m + n)
  {
    BeforeTrans(a, b, c);
  }

  lemma OnlyCheckedTrans(a: Moment, b: Moment, c: Moment)
    requires OnlyChecked(a, b) && OnlyChecked(b, c)
    ensures OnlyChecked(a, c)
  {
    BeforeTrans(a, b, c);
  }

  lemma NothingMovedTrans(a: Moment, b: Moment, c: Moment)
    requires OnlyChecked(a, b) && NothingMoved(b, c)
    ensures NothingMoved(a, c)
  {
    BeforeTrans(a, b, c);
  }

  lemma BeforeTicks(a: Moment, b: Moment)
    requires Before(a, b)
    ensures Ticks(a, b) && |a.frames| <= |b.frames| && |a.received| <= |b.received|
  {
  }

  lemma BeforeTrans(a: Moment, b: Moment, c: Moment)
    requires Before(a, b) && Before(b, c)
    ensures Before(a, c)
  {
  }

  /** A call failed for good and nothing was moved since, or the deadline passed. */
  predicate Troubled(a: Moment, b: Moment, deadline: Deadline) {
    (b.faults > a.faults && b.broken) || b.now >= deadline.at
  }

  /** The octets of some pieces, in order. */
  function Octets(pieces: seq<seq<byte>>): seq<byte> {
    if pieces == [] then [] else Octets(pieces[..|pieces| - 1]) + pieces[|pieces| - 1]
  }

  lemma OctetsAppend(pieces: seq<seq<byte>>, piece: seq<byte>)
    ensures Octets(pieces + [piece]) == Octets(pieces) + piece
  {
    assert (pieces + [piece])[..|pieces|] == pieces;
  }

  /** The system around one worker, and the trace of what the worker sent. */
  class Platform {
    var now: nat
    var stop: bool
    /** How many checks can still succeed: a clock that moves lets only finitely many precede any deadline. */
    var patience: nat
    /** The deadline of the last check, if it succeeded and nothing was written since. */
    ghost var cleared: Option<Deadline>
    ghost var stamps: seq<Stamp>
    ghost var sends: seq<Transmission>
    /** Datagrams that were received. */
    ghost var received: seq<seq<byte>>
    /** Octets that arrived on streams, and how the reads of single frames divided them. */
    ghost var delivered: seq<byte>
    ghost var frames: seq<seq<byte>>
    /** Errors of transaction IDs that could not be read. */
    ghost var idFailures: seq<IoError>
    /** Calls that failed other than for a moment, streams that ended, and writes that moved nothing. */
    ghost var faults: nat
    /** The last of them came after everything that was moved. */
    ghost var broken: bool
    /** Checks that found time left. */
    ghost var checks: nat
    /** Checks that found none, or a stop. */
    ghost var lapses: nat
    /** Calls that may wait: for a connection, for octets or for room to write. */
    ghost var calls: nat
    /** How many checks had found time left when something last arrived. */
    ghost var arrival: nat
    /** Connections that were asked for. */
    ghost var connects: nat

    /** Every write so far was made with time left on its deadline, and every octet came in some frame read. */
    ghost predicate Valid()
      reads this
    {
      && (forall s :: s in stamps ==> s.checked < s.deadline.at)
      && Octets(frames) == delivered
    }

    ghost function Seen(): Moment
      reads this
    {
      Moment(now, stop, checks, lapses, faults, broken, calls, arrival, idFailures, received, frames)
    }

    constructor ()
      ensures Valid() && stamps == [] && sends == []
    {
      var start: nat, checks: nat :| true;
      now, stop, patience := start, *, checks;
      cleared, stamps, sends, received, delivered, frames, idFailures := None, [], [], [], [], [], [];
      faults, broken, checks, lapses, connects, calls, arrival := 0, false, 0, 0, 0, 0, 0;
    }

    /** The remaining budget after checking cancellation, which takes precedence over expiry. */
    method Remaining(deadline: Deadline) returns (r: Result<nat, IoError>)
      modifies this`now, this`stop, this`patience, this`cleared, this`checks, this`lapses
      ensures now >= old(now) && (old(stop) ==> stop) && patience <= old(patience)
      ensures r.Ok? ==> !stop && now < deadline.at && r.value == deadline.at - now
      ensures r.Ok? ==> patience < old(patience) && cleared == Some(deadline)
      ensures Before(old(Seen()), Seen())
      ensures checks == old(checks) + (if r.Ok? then 1 else 0) && lapses == old(lapses) + if r.Err? then 1 else 0
      ensures r.Err? ==> (r.error == Cancelled && stop) || (r.error == TimedOut && !stop && now >= deadline.at)
    {
      var elapsed: nat :| true;
      now := now + elapsed;
      if patience > 0 {
        patience := patience - 1;
      } else if now < deadline.at {
        now := deadline.at;
      }
      if * {
        stop := true;
      }
      lapses := lapses + if stop || now >= deadline.at then 1 else 0;
      if stop {
        return Err(Cancelled);
      }
      if now >= deadline.at {
        return Err(TimedOut);
      }
      cleared, checks := Some(deadline), checks + 1;
      return Ok(deadline.at - now);
    }

    /** What the clock says, some time after it was last read. */
    method Clock() returns (t: nat)
      modifies this`now
      ensures t == now >= old(now)
    {
      var elapsed: nat :| true;
      now := now + elapsed;
      t := now;
    }

    /** A system call that only succeeds or fails. */
    method Configure() returns (r: Result<(), IoError>)
      modifies this`faults, this`broken
      ensures r.Err? ==> SystemKind(r.error)
      ensures faults == old(faults) + (if r.Err? then 1 else 0) && broken == (old(broken) || r.Err?)
      ensures Before(old(Seen()), Seen())
    {
      if * {
        return Ok(());
      }
      faults, broken := faults + 1, true;
      r := Fail();
    }

    /** Two octets of entropy, in any order, or a failure. */
    method NextTransactionId() returns (r: Result<u16, IoError>)
      modifies this`idFailures
      ensures r.Ok? ==> idFailures == old(idFailures)
      ensures r.Err? ==> idFailures == old(idFailures) + [r.error] && (SystemKind(r.error) || r.error == UnexpectedEof)
    {
      if * {
        var id: u16 :| true;
        return Ok(id);
      }
      r := Err(UnexpectedEof);
      if * {
        r := Fail();
      }
      idFailures := idFailures + [r.error];
    }

    /** Counts a fault, if it is one. */
    ghost method Count(fault: bool)
      modifies this`faults, this`broken
      ensures faults == old(faults) + (if fault then 1 else 0) && broken == (old(broken) || fault)
    {
      if fault {
        faults, broken := faults + 1, true;
      }
    }

    static method Fail<T>() returns (r: Result<T, IoError>)
      ensures r.Err? && SystemKind(r.error)
    {
      if {
        case true => return Err(TimedOut);
        case true => return Err(WouldBlock);
        case true => return Err(Interrupted);
        case true => return Err(OtherIo);
      }
    }
  }

  /** Queries and replies that were completed on one stream, in order. */
  datatype Exchanged = Exchanged(query: seq<byte>, reply: seq<byte>)

  /** A connected stream. `inbox` is what the peer will ever deliver, before end of file. */
  class TcpStream {
    const address: Endpoint
    var inbox: seq<byte>
    ghost var written: seq<byte>
    ghost var consumed: seq<byte>
    ghost var exchanges: seq<Exchanged>

    constructor (address: Endpoint, inbox: seq<byte>)
      ensures this.address == address && this.inbox == inbox
      ensures written == [] && consumed == [] && exchanges == []
    {
      this.address, this.inbox := address, inbox;
      written, consumed, exchanges := [], [], [];
    }

    /** A new connection, whatever its peer will say. */
    static method Connect(os: Platform, address: Endpoint) returns (r: Result<TcpStream, IoError>)
      modifies os`faults, os`broken, os`connects, os`calls
      ensures os.faults == old(os.faults) + (if r.Err? then 1 else 0) && os.broken == r.Err?
      ensures os.connects == old(os.connects) + 1 && os.calls == old(os.calls) + 1
      ensures r.Ok? ==> fresh(r.value) && r.value.address == address
      ensures r.Ok? ==> r.value.written == [] && r.value.consumed == [] && r.value.exchanges == []
      ensures r.Err? ==> SystemKind(r.error)
    {
      os.connects, os.calls := os.connects + 1, os.calls + 1;
      if * {
        os.faults, os.broken := os.faults + 1, true;
        r := Platform.Fail();
        return;
      }
      os.broken := false;
      var inbox: seq<byte> :| true;
      var stream := new TcpStream(address, inbox);
      return Ok(stream);
    }

    /** Moves some octets into `into` at `offset`; zero octets mean end of file. */
    method Read(os: Platform, into: array<byte>, offset: nat) returns (r: Result<nat, IoError>)
      requires offset < into.Length
      modifies this`inbox, this`consumed, into, os`faults, os`broken, os`calls, os`delivered
      ensures os.calls == old(os.calls) + 1
      ensures r.Err? ==>
                && SystemKind(r.error) && inbox == old(inbox) && consumed == old(consumed)
                && into[..] == old(into[..])
                && os.delivered == old(os.delivered)
                && os.faults == old(os.faults) + (if Transient(r.error) then 0 else 1)
                && os.broken == (old(os.broken) || !Transient(r.error))
      ensures r.Ok? ==>
                && r.value <= |old(inbox)| && offset + r.value <= into.Length
                && (r.value == 0 <==> old(inbox) == [])
                && inbox == old(inbox)[r.value..] && consumed == old(consumed) + old(inbox)[..r.value]
                && into[..offset + r.value] == old(into[..offset]) + old(inbox)[..r.value]
                && os.delivered == old(os.delivered) + old(inbox)[..r.value]
                && os.faults == old(os.faults) + (if r.value == 0 then 1 else 0)
                && os.broken == (r.value == 0)
    {
      os.calls := os.calls + 1;
      if * {
        r := Platform.Fail();
        os.Count(!Transient(r.error));
        return;
      }
      var count: nat :| true;
      count := if count == 0 then 1 else count;
      count := if count > |inbox| then |inbox| else count;
      count := if count > into.Length - offset then into.Length - offset else count;
      forall i | 0 <= i < count {
        into[offset + i] := inbox[i];
      }
      assert into[..offset + count] == old(into[..offset]) + inbox[..count];
      os.delivered := os.delivered + inbox[..count];
      os.broken := false;
      os.Count(count == 0);
      consumed := consumed + inbox[..count];
      inbox := inbox[count..];
      return Ok(count);
    }

    /** Accepts some of the octets; needs a check of the deadline right before. */
    method Write(os: Platform, ghost deadline: Deadline, bytes: seq<byte>) returns (r: Result<nat, IoError>)
      requires os.Valid() && os.cleared == Some(deadline) && os.now < deadline.at
      modifies this`written, os`stamps, os`cleared, os`faults, os`broken, os`calls
      ensures os.calls == old(os.calls) + 1
      ensures os.Valid() && os.cleared == None
      ensures os.stamps == old(os.stamps) + [Stamp(os.now, deadline)]
      ensures r.Err? ==> SystemKind(r.error) && written == old(written)
      ensures r.Ok? ==> r.value <= |bytes| && written == old(written) + bytes[..r.value]
      ensures os.faults == old(os.faults) + if (r.Err? && !Transient(r.error)) || r == Ok(0) then 1 else 0
      ensures os.broken == if r.Ok? then r.value == 0 else (old(os.broken) || !Transient(r.error))
    {
      os.calls := os.calls + 1;
      os.stamps := os.stamps + [Stamp(os.now, deadline)];
      os.cleared := None;
      if * {
        r := Platform.Fail();
        os.Count(!Transient(r.error));
        return;
      }
      var count: nat :| true;
      count := if count > |bytes| then |bytes| else count;
      os.broken := false;
      os.Count(count == 0);
      written := written + bytes[..count];
      return Ok(count);
    }
  }

  /** A UDP socket connected to one peer; the kernel drops datagrams from anywhere else. */
  class UdpSocket {
    const peer: Endpoint

    constructor (peer: Endpoint)
      ensures this.peer == peer
    {
      this.peer := peer;
    }

    /** Sends one datagram; needs a check of the deadline right before. */
    method Send(os: Platform, ghost deadline: Deadline, bytes: seq<byte>) returns (r: Result<(), IoError>)
      requires os.Valid() && os.cleared == Some(deadline) && os.now < deadline.at
      modifies os`stamps, os`sends, os`cleared, os`faults, os`broken, os`calls
      ensures os.calls == old(os.calls) + 1
      ensures os.Valid() && os.cleared == None
      ensures os.stamps == old(os.stamps) + [Stamp(os.now, deadline)]
      ensures os.sends == old(os.sends) + [Transmission(peer, Udp, bytes)]
      ensures r.Err? ==> SystemKind(r.error)
      ensures os.faults == old(os.faults) + (if r.Err? then 1 else 0) && os.broken == r.Err?
    {
      os.broken := false;
      os.calls := os.calls + 1;
      os.stamps := os.stamps + [Stamp(os.now, deadline)];
      os.sends := os.sends + [Transmission(peer, Udp, bytes)];
      os.cleared := None;
      r := os.Configure();
    }

    /** Any datagram, or a failure. */
    method Receive(os: Platform) returns (r: Result<seq<byte>, IoError>)
      modifies os`received, os`faults, os`broken, os`calls, os`arrival
      ensures os.calls == old(os.calls) + 1 && os.arrival == if r.Ok? then os.checks else old(os.arrival)
      ensures r.Ok? ==> |r.value| <= MAX_MESSAGE_LENGTH && os.received == old(os.received) + [r.value]
      ensures r.Err? ==> SystemKind(r.error) && os.received == old(os.received)
      ensures os.faults == old(os.faults) + if r.Err? && !Transient(r.error) then 1 else 0
      ensures os.broken == if r.Ok? then false else (old(os.broken) || !Transient(r.error))
    {
      os.calls := os.calls + 1;
      if * {
        r := Platform.Fail();
        os.Count(!Transient(r.error));
        return;
      }
      var bytes: seq<byte> :| |bytes| <= MAX_MESSAGE_LENGTH by {
        assert |EMPTY| <= MAX_MESSAGE_LENGTH;
      }
      os.received, os.broken, os.arrival := os.received + [bytes], false, os.checks;
      return Ok(bytes);
    }
  }

  const EMPTY: seq<byte> := []

  // ----- frames -----

  /** Section 4.2.2 of RFC 1035: a two-octet length and the message. */
  function Frame(w: seq<byte>): seq<byte> {
    Be16(|w| % 0x1_0000) + w
  }

  predicate Framable(w: seq<byte>) {
    HEADER_LENGTH <= |w| <= MAX_MESSAGE_LENGTH
  }

  /** A length that no message has, and nothing more. */
  predicate ShortFrame(s: seq<byte>) {
    |s| == 2 && WordAt(s, 0) < HEADER_LENGTH
  }

  /** What reading one frame means for the octets still to come, before and after. */
  ghost predicate FrameRead(before: seq<byte>, r: Result<Option<seq<byte>>, IoError>, after: seq<byte>) {
    match r
    case Ok(Some(w)) => Framable(w) && before == Frame(w) + after
    case Ok(None) => before == [] && after == []
    case Err(InvalidData) => |before| >= 2 && WordAt(before, 0) < HEADER_LENGTH
    case Err(UnexpectedEof) => |before| == 1 || (|before| >= 2 && |before| < 2 + WordAt(before, 0))
    case Err(e) => SystemKind(e) || e == Cancelled
  }

  /** Time is left for one call, whose timeout is set to it. */
  method Ready(os: Platform, deadline: Deadline) returns (r: Result<(), IoError>)
    modifies os`now, os`stop, os`patience, os`cleared, os`checks, os`lapses, os`faults, os`broken
    ensures Ticks(old(os.Seen()), os.Seen()) && os.patience <= old(os.patience)
    ensures Busy(old(os.Seen()), os.Seen(), 1)
    ensures r.Ok? ==> os.patience < old(os.patience) && os.cleared == Some(deadline) && os.now < deadline.at
    ensures r.Err? && r.error != Cancelled ==> Troubled(old(os.Seen()), os.Seen(), deadline)
    ensures r.Err? ==> SystemKind(r.error) || (r.error == Cancelled && os.stop)
  {
    var left := os.Remaining(deadline);
    if left.Err? {
      return Err(left.error);
    }
    r := os.Configure();
  }

  /** One read within the deadline. No octets mean that it has to be tried again; end of file is an error. */
  method ReadSome(os: Platform, stream: TcpStream, bytes: array<byte>, offset: nat, deadline: Deadline)
    returns (r: Result<nat, IoError>, ghost moved: seq<byte>)
    requires offset < bytes.Length
    modifies os`now, os`stop, os`patience, os`cleared, os`checks, os`lapses, os`faults, os`broken, os`calls,
             os`delivered, stream`inbox, stream`consumed, bytes
    ensures Ticks(old(os.Seen()), os.Seen()) && os.patience <= old(os.patience)
    ensures Busy(old(os.Seen()), os.Seen(), 1)
    ensures r.Ok? ==> os.patience < old(os.patience) && Busy(old(os.Seen()), os.Seen(), 0)
    ensures os.delivered == old(os.delivered) + moved
    ensures old(stream.inbox) == moved + stream.inbox && stream.consumed == old(stream.consumed) + moved
    ensures r.Ok? ==> r.value == |moved| && offset + |moved| <= bytes.Length
    ensures r.Ok? ==> bytes[..offset + |moved|] == old(bytes[..offset]) + moved
    ensures r.Err? ==> moved == []
    ensures r.Err? && r.error != Cancelled ==> Troubled(old(os.Seen()), os.Seen(), deadline)
    ensures r == Err(UnexpectedEof) ==> stream.inbox == [] && os.faults > old(os.faults) && os.broken
    ensures r.Err? ==> SystemKind(r.error) || r.error == UnexpectedEof || (r.error == Cancelled && os.stop)
  {
    moved := [];
    var ready := Ready(os, deadline);
    if ready.Err? {
      return Err(ready.error), moved;
    }
    ghost var inbox := stream.inbox;
    var read := stream.Read(os, bytes, offset);
    if read.Err? {
      return if Transient(read.error) then Ok(0) else Err(read.error), moved;
    }
    if read.value == 0 {
      return Err(UnexpectedEof), moved;
    }
    moved := inbox[..read.value];
    assert inbox == moved + stream.inbox;
    return Ok(read.value), moved;
  }

  /** Reads until the field is full. `Ok(false)` is end of file before the first octet. */
  method Fill(os: Platform, stream: TcpStream, bytes: array<byte>, deadline: Deadline)
    returns (r: Result<bool, IoError>, ghost moved: seq<byte>)
    modifies os`now, os`stop, os`patience, os`cleared, os`checks, os`lapses, os`faults, os`broken, os`calls,
             os`delivered, stream`inbox, stream`consumed, bytes
    ensures Ticks(old(os.Seen()), os.Seen()) && os.patience <= old(os.patience)
    ensures Busy(old(os.Seen()), os.Seen(), if r == Ok(true) then 0 else 1)
    ensures os.delivered == old(os.delivered) + moved
    ensures r == Ok(false) ==> os.faults > old(os.faults) && os.broken
    ensures r.Err? && r.error != Cancelled ==> Troubled(old(os.Seen()), os.Seen(), deadline)
    ensures old(stream.inbox) == moved + stream.inbox && stream.consumed == old(stream.consumed) + moved
    ensures r == Ok(true) ==> moved == bytes[..]
    ensures r == Ok(false) ==> moved == [] && stream.inbox == [] && bytes.Length > 0
    ensures r == Err(UnexpectedEof) ==> stream.inbox == [] && 0 < |moved| < bytes.Length
    ensures |moved| <= bytes.Length
    ensures r.Err? ==> |moved| < bytes.Length
    ensures r.Err? ==> SystemKind(r.error) || r.error == UnexpectedEof || (r.error == Cancelled && os.stop)
  {
    var offset: nat := 0;
    moved := [];
    while offset < bytes.Length
      invariant offset <= bytes.Length && moved == bytes[..offset]
      invariant old(stream.inbox) == moved + stream.inbox && stream.consumed == old(stream.consumed) + moved
      invariant Ticks(old(os.Seen()), os.Seen()) && os.patience <= old(os.patience)
      invariant Busy(old(os.Seen()), os.Seen(), 0)
      invariant os.delivered == old(os.delivered) + moved
      decreases os.patience
    {
      var read;
      ghost var some;
      read, some := ReadSome(os, stream, bytes, offset, deadline);
      if read == Err(UnexpectedEof) && offset == 0 {
        return Ok(false), moved;
      }
      if read.Err? {
        return Err(read.error), moved;
      }
      offset := offset + read.value;
      moved := moved + some;
    }
    assert moved == bytes[..];
    return Ok(true), moved;
  }

  /**
   * Fills a field while keeping partial progress. `Ok(false)` is end of file before the first octet; later it
   * is an error. `moved` is what went to the reader.
   */
  method ReadExact(os: Platform, stream: TcpStream, bytes: array<byte>, deadline: Deadline)
    returns (r: Result<bool, IoError>, ghost moved: seq<byte>)
    modifies os`now, os`stop, os`patience, os`cleared, os`checks, os`lapses, os`faults, os`broken, os`calls,
             os`delivered, stream`inbox, stream`consumed, bytes
    ensures Ticks(old(os.Seen()), os.Seen()) && os.patience <= old(os.patience)
    ensures Busy(old(os.Seen()), os.Seen(), 1)
    ensures os.delivered == old(os.delivered) + moved
    ensures r == Ok(false) ==> os.faults > old(os.faults) && os.broken
    ensures r.Err? && r.error != Cancelled ==> Troubled(old(os.Seen()), os.Seen(), deadline)
    ensures old(stream.inbox) == moved + stream.inbox && stream.consumed == old(stream.consumed) + moved
    ensures r == Ok(true) ==> moved == bytes[..] && !os.stop && os.now < deadline.at
    ensures r == Ok(false) ==> moved == [] && stream.inbox == [] && bytes.Length > 0
    ensures r == Err(UnexpectedEof) ==> stream.inbox == [] && 0 < |moved| < bytes.Length
    ensures |moved| <= bytes.Length
    ensures r.Err? ==> |moved| < bytes.Length || os.stop || os.now >= deadline.at
    ensures r.Err? ==> SystemKind(r.error) || r.error == UnexpectedEof || (r.error == Cancelled && os.stop)
  {
    r, moved := Fill(os, stream, bytes, deadline);
    if r == Ok(true) {
      var left := os.Remaining(deadline);
      if left.Err? {
        r := Err(left.error);
      }
    }
  }

  /** The octets are one whole frame. */
  ghost predicate WholeFrame(s: seq<byte>) {
    exists w :: Framable(w) && s == Frame(w)
  }

  /** Reads one frame and leaves the following ones in the stream; what it moved is recorded as one piece. */
  method ReadFrame(os: Platform, stream: TcpStream, deadline: Deadline)
    returns (r: Result<Option<seq<byte>>, IoError>, ghost moved: seq<byte>)
    requires os.Valid()
    modifies os`now, os`stop, os`patience, os`cleared, os`checks, os`lapses, os`faults, os`broken, os`calls,
             os`delivered, os`frames, os`arrival, stream`inbox, stream`consumed
    ensures os.Valid()
    ensures Ticks(old(os.Seen()), os.Seen()) && os.patience <= old(os.patience)
    ensures Busy(old(os.Seen()), os.Seen(), 2)
    ensures os.frames == old(os.frames) + [moved] && os.arrival == os.checks
    ensures old(stream.inbox) == moved + stream.inbox && stream.consumed == old(stream.consumed) + moved
    ensures FrameRead(old(stream.inbox), r, stream.inbox)
    ensures r.Ok? && r.value.Some? ==>
              Framable(r.value.value) && moved == Frame(r.value.value) && !os.stop && os.now < deadline.at
    ensures r == Ok(None) ==> moved == [] && os.faults > old(os.faults) && os.broken
    ensures r == Err(InvalidData) ==> ShortFrame(moved)
    ensures r.Err? ==> !WholeFrame(moved) || os.stop || os.now >= deadline.at
    ensures r.Err? && r.error !in {Cancelled, InvalidData} ==> Troubled(old(os.Seen()), os.Seen(), deadline)
    ensures r == Err(Cancelled) ==> os.stop
  {
    r, moved := ReadPieces(os, stream, deadline);
    OctetsAppend(os.frames, moved);
    os.frames, os.arrival := os.frames + [moved], os.checks;
  }

  /** A length and as many octets. */
  method ReadPieces(os: Platform, stream: TcpStream, deadline: Deadline)
    returns (r: Result<Option<seq<byte>>, IoError>, ghost moved: seq<byte>)
    modifies os`now, os`stop, os`patience, os`cleared, os`checks, os`lapses, os`faults, os`broken, os`calls,
             os`delivered, stream`inbox, stream`consumed
    ensures Ticks(old(os.Seen()), os.Seen()) && os.patience <= old(os.patience)
    ensures Busy(old(os.Seen()), os.Seen(), 2)
    ensures os.delivered == old(os.delivered) + moved
    ensures old(stream.inbox) == moved + stream.inbox && stream.consumed == old(stream.consumed) + moved
    ensures FrameRead(old(stream.inbox), r, stream.inbox)
    ensures r.Ok? && r.value.Some? ==>
              Framable(r.value.value) && moved == Frame(r.value.value) && !os.stop && os.now < deadline.at
    ensures r == Ok(None) ==> moved == [] && os.faults > old(os.faults) && os.broken
    ensures r == Err(InvalidData) ==> ShortFrame(moved)
    ensures r.Err? ==> !WholeFrame(moved) || os.stop || os.now >= deadline.at
    ensures r.Err? && r.error !in {Cancelled, InvalidData} ==> Troubled(old(os.Seen()), os.Seen(), deadline)
    ensures r == Err(Cancelled) ==> os.stop
  {
    hide Frame, WholeFrame;
    var prefix := new byte[2];
    var some;
    ghost var first;
    some, first := ReadExact(os, stream, prefix, deadline);
    moved := first;
    if some.Err? || !some.value {
      ShortIsNotWhole(moved);
      r := if some.Err? then Err(some.error) else Ok(None);
      return;
    }
    var length := WordAt(prefix[..], 0);
    if length < HEADER_LENGTH {
      ShortIsNotWhole(moved);
      return Err(InvalidData), moved;
    }
    var wire := new byte[length];
    var body;
    ghost var second;
    body, second := ReadExact(os, stream, wire, deadline);
    moved := first + second;
    SplitFrame(old(stream.inbox), first, second, stream.inbox, length);
    PartIsNotWhole(first, second, length);
    assert old(stream.consumed) + first + second == old(stream.consumed) + moved;
    assert old(os.delivered) + first + second == old(os.delivered) + moved;
    if body.Err? {
      return Err(body.error), moved;
    }
    if !body.value {
      return Err(UnexpectedEof), moved;
    }
    return Ok(Some(wire[..])), moved;
  }

  lemma EmptyIsNotWhole()
    ensures !WholeFrame([])
  {
    ShortIsNotWhole([]);
  }

  lemma ShortIsNotWhole(s: seq<byte>)
    requires |s| <= 2
    ensures !WholeFrame(s)
  {
    forall w | Framable(w) ensures |Frame(w)| > 2 {
    }
  }

  lemma PartIsNotWhole(first: seq<byte>, second: seq<byte>, length: u16)
    requires |first| == 2 && WordAt(first, 0) == length
    ensures |second| < length ==> !WholeFrame(first + second)
  {
    forall w | Framable(w) && first + second == Frame(w) ensures |second| == length {
      FrameLength(w, []);
      assert Frame(w) + [] == Frame(w);
      assert WordAt(first + second, 0) == WordAt(first, 0);
    }
  }

  /** A prefix that was read, and what was read of the body after it. */
  lemma SplitFrame(before: seq<byte>, first: seq<byte>, second: seq<byte>, after: seq<byte>, length: u16)
    requires |first| == 2 && WordAt(first, 0) == length
    requires before == first + (second + after)
    ensures WordAt(before, 0) == length && |before| == 2 + |second| + |after|
    ensures |second| == length ==> before == Frame(second) + after && first + second == Frame(second)
  {
    WordOctets(first, length);
    assert first + (second + after) == first + second + after;
  }

  lemma WordOctets(s: seq<byte>, n: u16)
    requires |s| == 2 && WordAt(s, 0) == n
    ensures s == Be16(n)
  {
  }

  /** One write within the deadline. No octets mean that it has to be tried again. */
  method WriteSome(os: Platform, stream: TcpStream, rest: seq<byte>, deadline: Deadline)
    returns (r: Result<nat, IoError>, ghost stamps: seq<Stamp>)
    requires os.Valid() && rest != []
    modifies os`now, os`stop, os`patience, os`cleared, os`checks, os`lapses, os`stamps, os`faults, os`broken,
             os`calls, stream`written
    ensures os.Valid()
    ensures Ticks(old(os.Seen()), os.Seen()) && os.patience <= old(os.patience)
    ensures Busy(old(os.Seen()), os.Seen(), 1)
    ensures r.Ok? ==> os.patience < old(os.patience) && Busy(old(os.Seen()), os.Seen(), 0)
    ensures os.stamps == old(os.stamps) + stamps && forall s :: s in stamps ==> s.deadline == deadline
    ensures r.Ok? ==> r.value <= |rest| && stream.written == old(stream.written) + rest[..r.value]
    ensures r.Err? ==> stream.written == old(stream.written)
    ensures r.Err? && r.error != Cancelled ==> Troubled(old(os.Seen()), os.Seen(), deadline)
    ensures r.Err? ==> SystemKind(r.error) || r.error == WriteZero || (r.error == Cancelled && os.stop)
  {
    stamps := [];
    var ready := Ready(os, deadline);
    if ready.Err? {
      return Err(ready.error), stamps;
    }
    var wrote := stream.Write(os, deadline, rest);
    stamps := [Stamp(os.now, deadline)];
    match wrote {
      case Ok(count) =>
        if count == 0 {
          return Err(WriteZero), stamps;
        }
        return Ok(count), stamps;
      case Err(error) =>
        if Transient(error) {
          assert rest[..0] == [];
          return Ok(0), stamps;
        }
        return Err(error), stamps;
    }
  }

  lemma PrefixGrows(s: seq<byte>, from: nat, count: nat)
    requires from + count <= |s|
    ensures s[..from] + s[from..][..count] == s[..from + count]
  {
  }

  /** Writes octets until none are left. */
  method WriteAll(os: Platform, stream: TcpStream, octets: seq<byte>, deadline: Deadline)
    returns (r: Result<(), IoError>, ghost stamps: seq<Stamp>)
    requires os.Valid()
    modifies os`now, os`stop, os`patience, os`cleared, os`checks, os`lapses, os`stamps, os`faults, os`broken,
             os`calls, stream`written
    ensures os.Valid()
    ensures Ticks(old(os.Seen()), os.Seen()) && os.patience <= old(os.patience)
    ensures Busy(old(os.Seen()), os.Seen(), 1)
    ensures os.stamps == old(os.stamps) + stamps && forall s :: s in stamps ==> s.deadline == deadline
    ensures r.Ok? ==> stream.written == old(stream.written) + octets
    ensures r.Err? ==> exists n: nat :: n <= |octets| && stream.written == old(stream.written) + octets[..n]
    ensures r.Err? && r.error != Cancelled ==> Troubled(old(os.Seen()), os.Seen(), deadline)
    ensures r.Err? ==> SystemKind(r.error) || r.error == WriteZero || (r.error == Cancelled && os.stop)
  {
    stamps := [];
    ghost var written0 := stream.written;
    var offset: nat := 0;
    while offset < |octets|
      invariant offset <= |octets| && os.Valid()
      invariant Ticks(old(os.Seen()), os.Seen()) && os.patience <= old(os.patience)
      invariant Busy(old(os.Seen()), os.Seen(), 0)
      invariant os.stamps == old(os.stamps) + stamps && forall s :: s in stamps ==> s.deadline == deadline
      invariant stream.written == written0 + octets[..offset]
      decreases os.patience
    {
      var wrote;
      ghost var more;
      wrote, more := WriteSome(os, stream, octets[offset..], deadline);
      stamps := stamps + more;
      if wrote.Err? {
        return Err(wrote.error), stamps;
      }
      PrefixGrows(octets, offset, wrote.value);
      offset := offset + wrote.value;
    }
    assert octets[..|octets|] == octets;
    var left := os.Remaining(deadline);
    if left.Err? {
      return Err(left.error), stamps;
    }
    return Ok(()), stamps;
  }

  /** Success has put exactly one frame on the stream; a failure has put some prefix of it there. */
  method WriteFrame(os: Platform, stream: TcpStream, wire: seq<byte>, deadline: Deadline)
    returns (r: Result<(), IoError>, ghost t: Trace)
    requires os.Valid()
    modifies os`now, os`stop, os`patience, os`cleared, os`checks, os`lapses, os`stamps, os`sends, os`faults, os`broken,
             os`calls, stream`written
    ensures os.Valid()
    ensures Ticks(old(os.Seen()), os.Seen()) && os.patience <= old(os.patience)
    ensures Busy(old(os.Seen()), os.Seen(), 1)
    ensures r.Err? && r.error !in {Cancelled, InvalidInput} ==> Troubled(old(os.Seen()), os.Seen(), deadline)
    ensures os.sends == old(os.sends) + t.sends && os.stamps == old(os.stamps) + t.stamps && t.Under(deadline)
    ensures t.sends == if Framable(wire) then [Transmission(stream.address, Tcp, wire)] else []
    ensures r.Ok? ==> Framable(wire) && stream.written == old(stream.written) + Frame(wire)
    ensures r == Err(InvalidInput) <==> !Framable(wire)
    ensures r.Err? && Framable(wire) ==>
              exists n: nat :: n <= |Frame(wire)| && stream.written == old(stream.written) + Frame(wire)[..n]
    ensures r.Err? ==> SystemKind(r.error) || r.error in {InvalidInput, WriteZero} || (r.error == Cancelled && os.stop)
  {
    t := Trace([], []);
    if !Framable(wire) {
      return Err(InvalidInput), t;
    }
    os.sends := os.sends + [Transmission(stream.address, Tcp, wire)];
    ghost var stamps;
    r, stamps := WriteAll(os, stream, Frame(wire), deadline);
    t := Trace([Transmission(stream.address, Tcp, wire)], stamps);
  }

  // ----- whole streams -----

  /** The octets of a list of messages. */
  function Frames(ws: seq<seq<byte>>): seq<byte> {
    if ws == [] then [] else Frame(ws[0]) + Frames(ws[1..])
  }

  /** A run of frame reads: what was still to come before each of them, and what each returned. */
  ghost predicate ReadRun(inboxes: seq<seq<byte>>, results: seq<Result<Option<seq<byte>>, IoError>>) {
    && |inboxes| == |results| + 1
    && forall i :: 0 <= i < |results| ==> FrameRead(inboxes[i], results[i], inboxes[i + 1])
  }

  /** A failure of the connection or of the budget, as opposed to one of the framing. */
  predicate Environmental(r: Result<Option<seq<byte>>, IoError>) {
    r.Err? && (SystemKind(r.error) || r.error == Cancelled)
  }

  /** Octets have at most one first frame. */
  lemma FrameIsUnique(a: seq<byte>, b: seq<byte>, restA: seq<byte>, restB: seq<byte>)
    requires |a| <= MAX_MESSAGE_LENGTH && |b| <= MAX_MESSAGE_LENGTH
    requires Frame(a) + restA == Frame(b) + restB
    ensures a == b && restA == restB
  {
    FrameLength(a, restA);
    FrameLength(b, restB);
    var s := Frame(a) + restA;
    assert s[2..2 + |a|] == a && s[2..2 + |b|] == b;
    assert s[2 + |a|..] == restA && s[2 + |b|..] == restB;
  }

  /** Appending a frame to a stream appends a message to its list. */
  lemma {:induction false} FramesAppend(ws: seq<seq<byte>>, w: seq<byte>)
    ensures Frames(ws + [w]) == Frames(ws) + Frame(w)
    decreases |ws|
  {
    hide Frame;
    var all := ws + [w];
    if ws == [] {
      assert all[1..] == [];
      assert Frames(all) == Frame(w) + [];
    } else {
      assert all[0] == ws[0] && all[1..] == ws[1..] + [w];
      FramesAppend(ws[1..], w);
    }
  }

  lemma FrameLength(w: seq<byte>, rest: seq<byte>)
    requires |w| <= MAX_MESSAGE_LENGTH
    ensures var s := Frame(w) + rest;
            |s| == 2 + |w| + |rest| && WordAt(s, 0) == |w|
  {
  }

  /** On the octets of some frames, a read returns the first of them, or end of file when there is none. */
  lemma ReadOfFrames(ws: seq<seq<byte>>, r: Result<Option<seq<byte>>, IoError>, after: seq<byte>)
    requires forall w :: w in ws ==> Framable(w)
    requires FrameRead(Frames(ws), r, after) && !Environmental(r)
    ensures if ws == [] then r == Ok(None) && after == []
            else r == Ok(Some(ws[0])) && after == Frames(ws[1..])
  {
    if ws != [] {
      assert ws[0] in ws;
      var before := Frames(ws);
      var rest := Frames(ws[1..]);
      assert before == Frame(ws[0]) + rest;
      FrameLength(ws[0], rest);
      if r.Ok? && r.value.Some? {
        FrameIsUnique(ws[0], r.value.value, rest, after);
      }
    }
  }

  /**
   * Framing round trip: whatever the chunks, reading a stream of frames returns the messages in order, and
   * end of file only after the last of them, as long as no connection fails and no budget expires.
   */
  lemma {:induction false} FramingRoundTrip(
    ws: seq<seq<byte>>, inboxes: seq<seq<byte>>, results: seq<Result<Option<seq<byte>>, IoError>>, i: nat)
    requires forall w :: w in ws ==> Framable(w)
    requires ReadRun(inboxes, results) && inboxes[0] == Frames(ws)
    requires forall k :: 0 <= k < |results| ==> !Environmental(results[k])
    requires i < |results|
    ensures results[i] == if i < |ws| then Ok(Some(ws[i])) else Ok(None)
    ensures inboxes[i + 1] == if i < |ws| then Frames(ws[i + 1..]) else []
    decreases i
  {
    hide FrameRead, Environmental, Framable;
    if i == 0 {
      ReadOfFrames(ws, results[0], inboxes[1]);
    } else {
      FramingRoundTrip(ws, inboxes, results, i - 1);
      var left := if i <= |ws| then ws[i..] else [];
      assert Frames(left) == inboxes[i];
      ReadOfFrames(left, results[i], inboxes[i + 1]);
      if i < |ws| {
        assert left[1..] == ws[i + 1..];
      }
    }
  }
}
