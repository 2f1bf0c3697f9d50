/** What the cookie walk finds in an accepted packet, and what a cookie retry preserves. */
module CookieRetry {
  import opened Outcomes
  import opened Bytes
  import opened Names
  import opened Types
  import opened Options
  import opened Messages
  import opened Records
  import opened Grammar
  import opened Cookies

  // ----- the slot of an accepted packet -----

  lemma {:induction false} OptIsRecord(
    w: seq<byte>, pos: nat, rs: seq<ResourceRecord>, end: nat, sections: seq<RecordSection>)
    returns (at: nat)
    requires RecordsTile(w, pos, rs, end) && Opts(rs) != []
    requires AllWellFormed(w, sections, rs)
    ensures pos <= at && IsRecord(w, at, Opts(rs)[0]) && at + 11 <= Opts(rs)[0].dataStart
    ensures WellFormed(w, Additional, Opts(rs)[0])
    decreases |rs|
  {
    RecordIff(w, pos, rs[0]);
    DecodedIsValid(w, pos);
    AllWellFormedSplit(w, sections, rs);
    if rs[0].kind == Opt {
      at := pos;
    } else {
      at := OptIsRecord(w, rs[0].End(), rs[1..], end, sections[1..]);
    }
  }

  /** `opt` is an OPT record of `w`, at `at`, whose first COOKIE option is described by `cookie`. */
  ghost predicate IsOpt(w: seq<byte>, at: nat, opt: ResourceRecord, cookie: Option<CookieField>) {
    && HEADER_LENGTH <= at && at + 11 <= opt.dataStart
    && IsRecord(w, at, opt)
    && OptionsFill(w, opt.dataStart, opt.End())
    && cookie == Locate(w, opt.dataStart, opt.dataLength)
  }

  lemma MessageOpt(w: seq<byte>, qs: seq<Question>, ends: seq<nat>, rs: seq<ResourceRecord>)
    returns (at: nat, opt: ResourceRecord)
    requires Message(w, qs, ends, rs) && Opts(rs) != []
    ensures IsOpt(w, at, opt, CookieFrom(w, rs))
  {
    hide Locate, Expands, IsRecord;
    QuestionsTakeSpace(w, HEADER_LENGTH, qs, ends);
    at := OptIsRecord(w, Last(HEADER_LENGTH, ends), rs, |w|, ParseHeader(w).value.Sections());
    opt := Opts(rs)[0];
  }

  /** An accepted packet with OPT metadata has the OPT record that its cookie field describes. */
  lemma AcceptedOpt(p: Packet) returns (at: nat, opt: ResourceRecord)
    requires Faithful(p) && p.edns.Some?
    ensures IsOpt(p.wire, at, opt, p.cookie)
  {
    hide Parse;
    var qs, ends, rs := ParserIsSound(p.wire);
    at, opt := MessageOpt(p.wire, qs, ends, rs);
  }

  /** A cookie field needs an OPT record. */
  lemma CookieNeedsOpt(p: Packet)
    requires Faithful(p) && p.cookie.Some?
    ensures p.edns.Some?
  {
    hide Parse;
    var qs, ends, rs := ParserIsSound(p.wire);
    OptsHaveSizes(p.wire, Last(HEADER_LENGTH, ends), rs, |p.wire|);
  }

  lemma {:induction false} OptsHaveSizes(w: seq<byte>, pos: nat, rs: seq<ResourceRecord>, end: nat)
    requires RecordsTile(w, pos, rs, end)
    ensures forall o :: o in Opts(rs) ==> o.classField.UdpPayload?
    decreases |rs|
  {
    if rs != [] {
      OptsHaveSizes(w, rs[0].End(), rs[1..], end);
    }
  }

  /**
   * The two option walks agree: the cookie field of an accepted packet is the first COOKIE option of the
   * list that validation accepted, and it is malformed only for a bad cookie length.
   */
  lemma CookieIsFirstOption(p: Packet) returns (options: seq<EdnsOption>, rdataAt: nat, end: nat)
    requires Faithful(p) && p.edns.Some?
    ensures 2 <= rdataAt && OptionsTile(p.wire, rdataAt, options, end)
    ensures p.cookie == FirstCookie(options, rdataAt)
    ensures p.cookie == Some(Malformed) ==>
              exists o :: o in options && o.code == COOKIE_OPTION && !CookieLength(o.len)
  {
    hide Parse;
    var at, opt := AcceptedOpt(p);
    rdataAt, end := opt.dataStart, opt.End();
    options :| OptionsTile(p.wire, rdataAt, options, end);
    LocateFindsFirst(p.wire, rdataAt, rdataAt, options, end);
    MalformedHasBadLength(options, rdataAt);
  }

  lemma {:induction false} MalformedHasBadLength(options: seq<EdnsOption>, rdataAt: nat)
    requires rdataAt >= 2
    ensures FirstCookie(options, rdataAt) == Some(Malformed) ==>
              exists o :: o in options && o.code == COOKIE_OPTION && !CookieLength(o.len)
    decreases |options|
  {
    if options != [] && options[0].code != COOKIE_OPTION {
      MalformedHasBadLength(options[1..], rdataAt);
    } else if options != [] {
      assert options[0] in options;
    }
  }

  /** Every slot of an accepted packet satisfies the relations that later slicing and patching rely on. */
  lemma AcceptedSlotFits(p: Packet)
    requires Faithful(p) && p.cookie.Some? && p.cookie.value.Present?
    ensures var slot := p.cookie.value.slot;
            slot.rdlengthAt >= HEADER_LENGTH + 9 && SlotDescribes(p.wire, slot)
  {
    hide Parse;
    CookieNeedsOpt(p);
    var at, opt := AcceptedOpt(p);
    LocatedSlotFits(p.wire, opt.dataStart, opt.dataStart, opt.End());
  }

  lemma AcceptedCookies(p: Packet)
    requires Faithful(p)
    ensures SlotInWire(p) && SlotShaped(p)
  {
    hide Parse;
    if p.cookie.Some? && p.cookie.value.Present? {
      AcceptedSlotFits(p);
    }
  }

  // ----- the decision after a validated BADCOOKIE -----

  /** Query and response each carry a cookie of a legal length. */
  predicate BothCookies(sent: Packet, response: Packet) {
    && SlotInWire(sent) && SlotInWire(response)
    && sent.cookie.Some? && sent.cookie.value.Present? && response.cookie.Some? && response.cookie.value.Present?
  }

  /** The cookie octets of a packet. */
  function CookieData(p: Packet): seq<byte>
    requires SlotInWire(p) && p.cookie.Some? && p.cookie.value.Present?
  {
    p.wire[p.cookie.value.slot.dataAt..p.cookie.value.slot.dataAt + p.cookie.value.slot.dataLen]
  }

  /** The cookie changes its size, and something lies behind it in the query. */
  predicate MovesRecords(sent: Packet, response: Packet)
    requires BothCookies(sent, response)
  {
    var slot := sent.cookie.value.slot;
    |CookieData(response)| != slot.dataLen && slot.dataAt + slot.dataLen != |sent.wire|
  }

  /** The server's cookie is new to the query, and can be written into it in place or at its end. */
  predicate Replaceable(sent: Packet, response: Packet)
    requires BothCookies(sent, response)
  {
    CookieData(response) != CookieData(sent) && !MovesRecords(sent, response)
  }

  /** The size that a rewritten query would have. */
  function RewrittenSize(sent: Packet, response: Packet): int
    requires BothCookies(sent, response)
  {
    |sent.wire| - |CookieData(sent)| + |CookieData(response)|
  }

  /**
   * A validated BADCOOKIE always allows a retry, except when the rewritten message would exceed 65535 octets:
   * the RDLENGTH arithmetic never fails on its own. The same bytes are due if the server returns the cookie that
   * was sent, TCP if a rewrite would move other records, and a rewrite otherwise.
   */
  lemma BadCookieAllowsRetry(sent: Packet, response: Packet, required: bool)
    requires Faithful(sent) && Faithful(response)
    requires SlotInWire(sent) && SlotInWire(response) && SlotShaped(sent)
    requires ValidResponse(sent, response, required) && response.ResponseCode() == BadCookie
    ensures BothCookies(sent, response)
    ensures match Retry(sent, response)
            case Absent => false
            case Current => CookieData(response) == CookieData(sent)
            case Tcp => CookieData(response) != CookieData(sent) && MovesRecords(sent, response)
            case Discard => Replaceable(sent, response) && RewrittenSize(sent, response) > 65535
            case Rewrite(_) => Replaceable(sent, response) && RewrittenSize(sent, response) <= 65535
  {
    hide Parse;
    FaithfulHeader(sent);
    AcceptedSlotFits(sent);
    AcceptedSlotFits(response);
    var slot := sent.cookie.value.slot;
    var received := ResponseCookie(response).value;
    var server := received[8..];
    var client := ResponseCookie(sent).value[..8];
    assert received == received[..8] + server;
    assert CookieData(sent) == CookieData(sent)[..8] + CookieData(sent)[8..];
    if Replaceable(sent, response) {
      RewriteSucceeds(sent.wire, slot, client, server);
    }
  }

  /** Rewriting fails only for a message that grows too long, when it keeps its size or ends with the cookie. */
  lemma RewriteSucceeds(w: seq<byte>, slot: CookieSlot, client: seq<byte>, server: seq<byte>)
    requires |client| == 8 && 8 <= |server| <= 32
    requires |w| <= MAX_MESSAGE_LENGTH && SlotDescribes(w, slot)
    requires 8 + |server| == slot.dataLen || slot.dataAt + slot.dataLen == |w|
    ensures RewrittenWire(w, slot, client, server).None? <==>
            |w| - slot.dataLen + 8 + |server| > MAX_MESSAGE_LENGTH
  {
    var out := Spliced(w, slot, client + server);
    if |out| <= MAX_MESSAGE_LENGTH {
      var sized := Patch(out, slot.lengthAt, 8 + |server|);
      assert sized[slot.rdlengthAt] == w[slot.rdlengthAt];
      assert sized[slot.rdlengthAt + 1] == w[slot.rdlengthAt + 1];
    }
  }
}
