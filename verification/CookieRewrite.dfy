/**
 * A rewritten cookie query means what the query meant (src/dns/cookie.rs, `retry` and `rewrite`), provided its
 * question can be read without the octets behind it; and a query for which it does not.
 */
module CookieRewrite {
  import opened Outcomes
  import opened Bytes
  import opened Names
  import opened Types
  import opened Options
  import opened Messages
  import opened Records
  import opened Cookies
  import opened CookieRetry

  /** The question name is spelled by octets before RDLENGTH, the first that a rewrite may change. */
  ghost predicate QuestionStandsAlone(p: Packet) {
    p.cookie.Some? && p.cookie.value.Present? ==>
      p.cookie.value.slot.rdlengthAt <= |p.wire| && NameWithin(p.wire, p.cookie.value.slot.rdlengthAt)
  }

  /** The question name can be decoded from the first `limit` octets. */
  ghost predicate NameWithin(w: seq<byte>, limit: nat)
    requires limit <= |w|
  {
    Decode(w[..limit], HEADER_LENGTH).Ok?
  }

  /** Offset `i` holds a part of RDLENGTH or of the option length. */
  predicate LengthOctet(slot: CookieSlot, i: int) {
    slot.rdlengthAt <= i < slot.rdlengthAt + 2 || slot.lengthAt <= i < slot.lengthAt + 2
  }

  /**
   * How `b` differs from `a` after a rewrite: only RDLENGTH, the option length and the cookie data, and the
   * message ends with the cookie unless it keeps its size.
   */
  ghost predicate Rewritten(a: seq<byte>, b: seq<byte>, slot: CookieSlot, newLen: u16) {
    && SlotDescribes(a, slot)
    && CookieLength(newLen)
    && |b| == |a| - slot.dataLen + newLen <= MAX_MESSAGE_LENGTH
    && (newLen == slot.dataLen || slot.dataAt + slot.dataLen == |a|)
    && (forall i :: 0 <= i < slot.dataAt && !LengthOctet(slot, i) ==> b[i] == a[i])
    && (newLen == slot.dataLen ==> forall i :: slot.dataAt + slot.dataLen <= i < |a| ==> b[i] == a[i])
    && WordAt(b, slot.lengthAt) == newLen
    && WordAt(b, slot.rdlengthAt) == WordAt(a, slot.rdlengthAt) - slot.dataLen + newLen
  }

  ghost function NewSlot(slot: CookieSlot, newLen: u16): CookieSlot {
    slot.(dataLen := newLen)
  }

  /** The cookie itself and what follows it. */
  lemma CookieSurvives(a: seq<byte>, b: seq<byte>, slot: CookieSlot, newLen: u16, cursor: nat)
    requires Rewritten(a, b, slot, newLen)
    requires slot.lengthAt == cursor + 2
    requires OptionsFill(a, cursor, slot.rdlengthAt + 2 + WordAt(a, slot.rdlengthAt))
    ensures var end := slot.rdlengthAt + 2 + WordAt(b, slot.rdlengthAt);
            && end <= |b|
            && LocateFrom(b, slot.rdlengthAt + 2, cursor, end) == Some(Present(NewSlot(slot, newLen)))
            && OptionsFill(b, cursor, end)
  {
    var rdataAt := slot.rdlengthAt + 2;
    var endA, endB := rdataAt + WordAt(a, slot.rdlengthAt), rdataAt + WordAt(b, slot.rdlengthAt);
    assert WordAt(b, cursor) == COOKIE_OPTION;
    OptionsFillNext(a, cursor, endA);
    var next := slot.dataAt + newLen;
    if newLen == slot.dataLen {
      TailSurvives(a, b, next, endA);
    } else {
      assert OptionsTile(b, next, [], endB);
    }
    OptionsFillNext(b, cursor, endB);
  }

  /** Both option walks over the new RDATA go as before, up to the new length of the cookie. */
  lemma {:induction false} OptionsSurvive(a: seq<byte>, b: seq<byte>, slot: CookieSlot, newLen: u16, cursor: nat)
    requires Rewritten(a, b, slot, newLen)
    requires slot.rdlengthAt + 2 <= cursor
    requires var end := slot.rdlengthAt + 2 + WordAt(a, slot.rdlengthAt);
             && LocateFrom(a, slot.rdlengthAt + 2, cursor, end) == Some(Present(slot))
             && OptionsFill(a, cursor, end)
    ensures var end := slot.rdlengthAt + 2 + WordAt(b, slot.rdlengthAt);
            && end <= |b|
            && LocateFrom(b, slot.rdlengthAt + 2, cursor, end) == Some(Present(NewSlot(slot, newLen)))
            && OptionsFill(b, cursor, end)
    decreases |a| - cursor
  {
    var rdataAt := slot.rdlengthAt + 2;
    var endA, endB := rdataAt + WordAt(a, slot.rdlengthAt), rdataAt + WordAt(b, slot.rdlengthAt);
    assert WordAt(b, cursor) == WordAt(a, cursor) by {
      LocatedAfter(a, rdataAt, cursor, endA, slot);
    }
    if WordAt(a, cursor) == COOKIE_OPTION {
      CookieSurvives(a, b, slot, newLen, cursor);
    } else {
      OptionsFillNext(a, cursor, endA);
      var next := cursor + 4 + WordAt(a, cursor + 2);
      LocatedAfter(a, rdataAt, next, endA, slot);
      OptionsSurvive(a, b, slot, newLen, next);
      OptionsFillNext(b, cursor, endB);
    }
  }

  /** The walk finds the cookie at or after its cursor. */
  lemma {:induction false} LocatedAfter(w: seq<byte>, rdataAt: nat, cursor: nat, end: nat, slot: CookieSlot)
    requires LocateFrom(w, rdataAt, cursor, end) == Some(Present(slot))
    ensures cursor + 2 <= slot.lengthAt && cursor + 4 <= end
    ensures WordAt(w, cursor) != COOKIE_OPTION ==>
              cursor + 4 + WordAt(w, cursor + 2) + 2 <= slot.lengthAt
    ensures WordAt(w, cursor) == COOKIE_OPTION ==> slot.lengthAt == cursor + 2
    decreases end - cursor
  {
    if WordAt(w, cursor) != COOKIE_OPTION {
      LocatedAfter(w, rdataAt, cursor + 4 + WordAt(w, cursor + 2), end, slot);
    }
  }

  /** Options that keep their octets keep their tiling. */
  lemma {:induction false} TilingSurvives(a: seq<byte>, b: seq<byte>, pos: nat, options: seq<EdnsOption>, end: nat)
    requires |a| == |b| && forall i :: pos <= i < |a| ==> a[i] == b[i]
    requires OptionsTile(a, pos, options, end)
    ensures OptionsTile(b, pos, options, end)
    decreases |options|
  {
    if options != [] {
      TilingSurvives(a, b, pos + 4 + options[0].len, options[1..], end);
    }
  }

  lemma TailSurvives(a: seq<byte>, b: seq<byte>, pos: nat, end: nat)
    requires |a| == |b| && forall i :: pos <= i < |a| ==> a[i] == b[i]
    requires OptionsFill(a, pos, end)
    ensures OptionsFill(b, pos, end)
  {
    var options :| OptionsTile(a, pos, options, end);
    TilingSurvives(a, b, pos, options, end);
  }

  // ----- the rewrite -----

  lemma PatchChanges(w: seq<byte>, at: nat, word: u16)
    requires at + 2 <= |w|
    ensures WordAt(Patch(w, at, word), at) == word
    ensures forall i :: 0 <= i < |w| && !(at <= i < at + 2) ==> Patch(w, at, word)[i] == w[i]
  {
  }

  lemma SplicedBytes(w: seq<byte>, slot: CookieSlot, data: seq<byte>)
    requires slot.dataAt + slot.dataLen <= |w|
    ensures var out := Spliced(w, slot, data);
            && |out| == |w| - slot.dataLen + |data|
            && (forall i :: 0 <= i < slot.dataAt ==> out[i] == w[i])
            && out[slot.dataAt..slot.dataAt + |data|] == data
            && (|data| == slot.dataLen ==> forall i :: slot.dataAt + slot.dataLen <= i < |w| ==> out[i] == w[i])
  {
  }

  /** The octets of a rewrite, counted from the query's. */
  ghost predicate PatchedOctets(w: seq<byte>, out: seq<byte>, slot: CookieSlot, data: seq<byte>)
    requires slot.dataAt + slot.dataLen <= |w|
  {
    && |out| == |w| - slot.dataLen + |data|
    && (forall i :: 0 <= i < slot.dataAt && !LengthOctet(slot, i) ==> out[i] == w[i])
    && out[slot.dataAt..slot.dataAt + |data|] == data
    && (|data| == slot.dataLen ==> forall i :: slot.dataAt + slot.dataLen <= i < |w| ==> out[i] == w[i])
  }

  lemma PatchedTwice(w: seq<byte>, slot: CookieSlot, data: seq<byte>, len: u16, rdlength: u16)
    requires slot.dataAt + slot.dataLen <= |w|
    requires slot.rdlengthAt + 2 <= slot.lengthAt && slot.lengthAt + 2 == slot.dataAt
    ensures var sized := Patch(Spliced(w, slot, data), slot.lengthAt, len);
            var out := Patch(sized, slot.rdlengthAt, rdlength);
            && WordAt(sized, slot.rdlengthAt) == WordAt(w, slot.rdlengthAt)
            && WordAt(out, slot.lengthAt) == len
            && WordAt(out, slot.rdlengthAt) == rdlength
            && PatchedOctets(w, out, slot, data)
  {
    var bytes := Spliced(w, slot, data);
    var sized := Patch(bytes, slot.lengthAt, len);
    var out := Patch(sized, slot.rdlengthAt, rdlength);
    SplicedBytes(w, slot, data);
    PatchChanges(bytes, slot.lengthAt, len);
    PatchChanges(sized, slot.rdlengthAt, rdlength);
    hide Spliced, Patch;
    assert out[slot.dataAt..slot.dataAt + |data|] == bytes[slot.dataAt..slot.dataAt + |data|];
  }

  /** A rewrite differs from the query only where it may, and carries the new cookie. */
  lemma RewrittenWireShape(w: seq<byte>, slot: CookieSlot, client: seq<byte>, server: seq<byte>, out: seq<byte>)
    requires |client| == 8 && |w| <= MAX_MESSAGE_LENGTH && SlotDescribes(w, slot)
    requires 8 + |server| == slot.dataLen || slot.dataAt + slot.dataLen == |w|
    requires RewrittenWire(w, slot, client, server) == Some(out)
    ensures 16 <= 8 + |server| <= 40 && Rewritten(w, out, slot, 8 + |server|)
    ensures out[slot.dataAt..slot.dataAt + 8 + |server|] == client + server
  {
    hide Spliced, Patch, WordAt;
    var newLen := 8 + |server|;
    SplicedBytes(w, slot, client + server);
    PatchedTwice(w, slot, client + server, newLen, 0);
    var rdlength := WordAt(w, slot.rdlengthAt) + newLen - slot.dataLen;
    PatchedTwice(w, slot, client + server, newLen, rdlength);
  }

  lemma RetryRewrites(sent: Packet, response: Packet)
    requires SlotShaped(sent) && Retry(sent, response).Rewrite?
    requires |sent.wire| <= MAX_MESSAGE_LENGTH
    requires SlotDescribes(sent.wire, sent.cookie.value.slot)
    requires SlotInWire(sent) && SlotInWire(response)
    ensures var slot, w := sent.cookie.value.slot, Retry(sent, response).wire;
            var newLen := response.cookie.value.slot.dataLen;
            && Rewritten(sent.wire, w, slot, newLen)
            && w[slot.dataAt..slot.dataAt + newLen]
               == ResponseCookie(sent).value[..8] + ResponseCookie(response).value[8..]
  {
    hide Rewritten, SlotDescribes, RewrittenWire;
    var client, server := ResponseCookie(sent).value[..8], ResponseCookie(response).value[8..];
    RewrittenWireShape(sent.wire, sent.cookie.value.slot, client, server, Retry(sent, response).wire);
  }

  /** The parts of a forwardable query whose only record is its OPT. */
  ghost predicate SoleOpt(w: seq<byte>, q: ReadQuestion, r: ResourceRecord, slot: CookieSlot) {
    && QuestionAt(w, HEADER_LENGTH) == Ok(q)
    && RecordAt(w, q.end) == Ok(r)
    && r.kind == Opt && r.owner.labels == [] && r.End() == |w|
    && r.dataStart == slot.rdlengthAt + 2
    && OptionsFill(w, r.dataStart, r.End())
    && LocateFrom(w, r.dataStart, r.dataStart, r.End()) == Some(Present(slot))
  }

  /** One OPT record, read from a fresh state up to the end of the message. */
  lemma OptStep(w: seq<byte>, q: ReadQuestion, slot: CookieSlot, t: Findings) returns (r: ResourceRecord)
    requires QuestionAt(w, HEADER_LENGTH) == Ok(q)
    requires ReadRecord(w, Additional, Findings(q.end, None, None, false)) == Ok(t)
    requires t.pos == |w| && t.cookie == Some(Present(slot))
    ensures SoleOpt(w, q, r, slot)
    ensures t.edns == Some(EdnsOf(r.classField.size, r.ttl)) && !t.authenticated
  {
    hide Decode, ValidateData, OptionsFill;
    r := RecordAt(w, q.end).value;
    ValidateIffFilled(w, r.dataStart, r.End(), 0);
    LocatedSlotFits(w, r.dataStart, r.dataStart, r.End());
  }

  lemma ForwardableParts(p: Packet) returns (q: ReadQuestion, r: ResourceRecord)
    requires Faithful(p) && p.Forwardable() && p.header.additionals == 1
    requires p.cookie.Some? && p.cookie.value.Present?
    ensures SoleOpt(p.wire, q, r, p.cookie.value.slot)
    ensures p.header.questions == 1 && p.questions == [q.question]
    ensures p.edns == Some(EdnsOf(r.classField.size, r.ttl)) && !p.authenticated
  {
    hide Parse, QuestionAt, ReadRecord, SoleOpt;
    var qs := FaithfulSteps(p);
    OneQuestion(p.wire);
    q := QuestionAt(p.wire, HEADER_LENGTH).value;
    OneAdditional(p.header);
    OneRecord(p.wire, Findings(q.end, None, None, false));
    r := OptStep(p.wire, q, p.cookie.value.slot, Findings(|p.wire|, p.edns, p.cookie, p.authenticated));
  }

  lemma OneQuestion(w: seq<byte>)
    ensures QuestionsAt(w, HEADER_LENGTH, 1)
            == match QuestionAt(w, HEADER_LENGTH)
               case Err(e) => Err(e)
               case Ok(q) => Ok(ReadQuestions([q.question], q.end))
  {
    hide QuestionAt;
    if QuestionAt(w, HEADER_LENGTH).Ok? {
      var q := QuestionAt(w, HEADER_LENGTH).value;
      assert QuestionsAt(w, q.end, 0) == Ok(ReadQuestions([], q.end));
      assert [q.question] + [] == [q.question];
    }
  }

  lemma OneAdditional(h: Header)
    requires h.answers == 0 && h.authorities == 0 && h.additionals == 1
    ensures h.Sections() == [Additional]
  {
  }

  lemma OneRecord(w: seq<byte>, s: Findings)
    ensures ReadRecords(w, [Additional], s) == ReadRecord(w, Additional, s)
  {
    hide ReadRecord;
    if ReadRecord(w, Additional, s).Ok? {
      assert ReadRecords(w, [], ReadRecord(w, Additional, s).value) == ReadRecord(w, Additional, s);
    }
  }

  /** What spells the name within a prefix spells it in every message with that prefix. */
  lemma NameSurvives(a: seq<byte>, b: seq<byte>, limit: nat)
    requires SamePrefix(a, b, limit) && NameWithin(a, limit)
    ensures Decode(b, HEADER_LENGTH) == Decode(a, HEADER_LENGTH) && Decode(a, HEADER_LENGTH).Ok?
    ensures NameWithin(b, limit)
  {
    DecodeReadsPrefix(a[..limit], a, HEADER_LENGTH, 1, []);
    DecodeReadsPrefix(a[..limit], b, HEADER_LENGTH, 1, []);
    assert a[..limit] == b[..limit];
  }

  /** The question of `b`, if its name decodes, is that of `a` under the name that `b` spells. */
  lemma QuestionRenamed(a: seq<byte>, b: seq<byte>, q: ReadQuestion)
    requires QuestionAt(a, HEADER_LENGTH) == Ok(q) && SamePrefix(a, b, q.end)
    ensures match Decode(b, HEADER_LENGTH)
            case Err(e) => QuestionAt(b, HEADER_LENGTH) == Err(e)
            case Ok(d) => QuestionAt(b, HEADER_LENGTH) == Ok(q.(question := Renamed(q.question, d.labels)))
    ensures q.end >= HEADER_LENGTH + 5
  {
    DecodedIsValid(a, HEADER_LENGTH);
    var jumps := DecodeFromExpands(a, HEADER_LENGTH, 1, []);
    PhysicalEndReadsPrefix(a, b, HEADER_LENGTH, Decode(a, HEADER_LENGTH).value.labels, jumps);
    if Decode(b, HEADER_LENGTH).Ok? {
      DecodedIsValid(b, HEADER_LENGTH);
    }
    hide Decode, PhysicalEnd, Expands;
  }

  function Renamed(q: Question, labels: seq<Label>): Question {
    q.(name := DomainName(labels))
  }

  lemma EnvelopeSurvives(a: seq<byte>, b: seq<byte>, pos: nat, r: ResourceRecord)
    requires RecordAt(a, pos) == Ok(r) && r.owner.labels == []
    requires SamePrefix(a, b, r.dataStart - 2) && r.dataStart <= |b|
    ensures r.dataLength == WordAt(a, r.dataStart - 2)
    ensures RecordAt(b, pos) == Ok(r.(dataLength := WordAt(b, r.dataStart - 2)))
    ensures r.dataStart >= pos + 11
  {
    DecodedIsValid(a, pos);
    RootReadsPrefix(a, b, pos, 1, []);
  }

  /** The OPT record after a question that ends at the same offset is read as before. */
  lemma PartsSurvive(
    a: seq<byte>, b: seq<byte>, q: ReadQuestion, q': ReadQuestion, r: ResourceRecord, slot: CookieSlot, newLen: u16)
    requires SoleOpt(a, q, r, slot) && Rewritten(a, b, slot, newLen)
    requires QuestionAt(b, HEADER_LENGTH) == Ok(q') && q'.end == q.end
    ensures SoleOpt(b, q', r.(dataLength := WordAt(b, slot.rdlengthAt)), NewSlot(slot, newLen))
    ensures r.dataStart >= q.end + 11
  {
    hide QuestionAt, RecordAt, LocateFrom, OptionsFill;
    assert SamePrefix(a, b, slot.rdlengthAt);
    EnvelopeSurvives(a, b, q.end, r);
    OptionsSurvive(a, b, slot, newLen, r.dataStart);
  }

  lemma NameEndsBeforeOpt(w: seq<byte>, q: ReadQuestion, r: ResourceRecord, slot: CookieSlot)
    requires SoleOpt(w, q, r, slot)
    ensures HEADER_LENGTH < PhysicalEnd(w, HEADER_LENGTH) < q.end < slot.rdlengthAt
    ensures QuestionAt(w, HEADER_LENGTH) == Ok(q)
  {
    DecodedIsValid(w, HEADER_LENGTH);
    DecodedIsValid(w, q.end);
    hide Decode, OptionsFill, LocateFrom;
  }

  /** The query with its cookie rewritten, under the question name that the new octets spell. */
  ghost function RewrittenPacket(p: Packet, b: seq<byte>, newLen: u16, labels: seq<Label>): Packet
    requires p.cookie.Some? && p.cookie.value.Present? && |p.questions| == 1
  {
    p.(wire := b, cookie := Some(Present(NewSlot(p.cookie.value.slot, newLen))),
       questions := [Renamed(p.questions[0], labels)])
  }

  /**
   * The rewritten wire parses exactly if its question name decodes; then only that name, the cookie and the
   * octets of the query can have changed.
   */
  lemma RewrittenParses(p: Packet, b: seq<byte>, newLen: u16)
    requires Faithful(p) && p.Forwardable() && p.header.additionals == 1
    requires p.cookie.Some? && p.cookie.value.Present?
    requires Rewritten(p.wire, b, p.cookie.value.slot, newLen) && p.cookie.value.slot.rdlengthAt >= HEADER_LENGTH
    ensures Decode(b, HEADER_LENGTH).Err? ==> Parse(b).Err?
    ensures Decode(b, HEADER_LENGTH).Ok? ==>
              Parse(b) == Ok(RewrittenPacket(p, b, newLen, Decode(b, HEADER_LENGTH).value.labels))
  {
    hide Parse, SoleOpt, QuestionAt, Decode;
    var slot := p.cookie.value.slot;
    var q, r := ForwardableParts(p);
    NameEndsBeforeOpt(p.wire, q, r, slot);
    FaithfulHeader(p);
    assert p.wire[..slot.rdlengthAt] == b[..slot.rdlengthAt];
    QuestionRenamed(p.wire, b, q);
    match Decode(b, HEADER_LENGTH) {
      case Ok(d) =>
        var q' := q.(question := Renamed(q.question, d.labels));
        PartsSurvive(p.wire, b, q, q', r, slot, newLen);
        SoleOptParses(b, p.header, q', r.(dataLength := WordAt(b, slot.rdlengthAt)), NewSlot(slot, newLen));
      case Err(e) =>
        UnreadableQuestion(b, p.header);
    }
  }

  lemma UnreadableQuestion(w: seq<byte>, h: Header)
    requires ParseHeader(w) == Ok(h) && h.questions == 1 && QuestionAt(w, HEADER_LENGTH).Err?
    ensures Parse(w).Err?
  {
    OneQuestion(w);
    hide QuestionAt, QuestionsAt, ReadRecords;
  }

  /** A question that stands alone is read from octets that no rewrite touches. */
  lemma AloneNameSurvives(p: Packet, b: seq<byte>, newLen: u16)
    requires Faithful(p) && p.Forwardable() && p.header.additionals == 1
    requires p.cookie.Some? && p.cookie.value.Present?
    requires Rewritten(p.wire, b, p.cookie.value.slot, newLen) && QuestionStandsAlone(p)
    ensures |p.questions| == 1 && p.cookie.value.slot.rdlengthAt <= |b|
    ensures NameWithin(b, p.cookie.value.slot.rdlengthAt)
    ensures Decode(b, HEADER_LENGTH) == Decode(p.wire, HEADER_LENGTH)
    ensures Decode(b, HEADER_LENGTH).Ok? && Decode(b, HEADER_LENGTH).value.labels == p.questions[0].name.labels
  {
    hide Parse, SoleOpt, NameWithin, Decode;
    SentName(p);
    NameSurvives(p.wire, b, p.cookie.value.slot.rdlengthAt);
  }

  /** A question written without compression stands alone. */
  lemma UncompressedStandsAlone(p: Packet, name: DomainName)
    requires Faithful(p) && p.Forwardable() && p.header.additionals == 1
    requires name.Valid() && Holds(p.wire, HEADER_LENGTH, Encode(name.labels))
    ensures QuestionStandsAlone(p)
  {
    if p.cookie.Some? && p.cookie.value.Present? {
      var slot := p.cookie.value.slot;
      var q, r := ForwardableParts(p);
      NameEndsBeforeOpt(p.wire, q, r, slot);
      EncodingExpands(p.wire, HEADER_LENGTH, name.labels);
      AcceptedSlotFits(p);
      EncodedWithin(p.wire, name, slot.rdlengthAt);
      hide Parse, SoleOpt, NameWithin, Encode;
    }
  }

  lemma EncodedWithin(w: seq<byte>, name: DomainName, limit: nat)
    requires name.Valid() && Holds(w, HEADER_LENGTH, Encode(name.labels))
    requires HEADER_LENGTH + EncodedLength(name.labels) <= limit <= |w|
    ensures NameWithin(w, limit)
  {
    var p := w[..limit];
    assert p[HEADER_LENGTH..HEADER_LENGTH + |Encode(name.labels)|] == Encode(name.labels);
    DecodeOfEncode(p, HEADER_LENGTH, name);
  }

  lemma QuestionName(w: seq<byte>, q: ReadQuestion)
    requires QuestionAt(w, HEADER_LENGTH) == Ok(q)
    ensures Decode(w, HEADER_LENGTH).Ok? && q.question.name.labels == Decode(w, HEADER_LENGTH).value.labels
  {
    hide Decode;
  }

  lemma SoleOptParses(w: seq<byte>, h: Header, q: ReadQuestion, r: ResourceRecord, slot: CookieSlot)
    requires HEADER_LENGTH <= |w| <= MAX_MESSAGE_LENGTH && ParseHeader(w) == Ok(h)
    requires h.questions == 1 && h.answers == 0 && h.authorities == 0 && h.additionals == 1
    requires SoleOpt(w, q, r, slot)
    requires q.end >= HEADER_LENGTH + 5 && r.dataStart >= q.end + 11
    ensures Parse(w)
            == Ok(Packet(w, h, [q.question], Some(EdnsOf(r.classField.size, r.ttl)), false, Some(Present(slot))))
  {
    OneQuestion(w);
    OneAdditional(h);
    var s := Findings(q.end, None, None, false);
    OneRecord(w, s);
    OptRecordReads(w, s, r);
    hide QuestionsAt, ReadRecords, QuestionAt, ReadRecord, OptionsFill, LocateFrom;
  }

  lemma SameCookieIsCurrent(p: Packet, response: Packet)
    requires SlotInWire(p) && SlotInWire(response) && SlotShaped(p)
    requires ResponseCookie(p).Some? && ResponseCookie(p) == ResponseCookie(response)
    requires |ResponseCookie(p).value| >= 16
    ensures Retry(p, response) == Current
  {
  }

  /** A rewrite is offered only for a usable response cookie that repeats the client's octets. */
  lemma RewriteNeedsMatch(sent: Packet, response: Packet)
    requires SlotShaped(sent) && Retry(sent, response).Rewrite?
    requires SlotInWire(sent) && SlotInWire(response)
    ensures ResponseCookie(sent).Some? && ResponseCookie(response).Some?
    ensures |ResponseCookie(response).value| >= 16
    ensures ResponseCookie(sent).value[..8] == ResponseCookie(response).value[..8]
  {
    hide RewrittenWire;
  }

  /** The query carries the new cookie, can be forwarded, and the same response asks for no further rewrite. */
  ghost predicate CarriesCookie(p: Packet, sent: Packet, response: Packet)
    requires SlotInWire(sent) && SlotInWire(response)
  {
    && p.Forwardable()
    && SlotInWire(p) && SlotShaped(p)
    && ResponseCookie(sent).Some? && ResponseCookie(response).Some?
    && |ResponseCookie(sent).value| >= 8 && |ResponseCookie(response).value| >= 8
    && ResponseCookie(p) == Some(ResponseCookie(sent).value[..8] + ResponseCookie(response).value[8..])
    && Retry(p, response) == Current
  }

  /**
   * Exactly when a rewrite keeps the meaning of a query whose only additional record is its OPT. Every rewrite
   * that is accepted at all keeps the header, the question's type and class and the EDNS fields, is
   * forwardable, and carries the client's eight octets with the server's cookie. It keeps the question too if
   * and only if the octets at the start of the question still spell the name, which may run into the cookie.
   */
  lemma RewriteKeepsAllButName(sent: Packet, response: Packet)
    requires Faithful(sent) && Faithful(response)
    requires SlotShaped(sent) && Retry(sent, response).Rewrite?
    requires sent.Forwardable() && sent.header.additionals == 1
    ensures sent.cookie.Some? && sent.cookie.value.Present? && response.cookie.Some? && response.cookie.value.Present?
    ensures |sent.questions| == 1 && SlotInWire(sent) && SlotInWire(response)
    ensures var slot, w := sent.cookie.value.slot, Retry(sent, response).wire;
            var newLen := response.cookie.value.slot.dataLen;
            var p := sent.(wire := w, cookie := Some(Present(NewSlot(slot, newLen))));
            var d := Decode(w, HEADER_LENGTH);
            && Rewritten(sent.wire, w, slot, newLen)
            && (Parse(w).Ok? <==> d.Ok?)
            && (d.Ok? ==>
                  && Parse(w) == Ok(RewrittenPacket(sent, w, newLen, d.value.labels))
                  && CarriesCookie(Parse(w).value, sent, response))
            && (Parse(w) == Ok(p) <==> d.Ok? && d.value.labels == sent.questions[0].name.labels)
  {
    hide Parse, Rewritten, SlotDescribes, RewrittenWire, Decode, CarriesCookie;
    AcceptedCookies(sent);
    AcceptedCookies(response);
    AcceptedSlotFits(sent);
    FaithfulHeader(sent);
    RetryRewrites(sent, response);
    var slot, w := sent.cookie.value.slot, Retry(sent, response).wire;
    var newLen := response.cookie.value.slot.dataLen;
    RewrittenParses(sent, w, newLen);
    assert sent.questions == [sent.questions[0]];
    if Decode(w, HEADER_LENGTH).Ok? {
      SameNameSamePacket(sent, w, newLen, Decode(w, HEADER_LENGTH).value.labels);
      RewrittenCarriesCookie(sent, response, RewrittenPacket(sent, w, newLen, Decode(w, HEADER_LENGTH).value.labels));
    }
    hide Retry;
  }

  lemma SameNameSamePacket(p: Packet, b: seq<byte>, newLen: u16, labels: seq<Label>)
    requires p.cookie.Some? && p.cookie.value.Present? && |p.questions| == 1
    ensures RewrittenPacket(p, b, newLen, labels)
            == p.(wire := b, cookie := Some(Present(NewSlot(p.cookie.value.slot, newLen))))
            <==> labels == p.questions[0].name.labels
  {
    var renamed := RewrittenPacket(p, b, newLen, labels).questions;
    assert renamed[0].name.labels == labels;
    assert p.questions == [p.questions[0]];
    if labels == p.questions[0].name.labels {
      assert renamed[0] == p.questions[0];
    }
  }

  lemma RewrittenCarriesCookie(sent: Packet, response: Packet, p: Packet)
    requires SlotInWire(sent) && SlotInWire(response) && SlotShaped(sent) && Retry(sent, response).Rewrite?
    requires |sent.wire| <= MAX_MESSAGE_LENGTH && SlotDescribes(sent.wire, sent.cookie.value.slot)
    requires sent.Forwardable() && |sent.questions| == 1 && Faithful(p)
    requires exists labels ::
               p == RewrittenPacket(sent, Retry(sent, response).wire, response.cookie.value.slot.dataLen, labels)
    ensures CarriesCookie(p, sent, response)
  {
    hide Parse, Rewritten, SlotDescribes, RewrittenWire;
    RetryRewrites(sent, response);
    RewriteNeedsMatch(sent, response);
    var received := ResponseCookie(response).value;
    assert received[..8] + received[8..] == received;
    AcceptedCookies(p);
    SameCookieIsCurrent(p, response);
    hide Retry;
  }

  /** A question that stands alone, as every uncompressed one does, makes each rewrite keep the whole meaning. */
  lemma RewriteKeepsMeaning(sent: Packet, response: Packet)
    requires Faithful(sent) && Faithful(response)
    requires SlotShaped(sent) && Retry(sent, response).Rewrite?
    requires sent.Forwardable() && sent.header.additionals == 1 && QuestionStandsAlone(sent)
    ensures sent.cookie.Some? && sent.cookie.value.Present? && response.cookie.Some? && response.cookie.value.Present?
    ensures SlotInWire(sent) && SlotInWire(response)
    ensures var slot, w := sent.cookie.value.slot, Retry(sent, response).wire;
            var newLen := response.cookie.value.slot.dataLen;
            var p := sent.(wire := w, cookie := Some(Present(NewSlot(slot, newLen))));
            && Rewritten(sent.wire, w, slot, newLen)
            && Parse(w) == Ok(p)
            && CarriesCookie(p, sent, response)
            && QuestionStandsAlone(p)
  {
    hide Parse, Rewritten, NameWithin, Decode, Retry, CarriesCookie, Packet.Forwardable;
    RewriteKeepsAllButName(sent, response);
    AloneNameSurvives(sent, Retry(sent, response).wire, response.cookie.value.slot.dataLen);
  }

  // ----- which octets matter -----

  /** `c` is the first offset at which two messages differ. */
  ghost predicate FirstChange(a: seq<byte>, b: seq<byte>, c: nat) {
    c < |a| && c < |b| && SamePrefix(a, b, c) && a[c] != b[c]
  }

  /** A pointer on the way of the question name covers offset `c`. */
  ghost predicate NameCrosses(w: seq<byte>, c: nat) {
    exists labels, jumps ::
      Expands(w, HEADER_LENGTH, labels, jumps) && PointerCovers(w, HEADER_LENGTH, labels, jumps, c)
  }

  /** A name that is spelled alike before and after a change is spelled by the octets before it. */
  lemma SameNameIsWithin(a: seq<byte>, b: seq<byte>, c: nat)
    requires FirstChange(a, b, c) && HEADER_LENGTH <= c
    requires Decode(a, HEADER_LENGTH).Ok? && Decode(b, HEADER_LENGTH).Ok?
    requires Decode(a, HEADER_LENGTH).value.labels == Decode(b, HEADER_LENGTH).value.labels
    requires !NameCrosses(a, c) && !NameCrosses(b, c)
    ensures NameWithin(a, c)
  {
    var labels := Decode(a, HEADER_LENGTH).value.labels;
    var jumps := DecodeFromExpands(a, HEADER_LENGTH, 1, []);
    var jumps' := DecodeFromExpands(b, HEADER_LENGTH, 1, []);
    ExpandsBeforeChange(a, b, HEADER_LENGTH, labels, jumps, jumps', c);
    DecodeIffNameSpan(a[..c], HEADER_LENGTH, labels, PhysicalEnd(a[..c], HEADER_LENGTH));
    hide Decode, Expands, PhysicalEnd;
  }

  lemma ChangeExists(a: seq<byte>, b: seq<byte>, i: nat) returns (c: nat)
    requires i < |a| && i < |b| && a[i] != b[i]
    ensures FirstChange(a, b, c) && c <= i
  {
    c := 0;
    while a[c] == b[c]
      invariant c <= i && SamePrefix(a, b, c)
      decreases i - c
    {
      c := c + 1;
    }
  }

  /** A rewrite is proposed only for another server cookie or another length. */
  lemma RewriteChangesCookie(sent: Packet, response: Packet)
    requires SlotShaped(sent) && Retry(sent, response).Rewrite?
    requires SlotInWire(sent) && SlotInWire(response)
    requires ResponseCookie(sent).Some? && ResponseCookie(response).Some?
    requires |ResponseCookie(response).value| >= 16
    ensures ResponseCookie(sent).value[..8] + ResponseCookie(response).value[8..] != ResponseCookie(sent).value
  {
    hide RewrittenWire;
    var a, b := ResponseCookie(sent).value, ResponseCookie(response).value;
    assert (a[..8] + b[8..])[8..] == b[8..];
  }

  /** A rewrite changes some octet, none before RDLENGTH, and RDLENGTH itself if the size changes. */
  lemma RewriteChange(sent: Packet, response: Packet) returns (c: nat)
    requires Faithful(sent) && Faithful(response) && sent.Forwardable()
    requires SlotShaped(sent) && Retry(sent, response).Rewrite?
    ensures sent.cookie.Some? && sent.cookie.value.Present? && response.cookie.Some? && response.cookie.value.Present?
    ensures var slot, w := sent.cookie.value.slot, Retry(sent, response).wire;
            && FirstChange(sent.wire, w, c) && HEADER_LENGTH <= slot.rdlengthAt <= c
            && (response.cookie.value.slot.dataLen != slot.dataLen ==> c < slot.rdlengthAt + 2)
  {
    hide Parse, Packet.Forwardable, Rewritten;
    AcceptedCookies(sent);
    AcceptedCookies(response);
    AcceptedSlotFits(sent);
    FaithfulHeader(sent);
    hide Retry;
    RewriteNeedsMatch(sent, response);
    RetryRewrites(sent, response);
    RewriteChangesCookie(sent, response);
    c := RewrittenChange(sent.wire, Retry(sent, response).wire, sent.cookie.value.slot,
                         response.cookie.value.slot.dataLen);
  }

  lemma RewrittenChange(a: seq<byte>, b: seq<byte>, slot: CookieSlot, newLen: u16) returns (c: nat)
    requires Rewritten(a, b, slot, newLen)
    requires newLen == slot.dataLen ==> a[slot.dataAt..slot.dataAt + newLen] != b[slot.dataAt..slot.dataAt + newLen]
    ensures FirstChange(a, b, c) && slot.rdlengthAt <= c
    ensures newLen != slot.dataLen ==> c < slot.rdlengthAt + 2
  {
    var i: nat;
    if newLen != slot.dataLen {
      i := if a[slot.rdlengthAt] != b[slot.rdlengthAt] then slot.rdlengthAt else slot.rdlengthAt + 1;
    } else {
      i := DifferentOctet(a, b, slot.dataAt, slot.dataAt + newLen);
    }
    c := ChangeExists(a, b, i);
  }

  lemma DifferentOctet(a: seq<byte>, b: seq<byte>, from: nat, to: nat) returns (i: nat)
    requires from <= to <= |a| && to <= |b| && a[from..to] != b[from..to]
    ensures i < to && a[i] != b[i]
  {
    var k: nat :| k < to - from && a[from..to][k] != b[from..to][k];
    i := from + k;
  }

  lemma SentName(p: Packet)
    requires Faithful(p) && p.Forwardable() && p.header.additionals == 1
    requires p.cookie.Some? && p.cookie.value.Present?
    ensures |p.questions| == 1 && Decode(p.wire, HEADER_LENGTH).Ok?
    ensures Decode(p.wire, HEADER_LENGTH).value.labels == p.questions[0].name.labels
  {
    hide Parse, SoleOpt, Decode;
    var q, r := ForwardableParts(p);
    NameEndsBeforeOpt(p.wire, q, r, p.cookie.value.slot);
    QuestionName(p.wire, q);
  }

  /**
   * Exactly when a rewrite keeps the question, in terms of the first octet that it changes, which is in RDLENGTH
   * if the size changes: the name must be spelled by the octets before. The only names that this does not
   * decide have a pointer across the change, which may lead to the same labels by either value.
   */
  lemma RewriteKeepsNameBeforeChange(sent: Packet, response: Packet) returns (c: nat)
    requires Faithful(sent) && Faithful(response)
    requires SlotShaped(sent) && Retry(sent, response).Rewrite?
    requires sent.Forwardable() && sent.header.additionals == 1
    ensures sent.cookie.Some? && sent.cookie.value.Present? && response.cookie.Some? && response.cookie.value.Present?
    ensures var slot, w := sent.cookie.value.slot, Retry(sent, response).wire;
            var newLen := response.cookie.value.slot.dataLen;
            var p := sent.(wire := w, cookie := Some(Present(NewSlot(slot, newLen))));
            && FirstChange(sent.wire, w, c) && slot.rdlengthAt <= c
            && (newLen != slot.dataLen ==> c < slot.rdlengthAt + 2)
            && (NameWithin(sent.wire, c) ==> Parse(w) == Ok(p))
            && (!NameCrosses(sent.wire, c) && !NameCrosses(w, c) ==>
                  (Parse(w) == Ok(p) <==> NameWithin(sent.wire, c)))
  {
    hide Parse, Decode, Retry, CarriesCookie, Packet.Forwardable, NameCrosses, NameWithin;
    RewriteKeepsAllButName(sent, response);
    var slot, w := sent.cookie.value.slot, Retry(sent, response).wire;
    var newLen := response.cookie.value.slot.dataLen;
    c := RewriteChange(sent, response);
    SentName(sent);
    if NameWithin(sent.wire, c) {
      NameSurvives(sent.wire, w, c);
    } else if Parse(w).Ok? && Decode(w, HEADER_LENGTH).value.labels == sent.questions[0].name.labels
              && !NameCrosses(sent.wire, c) && !NameCrosses(w, c) {
      SameNameIsWithin(sent.wire, w, c);
    }
  }
}
