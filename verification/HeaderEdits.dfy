/**
 * Editing the header without parsing again: name decoding never reads below offset 12, so a wire whose ID or
 * flags are replaced parses to the same packet with only those header fields replaced
 * (src/dns/message.rs, `with_id` and `Query::sent`; src/dns/reply.rs, `without_recursion`).
 */
module HeaderEdits {
  import opened Outcomes
  import opened Bytes
  import opened Names
  import opened Types
  import opened Options
  import opened Messages
  import opened Records

  lemma DecodeSame(a: seq<byte>, b: seq<byte>, pos: nat)
    requires SameFrom(a, b, HEADER_LENGTH) && pos >= HEADER_LENGTH
    ensures Decode(a, pos) == Decode(b, pos)
    ensures Decode(a, pos).Ok? ==> Decode(a, pos).value.end > pos
  {
    DecodeReadsNoHeader(a, b, pos, 1, []);
    if Decode(a, pos).Ok? {
      DecodedIsValid(a, pos);
    }
  }

  lemma QuestionSame(a: seq<byte>, b: seq<byte>, pos: nat)
    requires SameFrom(a, b, HEADER_LENGTH) && pos >= HEADER_LENGTH
    ensures QuestionAt(a, pos) == QuestionAt(b, pos)
    ensures QuestionAt(a, pos).Ok? ==> QuestionAt(a, pos).value.end > pos
  {
    DecodeSame(a, b, pos);
  }

  lemma {:induction false} QuestionsSame(a: seq<byte>, b: seq<byte>, pos: nat, count: nat)
    requires SameFrom(a, b, HEADER_LENGTH) && pos >= HEADER_LENGTH
    ensures QuestionsAt(a, pos, count) == QuestionsAt(b, pos, count)
    ensures QuestionsAt(a, pos, count).Ok? ==> QuestionsAt(a, pos, count).value.end >= pos
    decreases count
  {
    if count > 0 {
      QuestionSame(a, b, pos);
      if QuestionAt(a, pos).Ok? {
        QuestionsSame(a, b, QuestionAt(a, pos).value.end, count - 1);
      }
    }
  }

  lemma RecordSame(a: seq<byte>, b: seq<byte>, pos: nat)
    requires SameFrom(a, b, HEADER_LENGTH) && pos >= HEADER_LENGTH
    ensures RecordAt(a, pos) == RecordAt(b, pos)
    ensures RecordAt(a, pos).Ok? ==> RecordAt(a, pos).value.dataStart > pos
  {
    DecodeSame(a, b, pos);
  }

  lemma SkipNameSame(a: seq<byte>, b: seq<byte>, pos: nat)
    requires SameFrom(a, b, HEADER_LENGTH) && pos >= HEADER_LENGTH
    ensures SkipName(a, pos) == SkipName(b, pos)
    ensures SkipName(a, pos).Ok? ==> SkipName(a, pos).value > pos
  {
    DecodeSame(a, b, pos);
  }

  lemma {:induction false} SkipStringsSame(a: seq<byte>, b: seq<byte>, pos: nat, end: nat)
    requires SameFrom(a, b, HEADER_LENGTH) && pos >= HEADER_LENGTH
    ensures SkipStrings(a, pos, end) == SkipStrings(b, pos, end)
    decreases end - pos
  {
    if pos < end && pos + 1 <= |a| {
      SkipStringsSame(a, b, pos + 1 + a[pos], end);
    }
  }

  lemma LayoutSame(a: seq<byte>, b: seq<byte>, kind: RecordType, class_: RecordClass, start: nat, end: nat)
    requires SameFrom(a, b, HEADER_LENGTH) && start >= HEADER_LENGTH
    ensures SkipLayout(a, kind, class_, start, end) == SkipLayout(b, kind, class_, start, end)
  {
    match kind
    case Ns => SkipNameSame(a, b, start);
    case Cname => SkipNameSame(a, b, start);
    case Ptr => SkipNameSame(a, b, start);
    case Mx => SkipNameSame(a, b, start + 2);
    case Srv => SkipNameSame(a, b, start + 6);
    case Txt => SkipStringsSame(a, b, start, end);
    case Soa =>
      SkipNameSame(a, b, start);
      if SkipName(a, start).Ok? {
        SkipNameSame(a, b, SkipName(a, start).value);
      }
    case _ =>
  }

  lemma ReadRecordSame(a: seq<byte>, b: seq<byte>, section: RecordSection, s: Findings)
    requires SameFrom(a, b, HEADER_LENGTH) && s.pos >= HEADER_LENGTH
    ensures ReadRecord(a, section, s) == ReadRecord(b, section, s)
    ensures ReadRecord(a, section, s).Ok? ==> ReadRecord(a, section, s).value.pos >= s.pos
  {
    RecordSame(a, b, s.pos);
    if RecordAt(a, s.pos).Ok? {
      var r := RecordAt(a, s.pos).value;
      if r.classField.Dns? {
        LayoutSame(a, b, r.kind, r.classField.class_, r.dataStart, r.End());
      }
      if r.End() <= |a| {
        assert a[r.dataStart..r.End()] == b[r.dataStart..r.End()];
      }
      LocateReadsRdata(a, b, r.dataStart, r.dataStart, r.End());
    }
  }

  lemma {:induction false} ReadRecordsSame(a: seq<byte>, b: seq<byte>, sections: seq<RecordSection>, s: Findings)
    requires SameFrom(a, b, HEADER_LENGTH) && s.pos >= HEADER_LENGTH
    ensures ReadRecords(a, sections, s) == ReadRecords(b, sections, s)
    decreases |sections|
  {
    if sections != [] {
      ReadRecordSame(a, b, sections[0], s);
      if ReadRecord(a, sections[0], s).Ok? {
        ReadRecordsSame(a, b, sections[1..], ReadRecord(a, sections[0], s).value);
      }
    }
  }

  /** `b` is `a` with another ID and other flags, but the same opcode. */
  ghost predicate SameButIdAndFlags(a: seq<byte>, b: seq<byte>) {
    && |a| >= HEADER_LENGTH
    && SameFrom(a, b, 4)
    && ParseHeader(a).value.Opcode() == ParseHeader(b).value.Opcode()
  }

  /** The packet of `b` is that of `a`, with the header that `b` has. */
  lemma ParseSameBody(a: seq<byte>, b: seq<byte>)
    requires SameButIdAndFlags(a, b)
    ensures Parse(a).Ok? <==> Parse(b).Ok?
    ensures Parse(a).Ok? ==> Parse(b).value == Parse(a).value.(wire := b, header := ParseHeader(b).value)
    ensures Parse(a).Err? ==> Parse(b).error.error == Parse(a).error.error
  {
    var h, h' := ParseHeader(a).value, ParseHeader(b).value;
    assert h' == h.(id := h'.id, flags := h'.flags);
    assert h'.Sections() == h.Sections();
    QuestionsSame(a, b, HEADER_LENGTH, h.questions);
    if QuestionsAt(a, HEADER_LENGTH, h.questions).Ok? {
      var end := QuestionsAt(a, HEADER_LENGTH, h.questions).value.end;
      ReadRecordsSame(a, b, h.Sections(), Findings(end, None, None, false));
    }
  }

  lemma WithIdHeader(p: Packet, id: TransactionId)
    requires |p.wire| >= HEADER_LENGTH && ParseHeader(p.wire) == Ok(p.header)
    ensures SameButIdAndFlags(p.wire, p.WithId(id))
    ensures ParseHeader(p.WithId(id)) == Ok(p.header.(id := id))
  {
    var w := p.WithId(id);
    assert w[..2] == Be16(id);
    assert Holds(w, 0, Be16(id));
    HoldsWord(w, 0, id);
    assert SameFrom(p.wire, w, 2);
  }

  /** Replacing the ID needs no second parse: everything but the ID is what it was. */
  lemma WithIdIsSound(p: Packet, id: TransactionId)
    requires Faithful(p)
    ensures |p.wire| >= HEADER_LENGTH
    ensures Parse(p.WithId(id)) == Ok(p.(wire := p.WithId(id), header := p.header.(id := id)))
  {
    FaithfulHeader(p);
    WithIdHeader(p, id);
    ParseSameBody(p.wire, p.WithId(id));
  }

  /** Clears RA in the low flag octet. */
  function WithoutRecursion(w: seq<byte>): seq<byte>
    requires |w| >= HEADER_LENGTH
  {
    w[..3] + [w[3] % 0x80] + w[4..]
  }

  /** Which flag octet every header flag lives in. */
  lemma FlagOctets(high: byte, low: byte)
    ensures var flags := high * 0x100 + low;
            && flags / QR_MASK == high / 0x80
            && flags / OPCODE_UNIT == high / 8
            && flags / TC_MASK == high / 2
            && flags / RA_MASK == high * 2 + low / 0x80
            && flags % 16 == low % 16
  {
    var flags: int := high as int * 0x100 + low;
    assert flags / 16 == high as int * 16 + low / 16;
  }

  ghost predicate SameButRecursion(h: Header, h': Header) {
    && !Bit(h'.flags, RA_MASK)
    && h' == h.(flags := h.flags - (if Bit(h.flags, RA_MASK) then RA_MASK else 0))
    && h'.MessageType() == h.MessageType()
    && h'.Opcode() == h.Opcode()
    && (h'.Truncated() <==> h.Truncated())
    && h'.flags % 16 == h.flags % 16
  }

  lemma ClearedFlags(h: Header, h': Header, high: byte, low: byte)
    requires h.flags == high * 0x100 + low
    requires h' == h.(flags := high * 0x100 + low % 0x80)
    ensures SameButRecursion(h, h')
  {
    FlagOctets(high, low);
    FlagOctets(high, low % 0x80);
    assert low % 0x80 / 0x80 == 0 && low % 0x80 % 16 == low % 16;
    assert low == low / 0x80 * 0x80 + low % 0x80;
    assert Bit(h.flags, RA_MASK) <==> low / 0x80 == 1;
  }

  lemma WithoutRecursionHeader(w: seq<byte>)
    requires |w| >= HEADER_LENGTH
    ensures SameButRecursion(ParseHeader(w).value, ParseHeader(WithoutRecursion(w)).value)
    ensures SameButIdAndFlags(w, WithoutRecursion(w))
  {
    var w' := WithoutRecursion(w);
    assert SameFrom(w, w', 4);
    assert w'[..3] == w[..3];
    ClearedFlags(ParseHeader(w).value, ParseHeader(w').value, w[2], w[3]);
  }

  /** Clearing RA changes nothing else: not the ID, QR, the opcode, TC, the response code or the body. */
  lemma WithoutRecursionIsSound(p: Packet)
    requires Faithful(p)
    ensures |p.wire| >= HEADER_LENGTH
    ensures var w := WithoutRecursion(p.wire);
            && Parse(w).Ok?
            && Parse(w).value == p.(wire := w, header := ParseHeader(w).value)
            && SameButRecursion(p.header, ParseHeader(w).value)
            && Parse(w).value.ResponseCode() == p.ResponseCode()
  {
    FaithfulHeader(p);
    WithoutRecursionHeader(p.wire);
    var w := WithoutRecursion(p.wire);
    ParseSameBody(p.wire, w);
    assert Parse(w).value.CombinedCode() == p.CombinedCode();
  }
}
