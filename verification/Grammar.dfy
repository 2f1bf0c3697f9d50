/**
 * A declarative grammar of DNS messages, and the theorem that the parser accepts exactly its sentences.
 * The grammar has no cursor, no count guard and no record-loop state: a message is a list of questions and
 * a list of records that lie side by side, plus global rules about OPT.
 */
module Grammar {
  import opened Outcomes
  import opened Bytes
  import opened Names
  import opened Types
  import opened Options
  import opened Messages
  import opened Records

  /** The octets of `q` at `pos`, up to `end`. */
  ghost predicate IsQuestion(w: seq<byte>, pos: nat, q: Question, end: nat) {
    && 4 <= end <= |w|
    && NameSpan(w, pos, q.name.labels, end - 4)
    && q.kind == RecordTypeFromWire(WordAt(w, end - 4))
    && q.class_ == RecordClassFromWire(WordAt(w, end - 2))
  }

  /** The envelope of `r` starts at `pos`, and its declared data is in the message. */
  ghost predicate IsRecord(w: seq<byte>, pos: nat, r: ResourceRecord) {
    && 10 <= r.dataStart && r.End() <= |w|
    && NameSpan(w, pos, r.owner.labels, r.dataStart - 10)
    && r.kind == RecordTypeFromWire(WordAt(w, r.dataStart - 10))
    && r.classField == ClassFieldOf(r.kind, WordAt(w, r.dataStart - 8))
    && r.ttl == DoubleWordAt(w, r.dataStart - 6)
    && r.dataLength == WordAt(w, r.dataStart - 2)
  }

  /** Some name is written from `pos` to `end`. */
  ghost predicate HasName(w: seq<byte>, pos: nat, end: nat) {
    exists labels :: NameSpan(w, pos, labels, end)
  }

  /** Character strings lie side by side from `pos` to `end`. */
  ghost predicate HasStrings(w: seq<byte>, pos: nat, end: nat)
    decreases end - pos
  {
    pos == end || (pos < end <= |w| && HasStrings(w, pos + 1 + w[pos], end))
  }

  /** RDATA of a known type is exactly its layout; every other type is opaque. */
  ghost predicate HasLayout(w: seq<byte>, r: ResourceRecord) {
    r.classField.Dns?
    && match r.kind
       case A => r.classField.class_ == In ==> r.dataLength == 4
       case Aaaa => r.classField.class_ == In ==> r.dataLength == 16
       case Ns => HasName(w, r.dataStart, r.End())
       case Cname => HasName(w, r.dataStart, r.End())
       case Ptr => HasName(w, r.dataStart, r.End())
       case Mx => HasName(w, r.dataStart + 2, r.End())
       case Srv => HasName(w, r.dataStart + 6, r.End())
       case Soa =>
         exists middle: nat :: HasName(w, r.dataStart, middle) && r.End() >= 20 && HasName(w, middle, r.End() - 20)
       case Txt => r.dataLength > 0 && HasStrings(w, r.dataStart, r.End())
       case _ => true
  }

  /** What one record must satisfy on its own. */
  ghost predicate WellFormed(w: seq<byte>, section: RecordSection, r: ResourceRecord) {
    if r.kind == Opt then
      section == Additional && r.owner.labels == [] && OptionsFill(w, r.dataStart, r.End())
    else HasLayout(w, r)
  }

  ghost predicate QuestionsTile(w: seq<byte>, pos: nat, qs: seq<Question>, ends: seq<nat>)
    decreases |qs|
  {
    |qs| == |ends|
    && (qs == [] || (IsQuestion(w, pos, qs[0], ends[0]) && QuestionsTile(w, ends[0], qs[1..], ends[1..])))
  }

  ghost predicate RecordsTile(w: seq<byte>, pos: nat, rs: seq<ResourceRecord>, end: nat)
    decreases |rs|
  {
    if rs == [] then pos == end
    else IsRecord(w, pos, rs[0]) && RecordsTile(w, rs[0].End(), rs[1..], end)
  }

  /** The OPT records of a list. */
  function Opts(rs: seq<ResourceRecord>): (r: seq<ResourceRecord>)
    ensures |r| <= |rs|
    ensures forall o :: o in r ==> o.kind == Opt
  {
    if rs == [] then [] else (if rs[0].kind == Opt then [rs[0]] else []) + Opts(rs[1..])
  }

  function Last(start: nat, ends: seq<nat>): nat {
    if ends == [] then start else ends[|ends| - 1]
  }

  ghost predicate AllWellFormed(w: seq<byte>, sections: seq<RecordSection>, rs: seq<ResourceRecord>) {
    |rs| == |sections| && forall i :: 0 <= i < |rs| ==> WellFormed(w, sections[i], rs[i])
  }

  /** A whole message. */
  ghost predicate Message(w: seq<byte>, qs: seq<Question>, ends: seq<nat>, rs: seq<ResourceRecord>) {
    && 12 <= |w| <= 65535
    && var h := ParseHeader(w).value;
       && |qs| == h.questions
       && (h.Opcode() == StandardQuery ==> |qs| <= 1)
       && QuestionsTile(w, 12, qs, ends)
       && RecordsTile(w, Last(12, ends), rs, |w|)
       && AllWellFormed(w, h.Sections(), rs)
       && |Opts(rs)| <= 1
  }

  ghost predicate AnyAuthenticates(sections: seq<RecordSection>, rs: seq<ResourceRecord>)
    requires |sections| == |rs|
  {
    exists i :: 0 <= i < |rs| && rs[i].kind != Opt && Authenticates(sections[i], rs[i].kind)
  }

  /** Section 6.1.3 of RFC 6891: the four octets of an OPT TTL are the extended code, the version and the flags. */
  ghost function EdnsFrom(rs: seq<ResourceRecord>): Option<Edns> {
    var opts := Opts(rs);
    if opts == [] || opts[0].classField.Dns? then None
    else
      var octets := Be32(opts[0].ttl);
      Some(Edns(opts[0].classField.size, octets[1], octets[0], octets[2] >= 0x80))
  }

  ghost function CookieFrom(w: seq<byte>, rs: seq<ResourceRecord>): Option<CookieField> {
    var opts := Opts(rs);
    if opts == [] then None else Locate(w, opts[0].dataStart, opts[0].dataLength)
  }

  /** What a message means to the forwarder. */
  ghost function PacketOf(w: seq<byte>, qs: seq<Question>, rs: seq<ResourceRecord>): Packet
    requires |w| >= HEADER_LENGTH && |ParseHeader(w).value.Sections()| == |rs|
  {
    var h := ParseHeader(w).value;
    Packet(w, h, qs, EdnsFrom(rs), AnyAuthenticates(h.Sections(), rs), CookieFrom(w, rs))
  }

  // ----- items -----

  lemma QuestionIff(w: seq<byte>, pos: nat, q: Question, end: nat)
    ensures QuestionAt(w, pos) == Ok(ReadQuestion(q, end)) <==> IsQuestion(w, pos, q, end)
  {
    if end >= 4 {
      DecodeIffNameSpan(w, pos, q.name.labels, end - 4);
    }
  }

  lemma RecordIff(w: seq<byte>, pos: nat, r: ResourceRecord)
    ensures RecordAt(w, pos) == Ok(r) && r.End() <= |w| <==> IsRecord(w, pos, r)
  {
    if r.dataStart >= 10 {
      DecodeIffNameSpan(w, pos, r.owner.labels, r.dataStart - 10);
    }
  }

  /** The name check of the parser finds exactly the name that ends there. */
  lemma SkipNameIff(w: seq<byte>, pos: nat, end: nat)
    ensures SkipName(w, pos) == Ok(end) <==> HasName(w, pos, end)
  {
    if SkipName(w, pos) == Ok(end) {
      DecodeIffNameSpan(w, pos, Decode(w, pos).value.labels, end);
    }
    if HasName(w, pos, end) {
      var labels :| NameSpan(w, pos, labels, end);
      DecodeIffNameSpan(w, pos, labels, end);
    }
  }

  lemma {:induction false} SkipStringsIff(w: seq<byte>, pos: nat, end: nat)
    requires end <= |w|
    ensures SkipStrings(w, pos, end) == Ok(end) <==> HasStrings(w, pos, end)
    decreases end - pos
  {
    if pos < end {
      SkipStringsIff(w, pos + 1 + w[pos], end);
    }
  }

  /** The RDATA checks accept exactly the declared layouts. */
  lemma ValidateDataIff(w: seq<byte>, r: ResourceRecord)
    requires r.End() <= |w|
    ensures ValidateData(w, r).Ok? <==> HasLayout(w, r)
  {
    match r.kind
    case Ns => SkipNameIff(w, r.dataStart, r.End());
    case Cname => SkipNameIff(w, r.dataStart, r.End());
    case Ptr => SkipNameIff(w, r.dataStart, r.End());
    case Mx => SkipNameIff(w, r.dataStart + 2, r.End());
    case Srv => SkipNameIff(w, r.dataStart + 6, r.End());
    case Soa => SoaIff(w, r.dataStart, r.End());
    case Txt => SkipStringsIff(w, r.dataStart, r.End());
    case _ =>
  }

  lemma SoaIff(w: seq<byte>, start: nat, end: nat)
    requires end <= |w|
    ensures SkipLayout(w, Soa, In, start, end) == Ok(end)
            <==> exists middle: nat :: HasName(w, start, middle) && end >= 20 && HasName(w, middle, end - 20)
    ensures forall c :: SkipLayout(w, Soa, c, start, end) == SkipLayout(w, Soa, In, start, end)
  {
    hide HasName, SkipName;
    if SkipLayout(w, Soa, In, start, end) == Ok(end) {
      var middle := SkipName(w, start).value;
      SkipNameIff(w, start, middle);
      SkipNameIff(w, middle, end - 20);
    }
    if middle: nat :| HasName(w, start, middle) && end >= 20 && HasName(w, middle, end - 20) {
      SkipNameIff(w, start, middle);
      SkipNameIff(w, middle, end - 20);
    }
  }

  lemma TtlOctets(ttl: u32)
    ensures var octets := Be32(ttl);
            && octets[0] == ttl / 0x100_0000 && octets[1] == ttl / 0x1_0000 % 0x100
            && (octets[2] >= 0x80 <==> Bit(ttl, DO_MASK))
  {
    assert ttl / 0x1_0000 / 0x100 == ttl / 0x100_0000;
  }

  /** One turn of the record loop accepts exactly a well-formed record, and at most one OPT in all. */
  lemma ReadRecordIff(w: seq<byte>, section: RecordSection, s: Findings, r: ResourceRecord)
    ensures ReadRecord(w, section, s).Ok? && RecordAt(w, s.pos) == Ok(r)
            <==> IsRecord(w, s.pos, r) && WellFormed(w, section, r) && (r.kind == Opt ==> s.edns.None?)
    ensures ReadRecord(w, section, s).Ok? && RecordAt(w, s.pos) == Ok(r) && r.kind == Opt ==> r.classField.UdpPayload?
    ensures ReadRecord(w, section, s).Ok? && RecordAt(w, s.pos) == Ok(r) ==>
              ReadRecord(w, section, s).value ==
              Findings(r.End(),
                       if r.kind == Opt then EdnsFrom([r]) else s.edns,
                       if r.kind == Opt then CookieFrom(w, [r]) else s.cookie,
                       s.authenticated || (r.kind != Opt && Authenticates(section, r.kind)))
  {
    RecordIff(w, s.pos, r);
    TtlOctets(r.ttl);
    if r.End() <= |w| {
      ValidateDataIff(w, r);
      ValidateIffFilled(w, r.dataStart, r.End(), 0);
    }
    assert [r][1..] == [];
  }

  // ----- the record loop -----

  /** What the loop state becomes after `rs`, from any state. */
  ghost predicate Gathers(w: seq<byte>, sections: seq<RecordSection>, rs: seq<ResourceRecord>, s: Findings, t: Findings)
    requires |sections| == |rs|
  {
    && t.edns == (if Opts(rs) == [] then s.edns else EdnsFrom(rs))
    && t.cookie == (if Opts(rs) == [] then s.cookie else CookieFrom(w, rs))
    && t.authenticated == (s.authenticated || AnyAuthenticates(sections, rs))
  }

  lemma AnyAuthenticatesSplit(sections: seq<RecordSection>, rs: seq<ResourceRecord>)
    requires |sections| == |rs| > 0
    ensures AnyAuthenticates(sections, rs) <==>
            (rs[0].kind != Opt && Authenticates(sections[0], rs[0].kind)) || AnyAuthenticates(sections[1..], rs[1..])
  {
    if AnyAuthenticates(sections, rs) {
      var i :| 0 <= i < |rs| && rs[i].kind != Opt && Authenticates(sections[i], rs[i].kind);
      if i > 0 {
        assert rs[1..][i - 1] == rs[i] && sections[1..][i - 1] == sections[i];
      }
    }
    if AnyAuthenticates(sections[1..], rs[1..]) {
      var i :| 0 <= i < |rs[1..]| && rs[1..][i].kind != Opt && Authenticates(sections[1..][i], rs[1..][i].kind);
      assert rs[i + 1] == rs[1..][i] && sections[i + 1] == sections[1..][i];
    }
  }

  lemma AllWellFormedSplit(w: seq<byte>, sections: seq<RecordSection>, rs: seq<ResourceRecord>)
    requires |sections| == |rs| > 0
    ensures AllWellFormed(w, sections, rs) <==>
            WellFormed(w, sections[0], rs[0]) && AllWellFormed(w, sections[1..], rs[1..])
  {
    if WellFormed(w, sections[0], rs[0]) && AllWellFormed(w, sections[1..], rs[1..]) {
      forall i | 0 <= i < |rs| ensures WellFormed(w, sections[i], rs[i]) {
        if i > 0 {
          assert rs[1..][i - 1] == rs[i] && sections[1..][i - 1] == sections[i];
        }
      }
    }
    if AllWellFormed(w, sections, rs) {
      forall i | 0 <= i < |rs[1..]| ensures WellFormed(w, sections[1..][i], rs[1..][i]) {
        assert rs[1..][i] == rs[i + 1] && sections[1..][i] == sections[i + 1];
      }
    }
  }

  /** Records that the loop accepts are a tiling of well-formed records. */
  lemma {:induction false} ReadRecordsSound(w: seq<byte>, sections: seq<RecordSection>, s: Findings)
    returns (rs: seq<ResourceRecord>)
    requires ReadRecords(w, sections, s).Ok?
    ensures AllWellFormed(w, sections, rs)
    ensures RecordsTile(w, s.pos, rs, ReadRecords(w, sections, s).value.pos)
    ensures |Opts(rs)| <= 1 && (s.edns.Some? ==> Opts(rs) == [])
    ensures Gathers(w, sections, rs, s, ReadRecords(w, sections, s).value)
    decreases |sections|
  {
    hide ReadRecord, WellFormed, IsRecord, Gathers, Opts;
    if sections == [] {
      rs := [];
      NothingGathered(w, s);
    } else {
      ReadRecordHasRecord(w, sections[0], s);
      var r := RecordAt(w, s.pos).value;
      ReadRecordIff(w, sections[0], s, r);
      var next := ReadRecord(w, sections[0], s).value;
      var rest := ReadRecordsSound(w, sections[1..], next);
      rs := [r] + rest;
      assert rs[1..] == rest;
      AllWellFormedSplit(w, sections, rs);
      GathersMore(w, sections, rs, s, next, ReadRecords(w, sections, s).value);
    }
  }

  lemma ReadRecordHasRecord(w: seq<byte>, section: RecordSection, s: Findings)
    requires ReadRecord(w, section, s).Ok?
    ensures RecordAt(w, s.pos).Ok?
  {
  }

  lemma NothingGathered(w: seq<byte>, s: Findings)
    ensures Gathers(w, [], [], s, s) && Opts([]) == []
  {
  }

  /** One record and what the rest gathers. */
  lemma GathersMore(
    w: seq<byte>, sections: seq<RecordSection>, rs: seq<ResourceRecord>, s: Findings, next: Findings, t: Findings)
    requires |sections| == |rs| > 0
    requires var r := rs[0];
             && next.edns == (if r.kind == Opt then EdnsFrom([r]) else s.edns)
             && next.cookie == (if r.kind == Opt then CookieFrom(w, [r]) else s.cookie)
             && next.authenticated
                == (s.authenticated || (r.kind != Opt && Authenticates(sections[0], r.kind)))
             && (r.kind == Opt ==> s.edns.None? && r.classField.UdpPayload?)
    requires |Opts(rs[1..])| <= 1 && (next.edns.Some? ==> Opts(rs[1..]) == [])
    requires Gathers(w, sections[1..], rs[1..], next, t)
    ensures |Opts(rs)| <= 1 && (s.edns.Some? ==> Opts(rs) == [])
    ensures Gathers(w, sections, rs, s, t)
  {
    hide Locate, Authenticates;
    AnyAuthenticatesSplit(sections, rs);
    assert [rs[0]][1..] == [];
  }

  /** The loop accepts every tiling of well-formed records with at most one OPT. */
  lemma {:induction false} ReadRecordsComplete(
    w: seq<byte>, sections: seq<RecordSection>, s: Findings, rs: seq<ResourceRecord>, end: nat)
    requires AllWellFormed(w, sections, rs)
    requires RecordsTile(w, s.pos, rs, end)
    requires |Opts(rs)| <= 1 && (s.edns.Some? ==> Opts(rs) == [])
    ensures ReadRecords(w, sections, s).Ok?
    ensures ReadRecords(w, sections, s).value.pos == end
    ensures Gathers(w, sections, rs, s, ReadRecords(w, sections, s).value)
    decreases |sections|
  {
    hide ReadRecord, IsRecord, WellFormed;
    if sections != [] {
      ReadRecordIff(w, sections[0], s, rs[0]);
      AllWellFormedSplit(w, sections, rs);
      AnyAuthenticatesSplit(sections, rs);
      var next := ReadRecord(w, sections[0], s).value;
      ReadRecordsComplete(w, sections[1..], next, rs[1..], end);
    }
  }

  lemma {:induction false} QuestionsSound(w: seq<byte>, pos: nat, count: nat) returns (ends: seq<nat>)
    requires QuestionsAt(w, pos, count).Ok?
    ensures var read := QuestionsAt(w, pos, count).value;
            && |read.questions| == count
            && QuestionsTile(w, pos, read.questions, ends)
            && read.end == Last(pos, ends)
    decreases count
  {
    hide QuestionAt, IsQuestion;
    if count == 0 {
      ends := [];
    } else {
      var first := QuestionAt(w, pos).value;
      QuestionIff(w, pos, first.question, first.end);
      var rest := QuestionsSound(w, first.end, count - 1);
      ends := [first.end] + rest;
      var read := QuestionsAt(w, pos, count).value;
      assert ends[1..] == rest && read.questions[1..] == QuestionsAt(w, first.end, count - 1).value.questions;
    }
  }

  lemma {:induction false} QuestionsComplete(w: seq<byte>, pos: nat, qs: seq<Question>, ends: seq<nat>)
    requires QuestionsTile(w, pos, qs, ends)
    ensures QuestionsAt(w, pos, |qs|) == Ok(ReadQuestions(qs, Last(pos, ends)))
    decreases |qs|
  {
    if qs != [] {
      QuestionIff(w, pos, qs[0], ends[0]);
      QuestionsComplete(w, ends[0], qs[1..], ends[1..]);
      assert qs == [qs[0]] + qs[1..];
    }
  }

  // ----- the count guard -----

  /** Every question takes at least five octets. */
  lemma {:induction false} QuestionsTakeSpace(w: seq<byte>, pos: nat, qs: seq<Question>, ends: seq<nat>)
    requires QuestionsTile(w, pos, qs, ends)
    ensures Last(pos, ends) >= pos + 5 * |qs|
    decreases |qs|
  {
    if qs != [] {
      QuestionIff(w, pos, qs[0], ends[0]);
      DecodedIsValid(w, pos);
      QuestionsTakeSpace(w, ends[0], qs[1..], ends[1..]);
    }
  }

  /** Every record takes at least eleven octets. */
  lemma {:induction false} RecordsTakeSpace(w: seq<byte>, pos: nat, rs: seq<ResourceRecord>, end: nat)
    requires RecordsTile(w, pos, rs, end)
    ensures end >= pos + 11 * |rs|
    decreases |rs|
  {
    if rs != [] {
      RecordIff(w, pos, rs[0]);
      DecodedIsValid(w, pos);
      RecordsTakeSpace(w, rs[0].End(), rs[1..], end);
    }
  }

  /** The early guard never rejects a message of the grammar. */
  lemma GuardAcceptsMessages(w: seq<byte>, qs: seq<Question>, ends: seq<nat>, rs: seq<ResourceRecord>)
    requires Message(w, qs, ends, rs)
    ensures CountsFit(w, ParseHeader(w).value)
  {
    QuestionsTakeSpace(w, HEADER_LENGTH, qs, ends);
    RecordsTakeSpace(w, Last(HEADER_LENGTH, ends), rs, |w|);
  }

  // ----- the theorem -----

  /** Every accepted wire is a message of the grammar, and the packet is its meaning. */
  lemma ParserIsSound(w: seq<byte>) returns (qs: seq<Question>, ends: seq<nat>, rs: seq<ResourceRecord>)
    requires Parse(w).Ok?
    ensures Message(w, qs, ends, rs)
    ensures Parse(w).value == PacketOf(w, qs, rs)
  {
    var h := ParseHeader(w).value;
    ends := QuestionsSound(w, HEADER_LENGTH, h.questions);
    var read := QuestionsAt(w, HEADER_LENGTH, h.questions).value;
    qs := read.questions;
    rs := ReadRecordsSound(w, h.Sections(), Findings(read.end, None, None, false));
  }

  /** Every message of the grammar is accepted with its meaning, so the meaning is unique. */
  lemma ParserIsComplete(w: seq<byte>, qs: seq<Question>, ends: seq<nat>, rs: seq<ResourceRecord>)
    requires Message(w, qs, ends, rs)
    ensures Parse(w) == Ok(PacketOf(w, qs, rs))
  {
    var h := ParseHeader(w).value;
    GuardAcceptsMessages(w, qs, ends, rs);
    QuestionsComplete(w, HEADER_LENGTH, qs, ends);
    var s := Findings(Last(HEADER_LENGTH, ends), None, None, false);
    ReadRecordsComplete(w, h.Sections(), s, rs, |w|);
  }

  /** The parser accepts exactly the messages of the grammar. */
  lemma ParserAcceptsGrammar(w: seq<byte>)
    ensures Parse(w).Ok? <==> exists qs, ends, rs :: Message(w, qs, ends, rs)
  {
    if Parse(w).Ok? {
      var qs, ends, rs := ParserIsSound(w);
    }
    if qs, ends, rs :| Message(w, qs, ends, rs) {
      ParserIsComplete(w, qs, ends, rs);
    }
  }
}
