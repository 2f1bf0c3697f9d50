/**
 * What an accepted message says, read off its octets: every field of the decoded packet by offset and number. The
 * only things taken from elsewhere are where the questions, records and options of the message lie, which is the
 * declarative grammar's business.
 */
module WireMeaning {
  import opened Outcomes
  import opened Bytes
  import opened Names
  import opened Types
  import opened Options
  import opened Messages
  import opened Records
  import opened Grammar

  /** Questions, where each of them ends, and records. */
  datatype Reading = Reading(questions: seq<Question>, ends: seq<nat>, records: seq<ResourceRecord>)

  /** `m` is how the grammar divides `w`. */
  ghost predicate Reads(w: seq<byte>, m: Reading) {
    Message(w, m.questions, m.ends, m.records)
  }

  /** The octet at `i`; outside the message there is none. */
  function Octet(w: seq<byte>, i: int): int {
    if 0 <= i < |w| then w[i] else -1
  }

  /** The number at `i`, most significant octet first; outside the message there is none. */
  function Number(w: seq<byte>, i: int): int {
    if 0 <= i && i + 2 <= |w| then w[i] as int * 256 + w[i + 1] else -1
  }

  // ----- the header -----

  predicate IsResponse(w: seq<byte>) {
    Octet(w, 2) >= 0x80
  }

  function OpcodeNumber(w: seq<byte>): int {
    Octet(w, 2) / 8 % 16
  }

  predicate IsTruncated(w: seq<byte>) {
    Octet(w, 2) / 2 % 2 == 1
  }

  lemma WordIsNumber(w: seq<byte>, i: nat)
    requires i + 2 <= |w|
    ensures WordAt(w, i) == Number(w, i)
  {
  }

  /** Every header field, by its place in the twelve octets. */
  lemma HeaderMeaning(w: seq<byte>)
    requires |w| >= 12
    ensures ParseHeader(w).Ok?
    ensures var h := ParseHeader(w).value;
            && h.id == Number(w, 0)
            && (h.MessageType() == ResponseMessage <==> IsResponse(w))
            && (h.Opcode() == StandardQuery <==> OpcodeNumber(w) == 0)
            && h.Opcode() == OpcodeFromWire(OpcodeNumber(w))
            && (h.Truncated() <==> IsTruncated(w))
            && (Bit(h.flags, RA_MASK) <==> Octet(w, 3) >= 0x80)
            && h.flags % 16 == Octet(w, 3) % 16
            && h.questions == Number(w, 4) && h.answers == Number(w, 6)
            && h.authorities == Number(w, 8) && h.additionals == Number(w, 10)
  {
    var high: int, low: int := w[2], w[3];
    var flags := high * 256 + low;
    assert flags / 0x8000 == high / 0x80;
    assert flags / 0x800 == high / 8;
    assert flags / 0x200 == high / 2;
    assert flags / 0x80 == high * 2 + low / 0x80;
    assert flags / 16 == high * 16 + low / 16;
  }

  // ----- records -----

  /** The fixed fields of a record that lies in the message. */
  ghost predicate Enveloped(w: seq<byte>, r: ResourceRecord) {
    && 10 <= r.dataStart && r.End() <= |w|
    && r.kind == RecordTypeFromWire(WordAt(w, r.dataStart - 10))
    && r.classField == ClassFieldOf(r.kind, WordAt(w, r.dataStart - 8))
    && r.ttl == DoubleWordAt(w, r.dataStart - 6)
  }

  lemma {:induction false} RecordsAreEnveloped(w: seq<byte>, pos: nat, rs: seq<ResourceRecord>, end: nat)
    requires RecordsTile(w, pos, rs, end)
    ensures forall r :: r in rs ==> Enveloped(w, r)
    decreases |rs|
  {
    hide Enveloped, NameSpan;
    if rs != [] {
      RecordsAreEnveloped(w, rs[0].End(), rs[1..], end);
      RecordIsEnveloped(w, pos, rs[0]);
    }
  }

  lemma RecordIsEnveloped(w: seq<byte>, pos: nat, r: ResourceRecord)
    requires IsRecord(w, pos, r)
    ensures Enveloped(w, r)
  {
    hide NameSpan;
  }

  lemma {:induction false} OptsAreRecords(rs: seq<ResourceRecord>)
    ensures forall r :: r in Opts(rs) <==> r in rs && r.kind == Opt
    decreases |rs|
  {
    if rs != [] {
      OptsAreRecords(rs[1..]);
    }
  }

  /** The record is OPT, by its type number. */
  predicate IsOptRecord(w: seq<byte>, r: ResourceRecord) {
    Number(w, r.dataStart - 10) == 41
  }

  ghost predicate HasOpt(w: seq<byte>, m: Reading) {
    exists r :: r in m.records && IsOptRecord(w, r)
  }

  /** What the octets of an OPT record say. */
  predicate OptSays(w: seq<byte>, r: ResourceRecord, e: Edns) {
    && e.udpSize == Number(w, r.dataStart - 8)
    && e.extendedRcode == Octet(w, r.dataStart - 6)
    && e.version == Octet(w, r.dataStart - 5)
    && (e.dnssecOk <==> Octet(w, r.dataStart - 4) >= 0x80)
  }

  lemma TtlSays(w: seq<byte>, i: nat, ttl: u32)
    requires i + 4 <= |w| && ttl == DoubleWordAt(w, i)
    ensures Be32(ttl)[0] == Octet(w, i) && Be32(ttl)[1] == Octet(w, i + 1) && Be32(ttl)[2] == Octet(w, i + 2)
  {
  }

  lemma TypeNumbers(w: seq<byte>, r: ResourceRecord)
    requires Enveloped(w, r)
    ensures r.kind == Opt <==> IsOptRecord(w, r)
    ensures r.kind in {Tkey, Tsig} <==> Number(w, r.dataStart - 10) in {249, 250}
    ensures r.kind == Sig <==> Number(w, r.dataStart - 10) == 24
  {
    CodeNumbers(WordAt(w, r.dataStart - 10));
  }

  /** The OPT records of the decoded list are those with number 41. */
  lemma OptsByNumber(w: seq<byte>, m: Reading)
    requires Reads(w, m)
    ensures forall r :: r in m.records ==> Enveloped(w, r)
    ensures forall r :: r in Opts(m.records) <==> r in m.records && IsOptRecord(w, r)
    ensures HasOpt(w, m) <==> Opts(m.records) != []
    ensures forall r :: r in m.records && IsOptRecord(w, r) ==> Opts(m.records) == [r]
  {
    hide RecordsTile, QuestionsTile, AllWellFormed, Opts, Enveloped, IsOptRecord;
    RecordsAreEnveloped(w, Last(HEADER_LENGTH, m.ends), m.records, |w|);
    OptsAreRecords(m.records);
    forall r | r in m.records ensures r.kind == Opt <==> IsOptRecord(w, r) {
      TypeNumbers(w, r);
    }
    if Opts(m.records) != [] {
      assert Opts(m.records)[0] in Opts(m.records);
    }
  }

  lemma ReadingParses(w: seq<byte>, m: Reading)
    requires Reads(w, m)
    ensures HEADER_LENGTH <= |w| <= MAX_MESSAGE_LENGTH && |ParseHeader(w).value.Sections()| == |m.records|
    ensures Parse(w) == Ok(PacketOf(w, m.questions, m.records))
  {
    hide Parse, RecordsTile, QuestionsTile, Opts, PacketOf, WellFormed;
    ParserIsComplete(w, m.questions, m.ends, m.records);
  }

  /** Only readable messages are accepted. */
  lemma ParsedReads(w: seq<byte>) returns (m: Reading)
    requires Parse(w).Ok?
    ensures Reads(w, m)
  {
    hide Parse, Message, PacketOf;
    var qs, ends, rs := ParserIsSound(w);
    m := Reading(qs, ends, rs);
  }

  /** OPT metadata is there exactly if some record has type 41, and is what the octets of that record say. */
  lemma OptMeaning(w: seq<byte>, m: Reading)
    requires Reads(w, m)
    ensures Parse(w).Ok?
    ensures Parse(w).value.edns.Some? <==> HasOpt(w, m)
    ensures forall r :: r in m.records && IsOptRecord(w, r) ==> OptSays(w, r, Parse(w).value.edns.value)
  {
    hide Parse, Reads, Opts, IsOptRecord, HasOpt;
    ReadingParses(w, m);
    OptsByNumber(w, m);
    if Opts(m.records) != [] {
      var r := Opts(m.records)[0];
      assert r in Opts(m.records);
      TtlSays(w, r.dataStart - 6, r.ttl);
    }
  }

  // ----- authentication -----

  /** A TSIG or TKEY record anywhere, or a SIG record in the additional section. */
  ghost predicate Authenticating(w: seq<byte>, m: Reading) {
    exists i :: 0 <= i < |m.records| && AuthenticatesAt(w, m, i)
  }

  predicate AuthenticatesAt(w: seq<byte>, m: Reading, i: nat)
    requires i < |m.records|
  {
    var kind := Number(w, m.records[i].dataStart - 10);
    kind in {249, 250} || (kind == 24 && i >= Number(w, 6) + Number(w, 8))
  }

  lemma SectionOf(h: Header, i: nat)
    requires i < |h.Sections()|
    ensures h.Sections()[i] == Additional <==> i >= h.answers + h.authorities
  {
  }

  lemma AuthenticationMeaning(w: seq<byte>, m: Reading)
    requires Reads(w, m)
    ensures Parse(w).Ok?
    ensures Parse(w).value.authenticated <==> Authenticating(w, m)
  {
    hide Parse, Reads, Opts, IsOptRecord, HasOpt, Header.Sections, Enveloped, EdnsFrom, CookieFrom, ParseHeader;
    ReadingParses(w, m);
    HeaderMeaning(w);
    OptsByNumber(w, m);
    var h := ParseHeader(w).value;
    forall i | 0 <= i < |m.records|
      ensures AuthenticatesAt(w, m, i) <==>
              m.records[i].kind != Opt && Authenticates(h.Sections()[i], m.records[i].kind)
    {
      TypeNumbers(w, m.records[i]);
      SectionOf(h, i);
    }
  }

  /** OPT is in the additional section. */
  lemma OptIsAdditional(w: seq<byte>, m: Reading, i: nat)
    requires Reads(w, m) && i < |m.records| && IsOptRecord(w, m.records[i])
    ensures i >= Number(w, 6) + Number(w, 8)
  {
    hide Opts, Header.Sections, OptionsFill, RecordsTile, QuestionsTile;
    HeaderMeaning(w);
    RecordsAreEnveloped(w, Last(HEADER_LENGTH, m.ends), m.records, |w|);
    TypeNumbers(w, m.records[i]);
    SectionOf(ParseHeader(w).value, i);
  }

  // ----- the cookie -----

  /** The lengths that a COOKIE option may have: a client cookie alone, or with 8 to 32 octets of the server. */
  predicate LegalCookie(len: int) {
    len == 8 || 16 <= len <= 40
  }

  /** `options[i]` is the first option with number 10. */
  predicate IsFirstCookie(options: seq<EdnsOption>, i: nat) {
    i < |options| && options[i].code == 10 && forall j :: 0 <= j < i ==> options[j].code != 10
  }

  /** The OPT record holds its first COOKIE data in `len` octets at `at`. */
  ghost predicate CookieIn(w: seq<byte>, r: ResourceRecord, at: int, len: int) {
    exists options: seq<EdnsOption>, i: nat ::
      && OptionsTile(w, r.dataStart, options, r.End()) && IsFirstCookie(options, i)
      && at == options[i].at + 4 && len == options[i].len
  }

  /** The message has a COOKIE option, the first of which holds `len` octets at `at`. */
  ghost predicate HasCookie(w: seq<byte>, m: Reading, at: int, len: int) {
    exists r :: r in m.records && IsOptRecord(w, r) && CookieIn(w, r, at, len)
  }

  ghost predicate NoCookie(w: seq<byte>, m: Reading) {
    forall at, len :: !HasCookie(w, m, at, len)
  }

  lemma {:induction false} FirstCookieIs(options: seq<EdnsOption>, rdataAt: nat)
    requires rdataAt >= 2
    ensures FirstCookie(options, rdataAt).None? ==> forall i: nat :: !IsFirstCookie(options, i)
    ensures FirstCookie(options, rdataAt).Some? ==> exists i: nat :: IsFirstCookie(options, i)
    ensures forall i: nat :: IsFirstCookie(options, i) ==>
              FirstCookie(options, rdataAt) ==
              Some(if LegalCookie(options[i].len)
                   then Present(CookieSlot(options[i].at + 2, options[i].at + 4, options[i].len, rdataAt - 2))
                   else Malformed)
    decreases |options|
  {
    if options != [] {
      FirstCookieIs(options[1..], rdataAt);
      if options[0].code == 10 {
        assert IsFirstCookie(options, 0);
      } else {
        forall i: nat | i < |options|
          ensures IsFirstCookie(options, i) <==> i > 0 && IsFirstCookie(options[1..], i - 1)
        {
          if i > 0 && IsFirstCookie(options[1..], i - 1) {
            forall j | 0 < j < i ensures options[j].code != 10 {
              assert options[1..][j - 1] == options[j];
            }
          }
        }
        if i: nat :| IsFirstCookie(options[1..], i) {
          assert IsFirstCookie(options, i + 1);
        }
      }
    }
  }

  /** The field of a packet describes this COOKIE option. */
  predicate CookieSays(field: CookieField, at: int, len: int) {
    if LegalCookie(len) then field.Present? && field.slot.dataAt == at && field.slot.dataLen == len
    else field == Malformed
  }

  /** The RDATA of an OPT record is an option list. */
  lemma OptHoldsOptions(w: seq<byte>, m: Reading, r: ResourceRecord) returns (options: seq<EdnsOption>)
    requires Reads(w, m) && r in m.records && IsOptRecord(w, r)
    ensures r.dataStart >= 10 && r.End() <= |w| && OptionsTile(w, r.dataStart, options, r.End())
  {
    hide Opts, Header.Sections, OptionsTile, RecordsTile, QuestionsTile, ParseHeader;
    RecordsAreEnveloped(w, Last(HEADER_LENGTH, m.ends), m.records, |w|);
    TypeNumbers(w, r);
    var i :| 0 <= i < |m.records| && m.records[i] == r;
    options :| OptionsTile(w, r.dataStart, options, r.End());
  }

  /** What is found in the one option list that an OPT record holds. */
  lemma CookieInOptions(w: seq<byte>, r: ResourceRecord, options: seq<EdnsOption>)
    requires r.dataStart >= 10 && r.End() <= |w| && OptionsTile(w, r.dataStart, options, r.End())
    ensures var found := Locate(w, r.dataStart, r.dataLength);
            && (found.None? <==> forall at, len :: !CookieIn(w, r, at, len))
            && forall at, len :: CookieIn(w, r, at, len) ==> found.Some? && CookieSays(found.value, at, len)
  {
    LocateFindsFirst(w, r.dataStart, r.dataStart, options, r.End());
    FirstCookieIs(options, r.dataStart);
    hide LocateFrom, FirstCookie, IsFirstCookie, OptionsTile;
    forall others | OptionsTile(w, r.dataStart, others, r.End()) ensures others == options {
      TilingIsUnique(w, r.dataStart, others, options, r.End());
    }
    if i: nat :| IsFirstCookie(options, i) {
      FirstIsInside(options, i);
      assert CookieIn(w, r, options[i].at + 4, options[i].len);
    }
  }

  lemma FirstIsInside(options: seq<EdnsOption>, i: nat)
    requires IsFirstCookie(options, i)
    ensures i < |options|
  {
  }

  /** The cookie field is there exactly if a COOKIE option is, and describes the first of them by offset and length. */
  lemma CookieMeaning(w: seq<byte>, m: Reading)
    requires Reads(w, m)
    ensures Parse(w).Ok?
    ensures Parse(w).value.cookie.None? <==> NoCookie(w, m)
    ensures forall at, len :: HasCookie(w, m, at, len) ==>
                                Parse(w).value.cookie.Some? && CookieSays(Parse(w).value.cookie.value, at, len)
  {
    hide Parse, Reads, Opts, IsOptRecord, HasOpt, CookieIn, CookieSays, Locate, Enveloped, ParseHeader;
    ReadingParses(w, m);
    OptsByNumber(w, m);
    if Opts(m.records) != [] {
      var r := Opts(m.records)[0];
      assert r in Opts(m.records);
      var options := OptHoldsOptions(w, m, r);
      CookieInOptions(w, r, options);
      forall at, len ensures HasCookie(w, m, at, len) <==> CookieIn(w, r, at, len) {
      }
    }
  }

  lemma HeadersAgree(w: seq<byte>, m: Reading)
    requires Reads(w, m)
    ensures |w| >= 12 && Parse(w).Ok? && Ok(Parse(w).value.header) == ParseHeader(w)
  {
    hide Parse, Reads;
    ReadingParses(w, m);
  }

  // ----- codes and limits -----

  /** The response code: four bits of the header below the eight of OPT. */
  ghost predicate HasCode(w: seq<byte>, m: Reading, code: int) {
    && code % 16 == Octet(w, 3) % 16
    && (!HasOpt(w, m) ==> code / 16 == 0)
    && forall r :: r in m.records && IsOptRecord(w, r) ==> code / 16 == Octet(w, r.dataStart - 6)
  }

  /** `size` octets are more than a client takes: over 512, and over what its OPT announces or over 1232. */
  ghost predicate TooLong(w: seq<byte>, m: Reading, size: int) {
    && size > 512
    && forall r :: r in m.records && IsOptRecord(w, r) ==> size > Number(w, r.dataStart - 8) || size > 1232
  }

  lemma TwoDigits(n: int, high: int, low: int)
    requires 0 <= low < 16
    ensures n == high * 16 + low <==> n / 16 == high && n % 16 == low
  {
  }

  lemma CodeMeaning(w: seq<byte>, m: Reading, code: int)
    requires Reads(w, m)
    ensures Parse(w).Ok?
    ensures HasCode(w, m, code) <==> code == Parse(w).value.CombinedCode()
  {
    hide Parse, Reads, IsOptRecord, ParseHeader, Header.MessageType, Header.Opcode, Header.Truncated, Octet, Number,
      Bit;
    HeadersAgree(w, m);
    OptMeaning(w, m);
    HeaderMeaning(w);
    var p := Parse(w).value;
    TwoDigits(code, if p.edns.Some? then p.edns.value.extendedRcode else 0, p.header.flags % 16);
  }

  lemma LimitMeaning(w: seq<byte>, m: Reading, size: int)
    requires Reads(w, m)
    ensures Parse(w).Ok?
    ensures TooLong(w, m, size) <==> size > Parse(w).value.UdpLimit()
  {
    hide Parse, Reads, IsOptRecord, Number;
    OptMeaning(w, m);
  }

  // ----- the question -----

  /** The numbers behind the name of the first question; -1 without one. */
  function AskedType(w: seq<byte>, m: Reading): int {
    if m.ends == [] then -1 else Number(w, m.ends[0] as int - 4)
  }

  function AskedClass(w: seq<byte>, m: Reading): int {
    if m.ends == [] then -1 else Number(w, m.ends[0] as int - 2)
  }

  /** The name of a single question is spelled from offset 12 on, and its type and class are the numbers behind it. */
  lemma QuestionMeaning(w: seq<byte>, m: Reading)
    requires Reads(w, m)
    ensures Parse(w).Ok? && Parse(w).value.questions == m.questions
    ensures |m.questions| == |m.ends| == Number(w, 4)
    ensures |m.questions| > 0 ==>
              && 4 <= m.ends[0] && NameSpan(w, 12, m.questions[0].name.labels, m.ends[0] - 4)
              && 0 <= AskedType(w, m) < 0x1_0000 && m.questions[0].kind == RecordTypeFromWire(AskedType(w, m))
              && 0 <= AskedClass(w, m) < 0x1_0000 && m.questions[0].class_ == RecordClassFromWire(AskedClass(w, m))
  {
    hide Parse, NameSpan, RecordsTile, Opts, AllWellFormed, RecordTypeFromWire, RecordClassFromWire;
    ReadingParses(w, m);
    HeaderMeaning(w);
  }

  // ----- what becomes of a query -----

  /** One question and no other section before OPT, no TC, no error code, and a legal cookie if any. */
  ghost predicate WellAsked(w: seq<byte>, m: Reading) {
    && |m.questions| == 1
    && !IsTruncated(w)
    && HasCode(w, m, 0)
    && Number(w, 6) == 0 && Number(w, 8) == 0
    && forall at, len :: HasCookie(w, m, at, len) ==> LegalCookie(len)
  }

  ghost predicate OtherVersion(w: seq<byte>, m: Reading) {
    exists r :: r in m.records && IsOptRecord(w, r) && Octet(w, r.dataStart - 5) != 0
  }

  /** Authentication, TKEY, TSIG, zone transfers and OPT as a question. */
  ghost predicate Unsupported(w: seq<byte>, m: Reading) {
    Authenticating(w, m) || AskedType(w, m) in {41, 249, 250, 251, 252}
  }

  /** The number of the code with which a query is refused. */
  ghost predicate RefusedWith(w: seq<byte>, m: Reading, code: int) {
    if OpcodeNumber(w) != 0 then code == 4
    else if !WellAsked(w, m) then code == 1
    else if OtherVersion(w, m) then code == 16
    else Unsupported(w, m) && code == 5
  }

  /** A query that goes to an upstream or is answered by policy. */
  ghost predicate Acceptable(w: seq<byte>, m: Reading) {
    && !IsResponse(w) && OpcodeNumber(w) == 0
    && WellAsked(w, m) && !OtherVersion(w, m) && !Unsupported(w, m)
  }

  lemma VersionMeaning(w: seq<byte>, m: Reading)
    requires Reads(w, m)
    ensures Parse(w).Ok?
    ensures OtherVersion(w, m) <==> Parse(w).value.edns.Some? && Parse(w).value.edns.value.version != 0
  {
    hide Parse, Reads, IsOptRecord, Number;
    OptMeaning(w, m);
  }

  lemma CookiesAreLegal(w: seq<byte>, m: Reading)
    requires Reads(w, m)
    ensures Parse(w).Ok?
    ensures Parse(w).value.cookie == Some(Malformed) <==>
              exists at, len :: HasCookie(w, m, at, len) && !LegalCookie(len)
  {
    hide Parse, Reads, HasCookie;
    CookieMeaning(w, m);
  }

  lemma WellAskedMeaning(w: seq<byte>, m: Reading)
    requires Reads(w, m)
    ensures Parse(w).Ok?
    ensures var p := Parse(w).value;
            WellAsked(w, m) <==>
            && |p.questions| == 1 && !p.header.Truncated() && p.ResponseCode() == NoError
            && p.header.answers == 0 && p.header.authorities == 0 && p.cookie != Some(Malformed)
  {
    hide Parse, Reads, HasCookie, NameSpan, HasCode, IsResponse, OpcodeNumber, IsTruncated, LegalCookie, PacketOf,
      ResponseCodeFromWire, Packet.CombinedCode, Header.Opcode, Header.MessageType, Header.Truncated;
    HeadersAgree(w, m);
    HeaderMeaning(w);
    QuestionMeaning(w, m);
    CookiesAreLegal(w, m);
    CodeMeaning(w, m, 0);
    CodeNumbers(Parse(w).value.CombinedCode());
  }

  lemma UnsupportedMeaning(w: seq<byte>, m: Reading)
    requires Reads(w, m) && |m.questions| == 1
    ensures Parse(w).Ok? && Parse(w).value.questions == m.questions
    ensures Unsupported(w, m) <==>
            Parse(w).value.authenticated || m.questions[0].kind in {Axfr, Ixfr, Tkey, Tsig, Opt}
  {
    hide Parse, Reads, NameSpan, Authenticating, AskedType, RecordTypeFromWire;
    QuestionMeaning(w, m);
    AuthenticationMeaning(w, m);
    CodeNumbers(AskedType(w, m));
  }

  /** The classification of a query by its octets: ignored, refused with a code, or accepted. */
  lemma DecisionMeaning(w: seq<byte>, m: Reading)
    requires Reads(w, m)
    ensures Parse(w).Ok?
    ensures match Parse(w).value.ValidateQuery()
            case Ignore => IsResponse(w)
            case Reject(code) => !IsResponse(w) && RefusedWith(w, m, code.Wire())
            case Forward => Acceptable(w, m)
    ensures Parse(w).value.Forwardable() <==> Acceptable(w, m)
  {
    hide Parse, Reads, NameSpan, OtherVersion, WellAsked, Unsupported, IsResponse, OpcodeNumber, IsTruncated,
      Packet.ResponseCode, Header.Opcode, Header.MessageType, Header.Truncated;
    HeadersAgree(w, m);
    HeaderMeaning(w);
    QuestionMeaning(w, m);
    VersionMeaning(w, m);
    WellAskedMeaning(w, m);
    if |m.questions| == 1 {
      UnsupportedMeaning(w, m);
    }
    hide ParseHeader;
  }
}
