/**
 * Which messages answer a query, octet by octet: the acceptance rule of the exchange (src/dns/message.rs,
 * src/dns/cookie.rs, src/dns/parser.rs) and the rule for datagrams that were cut off, as equivalences between what
 * the code decides on decoded views and what the octets of query and response say.
 */
module Acceptance {
  import opened Outcomes
  import opened Bytes
  import opened Names
  import opened Types
  import opened Messages
  import opened Records
  import opened Cookies
  import opened CookieRetry
  import opened WireMeaning
  import opened SentQueries
  import opened Exchanges

  /** Both messages ask one question, and it is the same: name up to the case of letters, type and class. */
  ghost predicate SameAsked(q: seq<byte>, qm: Reading, w: seq<byte>, m: Reading) {
    && |qm.questions| == |m.questions| == 1
    && Spells(m.questions[0].name.labels, qm.questions[0].name.labels)
    && AskedType(w, m) == AskedType(q, qm) && AskedClass(w, m) == AskedClass(q, qm)
  }

  /** The same eight octets at two places. */
  predicate SameEight(a: seq<byte>, i: int, b: seq<byte>, j: int) {
    0 <= i <= |a| - 8 && 0 <= j <= |b| - 8 && a[i..i + 8] == b[j..j + 8]
  }

  /** A cookie of 16 to 40 octets that starts as the query's does; or none, where none is due and the code is not 23. */
  ghost predicate CookieAdmits(q: seq<byte>, qm: Reading, required: bool, w: seq<byte>, m: Reading) {
    if NoCookie(w, m) then !required && !HasCode(w, m, 23)
    else
      exists at, len, mine, own ::
        && HasCookie(w, m, at, len) && 16 <= len <= 40
        && HasCookie(q, qm, mine, own) && SameEight(w, at, q, mine)
  }

  /** `w` answers `q`: a whole response under the same ID to the same question, with nothing that was not offered. */
  ghost predicate Admits(q: seq<byte>, qm: Reading, required: bool, w: seq<byte>, m: Reading) {
    && Acceptable(q, qm)
    && Number(w, 0) == Number(q, 0)
    && IsResponse(w) && !IsTruncated(w) && OpcodeNumber(w) == OpcodeNumber(q)
    && SameAsked(q, qm, w, m)
    && !OtherVersion(w, m) && (HasOpt(w, m) ==> HasOpt(q, qm))
    && !Authenticating(w, m)
    && CookieAdmits(q, qm, required, w, m)
  }

  lemma OpcodesDiffer(a: byte, b: byte)
    ensures OpcodeFromWire(a) == OpcodeFromWire(b) <==> a == b
  {
  }

  lemma QuestionsMeaning(q: seq<byte>, qm: Reading, w: seq<byte>, m: Reading)
    requires Reads(q, qm) && Reads(w, m) && |qm.questions| == 1
    ensures Parse(q).Ok? && Parse(w).Ok?
    ensures SameQuestions(Parse(w).value.questions, Parse(q).value.questions) <==> SameAsked(q, qm, w, m)
  {
    hide Parse, Reads, NameSpan, SameName, Spells, AskedType, AskedClass, RecordTypeFromWire, RecordClassFromWire;
    QuestionMeaning(q, qm);
    QuestionMeaning(w, m);
    if |m.questions| == 1 {
      SameNameIsSameLabels(m.questions[0].name, qm.questions[0].name);
      WireCodesRoundTrip(AskedType(w, m));
      WireCodesRoundTrip(AskedType(q, qm));
      WireCodesRoundTrip(AskedClass(w, m));
      WireCodesRoundTrip(AskedClass(q, qm));
    }
  }

  /** Identity of a response, on decoded views and on octets. */
  lemma CorrespondenceMeaning(q: seq<byte>, qm: Reading, w: seq<byte>, m: Reading)
    requires Reads(q, qm) && Reads(w, m) && |qm.questions| == 1
    ensures Parse(q).Ok? && Parse(w).Ok?
    ensures var sent := Parse(q).value;
            Parse(w).value.CorrespondsTo(sent, sent.header.id) <==>
            && Number(w, 0) == Number(q, 0)
            && IsResponse(w) && OpcodeNumber(w) == OpcodeNumber(q)
            && SameAsked(q, qm, w, m)
            && !OtherVersion(w, m) && (HasOpt(w, m) ==> HasOpt(q, qm))
            && !Authenticating(w, m)
  {
    hide Parse, Reads, SameQuestions, SameAsked, OtherVersion, HasOpt, Authenticating, Number, Octet,
      OpcodeFromWire, Header.Opcode, Header.MessageType, OptSays;
    HeadersAgree(q, qm);
    HeadersAgree(w, m);
    HeaderMeaning(q);
    HeaderMeaning(w);
    hide ParseHeader;
    OpcodesDiffer(OpcodeNumber(w), OpcodeNumber(q));
    QuestionsMeaning(q, qm, w, m);
    VersionMeaning(w, m);
    OptMeaning(q, qm);
    OptMeaning(w, m);
    AuthenticationMeaning(w, m);
  }

  /** The octets of the cookie that an accepted message carries. */
  lemma CookieOctets(w: seq<byte>, m: Reading)
    requires Reads(w, m)
    ensures Parse(w).Ok? && SlotInWire(Parse(w).value)
    ensures Parse(w).value.cookie.None? <==> NoCookie(w, m)
    ensures forall at, len :: HasCookie(w, m, at, len) ==> CookieIs(ResponseCookie(Parse(w).value), w, at, len)
  {
    hide Parse, Reads, HasCookie;
    SlotsAreThere(w, m);
    ParsedIsFaithful(w);
    CookieMeaning(w, m);
  }

  /** `field` is the `len` octets at `at`, if that is a legal length. */
  predicate CookieIs(field: Option<seq<byte>>, w: seq<byte>, at: int, len: int) {
    if LegalCookie(len) then 0 <= at <= |w| - len && field == Some(w[at..at + len]) else field == None
  }

  lemma EightAgree(a: seq<byte>, i: int, m: int, b: seq<byte>, j: int, n: int)
    requires 0 <= i <= |a| - m && 0 <= j <= |b| - n && m >= 8 && n >= 8
    ensures SameEight(a, i, b, j) <==> b[j..j + n][..8] == a[i..i + m][..8]
  {
    assert a[i..i + m][..8] == a[i..i + 8] && b[j..j + n][..8] == b[j..j + 8];
  }

  /** Correlation of cookies, on decoded views and on octets. */
  lemma CookieRuleMeaning(q: seq<byte>, qm: Reading, required: bool, w: seq<byte>, m: Reading)
    requires Reads(q, qm) && Reads(w, m)
    requires forall at, len :: HasCookie(q, qm, at, len) ==> LegalCookie(len)
    ensures Parse(q).Ok? && Parse(w).Ok? && SlotInWire(Parse(q).value) && SlotInWire(Parse(w).value)
    ensures ValidResponse(Parse(q).value, Parse(w).value, required) <==> CookieAdmits(q, qm, required, w, m)
  {
    hide Parse, Reads, HasCookie, HasCode, Packet.ResponseCode, SameEight, ResponseCookie, SlotInWire;
    CookieOctets(q, qm);
    CookieOctets(w, m);
    BadCookieNumber(w, m);
    forall at, len, mine, own | HasCookie(w, m, at, len) && HasCookie(q, qm, mine, own) && LegalCookie(len)
      ensures SameEight(w, at, q, mine) <==>
              q[mine..mine + own][..8] == w[at..at + len][..8]
    {
      EightAgree(w, at, len, q, mine, own);
    }
    if !NoCookie(w, m) {
      var at, len :| HasCookie(w, m, at, len);
      if !NoCookie(q, qm) {
        var mine, own :| HasCookie(q, qm, mine, own);
      } else {
        CookieAbsent(Parse(q).value);
      }
    } else {
      CookieAbsent(Parse(w).value);
    }
  }

  lemma CookieAbsent(p: Packet)
    requires SlotInWire(p) && p.cookie.None?
    ensures ResponseCookie(p) == None
  {
  }

  lemma SlotsAreThere(w: seq<byte>, m: Reading)
    requires Reads(w, m)
    ensures Parse(w).Ok? && SlotInWire(Parse(w).value)
  {
    hide Parse, Reads;
    ReadingParses(w, m);
    ParsedIsFaithful(w);
    AcceptedCookies(Parse(w).value);
  }

  lemma BadCookieNumber(w: seq<byte>, m: Reading)
    requires Reads(w, m)
    ensures Parse(w).Ok?
    ensures Parse(w).value.ResponseCode() == BadCookie <==> HasCode(w, m, 23)
  {
    hide Parse, Reads, HasCode, ResponseCodeFromWire, Packet.CombinedCode;
    CodeMeaning(w, m, 23);
    CodeNumbers(Parse(w).value.CombinedCode());
  }

  lemma AcceptableHasParts(q: seq<byte>, qm: Reading)
    requires Acceptable(q, qm)
    ensures |qm.questions| == 1
    ensures forall at, len :: HasCookie(q, qm, at, len) ==> LegalCookie(len)
  {
    hide HasCookie, HasCode;
  }

  lemma JudgedView(sent: SentQuery, w: seq<byte>, m: Reading)
    requires Sound(sent) && Reads(w, m)
    ensures Parse(sent.packet.wire) == Ok(sent.packet) && Parse(w).Ok?
    ensures SlotInWire(sent.packet) && SlotInWire(Parse(w).value)
    ensures !Rejected(sent, w) <==> Validates(sent, Parse(w).value)
  {
    hide Parse, Reads, Validates;
    SlotsAreThere(w, m);
    ParsedIsFaithful(w);
  }

  /** For given readings of query and response. */
  lemma ReadingsDecide(sent: SentQuery, qm: Reading, w: seq<byte>, m: Reading)
    requires Sound(sent) && Reads(sent.packet.wire, qm) && Reads(w, m)
    ensures !Rejected(sent, w) <==> Admits(sent.packet.wire, qm, sent.cookieRequired, w, m)
  {
    hide Parse, Reads, SameAsked, OtherVersion, HasOpt, Authenticating, Acceptable, CookieAdmits, Number, OpcodeNumber,
      IsTruncated, IsResponse, Packet.CorrespondsTo, Packet.Forwardable, ValidResponse, Rejected, SlotInWire,
      Header.Truncated;
    var q := sent.packet.wire;
    JudgedView(sent, w, m);
    DecisionMeaning(q, qm);
    HeadersAgree(w, m);
    HeaderMeaning(w);
    hide ParseHeader;
    if Acceptable(q, qm) {
      AcceptableHasParts(q, qm);
      CorrespondenceMeaning(q, qm, w, m);
      CookieRuleMeaning(q, qm, sent.cookieRequired, w, m);
    }
  }

  /** The message `w` answers the query `q`, however the grammar divides them. */
  ghost predicate AnswersOctets(q: seq<byte>, required: bool, w: seq<byte>) {
    exists qm, m :: Reads(q, qm) && Reads(w, m) && Admits(q, qm, required, w, m)
  }

  /** What is accepted as the answer to a query is exactly what answers it octet by octet. */
  lemma AcceptedIffAnswers(sent: SentQuery, w: seq<byte>)
    requires Sound(sent)
    ensures !Rejected(sent, w) <==> AnswersOctets(sent.packet.wire, sent.cookieRequired, w)
  {
    hide Parse, Reads, Admits, Validated, Validates;
    forall qm, m | Reads(sent.packet.wire, qm) && Reads(w, m)
      ensures !Rejected(sent, w) <==> Admits(sent.packet.wire, qm, sent.cookieRequired, w, m)
    {
      ReadingsDecide(sent, qm, w, m);
    }
    if !Rejected(sent, w) {
      var qm := ParsedReads(sent.packet.wire);
      var m := ParsedReads(w);
    }
  }

  // ----- datagrams that were cut off -----

  /** The header and the first question of a response with TC, under the same ID to the same question. */
  ghost predicate CutOffAnswer(q: seq<byte>, qm: Reading, w: seq<byte>) {
    && |w| >= 12 && |qm.questions| == 1
    && Number(w, 0) == Number(q, 0)
    && IsResponse(w) && IsTruncated(w) && OpcodeNumber(w) == OpcodeNumber(q)
    && Number(w, 4) == 1
    && SpellsQuestion(w, qm.questions[0].name, AskedType(q, qm), AskedClass(q, qm))
  }

  /** The octets from offset 12 on ask for this name, up to the case of letters, with these type and class numbers. */
  ghost predicate SpellsQuestion(w: seq<byte>, name: DomainName, kind: int, class_: int) {
    exists labels, end: nat ::
      && NameSpan(w, 12, labels, end) && end + 4 <= |w|
      && Spells(name.labels, labels)
      && Number(w, end) == kind && Number(w, end + 2) == class_
  }

  /** The question that the parser reads, and the one that the octets spell. */
  lemma FirstQuestionMeaning(w: seq<byte>, question: Question, kind: u16, class_: u16)
    requires |w| >= 12
    requires question.kind == RecordTypeFromWire(kind) && question.class_ == RecordClassFromWire(class_)
    ensures (QuestionAt(w, 12).Ok? && SameQuestion(question, QuestionAt(w, 12).value.question)) <==>
            SpellsQuestion(w, question.name, kind, class_)
  {
    hide NameSpan, Decode, Spells, SameName, RecordTypeFromWire, RecordClassFromWire;
    WireCodesRoundTrip(kind);
    WireCodesRoundTrip(class_);
    if Decode(w, 12).Ok? {
      var d := Decode(w, 12).value;
      DecodeIffNameSpan(w, 12, d.labels, d.end);
      SameNameIsSameLabels(question.name, DomainName(d.labels));
      if d.end + 4 <= |w| {
        WordIsNumber(w, d.end);
        WordIsNumber(w, d.end + 2);
        WireCodesRoundTrip(WordAt(w, d.end));
        WireCodesRoundTrip(WordAt(w, d.end + 2));
      }
    }
    forall labels, end: nat | NameSpan(w, 12, labels, end) ensures Decode(w, 12) == Ok(Decoded(labels, end)) {
      DecodeIffNameSpan(w, 12, labels, end);
    }
  }

  /** A datagram moves the exchange to TCP exactly if it is a cut-off answer to the query, octet by octet. */
  lemma TruncatedIffCutOff(sent: SentQuery, qm: Reading, w: seq<byte>)
    requires Sound(sent) && Reads(sent.packet.wire, qm)
    ensures MatchesTruncated(sent, w) <==> CutOffAnswer(sent.packet.wire, qm, w)
  {
    hide Parse, Reads, NameSpan, Spells, QuestionAt, SameQuestion, RecordTypeFromWire, RecordClassFromWire, IsResponse,
      IsTruncated, AskedType, AskedClass, Header.Truncated, Header.MessageType, Header.Opcode, OpcodeFromWire;
    var q := sent.packet.wire;
    HeadersAgree(q, qm);
    HeaderMeaning(q);
    QuestionMeaning(q, qm);
    if |w| >= 12 && |qm.questions| == 1 {
      HeaderMeaning(w);
      OpcodesDiffer(OpcodeNumber(w), OpcodeNumber(q));
      FirstQuestionMeaning(w, qm.questions[0], AskedType(q, qm), AskedClass(q, qm));
    }
  }
}
