/**
 * EDNS option framing: the walk that looks for COOKIE (src/dns/cookie.rs) and the walk that validates the
 * option list (src/dns/parser.rs), tied to one declarative option list.
 */
module Options {
  import opened Outcomes
  import opened Bytes
  import opened Names

  const COOKIE_OPTION := 10

  /** Offsets of the first COOKIE option and of the RDLENGTH of its OPT record. */
  datatype CookieSlot = CookieSlot(lengthAt: nat, dataAt: nat, dataLen: nat, rdlengthAt: nat)

  datatype CookieField = Present(slot: CookieSlot) | Malformed

  predicate CookieLength(n: int) {
    n == 8 || 16 <= n <= 40
  }

  /** The state of the COOKIE walk at `cursor`, in RDATA that starts at `rdataAt` and stops at `end`. */
  function LocateFrom(w: seq<byte>, rdataAt: nat, cursor: nat, end: nat): (r: Option<CookieField>)
    decreases end - cursor
  {
    if cursor + 4 > end || cursor + 4 > |w| then None
    else
      var len := WordAt(w, cursor + 2);
      var dataAt := cursor + 4;
      if dataAt + len > end || dataAt + len > |w| then Some(Malformed)
      else if WordAt(w, cursor) == COOKIE_OPTION then
        if CookieLength(len) then
          Some(Present(CookieSlot(cursor + 2, dataAt, len, if rdataAt < 2 then 0 else rdataAt - 2)))
        else Some(Malformed)
      else LocateFrom(w, rdataAt, dataAt + len, end)
  }

  function Locate(w: seq<byte>, rdataAt: nat, rdataLen: nat): Option<CookieField> {
    LocateFrom(w, rdataAt, rdataAt, rdataAt + rdataLen)
  }

  method LocateCookie(wire: seq<byte>, rdataAt: nat, rdataLen: nat) returns (r: Option<CookieField>)
    ensures r == Locate(wire, rdataAt, rdataLen)
  {
    var end := rdataAt + rdataLen;
    var cursor := rdataAt;
    while cursor + 4 <= end && cursor + 4 <= |wire|
      invariant Locate(wire, rdataAt, rdataLen) == LocateFrom(wire, rdataAt, cursor, end)
      decreases end - cursor
    {
      var code := WordAt(wire, cursor);
      var len := WordAt(wire, cursor + 2);
      var dataAt := cursor + 4;
      if dataAt + len > end || dataAt + len > |wire| {
        return Some(Malformed);
      }
      if code == COOKIE_OPTION {
        if CookieLength(len) {
          return Some(Present(CookieSlot(cursor + 2, dataAt, len, if rdataAt < 2 then 0 else rdataAt - 2)));
        }
        return Some(Malformed);
      }
      cursor := dataAt + len;
    }
    return None;
  }

  /** The state of the validating walk at `cursor`, over a slice that holds the RDATA alone. */
  function ValidateFrom(data: seq<byte>, cursor: nat): Result<nat, ParseError>
    requires cursor <= |data|
    decreases |data| - cursor
  {
    if cursor == |data| then Ok(cursor)
    else if cursor + 4 > |data| then Err(InvalidEdns)
    else
      var next := cursor + 4 + WordAt(data, cursor + 2);
      if next > |data| then Err(InvalidEdns) else ValidateFrom(data, next)
  }

  // ----- the declarative option list -----

  /** One option as written: its code, the offset of that code, and the length of its data. */
  datatype EdnsOption = EdnsOption(code: u16, at: nat, len: u16)

  /** `options` lie side by side in `w`, from `pos` to `end`. */
  ghost predicate OptionsTile(w: seq<byte>, pos: nat, options: seq<EdnsOption>, end: nat)
    decreases |options|
  {
    if options == [] then pos == end
    else
      && pos + 4 <= end <= |w|
      && options[0] == EdnsOption(WordAt(w, pos), pos, WordAt(w, pos + 2))
      && pos + 4 + options[0].len <= end
      && OptionsTile(w, pos + 4 + options[0].len, options[1..], end)
  }

  /** The first COOKIE option of a list decides the field; a bad length makes it malformed. */
  ghost function FirstCookie(options: seq<EdnsOption>, rdataAt: nat): Option<CookieField>
    requires rdataAt >= 2
  {
    if options == [] then None
    else if options[0].code != COOKIE_OPTION then FirstCookie(options[1..], rdataAt)
    else if CookieLength(options[0].len) then
      Some(Present(CookieSlot(options[0].at + 2, options[0].at + 4, options[0].len, rdataAt - 2)))
    else Some(Malformed)
  }

  ghost predicate OptionsFill(w: seq<byte>, pos: nat, end: nat) {
    exists options :: OptionsTile(w, pos, options, end)
  }

  lemma OptionsFillNext(w: seq<byte>, pos: nat, end: nat)
    requires pos + 4 <= end <= |w| && pos + 4 + WordAt(w, pos + 2) <= end
    ensures OptionsFill(w, pos, end) <==> OptionsFill(w, pos + 4 + WordAt(w, pos + 2), end)
  {
    var next := pos + 4 + WordAt(w, pos + 2);
    if OptionsFill(w, pos, end) {
      var all :| OptionsTile(w, pos, all, end);
      assert OptionsTile(w, next, all[1..], end);
    }
    if OptionsFill(w, next, end) {
      var rest :| OptionsTile(w, next, rest, end);
      var all := [EdnsOption(WordAt(w, pos), pos, WordAt(w, pos + 2))] + rest;
      assert all[1..] == rest;
      assert OptionsTile(w, pos, all, end);
    }
  }

  /** The validating walk accepts exactly the RDATA that some option list fills. */
  lemma {:induction false} ValidateIffFilled(w: seq<byte>, start: nat, end: nat, cursor: nat)
    requires start <= end <= |w| && cursor <= end - start
    ensures ValidateFrom(w[start..end], cursor).Ok? <==> OptionsFill(w, start + cursor, end)
    decreases end - start - cursor
  {
    var data := w[start..end];
    if cursor == |data| {
      assert OptionsTile(w, start + cursor, [], end);
    } else if cursor + 4 <= |data| {
      assert WordAt(data, cursor + 2) == WordAt(w, start + cursor + 2);
      var next := cursor + 4 + WordAt(data, cursor + 2);
      if next <= |data| {
        ValidateIffFilled(w, start, end, next);
        OptionsFillNext(w, start + cursor, end);
      }
    }
  }

  /** Octets are tiled by at most one option list. */
  lemma {:induction false} TilingIsUnique(w: seq<byte>, pos: nat, a: seq<EdnsOption>, b: seq<EdnsOption>, end: nat)
    requires OptionsTile(w, pos, a, end) && OptionsTile(w, pos, b, end)
    ensures a == b
    decreases |a|
  {
    if a != [] && b != [] {
      TilingIsUnique(w, pos + 4 + a[0].len, a[1..], b[1..], end);
      assert a == [a[0]] + a[1..] && b == [b[0]] + b[1..];
    }
  }

  /** On a list that validates, the COOKIE walk finds exactly its first COOKIE option. */
  lemma {:induction false} LocateFindsFirst(w: seq<byte>, rdataAt: nat, cursor: nat, options: seq<EdnsOption>, end: nat)
    requires 2 <= rdataAt <= cursor && end <= |w|
    requires OptionsTile(w, cursor, options, end)
    ensures LocateFrom(w, rdataAt, cursor, end) == FirstCookie(options, rdataAt)
    decreases |options|
  {
    if options != [] && options[0].code != COOKIE_OPTION {
      LocateFindsFirst(w, rdataAt, cursor + 4 + options[0].len, options[1..], end);
    }
  }

  /** Where a slot points: inside the RDATA of its record, on a COOKIE option of a legal length. */
  ghost predicate SlotFits(w: seq<byte>, slot: CookieSlot, rdataAt: nat, end: nat) {
    && 2 <= rdataAt && end <= |w|
    && slot.rdlengthAt + 2 == rdataAt
    && rdataAt + 2 <= slot.lengthAt
    && slot.lengthAt + 2 == slot.dataAt
    && slot.dataAt + slot.dataLen <= end
    && CookieLength(slot.dataLen)
    && WordAt(w, slot.lengthAt) == slot.dataLen
    && WordAt(w, slot.lengthAt - 2) == COOKIE_OPTION
  }

  /** A slot whose RDLENGTH octets bound the RDATA that it points into. */
  ghost predicate SlotDescribes(w: seq<byte>, slot: CookieSlot) {
    && slot.rdlengthAt + 2 <= |w|
    && SlotFits(w, slot, slot.rdlengthAt + 2, slot.rdlengthAt + 2 + WordAt(w, slot.rdlengthAt))
  }

  lemma {:induction false} LocatedSlotFits(w: seq<byte>, rdataAt: nat, cursor: nat, end: nat)
    requires 2 <= rdataAt <= cursor && end <= |w|
    requires LocateFrom(w, rdataAt, cursor, end).Some? && LocateFrom(w, rdataAt, cursor, end).value.Present?
    ensures SlotFits(w, LocateFrom(w, rdataAt, cursor, end).value.slot, rdataAt, end)
    decreases end - cursor
  {
    if WordAt(w, cursor) != COOKIE_OPTION {
      LocatedSlotFits(w, rdataAt, cursor + 4 + WordAt(w, cursor + 2), end);
    }
  }

  lemma {:induction false} LocateReadsRdata(a: seq<byte>, b: seq<byte>, rdataAt: nat, cursor: nat, end: nat)
    requires rdataAt <= cursor && |a| == |b| && forall i :: rdataAt <= i < |a| ==> a[i] == b[i]
    ensures LocateFrom(a, rdataAt, cursor, end) == LocateFrom(b, rdataAt, cursor, end)
    decreases end - cursor
  {
    if cursor + 4 <= end && cursor + 4 <= |a| {
      LocateReadsRdata(a, b, rdataAt, cursor + 4 + WordAt(a, cursor + 2), end);
    }
  }
}
