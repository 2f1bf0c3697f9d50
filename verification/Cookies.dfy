/** Cookie correlation and the query bytes of a cookie retry (src/dns/cookie.rs, section 5.3 of RFC 7873). */
module Cookies {
  import opened Outcomes
  import opened Bytes
  import opened Types
  import opened Options
  import opened Messages

  /** The five ways to go on after BADCOOKIE; `Rewrite` holds the bytes of the next query. */
  datatype ServerCookieRetry = Absent | Discard | Current | Rewrite(wire: seq<byte>) | Tcp

  /** The cookie bytes that a packet's slot names are in its wire. */
  predicate SlotInWire(p: Packet) {
    p.cookie.Some? && p.cookie.value.Present? ==>
      && p.cookie.value.slot.dataAt + p.cookie.value.slot.dataLen <= |p.wire|
      && CookieLength(p.cookie.value.slot.dataLen)
  }

  function ResponseCookie(p: Packet): (r: Option<seq<byte>>)
    requires SlotInWire(p)
    ensures r.Some? ==> CookieLength(|r.value|)
  {
    match p.cookie
    case None => None
    case Some(Malformed) => None
    case Some(Present(slot)) => Some(p.wire[slot.dataAt..slot.dataAt + slot.dataLen])
  }

  predicate ValidResponse(sent: Packet, response: Packet, required: bool)
    requires SlotInWire(sent) && SlotInWire(response)
  {
    match ResponseCookie(response)
    case None => response.cookie.None? && !required && response.ResponseCode() != BadCookie
    case Some(received) =>
      match ResponseCookie(sent)
      case None => false
      case Some(client) => 16 <= |received| <= 40 && client[..8] == received[..8]
  }

  /** Overwrites the word at `at`. */
  function Patch(w: seq<byte>, at: nat, word: u16): (r: seq<byte>)
    requires at + 2 <= |w|
    ensures |r| == |w|
  {
    w[..at] + Be16(word) + w[at + 2..]
  }

  /** The query with its cookie data replaced, before the two lengths are patched. */
  function Spliced(w: seq<byte>, slot: CookieSlot, data: seq<byte>): seq<byte>
    requires slot.dataAt + slot.dataLen <= |w|
  {
    w[..slot.dataAt] + data + w[slot.dataAt + slot.dataLen..]
  }

  function RewrittenWire(w: seq<byte>, slot: CookieSlot, client: seq<byte>, server: seq<byte>): Option<seq<byte>>
    requires |client| == 8 && slot.lengthAt + 2 == slot.dataAt
  {
    if |server| < 8 || |server| > 32 || slot.rdlengthAt + 2 > slot.dataAt then None
    else if slot.dataAt + slot.dataLen > |w| then None
    else
      var out := Spliced(w, slot, client + server);
      var newLen := 8 + |server|;
      if |out| > MAX_MESSAGE_LENGTH then None
      else
        var sized := Patch(out, slot.lengthAt, newLen);
        var rdlength := WordAt(sized, slot.rdlengthAt) + newLen - slot.dataLen;
        if 0 <= rdlength < 0x1_0000 then Some(Patch(sized, slot.rdlengthAt, rdlength)) else None
  }

  method PatchInPlace(out: array<byte>, at: nat, word: u16)
    requires at + 2 <= out.Length
    modifies out
    ensures out[..] == Patch(old(out[..]), at, word)
  {
    out[at] := word / 0x100;
    out[at + 1] := word % 0x100;
  }

  /** Builds the retry bytes in one buffer and patches both lengths in place. */
  method RewriteCookie(query: seq<byte>, slot: CookieSlot, client: seq<byte>, server: seq<byte>)
    returns (r: Option<seq<byte>>)
    requires |client| == 8 && slot.lengthAt + 2 == slot.dataAt
    ensures r == RewrittenWire(query, slot, client, server)
  {
    if |server| < 8 || |server| > 32 || slot.rdlengthAt + 2 > slot.dataAt {
      return None;
    }
    var dataEnd := slot.dataAt + slot.dataLen;
    if dataEnd > |query| {
      return None;
    }
    var newLen := 8 + |server|;
    var bytes := query[..slot.dataAt];
    bytes := bytes + client;
    bytes := bytes + server;
    bytes := bytes + query[dataEnd..];
    assert bytes == Spliced(query, slot, client + server);
    if |bytes| > MAX_MESSAGE_LENGTH {
      return None;
    }
    var out := new byte[|bytes|](i requires 0 <= i < |bytes| => bytes[i]);
    assert out[..] == bytes;
    PatchInPlace(out, slot.lengthAt, newLen);
    var rdlength := WordAt(out[..], slot.rdlengthAt) + newLen - slot.dataLen;
    if !(0 <= rdlength < 0x1_0000) {
      return None;
    }
    PatchInPlace(out, slot.rdlengthAt, rdlength);
    return Some(out[..]);
  }

  /** The slot's length octets precede its data, as every located slot's do. */
  predicate SlotShaped(p: Packet) {
    p.cookie.Some? && p.cookie.value.Present? ==>
      p.cookie.value.slot.lengthAt + 2 == p.cookie.value.slot.dataAt
  }

  function Retry(query: Packet, response: Packet): ServerCookieRetry
    requires SlotShaped(query)
  {
    if query.cookie.None? then Absent
    else if query.cookie.value.Malformed? then Discard
    else if response.cookie.None? || response.cookie.value.Malformed? then Discard
    else
      var slot, other := query.cookie.value.slot, response.cookie.value.slot;
      if slot.dataAt + slot.dataLen > |query.wire| || other.dataAt + other.dataLen > |response.wire| then Discard
      else
        var sentData := query.wire[slot.dataAt..slot.dataAt + slot.dataLen];
        var received := response.wire[other.dataAt..other.dataAt + other.dataLen];
        if |sentData| < 8 || |received| < 16 || sentData[..8] != received[..8] then Discard
        else
          var server := received[8..];
          if |sentData| > 8 && sentData[8..] == server then Current
          else if 8 + |server| != slot.dataLen && slot.dataAt + slot.dataLen != |query.wire| then Tcp
          else
            match RewrittenWire(query.wire, slot, sentData[..8], server)
            case None => Discard
            case Some(wire) => Rewrite(wire)
  }
}
