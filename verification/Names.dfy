/** Bounded DNS label decoding and case-insensitive suffix matching (src/dns/name.rs). */
module Names {
  import opened Outcomes
  import opened Bytes

  const HEADER_LENGTH := 12
  const MAX_LABEL_LENGTH := 63
  const MAX_NAME_LENGTH := 255
  const MAX_POINTERS := 128

  datatype ParseError =
    | UnexpectedEnd
    | OversizedMessage
    | InvalidLabel
    | NameTooLong
    | InvalidPointer
    | CompressionLoop
    | CompressionDepth
    | InvalidCount
    | InvalidRecord
    | InvalidEdns
    | TrailingData

  type Label = seq<byte>

  /** An absolute name; the terminating root is not stored. */
  datatype DomainName = DomainName(labels: seq<Label>) {
    /** What every decoded or configured name satisfies. */
    ghost predicate Valid() {
      && (forall i :: 0 <= i < |labels| ==> 1 <= |labels[i]| <= MAX_LABEL_LENGTH)
      && EncodedLength(labels) <= MAX_NAME_LENGTH
    }
  }

  /** Octets of the uncompressed encoding, root terminator included. */
  function EncodedLength(labels: seq<Label>): (r: nat)
    ensures r > |labels|
  {
    if labels == [] then 1 else 1 + |labels[0]| + EncodedLength(labels[1..])
  }

  /** The uncompressed encoding; a length octet is the label length cast to eight bits. */
  function Encode(labels: seq<Label>): (r: seq<byte>)
    ensures |r| == EncodedLength(labels)
  {
    if labels == [] then [0] else [|labels[0]| % 0x100] + labels[0] + Encode(labels[1..])
  }

  /** Appends an uncompressed name to `out`, label by label. */
  method EncodeName(name: DomainName, out: seq<byte>) returns (r: seq<byte>)
    ensures r == out + Encode(name.labels)
  {
    r := out;
    for i := 0 to |name.labels|
      invariant r + Encode(name.labels[i..]) == out + Encode(name.labels)
    {
      assert name.labels[i..][1..] == name.labels[i + 1..];
      r := r + [|name.labels[i]| % 0x100];
      r := r + name.labels[i];
    }
    r := r + [0];
  }

  // ----- decoding -----

  datatype Decoded = Decoded(labels: seq<Label>, end: nat)

  /** The target of the compression pointer whose two octets are at `pos`. */
  function PointerTarget(w: seq<byte>, pos: nat): nat
    requires pos + 1 < |w|
  {
    w[pos] as int % 0x40 * 0x100 + w[pos + 1]
  }

  /**
   * What the decoding loop computes from one of its states: the labels still to come, and where the
   * physical encoding that starts at `pos` ends.
   */
  function DecodeFrom(w: seq<byte>, pos: nat, expanded: nat, visited: seq<nat>): (r: Result<Decoded, ParseError>)
    requires |visited| <= MAX_POINTERS
    decreases MAX_POINTERS - |visited|, |w| - pos
  {
    if pos >= |w| then Err(UnexpectedEnd)
    else if w[pos] >= 0xc0 then
      if pos + 1 >= |w| then Err(UnexpectedEnd)
      else
        var target := PointerTarget(w, pos);
        if target in visited then Err(CompressionLoop)
        else if target < HEADER_LENGTH || target >= pos then Err(InvalidPointer)
        else if |visited| == MAX_POINTERS then Err(CompressionDepth)
        else
          var rest :- DecodeFrom(w, target, expanded, visited + [target]);
          Ok(Decoded(rest.labels, pos + 2))
    else if w[pos] >= 0x40 then Err(InvalidLabel)
    else if w[pos] == 0 then Ok(Decoded([], pos + 1))
    else
      var next := pos + 1 + w[pos];
      if expanded + w[pos] + 1 > MAX_NAME_LENGTH then Err(NameTooLong)
      else if next > |w| then Err(UnexpectedEnd)
      else
        var rest :- DecodeFrom(w, next, expanded + w[pos] + 1, visited);
        Ok(Decoded([w[pos + 1..next]] + rest.labels, rest.end))
  }

  function Decode(w: seq<byte>, pos: nat): Result<Decoded, ParseError> {
    DecodeFrom(w, pos, 1, [])
  }

  /** The result of the whole decoding, from what one of its loop states still yields. */
  ghost function Continue(labels: seq<Label>, jumped: bool, cursor: nat, rest: Result<Decoded, ParseError>)
    : Result<Decoded, ParseError>
  {
    match rest
    case Err(e) => Err(e)
    case Ok(d) => Ok(Decoded(labels + d.labels, if jumped then cursor else d.end))
  }

  lemma ContinueStart(start: nat, rest: Result<Decoded, ParseError>)
    ensures Continue([], false, start, rest) == rest
  {
    assert rest.Ok? ==> [] + rest.value.labels == rest.value.labels;
  }

  lemma ContinueLabel(labels: seq<Label>, jumped: bool, cursor: nat, octets: Label, rest: Result<Decoded, ParseError>)
    ensures match rest
            case Err(_) => Continue(labels, jumped, cursor, rest) == Continue(labels + [octets], jumped, cursor, rest)
            case Ok(d) =>
              Continue(labels, jumped, cursor, Ok(Decoded([octets] + d.labels, d.end)))
              == Continue(labels + [octets], jumped, cursor, rest)
  {
    assert rest.Ok? ==> labels + ([octets] + rest.value.labels) == labels + [octets] + rest.value.labels;
  }

  lemma ContinueJump(labels: seq<Label>, jumped: bool, cursor: nat, after: nat, rest: Result<Decoded, ParseError>)
    ensures match rest
            case Err(_) => Continue(labels, jumped, cursor, rest) == Continue(labels, true, cursor, rest)
            case Ok(d) =>
              Continue(labels, jumped, cursor, Ok(Decoded(d.labels, after)))
              == Continue(labels, true, if jumped then cursor else after, rest)
  {
  }

  /**
   * The decoding loop. On success `cursor` is just after the physical encoding that starts at `start`;
   * on an error it must be discarded.
   */
  method DecodeName(wire: seq<byte>, start: nat) returns (r: Result<DomainName, ParseError>, cursor: nat)
    ensures Decode(wire, start).Ok? ==>
              r == Ok(DomainName(Decode(wire, start).value.labels)) && cursor == Decode(wire, start).value.end
    ensures Decode(wire, start).Err? ==> r == Err(Decode(wire, start).error)
  {
    cursor := start;
    var labels: seq<Label> := [];
    var position: nat, jumped, expanded: nat := start, false, 1;
    var visited := new nat[MAX_POINTERS];
    var hops: nat := 0;
    ContinueStart(start, Decode(wire, start));
    assert visited[..0] == [];
    while true
      invariant 0 <= hops <= MAX_POINTERS
      invariant jumped <==> hops > 0
      invariant Decode(wire, start) ==
                Continue(labels, jumped, cursor, DecodeFrom(wire, position, expanded, visited[..hops]))
      decreases MAX_POINTERS - hops, |wire| - position
    {
      if position >= |wire| {
        return Err(UnexpectedEnd), cursor;
      }
      var head := wire[position];
      if head >= 0xc0 {
        if position + 1 >= |wire| {
          return Err(UnexpectedEnd), cursor;
        }
        var target := PointerTarget(wire, position);
        if target in visited[..hops] {
          return Err(CompressionLoop), cursor;
        }
        if target < HEADER_LENGTH || target >= position {
          return Err(InvalidPointer), cursor;
        }
        if hops == MAX_POINTERS {
          return Err(CompressionDepth), cursor;
        }
        ghost var before := visited[..hops];
        ContinueJump(labels, jumped, cursor, position + 2, DecodeFrom(wire, target, expanded, before + [target]));
        visited[hops] := target;
        assert visited[..hops + 1] == before + [target];
        hops := hops + 1;
        if !jumped {
          cursor := position + 2;
          jumped := true;
        }
        position := target;
      } else if head >= 0x40 {
        return Err(InvalidLabel), cursor;
      } else if head == 0 {
        if !jumped {
          cursor := position + 1;
        }
        assert labels + [] == labels;
        return Ok(DomainName(labels)), cursor;
      } else {
        position := position + 1;
        expanded := expanded + head + 1;
        if expanded > MAX_NAME_LENGTH {
          return Err(NameTooLong), cursor;
        }
        if position + head > |wire| {
          return Err(UnexpectedEnd), cursor;
        }
        var octets := wire[position..position + head];
        ContinueLabel(labels, jumped, cursor, octets,
                      DecodeFrom(wire, position + head, expanded, visited[..hops]));
        labels := labels + [octets];
        position := position + head;
      }
    }
  }

  // ----- the declarative meaning of a compressed name -----

  /**
   * Section 4.1.4 of RFC 1035 read as a relation, with no bound, visited set or cursor: the octets at `pos`
   * expand to `labels` by following pointers to the offsets `jumps`, in order. A pointer names an earlier
   * octet of the message and never the header.
   */
  ghost predicate Expands(w: seq<byte>, pos: nat, labels: seq<Label>, jumps: seq<nat>)
    decreases |labels| + |jumps|
  {
    && pos < |w|
    && if w[pos] == 0 then labels == [] && jumps == []
       else if w[pos] < 0x40 then
         && labels != []
         && pos + 1 + w[pos] <= |w|
         && labels[0] == w[pos + 1..pos + 1 + w[pos]]
         && Expands(w, pos + 1 + w[pos], labels[1..], jumps)
       else
         && w[pos] >= 0xc0
         && pos + 1 < |w|
         && jumps != []
         && jumps[0] == PointerTarget(w, pos)
         && 12 <= jumps[0] < pos
         && Expands(w, jumps[0], labels, jumps[1..])
  }

  /** Where the octets written at `pos` stop: after the root octet or after the first pointer. */
  function PhysicalEnd(w: seq<byte>, pos: nat): nat
    decreases |w| - pos
  {
    if pos >= |w| then pos
    else if w[pos] == 0 then pos + 1
    else if w[pos] < 0x40 then PhysicalEnd(w, pos + 1 + w[pos])
    else pos + 2
  }

  /** The octets at `pos`, up to `end`, are a name within the limits of the implementation. */
  ghost predicate NameSpan(w: seq<byte>, pos: nat, labels: seq<Label>, end: nat) {
    && EncodedLength(labels) <= 255
    && end == PhysicalEnd(w, pos)
    && exists jumps :: Expands(w, pos, labels, jumps) && |jumps| <= 128
  }

  ghost predicate Distinct(s: seq<nat>) {
    forall i, j :: 0 <= i < j < |s| ==> s[i] != s[j]
  }

  /** Octets expand in at most one way. */
  lemma {:induction false} ExpansionIsUnique(
    w: seq<byte>, pos: nat, labels: seq<Label>, jumps: seq<nat>, labels': seq<Label>, jumps': seq<nat>)
    requires Expands(w, pos, labels, jumps) && Expands(w, pos, labels', jumps')
    ensures labels == labels' && jumps == jumps'
    decreases |labels| + |jumps|
  {
    if w[pos] == 0 {
    } else if w[pos] < 0x40 {
      ExpansionIsUnique(w, pos + 1 + w[pos], labels[1..], jumps, labels'[1..], jumps');
      assert labels == [labels[0]] + labels[1..];
      assert labels' == [labels'[0]] + labels'[1..];
    } else {
      ExpansionIsUnique(w, jumps[0], labels, jumps[1..], labels', jumps'[1..]);
      assert jumps == [jumps[0]] + jumps[1..];
      assert jumps' == [jumps'[0]] + jumps'[1..];
    }
  }

  /** After its jump number `i`, an expansion goes on from that target with the jumps that are left. */
  lemma {:induction false} ExpansionAfterJump(w: seq<byte>, pos: nat, labels: seq<Label>, jumps: seq<nat>, i: nat)
    returns (rest: seq<Label>)
    requires Expands(w, pos, labels, jumps) && i < |jumps|
    ensures Expands(w, jumps[i], rest, jumps[i + 1..])
    decreases |labels| + |jumps|
  {
    if w[pos] < 0x40 {
      rest := ExpansionAfterJump(w, pos + 1 + w[pos], labels[1..], jumps, i);
    } else if i == 0 {
      rest := labels;
    } else {
      rest := ExpansionAfterJump(w, jumps[0], labels, jumps[1..], i - 1);
      assert jumps[1..][i..] == jumps[i + 1..];
    }
  }

  /** A finite expansion never jumps to one offset twice: going round once would mean going round for ever. */
  lemma JumpsAreDistinct(w: seq<byte>, pos: nat, labels: seq<Label>, jumps: seq<nat>)
    requires Expands(w, pos, labels, jumps)
    ensures Distinct(jumps)
  {
    forall i, j | 0 <= i < j < |jumps| ensures jumps[i] != jumps[j] {
      if jumps[i] == jumps[j] {
        var a := ExpansionAfterJump(w, pos, labels, jumps, i);
        var b := ExpansionAfterJump(w, pos, labels, jumps, j);
        ExpansionIsUnique(w, jumps[i], a, jumps[i + 1..], b, jumps[j + 1..]);
        assert false;
      }
    }
  }

  /** Every accepted name has an expansion within the limits, and its cursor is the physical end. */
  lemma {:induction false} DecodeFromExpands(w: seq<byte>, pos: nat, expanded: nat, visited: seq<nat>)
    returns (jumps: seq<nat>)
    requires |visited| <= MAX_POINTERS
    requires expanded <= MAX_NAME_LENGTH
    requires DecodeFrom(w, pos, expanded, visited).Ok?
    ensures var d := DecodeFrom(w, pos, expanded, visited).value;
            && Expands(w, pos, d.labels, jumps)
            && |visited| + |jumps| <= MAX_POINTERS
            && expanded - 1 + EncodedLength(d.labels) <= MAX_NAME_LENGTH
            && d.end == PhysicalEnd(w, pos)
            && pos < d.end <= |w|
            && (forall i :: 0 <= i < |d.labels| ==> 1 <= |d.labels[i]| <= MAX_LABEL_LENGTH)
    decreases MAX_POINTERS - |visited|, |w| - pos
  {
    if w[pos] >= 0xc0 {
      var target := PointerTarget(w, pos);
      var rest := DecodeFromExpands(w, target, expanded, visited + [target]);
      jumps := [target] + rest;
      assert jumps[1..] == rest;
    } else if w[pos] == 0 {
      jumps := [];
    } else {
      var next := pos + 1 + w[pos];
      jumps := DecodeFromExpands(w, next, expanded + w[pos] + 1, visited);
      var d := DecodeFrom(w, pos, expanded, visited).value;
      var rest := DecodeFrom(w, next, expanded + w[pos] + 1, visited).value;
      assert d.labels[1..] == rest.labels;
    }
  }

  /**
   * Octets with an expansion are decoded to it, unless one of the two limits stops the loop; in particular
   * the visited set never rejects a name that has an expansion.
   */
  lemma {:induction false} DecodeFromFollows(
    w: seq<byte>, pos: nat, expanded: nat, visited: seq<nat>, labels: seq<Label>, jumps: seq<nat>)
    requires |visited| <= MAX_POINTERS && expanded <= MAX_NAME_LENGTH
    requires Expands(w, pos, labels, jumps)
    requires Distinct(visited + jumps)
    ensures var r := DecodeFrom(w, pos, expanded, visited);
            if |visited| + |jumps| <= MAX_POINTERS && expanded - 1 + EncodedLength(labels) <= MAX_NAME_LENGTH
            then r == Ok(Decoded(labels, PhysicalEnd(w, pos)))
            else r == Err(NameTooLong) || r == Err(CompressionDepth)
    decreases |labels| + |jumps|
  {
    hide Distinct;
    if w[pos] == 0 {
    } else if w[pos] < 0x40 {
      assert labels == [labels[0]] + labels[1..];
      if expanded + w[pos] + 1 <= MAX_NAME_LENGTH {
        DecodeFromFollows(w, pos + 1 + w[pos], expanded + w[pos] + 1, visited, labels[1..], jumps);
      }
    } else {
      NextJumpIsNew(visited, jumps);
      if |visited| < MAX_POINTERS {
        DecodeFromFollows(w, jumps[0], expanded, visited + [jumps[0]], labels, jumps[1..]);
      }
    }
  }

  lemma NextJumpIsNew(visited: seq<nat>, jumps: seq<nat>)
    requires jumps != [] && Distinct(visited + jumps)
    ensures jumps[0] !in visited && Distinct(visited + [jumps[0]] + jumps[1..])
  {
    var all := visited + jumps;
    assert all[|visited|] == jumps[0];
    assert forall i :: 0 <= i < |visited| ==> all[i] == visited[i];
    assert visited + [jumps[0]] + jumps[1..] == all;
  }

  /** A pointer on the way of an expansion covers offset `c`. */
  ghost predicate PointerCovers(w: seq<byte>, pos: nat, labels: seq<Label>, jumps: seq<nat>, c: nat)
    requires Expands(w, pos, labels, jumps)
    decreases |labels| + |jumps|
  {
    if w[pos] == 0 then false
    else if w[pos] < 0x40 then PointerCovers(w, pos + 1 + w[pos], labels[1..], jumps, c)
    else c == pos || c == pos + 1 || PointerCovers(w, jumps[0], labels, jumps[1..], c)
  }

  /**
   * Two messages that first differ at `c` and expand to the same labels do so within the octets before `c`,
   * unless a pointer covers `c`: a changed label, length or root octet spells another name.
   */
  lemma {:induction false} ExpandsBeforeChange(
    a: seq<byte>, b: seq<byte>, pos: nat, labels: seq<Label>, jumps: seq<nat>, jumps': seq<nat>, c: nat)
    requires Expands(a, pos, labels, jumps) && Expands(b, pos, labels, jumps')
    requires pos <= c < |a| && c < |b| && SamePrefix(a, b, c) && a[c] != b[c]
    requires !PointerCovers(a, pos, labels, jumps, c) && !PointerCovers(b, pos, labels, jumps', c)
    ensures Expands(a[..c], pos, labels, jumps)
    decreases |labels| + |jumps|
  {
    if a[pos] == 0 {
    } else if a[pos] < 0x40 {
      var next := pos + 1 + a[pos];
      if pos < c {
        assert forall k :: pos + 1 <= k < next ==> a[k] == labels[0][k - pos - 1] && b[k] == labels[0][k - pos - 1];
      }
      ExpandsBeforeChange(a, b, next, labels[1..], jumps, jumps', c);
      assert a[..c][pos + 1..next] == a[pos + 1..next];
    } else {
      ExpandsBeforeChange(a, b, jumps[0], labels, jumps[1..], jumps'[1..], c);
    }
  }

  /** Where a name physically ends depends only on the octets up to there. */
  lemma {:induction false} PhysicalEndReadsPrefix(
    a: seq<byte>, b: seq<byte>, pos: nat, labels: seq<Label>, jumps: seq<nat>)
    requires Expands(a, pos, labels, jumps) && SamePrefix(a, b, PhysicalEnd(a, pos))
    ensures pos < PhysicalEnd(a, pos) == PhysicalEnd(b, pos)
    decreases |labels|
  {
    if 0 < a[pos] < 0x40 {
      var next := pos + 1 + a[pos];
      PhysicalEndAdvances(a, next, labels[1..], jumps);
      PhysicalEndReadsPrefix(a, b, next, labels[1..], jumps);
    }
  }

  lemma {:induction false} PhysicalEndAdvances(w: seq<byte>, pos: nat, labels: seq<Label>, jumps: seq<nat>)
    requires Expands(w, pos, labels, jumps)
    ensures pos < PhysicalEnd(w, pos) <= |w|
    decreases |labels|
  {
    if 0 < w[pos] < 0x40 {
      PhysicalEndAdvances(w, pos + 1 + w[pos], labels[1..], jumps);
    }
  }

  /** The decoder accepts exactly the names with an expansion of at most 128 pointers and 255 octets. */
  lemma DecodeIffNameSpan(w: seq<byte>, pos: nat, labels: seq<Label>, end: nat)
    ensures Decode(w, pos) == Ok(Decoded(labels, end)) <==> NameSpan(w, pos, labels, end)
  {
    if Decode(w, pos) == Ok(Decoded(labels, end)) {
      var jumps := DecodeFromExpands(w, pos, 1, []);
    }
    if NameSpan(w, pos, labels, end) {
      var jumps :| Expands(w, pos, labels, jumps) && |jumps| <= MAX_POINTERS;
      JumpsAreDistinct(w, pos, labels, jumps);
      assert [] + jumps == jumps;
      DecodeFromFollows(w, pos, 1, [], labels, jumps);
    }
  }

  /**
   * A rejection other than the two limits, `CompressionLoop` included, means that the octets have no
   * expansion of any length; a limit is reported only when no expansion keeps within both.
   */
  lemma RejectedNamesDoNotExpand(w: seq<byte>, pos: nat, labels: seq<Label>, jumps: seq<nat>)
    requires Decode(w, pos).Err?
    requires Expands(w, pos, labels, jumps)
    ensures Decode(w, pos).error in {NameTooLong, CompressionDepth}
    ensures |jumps| > MAX_POINTERS || EncodedLength(labels) > MAX_NAME_LENGTH
  {
    JumpsAreDistinct(w, pos, labels, jumps);
    assert [] + jumps == jumps;
    DecodeFromFollows(w, pos, 1, [], labels, jumps);
  }

  /** A decoded name is valid, and its cursor moves strictly forward and stays in the message. */
  lemma DecodedIsValid(w: seq<byte>, pos: nat)
    requires Decode(w, pos).Ok?
    ensures DomainName(Decode(w, pos).value.labels).Valid()
    ensures pos < Decode(w, pos).value.end <= |w|
    ensures Decode(w, pos).value.end == PhysicalEnd(w, pos)
  {
    var jumps := DecodeFromExpands(w, pos, 1, []);
  }

  // ----- which octets a decoding can read -----

  /** Decoding from offset 12 on never reads below offset 12. */
  lemma {:induction false} DecodeReadsNoHeader(a: seq<byte>, b: seq<byte>, pos: nat, expanded: nat, visited: seq<nat>)
    requires |visited| <= MAX_POINTERS
    requires SameFrom(a, b, HEADER_LENGTH) && pos >= HEADER_LENGTH
    ensures DecodeFrom(a, pos, expanded, visited) == DecodeFrom(b, pos, expanded, visited)
    decreases MAX_POINTERS - |visited|, |a| - pos
  {
    if pos < |a| && a[pos] >= 0xc0 {
      if pos + 1 < |a| {
        var target := PointerTarget(a, pos);
        if target !in visited && HEADER_LENGTH <= target < pos && |visited| < MAX_POINTERS {
          DecodeReadsNoHeader(a, b, target, expanded, visited + [target]);
        }
      }
    } else if pos < |a| && 0 < a[pos] < 0x40 {
      var next := pos + 1 + a[pos];
      if expanded + a[pos] + 1 <= MAX_NAME_LENGTH && next <= |a| {
        assert a[pos + 1..next] == b[pos + 1..next];
        DecodeReadsNoHeader(a, b, next, expanded + a[pos] + 1, visited);
      }
    }
  }

  /** A name that is complete in a prefix of the message does not depend on the octets after it. */
  lemma {:induction false} DecodeReadsPrefix(p: seq<byte>, w: seq<byte>, pos: nat, expanded: nat, visited: seq<nat>)
    requires |visited| <= MAX_POINTERS
    requires SamePrefix(p, w, |p|)
    requires DecodeFrom(p, pos, expanded, visited).Ok?
    ensures DecodeFrom(w, pos, expanded, visited) == DecodeFrom(p, pos, expanded, visited)
    decreases MAX_POINTERS - |visited|, |p| - pos
  {
    if p[pos] >= 0xc0 {
      DecodeReadsPrefix(p, w, PointerTarget(p, pos), expanded, visited + [PointerTarget(p, pos)]);
    } else if p[pos] > 0 {
      var next := pos + 1 + p[pos];
      assert p[pos + 1..next] == w[pos + 1..next];
      DecodeReadsPrefix(p, w, next, expanded + p[pos] + 1, visited);
    }
  }

  /** A name without labels reads nothing past its own end, whatever pointers spell it. */
  lemma {:induction false} RootReadsPrefix(a: seq<byte>, b: seq<byte>, pos: nat, expanded: nat, visited: seq<nat>)
    requires |visited| <= MAX_POINTERS
    requires DecodeFrom(a, pos, expanded, visited).Ok?
    requires DecodeFrom(a, pos, expanded, visited).value.labels == []
    requires SamePrefix(a, b, DecodeFrom(a, pos, expanded, visited).value.end)
    ensures DecodeFrom(b, pos, expanded, visited) == DecodeFrom(a, pos, expanded, visited)
    decreases MAX_POINTERS - |visited|
  {
    if a[pos] >= 0xc0 {
      var target := PointerTarget(a, pos);
      assert DecodeFrom(a, target, expanded, visited + [target]).value.end <= pos + 1 by {
        RootEnd(a, target, expanded, visited + [target]);
      }
      RootReadsPrefix(a, b, target, expanded, visited + [target]);
    }
  }

  lemma RootEnd(a: seq<byte>, pos: nat, expanded: nat, visited: seq<nat>)
    requires |visited| <= MAX_POINTERS
    requires DecodeFrom(a, pos, expanded, visited).Ok?
    requires DecodeFrom(a, pos, expanded, visited).value.labels == []
    ensures pos < DecodeFrom(a, pos, expanded, visited).value.end <= pos + 2
  {
  }

  // ----- printing and reading back -----

  lemma EncodedHead(w: seq<byte>, pos: nat, labels: seq<Label>)
    requires labels != [] && |labels[0]| <= MAX_LABEL_LENGTH
    requires Holds(w, pos, Encode(labels))
    ensures pos < |w| && w[pos] == |labels[0]|
    ensures Holds(w, pos + 1, labels[0])
    ensures Holds(w, pos + 1 + |labels[0]|, Encode(labels[1..]))
  {
    hide Holds;
    var size := [|labels[0]| % 0x100];
    assert Encode(labels) == size + labels[0] + Encode(labels[1..]);
    HoldsConcat(w, pos, size + labels[0], Encode(labels[1..]));
    HoldsConcat(w, pos, size, labels[0]);
    HoldsAt(w, pos, size, 0);
  }

  /** An encoded name expands to itself without a pointer, wherever it is written. */
  lemma {:induction false} EncodingExpands(w: seq<byte>, pos: nat, labels: seq<Label>)
    requires forall i :: 0 <= i < |labels| ==> 1 <= |labels[i]| <= MAX_LABEL_LENGTH
    requires Holds(w, pos, Encode(labels))
    ensures Expands(w, pos, labels, [])
    ensures PhysicalEnd(w, pos) == pos + EncodedLength(labels)
    decreases labels
  {
    if labels == [] {
      HoldsAt(w, pos, [0], 0);
    } else {
      EncodedHead(w, pos, labels);
      EncodingExpands(w, pos + 1 + |labels[0]|, labels[1..]);
    }
  }

  /** Decoding undoes encoding for every valid name in every context. */
  lemma DecodeOfEncode(w: seq<byte>, pos: nat, name: DomainName)
    requires name.Valid() && Holds(w, pos, Encode(name.labels))
    ensures Decode(w, pos) == Ok(Decoded(name.labels, pos + EncodedLength(name.labels)))
  {
    EncodingExpands(w, pos, name.labels);
    DecodeIffNameSpan(w, pos, name.labels, PhysicalEnd(w, pos));
  }

  /** A pointer to an encoded name decodes to that name. */
  lemma DecodePointerTo(w: seq<byte>, pos: nat, target: nat, name: DomainName)
    requires name.Valid() && Holds(w, target, Encode(name.labels))
    requires HEADER_LENGTH <= target < pos && target < 0x4000
    requires Holds(w, pos, [0xc0 + target / 0x100, target % 0x100])
    ensures Decode(w, pos) == Ok(Decoded(name.labels, pos + 2))
  {
    HoldsAt(w, pos, [0xc0 + target / 0x100, target % 0x100], 0);
    HoldsAt(w, pos, [0xc0 + target / 0x100, target % 0x100], 1);
    assert Expands(w, target, name.labels, []) by {
      EncodingExpands(w, target, name.labels);
    }
    assert [target][1..] == [];
    assert Expands(w, pos, name.labels, [target]);
    DecodeIffNameSpan(w, pos, name.labels, pos + 2);
  }

  // ----- comparison -----

  function Lower(b: byte): byte {
    if 0x41 <= b <= 0x5a then b + 0x20 else b
  }

  predicate SameLabel(a: Label, b: Label) {
    |a| == |b| && forall i :: 0 <= i < |a| ==> Lower(a[i]) == Lower(b[i])
  }

  predicate SameLabels(a: seq<Label>, b: seq<Label>) {
    |a| == |b| && forall i :: 0 <= i < |a| ==> SameLabel(a[i], b[i])
  }

  /** `name` is `suffix` or below it: its last labels are those of `suffix`, without regard to ASCII case. */
  predicate IsSubdomainOf(name: DomainName, suffix: DomainName) {
    && |name.labels| >= |suffix.labels|
    && SameLabels(name.labels[|name.labels| - |suffix.labels|..], suffix.labels)
  }

  /** Equality of names: as many labels, and a subdomain. */
  predicate SameName(a: DomainName, b: DomainName) {
    |a.labels| == |b.labels| && IsSubdomainOf(a, b)
  }

  // ----- what comparison means -----

  /** One octet, or the two cases of one letter from A to Z. */
  predicate SameOctet(a: byte, b: byte) {
    || a == b
    || (0x41 <= a <= 0x5a && b == a + 0x20)
    || (0x41 <= b <= 0x5a && a == b + 0x20)
  }

  /** Both lists spell one name: label by label and octet by octet, up to the case of letters. */
  ghost predicate Spells(a: seq<Label>, b: seq<Label>) {
    && |a| == |b|
    && (forall i :: 0 <= i < |a| ==> |a[i]| == |b[i]|)
    && forall i, j :: 0 <= i < |a| && 0 <= j < |a[i]| ==> SameOctet(a[i][j], b[i][j])
  }

  /** Some labels put before `suffix` spell `name`. */
  ghost predicate Below(name: DomainName, suffix: DomainName) {
    exists front: seq<Label> :: Spells(name.labels, front + suffix.labels)
  }

  lemma SameLabelsSpell(a: seq<Label>, b: seq<Label>)
    ensures SameLabels(a, b) <==> Spells(a, b)
  {
    forall x: byte, y: byte ensures Lower(x) == Lower(y) <==> SameOctet(x, y) {
    }
    hide Lower, SameOctet;
    if Spells(a, b) {
      forall i | 0 <= i < |a| ensures SameLabel(a[i], b[i]) {
      }
    }
  }

  lemma SameNameIsSameLabels(a: DomainName, b: DomainName)
    ensures SameName(a, b) <==> SameLabels(a.labels, b.labels)
    ensures SameName(a, b) <==> Spells(a.labels, b.labels)
  {
    assert a.labels[0..] == a.labels;
    SameLabelsSpell(a.labels, b.labels);
  }

  /** A name is in the domain of a suffix exactly if labels put before the suffix spell it. */
  lemma SubdomainIffBelow(name: DomainName, suffix: DomainName)
    ensures IsSubdomainOf(name, suffix) <==> Below(name, suffix)
  {
    hide SameLabel, Spells;
    if IsSubdomainOf(name, suffix) {
      var front := name.labels[..|name.labels| - |suffix.labels|];
      SameLabelsAfter(front, name.labels[|front|..], suffix.labels);
      assert name.labels == front + name.labels[|front|..];
      SameLabelsSpell(name.labels, front + suffix.labels);
    }
    if front: seq<Label> :| Spells(name.labels, front + suffix.labels) {
      SameLabelsSpell(name.labels, front + suffix.labels);
    }
  }

  lemma SameLabelsAfter(front: seq<Label>, a: seq<Label>, b: seq<Label>)
    requires SameLabels(a, b)
    ensures SameLabels(front + a, front + b)
  {
    forall i | 0 <= i < |front| ensures SameLabel(front[i], front[i]) {
    }
    hide SameLabel;
  }

  lemma SameNameIsEquivalence(a: DomainName, b: DomainName, c: DomainName)
    ensures SameName(a, a)
    ensures SameName(a, b) ==> SameName(b, a)
    ensures SameName(a, b) && SameName(b, c) ==> SameName(a, c)
  {
    SameNameIsSameLabels(a, a);
    SameNameIsSameLabels(a, b);
    SameNameIsSameLabels(b, a);
    SameNameIsSameLabels(b, c);
    SameNameIsSameLabels(a, c);
  }

  /** Two suffixes of one name with equally many labels are the same name, so matches never tie. */
  lemma SuffixesOfOneName(name: DomainName, a: DomainName, b: DomainName)
    requires IsSubdomainOf(name, a) && IsSubdomainOf(name, b)
    requires |a.labels| == |b.labels|
    ensures SameName(a, b)
  {
    SameNameIsSameLabels(a, b);
  }

  /** Names that are equal have the same suffixes. */
  lemma SameNameSameSuffixes(a: DomainName, b: DomainName, suffix: DomainName)
    requires SameName(a, b)
    ensures IsSubdomainOf(a, suffix) <==> IsSubdomainOf(b, suffix)
  {
    SameNameIsSameLabels(a, b);
    if |suffix.labels| <= |a.labels| {
      var d := |a.labels| - |suffix.labels|;
      assert SameLabels(a.labels[d..], b.labels[d..]);
    }
  }
}
