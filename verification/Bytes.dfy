/** Octets and big-endian words, as bounded integers. */
module Bytes {
  type byte = b: int | 0 <= b < 0x100
  type u16 = n: int | 0 <= n < 0x1_0000
  type u32 = n: int | 0 <= n < 0x1_0000_0000

  function Be16(n: u16): (r: seq<byte>) {
    [n / 0x100, n % 0x100]
  }

  function Be32(n: u32): (r: seq<byte>) {
    Be16(n / 0x1_0000) + Be16(n % 0x1_0000)
  }

  function WordAt(w: seq<byte>, i: nat): (r: u16)
    requires i + 2 <= |w|
  {
    w[i] as int * 0x100 + w[i + 1]
  }

  function DoubleWordAt(w: seq<byte>, i: nat): (r: u32)
    requires i + 4 <= |w|
  {
    WordAt(w, i) as int * 0x1_0000 + WordAt(w, i + 2)
  }

  /** A single-bit test, `n & mask != 0` for a mask that is a power of two. */
  predicate Bit(n: nat, mask: nat)
    requires mask > 0
  {
    n / mask % 2 == 1
  }

  /** Both wires have one length and hold the same octets from offset `from` on. */
  ghost predicate SameFrom(a: seq<byte>, b: seq<byte>, from: nat) {
    |a| == |b| && forall i :: from <= i < |a| ==> a[i] == b[i]
  }

  /** Both wires hold the same octets below `limit`. */
  ghost predicate SamePrefix(a: seq<byte>, b: seq<byte>, limit: nat) {
    limit <= |a| && limit <= |b| && forall i :: 0 <= i < limit ==> a[i] == b[i]
  }

  /** `chunk` is written in `w` at offset `at`. */
  ghost predicate Holds(w: seq<byte>, at: nat, chunk: seq<byte>) {
    at + |chunk| <= |w| && w[at..at + |chunk|] == chunk
  }

  lemma HoldsConcat(w: seq<byte>, at: nat, a: seq<byte>, b: seq<byte>)
    requires Holds(w, at, a + b)
    ensures Holds(w, at, a)
    ensures Holds(w, at + |a|, b)
  {
    var whole := w[at..at + |a + b|];
    assert w[at..at + |a|] == whole[..|a|];
    assert w[at + |a|..at + |a| + |b|] == whole[|a|..];
  }

  lemma HoldsFits(w: seq<byte>, at: nat, chunk: seq<byte>)
    requires Holds(w, at, chunk)
    ensures at + |chunk| <= |w|
  {
  }

  lemma HoldsAll(w: seq<byte>)
    ensures Holds(w, 0, w)
  {
  }

  lemma HoldsAt(w: seq<byte>, at: nat, chunk: seq<byte>, i: nat)
    requires Holds(w, at, chunk) && i < |chunk|
    ensures w[at + i] == chunk[i]
  {
    assert w[at..at + |chunk|][i] == chunk[i];
  }

  lemma HoldsWord(w: seq<byte>, at: nat, n: u16)
    requires Holds(w, at, Be16(n))
    ensures WordAt(w, at) == n
  {
    HoldsAt(w, at, Be16(n), 0);
    HoldsAt(w, at, Be16(n), 1);
  }

  lemma HoldsDoubleWord(w: seq<byte>, at: nat, n: u32)
    requires Holds(w, at, Be32(n))
    ensures DoubleWordAt(w, at) == n
  {
    HoldsConcat(w, at, Be16(n / 0x1_0000), Be16(n % 0x1_0000));
    HoldsWord(w, at, n / 0x1_0000);
    HoldsWord(w, at + 2, n % 0x1_0000);
  }
}
