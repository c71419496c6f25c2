/** XDR words and padded strings (RFC 4506), written to a byte vector and read back. */
module Xdr {
  import opened Keys
  import opened Options

  function U32(x: nat): (b: Bytes)
    ensures |b| == 4
  {
    BigEndian(Low32(x), 4)
  }

  function Low32(x: nat): (y: nat)
    ensures y < Pow256(4)
  {
    assert Pow256(4) == TWO32 by { assert Pow256(2) == 65536; }
    x % TWO32
  }

  function U64(x: nat): (b: Bytes)
    ensures |b| == 8
  {
    U32(x / TWO32) + U32(x)
  }

  function TimePair(t: nat, ns: nat): (b: Bytes)
    ensures |b| == 8
  {
    U32(t) + U32(ns)
  }

  function Zeros(n: nat): (b: Bytes)
    ensures |b| == n
  {
    seq(n, _ => 0)
  }

  function Padding(n: nat): nat {
    (4 - n % 4) % 4
  }

  /** string<> and opaque<>: length, bytes, zeros up to a whole word. */
  function Opaque(s: Bytes): (b: Bytes)
    ensures |b| == 4 + |s| + Padding(|s|) && |b| % 4 == 0
  {
    U32(|s|) + s + Zeros(Padding(|s|))
  }

  /** Bits 8i to 8i + 7. */
  function Octet(x: nat, i: nat): Byte
    requires i < 4
  {
    x / (if i == 0 then 1 else if i == 1 then 0x100 else if i == 2 then 0x1_0000 else 0x100_0000) % 256
  }

  class Writer {
    var v: Bytes

    constructor ()
      ensures v == []
    {
      v := [];
    }

    method PutU32(x: nat)
      modifies this
      ensures v == old(v) + U32(x)
    {
      var y := x % TWO32;
      var a, b, c, d := Octet(y, 3), Octet(y, 2), Octet(y, 1), Octet(y, 0);
      WordBytes(x, y);
      FourBytes(v, a, b, c, d);
      v := v + [a];
      v := v + [b];
      v := v + [c];
      v := v + [d];
    }

    method PutU64(x: nat)
      modifies this
      ensures v == old(v) + U64(x)
    {
      PutU32(x / TWO32);
      PutU32(x);
    }

    method PutFh(id: nat, snap: nat)
      modifies this
      ensures v == old(v) + (U32(16) + U64(id) + U64(snap))
    {
      PutU32(16);
      PutU64(id);
      PutU64(snap);
    }

    /** nfstime3: seconds and nanoseconds. */
    method PutTime(t: nat, ns: nat)
      modifies this
      ensures v == old(v) + TimePair(t, ns)
    {
      PutU32(t);
      PutU32(ns);
    }

    /** On a word-aligned stream. */
    method PutStr(s: Bytes)
      requires |v| % 4 == 0
      modifies this
      ensures v == old(v) + Opaque(s)
    {
      PutU32(|s|);
      v := v + s;
      PaddingShift(|old(v)|, |s|);
      Align();
    }

    method Align()
      modifies this
      ensures v == old(v) + Zeros(Padding(|old(v)|))
    {
      ghost var n := 0;
      while |v| % 4 != 0
        invariant 0 <= n <= Padding(|old(v)|) && |v| == |old(v)| + n && v == old(v) + Zeros(n)
        decreases Padding(|old(v)|) - n
      {
        v := v + [0];
        n := n + 1;
      }
    }
  }

  lemma PaddingShift(base: nat, n: nat)
    requires base % 4 == 0
    ensures Padding(base + 4 + n) == Padding(n)
  {
  }

  lemma FourBytes(v: Bytes, a: Byte, b: Byte, c: Byte, d: Byte)
    ensures v + [a] + [b] + [c] + [d] == v + [a, b, c, d]
  {
  }

  lemma WordBytes(x: nat, y: nat)
    requires y == x % TWO32
    ensures U32(x) == [Octet(y, 3), Octet(y, 2), Octet(y, 1), Octet(y, 0)]
  {
    OctetsOf(y);
    OctetForms(y);
    SameWord(x, y);
  }

  lemma SameWord(x: nat, y: nat)
    requires y == x % TWO32
    ensures U32(x) == U32(y)
  {
    assert Low32(x) == Low32(y);
  }

  lemma OctetForms(y: nat)
    requires y < TWO32
    ensures Octet(y, 3) == y / 0x100_0000 && Octet(y, 2) == y / 0x1_0000 % 256
    ensures Octet(y, 1) == y / 0x100 % 256 && Octet(y, 0) == y % 256
  {
  }

  lemma OctetsOf(y: nat)
    requires y < TWO32
    ensures U32(y) == [y / 0x100_0000, y / 0x1_0000 % 256, y / 0x100 % 256, y % 256]
  {
    assert Low32(y) == y;
    assert BigEndian(y / 0x100_0000, 1) == BigEndian(y / 0x100_0000 / 256, 0) + [y / 0x100_0000 % 256];
    assert y / 256 / 256 == y / 0x1_0000 && y / 0x1_0000 / 256 == y / 0x100_0000;
    Pow256Shrinks(y, 3);
    Pow256Shrinks(y / 256, 2);
    Pow256Shrinks(y / 0x1_0000, 1);
    assert BigEndian(y / 0x1_0000, 2) == BigEndian(y / 0x100_0000, 1) + [y / 0x1_0000 % 256];
    assert BigEndian(y / 256, 3) == BigEndian(y / 0x1_0000, 2) + [y / 256 % 256];
    assert BigEndian(y, 4) == BigEndian(y / 256, 3) + [y % 256];
  }

  lemma Pow256Shrinks(y: nat, n: nat)
    requires y < Pow256(n + 1)
    ensures y / 256 < Pow256(n)
  {
  }

  // ---- reading ----

  function TakeU32(b: Bytes): Option<(nat, Bytes)> {
    if |b| < 4 then None else Some((FromBigEndian(b[..4]), b[4..]))
  }

  function TakeU64(b: Bytes): Option<(nat, Bytes)> {
    match TakeU32(b)
    case None => None
    case Some(hi) =>
      match TakeU32(hi.1)
      case None => None
      case Some(lo) => Some((hi.0 * TWO32 + lo.0, lo.1))
  }

  /** A length rounded up to whole words in 32 bits. */
  function Rounded32(n: nat): nat {
    (n + 3) % TWO32 / 4 * 4
  }

  /** The rounding wraps for the three greatest lengths; what a string longer than the stream would then take from
      beyond it is left out. */
  function TakeStr(b: Bytes): Option<(Bytes, Bytes)> {
    match TakeU32(b)
    case None => None
    case Some(n) =>
      var pad := Rounded32(n.0);
      if pad > |n.1| || n.0 > |n.1| then None else Some((n.1[..n.0], n.1[pad..]))
  }

  function Skip(b: Bytes, k: nat): Option<Bytes> {
    if k > |b| then None else Some(b[k..])
  }

  /** Reading gives back what was written, and the rest of the stream. */
  lemma ReadU32(x: nat, rest: Bytes)
    requires x < TWO32
    ensures TakeU32(U32(x) + rest) == Some((x, rest))
  {
    DecodeEncode(Low32(x), 4);
    assert (U32(x) + rest)[..4] == U32(x) && (U32(x) + rest)[4..] == rest;
  }

  lemma ReadU64(x: nat, rest: Bytes)
    requires x < TWO64
    ensures TakeU64(U64(x) + rest) == Some((x, rest))
  {
    assert Low32(x) == Low32(x % TWO32);
    assert U32(x) == U32(x % TWO32);
    ReadU32(x / TWO32, U32(x) + rest);
    ReadU32(x % TWO32, rest);
    assert U64(x) + rest == U32(x / TWO32) + (U32(x) + rest);
  }

  lemma RoundedIff(n: nat)
    requires n < TWO32
    ensures Rounded32(n) == n + Padding(n) <==> n <= TWO32 - 4
    ensures n > TWO32 - 4 ==> Rounded32(n) == 0
  {
  }

  /** A string reads back, with the rest of the stream, exactly when its length is at most 2^32 - 4; a longer one is
      read and not skipped. */
  lemma ReadStrIff(s: Bytes, rest: Bytes)
    requires |s| < TWO32
    ensures TakeStr(Opaque(s) + rest) == Some((s, rest)) <==> |s| <= TWO32 - 4
  {
    var body := s + Zeros(Padding(|s|)) + rest;
    assert Opaque(s) + rest == U32(|s|) + body;
    ReadU32(|s|, body);
    RoundedIff(|s|);
    assert body[..|s|] == s && body[|s| + Padding(|s|)..] == rest;
    if |s| > TWO32 - 4 { assert |body[0..]| > |rest|; }
  }
}
