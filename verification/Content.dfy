/**
 The content generator: the bytes of a file as one function of its configuration, seed and offset,
 and the loops that produce ranges of it block by block.
 */
module Content {
  import opened Keys

  datatype Config = Config(blockSize: nat, sparsePercent: nat, dedupPercent: nat, dedupCorpus: nat)

  // The coordinate hash, and one 32-bit output word of the counter-based generator.
  datatype Env = Env(h: (nat, nat, nat) -> nat, word: (Counter, Key, nat) -> nat)

  datatype Counter = Counter(lo: nat, hi: nat, group: nat)
  datatype Key = Key(lo: nat, hi: nat)

  const HOLE_TAG: nat := 1
  const DUP_TAG: nat := 2
  const DUP2_TAG: nat := 3
  const DATA_TAG: nat := 4
  const CORPUS_TAG: nat := 5

  predicate IsHole(env: Env, c: Config, seed: nat, b: nat) {
    c.sparsePercent > 0 && env.h(seed, b, HOLE_TAG) % 100 < c.sparsePercent
  }

  function BlockSrc(env: Env, c: Config, seed: nat, b: nat): nat {
    if c.dedupPercent > 0 && c.dedupCorpus > 0 && env.h(seed, b, DUP_TAG) % 100 < c.dedupPercent
    then env.h(0, env.h(seed, b, DUP2_TAG) % c.dedupCorpus, CORPUS_TAG)
    else env.h(seed, b, DATA_TAG)
  }

  lemma MulMonotone(x: nat, y: nat, k: nat)
    ensures x <= y ==> x * k <= y * k
    ensures (x + 1) * k == x * k + k
  {
  }

  /** Quotient and remainder are settled by the multiple of bs below x. */
  lemma WithinBlock(b: nat, bs: nat, x: nat)
    requires bs >= 1 && b * bs <= x < b * bs + bs
    ensures x / bs == b && x % bs == x - b * bs
  {
    var q, r := x / bs, x % bs;
    assert x == q * bs + r;
    MulMonotone(q + 1, b, bs);
    MulMonotone(b + 1, q, bs);
    MulMonotone(q, b, bs);
    MulMonotone(b, q, bs);
  }

  lemma DivMonotone(a: nat, b: nat, k: nat)
    requires a <= b && k >= 1
    ensures a / k <= b / k
  {
    var p, q := a / k, b / k;
    assert a == p * k + a % k && b == q * k + b % k;
    MulMonotone(q + 1, p, k);
    MulMonotone(q, p, k);
  }

  lemma ScaleBound(x: nat, k: nat)
    requires k >= 1 && x <= k
    ensures x * 255 / k <= 255
  {
    DivMonotone(x * 255, k * 255, k);
    WithinBlock(255, k, k * 255);
  }

  /** A raw byte onto an alphabet of K values spread over 0..255. */
  function MapByte(v: Byte, K: nat): Byte
    requires K <= 256
  {
    if K <= 1 then 0 else
    ScaleBound(v % K, K - 1);
    (v % K) * 255 / (K - 1)
  }

  lemma DivStep(a: nat, k: nat)
    requires k >= 1
    ensures (a + k) / k == a / k + 1
  {
    var q := a / k;
    assert a == q * k + a % k;
    MulMonotone(q, q, k);
    WithinBlock(q + 1, k, a + k);
  }

  /** The alphabet has K different values, in order, from 0 to 255. */
  lemma AlphabetSpread(x: nat, y: nat, K: nat)
    requires 2 <= K <= 256 && x < y < K
    ensures MapByte(x, K) < MapByte(y, K)
    ensures MapByte(0, K) == 0 && MapByte(K - 1, K) == 255
  {
    var k := K - 1;
    DivStep(x * 255, k);
    DivMonotone(x * 255 + k, y * 255, k);
    ModSmall(x, K);
    ModSmall(y, K);
    ModSmall(k, K);
    ModSmall(0, K);
    WithinBlock(255, k, k * 255);
    WithinBlock(0, k, 0);
  }

  lemma ModSmall(x: nat, K: nat)
    requires x < K
    ensures x % K == x
  {
  }

  function Bs(c: Config): (n: nat)
    ensures n >= 1
  {
    if c.blockSize == 0 then 1 else c.blockSize
  }

  /** Byte o of a block, before mapping: byte o % 4 of the word of its group of sixteen. */
  function Raw(env: Env, src: nat, b: nat, o: nat): Byte {
    var out := env.word(Counter(b % TWO32, b / TWO32 % TWO32, o / 16), Key(src % TWO32, src / TWO32 % TWO32), o % 16 / 4);
    Shifted(out, o % 16 % 4)
  }

  function Shifted(w: nat, i: nat): Byte
    requires i < 4
  {
    w / (if i == 0 then 1 else if i == 1 then 0x100 else if i == 2 then 0x1_0000 else 0x100_0000) % 256
  }

  function BlockByte(env: Env, c: Config, K: nat, seed: nat, b: nat, o: nat): Byte
    requires K <= 256
  {
    if IsHole(env, c, seed, b) || c.blockSize == 0 then 0 else MapByte(Raw(env, BlockSrc(env, c, seed, b), b, o), K)
  }

  /** The file as one infinite byte function. */
  function ByteAt(env: Env, c: Config, K: nat, seed: nat, x: nat): Byte
    requires K <= 256
  {
    BlockByte(env, c, K, seed, x / Bs(c), x % Bs(c))
  }

  /** n bytes of the file from an offset on. */
  function Slice(env: Env, c: Config, K: nat, seed: nat, off: nat, n: nat): (s: Bytes)
    requires K <= 256
    ensures |s| == n
  {
    seq<Byte>(n, i requires 0 <= i < n => ByteAt(env, c, K, seed, off + i))
  }

  // ---- generating a block ----

  /** The block is a hole, or small enough for the offset counter. */
  predicate GenEnds(env: Env, c: Config, seed: nat, b: nat) {
    IsHole(env, c, seed, b) || c.blockSize <= TWO32 - 16
  }

  method GenBlock(env: Env, c: Config, K: nat, seed: nat, b: nat, buf: array<Byte>)
    requires K <= 256 && GenEnds(env, c, seed, b) && buf.Length == Bs(c)
    requires c.blockSize == 0 ==> buf[0] == 0
    modifies buf
    ensures forall o :: 0 <= o < buf.Length ==> buf[o] == BlockByte(env, c, K, seed, b, o)
  {
    var bs := c.blockSize;
    if IsHole(env, c, seed, b) {
      for i := 0 to bs
        invariant forall o :: 0 <= o < i ==> buf[o] == 0
        invariant bs == 0 ==> buf[0] == 0
      {
        buf[i] := 0;
      }
      return;
    }
    var src := BlockSrc(env, c, seed, b);
    var off, g := 0, 0;
    while off < bs
      invariant off == 16 * g && off <= bs + 15
      invariant forall o :: 0 <= o < off && o < bs ==> buf[o] == BlockByte(env, c, K, seed, b, o)
      invariant bs == 0 ==> buf[0] == 0
    {
      FillGroup(env, c, K, seed, b, src, g, buf);
      off := (off + 16) % TWO32;
      g := g + 1;
    }
  }

  /** Sixteen bytes, or what is left of the block, from one call of the generator. */
  method FillGroup(env: Env, c: Config, K: nat, seed: nat, b: nat, src: nat, g: nat, buf: array<Byte>)
    requires K <= 256 && 16 * g < c.blockSize == buf.Length && !IsHole(env, c, seed, b) && src == BlockSrc(env, c, seed, b)
    modifies buf
    ensures forall o :: 0 <= o < buf.Length ==>
      buf[o] == if 16 * g <= o < 16 * g + 16 then BlockByte(env, c, K, seed, b, o) else old(buf[o])
  {
    var off := 16 * g;
    var i := 0;
    while i < 16 && off + i < c.blockSize
      invariant 0 <= i <= 16 && off + i <= c.blockSize
      invariant forall o :: 0 <= o < buf.Length ==>
        buf[o] == if off <= o < off + i then BlockByte(env, c, K, seed, b, o) else old(buf[o])
    {
      var word := env.word(Counter(b % TWO32, b / TWO32 % TWO32, g), Key(src % TWO32, src / TWO32 % TWO32), i / 4);
      GroupOf(g, i);
      buf[off + i] := MapByte(Shifted(word, i % 4), K);
      i := i + 1;
    }
  }

  lemma GroupOf(g: nat, i: nat)
    requires i < 16
    ensures (16 * g + i) / 16 == g && (16 * g + i) % 16 == i
  {
  }

  /** The 32-bit offset counter after n groups. */
  function FillOffset(n: nat): nat {
    if n == 0 then 0 else (FillOffset(n - 1) + 16) % TWO32
  }

  lemma {:induction false} FillOffsetIs(n: nat)
    ensures FillOffset(n) == 16 * n % TWO32
    ensures FillOffset(n) <= TWO32 - 16
  {
    if n != 0 { FillOffsetIs(n - 1); }
  }

  /** The filling loop reaches the end of some block exactly when the block has at most 2^32 - 16 bytes;
      for a larger one its counter wraps to 0 for ever. */
  lemma FillEndsIff(bs: nat)
    ensures (exists n: nat :: FillOffset(n) >= bs) <==> bs <= TWO32 - 16
  {
    if bs <= TWO32 - 16 {
      FillOffsetIs((bs + 15) / 16);
    } else {
      forall n: nat { FillOffsetIs(n); }
    }
  }

  // ---- reading a range ----

  /** How many bytes a read of len at offset finds. */
  function Count(size: nat, off: nat, len: nat): nat {
    if off >= size then 0 else if len < size - off then len else size - off
  }

  /** The count as 64-bit arithmetic computes it. */
  function Count64(size: nat, off: nat, len: nat): nat {
    if off >= size || len == 0 then 0 else
    var e := (off + len) % TWO64;
    ((if e < size then e else size) - off) % TWO64
  }

  /** The computed count is right exactly when off + len does not wrap, or nothing is asked for. */
  lemma CountRightIff(size: nat, off: nat, len: nat)
    requires size < TWO64 && off < TWO64 && len < TWO64
    ensures Count64(size, off, len) == Count(size, off, len) <==> off >= size || len == 0 || off + len < TWO64
  {
    if off < size && len > 0 && off + len >= TWO64 {
      var e := off + len - TWO64;
      assert (off + len) % TWO64 == e && e < off;
      assert (e - off) % TWO64 == e - off + TWO64 == len;
    }
  }

  /** The longest read from offset 5 of a ten-byte file finds 5 bytes and would claim 2^64 - 1. */
  lemma WrappingRead()
    ensures Count(10, 5, TWO64 - 1) == 5 && Count64(10, 5, TWO64 - 1) == TWO64 - 1
  {
    assert (5 + (TWO64 - 1)) % TWO64 == 4 && (4 - 5) % TWO64 == TWO64 - 1;
  }

  function Min(x: nat, y: nat): nat {
    if x < y then x else y
  }

  /** Where the copy out of a block ends, as 64-bit arithmetic computes it. */
  function CopyEnd64(end: nat, bstart: nat, bs: nat): nat {
    Min(end, (bstart + bs) % TWO64)
  }

  /** The computed end of a copy is right exactly when the block's own end does not wrap. */
  lemma CopyEndRightIff(end: nat, bstart: nat, bs: nat)
    requires bs < TWO64 && bstart < end < TWO64
    ensures CopyEnd64(end, bstart, bs) == Min(end, bstart + bs) <==> bstart + bs < TWO64
  {
    if bstart + bs >= TWO64 { assert (bstart + bs) % TWO64 == bstart + bs - TWO64 < bstart; }
  }

  lemma CopyEndIs(end: nat, bstart: nat, bs: nat)
    requires bstart + bs < TWO64
    ensures CopyEnd64(end, bstart, bs) == if end < bstart + bs then end else bstart + bs
  {
  }

  /** The block that holds the last byte asked for ends within 64 bits. */
  predicate SpanFits(c: Config, end: nat)
    requires end > 0
  {
    (end - 1) / Bs(c) * Bs(c) + Bs(c) < TWO64
  }

  /** What the arithmetic of a read needs: nothing to do, or an end, a last block and blocks it can compute. */
  predicate Readable(env: Env, c: Config, seed: nat, size: nat, off: nat, len: nat) {
    off >= size || len == 0 ||
    (off + len < TWO64 && SpanFits(c, Min(off + len, size)) &&
     forall b :: off / Bs(c) <= b <= (Min(off + len, size) - 1) / Bs(c) ==> GenEnds(env, c, seed, b))
  }

  /** Fill out with the range at off, block by block. */
  method Read(env: Env, c: Config, K: nat, seed: nat, size: nat, off: nat, out: array<Byte>, len: nat) returns (n: nat)
    requires K <= 256 && len <= out.Length && size < TWO64 && Readable(env, c, seed, size, off, len)
    modifies out
    ensures n == Count(size, off, len)
    ensures out[..n] == Slice(env, c, K, seed, off, n)
    ensures out[n..] == old(out[n..])
  {
    if off >= size || len == 0 { return 0; }
    var end := Min((off + len) % TWO64, size);
    ghost var f := (x: nat) => ByteAt(env, c, K, seed, x);
    FileBlocks(env, c, K, seed, f);
    ReadSpan(env, c, K, seed, off, end, out, f);
    n := end - off;
    SpanIsSlice(env, c, K, seed, off, end, f, old(out[..]), out[..]);
  }

  method ReadSpan(env: Env, c: Config, K: nat, seed: nat, off: nat, end: nat, out: array<Byte>, ghost f: nat -> Byte)
    requires K <= 256 && off < end && end - off <= out.Length && FileIs(env, c, K, seed, f) && SpanFits(c, end)
    requires forall b :: off / Bs(c) <= b <= (end - 1) / Bs(c) ==> GenEnds(env, c, seed, b)
    modifies out
    ensures CopiedTo(f, off, end, old(out[..]), out[..])
  {
    var first := BlockOf(off, Bs(c));
    var last := BlockOf(end - 1, Bs(c));
    MulMonotone(last + 1, first, Bs(c));
    MulMonotone(last, first, Bs(c));
    ReadLoop(env, c, K, seed, off, end, first, last, out, f);
  }

  lemma SpanIsSlice(env: Env, c: Config, K: nat, seed: nat, off: nat, end: nat, f: nat -> Byte, before: Bytes, now: Bytes)
    requires K <= 256 && off <= end && end - off <= |before| && CopiedTo(f, off, end, before, now)
    requires forall x: nat :: f(x) == ByteAt(env, c, K, seed, x)
    ensures now[..end - off] == Slice(env, c, K, seed, off, end - off) && now[end - off..] == before[end - off..]
  {
  }

  lemma FileBlocks(env: Env, c: Config, K: nat, seed: nat, f: nat -> Byte)
    requires K <= 256 && forall x: nat :: f(x) == ByteAt(env, c, K, seed, x)
    ensures FileIs(env, c, K, seed, f)
  {
    forall b: nat, o: nat | o < Bs(c)
      ensures f(b * Bs(c) + o) == BlockByte(env, c, K, seed, b, o)
    {
      WithinBlock(b, Bs(c), b * Bs(c) + o);
    }
  }

  method BlockOf(x: nat, bs: nat) returns (b: nat)
    requires bs >= 1
    ensures b == x / bs && b * bs <= x < b * bs + bs
  {
    FirstBlock(x, bs);
    return x / bs;
  }

  /** f is the file, block by block. */
  ghost predicate FileIs(env: Env, c: Config, K: nat, seed: nat, f: nat -> Byte)
    requires K <= 256
  {
    forall b: nat, o: nat {:trigger BlockByte(env, c, K, seed, b, o)} ::
      o < Bs(c) ==> f(b * Bs(c) + o) == BlockByte(env, c, K, seed, b, o)
  }

  /** The blocks from the one that holds off to the one that holds end - 1. */
  method ReadLoop(env: Env, c: Config, K: nat, seed: nat, off: nat, end: nat, first: nat, last: nat, out: array<Byte>, ghost f: nat -> Byte)
    requires K <= 256 && off < end && end - off <= out.Length && FileIs(env, c, K, seed, f)
    requires last * Bs(c) + Bs(c) < TWO64 && forall b :: first <= b <= last ==> GenEnds(env, c, seed, b)
    requires first <= last && first * Bs(c) <= off < first * Bs(c) + Bs(c) && last * Bs(c) < end <= last * Bs(c) + Bs(c)
    modifies out
    ensures CopiedTo(f, off, end, old(out[..]), out[..])
  {
    var bs := Bs(c);
    var block := new Byte[bs](_ => 0);
    var b := first;
    ghost var at, done := b * bs, off;
    while b <= last
      invariant first <= b <= last + 1 && block.Length == bs && fresh(block) && (c.blockSize == 0 ==> block[0] == 0)
      invariant at == b * bs && off <= done <= end && (if b <= last then at <= done < at + bs else done == end)
      invariant b <= last ==> done == off || done == at
      invariant CopiedTo(f, off, done, old(out[..]), out[..])
      decreases last + 1 - b
    {
      BlockBounds(b, bs, end, last);
      done := ReadBlock(env, c, K, seed, b, off, end, block, out, f, done, old(out[..]));
      b, at := b + 1, at + bs;
    }
  }

  /** The bytes of the file from off to done are in place, and the rest is as it was. */
  ghost predicate CopiedTo(f: nat -> Byte, off: nat, done: nat, before: Bytes, now: Bytes) {
    |now| == |before| && forall i :: 0 <= i < |now| ==> now[i] == if i < done - off then f(off + i) else before[i]
  }

  /** Generate one block and copy the part of it that is asked for. */
  method ReadBlock(env: Env, c: Config, K: nat, seed: nat, b: nat, off: nat, end: nat, block: array<Byte>, out: array<Byte>,
                   ghost f: nat -> Byte, ghost done: nat, ghost before: Bytes) returns (ghost done': nat)
    requires K <= 256 && GenEnds(env, c, seed, b) && b * Bs(c) + Bs(c) < TWO64 && block != out && block.Length == Bs(c) && (c.blockSize == 0 ==> block[0] == 0)
    requires FileIs(env, c, K, seed, f) && end - off <= out.Length && CopiedTo(f, off, done, before, out[..])
    requires off <= done < end && b * Bs(c) <= done < b * Bs(c) + Bs(c) && (done == off || done == b * Bs(c))
    modifies block, out
    ensures c.blockSize == 0 ==> block[0] == 0
    ensures done' == if end < b * Bs(c) + Bs(c) then end else b * Bs(c) + Bs(c)
    ensures CopiedTo(f, off, done', before, out[..])
  {
    GenBlock(env, c, K, seed, b, block);
    var bstart := b * Bs(c);
    BlockIsFile(env, c, K, seed, f, b, bstart, block[..]);
    assert forall o :: 0 <= o < block.Length ==> block[o] == block[..][o];
    done' := CopyPart(f, off, end, bstart, block, out, done, before);
  }

  lemma BlockIsFile(env: Env, c: Config, K: nat, seed: nat, f: nat -> Byte, b: nat, bstart: nat, block: Bytes)
    requires K <= 256 && FileIs(env, c, K, seed, f) && |block| == Bs(c) && bstart == b * Bs(c)
    requires forall o :: 0 <= o < |block| ==> block[o] == BlockByte(env, c, K, seed, b, o)
    ensures forall o :: 0 <= o < |block| ==> block[o] == f(bstart + o)
  {
    forall o: nat | o < |block|
      ensures block[o] == f(bstart + o)
    {
      assert block[o] == BlockByte(env, c, K, seed, b, o);
    }
  }

  /** The part of a block that is asked for. */
  method CopyPart(ghost f: nat -> Byte, off: nat, end: nat, bstart: nat, block: array<Byte>, out: array<Byte>,
                  ghost done: nat, ghost before: Bytes) returns (ghost done': nat)
    requires block != out && end - off <= out.Length && CopiedTo(f, off, done, before, out[..])
    requires forall o :: 0 <= o < block.Length ==> block[o] == f(bstart + o)
    requires bstart + block.Length < TWO64
    requires off <= done < end && bstart <= done < bstart + block.Length && (done == off || done == bstart)
    modifies out
    ensures done' == if end < bstart + block.Length then end else bstart + block.Length
    ensures CopiedTo(f, off, done', before, out[..])
  {
    var s := if off < bstart then bstart else off;
    var e := CopyEnd64(end, bstart, block.Length);
    CopyEndIs(end, bstart, block.Length);
    CopyBlock(f, off, bstart, s, e, block, out);
    done' := e;
  }

  lemma FirstBlock(off: nat, bs: nat)
    requires bs >= 1
    ensures off / bs * bs <= off < off / bs * bs + bs
  {
    var q, r := off / bs, off % bs;
    assert off == q * bs + r;
  }

  /** Every block up to the last begins before the end, and only the last reaches it. */
  lemma BlockBounds(b: nat, bs: nat, end: nat, last: nat)
    requires b <= last && last * bs < end <= last * bs + bs
    ensures b * bs < end && (b + 1) * bs == b * bs + bs
    ensures b < last ==> b * bs + bs < end
    ensures b == last ==> end <= b * bs + bs
  {
    MulMonotone(b, last, bs);
    MulMonotone(b + 1, last, bs);
  }

  /** Copy bytes s to e of the file out of the block that holds them. */
  method CopyBlock(ghost f: nat -> Byte, off: nat, bstart: nat, s: nat, e: nat, block: array<Byte>, out: array<Byte>)
    requires block != out && off <= s <= e && e - off <= out.Length && bstart <= s && e <= bstart + block.Length
    requires forall o :: 0 <= o < block.Length ==> block[o] == f(bstart + o)
    modifies out
    ensures forall i :: 0 <= i < out.Length ==> out[i] == if s - off <= i < e - off then f(off + i) else old(out[i])
  {
    var x := s;
    while x < e
      invariant s <= x <= e
      invariant forall i :: 0 <= i < out.Length ==> out[i] == if s - off <= i < x - off then f(off + i) else old(out[i])
    {
      out[x - off] := block[x - bstart];
      assert off + (x - off) == bstart + (x - bstart);
      x := x + 1;
    }
  }

  // ---- random access ----

  /** What a read yields. */
  function ReadBytes(env: Env, c: Config, K: nat, seed: nat, size: nat, off: nat, len: nat): Bytes
    requires K <= 256
  {
    Slice(env, c, K, seed, off, Count(size, off, len))
  }

  /** Reads one after the other, of the given lengths. */
  function Chunks(env: Env, c: Config, K: nat, seed: nat, size: nat, off: nat, lens: seq<nat>): Bytes
    requires K <= 256
    decreases |lens|
  {
    if lens == [] then [] else
    ReadBytes(env, c, K, seed, size, off, lens[0]) + Chunks(env, c, K, seed, size, off + lens[0], lens[1..])
  }

  function SumOf(lens: seq<nat>): nat {
    if lens == [] then 0 else lens[0] + SumOf(lens[1..])
  }

  /** However a range is cut up, the pieces concatenate to the one-shot read. */
  lemma {:induction false} PartitionConcat(env: Env, c: Config, K: nat, seed: nat, size: nat, off: nat, lens: seq<nat>)
    requires K <= 256
    ensures Chunks(env, c, K, seed, size, off, lens) == ReadBytes(env, c, K, seed, size, off, SumOf(lens))
    decreases |lens|
  {
    if lens != [] {
      PartitionConcat(env, c, K, seed, size, off + lens[0], lens[1..]);
      SliceJoins(env, c, K, seed, off, Count(size, off, lens[0]), Count(size, off + lens[0], SumOf(lens[1..])));
    }
  }

  lemma SliceJoins(env: Env, c: Config, K: nat, seed: nat, off: nat, m: nat, n: nat)
    requires K <= 256
    ensures Slice(env, c, K, seed, off, m) + Slice(env, c, K, seed, off + m, n) == Slice(env, c, K, seed, off, m + n)
  {
  }

  /** A longer or an overlapping read sees the same byte at the same offset. */
  lemma OverlapAgrees(env: Env, c: Config, K: nat, seed: nat, size: nat, off: nat, len: nat, off': nat, len': nat, x: nat)
    requires K <= 256
    requires off <= x < off + Count(size, off, len) && off' <= x < off' + Count(size, off', len')
    ensures ReadBytes(env, c, K, seed, size, off, len)[x - off] == ReadBytes(env, c, K, seed, size, off', len')[x - off']
  {
  }

  // ---- allocation ----

  predicate IsData(env: Env, c: Config, seed: nat, x: nat) {
    !IsHole(env, c, seed, x / Bs(c))
  }

  /** How many offsets below n lie in a block that is not a hole. */
  function DataBytes(env: Env, c: Config, seed: nat, n: nat): nat {
    if n == 0 then 0 else DataBytes(env, c, seed, n - 1) + (if IsData(env, c, seed, n - 1) then 1 else 0)
  }

  function Ceil512(n: nat): nat {
    (n + 511) / 512
  }

  lemma {:induction false} DataInBlock(env: Env, c: Config, seed: nat, b: nat, n: nat)
    requires n <= Bs(c)
    ensures DataBytes(env, c, seed, b * Bs(c) + n) ==
      DataBytes(env, c, seed, b * Bs(c)) + (if IsHole(env, c, seed, b) then 0 else n)
    decreases n
  {
    if n != 0 {
      DataInBlock(env, c, seed, b, n - 1);
      WithinBlock(b, Bs(c), b * Bs(c) + n - 1);
    }
  }

  /** The number of blocks, as 64-bit arithmetic computes it. */
  function Blocks64(size: nat, bs: nat): nat
    requires bs >= 1
  {
    (size + bs - 1) % TWO64 / bs
  }

  /** What the 64-bit loop and division come to: no block at all when the block count wraps. */
  function Allocated64(size: nat, bs: nat, data: nat): nat {
    if size + bs - 1 >= TWO64 then 0 else (data + 511) % TWO64 / 512
  }

  method AllocatedBlocks(env: Env, c: Config, seed: nat, size: nat) returns (n: nat)
    requires size < TWO64 && c.blockSize < TWO32
    ensures n == Allocated64(size, Bs(c), DataBytes(env, c, seed, size))
  {
    if size == 0 { return 0; }
    var bs := Bs(c);
    var nblocks := Blocks64(size, bs);
    BlocksWrap(size, bs);
    var alloc := 0;
    FirstBlock(size + bs - 1, bs);
    var b := 0;
    while b < nblocks
      invariant 0 <= b <= nblocks
      invariant alloc == DataBytes(env, c, seed, if b * bs < size then b * bs else size)
    {
      BlocksWithin(b, bs, size, nblocks);
      var m := if bs < size - b * bs then bs else size - b * bs;
      DataInBlock(env, c, seed, b, m);
      if !IsHole(env, c, seed, b) { alloc := alloc + m; }
      b := b + 1;
    }
    if nblocks != 0 { assert nblocks * bs >= size; }
    n := (alloc + 511) % TWO64 / 512;
  }

  lemma BlocksWrap(size: nat, bs: nat)
    requires 0 < size < TWO64 && 1 <= bs < TWO32
    ensures Blocks64(size, bs) == if size + bs - 1 >= TWO64 then 0 else (size + bs - 1) / bs
    ensures size + bs - 1 < TWO64 ==> Blocks64(size, bs) >= 1
  {
    var x := size + bs - 1;
    if x >= TWO64 {
      assert x % TWO64 == x - TWO64 < bs;
      WithinBlock(0, bs, x - TWO64);
    } else {
      assert x % TWO64 == x;
      DivMonotone(bs, x, bs);
      WithinBlock(1, bs, bs);
    }
  }

  /** The allocation computed is the ceiling over 512 of what is allocated exactly when neither the block count nor
      the rounding wraps, or nothing is allocated at all. */
  lemma AllocatedRightIff(env: Env, c: Config, seed: nat, size: nat, data: nat)
    requires size < TWO64 && data == DataBytes(env, c, seed, size)
    ensures Allocated64(size, Bs(c), data) == Ceil512(data) <==> data == 0 || (size + Bs(c) - 1 < TWO64 && data + 511 < TWO64)
  {
    DataBounds(env, c, seed, 0, size);
    if data + 511 >= TWO64 {
      assert (data + 511) % TWO64 == data + 511 - TWO64 < 512;
      DivMonotone(512, data + 511, 512);
    } else {
      assert (data + 511) % TWO64 == data + 511;
    }
    if data != 0 { DivMonotone(512, data + 511, 512); }
  }

  lemma BlocksWithin(b: nat, bs: nat, size: nat, nblocks: nat)
    requires bs >= 1 && b < nblocks == (size + bs - 1) / bs
    ensures b * bs < size && (b + 1) * bs == b * bs + bs
  {
    FirstBlock(size + bs - 1, bs);
    assert (b + 1) * bs <= nblocks * bs;
  }

  lemma {:induction false} DataBounds(env: Env, c: Config, seed: nat, m: nat, n: nat)
    requires m <= n
    ensures DataBytes(env, c, seed, m) <= DataBytes(env, c, seed, n) <= DataBytes(env, c, seed, m) + (n - m)
    decreases n
  {
    if m < n { DataBounds(env, c, seed, m, n - 1); }
  }

  /** Allocation never shrinks as a file grows, and never exceeds the file's own size in blocks of 512. */
  lemma AllocationBounds(env: Env, c: Config, seed: nat, m: nat, n: nat)
    requires m <= n
    ensures Ceil512(DataBytes(env, c, seed, m)) <= Ceil512(DataBytes(env, c, seed, n)) <= Ceil512(n)
  {
    DataBounds(env, c, seed, m, n);
    DataBounds(env, c, seed, 0, n);
  }

  /** Whatever is not allocated reads as zero. */
  lemma HolesReadZero(env: Env, c: Config, K: nat, seed: nat, size: nat, off: nat, len: nat, x: nat)
    requires K <= 256 && off <= x < off + Count(size, off, len) && !IsData(env, c, seed, x)
    ensures ReadBytes(env, c, K, seed, size, off, len)[x - off] == 0
  {
    assert ReadBytes(env, c, K, seed, size, off, len)[x - off] == ByteAt(env, c, K, seed, off + (x - off));
  }

  /** A file that allocates nothing reads as zeros throughout. */
  lemma {:induction false} UnallocatedIsZero(env: Env, c: Config, K: nat, seed: nat, size: nat, x: nat)
    requires K <= 256 && x < size && Ceil512(DataBytes(env, c, seed, size)) == 0
    ensures ByteAt(env, c, K, seed, x) == 0
  {
    DataBounds(env, c, seed, x + 1, size);
    assert DataBytes(env, c, seed, size) == 0;
    assert DataBytes(env, c, seed, x + 1) == DataBytes(env, c, seed, x) + (if IsData(env, c, seed, x) then 1 else 0);
  }
}
