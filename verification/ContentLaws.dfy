/** What the content of files has in common and where it differs: shared blocks, holes, and the layout of a block. */
module ContentLaws {
  import opened Keys
  import opened Content

  /** A read finds the bytes asked for that lie below the size. */
  lemma CountMeaning(size: nat, off: nat, len: nat, x: nat)
    requires off <= x
    ensures x < off + Count(size, off, len) <==> x < size && x < off + len
  {
  }

  // ---- shared blocks ----

  /** The block draws on the shared corpus, when it is no hole. */
  predicate Duplicate(env: Env, c: Config, seed: nat, b: nat) {
    c.dedupPercent > 0 && c.dedupCorpus > 0 && env.h(seed, b, DUP_TAG) % 100 < c.dedupPercent
  }

  /** Two files' blocks of one index are both drawn from one slot of the corpus. */
  predicate SameSlot(env: Env, c: Config, s: nat, s': nat, b: nat) {
    && Duplicate(env, c, s, b) && Duplicate(env, c, s', b)
    && env.h(s, b, DUP2_TAG) % c.dedupCorpus == env.h(s', b, DUP2_TAG) % c.dedupCorpus
  }

  /** A range within one block, and within a file of the given size. */
  predicate InBlock(c: Config, b: nat, off: nat, len: nat, size: nat) {
    b * Bs(c) <= off && off + len <= b * Bs(c) + Bs(c) && off + len <= size
  }

  lemma InBlockAt(c: Config, b: nat, off: nat, len: nat, size: nat, i: nat)
    requires InBlock(c, b, off, len, size) && i < len
    ensures (off + i) / Bs(c) == b && (off + i) % Bs(c) == off + i - b * Bs(c)
  {
    WithinBlock(b, Bs(c), off + i);
  }

  /** Cross-file deduplication: blocks of one index drawn from one slot of the corpus read the same in every file, of
      whatever seeds and sizes. */
  lemma DuplicatesShare(env: Env, c: Config, K: nat, s: nat, s': nat, b: nat, off: nat, len: nat, size: nat, size': nat)
    requires K <= 256 && InBlock(c, b, off, len, size) && InBlock(c, b, off, len, size')
    requires SameSlot(env, c, s, s', b) && !IsHole(env, c, s, b) && !IsHole(env, c, s', b)
    ensures ReadBytes(env, c, K, s, size, off, len) == ReadBytes(env, c, K, s', size', off, len)
    ensures |ReadBytes(env, c, K, s, size, off, len)| == len
  {
    SameInBlock(env, c, K, s, s', b, off, len, size);
  }

  lemma SameInBlock(env: Env, c: Config, K: nat, s: nat, s': nat, b: nat, off: nat, len: nat, size: nat)
    requires K <= 256 && InBlock(c, b, off, len, size) && SameSlot(env, c, s, s', b)
    requires !IsHole(env, c, s, b) && !IsHole(env, c, s', b)
    ensures forall x :: off <= x < off + len ==> ByteAt(env, c, K, s, x) == ByteAt(env, c, K, s', x)
  {
    forall x: nat | off <= x < off + len
      ensures ByteAt(env, c, K, s, x) == ByteAt(env, c, K, s', x)
    {
      InBlockAt(c, b, off, len, size, x - off);
    }
  }

  /** Two hashes that agree on one file, but for the coordinates of the corpus. */
  ghost predicate AgreeOnFile(env: Env, env': Env, s: nat) {
    && (forall b {:trigger env.h(s, b, HOLE_TAG)} :: env.h(s, b, HOLE_TAG) == env'.h(s, b, HOLE_TAG))
    && (forall b {:trigger env.h(s, b, DATA_TAG)} :: env.h(s, b, DATA_TAG) == env'.h(s, b, DATA_TAG))
    && env.word == env'.word
  }

  /** Without duplicates a file's bytes depend on nothing but its own hashes for holes and data: not on the corpus, and
      not on what decides about duplicates. */
  lemma NoDuplicatesNoCorpus(env: Env, env': Env, c: Config, K: nat, s: nat, size: nat, off: nat, len: nat)
    requires K <= 256 && AgreeOnFile(env, env', s) && (c.dedupPercent == 0 || c.dedupCorpus == 0)
    ensures ReadBytes(env, c, K, s, size, off, len) == ReadBytes(env', c, K, s, size, off, len)
  {
    forall x: nat
      ensures ByteAt(env, c, K, s, x) == ByteAt(env', c, K, s, x)
    {
      var b := x / Bs(c);
      assert env.h(s, b, HOLE_TAG) == env'.h(s, b, HOLE_TAG) && env.h(s, b, DATA_TAG) == env'.h(s, b, DATA_TAG);
    }
  }

  // ---- how much is shared, how much is empty ----

  /** The percentages: none at 0, all from 100 on, and never fewer at a higher one. */
  lemma PercentagesMean(env: Env, c: Config, more: Config, s: nat, b: nat)
    requires c.sparsePercent <= more.sparsePercent && c.dedupPercent <= more.dedupPercent && c.dedupCorpus == more.dedupCorpus
    ensures c.sparsePercent == 0 ==> !IsHole(env, c, s, b)
    ensures c.sparsePercent >= 100 ==> IsHole(env, c, s, b)
    ensures IsHole(env, c, s, b) ==> IsHole(env, more, s, b)
    ensures c.dedupPercent == 0 || c.dedupCorpus == 0 ==> !Duplicate(env, c, s, b)
    ensures c.dedupPercent >= 100 && c.dedupCorpus > 0 ==> Duplicate(env, c, s, b)
    ensures Duplicate(env, c, s, b) ==> Duplicate(env, more, s, b)
  {
  }

  /** A hash that always leaves the same remainder. */
  function Always(r: nat): Env {
    Env((s: nat, b: nat, t: nat) => r, (ctr: Counter, key: Key, i: nat) => 0)
  }

  function Below(n: nat): (rs: set<nat>)
    ensures |rs| == n && forall r: nat :: r in rs <==> r < n
  {
    if n == 0 then {} else Below(n - 1) + {n - 1}
  }

  /** Of the hundred remainders of the hash, as many make a hole, or a duplicate, as the percentage says. */
  lemma RemaindersCounted(c: Config, s: nat, b: nat, holes: set<nat>, dups: set<nat>)
    requires forall r: nat :: r in holes <==> r < 100 && IsHole(Always(r), c, s, b)
    requires forall r: nat :: r in dups <==> r < 100 && Duplicate(Always(r), c, s, b)
    ensures |holes| == Min(c.sparsePercent, 100)
    ensures |dups| == if c.dedupCorpus == 0 then 0 else Min(c.dedupPercent, 100)
  {
    var p, q := Below(Min(c.sparsePercent, 100)), Below(if c.dedupCorpus == 0 then 0 else Min(c.dedupPercent, 100));
    forall r: nat
      ensures (r in holes <==> r in p) && (r in dups <==> r in q)
    {
      RemainderCounts(c, s, b, r);
    }
    assert holes == p && dups == q;
  }

  lemma RemainderCounts(c: Config, s: nat, b: nat, r: nat)
    ensures r < 100 && IsHole(Always(r), c, s, b) <==> r < Min(c.sparsePercent, 100)
    ensures r < 100 && Duplicate(Always(r), c, s, b) <==> r < if c.dedupCorpus == 0 then 0 else Min(c.dedupPercent, 100)
  {
  }

  // ---- the layout of a block ----

  /** With the full alphabet a byte stays as it is. */
  lemma FullAlphabet(v: Byte)
    ensures MapByte(v, 256) == v
  {
    WithinBlock(v, 255, v * 255);
  }

  /** An alphabet of K letters: a byte counts modulo K, and its letter is 255 times that over K - 1, rounded down. */
  lemma AlphabetFloor(v: Byte, K: nat, m: nat)
    requires K <= 256 && m == MapByte(v, K)
    ensures K <= 1 ==> m == 0
    ensures K >= 2 ==> m * (K - 1) <= v % K * 255 < m * (K - 1) + (K - 1)
  {
    if K >= 2 { FirstBlock(v % K * 255, K - 1); }
  }

  /** A word comes apart into its four bytes, the lowest first. */
  lemma ShiftedJoin(w: nat)
    requires w < TWO32
    ensures Join4(Shifted(w, 0), Shifted(w, 1), Shifted(w, 2), Shifted(w, 3)) == w
  {
    var q1, q2, q3 := w / 0x100, w / 0x1_0000, w / 0x100_0000;
    assert q2 == q1 / 0x100 && q3 == q2 / 0x100 && q3 < 0x100;
    assert w == w % 0x100 + 0x100 * q1 && q1 == q1 % 0x100 + 0x100 * q2 && q2 == q2 % 0x100 + 0x100 * q3;
  }

  function Join4(a: nat, b: nat, c: nat, d: nat): nat {
    a + 0x100 * (b + 0x100 * (c + 0x100 * d))
  }

  /** The source a block is drawn from: a corpus slot keyed on no file, or the block's own place in its file. */
  predicate DrawnFrom(env: Env, c: Config, s: nat, b: nat, src: nat) {
    if !Duplicate(env, c, s, b) then src == env.h(s, b, DATA_TAG)
    else src == env.h(0, env.h(s, b, DUP2_TAG) % c.dedupCorpus, CORPUS_TAG)
  }

  /** With the full alphabet, four bytes of a block that is no hole are one word of the generator, little-endian: words
      four to a call, calls numbered through the block, both halves of the block's index in the counter and both halves
      of its source in the key. */
  lemma WordsLaid(env: Env, c: Config, s: nat, b: nat, k: nat, src: nat, w: nat, x: nat)
    requires !IsHole(env, c, s, b) && 4 * k + 4 <= c.blockSize && b < TWO64 && src < TWO64 && DrawnFrom(env, c, s, b, src)
    requires w == env.word(Counter(b % TWO32, b / TWO32, k / 4), Key(src % TWO32, src / TWO32), k % 4) && w < TWO32
    requires x == b * c.blockSize + 4 * k
    ensures w == Join4(ByteAt(env, c, 256, s, x), ByteAt(env, c, 256, s, x + 1), ByteAt(env, c, 256, s, x + 2), ByteAt(env, c, 256, s, x + 3))
  {
    forall i: nat | i < 4
      ensures ByteAt(env, c, 256, s, x + i) == Shifted(w, i)
    {
      ByteLaid(env, c, s, b, k, i, src, w, x);
    }
    JoinOf(w, ByteAt(env, c, 256, s, x + 0), ByteAt(env, c, 256, s, x + 1), ByteAt(env, c, 256, s, x + 2), ByteAt(env, c, 256, s, x + 3));
  }

  lemma JoinOf(w: nat, b0: nat, b1: nat, b2: nat, b3: nat)
    requires w < TWO32 && b0 == Shifted(w, 0) && b1 == Shifted(w, 1) && b2 == Shifted(w, 2) && b3 == Shifted(w, 3)
    ensures w == Join4(b0, b1, b2, b3)
  {
    ShiftedJoin(w);
  }

  lemma ByteLaid(env: Env, c: Config, s: nat, b: nat, k: nat, i: nat, src: nat, w: nat, x: nat)
    requires !IsHole(env, c, s, b) && 4 * k + 4 <= c.blockSize && i < 4 && b < TWO64 && src < TWO64 && DrawnFrom(env, c, s, b, src)
    requires w == env.word(Counter(b % TWO32, b / TWO32, k / 4), Key(src % TWO32, src / TWO32), k % 4)
    requires x == b * c.blockSize + 4 * k
    ensures ByteAt(env, c, 256, s, x + i) == Shifted(w, i)
  {
    WithinBlock(b, c.blockSize, x + i);
    Coordinates(b, k, i);
    Coordinates(src, k, i);
    FullAlphabet(Shifted(w, i));
  }

  lemma Coordinates(x: nat, k: nat, i: nat)
    requires x < TWO64 && i < 4
    ensures x / TWO32 % TWO32 == x / TWO32
    ensures (4 * k + i) / 16 == k / 4 && (4 * k + i) % 16 / 4 == k % 4 && (4 * k + i) % 16 % 4 == i
  {
  }

  // ---- where content differs ----

  const SEEDED := Env((s: nat, b: nat, t: nat) => s, (ctr: Counter, key: Key, i: nat) => key.lo)
  const COUNTED := Env((s: nat, b: nat, t: nat) => 0, (ctr: Counter, key: Key, i: nat) => ctr.lo)

  /** Blocks of two files that are no duplicates can differ. */
  lemma FilesDiffer()
    ensures
      var c := Config(16, 0, 0, 0);
      && !Duplicate(SEEDED, c, 5, 0) && !Duplicate(SEEDED, c, 6, 0) && !IsHole(SEEDED, c, 5, 0) && !IsHole(SEEDED, c, 6, 0)
      && ReadBytes(SEEDED, c, 256, 5, 16, 0, 16) != ReadBytes(SEEDED, c, 256, 6, 16, 0, 16)
  {
    var c := Config(16, 0, 0, 0);
    FullAlphabet(5);
    FullAlphabet(6);
    assert ReadBytes(SEEDED, c, 256, 5, 16, 0, 16)[0] == 5 && ReadBytes(SEEDED, c, 256, 6, 16, 0, 16)[0] == 6;
  }

  /** The slot alone does not settle the content: under another index the same slot can read otherwise. */
  lemma SlotsDifferByIndex()
    ensures
      var c := Config(16, 0, 100, 1);
      && SameSlot(COUNTED, c, 0, 0, 0) && SameSlot(COUNTED, c, 0, 0, 1) && !IsHole(COUNTED, c, 0, 0) && !IsHole(COUNTED, c, 0, 1)
      && ReadBytes(COUNTED, c, 256, 0, 32, 0, 16) != ReadBytes(COUNTED, c, 256, 0, 32, 16, 16)
  {
    var c := Config(16, 0, 100, 1);
    CountedBytes(c);
    assert ReadBytes(COUNTED, c, 256, 0, 32, 0, 16)[0] == 0 && ReadBytes(COUNTED, c, 256, 0, 32, 16, 16)[0] == 1;
  }

  lemma CountedBytes(c: Config)
    requires c == Config(16, 0, 100, 1)
    ensures ByteAt(COUNTED, c, 256, 0, 0) == 0 && ByteAt(COUNTED, c, 256, 0, 16) == 1
  {
    FullAlphabet(0);
    FullAlphabet(1);
  }
}
