/** Byte ranges as the lock table compares them: 64-bit arithmetic, all-ones length for "to the end of file". */
module LockRanges {
  import opened Keys

  const MAX64: nat := TWO64 - 1

  predicate IsU64(x: nat) {
    x <= MAX64
  }

  function End(off: nat, len: nat): nat {
    if len == MAX64 then MAX64 else (off + len) % TWO64
  }

  predicate Overlaps(aoff: nat, alen: nat, boff: nat, blen: nat) {
    aoff < End(boff, blen) && boff < End(aoff, alen)
  }

  /** Byte x lies in the range: at or after off, and before off + len unless the range runs to the end. */
  predicate HoldsByte(off: nat, len: nat, x: nat) {
    off <= x <= MAX64 && (len == MAX64 || x < off + len)
  }

  ghost predicate Share(aoff: nat, alen: nat, boff: nat, blen: nat) {
    exists x :: HoldsByte(aoff, alen, x) && HoldsByte(boff, blen, x)
  }

  /** A range that is neither empty nor past the last offset the comparison can tell apart. */
  predicate Sane(off: nat, len: nat) {
    if len == MAX64 then off < MAX64 else 0 < len && off + len < TWO64
  }

  /** On sane ranges the comparison means a shared byte. */
  lemma OverlapIsShare(aoff: nat, alen: nat, boff: nat, blen: nat)
    requires IsU64(alen) && IsU64(blen) && Sane(aoff, alen) && Sane(boff, blen)
    ensures Overlaps(aoff, alen, boff, blen) <==> Share(aoff, alen, boff, blen)
  {
    if Overlaps(aoff, alen, boff, blen) {
      var x := if aoff < boff then boff else aoff;
      assert HoldsByte(aoff, alen, x) && HoldsByte(boff, blen, x);
    }
  }

  ghost predicate ComparesRight(off: nat, len: nat) {
    forall o, l :: IsU64(o) && IsU64(l) && Sane(o, l) ==> (Overlaps(off, len, o, l) <==> Share(off, len, o, l))
  }

  /** A range compares right with every sane one exactly when it is sane itself, or is empty at either
      end of the file: an empty range inside a file is reported to overlap, a range that wraps or starts
      at the last offset is not. */
  lemma ComparesRightIff(off: nat, len: nat)
    requires IsU64(off) && IsU64(len)
    ensures ComparesRight(off, len) <==> Sane(off, len) || (len == 0 && (off == 0 || off == MAX64))
  {
    if Sane(off, len) {
      forall o, l | IsU64(o) && IsU64(l) && Sane(o, l)
        ensures Overlaps(off, len, o, l) <==> Share(off, len, o, l)
      {
        OverlapIsShare(off, len, o, l);
      }
    } else if len == 0 {
      if 0 < off < MAX64 {
        assert Sane(off - 1, 2) && Overlaps(off, len, off - 1, 2) && !Share(off, len, off - 1, 2);
      }
    } else if len == MAX64 {
      assert HoldsByte(off, len, MAX64) && HoldsByte(0, MAX64, MAX64);
      assert Sane(0, MAX64) && !Overlaps(off, len, 0, MAX64) && Share(off, len, 0, MAX64);
    } else {
      var e := End(off, len);
      assert e < off;
      assert HoldsByte(off, len, off) && HoldsByte(e, MAX64, off);
      assert Sane(e, MAX64) && !Overlaps(off, len, e, MAX64) && Share(off, len, e, MAX64);
    }
  }
}
