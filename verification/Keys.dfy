/** Byte strings in the engine's order, and the big-endian key encoding of the store. */
module Keys {

  type Byte = x: int | 0 <= x < 256
  type Bytes = seq<Byte>

  const TWO32: nat := 0x1_0000_0000
  const TWO64: nat := 0x1_0000_0000_0000_0000

  /** a and b agree before i, and there a ends or has the smaller byte. */
  predicate SplitAt(a: Bytes, b: Bytes, i: nat) {
    i <= |a| && i < |b| && a[..i] == b[..i] && (i == |a| || a[i] < b[i])
  }

  /** Strict lexicographic order on unsigned bytes: the order of a std::map keyed by strings. */
  predicate Less(a: Bytes, b: Bytes) {
    exists i :: 0 <= i <= |a| && SplitAt(a, b, i)
  }

  predicate Leq(a: Bytes, b: Bytes) {
    a == b || Less(a, b)
  }

  lemma LessIrreflexive(a: Bytes)
    ensures !Less(a, a)
  {
  }

  lemma LessTransitive(a: Bytes, b: Bytes, c: Bytes)
    requires Less(a, b) && Less(b, c)
    ensures Less(a, c)
  {
    var i :| 0 <= i <= |a| && SplitAt(a, b, i);
    var j :| 0 <= j <= |b| && SplitAt(b, c, j);
    var k := if i < j then i else j;
    assert a[..k] == a[..i][..k] == b[..i][..k] == b[..k] == b[..j][..k] == c[..j][..k] == c[..k];
    if i < j { assert b[i] == b[..j][i] == c[..j][i] == c[i]; }
    if j < i { assert a[j] == a[..i][j] == b[..i][j] == b[j]; }
    assert SplitAt(a, c, k);
  }

  lemma {:induction false} CommonPrefix(a: Bytes, b: Bytes, i: nat)
    requires i <= |a| && i <= |b| && a[..i] == b[..i]
    ensures Less(a, b) || a == b || Less(b, a)
    decreases |a| - i
  {
    if i == |a| && i == |b| {
      assert a == a[..i] && b == b[..i];
    } else if i == |a| || (i < |b| && a[i] < b[i]) {
      assert SplitAt(a, b, i);
    } else if i == |b| || b[i] < a[i] {
      assert SplitAt(b, a, i);
    } else {
      assert a[..i + 1] == a[..i] + [a[i]] && b[..i + 1] == b[..i] + [b[i]];
      CommonPrefix(a, b, i + 1);
    }
  }

  lemma LessTotal(a: Bytes, b: Bytes)
    ensures Less(a, b) || a == b || Less(b, a)
  {
    CommonPrefix(a, b, 0);
  }

  lemma LessAsymmetric(a: Bytes, b: Bytes)
    requires Less(a, b)
    ensures a != b && !Less(b, a)
  {
    LessIrreflexive(a);
    if Less(b, a) { LessTransitive(a, b, a); }
  }

  /** A shared head does not matter. */
  lemma LessTail(p: Bytes, s: Bytes, t: Bytes)
    ensures Less(p + s, p + t) <==> Less(s, t)
  {
    var n := |p|;
    if Less(p + s, p + t) {
      var i :| 0 <= i <= |p + s| && SplitAt(p + s, p + t, i);
      assert i >= n;
      assert s[..i - n] == (p + s)[..i][n..] && t[..i - n] == (p + t)[..i][n..];
      assert SplitAt(s, t, i - n);
    }
    if Less(s, t) {
      var i :| 0 <= i <= |s| && SplitAt(s, t, i);
      assert (p + s)[..n + i] == p + s[..i] && (p + t)[..n + i] == p + t[..i];
      assert SplitAt(p + s, p + t, n + i);
    }
  }

  /** Different heads of equal length decide. */
  lemma LessHead(p: Bytes, q: Bytes, s: Bytes, t: Bytes)
    requires |p| == |q| && Less(p, q)
    ensures Less(p + s, q + t)
  {
    var i :| 0 <= i <= |p| && SplitAt(p, q, i);
    assert (p + s)[..i] == p[..i] && (q + t)[..i] == q[..i];
    assert SplitAt(p + s, q + t, i);
  }

  /** With heads of equal length, the heads decide first and the tails break the tie. */
  lemma LessConcat(p: Bytes, q: Bytes, s: Bytes, t: Bytes)
    requires |p| == |q|
    ensures Less(p + s, q + t) <==> Less(p, q) || (p == q && Less(s, t))
  {
    LessTotal(p, q);
    if p == q {
      LessIrreflexive(p);
      LessTail(p, s, t);
    } else if Less(p, q) {
      LessHead(p, q, s, t);
    } else {
      LessHead(q, p, t, s);
      LessAsymmetric(q + t, p + s);
      LessAsymmetric(q, p);
    }
  }

  lemma CancelPrefix(p: Bytes, a: Bytes, b: Bytes)
    requires p + a == p + b
    ensures a == b
  {
    assert (p + a)[|p|..] == a && (p + b)[|p|..] == b;
  }

  /** A string never sorts below its own prefix. */
  lemma PrefixLeq(p: Bytes, s: Bytes)
    ensures Leq(p, p + s)
    ensures s != [] ==> Less(p, p + s)
  {
    if s == [] {
      assert p + s == p;
    } else {
      assert (p + s)[..|p|] == p == p[..|p|];
      assert SplitAt(p, p + s, |p|);
    }
  }

  /** The keys sharing a prefix are contiguous: whatever sorts between the prefix and such a key has it too. */
  lemma PrefixConvex(p: Bytes, x: Bytes, s: Bytes)
    requires Leq(p, x) && Leq(x, p + s)
    ensures p <= x
  {
    if x != p && x != p + s {
      var i :| 0 <= i <= |p| && SplitAt(p, x, i);
      var j :| 0 <= j <= |x| && SplitAt(x, p + s, j);
      assert p == p[..|p|];
    }
  }

  // ---- fixed-width big-endian integers ----

  function Pow256(n: nat): (r: nat)
    ensures r > 0
  {
    if n == 0 then 1 else 256 * Pow256(n - 1)
  }

  function BigEndian(x: nat, n: nat): (s: Bytes)
    requires x < Pow256(n)
    ensures |s| == n
  {
    if n == 0 then [] else BigEndian(x / 256, n - 1) + [x % 256]
  }

  function FromBigEndian(s: Bytes): (x: nat)
    ensures x < Pow256(|s|)
  {
    if |s| == 0 then 0 else 256 * FromBigEndian(s[..|s| - 1]) + s[|s| - 1]
  }

  lemma {:induction false} DecodeEncode(x: nat, n: nat)
    requires x < Pow256(n)
    ensures FromBigEndian(BigEndian(x, n)) == x
  {
    if n != 0 {
      DecodeEncode(x / 256, n - 1);
      assert BigEndian(x, n)[..n - 1] == BigEndian(x / 256, n - 1);
    }
  }

  lemma {:induction false} EncodeDecode(s: Bytes)
    ensures BigEndian(FromBigEndian(s), |s|) == s
  {
    if |s| != 0 {
      var init, last := s[..|s| - 1], s[|s| - 1];
      EncodeDecode(init);
      ShiftIn(FromBigEndian(init), last);
      assert BigEndian(FromBigEndian(s), |s|) == BigEndian(FromBigEndian(init), |init|) + [last];
      assert s == init + [last];
    }
  }

  lemma ShiftIn(x: nat, b: Byte)
    ensures (256 * x + b) / 256 == x && (256 * x + b) % 256 == b
  {
  }

  lemma ByteOrder(x: Byte, y: Byte)
    ensures Less([x], [y]) <==> x < y
  {
    assert [x][..0] == [y][..0] && [x][..1] == [x];
    if x < y { assert SplitAt([x], [y], 0); }
  }

  lemma {:induction false} BigEndianOrder(x: nat, y: nat, n: nat)
    requires x < Pow256(n) && y < Pow256(n)
    ensures Less(BigEndian(x, n), BigEndian(y, n)) <==> x < y
    ensures BigEndian(x, n) == BigEndian(y, n) <==> x == y
  {
    DecodeEncode(x, n);
    DecodeEncode(y, n);
    if n != 0 {
      BigEndianOrder(x / 256, y / 256, n - 1);
      ByteOrder(x % 256, y % 256);
      LessConcat(BigEndian(x / 256, n - 1), BigEndian(y / 256, n - 1), [x % 256], [y % 256]);
    }
  }

  lemma Pow256Eight()
    ensures Pow256(8) == TWO64
  {
    assert Pow256(4) == 0x1_0000_0000;
  }

  /** The store's eight-byte encoding. */
  function Be(x: nat): (s: Bytes)
    requires x < TWO64
    ensures |s| == 8
  {
    Pow256Eight();
    BigEndian(x, 8)
  }

  function Rdbe(s: Bytes): (x: nat)
    requires |s| == 8
    ensures x < TWO64
  {
    Pow256Eight();
    FromBigEndian(s)
  }

  /** rdbe inverts be, and the byte order of encodings is the numeric order. */
  lemma BeRoundTrip(x: nat)
    requires x < TWO64
    ensures Rdbe(Be(x)) == x
  {
    Pow256Eight();
    DecodeEncode(x, 8);
  }

  lemma RdbeRoundTrip(s: Bytes)
    requires |s| == 8
    ensures Be(Rdbe(s)) == s
  {
    Pow256Eight();
    EncodeDecode(s);
  }

  lemma BeOrder(x: nat, y: nat)
    requires x < TWO64 && y < TWO64
    ensures Less(Be(x), Be(y)) <==> x < y
    ensures Be(x) == Be(y) <==> x == y
  {
    Pow256Eight();
    BigEndianOrder(x, y, 8);
  }

  /** Keys that begin with an encoded integer sort by it, then by the rest. */
  lemma BeConcatOrder(x: nat, y: nat, s: Bytes, t: Bytes)
    requires x < TWO64 && y < TWO64
    ensures Less(Be(x) + s, Be(y) + t) <==> x < y || (x == y && Less(s, t))
  {
    BeOrder(x, y);
    LessConcat(Be(x), Be(y), s, t);
  }

  /** be() as the store computes it: bytes peeled off from the low end. */
  method EncodeBe(x: nat) returns (s: Bytes)
    requires x < TWO64
    ensures s == Be(x)
  {
    Pow256Eight();
    s := [];
    var rest: nat, i := x, 0;
    while i < 8
      invariant 0 <= i <= 8 && rest < Pow256(8 - i)
      invariant BigEndian(rest, 8 - i) + s == BigEndian(x, 8)
    {
      assert BigEndian(rest, 8 - i) == BigEndian(rest / 256, 8 - i - 1) + [rest % 256];
      s := [rest % 256] + s;
      rest := rest / 256;
      i := i + 1;
    }
  }

  /** rdbe() as the store computes it: shift in one byte after the other. */
  method DecodeBe(s: Bytes) returns (x: nat)
    requires |s| == 8
    ensures x == Rdbe(s)
  {
    x := 0;
    var i := 0;
    while i < 8
      invariant 0 <= i <= 8 && x == FromBigEndian(s[..i])
    {
      assert s[..i + 1][..i] == s[..i];
      x := 256 * x + s[i];
      i := i + 1;
    }
    assert s[..8] == s;
  }

  // ---- key sets in order ----

  ghost predicate InOrder(ks: seq<Bytes>, i: nat, j: nat) {
    i < j < |ks| ==> Less(ks[i], ks[j])
  }

  ghost predicate Ascending(ks: seq<Bytes>) {
    forall i: nat, j: nat :: InOrder(ks, i, j)
  }

  /** Least element of a non-empty key set. */
  lemma {:induction false} LeastExists(ks: set<Bytes>)
    requires ks != {}
    ensures exists k :: k in ks && forall x :: x in ks ==> Leq(k, x)
    decreases |ks|
  {
    var k :| k in ks;
    var rest := ks - {k};
    if rest == {} {
      assert ks == {k};
      assert Leq(k, k);
    } else {
      LeastExists(rest);
      var m :| m in rest && forall x :: x in rest ==> Leq(m, x);
      LessTotal(k, m);
      var best := if Less(k, m) then k else m;
      forall x | x in ks
        ensures Leq(best, x)
      {
        if x == k {
          assert Leq(best, k);
        } else {
          assert x in rest && Leq(m, x);
          if Less(k, m) && x != m { LessTransitive(k, m, x); }
        }
      }
    }
  }

  function Least(ks: set<Bytes>): (k: Bytes)
    requires ks != {}
    ensures k in ks && forall x :: x in ks ==> Leq(k, x)
  {
    LeastExists(ks);
    assert forall a, b | a in ks && b in ks && (forall x :: x in ks ==> Leq(a, x)) && (forall x :: x in ks ==> Leq(b, x)) ::
      a == b by {
      forall a, b | a in ks && b in ks && (forall x :: x in ks ==> Leq(a, x)) && (forall x :: x in ks ==> Leq(b, x))
        ensures a == b
      {
        if a != b { LessAsymmetric(a, b); }
      }
    }
    var k :| k in ks && forall x :: x in ks ==> Leq(k, x);
    k
  }

  /** The in-order traversal of a key set. */
  function Sorted(ks: set<Bytes>): (s: seq<Bytes>)
    ensures Ascending(s)
    ensures forall k :: k in s <==> k in ks
    ensures |s| == |ks|
    decreases |ks|
  {
    if ks == {} then [] else
    var k := Least(ks);
    var rest := Sorted(ks - {k});
    assert forall x | x in rest :: Less(k, x);
    assert Ascending([k] + rest) by {
      forall i: nat, j: nat
        ensures InOrder([k] + rest, i, j)
      {
        if 0 < i < j <= |rest| { assert InOrder(rest, i - 1, j - 1); }
      }
    }
    [k] + rest
  }

  lemma AscendingTail(a: seq<Bytes>)
    requires Ascending(a) && a != []
    ensures Ascending(a[1..])
  {
    forall i: nat, j: nat
      ensures InOrder(a[1..], i, j)
    {
      assert InOrder(a, i + 1, j + 1);
    }
  }

  /** An ascending sequence is determined by its elements. */
  lemma {:induction false} AscendingUnique(a: seq<Bytes>, b: seq<Bytes>)
    requires Ascending(a) && Ascending(b)
    requires forall k :: k in a <==> k in b
    ensures a == b
  {
    if b != [] { assert b[0] in b && b[0] in a; }
    if a == [] {
    } else {
      assert a[0] in a && a[0] in b;
      HeadLeast(a, b[0]);
      HeadLeast(b, a[0]);
      if a[0] != b[0] { LessAsymmetric(a[0], b[0]); }
      forall k
        ensures k in a[1..] <==> k in b[1..]
      {
        TailMembers(a, k);
        TailMembers(b, k);
      }
      AscendingTail(a);
      AscendingTail(b);
      AscendingUnique(a[1..], b[1..]);
      assert a == [a[0]] + a[1..] && b == [b[0]] + b[1..];
    }
  }

  lemma HeadLeast(a: seq<Bytes>, k: Bytes)
    requires Ascending(a) && k in a
    ensures Leq(a[0], k)
  {
    var i :| 0 <= i < |a| && a[i] == k;
    assert InOrder(a, 0, i);
  }

  lemma TailMembers(a: seq<Bytes>, k: Bytes)
    requires Ascending(a) && a != []
    ensures k in a[1..] <==> k in a && k != a[0]
  {
    LessIrreflexive(a[0]);
    if k in a && k != a[0] {
      var i :| 0 <= i < |a| && a[i] == k;
      assert a[1..][i - 1] == k;
    }
    if k in a[1..] {
      var i :| 0 <= i < |a| - 1 && a[1..][i] == k;
      assert InOrder(a, 0, i + 1);
    }
  }

  lemma SortedUnique(s: seq<Bytes>, ks: set<Bytes>)
    requires Ascending(s) && forall k :: k in s <==> k in ks
    ensures s == Sorted(ks)
  {
    AscendingUnique(s, Sorted(ks));
  }
}
