/** What one READDIR reply holds, and what its cookies and numbers are, as its client sees them. */
module ReplyLaws {
  import opened Keys
  import opened Options
  import opened FileSystem
  import opened Handles
  import opened Cursors
  import opened Laws
  import opened ReaddirBridge
  import Xdr

  /** "." is the directory. ".." is, in the same view, the container of the lowest id, when there is one: a directory
      that binds some name to this one; otherwise it is the directory too. */
  lemma DotDotIsContainer(fs: Fs, dir: Handle, n: Name, p: nat, ds: seq<DirEnt>)
    requires ds == Dots(fs, dir)
    ensures ds[..] == [DirEnt([46], 1, dir), DirEnt([46, 46], 2, ds[1].node)]
    ensures ds[1].node == dir || exists m :: Get(Seen(fs, dir).links, Edge(ds[1].node.id, m)) == Some(dir.id)
    ensures ds[1].node.snap == dir.snap
    ensures Get(Seen(fs, dir).links, Edge(p, n)) == Some(dir.id) ==>
      ds[1].node.id <= p && exists m :: Get(Seen(fs, dir).links, Edge(ds[1].node.id, m)) == Some(dir.id)
  {
    var ps := ParentHandles(fs, dir);
    if ps != [] { ParentsMeaning(fs, dir, ps[0], ps); }
    if Get(Seen(fs, dir).links, Edge(p, n)) == Some(dir.id) {
      ParentsMeaning(fs, dir, Handle(p, dir.snap), ps);
      var i :| 0 <= i < |ps| && ps[i] == Handle(p, dir.snap);
    }
  }

  /** An entry's cookie: the hash of its name with the top bit set, so that no entry's cookie is that of "." or "..". */
  lemma CookieMeaning(hash: Name -> nat, n: Name, m: Name)
    requires hash(n) < TWO64 && hash(m) < TWO64
    ensures TWO63 <= NameCookie(hash, n) < TWO64 && NameCookie(hash, n) > 2
    ensures NameCookie(hash, n) == (if hash(n) < TWO63 then hash(n) + TWO63 else hash(n))
    ensures NameCookie(hash, n) == NameCookie(hash, m) <==> hash(n) == hash(m) || hash(n) == hash(m) + TWO63 || hash(m) == hash(n) + TWO63
  {
  }

  /** The bytes of a name, up to a whole word. */
  function WordsFor(n: nat): nat {
    if n % 4 == 0 then n else n - n % 4 + 4
  }

  function SizeOnWire(name: Name, perEntry: nat): nat {
    24 + WordsFor(|name|) + perEntry
  }

  function SizesOnWire(es: seq<DirEnt>, perEntry: nat): nat {
    if es == [] then 0 else SizesOnWire(es[..|es| - 1], perEntry) + SizeOnWire(es[|es| - 1].name, perEntry)
  }

  lemma {:induction false} SizesAre(es: seq<DirEnt>, perEntry: nat)
    ensures TotalSize(es, perEntry) == SizesOnWire(es, perEntry)
    decreases |es|
  {
    if es != [] {
      var front, last := es[..|es| - 1], es[|es| - 1];
      SizesAre(front, perEntry);
      assert es == front + [last];
      TotalLast(front, last, perEntry);
    }
  }

  lemma {:induction false} TotalLast(front: seq<DirEnt>, last: DirEnt, perEntry: nat)
    ensures TotalSize(front + [last], perEntry) == TotalSize(front, perEntry) + SizeOnWire(last.name, perEntry)
    decreases |front|
  {
    if front == [] {
      assert front + [last] == [last] && [last][1..] == [];
    } else {
      TotalLast(front[1..], last, perEntry);
      assert (front + [last])[1..] == front[1..] + [last];
    }
  }

  /** A reply takes entries from the front of what is left while 128 bytes and they fit the budget, and no fewer: it is
      the end of the directory exactly when it takes them all, and else the next entry would not have fitted. */
  lemma ReplyMaximal(hash: Name -> nat, fs: Fs, dir: Handle, cache: Cache, cookie: nat, max: nat, perEntry: nat,
                     all: seq<DirEnt>, out: seq<DirEnt>, eof: bool)
    requires Remaining(hash, fs, dir, cache, cookie) == Some(all)
    requires ReplyTo(hash, fs, dir, cache, cookie, max, perEntry) == Listed(out, eof)
    ensures out <= all && (eof <==> out == all)
    ensures out != [] ==> 128 + SizesOnWire(out, perEntry) <= max
    ensures !eof ==> |out| < |all| && 128 + SizesOnWire(out, perEntry) + SizeOnWire(all[|out|].name, perEntry) > max
  {
    ServedMaximal(all, max, perEntry, out, eof);
  }

  lemma ServedMaximal(all: seq<DirEnt>, max: nat, perEntry: nat, out: seq<DirEnt>, eof: bool)
    requires Served(all, HEADER, max, perEntry) == Listed(out, eof)
    ensures out <= all && (eof <==> out == all)
    ensures out != [] ==> 128 + SizesOnWire(out, perEntry) <= max
    ensures !eof ==> |out| < |all| && 128 + SizesOnWire(out, perEntry) + SizeOnWire(all[|out|].name, perEntry) > max
  {
    FitMaximal(all, 128, max, perEntry, |out|);
    SizesAre(out, perEntry);
  }

  lemma {:induction false} FitMaximal(es: seq<DirEnt>, used: nat, max: nat, perEntry: nat, k: nat)
    requires k == Fit(es, used, max, perEntry)
    ensures k > 0 ==> used + TotalSize(es[..k], perEntry) <= max
    ensures k < |es| ==> used + TotalSize(es[..k], perEntry) + EntrySize(es[k].name, perEntry) > max
    decreases |es|
  {
    if k > 0 {
      FitMaximal(es[1..], used + EntrySize(es[0].name, perEntry), max, perEntry, k - 1);
      assert es[..k][1..] == es[1..][..k - 1];
    }
  }

  /** What is left, by cookie: both dots at 0, ".." at 1, neither from 2 on; then the directory from its start for a
      cookie below the entries', and behind the entry it stands for otherwise. */
  lemma RemainingMeans(hash: Name -> nat, fs: Fs, dir: Handle, cache: Cache, cookie: nat, all: seq<DirEnt>)
    requires Remaining(hash, fs, dir, cache, cookie) == Some(all)
    ensures cookie == 0 ==> |all| >= 2 && all[0].name == [46] && all[1].name == [46, 46]
    ensures cookie == 1 ==> |all| >= 1 && all[0].name == [46, 46]
    ensures cookie >= 2 ==> forall i :: 0 <= i < |all| ==> all[i].cookie >= TWO63
  {
  }

  /** Padding is zeros, up to a whole word and no further. */
  lemma PaddedWithZeros(s: Bytes, b: Bytes, i: nat)
    requires b == Xdr.Opaque(s) && i < |b|
    ensures |b| == 4 + WordsFor(|s|)
    ensures i >= 4 ==> b[i] == if i < 4 + |s| then s[i - 4] else 0
  {
  }

  /** Snapshot names are plain decimal: a digit by itself, and one more digit behind what is there. */
  lemma DecimalDigits(n: nat, d: nat)
    requires d < 10
    ensures Decimal(d) == [48 + d]
    ensures n >= 1 ==> Decimal(10 * n + d) == Decimal(n) + [48 + d]
  {
  }

  /** Reading them: digits only, at least one; each digit counts ten times what came before, modulo 2^64. */
  lemma ParsedDigits(s: Name, d: nat)
    requires d < 256
    ensures ParseSnap([]) == None
    ensures ParseSnap(s + [d]).Some? <==> (s == [] || ParseSnap(s).Some?) && 48 <= d < 58
    ensures ParseSnap(s + [d]).Some? ==> Fed(if s == [] then 0 else ParseSnap(s).value, d, ParseSnap(s + [d]).value)
  {
    var t := s + [d];
    DigitsJoin(s, d, t);
    if Digits(t) { ValueJoin(s, d, t); }
  }

  /** A number and a digit behind it, in 64 bits. */
  predicate Fed(x: nat, d: nat, y: nat) {
    d >= 48 && y == (x * 10 + (d - 48)) % TWO64
  }

  lemma ValueJoin(s: Name, d: nat, t: Name)
    requires d < 256 && t == s + [d] && Digits(t) && Digits(s)
    ensures Fed(Value(s), d, Value(t))
    ensures s == [] ==> Value(s) == 0
  {
    assert t[..|t| - 1] == s && t[|t| - 1] == d;
  }

  lemma DigitsJoin(s: Name, d: nat, t: Name)
    requires d < 256 && t == s + [d]
    ensures Digits(t) <==> Digits(s) && 48 <= d < 58
  {
    if Digits(t) {
      assert t[|s|] == d;
      forall i | 0 <= i < |s|
        ensures 48 <= s[i] < 58
      {
        assert t[i] == s[i];
      }
    }
  }
}
