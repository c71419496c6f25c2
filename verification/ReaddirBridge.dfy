/**
 READDIR over the store's name cursor: opaque cookies, a bounded cookie cache with a scan behind it,
 and a byte budget per reply (sections 3.3.16 and 3.3.17 of RFC 1813).
 */
module ReaddirBridge {
  import opened Keys
  import opened Options
  import opened FileSystem
  import opened Handles
  import opened Cursors
  import PrfsStore

  const CK_DOT: nat := 1
  const CK_DOTDOT: nat := 2
  const CK_ENTRY: nat := TWO63
  const CK_CACHE_MAX: nat := 0x1_0000
  const HEADER: nat := 128

  type Cache = map<nat, Name>

  datatype DirEnt = DirEnt(name: Name, cookie: nat, node: Handle)

  /** The name's 64-bit hash with the top bit set. */
  function NameCookie(hash: Name -> nat, n: Name): nat {
    CK_ENTRY + hash(n) % CK_ENTRY
  }

  function Pad4(n: nat): nat {
    (n + 3) / 4 * 4
  }

  /** The bytes an entry takes: value-follows, fileid, length and padded name, cookie, and the fixed extra. */
  function EntrySize(name: Name, perEntry: nat): nat {
    4 + 8 + 4 + Pad4(|name|) + 8 + perEntry
  }

  function AsEnts(hash: Name -> nat, ds: seq<DirEntry>): (es: seq<DirEnt>)
    ensures |es| == |ds|
  {
    seq(|ds|, i requires 0 <= i < |ds| => DirEnt(ds[i].name, NameCookie(hash, ds[i].name), ds[i].node))
  }

  /** "." and "..": the directory, and its first container or itself. */
  function Dots(fs: Fs, dir: Handle): seq<DirEnt> {
    var ps := ParentHandles(fs, dir);
    [DirEnt([46], CK_DOT, dir), DirEnt([46, 46], CK_DOTDOT, if ps == [] then dir else ps[0])]
  }

  /** The synthesized entries a cookie is before. */
  function LeadFor(fs: Fs, dir: Handle, cookie: nat): seq<DirEnt> {
    if cookie < CK_DOTDOT then Dots(fs, dir)[cookie..] else []
  }

  /** Everything a full listing shows, in order. */
  function AllEnts(hash: Name -> nat, fs: Fs, dir: Handle): seq<DirEnt> {
    Dots(fs, dir) + AsEnts(hash, Rest(fs, dir, []))
  }

  /** The first entry with the cookie. */
  function FirstWith(hash: Name -> nat, ds: seq<DirEntry>, ck: nat): Option<Name> {
    if ds == [] then None
    else if NameCookie(hash, ds[0].name) == ck then Some(ds[0].name)
    else FirstWith(hash, ds[1..], ck)
  }

  /** Where a cookie resumes: the cache decides, and behind it the directory as it stands. */
  function Resume(hash: Name -> nat, fs: Fs, dir: Handle, cache: Cache, ck: nat): Option<Name> {
    if ck in cache then Some(cache[ck]) else FirstWith(hash, Rest(fs, dir, []), ck)
  }

  /** The name the store's entries are listed from: the first for a small cookie, else the one the cookie stands for. */
  function StartName(hash: Name -> nat, fs: Fs, dir: Handle, cache: Cache, cookie: nat): Option<Name> {
    if cookie < CK_ENTRY then Some([]) else Resume(hash, fs, dir, cache, cookie)
  }

  /** What is left to list from a cookie on; nothing for a cookie that cannot be resumed. */
  function Remaining(hash: Name -> nat, fs: Fs, dir: Handle, cache: Cache, cookie: nat): Option<seq<DirEnt>> {
    match StartName(hash, fs, dir, cache, cookie)
    case None => None
    case Some(after) => Some(LeadFor(fs, dir, cookie) + AsEnts(hash, Rest(fs, dir, after)))
  }

  /** How many entries a reply takes before the next one would exceed the budget. */
  function Fit(es: seq<DirEnt>, used: nat, max: nat, perEntry: nat): (k: nat)
    ensures k <= |es|
  {
    if es == [] || used + EntrySize(es[0].name, perEntry) > max then 0
    else 1 + Fit(es[1..], used + EntrySize(es[0].name, perEntry), max, perEntry)
  }

  function TotalSize(es: seq<DirEnt>, perEntry: nat): nat {
    if es == [] then 0 else EntrySize(es[0].name, perEntry) + TotalSize(es[1..], perEntry)
  }

  datatype Reply = BadCookie | Listed(out: seq<DirEnt>, eof: bool)

  function ReplyTo(hash: Name -> nat, fs: Fs, dir: Handle, cache: Cache, cookie: nat, max: nat, perEntry: nat): Reply {
    match Remaining(hash, fs, dir, cache, cookie)
    case None => BadCookie
    case Some(es) => Served(es, HEADER, max, perEntry)
  }

  /** As many entries as fit beside what is used already, and whether that is all of them. */
  function Served(es: seq<DirEnt>, used: nat, max: nat, perEntry: nat): Reply {
    var k := Fit(es, used, max, perEntry);
    Listed(es[..k], k == |es|)
  }

  // ---- the cache ----

  ghost predicate CacheOk(hash: Name -> nat, cache: Cache) {
    |cache| <= CK_CACHE_MAX && forall ck :: ck in cache ==> NameCookie(hash, cache[ck]) == ck
  }

  ghost predicate Lists(fs: Fs, dir: Handle, n: Name) {
    HasName(Readdir(fs, dir), n)
  }

  /** A cache that has changed by forgetting, and by names a directory lists. */
  ghost predicate Learns(cache: Cache, cache': Cache, fs: Fs, dir: Handle) {
    forall ck :: ck in cache' ==> (ck in cache && cache[ck] == cache'[ck]) || Lists(fs, dir, cache'[ck])
  }

  class Bridge {
    const hash: Name -> nat
    var ckName: Cache

    ghost predicate Valid()
      reads this
    {
      CacheOk(hash, ckName)
    }

    constructor (hash: Name -> nat)
      ensures Valid() && ckName == map[] && this.hash == hash
    {
      this.hash := hash;
      ckName := map[];
    }

    method RememberCookie(ck: nat, name: Name)
      requires Valid() && ck == NameCookie(hash, name)
      modifies this`ckName
      ensures Valid() && ckName == (if |old(ckName)| >= CK_CACHE_MAX then map[] else old(ckName))[ck := name]
    {
      if |ckName| >= CK_CACHE_MAX { ckName := map[]; }
      ckName := ckName[ck := name];
    }

    /** The name to go on after: a cache hit, or a scan in pages of 256 for an entry with the cookie. */
    method ResumeName(store: PrfsStore.PrfsStore, dir: Handle, ck: nat) returns (r: Option<Name>)
      requires Valid() && store.Valid() && dir.id < TWO64 && dir.snap < TWO64
      ensures r == Resume(hash, store.fs, dir, ckName, ck)
    {
      if ck in ckName { return Some(ckName[ck]); }
      var after: Name := [];
      ghost var fs := store.fs;
      assert fs.Cur() < LATEST;
      while true
        invariant FirstWith(hash, Rest(fs, dir, []), ck) == FirstWith(hash, Rest(fs, dir, after), ck)
        decreases |Rest(fs, dir, after)|
      {
        var pg := FetchPage(store, dir, after, 256);
        ghost var rest := Rest(fs, dir, after);
        var found := SearchPage(pg.entries, ck);
        if found.Some? {
          FirstWithAppend(hash, pg.entries, rest[|pg.entries|..], ck);
          assert rest == pg.entries + rest[|pg.entries|..];
          return found;
        }
        FirstWithAppend(hash, pg.entries, rest[|pg.entries|..], ck);
        assert rest == pg.entries + rest[|pg.entries|..];
        if pg.entries == [] || pg.eof {
          assert rest[|pg.entries|..] == [];
          return None;
        }
        RestResumes(fs, dir, after, 255, rest);
        after := pg.cookie;
      }
    }

    method SearchPage(ds: seq<DirEntry>, ck: nat) returns (r: Option<Name>)
      ensures r == FirstWith(hash, ds, ck)
    {
      var i := 0;
      while i < |ds|
        invariant 0 <= i <= |ds| && FirstWith(hash, ds, ck) == FirstWith(hash, ds[i..], ck)
      {
        if NameCookie(hash, ds[i].name) == ck { return Some(ds[i].name); }
        assert ds[i..][1..] == ds[i + 1..];
        i := i + 1;
      }
      return None;
    }

    /** Fill one reply from a cookie on, within maxBytes. */
    method PageDir(store: PrfsStore.PrfsStore, dir: Handle, cookie: nat, maxBytes: nat, perEntry: nat) returns (reply: Reply)
      requires Valid() && store.Valid() && dir.id < TWO64 && dir.snap < TWO64
      modifies this`ckName
      ensures Valid() && reply == ReplyTo(hash, store.fs, dir, old(ckName), cookie, maxBytes, perEntry)
      ensures Learns(old(ckName), ckName, store.fs, dir)
    {
      ghost var cache := ckName;
      var out, used, full := Synthesize(store, dir, cookie, maxBytes, perEntry);
      var more := BadCookie;
      if !full { more := GoOn(store, dir, cookie, used, maxBytes, perEntry); }
      reply := if full then Listed(out, false) else if more.BadCookie? then BadCookie else Listed(out + more.out, more.eof);
      Assembled(hash, store.fs, dir, cache, cookie, maxBytes, perEntry, out, used, full, more, reply);
    }

    /** The store's entries: from the first, or from behind the one the cookie stands for. */
    method GoOn(store: PrfsStore.PrfsStore, dir: Handle, cookie: nat, used: nat, maxBytes: nat, perEntry: nat)
        returns (reply: Reply)
      requires Valid() && store.Valid() && dir.id < TWO64 && dir.snap < TWO64
      modifies this`ckName
      ensures Valid() && reply == GoneOn(hash, store.fs, dir, old(ckName), cookie, used, maxBytes, perEntry)
      ensures Learns(old(ckName), ckName, store.fs, dir)
    {
      var after: Name := [];
      if cookie >= CK_ENTRY {
        var rn := ResumeName(store, dir, cookie);
        if rn.None? { return BadCookie; }
        after := rn.value;
      }
      var more, eof := FillFrom(store, dir, after, used, maxBytes, perEntry);
      reply := Listed(more, eof);
    }

    /** "." and ".." for the cookies before them. */
    method Synthesize(store: PrfsStore.PrfsStore, dir: Handle, cookie: nat, maxBytes: nat, perEntry: nat)
        returns (out: seq<DirEnt>, used: nat, full: bool)
      requires store.Valid() && dir.id < TWO64 && dir.snap < TWO64
      ensures
        var lead := LeadFor(store.fs, dir, cookie);
        var k := Fit(lead, HEADER, maxBytes, perEntry);
        out == lead[..k] && (full <==> k < |lead|) && (!full ==> used == HEADER + TotalSize(lead, perEntry))
    {
      out, used, full := [], HEADER, false;
      if cookie < CK_DOT {
        if used + EntrySize([46], perEntry) > maxBytes {
          full := true;
          return;
        }
        used := used + EntrySize([46], perEntry);
        out := out + [DirEnt([46], CK_DOT, dir)];
      }
      if cookie < CK_DOTDOT {
        if used + EntrySize([46, 46], perEntry) > maxBytes {
          full := true;
          DotsFit(store.fs, dir, cookie, maxBytes, perEntry);
          return;
        }
        used := used + EntrySize([46, 46], perEntry);
        var ps := store.Parents(dir);
        out := out + [DirEnt([46, 46], CK_DOTDOT, if ps == [] then dir else ps[0])];
        DotsFit(store.fs, dir, cookie, maxBytes, perEntry);
      }
    }

    /** Store entries after a name, in pages of 512, until the budget or the directory is used up. */
    method FillFrom(store: PrfsStore.PrfsStore, dir: Handle, start: Name, used0: nat, maxBytes: nat, perEntry: nat)
        returns (out: seq<DirEnt>, eof: bool)
      requires Valid() && store.Valid() && dir.id < TWO64 && dir.snap < TWO64
      modifies this`ckName
      ensures Valid() && Learns(old(ckName), ckName, store.fs, dir)
      ensures
        var es := AsEnts(hash, Rest(store.fs, dir, start));
        var k := Fit(es, used0, maxBytes, perEntry);
        out == es[..k] && (eof <==> k == |es|)
    {
      ghost var fs := store.fs;
      ghost var rest := Rest(fs, dir, start);
      ghost var all := AsEnts(hash, rest);
      var after, used := start, used0;
      out := [];
      while true
        invariant Valid() && Learns(old(ckName), ckName, fs, dir)
        invariant rest == Rest(fs, dir, after) && Filled(all, out, AsEnts(hash, rest), used0, used, maxBytes, perEntry)
        decreases |rest|
      {
        ghost var before := ckName;
        var more, eof', full;
        more, used, after, full, eof', rest := FillPage(store, dir, after, used0, used, maxBytes, perEntry, all, out, rest);
        out := out + more;
        LearnsOn(old(ckName), before, ckName, fs, dir);
        if full || eof' { return out, !full; }
      }
    }

    /** One page of the store's entries, as far as the budget allows. */
    method FillPage(store: PrfsStore.PrfsStore, dir: Handle, after: Name, ghost used0: nat, used: nat, maxBytes: nat, perEntry: nat,
                    ghost all: seq<DirEnt>, ghost out: seq<DirEnt>, ghost rest: seq<DirEntry>)
        returns (more: seq<DirEnt>, used': nat, after': Name, full: bool, eof: bool, ghost rest': seq<DirEntry>)
      requires Valid() && store.Valid() && dir.id < TWO64 && dir.snap < TWO64
      requires rest == Rest(store.fs, dir, after) && Filled(all, out, AsEnts(hash, rest), used0, used, maxBytes, perEntry)
      modifies this`ckName
      ensures Valid() && Learns(old(ckName), ckName, store.fs, dir)
      ensures Stepped(all, out + more, used0, maxBytes, perEntry, full, eof)
      ensures !full && !eof ==> rest' == Rest(store.fs, dir, after') && |rest'| < |rest|
      ensures !full && !eof ==> Filled(all, out + more, AsEnts(hash, rest'), used0, used', maxBytes, perEntry)
    {
      var pg := FetchPage(store, dir, after, 512);
      more, used', full := TakePage(pg.entries, used, maxBytes, perEntry);
      after' := pg.cookie;
      eof := pg.entries == [] || pg.eof;
      rest' := rest[|pg.entries|..];
      PageLearns(old(ckName), ckName, store.fs, dir, after, rest, pg);
      PageSplits(hash, rest, pg);
      PageTaken(all, out, AsEnts(hash, pg.entries), AsEnts(hash, rest'), used0, used, maxBytes, perEntry, more, used', full, eof);
      if !pg.eof { NextRest(store.fs, dir, after, rest, pg); }
    }

    function EntOf(d: DirEntry): DirEnt {
      DirEnt(d.name, NameCookie(hash, d.name), d.node)
    }

    method TakePage(ds: seq<DirEntry>, used0: nat, maxBytes: nat, perEntry: nat)
        returns (out: seq<DirEnt>, used: nat, full: bool)
      requires Valid()
      modifies this`ckName
      ensures Valid() && LearnsFrom(old(ckName), ckName, ds)
      ensures
        var es := AsEnts(hash, ds);
        var k := Fit(es, used0, maxBytes, perEntry);
        out == es[..k] && (full <==> k < |es|) && (!full ==> used == used0 + TotalSize(es, perEntry))
    {
      ghost var es := AsEnts(hash, ds);
      out, used, full := [], used0, false;
      var i := 0;
      while i < |ds|
        invariant 0 <= i <= |ds| && Valid() && !full && out == es[..i] && LearnsFrom(old(ckName), ckName, ds)
        invariant TakenTo(es, i, used0, used, maxBytes, perEntry)
      {
        TakeOne(es, i, used0, used, maxBytes, perEntry);
        var e, now := Offer(ds[i], used, maxBytes, perEntry, ds, old(ckName));
        if now > maxBytes {
          full := true;
          return;
        }
        used := now;
        out := out + [e];
        i := i + 1;
      }
      TakenAll(es, used0, used, maxBytes, perEntry);
    }

    /** Remember an entry's cookie, if the entry still fits. */
    method Offer(d: DirEntry, used: nat, maxBytes: nat, perEntry: nat, ghost ds: seq<DirEntry>, ghost before: Cache)
        returns (e: DirEnt, now: nat)
      requires Valid() && d in ds && LearnsFrom(before, ckName, ds)
      modifies this`ckName
      ensures Valid() && e == EntOf(d) && now == used + EntrySize(d.name, perEntry) && LearnsFrom(before, ckName, ds)
    {
      e := EntOf(d);
      now := used + EntrySize(d.name, perEntry);
      if now <= maxBytes { RememberCookie(e.cookie, e.name); }
    }
  }

  /** The first i entries have been taken, and what fits of the rest is still to be seen. */
  ghost predicate TakenTo(es: seq<DirEnt>, i: nat, used0: nat, used: nat, max: nat, perEntry: nat) {
    && i <= |es|
    && Fit(es, used0, max, perEntry) == i + Fit(es[i..], used, max, perEntry)
    && used0 + TotalSize(es, perEntry) == used + TotalSize(es[i..], perEntry)
  }

  lemma TakeOne(es: seq<DirEnt>, i: nat, used0: nat, used: nat, max: nat, perEntry: nat)
    requires i < |es| && TakenTo(es, i, used0, used, max, perEntry)
    ensures var next := used + EntrySize(es[i].name, perEntry);
      if next > max then Fit(es, used0, max, perEntry) == i else TakenTo(es, i + 1, used0, next, max, perEntry)
    ensures es[..i + 1] == es[..i] + [es[i]]
  {
    assert es[i..][0] == es[i] && es[i..][1..] == es[i + 1..];
  }

  lemma TakenAll(es: seq<DirEnt>, used0: nat, used: nat, max: nat, perEntry: nat)
    requires TakenTo(es, |es|, used0, used, max, perEntry)
    ensures Fit(es, used0, max, perEntry) == |es| && used == used0 + TotalSize(es, perEntry) && es[..|es|] == es
  {
    assert es[|es|..] == [];
  }

  /** The first max entries of the rest, or all of it. */
  ghost predicate IsPage(pg: DirPage, rest: seq<DirEntry>, max: nat) {
    && |pg.entries| == (if pg.eof then |rest| else max) <= |rest| && (!pg.eof ==> max < |rest|)
    && pg.entries == rest[..|pg.entries|]
    && (pg.entries != [] ==> pg.cookie == pg.entries[|pg.entries| - 1].name)
  }

  /** One readdirPage call. */
  method FetchPage(store: PrfsStore.PrfsStore, dir: Handle, after: Name, max: nat) returns (pg: DirPage)
    requires store.Valid() && dir.id < TWO64 && dir.snap < TWO64
    ensures IsPage(pg, Rest(store.fs, dir, after), max) && store.fs.Cur() < LATEST
  {
    pg := store.ReaddirPage(dir, after, max);
    PageOfRest(store.fs, dir, after, max);
  }

  ghost predicate LearnsFrom(cache: Cache, cache': Cache, ds: seq<DirEntry>) {
    forall ck :: ck in cache' ==> (ck in cache && cache[ck] == cache'[ck]) || HasName(ds, cache'[ck])
  }

  lemma LearnsOn(cache: Cache, before: Cache, now: Cache, fs: Fs, dir: Handle)
    requires Learns(cache, before, fs, dir) && Learns(before, now, fs, dir)
    ensures Learns(cache, now, fs, dir)
  {
  }

  /** What a page teaches is listed by the directory. */
  lemma PageLearns(cache: Cache, now: Cache, fs: Fs, dir: Handle, after: Name, rest: seq<DirEntry>, pg: DirPage)
    requires fs.Cur() < LATEST && rest == Rest(fs, dir, after) && IsPage(pg, rest, 512) && LearnsFrom(cache, now, pg.entries)
    ensures Learns(cache, now, fs, dir)
  {
    forall n | HasName(pg.entries, n)
      ensures Lists(fs, dir, n)
    {
      var d :| d in pg.entries && d.name == n;
      assert d in rest;
      RestMember(fs, dir, after, d);
    }
  }

  lemma {:induction false} FirstWithAppend(hash: Name -> nat, a: seq<DirEntry>, b: seq<DirEntry>, ck: nat)
    ensures FirstWith(hash, a + b, ck) == if FirstWith(hash, a, ck).Some? then FirstWith(hash, a, ck) else FirstWith(hash, b, ck)
  {
    if a == [] {
      assert a + b == b;
    } else {
      FirstWithAppend(hash, a[1..], b, ck);
      assert (a + b)[1..] == a[1..] + b;
    }
  }

  lemma {:induction false} FitAppend(a: seq<DirEnt>, b: seq<DirEnt>, used: nat, max: nat, perEntry: nat)
    ensures Fit(a + b, used, max, perEntry) ==
      if Fit(a, used, max, perEntry) < |a| then Fit(a, used, max, perEntry)
      else |a| + Fit(b, used + TotalSize(a, perEntry), max, perEntry)
  {
    if a == [] {
      assert a + b == b;
    } else {
      FitAppend(a[1..], b, used + EntrySize(a[0].name, perEntry), max, perEntry);
      assert (a + b)[1..] == a[1..] + b;
    }
  }

  lemma FitOne(e: DirEnt, used: nat, max: nat, perEntry: nat)
    ensures Fit([e], used, max, perEntry) == if used + EntrySize(e.name, perEntry) > max then 0 else 1
    ensures TotalSize([e], perEntry) == EntrySize(e.name, perEntry)
  {
    assert [e][1..] == [];
  }

  lemma DotsFit(fs: Fs, dir: Handle, cookie: nat, max: nat, perEntry: nat)
    requires cookie < CK_DOTDOT
    ensures
      var lead := LeadFor(fs, dir, cookie);
      var a, b := EntrySize([46], perEntry), EntrySize([46, 46], perEntry);
      && Fit(lead, HEADER, max, perEntry) ==
        (if cookie == 0 then (if HEADER + a > max then 0 else if HEADER + a + b > max then 1 else 2)
         else if HEADER + b > max then 0 else 1)
      && TotalSize(lead, perEntry) == if cookie == 0 then a + b else b
  {
    var d, e := Dots(fs, dir)[0], Dots(fs, dir)[1];
    var a := EntrySize([46], perEntry);
    FitOne(e, HEADER, max, perEntry);
    FitOne(e, HEADER + a, max, perEntry);
    if cookie == 0 {
      assert LeadFor(fs, dir, cookie) == [d, e] && [d, e][1..] == [e];
    } else {
      assert LeadFor(fs, dir, cookie) == [e];
    }
  }

  /** What follows the synthesized entries. */
  function GoneOn(hash: Name -> nat, fs: Fs, dir: Handle, cache: Cache, cookie: nat, used: nat, max: nat, perEntry: nat): Reply {
    match StartName(hash, fs, dir, cache, cookie)
    case None => BadCookie
    case Some(after) => Served(AsEnts(hash, Rest(fs, dir, after)), used, max, perEntry)
  }

  /** A reply that ends in the first part. */
  lemma CutInLead(lead: seq<DirEnt>, es: seq<DirEnt>, used: nat, max: nat, perEntry: nat, k: nat)
    requires k == Fit(lead, used, max, perEntry) < |lead|
    ensures Served(lead + es, used, max, perEntry) == Listed(lead[..k], false)
  {
    FitAppend(lead, es, used, max, perEntry);
    assert (lead + es)[..k] == lead[..k];
  }

  /** A reply that takes all of it and goes on into the second. */
  lemma CutAfterLead(lead: seq<DirEnt>, es: seq<DirEnt>, used: nat, max: nat, perEntry: nat, m: nat)
    requires Fit(lead, used, max, perEntry) == |lead|
    requires m == Fit(es, used + TotalSize(lead, perEntry), max, perEntry)
    ensures Fit(lead + es, used, max, perEntry) == |lead| + m && (lead + es)[..|lead| + m] == lead + es[..m]
  {
    FitAppend(lead, es, used, max, perEntry);
  }

  /** The two parts of a reply, put together. */
  lemma AssembledFrom(lead: seq<DirEnt>, es: Option<seq<DirEnt>>, max: nat, perEntry: nat, k: nat,
                      out: seq<DirEnt>, used: nat, full: bool, more: Reply, reply: Reply)
    requires k == Fit(lead, HEADER, max, perEntry) && (es.None? ==> lead == [])
    requires out == lead[..k] && (full <==> k < |lead|) && (!full ==> used == HEADER + TotalSize(lead, perEntry))
    requires !full ==> more == if es.None? then BadCookie else Served(es.value, used, max, perEntry)
    requires reply == if full then Listed(out, false) else if more.BadCookie? then BadCookie else Listed(out + more.out, more.eof)
    ensures reply == if es.None? then BadCookie else Served(lead + es.value, HEADER, max, perEntry)
  {
    if es.Some? {
      if full {
        CutInLead(lead, es.value, HEADER, max, perEntry, k);
      } else {
        var m := Fit(es.value, used, max, perEntry);
        CutAfterLead(lead, es.value, HEADER, max, perEntry, m);
        assert out == lead && more == Listed(es.value[..m], m == |es.value|);
        assert Served(lead + es.value, HEADER, max, perEntry) == Listed(lead + es.value[..m], m == |es.value|);
      }
    }
  }

  lemma Assembled(hash: Name -> nat, fs: Fs, dir: Handle, cache: Cache, cookie: nat, max: nat, perEntry: nat,
                  out: seq<DirEnt>, used: nat, full: bool, more: Reply, reply: Reply)
    requires
      var lead := LeadFor(fs, dir, cookie);
      var k := Fit(lead, HEADER, max, perEntry);
      out == lead[..k] && (full <==> k < |lead|) && (!full ==> used == HEADER + TotalSize(lead, perEntry))
    requires !full ==> more == GoneOn(hash, fs, dir, cache, cookie, used, max, perEntry)
    requires reply == if full then Listed(out, false) else if more.BadCookie? then BadCookie else Listed(out + more.out, more.eof)
    ensures reply == ReplyTo(hash, fs, dir, cache, cookie, max, perEntry)
  {
    var after := StartName(hash, fs, dir, cache, cookie);
    var lead := LeadFor(fs, dir, cookie);
    var es := if after.None? then None else Some(AsEnts(hash, Rest(fs, dir, after.value)));
    AssembledFrom(lead, es, max, perEntry, Fit(lead, HEADER, max, perEntry), out, used, full, more, reply);
  }

  /** So far out has been taken off the front of all, and es is still to be fitted. */
  ghost predicate Filled(all: seq<DirEnt>, out: seq<DirEnt>, es: seq<DirEnt>, used0: nat, used: nat, max: nat, perEntry: nat) {
    all == out + es && Fit(all, used0, max, perEntry) == |out| + Fit(es, used, max, perEntry)
  }

  /** A page splits what is left into itself and what lies behind it. */
  lemma PageSplits(hash: Name -> nat, rest: seq<DirEntry>, pg: DirPage)
    requires IsPage(pg, rest, 512)
    ensures AsEnts(hash, rest) == AsEnts(hash, pg.entries) + AsEnts(hash, rest[|pg.entries|..])
  {
  }

  lemma NextRest(fs: Fs, dir: Handle, after: Name, rest: seq<DirEntry>, pg: DirPage)
    requires rest == Rest(fs, dir, after) && IsPage(pg, rest, 512) && !pg.eof && fs.Cur() < LATEST
    ensures Rest(fs, dir, pg.cookie) == rest[|pg.entries|..]
  {
    RestResumes(fs, dir, after, 511, rest);
  }

  /** The budget runs out within a page. */
  lemma TakeCut(all: seq<DirEnt>, out: seq<DirEnt>, page: seq<DirEnt>, back: seq<DirEnt>, used0: nat, used: nat,
                max: nat, perEntry: nat, k: nat)
    requires Filled(all, out, page + back, used0, used, max, perEntry) && k == Fit(page, used, max, perEntry) < |page|
    ensures |out| + k == Fit(all, used0, max, perEntry) < |all| && out + page[..k] == all[..|out| + k]
  {
    FitAppend(page, back, used, max, perEntry);
    PrefixOfSum(out, page, back, k);
  }

  /** A page fits as a whole. */
  lemma TakeWhole(all: seq<DirEnt>, out: seq<DirEnt>, page: seq<DirEnt>, back: seq<DirEnt>, used0: nat, used: nat,
                  max: nat, perEntry: nat, more: seq<DirEnt>)
    requires Filled(all, out, page + back, used0, used, max, perEntry)
    requires var k := Fit(page, used, max, perEntry); k == |page| && more == page[..k]
    ensures Filled(all, out + more, back, used0, used + TotalSize(page, perEntry), max, perEntry)
  {
    FitAppend(page, back, used, max, perEntry);
    SumRegroups(out, page, back);
  }

  lemma FilledAll(all: seq<DirEnt>, out: seq<DirEnt>, back: seq<DirEnt>, used0: nat, used: nat, max: nat, perEntry: nat)
    requires Filled(all, out, back, used0, used, max, perEntry) && back == []
    ensures out == all[..Fit(all, used0, max, perEntry)] && Fit(all, used0, max, perEntry) == |all|
  {
    assert all[..|all|] == all;
  }

  /** After a page: the budget ran out, or the directory did, or neither. */
  ghost predicate Stepped(all: seq<DirEnt>, out: seq<DirEnt>, used0: nat, max: nat, perEntry: nat, full: bool, eof: bool) {
    var k := Fit(all, used0, max, perEntry);
    && (full ==> |out| == k < |all| && out == all[..k])
    && (!full && eof ==> k == |all| && out == all[..k])
  }

  lemma PageTaken(all: seq<DirEnt>, out: seq<DirEnt>, page: seq<DirEnt>, back: seq<DirEnt>, used0: nat, used: nat,
                  max: nat, perEntry: nat, more: seq<DirEnt>, used': nat, full: bool, eof: bool)
    requires Filled(all, out, page + back, used0, used, max, perEntry) && (eof ==> back == [])
    requires var k := Fit(page, used, max, perEntry);
      more == page[..k] && (full <==> k < |page|) && (!full ==> used' == used + TotalSize(page, perEntry))
    ensures Stepped(all, out + more, used0, max, perEntry, full, eof)
    ensures !full ==> Filled(all, out + more, back, used0, used', max, perEntry)
  {
    if full {
      TakeCut(all, out, page, back, used0, used, max, perEntry, |more|);
    } else {
      TakeWhole(all, out, page, back, used0, used, max, perEntry, more);
      if eof { FilledAll(all, out + more, back, used0, used', max, perEntry); }
    }
  }

  lemma PrefixOfSum(out: seq<DirEnt>, page: seq<DirEnt>, back: seq<DirEnt>, k: nat)
    requires k <= |page|
    ensures (out + (page + back))[..|out| + k] == out + page[..k]
  {
  }

  lemma SumRegroups(out: seq<DirEnt>, page: seq<DirEnt>, back: seq<DirEnt>)
    ensures out + (page + back) == (out + page) + back
  {
  }

  lemma {:induction false} FitWithin(es: seq<DirEnt>, used: nat, max: nat, perEntry: nat)
    ensures var k := Fit(es, used, max, perEntry); k > 0 ==> used + TotalSize(es[..k], perEntry) <= max
  {
    var k := Fit(es, used, max, perEntry);
    if k > 0 {
      FitWithin(es[1..], used + EntrySize(es[0].name, perEntry), max, perEntry);
      assert es[..k][1..] == es[1..][..k - 1];
      if k == 1 { assert es[..k][1..] == []; }
    }
  }

  lemma {:induction false} EntryWithinTotal(es: seq<DirEnt>, perEntry: nat, e: DirEnt)
    requires e in es
    ensures EntrySize(e.name, perEntry) <= TotalSize(es, perEntry)
    decreases |es|
  {
    if e != es[0] { EntryWithinTotal(es[1..], perEntry, e); }
  }
}
