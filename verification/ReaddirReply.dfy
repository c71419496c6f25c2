/** The READDIR and READDIRPLUS replies, byte by byte, and how long they can get. */
module ReaddirReply {
  import opened Keys
  import opened Options
  import opened FileSystem
  import opened Handles
  import opened Observations
  import opened Cursors
  import opened Xdr
  import opened ReaddirBridge
  import PrfsStore

  const NFS3_OK: nat := 0
  const NFS3ERR_NOTDIR: nat := 20
  const NFS3ERR_STALE: nat := 70
  const NFS3ERR_BAD_COOKIE: nat := 10003

  // What the encoder takes from elsewhere: the fileid of a frozen view, and the bytes a node occupies, which
  // depend on its id too when its seed is its id.
  datatype Env = Env(mix: (nat, nat) -> nat, used: (Handle, Attr) -> nat)

  function ViewFileid(env: Env, h: Handle): nat {
    if h.snap == LATEST then h.id else env.mix(h.id, h.snap)
  }

  function Ftype(t: Type): nat {
    match t
    case REG => 1
    case DIR => 2
    case LNK => 5
    case BLK => 3
    case CHR => 4
    case FIFO => 7
    case SOCK => 6
  }

  function DevNumbers(a: Attr): (nat, nat) {
    if a.typ == BLK || a.typ == CHR then (a.spec / TWO32, a.spec % TWO32) else (0, 0)
  }

  // fattr3, in four stretches

  function KindBytes(a: Attr): (b: Bytes)
    ensures |b| == 20
  {
    U32(Ftype(a.typ)) + U32(a.mode) + U32(a.nlink) + U32(a.uid) + U32(a.gid)
  }

  function SizeBytes(env: Env, h: Handle, a: Attr): (b: Bytes)
    ensures |b| == 24
  {
    U64(a.size) + U64(env.used(h, a)) + U32(DevNumbers(a).0) + U32(DevNumbers(a).1)
  }

  function IdBytes(env: Env, h: Handle): (b: Bytes)
    ensures |b| == 16
  {
    U64(if h.snap == LATEST then 0 else h.snap) + U64(ViewFileid(env, h))
  }

  function TimeBytes(a: Attr): (b: Bytes)
    ensures |b| == 24
  {
    TimePair(a.atime, a.atimeNs) + TimePair(a.mtime, a.mtimeNs) + TimePair(a.ctime, 0)
  }

  function FattrBytes(env: Env, h: Handle, a: Attr): (b: Bytes)
    ensures |b| == 84
  {
    KindBytes(a) + SizeBytes(env, h, a) + IdBytes(env, h) + TimeBytes(a)
  }

  function PostOpBytes(env: Env, h: Handle, a: Attr): (b: Bytes)
    ensures |b| == 88
  {
    U32(1) + FattrBytes(env, h, a)
  }

  function FhBytes(h: Handle): (b: Bytes)
    ensures |b| == 20
  {
    U32(16) + U64(h.id) + U64(h.snap)
  }

  function PerEntry(plus: bool): nat {
    if plus then 88 + 24 else 0
  }

  function EntryHead(env: Env, e: DirEnt): (b: Bytes)
    ensures |b| == EntrySize(e.name, 0)
  {
    Padded(|e.name|);
    U32(1) + U64(ViewFileid(env, e.node)) + Opaque(e.name) + U64(e.cookie)
  }

  /** What READDIRPLUS adds: the attributes and the handle. */
  function EntryExtra(env: Env, fs: Fs, e: DirEnt, plus: bool): (b: Bytes)
    ensures |b| == PerEntry(plus)
  {
    if plus then PostOpBytes(env, e.node, AttrSeen(fs, e.node)) + (U32(1) + FhBytes(e.node)) else []
  }

  function EntryBytes(env: Env, fs: Fs, e: DirEnt, plus: bool): (b: Bytes)
    ensures |b| == EntrySize(e.name, PerEntry(plus))
  {
    EntryHead(env, e) + EntryExtra(env, fs, e, plus)
  }

  lemma Padded(n: nat)
    ensures Pad4(n) == n + Padding(n)
  {
  }

  lemma EntryAligned(base: nat, name: Name, plus: bool)
    requires base % 4 == 0
    ensures (base + EntrySize(name, PerEntry(plus))) % 4 == 0
  {
  }

  function BodyBytes(env: Env, fs: Fs, es: seq<DirEnt>, plus: bool): (b: Bytes)
    ensures |b| == TotalSize(es, PerEntry(plus))
  {
    if es == [] then [] else EntryBytes(env, fs, es[0], plus) + BodyBytes(env, fs, es[1..], plus)
  }

  function ErrorBytes(env: Env, fs: Fs, dir: Handle, st: nat): (b: Bytes)
    ensures |b| == 92
  {
    U32(st) + PostOpBytes(env, dir, AttrSeen(fs, dir))
  }

  function HeaderBytes(env: Env, fs: Fs, dir: Handle): (b: Bytes)
    ensures |b| == 100
  {
    U32(NFS3_OK) + PostOpBytes(env, dir, AttrSeen(fs, dir)) + U32(0) + U32(0)
  }

  function ListedBytes(env: Env, fs: Fs, dir: Handle, out: seq<DirEnt>, eof: bool, plus: bool): (b: Bytes)
    ensures |b| == 108 + TotalSize(out, PerEntry(plus))
  {
    HeaderBytes(env, fs, dir) + BodyBytes(env, fs, out, plus) + U32(0) + U32(if eof then 1 else 0)
  }

  /** The whole result, for a handle, a cookie and the byte count the client allows. */
  function ResultBytes(env: Env, hash: Name -> nat, fs: Fs, cache: Cache, dir: Handle, cookie: nat, count: nat, plus: bool): Bytes {
    if NodeById(fs, dir.id, dir.snap).None? then U32(NFS3ERR_STALE)
    else if AttrSeen(fs, dir).typ != DIR then ErrorBytes(env, fs, dir, NFS3ERR_NOTDIR)
    else
      match ReplyTo(hash, fs, dir, cache, cookie, count, PerEntry(plus))
      case BadCookie => ErrorBytes(env, fs, dir, NFS3ERR_BAD_COOKIE)
      case Listed(out, eof) => ListedBytes(env, fs, dir, out, eof, plus)
  }

  // ---- length ----

  /** A reply with entries stays 20 bytes under the client's count; one without takes at most 108 bytes. */
  lemma ResultFits(env: Env, hash: Name -> nat, fs: Fs, cache: Cache, dir: Handle, cookie: nat, count: nat, plus: bool, b: Bytes)
    requires b == ResultBytes(env, hash, fs, cache, dir, cookie, count, plus)
    ensures |b| <= 108 || |b| + 20 <= count
  {
    var reply := ReplyTo(hash, fs, dir, cache, cookie, count, PerEntry(plus));
    if reply.Listed? {
      var es := Remaining(hash, fs, dir, cache, cookie).value;
      FitWithin(es, HEADER, count, PerEntry(plus));
      assert reply == Served(es, HEADER, count, PerEntry(plus));
      if reply.out == [] { assert TotalSize(reply.out, PerEntry(plus)) == 0; }
    }
  }

  /** No reply to a 32-bit count holds a name too long to be read back. */
  lemma NamesReadable(hash: Name -> nat, fs: Fs, cache: Cache, dir: Handle, cookie: nat, count: nat, perEntry: nat, reply: Reply, e: DirEnt)
    requires reply == ReplyTo(hash, fs, dir, cache, cookie, count, perEntry) && reply.Listed?
    requires count < TWO32 && e in reply.out
    ensures |e.name| <= TWO32 - 4
  {
    var es := Remaining(hash, fs, dir, cache, cookie).value;
    FitWithin(es, HEADER, count, perEntry);
    assert reply == Served(es, HEADER, count, perEntry);
    EntryWithinTotal(reply.out, perEntry, e);
  }

  // ---- the encoders ----

  method EncodeFattr(w: Writer, env: Env, h: Handle, a: Attr)
    modifies w
    ensures w.v == old(w.v) + FattrBytes(env, h, a)
  {
    ghost var base := w.v;
    EncodeKind(w, a);
    EncodeSizes(w, env, h, a);
    EncodeIds(w, env, h);
    EncodeTimes(w, a);
    Join4(base, KindBytes(a), SizeBytes(env, h, a), IdBytes(env, h), TimeBytes(a));
  }

  lemma Join4(o: Bytes, a: Bytes, b: Bytes, c: Bytes, d: Bytes)
    ensures (((o + a) + b) + c) + d == o + (((a + b) + c) + d)
  {
  }

  method EncodeKind(w: Writer, a: Attr)
    modifies w
    ensures w.v == old(w.v) + KindBytes(a)
  {
    ghost var base := w.v;
    w.PutU32(Ftype(a.typ));
    w.PutU32(a.mode);
    w.PutU32(a.nlink);
    w.PutU32(a.uid);
    w.PutU32(a.gid);
    Join4(base, U32(Ftype(a.typ)), U32(a.mode), U32(a.nlink), U32(a.uid));
    Join2(base, U32(Ftype(a.typ)) + U32(a.mode) + U32(a.nlink) + U32(a.uid), U32(a.gid));
  }

  method EncodeSizes(w: Writer, env: Env, h: Handle, a: Attr)
    modifies w
    ensures w.v == old(w.v) + SizeBytes(env, h, a)
  {
    ghost var base := w.v;
    w.PutU64(a.size);
    w.PutU64(env.used(h, a));
    w.PutU32(DevNumbers(a).0);
    w.PutU32(DevNumbers(a).1);
    Join4(base, U64(a.size), U64(env.used(h, a)), U32(DevNumbers(a).0), U32(DevNumbers(a).1));
  }

  method EncodeIds(w: Writer, env: Env, h: Handle)
    modifies w
    ensures w.v == old(w.v) + IdBytes(env, h)
  {
    w.PutU64(if h.snap == LATEST then 0 else h.snap);
    w.PutU64(ViewFileid(env, h));
  }

  method EncodeTimes(w: Writer, a: Attr)
    modifies w
    ensures w.v == old(w.v) + TimeBytes(a)
  {
    ghost var base := w.v;
    w.PutTime(a.atime, a.atimeNs);
    w.PutTime(a.mtime, a.mtimeNs);
    w.PutTime(a.ctime, 0);
    Join4(base, [], TimePair(a.atime, a.atimeNs), TimePair(a.mtime, a.mtimeNs), TimePair(a.ctime, 0));
    assert base + [] == base && [] + TimePair(a.atime, a.atimeNs) == TimePair(a.atime, a.atimeNs);
  }

  method EncodePostOp(w: Writer, env: Env, h: Handle, a: Attr)
    modifies w
    ensures w.v == old(w.v) + PostOpBytes(env, h, a)
  {
    ghost var base := w.v;
    w.PutU32(1);
    EncodeFattr(w, env, h, a);
    Join2(base, U32(1), FattrBytes(env, h, a));
  }

  method EncodeEntry(w: Writer, env: Env, ghost fs: Fs, e: DirEnt, a: Attr, plus: bool)
    requires |w.v| % 4 == 0 && a == AttrSeen(fs, e.node)
    modifies w
    ensures w.v == old(w.v) + EntryBytes(env, fs, e, plus) && |w.v| % 4 == 0
  {
    ghost var base := w.v;
    EncodeHead(w, env, e);
    if plus {
      EncodeExtra(w, env, fs, e, a);
      Join2(base, EntryHead(env, e), EntryExtra(env, fs, e, plus));
    } else {
      Emptied(EntryHead(env, e), EntryExtra(env, fs, e, plus));
    }
    EntryAligned(|base|, e.name, plus);
  }

  method EncodeHead(w: Writer, env: Env, e: DirEnt)
    requires |w.v| % 4 == 0
    modifies w
    ensures w.v == old(w.v) + EntryHead(env, e)
  {
    ghost var base := w.v;
    w.PutU32(1);
    w.PutU64(ViewFileid(env, e.node));
    w.PutStr(e.name);
    w.PutU64(e.cookie);
    Join4(base, U32(1), U64(ViewFileid(env, e.node)), Opaque(e.name), U64(e.cookie));
  }

  method EncodeExtra(w: Writer, env: Env, ghost fs: Fs, e: DirEnt, a: Attr)
    requires a == AttrSeen(fs, e.node)
    modifies w
    ensures w.v == old(w.v) + EntryExtra(env, fs, e, true)
  {
    ghost var base := w.v;
    EncodePostOp(w, env, e.node, a);
    w.PutU32(1);
    w.PutFh(e.node.id, e.node.snap);
    Join3(base, PostOpBytes(env, e.node, a), U32(1), FhBytes(e.node));
  }

  lemma Join3(o: Bytes, a: Bytes, b: Bytes, c: Bytes)
    ensures ((o + a) + b) + c == o + (a + (b + c))
  {
  }

  /** nfsReaddir, and nfsReaddirPlus when plus is set, from the decoded arguments on. */
  method NfsReaddir(store: PrfsStore.PrfsStore, bridge: Bridge, w: Writer, env: Env, dir: Handle, cookie: nat, count: nat, plus: bool)
    requires store.Valid() && bridge.Valid() && dir.id < TWO64 && dir.snap < TWO64 && |w.v| % 4 == 0
    modifies bridge, w
    ensures bridge.Valid()
    ensures w.v == old(w.v) + ResultBytes(env, bridge.hash, store.fs, old(bridge.ckName), dir, cookie, count, plus)
  {
    ghost var fs, base := store.fs, w.v;
    var node := store.NodeById(dir.id, dir.snap);
    if node.None? {
      w.PutU32(NFS3ERR_STALE);
      return;
    }
    var a := store.ReadNode(dir);
    if a.typ != DIR {
      PutError(w, env, fs, dir, a, NFS3ERR_NOTDIR);
      return;
    }
    var reply := bridge.PageDir(store, dir, cookie, count, PerEntry(plus));
    if reply.BadCookie? {
      PutError(w, env, fs, dir, a, NFS3ERR_BAD_COOKIE);
      return;
    }
    ReplyWide(bridge.hash, fs, old(bridge.ckName), dir, cookie, count, PerEntry(plus), reply);
    PutListed(store, w, env, dir, a, reply.out, reply.eof, plus);
  }

  method PutError(w: Writer, env: Env, ghost fs: Fs, dir: Handle, a: Attr, st: nat)
    requires a == AttrSeen(fs, dir)
    modifies w
    ensures w.v == old(w.v) + ErrorBytes(env, fs, dir, st)
  {
    ghost var base := w.v;
    w.PutU32(st);
    EncodePostOp(w, env, dir, a);
    Join2(base, U32(st), PostOpBytes(env, dir, a));
  }

  lemma Join2(o: Bytes, a: Bytes, b: Bytes)
    ensures (o + a) + b == o + (a + b)
  {
  }

  ghost predicate NodesWide(es: seq<DirEnt>) {
    forall e :: e in es ==> e.node.id < TWO64 && e.node.snap < TWO64
  }

  method PutListed(store: PrfsStore.PrfsStore, w: Writer, env: Env, dir: Handle, a: Attr, out: seq<DirEnt>, eof: bool, plus: bool)
    requires store.Valid() && a == AttrSeen(store.fs, dir) && |w.v| % 4 == 0 && NodesWide(out)
    modifies w
    ensures w.v == old(w.v) + ListedBytes(env, store.fs, dir, out, eof, plus)
  {
    ghost var base := w.v;
    PutHeader(w, env, store.fs, dir, a);
    PutBody(store, w, env, out, plus);
    w.PutU32(0);
    w.PutU32(if eof then 1 else 0);
    Join4(base, HeaderBytes(env, store.fs, dir), BodyBytes(env, store.fs, out, plus), U32(0), U32(if eof then 1 else 0));
  }

  method PutHeader(w: Writer, env: Env, ghost fs: Fs, dir: Handle, a: Attr)
    requires a == AttrSeen(fs, dir)
    modifies w
    ensures w.v == old(w.v) + HeaderBytes(env, fs, dir)
  {
    ghost var base := w.v;
    w.PutU32(NFS3_OK);
    EncodePostOp(w, env, dir, a);
    w.PutU32(0);
    w.PutU32(0);
    Join4(base, U32(NFS3_OK), PostOpBytes(env, dir, a), U32(0), U32(0));
  }

  method PutBody(store: PrfsStore.PrfsStore, w: Writer, env: Env, out: seq<DirEnt>, plus: bool)
    requires store.Valid() && |w.v| % 4 == 0 && NodesWide(out)
    modifies w
    ensures w.v == old(w.v) + BodyBytes(env, store.fs, out, plus)
  {
    ghost var goal := w.v + BodyBytes(env, store.fs, out, plus);
    assert out[0..] == out;
    var i := 0;
    while i < |out|
      invariant 0 <= i <= |out| && |w.v| % 4 == 0
      invariant w.v + BodyBytes(env, store.fs, out[i..], plus) == goal
    {
      assert out[i] in out;
      ghost var before := w.v;
      PutEntry(store, w, env, out[i], plus);
      BodyStep(env, store.fs, out, i, plus, before, w.v);
      i := i + 1;
    }
    Emptied(w.v, BodyBytes(env, store.fs, out[i..], plus));
  }

  lemma Emptied(v: Bytes, b: Bytes)
    requires b == []
    ensures v + b == v
  {
  }

  method PutEntry(store: PrfsStore.PrfsStore, w: Writer, env: Env, e: DirEnt, plus: bool)
    requires store.Valid() && |w.v| % 4 == 0 && e.node.id < TWO64 && e.node.snap < TWO64
    modifies w
    ensures w.v == old(w.v) + EntryBytes(env, store.fs, e, plus) && |w.v| % 4 == 0
  {
    var x := store.ReadNode(e.node);
    EncodeEntry(w, env, store.fs, e, x, plus);
  }

  lemma BodyStep(env: Env, fs: Fs, out: seq<DirEnt>, i: nat, plus: bool, before: Bytes, now: Bytes)
    requires i < |out| && now == before + EntryBytes(env, fs, out[i], plus)
    ensures now + BodyBytes(env, fs, out[i + 1..], plus) == before + BodyBytes(env, fs, out[i..], plus)
  {
    assert out[i..][1..] == out[i + 1..];
    Join2(before, EntryBytes(env, fs, out[i], plus), BodyBytes(env, fs, out[i + 1..], plus));
  }

  // ---- handles on the wire are 64 bits wide ----

  lemma ViewIds(fs: Fs, g: nat, e: Edge)
    requires Healthy(fs) && e in fs.At(g).links
    ensures e.dir < fs.next && fs.At(g).links[e] < fs.next
  {
    var h := if g <= fs.Cur() then g else fs.Cur();
    assert fs.At(g) == fs.At(h) && fs.At(fs.Cur()) == fs.live;
    assert SoundAt(fs, h) && LinkSound(fs.At(h), e) && KeptBetween(fs, h, fs.Cur());
  }

  lemma RestWide(fs: Fs, dir: Handle, after: Name, d: DirEntry)
    requires Healthy(fs) && fs.next <= TWO63 && fs.Cur() < LATEST && dir.id < TWO64 && dir.snap < TWO64
    requires d in Rest(fs, dir, after)
    ensures d.node.id < TWO64 && d.node.snap < TWO64
  {
    if IsSnapDir(dir.id) {
      SnapsWithin(fs, SnapBase(dir.id), SnapStart(after), fs.Cur());
    } else {
      var v := Seen(fs, dir);
      var ls := Listing(v, dir.id);
      ListingMeaning(v, dir.id);
      AfterMeaning(ls, after);
      var es := Handles.After(ls, after);
      var i :| 0 <= i < |es| && Rest(fs, dir, after)[i] == d;
      assert es[i] in es && es[i] in ls;
      ViewIds(fs, Resolve(fs, dir.snap), Edge(dir.id, es[i].name));
    }
  }

  lemma DotsWide(fs: Fs, dir: Handle)
    requires Healthy(fs) && fs.next <= TWO63 && dir.id < TWO64 && dir.snap < TWO64
    ensures NodesWide(Dots(fs, dir))
  {
    var v := Seen(fs, dir);
    var ps := ParentHandles(fs, dir);
    if ps != [] {
      assert Parents(v, dir.id)[0] in Parents(v, dir.id);
      var e :| e in v.links && v.links[e] == dir.id && e.dir == ps[0].id;
      ViewIds(fs, Resolve(fs, dir.snap), e);
    }
  }

  lemma EntsWide(hash: Name -> nat, fs: Fs, dir: Handle, after: Name)
    requires Healthy(fs) && fs.next <= TWO63 && fs.Cur() < LATEST && dir.id < TWO64 && dir.snap < TWO64
    ensures NodesWide(AsEnts(hash, Rest(fs, dir, after)))
  {
    var ds := Rest(fs, dir, after);
    var es := AsEnts(hash, ds);
    forall e | e in es
      ensures e.node.id < TWO64 && e.node.snap < TWO64
    {
      var i :| 0 <= i < |es| && es[i] == e;
      assert ds[i] in ds;
      RestWide(fs, dir, after, ds[i]);
    }
  }

  lemma ReplyWide(hash: Name -> nat, fs: Fs, cache: Cache, dir: Handle, cookie: nat, count: nat, perEntry: nat, reply: Reply)
    requires Healthy(fs) && fs.next <= TWO63 && fs.Cur() < LATEST && dir.id < TWO64 && dir.snap < TWO64
    requires reply == ReplyTo(hash, fs, dir, cache, cookie, count, perEntry) && reply.Listed?
    ensures NodesWide(reply.out)
  {
    DotsWide(fs, dir);
    var rs := Remaining(hash, fs, dir, cache, cookie).value;
    var after := StartName(hash, fs, dir, cache, cookie).value;
    EntsWide(hash, fs, dir, after);
    WideParts(Dots(fs, dir), LeadFor(fs, dir, cookie), AsEnts(hash, Rest(fs, dir, after)));
    WidePrefix(rs, Fit(rs, HEADER, count, perEntry));
  }

  lemma WideParts(dots: seq<DirEnt>, lead: seq<DirEnt>, es: seq<DirEnt>)
    requires NodesWide(dots) && NodesWide(es) && forall e :: e in lead ==> e in dots
    ensures NodesWide(lead + es)
  {
  }

  lemma WidePrefix(es: seq<DirEnt>, k: nat)
    requires NodesWide(es) && k <= |es|
    ensures NodesWide(es[..k])
  {
  }
}
