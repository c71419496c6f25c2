/**
 A client's reading of a READDIR or READDIRPLUS result, by the grammar of sections 3.3.16 and 3.3.17 of RFC 1813,
 and what it makes of the server's bytes.
 */
module ReaddirParse {
  import opened Keys
  import opened Options
  import opened FileSystem
  import opened Handles
  import opened Xdr
  import opened ReaddirBridge
  import opened ReaddirReply

  // fattr3, its type read by name and its device numbers as one
  datatype Fattr = Fattr(typ: Option<Type>, mode: nat, nlink: nat, uid: nat, gid: nat, size: nat, used: nat, rdev: nat,
                         fsid: nat, fileid: nat, atime: (nat, nat), mtime: (nat, nat), ctime: (nat, nat))

  // What READDIRPLUS adds to an entry.
  datatype Extra = Extra(attr: Option<Fattr>, node: Option<Handle>)

  datatype Item = Item(fileid: nat, name: Name, cookie: nat, extra: Option<Extra>)

  datatype Result = Failure(status: nat, attr: Option<Fattr>) | Success(attr: Option<Fattr>, verifier: nat, items: seq<Item>, eof: bool)

  // ---- words ----

  function WordBytesOf(ws: seq<nat>): (b: Bytes)
    ensures |b| == 4 * |ws|
  {
    if ws == [] then [] else U32(ws[0]) + WordBytesOf(ws[1..])
  }

  function Low(ws: seq<nat>): (r: seq<nat>)
    ensures |r| == |ws|
  {
    seq(|ws|, i requires 0 <= i < |ws| => ws[i] % TWO32)
  }

  function TakeWords(b: Bytes, n: nat): (r: Option<(seq<nat>, Bytes)>)
    ensures r.Some? ==> |r.value.0| == n
  {
    if n == 0 then Some(([], b)) else
    match TakeU32(b)
    case None => None
    case Some(w) =>
      match TakeWords(w.1, n - 1)
      case None => None
      case Some(more) => Some(([w.0] + more.0, more.1))
  }

  lemma ReadWord(x: nat, rest: Bytes)
    ensures TakeU32(U32(x) + rest) == Some((x % TWO32, rest))
  {
    SameWord(x, x % TWO32);
    ReadU32(x % TWO32, rest);
  }

  /** A double word reads back modulo 2^64. */
  lemma ReadDouble(x: nat, rest: Bytes)
    ensures TakeU64(U64(x) + rest) == Some((x % TWO64, rest))
  {
    ReadWord(x / TWO32, U32(x) + rest);
    ReadWord(x, rest);
    assert U64(x) + rest == U32(x / TWO32) + (U32(x) + rest);
    DoubleLow(x);
  }

  lemma DoubleLow(x: nat)
    ensures x / TWO32 % TWO32 * TWO32 + x % TWO32 == x % TWO64
  {
    var hi, lo := x / TWO32, x % TWO32;
    var q, r := hi / TWO32, hi % TWO32;
    assert x == hi * TWO32 + lo && hi == q * TWO32 + r;
    assert x == q * TWO64 + (r * TWO32 + lo) && 0 <= r * TWO32 + lo < TWO64;
    RemainderIs(x, q, r * TWO32 + lo);
  }

  lemma RemainderIs(x: nat, q: nat, r: nat)
    requires x == q * TWO64 + r && r < TWO64
    ensures x % TWO64 == r
  {
  }

  lemma {:induction false} ReadWords(ws: seq<nat>, rest: Bytes)
    ensures TakeWords(WordBytesOf(ws) + rest, |ws|) == Some((Low(ws), rest))
    decreases |ws|
  {
    if ws == [] {
      assert WordBytesOf(ws) + rest == rest;
    } else {
      var more := WordBytesOf(ws[1..]) + rest;
      assert WordBytesOf(ws) + rest == U32(ws[0]) + more;
      ReadWord(ws[0], more);
      ReadWords(ws[1..], rest);
      assert Low(ws) == [ws[0] % TWO32] + Low(ws[1..]);
    }
  }

  lemma {:induction false} WordsJoin(a: seq<nat>, b: seq<nat>)
    ensures WordBytesOf(a + b) == WordBytesOf(a) + WordBytesOf(b)
    decreases |a|
  {
    if a == [] {
      assert a + b == b;
    } else {
      WordsJoin(a[1..], b);
      assert (a + b)[1..] == a[1..] + b;
    }
  }

  // ---- attributes ----

  function Halves(x: nat): seq<nat> {
    [x / TWO32, x]
  }

  function Double(hi: nat, lo: nat): nat {
    hi * TWO32 + lo
  }

  /** ftype3, as section 2.5.5 of RFC 1813 numbers it. */
  function TypeNamed(x: nat): Option<Type> {
    if x == 1 then Some(REG)
    else if x == 2 then Some(DIR)
    else if x == 3 then Some(BLK)
    else if x == 4 then Some(CHR)
    else if x == 5 then Some(LNK)
    else if x == 6 then Some(SOCK)
    else if x == 7 then Some(FIFO)
    else None
  }

  function FattrOf(w: seq<nat>): Fattr
    requires |w| == 21
  {
    Fattr(TypeNamed(w[0]), w[1], w[2], w[3], w[4], Double(w[5], w[6]), Double(w[7], w[8]), Double(w[9], w[10]),
          Double(w[11], w[12]), Double(w[13], w[14]), (w[15], w[16]), (w[17], w[18]), (w[19], w[20]))
  }

  function TakeFattr(b: Bytes): Option<(Fattr, Bytes)> {
    match TakeWords(b, 21)
    case None => None
    case Some(w) => Some((FattrOf(w.0), w.1))
  }

  function KindWords(a: Attr): seq<nat> {
    [Ftype(a.typ), a.mode, a.nlink, a.uid, a.gid]
  }

  function SizeWords(env: Env, h: Handle, a: Attr): seq<nat> {
    Halves(a.size) + Halves(env.used(h, a)) + [DevNumbers(a).0, DevNumbers(a).1]
  }

  function IdWords(env: Env, h: Handle): seq<nat> {
    Halves(if h.snap == LATEST then 0 else h.snap) + Halves(ViewFileid(env, h))
  }

  function TimeWords(a: Attr): seq<nat> {
    [a.atime, a.atimeNs, a.mtime, a.mtimeNs, a.ctime, 0]
  }

  function AttrWords(env: Env, h: Handle, a: Attr): (w: seq<nat>)
    ensures |w| == 21
  {
    KindWords(a) + SizeWords(env, h, a) + IdWords(env, h) + TimeWords(a)
  }

  /** The number a node goes by: its id in the live view, a mix of id and snapshot in a frozen one. */
  function Fileid(env: Env, h: Handle): nat {
    (if h.snap == LATEST then h.id else env.mix(h.id, h.snap)) % TWO64
  }

  /** A node's attributes as they fit the wire: its own type, the device numbers of a device only. */
  function Wired(env: Env, h: Handle, a: Attr): Fattr {
    Fattr(Some(a.typ), a.mode % TWO32, a.nlink % TWO32, a.uid % TWO32, a.gid % TWO32, a.size % TWO64,
          env.used(h, a) % TWO64, if a.typ in {BLK, CHR} then a.spec % TWO64 else 0,
          if h.snap == LATEST then 0 else h.snap % TWO64, Fileid(env, h),
          (a.atime % TWO32, a.atimeNs % TWO32), (a.mtime % TWO32, a.mtimeNs % TWO32), (a.ctime % TWO32, 0))
  }

  lemma OneWord(x: nat)
    ensures WordBytesOf([x]) == U32(x)
  {
    assert [x][1..] == [];
  }

  lemma TwoWords(x: nat, y: nat)
    ensures WordBytesOf([x, y]) == U32(x) + U32(y)
  {
    OneWord(y);
    assert [x, y][1..] == [y];
  }

  lemma ThreeWords(x: nat, y: nat, z: nat)
    ensures WordBytesOf([x, y, z]) == U32(x) + U32(y) + U32(z)
  {
    TwoWords(y, z);
    assert [x, y, z][1..] == [y, z];
  }

  lemma KindIsWords(a: Attr)
    ensures KindBytes(a) == WordBytesOf(KindWords(a))
  {
    ThreeWords(Ftype(a.typ), a.mode, a.nlink);
    TwoWords(a.uid, a.gid);
    WordsJoin([Ftype(a.typ), a.mode, a.nlink], [a.uid, a.gid]);
    assert KindWords(a) == [Ftype(a.typ), a.mode, a.nlink] + [a.uid, a.gid];
  }

  lemma SizeIsWords(env: Env, h: Handle, a: Attr)
    ensures SizeBytes(env, h, a) == WordBytesOf(SizeWords(env, h, a))
  {
    var x, y, z := Halves(a.size), Halves(env.used(h, a)), [DevNumbers(a).0, DevNumbers(a).1];
    TwoWords(a.size / TWO32, a.size);
    TwoWords(env.used(h, a) / TWO32, env.used(h, a));
    TwoWords(DevNumbers(a).0, DevNumbers(a).1);
    WordsJoin(x, y);
    WordsJoin(x + y, z);
  }

  lemma IdIsWords(env: Env, h: Handle)
    ensures IdBytes(env, h) == WordBytesOf(IdWords(env, h))
  {
    var snap, id := if h.snap == LATEST then 0 else h.snap, ViewFileid(env, h);
    TwoWords(snap / TWO32, snap);
    TwoWords(id / TWO32, id);
    WordsJoin(Halves(snap), Halves(id));
  }

  lemma TimeIsWords(a: Attr)
    ensures TimeBytes(a) == WordBytesOf(TimeWords(a))
  {
    TwoWords(a.atime, a.atimeNs);
    TwoWords(a.mtime, a.mtimeNs);
    TwoWords(a.ctime, 0);
    WordsJoin([a.atime, a.atimeNs], [a.mtime, a.mtimeNs]);
    WordsJoin([a.atime, a.atimeNs] + [a.mtime, a.mtimeNs], [a.ctime, 0]);
    assert TimeWords(a) == [a.atime, a.atimeNs] + [a.mtime, a.mtimeNs] + [a.ctime, 0];
  }

  lemma FattrIsWords(env: Env, h: Handle, a: Attr)
    ensures FattrBytes(env, h, a) == WordBytesOf(AttrWords(env, h, a))
  {
    KindIsWords(a);
    SizeIsWords(env, h, a);
    IdIsWords(env, h);
    TimeIsWords(a);
    FourJoin(KindWords(a), SizeWords(env, h, a), IdWords(env, h), TimeWords(a));
  }

  lemma FourJoin(a: seq<nat>, b: seq<nat>, c: seq<nat>, d: seq<nat>)
    ensures WordBytesOf(a + b + c + d) == WordBytesOf(a) + WordBytesOf(b) + WordBytesOf(c) + WordBytesOf(d)
  {
    WordsJoin(a, b);
    WordsJoin(a + b, c);
    WordsJoin(a + b + c, d);
  }

  /** The words of the attributes, at their places. */
  lemma WordsPlaced(env: Env, h: Handle, a: Attr, w: seq<nat>)
    requires w == AttrWords(env, h, a)
    ensures w[..5] == KindWords(a) && w[5..11] == SizeWords(env, h, a)
    ensures w[11..15] == IdWords(env, h) && w[15..21] == TimeWords(a)
  {
  }

  lemma DevReads(a: Attr)
    ensures Double(DevNumbers(a).0 % TWO32, DevNumbers(a).1 % TWO32) == if a.typ in {BLK, CHR} then a.spec % TWO64 else 0
  {
    DoubleLow(a.spec);
  }

  lemma TypeReads(t: Type)
    ensures TypeNamed(Ftype(t) % TWO32) == Some(t)
  {
  }

  lemma LowIsWired(env: Env, h: Handle, a: Attr, w: seq<nat>)
    requires w == AttrWords(env, h, a)
    ensures FattrOf(Low(w)) == Wired(env, h, a)
  {
    WordsPlaced(env, h, a, w);
    DevReads(a);
    TypeReads(a.typ);
    DoubleLow(a.size);
    DoubleLow(env.used(h, a));
    DoubleLow(h.snap);
    DoubleLow(ViewFileid(env, h));
    assert KindWords(a)[0] == w[0] && KindWords(a)[1] == w[1] && KindWords(a)[2] == w[2] && KindWords(a)[3] == w[3];
    assert KindWords(a)[4] == w[4] && SizeWords(env, h, a)[0] == w[5] && SizeWords(env, h, a)[1] == w[6];
    assert SizeWords(env, h, a)[2] == w[7] && SizeWords(env, h, a)[3] == w[8] && SizeWords(env, h, a)[4] == w[9];
    assert SizeWords(env, h, a)[5] == w[10] && IdWords(env, h)[0] == w[11] && IdWords(env, h)[1] == w[12];
    assert IdWords(env, h)[2] == w[13] && IdWords(env, h)[3] == w[14];
    assert TimeWords(a)[0] == w[15] && TimeWords(a)[1] == w[16] && TimeWords(a)[2] == w[17];
    assert TimeWords(a)[3] == w[18] && TimeWords(a)[4] == w[19] && TimeWords(a)[5] == w[20];
  }

  /** post_op_attr */
  function TakePostOp(b: Bytes): Option<(Option<Fattr>, Bytes)> {
    match TakeU32(b)
    case None => None
    case Some(flag) =>
      if flag.0 == 0 then Some((None, flag.1)) else
      match TakeFattr(flag.1)
      case None => None
      case Some(f) => Some((Some(f.0), f.1))
  }

  lemma ReadPostOp(env: Env, h: Handle, a: Attr, rest: Bytes)
    ensures TakePostOp(PostOpBytes(env, h, a) + rest) == Some((Some(Wired(env, h, a)), rest))
  {
    var w, body := AttrWords(env, h, a), FattrBytes(env, h, a);
    assert PostOpBytes(env, h, a) + rest == U32(1) + (body + rest);
    ReadU32(1, body + rest);
    FattrIsWords(env, h, a);
    ReadWords(w, rest);
    LowIsWired(env, h, a, w);
  }

  // ---- entries ----

  /** post_op_fh3, of the handles this server hands out. */
  function TakePostFh(b: Bytes): Option<(Option<Handle>, Bytes)> {
    match TakeU32(b)
    case None => None
    case Some(flag) =>
      if flag.0 == 0 then Some((None, flag.1)) else
      match TakeU32(flag.1)
      case None => None
      case Some(len) =>
        if len.0 != 16 then None else
        match TakeU64(len.1)
        case None => None
        case Some(id) =>
          match TakeU64(id.1)
          case None => None
          case Some(snap) => Some((Some(Handle(id.0, snap.0)), snap.1))
  }

  function WiredHandle(h: Handle): Handle {
    Handle(h.id % TWO64, h.snap % TWO64)
  }

  lemma ReadPostFh(h: Handle, rest: Bytes)
    ensures TakePostFh((U32(1) + FhBytes(h)) + rest) == Some((Some(WiredHandle(h)), rest))
  {
    var r3 := U64(h.snap) + rest;
    var r2 := U64(h.id) + r3;
    var r1 := U32(16) + r2;
    assert (U32(1) + FhBytes(h)) + rest == U32(1) + r1;
    ReadU32(1, r1);
    ReadU32(16, r2);
    ReadDouble(h.id, r3);
    ReadDouble(h.snap, rest);
  }

  function TakeExtra(b: Bytes, plus: bool): Option<(Option<Extra>, Bytes)> {
    if !plus then Some((None, b)) else
    match TakePostOp(b)
    case None => None
    case Some(attr) =>
      match TakePostFh(attr.1)
      case None => None
      case Some(fh) => Some((Some(Extra(attr.0, fh.0)), fh.1))
  }

  function ExtraOf(env: Env, fs: Fs, e: DirEnt, plus: bool): Option<Extra> {
    if plus then Some(Extra(Some(Wired(env, e.node, AttrSeen(fs, e.node))), Some(WiredHandle(e.node)))) else None
  }

  lemma ReadExtra(env: Env, fs: Fs, e: DirEnt, plus: bool, rest: Bytes)
    ensures TakeExtra(EntryExtra(env, fs, e, plus) + rest, plus) == Some((ExtraOf(env, fs, e, plus), rest))
  {
    if plus {
      var a, fh := AttrSeen(fs, e.node), U32(1) + FhBytes(e.node);
      assert EntryExtra(env, fs, e, plus) + rest == PostOpBytes(env, e.node, a) + (fh + rest);
      ReadPostOp(env, e.node, a, fh + rest);
      ReadPostFh(e.node, rest);
    } else {
      assert EntryExtra(env, fs, e, plus) + rest == rest;
    }
  }

  /** entry3 or entryplus3, behind its flag. */
  function TakeItem(b: Bytes, plus: bool): Option<(Item, Bytes)> {
    match TakeU64(b)
    case None => None
    case Some(id) =>
      match TakeStr(id.1)
      case None => None
      case Some(name) =>
        match TakeU64(name.1)
        case None => None
        case Some(cookie) =>
          match TakeExtra(cookie.1, plus)
          case None => None
          case Some(extra) => Some((Item(id.0, name.0, cookie.0, extra.0), extra.1))
  }

  function ItemOf(env: Env, fs: Fs, e: DirEnt, plus: bool): Item {
    Item(Fileid(env, e.node), e.name, e.cookie % TWO64, ExtraOf(env, fs, e, plus))
  }

  /** An entry behind its flag. */
  function ItemBytes(env: Env, fs: Fs, e: DirEnt, plus: bool): Bytes {
    U64(ViewFileid(env, e.node)) + (Opaque(e.name) + (U64(e.cookie) + EntryExtra(env, fs, e, plus)))
  }

  lemma EntryIsItem(env: Env, fs: Fs, e: DirEnt, plus: bool)
    ensures EntryBytes(env, fs, e, plus) == U32(1) + ItemBytes(env, fs, e, plus)
  {
    RegroupFive(U32(1), U64(ViewFileid(env, e.node)), Opaque(e.name), U64(e.cookie), EntryExtra(env, fs, e, plus));
  }

  lemma RegroupFive(a: Bytes, b: Bytes, c: Bytes, d: Bytes, e: Bytes)
    ensures (((a + b) + c) + d) + e == a + (b + (c + (d + e)))
  {
  }

  lemma RegroupFour(b: Bytes, c: Bytes, d: Bytes, e: Bytes, rest: Bytes)
    ensures (b + (c + (d + e))) + rest == b + (c + (d + (e + rest)))
  {
  }

  lemma ReadItem(env: Env, fs: Fs, e: DirEnt, plus: bool, rest: Bytes)
    requires |e.name| <= TWO32 - 4
    ensures TakeItem(ItemBytes(env, fs, e, plus) + rest, plus) == Some((ItemOf(env, fs, e, plus), rest))
  {
    var r3 := EntryExtra(env, fs, e, plus) + rest;
    var r2 := U64(e.cookie) + r3;
    var r1 := Opaque(e.name) + r2;
    RegroupFour(U64(ViewFileid(env, e.node)), Opaque(e.name), U64(e.cookie), EntryExtra(env, fs, e, plus), rest);
    ReadDouble(ViewFileid(env, e.node), r1);
    ReadStrIff(e.name, r2);
    ReadDouble(e.cookie, r3);
    ReadExtra(env, fs, e, plus, rest);
  }

  /** The entry list: entries until a zero flag. */
  function TakeItems(b: Bytes, plus: bool): Option<(seq<Item>, Bytes)>
    decreases |b|
  {
    match TakeU32(b)
    case None => None
    case Some(flag) =>
      if flag.0 == 0 then Some(([], flag.1)) else
      match TakeItem(flag.1, plus)
      case None => None
      case Some(item) =>
        if |item.1| >= |b| then None else
        match TakeItems(item.1, plus)
        case None => None
        case Some(more) => Some(([item.0] + more.0, more.1))
  }

  function ItemsOf(env: Env, fs: Fs, es: seq<DirEnt>, plus: bool): (r: seq<Item>)
    ensures |r| == |es|
  {
    seq(|es|, i requires 0 <= i < |es| => ItemOf(env, fs, es[i], plus))
  }

  ghost predicate Readable(es: seq<DirEnt>) {
    forall e :: e in es ==> |e.name| <= TWO32 - 4
  }

  lemma ItemsStep(env: Env, fs: Fs, e: DirEnt, plus: bool, rest: Bytes)
    requires |e.name| <= TWO32 - 4
    ensures TakeItems(EntryBytes(env, fs, e, plus) + rest, plus) ==
      match TakeItems(rest, plus)
      case None => None
      case Some(more) => Some(([ItemOf(env, fs, e, plus)] + more.0, more.1))
  {
    var b, body := EntryBytes(env, fs, e, plus) + rest, ItemBytes(env, fs, e, plus) + rest;
    EntryIsItem(env, fs, e, plus);
    assert b == U32(1) + body;
    ReadU32(1, body);
    ReadItem(env, fs, e, plus, rest);
  }

  lemma ItemsEnd(rest: Bytes, plus: bool)
    ensures TakeItems(U32(0) + rest, plus) == Some(([], rest))
  {
    ReadU32(0, rest);
  }

  /** The entry list reads back as the entries it was written from, attributes and handles included. */
  lemma {:induction false} BodyParses(env: Env, fs: Fs, es: seq<DirEnt>, plus: bool, rest: Bytes)
    requires Readable(es)
    ensures TakeItems(BodyBytes(env, fs, es, plus) + (U32(0) + rest), plus) == Some((ItemsOf(env, fs, es, plus), rest))
    decreases |es|
  {
    var end := U32(0) + rest;
    if es == [] {
      assert BodyBytes(env, fs, es, plus) + end == end;
      ItemsEnd(rest, plus);
    } else {
      var more := BodyBytes(env, fs, es[1..], plus) + end;
      BodyParses(env, fs, es[1..], plus, rest);
      assert es[0] in es;
      ItemsStep(env, fs, es[0], plus, more);
      BodyCons(env, fs, es, plus, end);
      ItemsCons(env, fs, es, plus);
    }
  }

  lemma ItemsCons(env: Env, fs: Fs, es: seq<DirEnt>, plus: bool)
    requires es != []
    ensures ItemsOf(env, fs, es, plus) == [ItemOf(env, fs, es[0], plus)] + ItemsOf(env, fs, es[1..], plus)
  {
  }

  lemma BodyCons(env: Env, fs: Fs, es: seq<DirEnt>, plus: bool, rest: Bytes)
    requires es != []
    ensures BodyBytes(env, fs, es, plus) + rest == EntryBytes(env, fs, es[0], plus) + (BodyBytes(env, fs, es[1..], plus) + rest)
  {
  }

  // ---- the whole result ----

  /** READDIR3res and READDIRPLUS3res: every failure carries the directory's attributes, or a flag that it does not. */
  function ParseResult(b: Bytes, plus: bool): Option<Result> {
    match TakeU32(b)
    case None => None
    case Some(status) =>
      match TakePostOp(status.1)
      case None => None
      case Some(attr) => if status.0 == NFS3_OK then ParseList(attr.0, attr.1, plus) else Some(Failure(status.0, attr.0))
  }

  function ParseList(attr: Option<Fattr>, b: Bytes, plus: bool): Option<Result> {
    match TakeU64(b)
    case None => None
    case Some(verifier) =>
      match TakeItems(verifier.1, plus)
      case None => None
      case Some(items) =>
        match TakeU32(items.1)
        case None => None
        case Some(eof) => Some(Success(attr, verifier.0, items.0, eof.0 != 0))
  }

  // nfsstat3, as section 2.6 of RFC 1813 numbers them
  const NOT_A_DIRECTORY: nat := 20
  const STALE_HANDLE: nat := 70
  const COOKIE_REFUSED: nat := 10003

  /** What the reply says. */
  function ResultOf(env: Env, fs: Fs, dir: Handle, reply: Reply, plus: bool): Result {
    var attr := Some(Wired(env, dir, AttrSeen(fs, dir)));
    if AttrSeen(fs, dir).typ != DIR then Failure(NOT_A_DIRECTORY, attr)
    else
      match reply
      case BadCookie => Failure(COOKIE_REFUSED, attr)
      case Listed(out, eof) => Success(attr, 0, ItemsOf(env, fs, out, plus), eof)
  }

  lemma ParsesError(env: Env, fs: Fs, dir: Handle, st: nat, plus: bool)
    requires NFS3_OK < st < TWO32
    ensures ParseResult(ErrorBytes(env, fs, dir, st), plus) == Some(Failure(st, Some(Wired(env, dir, AttrSeen(fs, dir)))))
  {
    var body := PostOpBytes(env, dir, AttrSeen(fs, dir));
    assert ErrorBytes(env, fs, dir, st) == U32(st) + body && body + [] == body;
    ReadU32(st, body);
    ReadPostOp(env, dir, AttrSeen(fs, dir), []);
  }

  lemma ParsesList(env: Env, fs: Fs, attr: Option<Fattr>, out: seq<DirEnt>, eof: bool, plus: bool, b: Bytes)
    requires Readable(out)
    requires b == U64(0) + (BodyBytes(env, fs, out, plus) + (U32(0) + U32(if eof then 1 else 0)))
    ensures ParseList(attr, b, plus) == Some(Success(attr, 0, ItemsOf(env, fs, out, plus), eof))
  {
    var last := U32(if eof then 1 else 0);
    ReadU64(0, BodyBytes(env, fs, out, plus) + (U32(0) + last));
    BodyParses(env, fs, out, plus, last);
    ReadU32(if eof then 1 else 0, []);
    assert last + [] == last;
  }

  lemma RegroupList(s: Bytes, p: Bytes, z: Bytes, body: Bytes, last: Bytes)
    ensures ((((s + p) + z) + z) + body) + z + last == s + (p + ((z + z) + (body + (z + last))))
  {
  }

  lemma ParsesListed(env: Env, fs: Fs, dir: Handle, out: seq<DirEnt>, eof: bool, plus: bool)
    requires Readable(out)
    ensures ParseResult(ListedBytes(env, fs, dir, out, eof, plus), plus) ==
      Some(Success(Some(Wired(env, dir, AttrSeen(fs, dir))), 0, ItemsOf(env, fs, out, plus), eof))
  {
    var p, last := PostOpBytes(env, dir, AttrSeen(fs, dir)), U32(if eof then 1 else 0);
    var list := U64(0) + (BodyBytes(env, fs, out, plus) + (U32(0) + last));
    RegroupList(U32(NFS3_OK), p, U32(0), BodyBytes(env, fs, out, plus), last);
    assert U64(0) == U32(0) + U32(0);
    ReadU32(NFS3_OK, p + list);
    ReadPostOp(env, dir, AttrSeen(fs, dir), list);
    ParsesList(env, fs, Some(Wired(env, dir, AttrSeen(fs, dir))), out, eof, plus, list);
  }

  lemma ParsesStale(plus: bool)
    ensures ParseResult(U32(NFS3ERR_STALE), plus) == None && TakeU32(U32(NFS3ERR_STALE)) == Some((STALE_HANDLE, []))
  {
    ReadU32(NFS3ERR_STALE, []);
    assert U32(NFS3ERR_STALE) + [] == U32(NFS3ERR_STALE);
  }

  /** A client reads back exactly what the server meant: status, attributes, entries with their attributes and handles,
      and eof. The one exception is a stale handle, whose reply stops behind the status, short of the attribute flag. */
  lemma ResultParsesIff(env: Env, hash: Name -> nat, fs: Fs, cache: Cache, dir: Handle, cookie: nat, count: nat, plus: bool,
                        b: Bytes, reply: Reply)
    requires b == ResultBytes(env, hash, fs, cache, dir, cookie, count, plus) && count < TWO32
    requires reply == ReplyTo(hash, fs, dir, cache, cookie, count, PerEntry(plus))
    ensures ParseResult(b, plus) ==
      if NodeById(fs, dir.id, dir.snap).None? then None else Some(ResultOf(env, fs, dir, reply, plus))
    ensures NodeById(fs, dir.id, dir.snap).None? ==> TakeU32(b) == Some((STALE_HANDLE, []))
  {
    if NodeById(fs, dir.id, dir.snap).None? {
      ParsesStale(plus);
    } else if AttrSeen(fs, dir).typ != DIR {
      ParsesError(env, fs, dir, NFS3ERR_NOTDIR, plus);
    } else if reply.BadCookie? {
      ParsesError(env, fs, dir, NFS3ERR_BAD_COOKIE, plus);
    } else {
      forall e | e in reply.out
        ensures |e.name| <= TWO32 - 4
      {
        NamesReadable(hash, fs, cache, dir, cookie, count, PerEntry(plus), reply, e);
      }
      ParsesListed(env, fs, dir, reply.out, reply.eof, plus);
    }
  }
}
