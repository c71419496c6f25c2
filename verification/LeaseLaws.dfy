/**
 What one operation does to opens, locks and clients, field by field, and how long an open lasts over a run:
 each law says when something is there after an operation, in both directions.
 */
module LeaseLaws {
  import opened LockRanges
  import opened LeaseTables
  import opened Options

  // ---- opens ----

  /** The open stands, for its owner and on its file. */
  predicate OpenIs(t: Tables, id: nat, owner: Owner, file: nat) {
    id in t.opens && t.opens[id].owner == owner && t.opens[id].file == file
  }

  /** The events that end an open: its own CLOSE, or another instance of its client confirming. */
  predicate EndsOpen(t: Tables, e: Event, id: nat, owner: Owner) {
    match e
    case Close(special, k) => !special && k == id
    case _ => Ousts(t, e, owner.client)
  }

  /** Two masks have a bit in common. */
  predicate Common(x: bv32, y: bv32) {
    x & y != 0
  }

  /** The open denies a bit asked for, or uses a bit to be denied. */
  predicate Refuses(o: Open, access: bv32, deny: bv32) {
    Common(access, o.deny) || Common(deny, o.access)
  }

  ghost predicate ShareDenied(t: Tables, file: nat, access: bv32, deny: bv32) {
    exists k :: k in t.opens && t.opens[k].file == file && Refuses(t.opens[k], access, deny)
  }

  ghost predicate HasOpen(t: Tables, owner: Owner, file: nat) {
    exists k :: OpenIs(t, k, owner, file)
  }

  /** The OPEN that starts one: a confirmed client's, by an owner with no open of the file, no share denied. */
  ghost predicate StartsOpen(t: Tables, e: Event, id: nat, owner: Owner, file: nat) {
    && e.OpenFile? && e.owner == owner && e.file == file && id == t.nextState && Confirmed(t.clients, owner.client)
    && !HasOpen(t, owner, file) && !ShareDenied(t, file, e.access, e.deny)
  }

  lemma HasOpenIs(t: Tables, owner: Owner, file: nat)
    ensures HasOpen(t, owner, file) <==> exists k :: k in t.opens && IsOpen(t.opens[k], owner, file)
  {
    if k :| k in t.opens && IsOpen(t.opens[k], owner, file) { assert OpenIs(t, k, owner, file); }
  }

  lemma ShareDeniedIs(t: Tables, file: nat, access: bv32, deny: bv32)
    ensures ShareDenied(t, file, access, deny) <==>
      exists k :: k in t.opens && t.opens[k].file == file && ShareClash(access, deny, t.opens[k])
  {
    forall k | k in t.opens
      ensures ShareClash(access, deny, t.opens[k]) <==> Refuses(t.opens[k], access, deny)
    {
      ClashIsRefusal(t.opens[k], access, deny);
    }
  }

  lemma ClashIsRefusal(o: Open, access: bv32, deny: bv32)
    ensures ShareClash(access, deny, o) <==> Refuses(o, access, deny)
  {
    MeetsIsCommon(access, o.deny);
    MeetsIsCommon(deny, o.access);
  }

  lemma MeetsIsCommon(x: bv32, y: bv32)
    ensures Meets(x, y) <==> Common(x, y)
  {
  }

  /** OPEN's answer, and what it opened. */
  lemma OpenAnswers(t: Tables, owner: Owner, file: nat, access: bv32, deny: bv32, t': Tables, st: Status, id: nat, seqid: nat)
    requires Safe(t) && Opens(t, owner, file, access, deny, t', st, id, seqid)
    ensures st ==
      if !Confirmed(t.clients, owner.client) then STALE_CLIENTID
      else if HasOpen(t, owner, file) || !ShareDenied(t, file, access, deny) then OK else SHARE_DENIED
    ensures st == OK ==> OpenIs(t', id, owner, file) && t'.opens[id].seqid == seqid
    ensures st == OK ==> if HasOpen(t, owner, file) then OpenIs(t, id, owner, file) else StartsOpen(t, OpenFile(owner, file, access, deny), id, owner, file)
    ensures st != OK ==> t' == t
  {
    HasOpenIs(t, owner, file);
    ShareDeniedIs(t, file, access, deny);
  }

  lemma OpenSetsIff(t: Tables, o: Owner, f: nat, access: bv32, deny: bv32, t': Tables, st: Status, k: nat, seqid: nat,
                    id: nat, owner: Owner, file: nat)
    requires Safe(t) && Opens(t, o, f, access, deny, t', st, k, seqid)
    ensures OpenIs(t', id, owner, file) <==>
      OpenIs(t, id, owner, file) || StartsOpen(t, OpenFile(o, f, access, deny), id, owner, file)
  {
    OpenAnswers(t, o, f, access, deny, t', st, k, seqid);
    HasOpenIs(t, o, f);
    assert OpenKey(t, t.nextState);
  }

  /** An open is there after an operation exactly when it was and is not ended, or the operation started it. */
  lemma StepOpensIff(t: Tables, e: Event, mint: (nat, nat, string) -> nat, t': Tables, id: nat, owner: Owner, file: nat)
    requires Safe(t) && Step(t, e, mint, t')
    ensures OpenIs(t', id, owner, file) <==>
      (OpenIs(t, id, owner, file) && !EndsOpen(t, e, id, owner)) || StartsOpen(t, e, id, owner, file)
  {
    match e
    case OpenFile(o, f, a, d) =>
      var st, k, sq :| Opens(t, o, f, a, d, t', st, k, sq);
      OpenSetsIff(t, o, f, a, d, t', st, k, sq, id, owner, file);
    case SetClientidConfirm(c, v) =>
      var st :| Confirms(t, c, v, t', st);
      assert OpenKey(t, id);
    case _ =>
  }

  /** The bits and the seqid an open starts with. */
  lemma StartedOpen(t: Tables, e: Event, mint: (nat, nat, string) -> nat, t': Tables, id: nat, owner: Owner, file: nat)
    requires Safe(t) && Step(t, e, mint, t') && StartsOpen(t, e, id, owner, file)
    ensures id in t'.opens && t'.opens[id] == Open(owner, file, e.access, e.deny, 1)
  {
    var st, k, sq :| Opens(t, owner, file, e.access, e.deny, t', st, k, sq);
    OpenAnswers(t, owner, file, e.access, e.deny, t', st, k, sq);
    HasOpenIs(t, owner, file);
  }

  function Widened(o: Open, access: bv32, deny: bv32): Open {
    Open(o.owner, o.file, o.access | access, o.deny | deny, Next(o.seqid))
  }

  function Next(seqid: nat): nat {
    if seqid % 0x1_0000_0000 == 0xFFFF_FFFF then 0 else seqid % 0x1_0000_0000 + 1
  }

  lemma NextIsBump(seqid: nat)
    ensures Next(seqid) == Bump(seqid)
  {
  }

  lemma WidenedIsUpgraded(o: Open, access: bv32, deny: bv32)
    ensures Upgraded(o, access, deny) == Widened(o, access, deny)
  {
    NextIsBump(o.seqid);
  }

  /** What an operation makes of an open that stays: another OPEN by its owner adds bits, a downgrade sets them, and
      these two and OPEN_CONFIRM count its seqid up, modulo 2^32. */
  function OpenAfter(o: Open, id: nat, e: Event): Open {
    match e
    case OpenFile(owner, f, a, d) => if owner == o.owner && f == o.file then Widened(o, a, d) else o
    case OpenDowngrade(k, a, d) => if k == id then Open(o.owner, o.file, a, d, Next(o.seqid)) else o
    case OpenConfirm(k) => if k == id then o.(seqid := Next(o.seqid)) else o
    case _ => o
  }

  lemma WidenedOpen(t: Tables, owner: Owner, file: nat, access: bv32, deny: bv32, t': Tables, st: Status, k: nat, seqid: nat, id: nat)
    requires Safe(t) && Opens(t, owner, file, access, deny, t', st, k, seqid) && id in t.opens && id in t'.opens
    ensures t'.opens[id] == OpenAfter(t.opens[id], id, OpenFile(owner, file, access, deny))
  {
    assert OpenKey(t, id) && OpenPair(t.opens, id, k);
    if IsOpen(t.opens[id], owner, file) {
      WidenedIsUpgraded(t.opens[id], access, deny);
    } else {
      assert t'.opens[id] == t.opens[id];
    }
  }

  lemma OpenFields(t: Tables, e: Event, mint: (nat, nat, string) -> nat, t': Tables, id: nat)
    requires Safe(t) && Step(t, e, mint, t') && id in t.opens && id in t'.opens
    ensures t'.opens[id] == OpenAfter(t.opens[id], id, e)
  {
    NextIsBump(t.opens[id].seqid);
    match e
    case OpenFile(owner, f, a, d) =>
      var st, k, sq :| Opens(t, owner, f, a, d, t', st, k, sq);
      WidenedOpen(t, owner, f, a, d, t', st, k, sq, id);
    case OpenDowngrade(k, a, d) => var st :| Downgrades(t, k, a, d, t', st);
    case _ =>
  }

  /** OPEN_CONFIRM, of an open that is there, adds its owner to those known; nothing else does, and nothing removes one. */
  lemma OwnersMove(t: Tables, e: Event, mint: (nat, nat, string) -> nat, t': Tables, o: Owner)
    requires Step(t, e, mint, t')
    ensures o in t'.owners <==> o in t.owners || (e.OpenConfirm? && e.stateid in t.opens && t.opens[e.stateid].owner == o)
  {
    match e
    case SetClientidConfirm(c, v) => var st :| Confirms(t, c, v, t', st);
    case _ =>
  }

  ghost predicate OpenAt(ts: seq<Tables>, id: nat, owner: Owner, file: nat, i: nat) {
    i < |ts| ==> OpenIs(ts[i], id, owner, file)
  }

  ghost predicate LeftOpenAt(ts: seq<Tables>, es: seq<Event>, id: nat, owner: Owner, i: nat) {
    i < |es| && i < |ts| ==> !EndsOpen(ts[i], es[i], id, owner)
  }

  /** An open stays throughout exactly as long as no event ends it. */
  lemma {:induction false} OpenWhileIff(ts: seq<Tables>, es: seq<Event>, mint: (nat, nat, string) -> nat,
                                        id: nat, owner: Owner, file: nat, i: nat, j: nat)
    requires Run(ts, es, mint) && i <= j < |ts| && OpenIs(ts[i], id, owner, file)
    ensures (forall k: nat :: i <= k <= j ==> OpenAt(ts, id, owner, file, k)) <==>
      (forall k: nat :: i <= k < j ==> LeftOpenAt(ts, es, id, owner, k))
    decreases j
  {
    if i < j {
      OpenWhileIff(ts, es, mint, id, owner, file, i, j - 1);
      RunSafe(ts, es, mint, j - 1);
      assert StepAt(ts, es, mint, j - 1);
      if OpenAt(ts, id, owner, file, j - 1) {
        assert OpenKey(ts[j - 1], id);
        StepOpensIff(ts[j - 1], es[j - 1], mint, ts[j], id, owner, file);
      }
      assert LeftOpenAt(ts, es, id, owner, j - 1) <==> !EndsOpen(ts[j - 1], es[j - 1], id, owner);
      if forall k: nat :: i <= k <= j ==> OpenAt(ts, id, owner, file, k) {
        assert OpenAt(ts, id, owner, file, j - 1) && OpenAt(ts, id, owner, file, j);
      }
      if forall k: nat :: i <= k < j ==> LeftOpenAt(ts, es, id, owner, k) {
        assert LeftOpenAt(ts, es, id, owner, j - 1) && OpenAt(ts, id, owner, file, j - 1);
      }
    } else {
      assert OpenAt(ts, id, owner, file, i);
    }
  }

  /** An OPEN that is granted, at event i of a run: from then on its stateid names an open of that owner and file,
      throughout exactly as long as no event ends it. */
  lemma GrantedOpenIff(ts: seq<Tables>, es: seq<Event>, mint: (nat, nat, string) -> nat, i: nat, j: nat,
                       owner: Owner, file: nat, access: bv32, deny: bv32, id: nat, seqid: nat)
    requires Run(ts, es, mint) && i < |es| && i + 1 <= j < |ts| && es[i] == OpenFile(owner, file, access, deny)
    requires Opens(ts[i], owner, file, access, deny, ts[i + 1], OK, id, seqid)
    ensures OpenIs(ts[i + 1], id, owner, file)
    ensures (forall k: nat :: i + 1 <= k <= j ==> OpenAt(ts, id, owner, file, k)) <==>
      (forall k: nat :: i + 1 <= k < j ==> LeftOpenAt(ts, es, id, owner, k))
  {
    RunSafe(ts, es, mint, i);
    OpenAnswers(ts[i], owner, file, access, deny, ts[i + 1], OK, id, seqid);
    OpenWhileIff(ts, es, mint, id, owner, file, i + 1, j);
  }

  // ---- stateids ----

  ghost predicate NeitherAt(ts: seq<Tables>, id: nat, i: nat) {
    i < |ts| ==> id !in ts[i].opens && id !in ts[i].locks && id < ts[i].nextState
  }

  /** A stateid given out and no longer in use names nothing ever after. */
  lemma {:induction false} StateidNotReused(ts: seq<Tables>, es: seq<Event>, mint: (nat, nat, string) -> nat, id: nat, i: nat, j: nat)
    requires Run(ts, es, mint) && i <= j < |ts| && NeitherAt(ts, id, i)
    ensures NeitherAt(ts, id, j)
    decreases j
  {
    if i < j {
      StateidNotReused(ts, es, mint, id, i, j - 1);
      assert StepAt(ts, es, mint, j - 1);
      StaysUnused(ts[j - 1], es[j - 1], mint, ts[j], id);
    }
  }

  lemma StaysUnused(t: Tables, e: Event, mint: (nat, nat, string) -> nat, t': Tables, id: nat)
    requires Step(t, e, mint, t') && id !in t.opens && id !in t.locks && id < t.nextState
    ensures id !in t'.opens && id !in t'.locks && id < t'.nextState
  {
    match e
    case OpenFile(owner, f, a, d) => var st, k, sq :| Opens(t, owner, f, a, d, t', st, k, sq);
    case LockRange(who, f, x) => var st, k :| LocksFor(t, who, f, x, t', st, k);
    case SetClientidConfirm(c, v) => var st :| Confirms(t, c, v, t', st);
    case _ =>
  }

  /** CLOSE and OPEN_DOWNGRADE refuse exactly a stateid that names no open, LOCKU one that names no lock; the special
      stateids of CLOSE pass, and nothing refused changes anything. */
  lemma StateidAnswers(t: Tables, special: bool, id: nat, access: bv32, deny: bv32, off: nat, len: nat, t': Tables, st: Status)
    ensures Closes(t, special, id, t', st) ==> st == (if special || id in t.opens then OK else BAD_STATEID)
    ensures Downgrades(t, id, access, deny, t', st) ==> st == if id in t.opens then OK else BAD_STATEID
    ensures Unlocks(t, id, off, len, t', st) ==> st == if id in t.locks then OK else BAD_STATEID
    ensures st == BAD_STATEID && (Closes(t, special, id, t', st) || Downgrades(t, id, access, deny, t', st)) ==> t' == t
    ensures st == BAD_STATEID && Unlocks(t, id, off, len, t', st) ==> t' == t
  {
  }

  // ---- locks ----

  /** The record of an owner's locks on a file. */
  predicate LockIs(t: Tables, id: nat, owner: Owner, file: nat) {
    id in t.locks && t.locks[id].owner == owner && t.locks[id].file == file
  }

  ghost predicate HasLock(t: Tables, owner: Owner, file: nat) {
    exists k :: LockIs(t, k, owner, file)
  }

  lemma HasLockIs(t: Tables, owner: Owner, file: nat)
    ensures HasLock(t, owner, file) <==> exists k :: k in t.locks && IsLock(t.locks[k], owner, file)
  {
    if k :| k in t.locks && IsLock(t.locks[k], owner, file) { assert LockIs(t, k, owner, file); }
  }

  /** The owner a LOCK names is known: it has a confirmed client, or one of its lock stateids is given. */
  predicate Names(t: Tables, who: Who, owner: Owner) {
    match who
    case New(o) => o == owner && Confirmed(t.clients, o.client)
    case Known(k) => k in t.locks && t.locks[k].owner == owner
  }

  /** Another owner holds a clashing range of the file. */
  ghost predicate HeldByOther(t: Tables, owner: Owner, file: nat, r: Range) {
    exists k, s :: k in t.locks && t.locks[k].file == file && t.locks[k].owner != owner && s in t.locks[k].ranges && Clash(r, s)
  }

  lemma HeldByOtherIs(t: Tables, owner: Owner, file: nat, r: Range)
    ensures HeldByOther(t, owner, file, r) <==> Blocked(t.locks, owner, file, r)
  {
    if HeldByOther(t, owner, file, r) {
      var k, s :| k in t.locks && t.locks[k].file == file && t.locks[k].owner != owner && s in t.locks[k].ranges && Clash(r, s);
      var i :| 0 <= i < |t.locks[k].ranges| && t.locks[k].ranges[i] == s;
      assert BlockedBy(t.locks, owner, file, r, k, i);
    }
    if Blocked(t.locks, owner, file, r) {
      var k: nat, i: nat :| BlockedBy(t.locks, owner, file, r, k, i);
      assert t.locks[k].ranges[i] in t.locks[k].ranges;
    }
  }

  /** The LOCK that puts a range into the owner's record: its one record of the file, or a new one. */
  ghost predicate Takes(t: Tables, e: Event, id: nat, owner: Owner, file: nat, r: Range) {
    && e.LockRange? && e.cfh == Some(file) && e.r == r && Names(t, e.who, owner) && !HeldByOther(t, owner, file, r)
    && if HasLock(t, owner, file) then LockIs(t, id, owner, file) else id == t.nextState
  }

  /** LOCK's answers in their order, and what it locked. */
  lemma LockAnswers(t: Tables, who: Who, cfh: Option<nat>, r: Range, owner: Owner, t': Tables, st: Status, id: nat)
    requires Safe(t) && LocksFor(t, who, cfh, r, t', st, id)
    requires if who.New? then owner == who.owner else who.stateid in t.locks ==> owner == t.locks[who.stateid].owner
    ensures st ==
      if who.New? && !Names(t, who, owner) then STALE_CLIENTID
      else if cfh.None? then NOFILEHANDLE
      else if !Names(t, who, owner) then BAD_STATEID
      else if HeldByOther(t, owner, cfh.value, r) then DENIED else OK
    ensures st != OK ==> t' == t
    ensures st == OK ==> Takes(t, LockRange(who, cfh, r), id, owner, cfh.value, r)
  {
    if cfh.Some? {
      HasLockIs(t, owner, cfh.value);
      HeldByOtherIs(t, owner, cfh.value, r);
    }
  }

  /** The record a LOCK leaves: the range behind those it held. */
  lemma LockTaken(t: Tables, who: Who, file: nat, r: Range, owner: Owner, t': Tables, id: nat)
    requires Safe(t) && LocksFor(t, who, Some(file), r, t', OK, id)
    requires if who.New? then owner == who.owner else who.stateid in t.locks && owner == t.locks[who.stateid].owner
    ensures id in t'.locks && t'.locks[id] ==
      if LockIs(t, id, owner, file) then Lock(owner, file, Next(t.locks[id].seqid), t.locks[id].ranges + [r])
      else Lock(owner, file, 2, [r])
    ensures t'.locks - {id} == t.locks - {id} && t'.opens == t.opens && t'.clients == t.clients && t'.owners == t.owners
  {
    LockAnswers(t, who, Some(file), r, owner, t', OK, id);
    HasLockIs(t, owner, file);
    assert LockKey(t, t.nextState);
    if id in t.locks { NextIsBump(t.locks[id].seqid); }
    NextIsBump(1);
  }

  /** A range is held after an operation exactly when it was and is not given up, or the operation took it. */
  lemma StepHeldIff(t: Tables, e: Event, mint: (nat, nat, string) -> nat, t': Tables, id: nat, owner: Owner, file: nat, r: Range)
    requires Safe(t) && Step(t, e, mint, t')
    ensures HoldsRange(t', id, owner, file, r) <==>
      (HoldsRange(t, id, owner, file, r) && !GivesUp(t, e, id, owner, r)) || Takes(t, e, id, owner, file, r)
  {
    if HoldsRange(t, id, owner, file, r) {
      StepHoldsIff(t, e, mint, t', id, owner, file, r);
      TakesGivesNothingUp(t, e, id, owner, file, r);
    } else {
      match e
      case LockRange(who, cfh, x) =>
        var st, k :| LocksFor(t, who, cfh, x, t', st, k);
        LockNewlyHeld(t, who, cfh, x, t', st, k, id, owner, file, r);
      case Unlock(k, off, len) => if k in t.locks { KeptMeaning(t.locks[k].ranges, off, len, r); }
      case SetClientidConfirm(c, v) => var st :| Confirms(t, c, v, t', st);
      case _ =>
    }
  }

  lemma TakesGivesNothingUp(t: Tables, e: Event, id: nat, owner: Owner, file: nat, r: Range)
    ensures Takes(t, e, id, owner, file, r) ==> !GivesUp(t, e, id, owner, r)
  {
  }

  lemma LockNewlyHeld(t: Tables, who: Who, cfh: Option<nat>, x: Range, t': Tables, st: Status, k: nat,
                      id: nat, owner: Owner, file: nat, r: Range)
    requires Safe(t) && LocksFor(t, who, cfh, x, t', st, k) && !HoldsRange(t, id, owner, file, r)
    ensures HoldsRange(t', id, owner, file, r) <==> Takes(t, LockRange(who, cfh, x), id, owner, file, r)
  {
    if who.New? || who.stateid in t.locks {
      var o := OwnerOf(t, who);
      LockAnswers(t, who, cfh, x, o, t', st, k);
      if st == OK {
        LockTaken(t, who, cfh.value, x, o, t', k);
        OneRecord(t, o, cfh.value, k, id);
      }
    }
  }

  lemma OneRecord(t: Tables, owner: Owner, file: nat, a: nat, b: nat)
    requires Safe(t)
    ensures LockIs(t, a, owner, file) && LockIs(t, b, owner, file) ==> a == b
  {
    assert LockPair(t.locks, a, b);
  }

  /** LOCK, and LOCKT, are denied exactly when a byte of the range is held by another owner and one of the two is for
      writing; every range in play running forward and ending within the file offsets. */
  lemma DeniedIff(t: Tables, owner: Owner, file: nat, r: Range, st: Status)
    requires RangeSane(r) && (forall k, s :: k in t.locks && s in t.locks[k].ranges ==> RangeSane(s))
    requires Tests(t, owner, Some(file), r, st)
    ensures st == DENIED <==> exists k, s ::
      k in t.locks && t.locks[k].file == file && t.locks[k].owner != owner && s in t.locks[k].ranges && BytesMeet(r, s)
  {
    HeldByOtherIs(t, owner, file, r);
    forall k, s | k in t.locks && s in t.locks[k].ranges
      ensures Clash(r, s) <==> BytesMeet(r, s)
    {
      assert RangeSane(r) && RangeSane(s);
      OverlapIsShare(r.off, r.len, s.off, s.len);
    }
  }

  predicate RangeSane(r: Range) {
    IsU64(r.len) && Sane(r.off, r.len)
  }

  ghost predicate BytesMeet(r: Range, s: Range) {
    Share(r.off, r.len, s.off, s.len) && (r.write || s.write)
  }

  /** A lock record is there after an operation exactly when it was, its owner not released and its client not ousted,
      or a LOCK made it. */
  lemma StepLocksIff(t: Tables, e: Event, mint: (nat, nat, string) -> nat, t': Tables, id: nat, owner: Owner, file: nat)
    requires Safe(t) && Step(t, e, mint, t')
    ensures LockIs(t', id, owner, file) <==>
      || (LockIs(t, id, owner, file) && e != ReleaseLockowner(owner) && !Ousts(t, e, owner.client))
      || (e.LockRange? && Takes(t, e, id, owner, file, e.r))
  {
    match e
    case LockRange(who, cfh, x) =>
      var st, k :| LocksFor(t, who, cfh, x, t', st, k);
      LockMadeIff(t, who, cfh, x, t', st, k, id, owner, file);
    case SetClientidConfirm(c, v) =>
      var st :| Confirms(t, c, v, t', st);
      assert LockKey(t, id);
    case _ =>
  }

  lemma LockMadeIff(t: Tables, who: Who, cfh: Option<nat>, x: Range, t': Tables, st: Status, k: nat, id: nat, owner: Owner, file: nat)
    requires Safe(t) && LocksFor(t, who, cfh, x, t', st, k)
    ensures LockIs(t', id, owner, file) <==> LockIs(t, id, owner, file) || Takes(t, LockRange(who, cfh, x), id, owner, file, x)
  {
    if who.New? || who.stateid in t.locks {
      var o := OwnerOf(t, who);
      LockAnswers(t, who, cfh, x, o, t', st, k);
      if st == OK {
        LockTaken(t, who, cfh.value, x, o, t', k);
        OneRecord(t, o, cfh.value, k, id);
        assert LockKey(t, t.nextState);
      }
    }
  }

  /** Unlocking goes range by range, and keeps their order. */
  lemma {:induction false} KeptJoins(a: seq<Range>, b: seq<Range>, off: nat, len: nat)
    ensures Kept(a + b, off, len) == Kept(a, off, len) + Kept(b, off, len)
    decreases |b|
  {
    if b == [] {
      assert a + b == a;
    } else {
      var front := b[..|b| - 1];
      assert (a + b)[..|a + b| - 1] == a + front;
      KeptJoins(a, front, off, len);
    }
  }

  // ---- clients ----

  /** SETCLIENTID: the record it names is of that client instance, and the verifier it answers is the record's; an
      instance already known keeps its record, another gets the next number, unconfirmed. */
  lemma ClientidAnswers(t: Tables, verifier: nat, id: string, cb: Callback, mint: (nat, nat, string) -> nat,
                        t': Tables, clientid: nat, cv: nat, k: nat)
    requires Safe(t) && SetsClientid(t, verifier, id, cb, mint, t', clientid, cv)
    ensures clientid in t'.clients && t'.clients[clientid].id == id && t'.clients[clientid].verifier == verifier
    ensures t'.clients[clientid].confirmVerf == cv && t'.clients[clientid].cb == cb
    ensures k in t.clients && t.clients[k].id == id && t.clients[k].verifier == verifier ==> k == clientid
    ensures clientid !in t.clients ==>
      clientid == t.nextClient && cv == mint(clientid, verifier, id) && !t'.clients[clientid].confirmed
  {
    assert ClientKey(t, t.nextClient) && ClientPair(t.clients, k, clientid);
    if k in t.clients && t.clients[k].id == id && t.clients[k].verifier == verifier {
      assert IsInstance(t.clients[k], id, verifier);
    }
  }

  /** SETCLIENTID_CONFIRM is refused exactly for a number without a record, or with another verifier. */
  lemma ConfirmAnswers(t: Tables, clientid: nat, confirm: nat, t': Tables, st: Status)
    requires Confirms(t, clientid, confirm, t', st)
    ensures st == if clientid in t.clients && t.clients[clientid].confirmVerf == confirm then OK else STALE_CLIENTID
    ensures st == OK <==> Admits(t, SetClientidConfirm(clientid, confirm), clientid)
    ensures st != OK ==> t' == t
  {
  }

  /** A client's record stays, with its name, verifiers and callback, until another instance of it confirms; only a
      SETCLIENTID of the same instance gives it another callback. */
  lemma ClientStaysIff(t: Tables, e: Event, mint: (nat, nat, string) -> nat, t': Tables, c: nat)
    requires Safe(t) && Step(t, e, mint, t') && c in t.clients
    ensures c in t'.clients <==> !Ousts(t, e, c)
    ensures c in t'.clients ==>
      var r, r' := t.clients[c], t'.clients[c];
      && r'.id == r.id && r'.verifier == r.verifier && r'.confirmVerf == r.confirmVerf
      && r'.cb == if e.SetClientid? && e.id == r.id && e.verifier == r.verifier then e.cb else r.cb
  {
    match e
    case SetClientid(v, id, cb) =>
      var k, cv :| SetsClientid(t, v, id, cb, mint, t', k, cv);
      ClientidAnswers(t, v, id, cb, mint, t', k, cv, c);
      assert ClientKey(t, c);
    case SetClientidConfirm(k, v) => var st :| Confirms(t, k, v, t', st);
    case _ =>
  }

  /** The counters go up by one exactly when a number is given out. */
  lemma CountersMove(t: Tables, e: Event, mint: (nat, nat, string) -> nat, t': Tables)
    requires Safe(t) && Step(t, e, mint, t')
    ensures t'.nextState == t.nextState + (if t.nextState in t'.opens || t.nextState in t'.locks then 1 else 0)
    ensures t'.nextClient == t.nextClient + (if t.nextClient in t'.clients then 1 else 0)
  {
    assert OpenKey(t, t.nextState) && LockKey(t, t.nextState) && ClientKey(t, t.nextClient);
    match e
    case SetClientid(v, id, cb) => var k, cv :| SetsClientid(t, v, id, cb, mint, t', k, cv);
    case SetClientidConfirm(k, v) => var st :| Confirms(t, k, v, t', st);
    case OpenFile(owner, f, a, d) => var st, k, sq :| Opens(t, owner, f, a, d, t', st, k, sq);
    case LockRange(who, f, x) => var st, k :| LocksFor(t, who, f, x, t', st, k);
    case _ =>
  }

  ghost predicate GoneAt(ts: seq<Tables>, c: nat, i: nat) {
    i < |ts| ==> c !in ts[i].clients && c < ts[i].nextClient
  }

  /** A client number whose record is gone never names a client again. */
  lemma {:induction false} ClientidNotReused(ts: seq<Tables>, es: seq<Event>, mint: (nat, nat, string) -> nat, c: nat, i: nat, j: nat)
    requires Run(ts, es, mint) && i <= j < |ts| && GoneAt(ts, c, i)
    ensures GoneAt(ts, c, j)
    decreases j
  {
    if i < j {
      ClientidNotReused(ts, es, mint, c, i, j - 1);
      assert StepAt(ts, es, mint, j - 1);
      StaysGone(ts[j - 1], es[j - 1], mint, ts[j], c);
    }
  }

  lemma StaysGone(t: Tables, e: Event, mint: (nat, nat, string) -> nat, t': Tables, c: nat)
    requires Step(t, e, mint, t') && c !in t.clients && c < t.nextClient
    ensures c !in t'.clients && c < t'.nextClient
  {
    match e
    case SetClientid(v, id, cb) => var k, cv :| SetsClientid(t, v, id, cb, mint, t', k, cv);
    case SetClientidConfirm(k, v) => var st :| Confirms(t, k, v, t', st);
    case OpenFile(owner, f, a, d) => var st, k, sq :| Opens(t, owner, f, a, d, t', st, k, sq);
    case LockRange(who, f, x) => var st, k :| LocksFor(t, who, f, x, t', st, k);
    case _ =>
  }
}
