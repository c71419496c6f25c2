/** Listing a directory from a list of candidate names, and walking links in key order. */
module Listings {
  import opened Keys
  import opened Options
  import opened FileSystem
  import opened Observations
  import opened Handles

  predicate Beyond(after: Option<Name>, n: Name) {
    after.None? || Less(after.value, n)
  }

  /** Of the given names, those bound in dir and beyond the cursor, with their children. */
  ghost function Found(v: View, dir: nat, after: Option<Name>, ns: seq<Name>): (es: seq<Entry>)
    ensures |es| <= |ns|
  {
    if ns == [] then [] else
    var n := ns[|ns| - 1];
    Found(v, dir, after, ns[..|ns| - 1]) +
    (if Beyond(after, n) && Edge(dir, n) in v.links then [Entry(n, v.links[Edge(dir, n)])] else [])
  }

  lemma {:induction false} FoundPrefix(v: View, dir: nat, after: Option<Name>, ns: seq<Name>, i: nat)
    requires i <= |ns|
    ensures Found(v, dir, after, ns[..i]) <= Found(v, dir, after, ns)
  {
    if i < |ns| {
      FoundPrefix(v, dir, after, ns[..|ns| - 1], i);
      assert ns[..|ns| - 1][..i] == ns[..i];
    } else {
      assert ns[..i] == ns;
    }
  }

  /** Meeting an entry beyond a full page settles the page. */
  lemma FullPage(v: View, dir: nat, after: Option<Name>, ns: seq<Name>, i: nat)
    requires i < |ns| && Beyond(after, ns[i]) && Edge(dir, ns[i]) in v.links
    ensures var all, page := Found(v, dir, after, ns), Found(v, dir, after, ns[..i]);
      |all| > |page| && all[..|page|] == page
  {
    assert ns[..i + 1][..i] == ns[..i];
    FoundPrefix(v, dir, after, ns, i + 1);
    FoundPrefix(v, dir, after, ns, i);
  }

  lemma BeyondCursor(n: Name, after: Name)
    ensures !Leq(n, after) <==> Less(after, n)
  {
    LessTotal(n, after);
    if Less(after, n) { LessAsymmetric(after, n); }
  }

  lemma AscendingInit(ns: seq<Name>, init: seq<Name>, last: Name)
    requires Ascending(ns) && ns == init + [last]
    ensures Ascending(init) && forall n :: n in init ==> Less(n, last)
  {
    forall i: nat, j: nat
      ensures InOrder(init, i, j)
    {
      assert InOrder(ns, i, j);
    }
    forall n | n in init
      ensures Less(n, last)
    {
      var i :| 0 <= i < |init| && init[i] == n;
      assert InOrder(ns, i, |init|);
    }
  }

  lemma {:induction false} FoundMeaning(v: View, dir: nat, after: Option<Name>, ns: seq<Name>)
    requires Ascending(ns)
    ensures EntriesAscend(Found(v, dir, after, ns))
    ensures forall x :: x in Found(v, dir, after, ns) <==>
      x.name in ns && Beyond(after, x.name) && Get(v.links, Edge(dir, x.name)) == Some(x.child)
  {
    if ns != [] {
      var k := |ns| - 1;
      assert ns == ns[..k] + [ns[k]];
      AscendingInit(ns, ns[..k], ns[k]);
      FoundMeaning(v, dir, after, ns[..k]);
      var before, all := Found(v, dir, after, ns[..k]), Found(v, dir, after, ns);
      forall i, j | 0 <= i < j < |all|
        ensures Less(all[i].name, all[j].name)
      {
        assert before[i] in before;
      }
    }
  }

  lemma EntriesUnique(a: seq<Entry>, b: seq<Entry>)
    requires EntriesAscend(a) && EntriesAscend(b)
    requires forall x :: x in a <==> x in b
    ensures a == b
  {
    forall n
      ensures n in NamesOf(a) <==> n in NamesOf(b)
    {
      NamedIn(a, b, n);
      NamedIn(b, a, n);
    }
    NamesAscend(a);
    NamesAscend(b);
    AscendingUnique(NamesOf(a), NamesOf(b));
    assert |NamesOf(a)| == |NamesOf(b)|;
    forall i | 0 <= i < |a|
      ensures a[i] == b[i]
    {
      assert NamesOf(a)[i] == NamesOf(b)[i] && a[i] in a && a[i] in b;
      var j :| 0 <= j < |b| && b[j] == a[i];
      LessIrreflexive(a[i].name);
    }
  }

  lemma NamedIn(a: seq<Entry>, b: seq<Entry>, n: Name)
    requires forall x :: x in a ==> x in b
    ensures n in NamesOf(a) ==> n in NamesOf(b)
  {
    if n in NamesOf(a) {
      var i :| 0 <= i < |a| && NamesOf(a)[i] == n;
      assert a[i] in a;
      var j :| 0 <= j < |b| && b[j] == a[i];
      assert NamesOf(b)[j] == n;
    }
  }

  /** When the candidates include every bound name, what is found is the listing, from the cursor on. */
  lemma FoundIsListing(v: View, dir: nat, ns: seq<Name>)
    requires Ascending(ns) && forall n :: Edge(dir, n) in v.links ==> n in ns
    ensures Found(v, dir, None, ns) == Listing(v, dir)
    ensures forall a :: Found(v, dir, Some(a), ns) == After(Listing(v, dir), a)
  {
    ListingMeaning(v, dir);
    var ls := Listing(v, dir);
    assert forall x :: x in ls <==> Get(v.links, Edge(dir, x.name)) == Some(x.child);
    FoundMeaning(v, dir, None, ns);
    EntriesUnique(Found(v, dir, None, ns), ls);
    forall a
      ensures Found(v, dir, Some(a), ns) == After(ls, a)
    {
      FoundMeaning(v, dir, Some(a), ns);
      AfterMeaning(ls, a);
      EntriesUnique(Found(v, dir, Some(a), ns), After(ls, a));
    }
  }

  lemma NothingListed(v: View, dir: nat)
    requires forall n :: Edge(dir, n) !in v.links
    ensures Listing(v, dir) == []
  {
    ListingUnique(v, dir, []);
  }

  // ---- all links, in the order of a map keyed by (directory, name) ----

  ghost predicate EdgeBefore(es: seq<Edge>, i: int, j: int) {
    0 <= i < j < |es| ==> es[i].dir < es[j].dir || (es[i].dir == es[j].dir && Less(es[i].name, es[j].name))
  }

  function EdgeBytes(e: Edge): Bytes
    requires e.dir < TWO64
  {
    Be(e.dir) + e.name
  }

  function EdgeFrom(k: Bytes): Edge
    requires |k| >= 8
  {
    Edge(Rdbe(k[..8]), k[8..])
  }

  lemma EdgeRoundTrip(e: Edge)
    requires e.dir < TWO64
    ensures EdgeFrom(EdgeBytes(e)) == e
  {
    BeRoundTrip(e.dir);
    assert EdgeBytes(e)[..8] == Be(e.dir) && EdgeBytes(e)[8..] == e.name;
  }

  function EdgeKeys(es: set<Edge>): set<Bytes>
    requires forall e :: e in es ==> e.dir < TWO64
  {
    set e | e in es :: EdgeBytes(e)
  }

  /** The pair order is the byte order of the pair's encoding. */
  function InKeyOrder(es: set<Edge>): (order: seq<Edge>)
    requires forall e :: e in es ==> e.dir < TWO64
  {
    var ks := Sorted(EdgeKeys(es));
    assert forall k | k in ks :: |k| >= 8;
    seq(|ks|, i requires 0 <= i < |ks| => assert ks[i] in ks; EdgeFrom(ks[i]))
  }

  lemma KeyOrderMeaning(es: set<Edge>, order: seq<Edge>)
    requires forall e :: e in es ==> e.dir < TWO64
    requires order == InKeyOrder(es)
    ensures forall e :: e in order <==> e in es
    ensures forall i, j :: EdgeBefore(order, i, j)
  {
    var ks := Sorted(EdgeKeys(es));
    forall e
      ensures e in order <==> e in es
    {
      if e in es {
        EdgeRoundTrip(e);
        assert EdgeBytes(e) in ks;
        var i :| 0 <= i < |ks| && ks[i] == EdgeBytes(e);
        assert order[i] == e;
      }
      if e in order {
        var i :| 0 <= i < |order| && order[i] == e;
        KeyAt(es, ks, i);
      }
    }
    forall i, j
      ensures EdgeBefore(order, i, j)
    {
      if 0 <= i < j < |order| {
        KeyAt(es, ks, i);
        KeyAt(es, ks, j);
        assert InOrder(ks, i, j);
        BeConcatOrder(order[i].dir, order[j].dir, order[i].name, order[j].name);
      }
    }
  }

  lemma KeyAt(es: set<Edge>, ks: seq<Bytes>, i: nat)
    requires forall e :: e in es ==> e.dir < TWO64
    requires i < |ks| && forall k :: k in ks <==> k in EdgeKeys(es)
    ensures |ks[i]| >= 8 && EdgeFrom(ks[i]) in es && ks[i] == EdgeBytes(EdgeFrom(ks[i]))
  {
    assert ks[i] in ks;
    var e :| e in es && EdgeBytes(e) == ks[i];
    EdgeRoundTrip(e);
  }
}
