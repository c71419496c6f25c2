/** Finite sets of numbers: ascending traversal and sums. */
module Numbers {

  ghost predicate Ascending(s: seq<nat>) {
    forall i, j :: 0 <= i < j < |s| ==> s[i] < s[j]
  }

  ghost predicate IsLeast(x: nat, ids: set<nat>) {
    x in ids && forall y :: y in ids ==> x <= y
  }

  lemma {:induction false} LeastExists(ids: set<nat>)
    requires ids != {}
    ensures exists x :: IsLeast(x, ids)
    decreases |ids|
  {
    var k :| k in ids;
    var rest := ids - {k};
    if rest != {} {
      LeastExists(rest);
      var m :| IsLeast(m, rest);
      assert forall y :: y in ids ==> y == k || y in rest;
      assert IsLeast(if m < k then m else k, ids);
    } else {
      assert ids == {k};
      assert IsLeast(k, ids);
    }
  }

  function Least(ids: set<nat>): (x: nat)
    requires ids != {}
    ensures x in ids && forall y :: y in ids ==> x <= y
  {
    LeastExists(ids);
    var x :| x in ids && forall y :: y in ids ==> x <= y;
    x
  }

  /** The ascending traversal of a set, as a std::set or std::map with integer keys iterates. */
  function Sorted(ids: set<nat>): (s: seq<nat>)
    ensures Ascending(s)
    ensures forall x :: x in s <==> x in ids
    ensures |s| == |ids|
    decreases |ids|
  {
    if ids == {} then [] else
    var x := Least(ids);
    var rest := Sorted(ids - {x});
    assert forall y | y in rest :: x < y;
    [x] + rest
  }

  lemma AscendingSnoc(s: seq<nat>, x: nat)
    requires Ascending(s) && forall y :: y in s ==> y < x
    ensures Ascending(s + [x])
  {
    assert forall i :: 0 <= i < |s| ==> s[i] in s;
  }

  lemma HeadLeast(a: seq<nat>, k: nat)
    requires Ascending(a) && k in a
    ensures a[0] <= k
  {
    var i :| 0 <= i < |a| && a[i] == k;
    if i != 0 { assert a[0] < a[i]; }
  }

  lemma TailMembers(a: seq<nat>, k: nat)
    requires Ascending(a) && a != []
    ensures k in a[1..] <==> k in a && k != a[0]
  {
    if k in a && k != a[0] {
      var i :| 0 <= i < |a| && a[i] == k;
      assert a[1..][i - 1] == k;
    }
    if k in a[1..] {
      var i :| 0 <= i < |a| - 1 && a[1..][i] == k;
      assert a[0] < a[i + 1];
    }
  }

  lemma {:induction false} AscendingUnique(a: seq<nat>, b: seq<nat>)
    requires Ascending(a) && Ascending(b)
    requires forall k :: k in a <==> k in b
    ensures a == b
  {
    if b != [] { assert b[0] in b && b[0] in a; }
    if a == [] {
    } else {
      assert a[0] in a && a[0] in b;
      HeadLeast(a, b[0]);
      HeadLeast(b, a[0]);
      forall k
        ensures k in a[1..] <==> k in b[1..]
      {
        TailMembers(a, k);
        TailMembers(b, k);
      }
      AscendingUnique(a[1..], b[1..]);
      assert a == [a[0]] + a[1..] && b == [b[0]] + b[1..];
    }
  }

  lemma SortedUnique(s: seq<nat>, ids: set<nat>)
    requires Ascending(s) && forall x :: x in s <==> x in ids
    ensures s == Sorted(ids)
  {
    AscendingUnique(s, Sorted(ids));
  }

  /** Sum of f over a finite set, taken in ascending order. */
  ghost function Sum(ids: set<nat>, f: nat -> nat): nat
    decreases |ids|
  {
    if ids == {} then 0 else
    var x := Least(ids);
    f(x) + Sum(ids - {x}, f)
  }

  lemma {:induction false} SumInsert(ids: set<nat>, f: nat -> nat, x: nat)
    requires x !in ids
    ensures Sum(ids + {x}, f) == Sum(ids, f) + f(x)
    decreases |ids|
  {
    var all := ids + {x};
    var m := Least(all);
    if m == x {
      assert all - {m} == ids;
    } else {
      assert m == Least(ids);
      SumInsert(ids - {m}, f, x);
      assert all - {m} == (ids - {m}) + {x};
    }
  }

  lemma {:induction false} SumCongruent(ids: set<nat>, f: nat -> nat, g: nat -> nat)
    requires forall x :: x in ids ==> f(x) == g(x)
    ensures Sum(ids, f) == Sum(ids, g)
    decreases |ids|
  {
    if ids != {} { SumCongruent(ids - {Least(ids)}, f, g); }
  }
}
