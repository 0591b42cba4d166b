/**
 Ordered enumeration of finite sets of numbers, as a balanced tree keyed by
 number enumerates its keys, and the rank of an element in that order.
 */
module SortedSets {

  lemma {:induction false} LeastOf(s: set<nat>) returns (m: nat)
    requires s != {}
    ensures m in s && forall x :: x in s ==> m <= x
  {
    var x :| x in s;
    var rest := s - {x};
    if rest == {} {
      m := x;
    } else {
      var least := LeastOf(rest);
      m := if least <= x then least else x;
    }
    forall y | y in s ensures m <= y {
      assert y == x || y in rest;
    }
  }

  lemma HasMinimum(s: set<nat>)
    requires s != {}
    ensures exists m :: m in s && forall x :: x in s ==> m <= x
  {
    var m := LeastOf(s);
  }

  predicate StrictlyAscending(r: seq<nat>) {
    forall i, j :: 0 <= i < j < |r| ==> r[i] < r[j]
  }

  predicate StrictlyDescending(r: seq<nat>) {
    forall i, j :: 0 <= i < j < |r| ==> r[i] > r[j]
  }

  function Elements(r: seq<nat>): set<nat> {
    set x | x in r
  }

  lemma {:induction false} HasEnumeration(s: set<nat>)
    ensures exists r :: StrictlyAscending(r) && Elements(r) == s
  {
    if s == {} {
      assert Elements([]) == s;
    } else {
      HasMinimum(s);
      var m :| m in s && forall x :: x in s ==> m <= x;
      HasEnumeration(s - {m});
      PrependToSome(m, s - {m});
      assert s - {m} + {m} == s;
    }
  }

  lemma PrependToSome(m: nat, s: set<nat>)
    requires exists r :: StrictlyAscending(r) && Elements(r) == s
    requires forall x :: x in s ==> m < x
    ensures exists r :: StrictlyAscending(r) && Elements(r) == s + {m}
  {
    var rest :| StrictlyAscending(rest) && Elements(rest) == s;
    PrependSmaller(m, rest);
  }

  lemma PrependSmaller(m: nat, rest: seq<nat>)
    requires StrictlyAscending(rest) && forall x :: x in Elements(rest) ==> m < x
    ensures StrictlyAscending([m] + rest)
    ensures Elements([m] + rest) == Elements(rest) + {m}
  {
    assert forall i :: 0 <= i < |rest| ==> rest[i] in Elements(rest);
  }

  /** The elements of a set in increasing order. */
  ghost function Ascending(s: set<nat>): (r: seq<nat>)
    ensures |r| == |s|
    ensures Elements(r) == s
    ensures StrictlyAscending(r)
  {
    HasEnumeration(s);
    var r :| StrictlyAscending(r) && Elements(r) == s;
    DistinctCount(r);
    r
  }

  method PickMinimum(s: set<nat>) returns (m: nat)
    requires s != {}
    ensures m in s && forall x :: x in s ==> m <= x
  {
    HasMinimum(s);
    m :| m in s && forall x :: x in s ==> m <= x;
  }

  /** The keys taken so far, and those left, which are all larger. */
  predicate Listed(r: seq<nat>, left: set<nat>, s: set<nat>) {
    Elements(r) + left == s && StrictlyAscending(r) && (r != [] ==> forall y :: y in left ==> r[|r| - 1] < y)
  }

  lemma ListNext(r: seq<nat>, left: set<nat>, s: set<nat>, m: nat)
    requires Listed(r, left, s) && m in left && forall x :: x in left ==> m <= x
    ensures Listed(r + [m], left - {m}, s)
  {
    AppendLarger(r, m);
    assert (r + [m])[|r|] == m;
  }

  /** The keys of a tree in key order (`g_tree_keys`). */
  method TreeKeys(s: set<nat>) returns (r: seq<nat>)
    ensures r == Ascending(s)
  {
    var left := s;
    r := [];
    while left != {}
      invariant Listed(r, left, s)
      decreases left
    {
      var m := PickMinimum(left);
      ListNext(r, left, s, m);
      r, left := r + [m], left - {m};
    }
    AscendingUnique(r, Ascending(s));
  }

  function Reversed(r: seq<nat>): (d: seq<nat>)
    ensures |d| == |r|
    ensures forall i :: 0 <= i < |r| ==> d[i] == r[|r| - 1 - i]
    ensures Elements(d) == Elements(r)
  {
    var d := seq(|r|, i requires 0 <= i < |r| => r[|r| - 1 - i]);
    assert forall i :: 0 <= i < |r| ==> r[i] == d[|r| - 1 - i];
    d
  }

  /** `g_list_reverse(g_tree_keys(t))`. */
  ghost function Descending(s: set<nat>): (d: seq<nat>)
    ensures |d| == |s|
    ensures Elements(d) == s
    ensures StrictlyDescending(d)
  {
    Reversed(Ascending(s))
  }

  lemma {:induction false} DistinctCount(r: seq<nat>)
    requires StrictlyAscending(r)
    ensures |Elements(r)| == |r|
  {
    if r == [] {
      assert Elements(r) == {};
    } else {
      var n := |r| - 1;
      DistinctCount(r[..n]);
      assert r == r[..n] + [r[n]];
      assert Elements(r) == Elements(r[..n]) + {r[n]};
      assert r[n] !in Elements(r[..n]);
    }
  }

  /** The position of an element in increasing order, counted from 1. */
  ghost function Rank(s: set<nat>, u: nat): (n: nat)
    requires u in s
    ensures 1 <= n <= |s| && Ascending(s)[n - 1] == u
  {
    assert u in Elements(Ascending(s));
    var i :| 0 <= i < |s| && Ascending(s)[i] == u;
    i + 1
  }

  lemma RankMonotone(s: set<nat>, u: nat, v: nat)
    requires u in s && v in s
    ensures u < v <==> Rank(s, u) < Rank(s, v)
    ensures u == v <==> Rank(s, u) == Rank(s, v)
  {
  }

  lemma TailElements(r: seq<nat>)
    requires StrictlyAscending(r) && r != []
    ensures Elements(r[1..]) == Elements(r) - {r[0]}
  {
    forall x | x in r && x != r[0]
      ensures x in r[1..]
    {
      var k :| 0 <= k < |r| && r[k] == x;
      assert r[1..][k - 1] == x;
    }
  }

  /** A strictly ascending sequence is determined by its elements. */
  lemma {:induction false} AscendingUnique(r: seq<nat>, q: seq<nat>)
    requires StrictlyAscending(r) && StrictlyAscending(q)
    requires Elements(r) == Elements(q)
    ensures r == q
  {
    if r == [] {
      assert forall i :: 0 <= i < |q| ==> q[i] in Elements(q);
    } else {
      assert r[0] in Elements(q);
      assert q[0] in Elements(r);
      TailElements(r);
      TailElements(q);
      AscendingUnique(r[1..], q[1..]);
    }
  }

  /** One more position of an ascending sequence adds one new element. */
  lemma PrefixGrows(r: seq<nat>, i: nat)
    requires StrictlyAscending(r) && i < |r|
    ensures Elements(r[..i + 1]) == Elements(r[..i]) + {r[i]}
    ensures r[i] !in Elements(r[..i])
    ensures r[i] in Elements(r)
  {
    assert r[..i + 1] == r[..i] + [r[i]];
  }

  lemma WholePrefix(r: seq<nat>)
    ensures r[..|r|] == r
    ensures Elements(r[..0]) == {}
  {
  }

  lemma AppendLarger(r: seq<nat>, x: nat)
    requires StrictlyAscending(r)
    requires r != [] ==> r[|r| - 1] < x
    ensures StrictlyAscending(r + [x])
    ensures Elements(r + [x]) == Elements(r) + {x}
  {
  }
}
