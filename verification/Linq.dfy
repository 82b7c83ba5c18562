/** The query operators that the program composes: filtering, stable sorting, joining. */
module Linq {

  // ---------- Where ----------

  function Where<T>(s: seq<T>, p: T -> bool): seq<T> {
    if s == [] then [] else Where(s[..|s| - 1], p) + (if p(s[|s| - 1]) then [s[|s| - 1]] else [])
  }

  lemma {:induction false} WhereMembers<T(!new)>(s: seq<T>, p: T -> bool)
    ensures forall x :: x in Where(s, p) <==> x in s && p(x)
    ensures |Where(s, p)| <= |s|
  {
    if s != [] {
      WhereMembers(s[..|s| - 1], p);
      assert s == s[..|s| - 1] + [s[|s| - 1]];
    }
  }

  lemma WhereOneMore<T>(s: seq<T>, x: T, p: T -> bool)
    ensures Where(s + [x], p) == if p(x) then Where(s, p) + [x] else Where(s, p)
  {
    assert (s + [x])[..|s|] == s;
  }

  /** As many elements are selected as there are places whose element passes. */
  lemma {:induction false} WhereCount<T>(s: seq<T>, p: T -> bool, places: set<nat>)
    requires forall i: nat :: i in places <==> i < |s| && p(s[i])
    ensures |Where(s, p)| == |places|
  {
    if s == [] {
      assert (forall x: nat :: x !in places) ==> places == {};
    } else {
      var k: nat := |s| - 1;
      WhereCount(s[..k], p, places - {k});
    }
  }

  /** The places of one list in another, in order. */
  ghost predicate Increasing(places: seq<nat>, n: nat) {
    && (forall k :: 0 <= k < |places| ==> places[k] < n)
    && forall k, l :: 0 <= k < l < |places| ==> places[k] < places[l]
  }

  lemma OneMorePlace(places: seq<nat>, n: nat)
    requires Increasing(places, n)
    ensures Increasing(places, n + 1) && Increasing(places + [n], n + 1)
  {
  }

  /** Filtering keeps the order. */
  lemma {:induction false} WherePlaces<T>(s: seq<T>, p: T -> bool) returns (places: seq<nat>)
    ensures |places| == |Where(s, p)| && Increasing(places, |s|)
    ensures forall k :: 0 <= k < |places| ==> Where(s, p)[k] == s[places[k]]
  {
    if s == [] {
      places := [];
    } else {
      hide Increasing;
      var k := |s| - 1;
      places := WherePlaces(s[..k], p);
      OneMorePlace(places, k);
      if p(s[k]) {
        places := places + [k];
      }
    }
  }

  /** Sorting keeps the order of elements that compare equal. */
  lemma {:induction false} InsertIsStable<T(!new)>(s: seq<T>, x: T, leq: (T, T) -> bool, p: T -> bool)
    requires forall y, z :: p(y) && p(z) ==> leq(y, z)
    ensures Where(Insert(s, x, leq), p) == Where(s + [x], p)
  {
    WhereOneMore(s, x, p);
    if s != [] && !leq(s[|s| - 1], x) {
      var front, last := s[..|s| - 1], s[|s| - 1];
      InsertIsStable(front, x, leq, p);
      assert s == front + [last];
      WhereOneMore(front, last, p);
      WhereOneMore(front, x, p);
      WhereOneMore(Insert(front, x, leq), last, p);
    }
  }

  lemma {:induction false} OrderByIsStable<T(!new)>(s: seq<T>, leq: (T, T) -> bool, p: T -> bool)
    requires forall y, z :: p(y) && p(z) ==> leq(y, z)
    ensures Where(OrderBy(s, leq), p) == Where(s, p)
  {
    hide Where, Insert;
    if s != [] {
      var front, last := s[..|s| - 1], s[|s| - 1];
      OrderByIsStable(front, leq, p);
      InsertIsStable(OrderBy(front, leq), last, leq, p);
      WhereOneMore(OrderBy(front, leq), last, p);
      assert s == front + [last];
      WhereOneMore(front, last, p);
    }
  }

  /** Filtering keeps or drops all occurrences of an element. */
  lemma {:induction false} WhereMultiset<T(!new)>(s: seq<T>, p: T -> bool, x: T)
    ensures multiset(Where(s, p))[x] == if p(x) then multiset(s)[x] else 0
  {
    if s != [] {
      var k := |s| - 1;
      assert s == s[..k] + [s[k]];
      WhereMultiset(s[..k], p, x);
    }
  }

  lemma WherePermutation<T(!new)>(s: seq<T>, t: seq<T>, p: T -> bool)
    requires multiset(s) == multiset(t)
    ensures multiset(Where(s, p)) == multiset(Where(t, p))
  {
    forall x ensures multiset(Where(s, p))[x] == multiset(Where(t, p))[x] {
      WhereMultiset(s, p, x);
      WhereMultiset(t, p, x);
    }
  }

  lemma SameElements<T(!new)>(s: seq<T>, t: seq<T>)
    requires multiset(s) == multiset(t)
    ensures |s| == |t|
    ensures forall x :: x in s <==> x in t
  {
    assert |multiset(s)| == |s| && |multiset(t)| == |t|;
    forall x ensures x in s <==> x in t {
      assert x in s <==> x in multiset(s);
      assert x in t <==> x in multiset(t);
    }
  }

  /** A filter and its complement share out the elements. */
  lemma {:induction false} WhereSplit<T(!new)>(s: seq<T>, p: T -> bool, q: T -> bool)
    requires forall x :: x in s ==> (p(x) <==> !q(x))
    ensures multiset(Where(s, p) + Where(s, q)) == multiset(s)
  {
    if s != [] {
      var k := |s| - 1;
      assert s == s[..k] + [s[k]];
      WhereSplit(s[..k], p, q);
    }
  }

  /** Filters commute. */
  lemma {:induction false} WhereCommutes<T>(s: seq<T>, p: T -> bool, q: T -> bool)
    ensures Where(Where(s, p), q) == Where(Where(s, q), p)
  {
    if s != [] {
      var front, last := s[..|s| - 1], s[|s| - 1];
      assert s == front + [last];
      WhereCommutes(front, p, q);
      WhereOneMore(front, last, p);
      WhereOneMore(front, last, q);
      WhereOneMore(Where(front, p), last, q);
      WhereOneMore(Where(front, q), last, p);
    }
  }

  /** Filtering twice selects what passes both filters. */
  lemma {:induction false} WhereBoth<T(!new)>(s: seq<T>, p: T -> bool, q: T -> bool, both: T -> bool)
    requires forall x :: both(x) <==> p(x) && q(x)
    ensures Where(Where(s, p), q) == Where(s, both)
  {
    if s != [] {
      var front, last := s[..|s| - 1], s[|s| - 1];
      assert s == front + [last];
      WhereBoth(front, p, q, both);
      WhereOneMore(front, last, p);
      WhereOneMore(front, last, both);
      WhereOneMore(Where(front, p), last, q);
    }
  }

  /** Filters that agree select the same. */
  lemma {:induction false} WhereSame<T(!new)>(s: seq<T>, p: T -> bool, q: T -> bool)
    requires forall x :: p(x) <==> q(x)
    ensures Where(s, p) == Where(s, q)
  {
    if s != [] {
      WhereSame(s[..|s| - 1], p, q);
    }
  }

  // ---------- OrderBy ----------

  /** `leq` compares any two elements, and consistently so. */
  ghost predicate IsOrder<T(!new)>(leq: (T, T) -> bool) {
    && (forall x, y :: leq(x, y) || leq(y, x))
    && (forall x, y, z :: leq(x, y) && leq(y, z) ==> leq(x, z))
  }

  ghost predicate Sorted<T>(s: seq<T>, leq: (T, T) -> bool) {
    forall i, j :: 0 <= i < j < |s| ==> leq(s[i], s[j])
  }

  /** Places `x` behind the last element that may precede it. */
  function Insert<T>(s: seq<T>, x: T, leq: (T, T) -> bool): (r: seq<T>)
    ensures multiset(r) == multiset(s) + multiset{x}
  {
    if s == [] || leq(s[|s| - 1], x) then s + [x]
    else
      assert s == s[..|s| - 1] + [s[|s| - 1]];
      Insert(s[..|s| - 1], x, leq) + [s[|s| - 1]]
  }

  /** The stable sort: elements that compare equal keep their order. */
  function OrderBy<T>(s: seq<T>, leq: (T, T) -> bool): (r: seq<T>)
    ensures multiset(r) == multiset(s)
  {
    if s == [] then []
    else
      assert s == s[..|s| - 1] + [s[|s| - 1]];
      Insert(OrderBy(s[..|s| - 1], leq), s[|s| - 1], leq)
  }

  lemma {:induction false} InsertSorted<T(!new)>(s: seq<T>, x: T, leq: (T, T) -> bool)
    requires IsOrder(leq) && Sorted(s, leq)
    ensures Sorted(Insert(s, x, leq), leq)
  {
    if s != [] && !leq(s[|s| - 1], x) {
      var front, last := s[..|s| - 1], s[|s| - 1];
      InsertSorted(front, x, leq);
      var r := Insert(front, x, leq);
      forall i | 0 <= i < |r| ensures leq(r[i], last) {
        assert r[i] in multiset(r) && (r[i] in multiset(front) || r[i] == x);
        if r[i] in front {
          var j :| 0 <= j < |front| && front[j] == r[i];
          assert s[j] == r[i];
        }
      }
    }
  }

  lemma {:induction false} OrderBySorted<T(!new)>(s: seq<T>, leq: (T, T) -> bool)
    requires IsOrder(leq)
    ensures Sorted(OrderBy(s, leq), leq)
  {
    if s != [] {
      OrderBySorted(s[..|s| - 1], leq);
      InsertSorted(OrderBy(s[..|s| - 1], leq), s[|s| - 1], leq);
    }
  }

  /** The last element of the sorted list is a greatest one, the first a least one. */
  lemma OrderByEnds<T(!new)>(s: seq<T>, leq: (T, T) -> bool)
    requires IsOrder(leq) && s != []
    ensures |OrderBy(s, leq)| == |s|
    ensures var r := OrderBy(s, leq);
      && r[|r| - 1] in s && (forall x :: x in s ==> leq(x, r[|r| - 1]))
      && r[0] in s && (forall x :: x in s ==> leq(r[0], x))
  {
    var r := OrderBy(s, leq);
    OrderBySorted(s, leq);
    SameElements(r, s);
    assert r[|r| - 1] in r && r[0] in r;
    forall x | x in s ensures leq(x, r[|r| - 1]) && leq(r[0], x) {
      assert x in r;
      var i :| 0 <= i < |r| && r[i] == x;
      assert leq(x, x);
    }
  }

  /** Filtering keeps a sorted list sorted. */
  lemma {:induction false} WhereKeepsOrder<T(!new)>(s: seq<T>, p: T -> bool, leq: (T, T) -> bool)
    requires Sorted(s, leq)
    ensures Sorted(Where(s, p), leq)
  {
    if s != [] {
      var front, last := s[..|s| - 1], s[|s| - 1];
      WhereKeepsOrder(front, p, leq);
      WhereMembers(front, p);
      var r := Where(front, p);
      forall i | 0 <= i < |r| ensures leq(r[i], last) {
        assert r[i] in front;
        var j :| 0 <= j < |front| && front[j] == r[i];
        assert s[j] == r[i];
      }
    }
  }

  // ---------- Distinct ----------

  /** Elements differ exactly when none occurs twice. */
  lemma {:induction false} NoRepeats<T(!new)>(s: seq<T>)
    ensures (forall i, j :: 0 <= i < j < |s| ==> s[i] != s[j]) <==> (forall x :: multiset(s)[x] <= 1)
  {
    if s != [] {
      var front, last := s[..|s| - 1], s[|s| - 1];
      assert s == front + [last];
      NoRepeats(front);
      if forall x :: multiset(s)[x] <= 1 {
        assert multiset(s)[last] == multiset(front)[last] + 1;
        forall x ensures multiset(front)[x] <= 1 {
          assert multiset(front)[x] <= multiset(s)[x];
        }
      }
      if forall i, j :: 0 <= i < j < |s| ==> s[i] != s[j] {
        assert last !in front;
      }
    }
  }

  /** Every element once, at its first place. */
  function Distinct<T(==, !new)>(s: seq<T>): (r: seq<T>)
    ensures forall x :: x in r <==> x in s
    ensures forall i, j :: 0 <= i < j < |r| ==> r[i] != r[j]
  {
    if s == [] then []
    else
      var front, last := s[..|s| - 1], s[|s| - 1];
      assert s == front + [last];
      if last in front then Distinct(front) else Distinct(front) + [last]
  }
}
