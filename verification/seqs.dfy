/** Small sequence facts shared by the cache policies and the matrix model. */
module Seqs {

  /** No element occurs twice. */
  predicate NoDups<T(==)>(s: seq<T>) {
    forall i, j :: 0 <= i < j < |s| ==> s[i] != s[j]
  }

  /** The elements of `s` as a set. */
  function Elems<T>(s: seq<T>): set<T> {
    set x | x in s
  }

  /** Python's `list.remove(x)` on a list that contains `x`: drop the first occurrence. */
  function RemoveFirst<T(==)>(s: seq<T>, x: T): (r: seq<T>)
    ensures x in s ==> |r| == |s| - 1
    ensures x !in s ==> r == s
    ensures forall y :: y in r ==> y in s
    ensures forall y :: y in s && y != x ==> y in r
    ensures NoDups(s) ==> NoDups(r) && x !in r
  {
    if |s| == 0 then s
    else if s[0] == x then s[1..]
    else
      assert NoDups(s) ==> NoDups(s[1..]) && s[0] !in s[1..] by {
        if NoDups(s) {
          forall i, j | 0 <= i < j < |s[1..]| ensures s[1..][i] != s[1..][j] {
            assert s[1..][i] == s[i + 1] && s[1..][j] == s[j + 1];
          }
        }
      }
      [s[0]] + RemoveFirst(s[1..], x)
  }

  /** The last `n` elements of `s` (all of them when `s` is shorter). */
  function LastN<T>(s: seq<T>, n: nat): (r: seq<T>)
    ensures |r| == if |s| <= n then |s| else n
    ensures r == s[|s| - |r|..]
  {
    if |s| <= n then s else s[|s| - n..]
  }

  /** A duplicate-free sequence has as many distinct elements as positions. */
  lemma {:induction false} DistinctCard<T>(s: seq<T>)
    requires NoDups(s)
    ensures |Elems(s)| == |s|
  {
    if |s| > 0 {
      var t := s[1..];
      assert NoDups(t) by {
        forall i, j | 0 <= i < j < |t| ensures t[i] != t[j] {
          assert t[i] == s[i + 1] && t[j] == s[j + 1];
        }
      }
      DistinctCard(t);
      assert s[0] !in t by {
        forall k | 0 <= k < |t| ensures t[k] != s[0] {
          assert t[k] == s[k + 1];
        }
      }
      assert Elems(s) == {s[0]} + Elems(t) by {
        assert s == [s[0]] + t;
      }
    }
  }

  /** Removing an element that is not in the front part only touches the back part. */
  lemma {:induction false} RemoveFirstAppendBack<T>(p: seq<T>, o: seq<T>, x: T)
    requires x !in p
    ensures RemoveFirst(p + o, x) == p + RemoveFirst(o, x)
  {
    if |p| == 0 {
      assert p + o == o;
    } else {
      var t := p[1..];
      assert p == [p[0]] + t;
      assert (p + o)[1..] == t + o;
      RemoveFirstAppendBack(t, o, x);
      assert RemoveFirst(p + o, x) == [p[0]] + RemoveFirst(t + o, x);
    }
  }

  /** Removing an element found in the front part leaves the back part alone. */
  lemma {:induction false} RemoveFirstAppendFront<T>(p: seq<T>, o: seq<T>, x: T)
    requires x in p
    ensures RemoveFirst(p + o, x) == RemoveFirst(p, x) + o
  {
    if p[0] != x {
      assert (p + o)[1..] == p[1..] + o;
      RemoveFirstAppendFront(p[1..], o, x);
    } else {
      assert (p + o)[1..] == p[1..] + o;
    }
  }

  /** In a list without duplicates, the two halves of a split share no element. */
  lemma NoDupsDisjoint<T>(p: seq<T>, o: seq<T>, x: T)
    requires NoDups(p + o) && x in o
    ensures x !in p
  {
    var j :| 0 <= j < |o| && o[j] == x;
    forall i | 0 <= i < |p| ensures p[i] != x {
      assert (p + o)[i] == p[i] && (p + o)[|p| + j] == x;
    }
  }

  /** The last `n` elements only depend on a suffix at least `n` long. */
  lemma LastNOfSuffix<T>(p: seq<T>, o: seq<T>, n: nat)
    requires |o| >= n
    ensures LastN(p + o, n) == LastN(o, n)
  {
    var r := p + o;
    assert r[|r| - n..] == o[|o| - n..];
  }

  /** A non-empty sequence is its prefix followed by its last element. */
  lemma SplitLast<T>(s: seq<T>)
    requires |s| > 0
    ensures s == s[..|s| - 1] + [s[|s| - 1]]
  {
  }

  /** `f` applied to every element, in order. */
  function Map<X, Y>(xs: seq<X>, f: X -> Y): (ys: seq<Y>)
    ensures |ys| == |xs|
    ensures forall i :: 0 <= i < |xs| ==> ys[i] == f(xs[i])
  {
    seq(|xs|, i requires 0 <= i < |xs| => f(xs[i]))
  }

  lemma MapLast<X, Y>(xs: seq<X>, f: X -> Y)
    requires |xs| > 0
    ensures Map(xs, f) == Map(xs[..|xs| - 1], f) + [f(xs[|xs| - 1])]
  {
    var l, r := Map(xs, f), Map(xs[..|xs| - 1], f) + [f(xs[|xs| - 1])];
    forall i | 0 <= i < |l| ensures l[i] == r[i] {
      if i < |xs| - 1 {
        assert xs[..|xs| - 1][i] == xs[i];
      }
    }
  }

  lemma MapSnoc<X, Y>(xs: seq<X>, x: X, f: X -> Y)
    ensures Map(xs + [x], f) == Map(xs, f) + [f(x)]
  {
    var ys := xs + [x];
    assert ys[..|ys| - 1] == xs;
    MapLast(ys, f);
  }

  /** The position of the first occurrence of `x`. */
  function FirstOf<T(==)>(s: seq<T>, x: T): (j: nat)
    requires x in s
    ensures j < |s| && s[j] == x
    ensures forall i :: 0 <= i < j ==> s[i] != x
  {
    if s[0] == x then 0
    else
      var j := FirstOf(s[1..], x);
      assert forall i :: 1 <= i < j + 1 ==> s[i] == s[1..][i - 1];
      1 + j
  }

  /** Appending never moves a first occurrence. */
  lemma FirstOfSnoc<T>(s: seq<T>, y: T, x: T)
    requires x in s
    ensures x in s + [y] && FirstOf(s + [y], x) == FirstOf(s, x)
  {
    var j := FirstOf(s, x);
    var t := s + [y];
    assert t[j] == x;
    var j' := FirstOf(t, x);
    assert forall i :: 0 <= i < |s| ==> t[i] == s[i];
  }

  /** A new element first occurs where it is appended. */
  lemma FirstOfNew<T>(s: seq<T>, x: T)
    requires x !in s
    ensures x in s + [x] && FirstOf(s + [x], x) == |s|
  {
    var t := s + [x];
    assert t[|s|] == x;
    assert forall i :: 0 <= i < |s| ==> t[i] == s[i];
  }
}
