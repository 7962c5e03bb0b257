/**
 * Cache-key derivation shared by every caching decorator: the `repr` of each
 * positional argument in call order, then `name=repr(value)` for each keyword
 * argument sorted by name, all joined with ":".
 * `repr` is an opaque function; nothing here claims that it is injective.
 */
module CacheKey {
  import Seqs

  type Key = string

  /** The arguments of one call: positional values in call order and keyword
      arguments in the order the caller wrote them. */
  datatype Args<A> = Args(positional: seq<A>, keywords: seq<(string, A)>)

  /** Python's `<` on `str`: lexicographic comparison of code points. */
  predicate NameLess(a: string, b: string)
    decreases |a|
  {
    if |a| == 0 then |b| > 0
    else if |b| == 0 then false
    else if a[0] != b[0] then a[0] < b[0]
    else NameLess(a[1..], b[1..])
  }

  lemma {:induction false} NameLessIrreflexive(a: string)
    ensures !NameLess(a, a)
    decreases |a|
  {
    if |a| > 0 {
      NameLessIrreflexive(a[1..]);
    }
  }

  lemma {:induction false} NameLessTransitive(a: string, b: string, c: string)
    requires NameLess(a, b) && NameLess(b, c)
    ensures NameLess(a, c)
    decreases |a|
  {
    if |a| > 0 && |b| > 0 && |c| > 0 && a[0] == b[0] && b[0] == c[0] {
      NameLessTransitive(a[1..], b[1..], c[1..]);
    }
  }

  lemma {:induction false} NameLessTotal(a: string, b: string)
    ensures a == b || NameLess(a, b) || NameLess(b, a)
    decreases |a|
  {
    if |a| > 0 && |b| > 0 && a[0] == b[0] {
      NameLessTotal(a[1..], b[1..]);
      if a[1..] == b[1..] {
        assert a == [a[0]] + a[1..] && b == [b[0]] + b[1..];
      }
    }
  }

  /** Python forbids the same keyword twice in one call. */
  predicate DistinctNames<A>(kw: seq<(string, A)>) {
    forall i, j :: 0 <= i < j < |kw| ==> kw[i].0 != kw[j].0
  }

  /** Strictly increasing by name (so names are distinct). */
  predicate SortedByName<A>(kw: seq<(string, A)>) {
    forall i, j :: 0 <= i < j < |kw| ==> NameLess(kw[i].0, kw[j].0)
  }

  /** One step of insertion sort by name. */
  function Insert<A>(x: (string, A), s: seq<(string, A)>): (r: seq<(string, A)>)
    ensures multiset(r) == multiset(s) + multiset{x}
    ensures forall p :: p in r ==> p == x || p in s
  {
    if |s| == 0 then [x]
    else if NameLess(s[0].0, x.0) then
      assert s == [s[0]] + s[1..];
      [s[0]] + Insert(x, s[1..])
    else [x] + s
  }

  /** Inserting a new name into a name-sorted sequence keeps it sorted. */
  lemma {:induction false} InsertSorted<A>(x: (string, A), s: seq<(string, A)>)
    requires SortedByName(s)
    requires forall p :: p in s ==> p.0 != x.0
    ensures SortedByName(Insert(x, s))
  {
    if |s| == 0 {
    } else if NameLess(s[0].0, x.0) {
      var t := s[1..];
      SortedTail(s);
      assert forall p :: p in t ==> p in s;
      InsertSorted(x, t);
      var rest := Insert(x, t);
      HeadBelowTail(s);
      assert forall p :: p in rest ==> p == x || p in t;
      SortedCons(s[0], rest);
      assert Insert(x, s) == [s[0]] + rest;
    } else {
      NameLessTotal(x.0, s[0].0);
      HeadBelowTail(s);
      forall p | p in s ensures NameLess(x.0, p.0) {
        if p != s[0] {
          NameLessTransitive(x.0, s[0].0, p.0);
        }
      }
      SortedCons(x, s);
    }
  }

  /** Without its first entry, a call's keywords stay distinct and none of
      them has the first entry's name. */
  lemma DistinctTail<A>(kw: seq<(string, A)>)
    requires |kw| > 0 && DistinctNames(kw)
    ensures DistinctNames(kw[1..])
    ensures forall p :: p in kw[1..] ==> p.0 != kw[0].0
  {
    var t := kw[1..];
    forall i, j | 0 <= i < j < |t| ensures t[i].0 != t[j].0 {
      assert t[i] == kw[i + 1] && t[j] == kw[j + 1];
    }
    forall p | p in t ensures p.0 != kw[0].0 {
      var k :| 0 <= k < |t| && t[k] == p;
      assert kw[k + 1] == p;
    }
  }

  /** The first entry of a sorted sequence is below every later one. */
  lemma HeadBelowTail<A>(s: seq<(string, A)>)
    requires |s| > 0 && SortedByName(s)
    ensures forall p :: p in s[1..] ==> NameLess(s[0].0, p.0)
  {
    forall p | p in s[1..] ensures NameLess(s[0].0, p.0) {
      var k :| 0 <= k < |s| - 1 && s[1..][k] == p;
      assert s[k + 1] == p;
    }
  }

  /** A name below every name of a sorted sequence can go in front of it. */
  lemma SortedCons<A>(y: (string, A), rest: seq<(string, A)>)
    requires SortedByName(rest)
    requires forall p :: p in rest ==> NameLess(y.0, p.0)
    ensures SortedByName([y] + rest)
  {
    var r := [y] + rest;
    forall i, j | 0 <= i < j < |r| ensures NameLess(r[i].0, r[j].0) {
      if i == 0 {
        assert r[j] == rest[j - 1];
        assert r[j] in rest;
      } else {
        assert r[i] == rest[i - 1] && r[j] == rest[j - 1];
      }
    }
  }

  /** Python's `sorted(kwargs.items())`: the keyword arguments ordered by name. */
  function SortByName<A>(kw: seq<(string, A)>): (r: seq<(string, A)>)
    ensures multiset(r) == multiset(kw)
    ensures |r| == |kw|
    ensures forall p :: p in r ==> p in kw
    ensures DistinctNames(kw) ==> SortedByName(r)
  {
    if |kw| == 0 then []
    else
      var rest := SortByName(kw[1..]);
      assert DistinctNames(kw) ==> SortedByName(Insert(kw[0], rest)) by {
        if DistinctNames(kw) {
          DistinctTail(kw);
          assert forall p :: p in rest ==> p in kw[1..];
          InsertSorted(kw[0], rest);
        }
      }
      assert kw == [kw[0]] + kw[1..];
      Insert(kw[0], rest)
  }

  lemma SortedTail<A>(a: seq<(string, A)>)
    requires SortedByName(a) && |a| > 0
    ensures SortedByName(a[1..])
  {
    var t := a[1..];
    forall x, y | 0 <= x < y < |t| ensures NameLess(t[x].0, t[y].0) {
      assert t[x] == a[x + 1] && t[y] == a[y + 1];
    }
  }

  /** The first element of a name-sorted sequence is its least one, so two
      sorted sequences with the same elements start alike. */
  lemma SortedHeadsEqual<A>(a: seq<(string, A)>, b: seq<(string, A)>)
    requires SortedByName(a) && SortedByName(b)
    requires multiset(a) == multiset(b) && |a| > 0
    ensures |b| > 0 && a[0] == b[0]
  {
    assert |a| == |multiset(a)| == |multiset(b)| == |b|;
    assert a[0] in multiset(b) && b[0] in multiset(a);
    var j :| 0 <= j < |b| && b[j] == a[0];
    var i :| 0 <= i < |a| && a[i] == b[0];
    if a[0] != b[0] {
      assert NameLess(a[0].0, a[i].0);
      assert NameLess(b[0].0, b[j].0);
      NameLessTransitive(a[0].0, b[0].0, a[0].0);
      NameLessIrreflexive(a[0].0);
    }
  }

  /** Two name-sorted sequences with the same elements are equal. */
  lemma {:induction false} SortedUnique<A>(a: seq<(string, A)>, b: seq<(string, A)>)
    requires SortedByName(a) && SortedByName(b)
    requires multiset(a) == multiset(b)
    ensures a == b
  {
    if |a| == 0 {
      assert |multiset(b)| == 0;
    } else {
      SortedHeadsEqual(a, b);
      assert a == [a[0]] + a[1..] && b == [b[0]] + b[1..];
      assert multiset(a[1..]) == multiset(a) - multiset{a[0]};
      assert multiset(b[1..]) == multiset(b) - multiset{b[0]};
      SortedTail(a);
      SortedTail(b);
      SortedUnique(a[1..], b[1..]);
    }
  }

  /** `repr` of each positional argument, in call order. */
  function Reprs<A>(repr: A -> string, xs: seq<A>): (r: seq<string>)
    ensures |r| == |xs|
    ensures forall i :: 0 <= i < |xs| ==> r[i] == repr(xs[i])
  {
    seq(|xs|, i requires 0 <= i < |xs| => repr(xs[i]))
  }

  /** `f"{k}={repr(v)}"` */
  function KeywordPart<A>(repr: A -> string, kw: (string, A)): string {
    kw.0 + "=" + repr(kw.1)
  }

  function KeywordParts<A>(repr: A -> string, kw: seq<(string, A)>): (r: seq<string>)
    ensures |r| == |kw|
    ensures forall i :: 0 <= i < |kw| ==> r[i] == KeywordPart(repr, kw[i])
  {
    seq(|kw|, i requires 0 <= i < |kw| => KeywordPart(repr, kw[i]))
  }

  /** The list `key_parts` before joining: positional parts first, in call
      order, then the keyword parts in name order. */
  function KeyParts<A>(repr: A -> string, c: Args<A>): (parts: seq<string>)
    ensures |parts| == |c.positional| + |c.keywords|
    ensures forall i :: 0 <= i < |c.positional| ==> parts[i] == repr(c.positional[i])
    ensures forall j :: 0 <= j < |c.keywords| ==>
              parts[|c.positional| + j] == KeywordPart(repr, SortByName(c.keywords)[j])
  {
    Reprs(repr, c.positional) + KeywordParts(repr, SortByName(c.keywords))
  }

  /** `":".join(parts)` */
  function Join(parts: seq<string>): string {
    if |parts| == 0 then ""
    else if |parts| == 1 then parts[0]
    else parts[0] + ":" + Join(parts[1..])
  }

  /** The cache key of a call. */
  function KeyOf<A>(repr: A -> string, c: Args<A>): Key {
    Join(KeyParts(repr, c))
  }

  /** Keyword order never changes the key: two calls with the same positional
      arguments and the same keyword arguments in any order get one key. */
  lemma KeywordOrderIrrelevant<A>(repr: A -> string, c1: Args<A>, c2: Args<A>)
    requires c1.positional == c2.positional
    requires multiset(c1.keywords) == multiset(c2.keywords)
    requires DistinctNames(c1.keywords) && DistinctNames(c2.keywords)
    ensures KeyOf(repr, c1) == KeyOf(repr, c2)
  {
    SortedUnique(SortByName(c1.keywords), SortByName(c2.keywords));
  }

  /** Positional arguments keep call order: equal part lists with the same
      number of keyword arguments have the same positional reprs, position by
      position. */
  lemma KeyPartsDeterminePositional<A>(repr: A -> string, c1: Args<A>, c2: Args<A>)
    requires |c1.keywords| == |c2.keywords|
    requires KeyParts(repr, c1) == KeyParts(repr, c2)
    ensures |c1.positional| == |c2.positional|
    ensures forall i :: 0 <= i < |c1.positional| ==> repr(c1.positional[i]) == repr(c2.positional[i])
  {
    var p1 := KeyParts(repr, c1);
    var p2 := KeyParts(repr, c2);
    forall i | 0 <= i < |c1.positional|
      ensures repr(c1.positional[i]) == repr(c2.positional[i])
    {
      assert p1[i] == p2[i];
    }
  }

  /** Swapping two positional arguments with different reprs changes the part list. */
  lemma PositionalSwapChangesParts<A>(repr: A -> string, a: A, b: A, kw: seq<(string, A)>)
    requires repr(a) != repr(b)
    ensures KeyParts(repr, Args([a, b], kw)) != KeyParts(repr, Args([b, a], kw))
  {
    assert KeyParts(repr, Args([a, b], kw))[0] == repr(a);
    assert KeyParts(repr, Args([b, a], kw))[0] == repr(b);
  }

  /** A call with one positional argument and no keywords is keyed by that
      argument's `repr`. */
  lemma KeyOfSingle<A>(repr: A -> string, a: A)
    ensures KeyOf(repr, Args([a], [])) == repr(a)
  {
    assert KeyParts(repr, Args([a], [])) == [repr(a)];
  }

  /** The keys of a sequence of calls, in call order. */
  function History<A>(calls: seq<Args<A>>, repr: A -> string): (h: seq<Key>)
    ensures |h| == |calls|
    ensures forall i :: 0 <= i < |calls| ==> h[i] == KeyOf(repr, calls[i])
  {
    Seqs.Map(calls, (c: Args<A>) => KeyOf(repr, c))
  }

  lemma HistorySnoc<A>(calls: seq<Args<A>>, c: Args<A>, repr: A -> string)
    ensures History(calls + [c], repr) == History(calls, repr) + [KeyOf(repr, c)]
  {
    Seqs.MapSnoc(calls, c, (c: Args<A>) => KeyOf(repr, c));
  }

  lemma HistoryLast<A>(calls: seq<Args<A>>, repr: A -> string)
    requires |calls| > 0
    ensures History(calls, repr) == History(calls[..|calls| - 1], repr) + [KeyOf(repr, calls[|calls| - 1])]
  {
    Seqs.MapLast(calls, (c: Args<A>) => KeyOf(repr, c));
  }
}
