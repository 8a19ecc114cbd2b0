/**
 * `Array.prototype.filter` and the facts about it that the root-finding
 * functions rely on: the kept elements are exactly those that pass the test,
 * they keep their order, and on a duplicate-free sequence these two facts
 * determine the result.
 */
module Seqs {

  predicate NoDuplicates<T(==)>(s: seq<T>) {
    forall i, j :: 0 <= i < j < |s| ==> s[i] != s[j]
  }

  /** A duplicate-free sequence has as many distinct elements as it has elements. */
  lemma {:induction false} DistinctCardinality<T>(s: seq<T>)
    requires NoDuplicates(s)
    ensures |set x | x in s| == |s|
    decreases |s|
  {
    if s != [] {
      var t, y := s[..|s| - 1], s[|s| - 1];
      DistinctCardinality(t);
      assert y !in t by {
        forall i | 0 <= i < |t| ensures t[i] != y { assert s[i] == t[i]; }
      }
      assert (set x | x in s) == (set x | x in t) + {y} by {
        assert s == t + [y];
      }
    }
  }

  /** `a` is obtained from `b` by deleting elements; the order of what is left is unchanged. */
  predicate IsSubsequence<T(==)>(a: seq<T>, b: seq<T>)
    decreases |b|
  {
    if a == [] then true
    else if b == [] then false
    else (a[0] == b[0] && IsSubsequence(a[1..], b[1..])) || IsSubsequence(a, b[1..])
  }

  /** `s.filter(p)`. */
  function Filter<T(!new)>(s: seq<T>, p: T -> bool): (r: seq<T>)
    ensures |r| <= |s|
    ensures forall x :: x in r <==> x in s && p(x)
  {
    if s == [] then [] else if p(s[0]) then [s[0]] + Filter(s[1..], p) else Filter(s[1..], p)
  }

  /** A filter and its complement split the sequence: together they keep every element once. */
  lemma {:induction false} FilterComplement<T(!new)>(s: seq<T>, p: T -> bool, q: T -> bool)
    requires forall x :: q(x) <==> !p(x)
    ensures |Filter(s, p)| + |Filter(s, q)| == |s|
    decreases |s|
  {
    if s != [] {
      FilterComplement(s[1..], p, q);
    }
  }

  /** Filtering a concatenation filters each part. */
  lemma {:induction false} FilterAppend<T(!new)>(a: seq<T>, b: seq<T>, p: T -> bool)
    ensures Filter(a + b, p) == Filter(a, p) + Filter(b, p)
    decreases |a|
  {
    if a != [] {
      assert (a + b)[0] == a[0] && (a + b)[1..] == a[1..] + b;
      FilterAppend(a[1..], b, p);
    } else {
      assert a + b == b;
    }
  }

  /** Filtering a sequence that starts with `x` keeps `x` in front exactly when it passes. */
  lemma FilterCons<T(!new)>(x: T, s: seq<T>, p: T -> bool)
    ensures Filter([x] + s, p) == (if p(x) then [x] else []) + Filter(s, p)
  {
    assert ([x] + s)[0] == x && ([x] + s)[1..] == s;
  }

  /** Nothing is kept when nothing passes. */
  lemma FilterNone<T(!new)>(s: seq<T>, p: T -> bool)
    requires forall i :: 0 <= i < |s| ==> !p(s[i])
    ensures Filter(s, p) == []
  {
  }

  /** Filtering keeps the order of the kept elements. */
  lemma {:induction false} FilterIsSubsequence<T(!new)>(s: seq<T>, p: T -> bool)
    ensures IsSubsequence(Filter(s, p), s)
  {
    if s != [] {
      FilterIsSubsequence(s[1..], p);
      var r := Filter(s, p);
      if p(s[0]) {
        assert r[0] == s[0] && r[1..] == Filter(s[1..], p);
      }
    }
  }

  lemma {:induction false} SubsequenceMembers<T>(a: seq<T>, b: seq<T>)
    requires IsSubsequence(a, b)
    ensures forall x :: x in a ==> x in b
    decreases |b|
  {
    if a != [] {
      if a[0] == b[0] && IsSubsequence(a[1..], b[1..]) {
        SubsequenceMembers(a[1..], b[1..]);
        forall x | x in a ensures x in b {
          if x != a[0] { assert x in a[1..]; }
        }
      } else {
        SubsequenceMembers(a, b[1..]);
      }
    }
  }

  lemma {:induction false} SubsequenceNoDuplicates<T>(a: seq<T>, b: seq<T>)
    requires IsSubsequence(a, b) && NoDuplicates(b)
    ensures NoDuplicates(a)
    decreases |b|
  {
    if a != [] {
      assert NoDuplicates(b[1..]) by {
        forall i, j | 0 <= i < j < |b[1..]| ensures b[1..][i] != b[1..][j] {
          assert b[1..][i] == b[i + 1] && b[1..][j] == b[j + 1];
        }
      }
      if a[0] == b[0] && IsSubsequence(a[1..], b[1..]) {
        SubsequenceNoDuplicates(a[1..], b[1..]);
        SubsequenceMembers(a[1..], b[1..]);
        forall i, j | 0 <= i < j < |a| ensures a[i] != a[j] {
          if i == 0 {
            assert a[j] == a[1..][j - 1];
            assert a[j] in b[1..];
            var m :| 0 <= m < |b[1..]| && b[1..][m] == a[j];
            assert b[m + 1] == a[j];
          } else {
            assert a[i] == a[1..][i - 1] && a[j] == a[1..][j - 1];
          }
        }
      } else {
        SubsequenceNoDuplicates(a, b[1..]);
      }
    }
  }

  /**
   * The filter is the only order-preserving selection from a duplicate-free
   * sequence that holds exactly the elements passing the test.
   */
  lemma {:induction false} FilterUnique<T(!new)>(s: seq<T>, p: T -> bool, r: seq<T>)
    requires NoDuplicates(s)
    requires IsSubsequence(r, s)
    requires forall x :: x in r <==> x in s && p(x)
    ensures r == Filter(s, p)
    decreases |s|
  {
    if s == [] {
      assert r == [];
    } else {
      var a, t := s[0], s[1..];
      assert NoDuplicates(t) by {
        forall i, j | 0 <= i < j < |t| ensures t[i] != t[j] {
          assert t[i] == s[i + 1] && t[j] == s[j + 1];
        }
      }
      assert a !in t;
      SubsequenceNoDuplicates(r, s);
      if p(a) {
        assert a in r;
        assert r != [] && r[0] == a && IsSubsequence(r[1..], t) by {
          if !(r[0] == a && IsSubsequence(r[1..], t)) {
            assert IsSubsequence(r, t);
            SubsequenceMembers(r, t);
            assert false;
          }
        }
        forall x ensures x in r[1..] <==> x in t && p(x) {
          if x in r[1..] {
            var m :| 0 <= m < |r[1..]| && r[1..][m] == x;
            assert r[m + 1] == x && r[0] != r[m + 1];
            assert x in r;
          }
          if x in t && p(x) {
            assert x in r && x != a;
            var m :| 0 <= m < |r| && r[m] == x;
            assert m != 0;
            assert r[1..][m - 1] == x;
          }
        }
        FilterUnique(t, p, r[1..]);
        assert r == [a] + r[1..];
      } else {
        assert a !in r;
        assert IsSubsequence(r, t) by {
          if r != [] { assert r[0] != a; }
        }
        forall x ensures x in r <==> x in t && p(x) {
          if x in r { assert x in s && x != a; }
        }
        FilterUnique(t, p, r);
      }
    }
  }

  /** Applies `f` to every element: `xs.map(f)`. */
  function Map<T, U>(xs: seq<T>, f: T -> U): (r: seq<U>)
    ensures |r| == |xs|
    ensures forall i :: 0 <= i < |xs| ==> r[i] == f(xs[i])
  {
    if xs == [] then [] else Map(xs[..|xs| - 1], f) + [f(xs[|xs| - 1])]
  }

  lemma MapAppend<T, U>(a: seq<T>, b: seq<T>, f: T -> U)
    ensures Map(a + b, f) == Map(a, f) + Map(b, f)
  {
  }

  /** Extending the input of a filter-map-filter chain by one element extends its output by at most the image of that element. */
  lemma FilterMapFilterSnoc<T(!new), U(!new)>(s: seq<T>, x: T, p: T -> bool, f: T -> U, q: U -> bool)
    ensures Filter(Map(Filter(s + [x], p), f), q)
         == Filter(Map(Filter(s, p), f), q) + (if p(x) && q(f(x)) then [f(x)] else [])
  {
    FilterAppend(s, [x], p);
    assert Filter([x], p) == if p(x) then [x] else [] by {
      assert [x][1..] == [];
    }
    MapAppend(Filter(s, p), Filter([x], p), f);
    FilterAppend(Map(Filter(s, p), f), Map(Filter([x], p), f), q);
    if p(x) {
      assert Map([x], f) == [f(x)];
      assert Filter([f(x)], q) == if q(f(x)) then [f(x)] else [] by {
        assert [f(x)][1..] == [];
      }
    }
  }

  /** Concatenates the pieces `f` makes of the elements, in order: a `+=` loop over `xs`. */
  function ConcatMap<T, U>(xs: seq<T>, f: T -> seq<U>): seq<U>
  {
    if xs == [] then [] else ConcatMap(xs[..|xs| - 1], f) + f(xs[|xs| - 1])
  }

  lemma {:induction false} ConcatMapAppend<T, U>(a: seq<T>, b: seq<T>, f: T -> seq<U>)
    ensures ConcatMap(a + b, f) == ConcatMap(a, f) + ConcatMap(b, f)
    decreases |b|
  {
    if b == [] {
      assert a + b == a;
    } else {
      var b' := b[..|b| - 1];
      assert (a + b)[..|a + b| - 1] == a + b';
      ConcatMapAppend(a, b', f);
    }
  }

  /** One more step of a `+=` loop over `xs`: the prefix up to `i + 1` adds the piece of `xs[i]`. */
  lemma ConcatMapStep<T, U>(xs: seq<T>, i: nat, f: T -> seq<U>)
    requires i < |xs|
    ensures ConcatMap(xs[..i + 1], f) == ConcatMap(xs[..i], f) + f(xs[i])
  {
    assert xs[..i + 1][..i] == xs[..i];
  }

  lemma ConcatMapSingle<T, U>(x: T, f: T -> seq<U>)
    ensures ConcatMap([x], f) == f(x)
  {
    assert [x][..0] == [];
  }

  lemma MapCons<T, U>(x: T, rest: seq<T>, f: T -> U)
    ensures Map([x] + rest, f) == [f(x)] + Map(rest, f)
  {
    MapAppend([x], rest, f);
    assert [x][..0] == [];
  }

  /** Empty pieces concatenate to nothing. */
  lemma {:induction false} ConcatMapNone<T, U>(xs: seq<T>, f: T -> seq<U>)
    requires forall i :: 0 <= i < |xs| ==> f(xs[i]) == []
    ensures ConcatMap(xs, f) == []
    decreases |xs|
  {
    if xs != [] {
      ConcatMapNone(xs[..|xs| - 1], f);
    }
  }

  /** When every element before `j` has an empty piece, the concatenation starts with the piece of `xs[j]`. */
  lemma ConcatMapFromFirst<T, U>(xs: seq<T>, f: T -> seq<U>, j: nat)
    requires j < |xs| && ConcatMap(xs[..j], f) == []
    ensures ConcatMap(xs, f) == f(xs[j]) + ConcatMap(xs[j + 1..], f)
  {
    var before, from := xs[..j], xs[j..];
    assert xs == before + from;
    ConcatMapAppend(before, from, f);
    ConcatMapFirst(from, f);
    assert from[1..] == xs[j + 1..];
  }

  /** A prefix whose pieces are all empty concatenates to nothing. */
  lemma ConcatMapNonePrefix<T, U>(xs: seq<T>, f: T -> seq<U>, j: nat)
    requires j <= |xs| && forall i :: 0 <= i < j ==> f(xs[i]) == []
    ensures ConcatMap(xs[..j], f) == []
  {
    var before := xs[..j];
    assert forall i :: 0 <= i < |before| ==> before[i] == xs[i];
    ConcatMapNone(before, f);
  }


  /** A non-empty sequence's concatenation starts with the piece of its head. */
  lemma ConcatMapFirst<T, U>(xs: seq<T>, f: T -> seq<U>)
    requires xs != []
    ensures ConcatMap(xs, f) == f(xs[0]) + ConcatMap(xs[1..], f)
  {
    assert xs == [xs[0]] + xs[1..];
    ConcatMapCons(xs[0], xs[1..], f);
  }

  /** The first element's piece comes first. */
  lemma ConcatMapCons<T, U>(x: T, rest: seq<T>, f: T -> seq<U>)
    ensures ConcatMap([x] + rest, f) == f(x) + ConcatMap(rest, f)
  {
    ConcatMapAppend([x], rest, f);
    ConcatMapSingle(x, f);
  }

  /** Elements whose piece is empty can be filtered out first without changing the concatenation. */
  lemma {:induction false} ConcatMapSkipEmpty<T(!new), U>(xs: seq<T>, f: T -> seq<U>, p: T -> bool)
    requires forall i :: 0 <= i < |xs| ==> !p(xs[i]) ==> f(xs[i]) == []
    ensures ConcatMap(xs, f) == ConcatMap(Filter(xs, p), f)
    decreases |xs|
  {
    if xs != [] {
      var x, rest := xs[0], xs[1..];
      assert xs == [x] + rest;
      ConcatMapSkipEmpty(rest, f, p);
      ConcatMapCons(x, rest, f);
      FilterCons(x, rest, p);
      if p(x) {
        ConcatMapCons(x, Filter(rest, p), f);
      } else {
        assert [] + Filter(rest, p) == Filter(rest, p);
      }
    }
  }

  /** Pieces that agree element by element concatenate to the same text. */
  lemma {:induction false} ConcatMapAgree<T, U>(xs: seq<T>, f: T -> seq<U>, g: T -> seq<U>)
    requires forall i :: 0 <= i < |xs| ==> f(xs[i]) == g(xs[i])
    ensures ConcatMap(xs, f) == ConcatMap(xs, g)
    decreases |xs|
  {
    if xs != [] {
      ConcatMapAgree(xs[..|xs| - 1], f, g);
    }
  }
}
