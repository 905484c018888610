/**
 * `Array.prototype.map` and `Array.prototype.filter` on sequences, with
 * what the screens rely on: a map keeps one element per element, and a
 * filter keeps exactly the elements that pass, as often as they occur and
 * in their order.
 */
module Seqs {

  /** `s.map(f)`: one element per element of `s`, each mapped in place. */
  function Map<A, B>(s: seq<A>, f: A -> B): (r: seq<B>)
    ensures |r| == |s|
    ensures forall i :: 0 <= i < |r| ==> r[i] == f(s[i])
  {
    if s == [] then [] else [f(s[0])] + Map(s[1..], f)
  }

  /** `s.filter(p)`: the elements of `s` that pass `p`. */
  function Filter<T>(s: seq<T>, p: T -> bool): (r: seq<T>)
    ensures |r| <= |s|
    ensures forall i :: 0 <= i < |r| ==> p(r[i])
  {
    if s == [] then [] else (if p(s[0]) then [s[0]] else []) + Filter(s[1..], p)
  }

  /** The opposite test, for the elements a filter drops. */
  function Not<T>(p: T -> bool): T -> bool {
    x => !p(x)
  }

  /** `a` is `b` with some elements left out, the rest in their order. */
  predicate Subsequence<T(==)>(a: seq<T>, b: seq<T>)
    decreases |b|
  {
    if a == [] then true
    else if b == [] then false
    else (a[0] == b[0] && Subsequence(a[1..], b[1..])) || Subsequence(a, b[1..])
  }

  /** A subsequence of the tail is a subsequence of the whole. */
  lemma SubsequenceDrop<T>(a: seq<T>, b: seq<T>)
    requires b != [] && Subsequence(a, b[1..])
    ensures Subsequence(a, b)
  {
  }

  /** The kept elements are in their original order. */
  lemma {:induction false} FilterSubsequence<T>(s: seq<T>, p: T -> bool)
    ensures Subsequence(Filter(s, p), s)
  {
    if s != [] {
      FilterSubsequence(s[1..], p);
      var rest := Filter(s[1..], p);
      if p(s[0]) {
        assert Filter(s, p) == [s[0]] + rest;
        assert ([s[0]] + rest)[1..] == rest;
      } else {
        assert Filter(s, p) == rest;
        SubsequenceDrop(rest, s);
      }
    }
  }

  /** An element is kept exactly when it is in the input and passes. */
  lemma {:induction false} FilterMembers<T>(s: seq<T>, p: T -> bool)
    ensures forall x :: x in Filter(s, p) <==> x in s && p(x)
  {
    if s != [] {
      FilterMembers(s[1..], p);
      assert s == [s[0]] + s[1..];
    }
  }

  /**
   * A passing element is kept as many times as it occurs, a failing one
   * not at all; with `FilterSubsequence` this fixes the result entirely.
   */
  lemma {:induction false} FilterMultiset<T>(s: seq<T>, p: T -> bool)
    ensures forall x :: multiset(Filter(s, p))[x] == if p(x) then multiset(s)[x] else 0
  {
    if s != [] {
      FilterMultiset(s[1..], p);
      assert s == [s[0]] + s[1..];
      assert multiset(s) == multiset([s[0]]) + multiset(s[1..]);
    }
  }

  /** Every element is either kept or dropped, so the two counts add up. */
  lemma {:induction false} FilterSplit<T>(s: seq<T>, p: T -> bool)
    ensures |Filter(s, p)| + |Filter(s, Not(p))| == |s|
  {
    if s != [] {
      FilterSplit(s[1..], p);
      assert Not(p)(s[0]) == !p(s[0]);
    }
  }

  /** Filtering a concatenation filters each part. */
  lemma {:induction false} FilterAppend<T>(a: seq<T>, b: seq<T>, p: T -> bool)
    ensures Filter(a + b, p) == Filter(a, p) + Filter(b, p)
  {
    if a == [] {
      assert a + b == b;
    } else {
      var head := if p(a[0]) then [a[0]] else [];
      FilterAppend(a[1..], b, p);
      assert (a + b)[0] == a[0] && (a + b)[1..] == a[1..] + b;
      calc {
        Filter(a + b, p);
        head + Filter(a[1..] + b, p);
        head + (Filter(a[1..], p) + Filter(b, p));
        (head + Filter(a[1..], p)) + Filter(b, p);
      }
    }
  }

  /** Nothing is kept exactly when no element passes. */
  lemma {:induction false} FilterNone<T>(s: seq<T>, p: T -> bool)
    ensures Filter(s, p) == [] <==> forall i :: 0 <= i < |s| ==> !p(s[i])
  {
    if s != [] {
      FilterNone(s[1..], p);
      if !p(s[0]) {
        assert Filter(s, p) == Filter(s[1..], p);
        if forall i :: 0 <= i < |s[1..]| ==> !p(s[1..][i]) {
          forall i | 0 <= i < |s| ensures !p(s[i]) {
            if i > 0 { assert s[i] == s[1..][i - 1]; }
          }
        }
      }
    }
  }

  /** The input is kept whole exactly when every element passes. */
  lemma {:induction false} FilterAll<T>(s: seq<T>, p: T -> bool)
    ensures Filter(s, p) == s <==> forall i :: 0 <= i < |s| ==> p(s[i])
  {
    if s != [] {
      FilterAll(s[1..], p);
      if p(s[0]) {
        assert Filter(s, p) == [s[0]] + Filter(s[1..], p);
        assert Filter(s, p) == s <==> Filter(s[1..], p) == s[1..] by {
          if Filter(s[1..], p) == s[1..] { assert [s[0]] + s[1..] == s; }
          if Filter(s, p) == s { assert Filter(s, p)[1..] == Filter(s[1..], p); }
        }
        assert (forall i :: 0 <= i < |s| ==> p(s[i])) <==> (forall i :: 0 <= i < |s[1..]| ==> p(s[1..][i])) by {
          if forall i :: 0 <= i < |s[1..]| ==> p(s[1..][i]) {
            forall i | 0 <= i < |s| ensures p(s[i]) {
              if i > 0 { assert s[i] == s[1..][i - 1]; }
            }
          }
        }
      } else {
        assert |Filter(s, p)| <= |s[1..]|;
      }
    }
  }
}
