/** Python's `sorted` on a list of strings: code-point lexicographic order and
    an insertion sort, with the fact that sorting depends only on the multiset
    of its input. */
module Sorting {

  /** `a <= b` on Python strings. */
  predicate LexLeq(a: string, b: string)
  {
    |a| == 0 || (|b| > 0 && (a[0] < b[0] || (a[0] == b[0] && LexLeq(a[1..], b[1..]))))
  }

  /** `a` is a prefix of `b`. */
  predicate IsPrefix(a: string, b: string)
  {
    |a| <= |b| && a == b[..|a|]
  }

  /** `a` and `b` first differ at `k`, where `a` has the smaller code point. */
  predicate SmallerAt(a: string, b: string, k: int)
  {
    0 <= k < |a| && k < |b| && a[..k] == b[..k] && a[k] < b[k]
  }

  /** The order Python compares strings by: a string precedes every string
      it is a prefix of, and otherwise the first differing code point
      decides. */
  lemma LexLeqIsPythonOrder(a: string, b: string)
    ensures LexLeq(a, b) <==> IsPrefix(a, b) || exists k :: SmallerAt(a, b, k)
  {
    if LexLeq(a, b) {
      LexLeqToPython(a, b);
    } else if IsPrefix(a, b) {
      PythonToLexLeq(a, b, -1);
    } else if k :| SmallerAt(a, b, k) {
      PythonToLexLeq(a, b, k);
    }
  }

  lemma {:induction false} LexLeqToPython(a: string, b: string)
    requires LexLeq(a, b)
    ensures IsPrefix(a, b) || exists k :: SmallerAt(a, b, k)
    decreases |a|
  {
    if |a| > 0 {
      if a[0] < b[0] {
        assert SmallerAt(a, b, 0);
      } else {
        LexLeqToPython(a[1..], b[1..]);
        if IsPrefix(a[1..], b[1..]) {
          assert a == [a[0]] + a[1..];
          assert b[..|a|] == [b[0]] + b[1..][..|a| - 1];
        } else {
          var k :| SmallerAt(a[1..], b[1..], k);
          assert a[..k + 1] == [a[0]] + a[1..][..k];
          assert b[..k + 1] == [b[0]] + b[1..][..k];
          assert SmallerAt(a, b, k + 1);
        }
      }
    }
  }

  /** A prefix of `b` (given as `k < 0`), or a string smaller at its first
      difference `k`, is below `b`. */
  lemma {:induction false} PythonToLexLeq(a: string, b: string, k: int)
    requires if k < 0 then IsPrefix(a, b) else SmallerAt(a, b, k)
    ensures LexLeq(a, b)
    decreases |a|
  {
    if |a| > 0 {
      if k != 0 {
        assert a[0] == b[0] by {
          if k < 0 { assert a[0] == b[..|a|][0]; } else { assert a[0] == a[..k][0] && b[0] == b[..k][0]; }
        }
        if k < 0 {
          assert a[1..] == b[1..][..|a| - 1];
          PythonToLexLeq(a[1..], b[1..], -1);
        } else {
          assert a[1..][..k - 1] == a[..k][1..];
          assert b[1..][..k - 1] == b[..k][1..];
          PythonToLexLeq(a[1..], b[1..], k - 1);
        }
      }
    }
  }

  lemma {:induction false} LexLeqTotal(a: string, b: string)
    ensures LexLeq(a, b) || LexLeq(b, a)
    decreases |a|
  {
    if |a| > 0 && |b| > 0 && a[0] == b[0] {
      LexLeqTotal(a[1..], b[1..]);
    }
  }

  lemma {:induction false} LexLeqAntisymmetric(a: string, b: string)
    requires LexLeq(a, b) && LexLeq(b, a)
    ensures a == b
    decreases |a|
  {
    if |a| > 0 {
      LexLeqAntisymmetric(a[1..], b[1..]);
      assert a == [a[0]] + a[1..];
      assert b == [b[0]] + b[1..];
    }
  }

  lemma {:induction false} LexLeqTransitive(a: string, b: string, c: string)
    requires LexLeq(a, b) && LexLeq(b, c)
    ensures LexLeq(a, c)
    decreases |a|
  {
    if |a| > 0 && a[0] == b[0] && b[0] == c[0] {
      LexLeqTransitive(a[1..], b[1..], c[1..]);
    }
  }

  predicate Sorted(s: seq<string>)
  {
    forall i, j :: 0 <= i < j < |s| ==> LexLeq(s[i], s[j])
  }

  /** A string no greater than every element may go in front of a sorted sequence. */
  lemma SortedCons(x: string, s: seq<string>)
    requires Sorted(s)
    requires forall j :: 0 <= j < |s| ==> LexLeq(x, s[j])
    ensures Sorted([x] + s)
  {
    forall i, j | 0 <= i < j < |[x] + s| ensures LexLeq(([x] + s)[i], ([x] + s)[j]) {
      if i > 0 {
        assert ([x] + s)[i] == s[i - 1];
      }
    }
  }

  /** Inserts `x` into a sorted sequence before the first element it does not exceed. */
  function Insert(x: string, s: seq<string>): (r: seq<string>)
    requires Sorted(s)
    ensures Sorted(r)
    ensures multiset(r) == multiset(s) + multiset{x}
  {
    if |s| == 0 then [x]
    else if LexLeq(x, s[0]) then
      assert forall j :: 0 <= j < |s| ==> LexLeq(x, s[j]) by {
        forall j | 0 <= j < |s|
          ensures LexLeq(x, s[j])
        {
          if j > 0 {
            LexLeqTransitive(x, s[0], s[j]);
          }
        }
      }
      SortedCons(x, s);
      [x] + s
    else
      var rest := Insert(x, s[1..]);
      LexLeqTotal(x, s[0]);
      assert s == [s[0]] + s[1..];
      assert forall j :: 0 <= j < |rest| ==> LexLeq(s[0], rest[j]) by {
        forall j | 0 <= j < |rest|
          ensures LexLeq(s[0], rest[j])
        {
          assert rest[j] in multiset(rest);
        }
      }
      SortedCons(s[0], rest);
      [s[0]] + rest
  }

  /** `sorted(s)`. */
  function Sort(s: seq<string>): (r: seq<string>)
    ensures Sorted(r)
    ensures multiset(r) == multiset(s)
  {
    if |s| == 0 then []
    else
      assert s == [s[0]] + s[1..];
      Insert(s[0], Sort(s[1..]))
  }

  /** The first element of a sorted sequence is at most any of its elements. */
  lemma SortedFirstIsLeast(s: seq<string>, x: string)
    requires Sorted(s) && x in multiset(s)
    ensures LexLeq(s[0], x)
  {
    var i :| 0 <= i < |s| && s[i] == x;
    if i == 0 {
      LexLeqTotal(x, x);
    }
  }

  /** Two sorted sequences holding the same strings are equal. */
  lemma {:induction false} SortedUnique(a: seq<string>, b: seq<string>)
    requires Sorted(a) && Sorted(b)
    requires multiset(a) == multiset(b)
    ensures a == b
    decreases |a|
  {
    assert |b| == |multiset(b)| == |multiset(a)| == |a|;
    if |a| > 0 {
      SortedFirstIsLeast(b, a[0]);
      SortedFirstIsLeast(a, b[0]);
      LexLeqAntisymmetric(a[0], b[0]);
      assert a == [a[0]] + a[1..];
      assert b == [b[0]] + b[1..];
      assert multiset(a[1..]) == multiset(a) - multiset{a[0]};
      assert multiset(b[1..]) == multiset(b) - multiset{b[0]};
      SortedUnique(a[1..], b[1..]);
    }
  }

  lemma SortPermutationInvariant(a: seq<string>, b: seq<string>)
    requires multiset(a) == multiset(b)
    ensures Sort(a) == Sort(b)
  {
    SortedUnique(Sort(a), Sort(b));
  }

  /** Each element mapped to a sequence, the results concatenated in order. */
  function FlatMap<T, U>(xs: seq<T>, f: T -> seq<U>): seq<U>
  {
    if |xs| == 0 then [] else f(xs[0]) + FlatMap(xs[1..], f)
  }

  lemma {:induction false} FlatMapAppend<T, U>(xs: seq<T>, ys: seq<T>, f: T -> seq<U>)
    ensures FlatMap(xs + ys, f) == FlatMap(xs, f) + FlatMap(ys, f)
    decreases |xs|
  {
    if |xs| > 0 {
      assert (xs + ys)[1..] == xs[1..] + ys;
      FlatMapAppend(xs[1..], ys, f);
    } else {
      assert xs + ys == ys;
    }
  }

  /** What a flat map collects, as a multiset, does not depend on the order
      of its input. */
  lemma {:induction false} FlatMapPermutation<T, U>(xs: seq<T>, ys: seq<T>, f: T -> seq<U>)
    requires multiset(xs) == multiset(ys)
    ensures multiset(FlatMap(xs, f)) == multiset(FlatMap(ys, f))
    decreases |xs|
  {
    if |xs| == 0 {
      assert |ys| == |multiset(ys)| == 0;
    } else {
      var x := xs[0];
      assert x in multiset(ys);
      var i :| 0 <= i < |ys| && ys[i] == x;
      var rest := ys[..i] + ys[i + 1..];
      assert ys == ys[..i] + [x] + ys[i + 1..];
      assert multiset(xs[1..]) == multiset(xs) - multiset{x} by {
        assert xs == [x] + xs[1..];
      }
      assert multiset(rest) == multiset(ys) - multiset{x};
      FlatMapPermutation(xs[1..], rest, f);
      FlatMapMoveToFront(ys[..i], x, ys[i + 1..], f);
    }
  }

  /** Taking one element out of the middle moves its image to the front,
      up to order. */
  lemma FlatMapMoveToFront<T, U>(a: seq<T>, x: T, b: seq<T>, f: T -> seq<U>)
    ensures multiset(FlatMap(a + [x] + b, f)) == multiset(f(x) + FlatMap(a + b, f))
  {
    FlatMapAppend(a, b, f);
    FlatMapAppend(a + [x], b, f);
    FlatMapAppend(a, [x], f);
    assert FlatMap([x], f) == f(x) + FlatMap([x][1..], f);
    assert FlatMap([x], f) == f(x);
  }

}
