/**
 * Sequence helpers that stand for the array utilities the atom code relies on:
 * order-preserving filters, moving an element to the back of an array
 * (`$ext.array.toBack`), de-duplication (`$ext.array.unique`), flattening and
 * in-place reversal (`Array.prototype.reverse`).
 */
module Seqs {

  /** `r` is obtained from `s` by deleting elements, keeping the order of the rest. */
  ghost predicate IsSubsequence<T>(r: seq<T>, s: seq<T>)
    decreases |s|
  {
    r == [] ||
    (s != [] &&
     ((r[|r| - 1] == s[|s| - 1] && IsSubsequence(r[..|r| - 1], s[..|s| - 1])) ||
      IsSubsequence(r, s[..|s| - 1])))
  }

  /** A prefix grows by the next element. */
  lemma PrefixStep<T>(s: seq<T>, j: nat)
    requires j < |s|
    ensures s[..j + 1] == s[..j] + [s[j]]
  {
  }

  /** No element occurs twice. */
  predicate Distinct<T(==)>(s: seq<T>) {
    forall i, j :: 0 <= i < j < |s| ==> s[i] != s[j]
  }

  /** Appending a new element keeps a sequence free of repeats. */
  lemma DistinctSnoc<T>(s: seq<T>, x: T)
    requires Distinct(s) && x !in s
    ensures Distinct(s + [x])
  {
    forall i, j | 0 <= i < j < |s + [x]| ensures (s + [x])[i] != (s + [x])[j] {
      assert (s + [x])[i] == s[i];
    }
  }

  lemma {:induction false} DistinctCounts<T>(s: seq<T>)
    ensures Distinct(s) <==> forall x :: multiset(s)[x] <= 1
  {
    if s != [] {
      var t := s[1..];
      assert s == [s[0]] + t;
      DistinctCounts(t);
      if Distinct(s) {
        assert Distinct(t) by {
          forall i, j | 0 <= i < j < |t| ensures t[i] != t[j] {
            assert t[i] == s[i + 1] && t[j] == s[j + 1];
          }
        }
        assert s[0] !in t by {
          forall j | 0 <= j < |t| ensures t[j] != s[0] {
            assert t[j] == s[j + 1];
          }
        }
      }
      if forall x :: multiset(s)[x] <= 1 {
        assert forall x :: multiset(t)[x] <= 1 by {
          forall x ensures multiset(t)[x] <= 1 {
            assert multiset(s)[x] == multiset(t)[x] + (if x == s[0] then 1 else 0);
          }
        }
        assert multiset(t)[s[0]] == 0 by {
          assert multiset(s)[s[0]] == multiset(t)[s[0]] + 1;
        }
        forall i, j | 0 <= i < j < |s| ensures s[i] != s[j] {
          if i == 0 {
            assert s[j] == t[j - 1];
          } else {
            assert s[i] == t[i - 1] && s[j] == t[j - 1];
          }
        }
      }
    }
  }

  /** The elements of `s` that satisfy `p`, in their original order. */
  function Filter<T>(s: seq<T>, p: T -> bool): (r: seq<T>)
    ensures forall x | x in r :: x in s && p(x)
    ensures forall x | x in s && p(x) :: x in r
  {
    if s == [] then []
    else
      var rest, x := Filter(s[..|s| - 1], p), s[|s| - 1];
      assert s == s[..|s| - 1] + [x];
      if p(x) then rest + [x] else rest
  }

  /** `Filter` keeps the order and the multiplicity of every element it keeps. */
  lemma {:induction false} FilterCounts<T>(s: seq<T>, p: T -> bool)
    ensures IsSubsequence(Filter(s, p), s)
    ensures forall x :: multiset(Filter(s, p))[x] == (if p(x) then multiset(s)[x] else 0)
  {
    if s != [] {
      var init := s[..|s| - 1];
      assert s == init + [s[|s| - 1]];
      FilterCounts(init, p);
    }
  }

  /** The elements of `l` that do not occur in `ms`, in their original order. */
  function Without<T(==)>(l: seq<T>, ms: seq<T>): (r: seq<T>)
    ensures forall x | x in r :: x in l && x !in ms
    ensures forall x | x in l && x !in ms :: x in r
  {
    if l == [] then []
    else
      var rest := Without(l[1..], ms);
      if l[0] in ms then rest else [l[0]] + rest
  }

  lemma {:induction false} WithoutCounts<T>(l: seq<T>, ms: seq<T>)
    ensures forall x :: multiset(Without(l, ms))[x] == (if x in ms then 0 else multiset(l)[x])
  {
    if l != [] {
      assert l == [l[0]] + l[1..];
      WithoutCounts(l[1..], ms);
    }
  }

  lemma {:induction false} WithoutNothing<T>(l: seq<T>)
    ensures Without(l, []) == l
  {
    if l != [] {
      WithoutNothing(l[1..]);
    }
  }

  lemma {:induction false} WithoutTwice<T>(l: seq<T>, a: seq<T>, b: seq<T>)
    ensures Without(Without(l, a), b) == Without(l, a + b)
  {
    if l != [] {
      WithoutTwice(l[1..], a, b);
    }
  }

  lemma {:induction false} WithoutAbsent<T>(l: seq<T>, x: T)
    requires x !in l
    ensures Without(l, [x]) == l
  {
    if l != [] {
      WithoutAbsent(l[1..], x);
    }
  }

  /** Cutting one element out of a distinct sequence is filtering that element away. */
  lemma {:induction false} CutIsWithout<T>(w: seq<T>, i: nat)
    requires Distinct(w) && i < |w|
    ensures w[..i] + w[i + 1..] == Without(w, [w[i]])
  {
    if i == 0 {
      assert w[0] !in w[1..] by {
        forall j | 0 <= j < |w[1..]| ensures w[1..][j] != w[0] {
          assert w[1..][j] == w[j + 1];
        }
      }
      WithoutAbsent(w[1..], w[0]);
      assert w[..0] + w[1..] == w[1..];
    } else {
      var t := w[1..];
      assert Distinct(t) by {
        forall p, q | 0 <= p < q < |t| ensures t[p] != t[q] {
          assert t[p] == w[p + 1] && t[q] == w[q + 1];
        }
      }
      CutIsWithout(t, i - 1);
      assert t[i - 1] == w[i];
      assert w[0] != w[i];
      assert w[..i] == [w[0]] + t[..i - 1];
      assert w[i + 1..] == t[i..];
    }
  }

  /** Every element that occurs at most once in `l` occurs at most once in `Without(l, ms)`. */
  lemma WithoutDistinct<T>(l: seq<T>, ms: seq<T>)
    requires Distinct(l)
    ensures Distinct(Without(l, ms))
  {
    WithoutCounts(l, ms);
    DistinctCounts(l);
    DistinctCounts(Without(l, ms));
  }

  /** Index of the first occurrence of `x` in `s`. */
  function IndexOf<T(==)>(s: seq<T>, x: T): (i: nat)
    requires x in s
    ensures i < |s| && s[i] == x && x !in s[..i]
  {
    if s[0] == x then 0
    else
      var j := IndexOf(s[1..], x);
      assert s[..j + 1] == [s[0]] + s[1..][..j];
      j + 1
  }

  /** `$ext.array.toBack(s, i)`: the element at index `i` is moved to the end. */
  function ToBack<T>(s: seq<T>, i: nat): (r: seq<T>)
    requires i < |s|
    ensures |r| == |s| && r[|s| - 1] == s[i]
    ensures multiset(r) == multiset(s)
  {
    assert s == s[..i] + [s[i]] + s[i + 1..];
    s[..i] + s[i + 1..] + [s[i]]
  }

  /**
   * Moves the elements of `ms`, one after the other, to the back of `l`
   * (each by `ToBack` at its current index).
   */
  function MoveToBack<T(==)>(l: seq<T>, ms: seq<T>): (r: seq<T>)
    ensures multiset(r) == multiset(l)
    decreases |ms|
  {
    if ms == [] then l
    else
      var rest := MoveToBack(l, ms[..|ms| - 1]);
      var x := ms[|ms| - 1];
      if x in rest then ToBack(rest, IndexOf(rest, x)) else rest
  }

  /** The first occurrence of an element of `w` in `w + u` lies in `w`. */
  lemma {:induction false} IndexOfPrefix<T>(w: seq<T>, u: seq<T>, x: T)
    requires x in w
    ensures IndexOf(w + u, x) == IndexOf(w, x)
  {
    if w[0] != x {
      assert (w + u)[1..] == w[1..] + u;
      IndexOfPrefix(w[1..], u, x);
    }
  }

  lemma ToBackInPrefix<T>(w: seq<T>, u: seq<T>, i: nat)
    requires i < |w|
    ensures ToBack(w + u, i) == (w[..i] + w[i + 1..]) + (u + [w[i]])
  {
    assert (w + u)[..i] == w[..i];
    assert (w + u)[i + 1..] == w[i + 1..] + u;
  }

  lemma DistinctInit<T>(ms: seq<T>)
    requires Distinct(ms) && ms != []
    ensures Distinct(ms[..|ms| - 1]) && ms[|ms| - 1] !in ms[..|ms| - 1]
  {
    var init := ms[..|ms| - 1];
    forall j | 0 <= j < |init| ensures init[j] != ms[|ms| - 1] {
      assert init[j] == ms[j];
    }
  }

  /**
   * One more step of moving distinct members to the back: in a list whose
   * moved part `ms` is already at the back, moving `x` puts it after them.
   */
  lemma ToBackShape<T>(l: seq<T>, ms: seq<T>, x: T)
    requires Distinct(l) && Distinct(ms + [x])
    requires forall y :: y in ms + [x] ==> y in l
    ensures ToBack(Without(l, ms) + ms, IndexOf(Without(l, ms) + ms, x)) == Without(l, ms + [x]) + (ms + [x])
  {
    DistinctInit(ms + [x]);
    assert (ms + [x])[..|ms|] == ms;
    var w := Without(l, ms);
    assert x in w;
    IndexOfPrefix(w, ms, x);
    var i := IndexOf(w, x);
    WithoutDistinct(l, ms);
    CutIsWithout(w, i);
    WithoutTwice(l, ms, [x]);
    ToBackInPrefix(w, ms, i);
  }

  /**
   * Moving distinct members of a distinct list to the back, one by one, keeps
   * the other members in their order and puts the moved ones last, in the order
   * in which they were moved.
   */
  lemma {:induction false} MoveToBackShape<T>(l: seq<T>, ms: seq<T>)
    requires Distinct(l) && Distinct(ms)
    requires forall x :: x in ms ==> x in l
    ensures MoveToBack(l, ms) == Without(l, ms) + ms
    decreases |ms|
  {
    if ms == [] {
      WithoutNothing(l);
    } else {
      var init, x := ms[..|ms| - 1], ms[|ms| - 1];
      assert ms == init + [x];
      DistinctInit(ms);
      MoveToBackShape(l, init);
      ToBackShape(l, init, x);
    }
  }

  /** In a distinct sequence every member occurs exactly once. */
  lemma DistinctOnce<T>(s: seq<T>, x: T)
    requires Distinct(s) && x in s
    ensures multiset(s)[x] == 1
  {
    DistinctCounts(s);
  }

  /** Permutations of a distinct sequence are distinct. */
  lemma PermutationDistinct<T>(s: seq<T>, t: seq<T>)
    requires multiset(s) == multiset(t) && Distinct(s)
    ensures Distinct(t)
  {
    DistinctCounts(s);
    DistinctCounts(t);
  }

  /** `Array.prototype.reverse`. */
  function Reverse<T>(s: seq<T>): (r: seq<T>)
    ensures |r| == |s|
    ensures forall i :: 0 <= i < |s| ==> r[i] == s[|s| - 1 - i]
  {
    if s == [] then [] else Reverse(s[1..]) + [s[0]]
  }

  /** `$ext.array.unique`, keeping first occurrences. */
  function Unique<T(==)>(s: seq<T>): (r: seq<T>)
    ensures Distinct(r)
    ensures forall x | x in r :: x in s
    ensures forall x | x in s :: x in r
    ensures forall i, j | 0 <= i < j < |r| :: IndexOf(s, r[i]) < IndexOf(s, r[j])
    decreases |s|
  {
    if s == [] then []
    else
      var front := s[..|s| - 1];
      var init := Unique(front);
      var x := s[|s| - 1];
      assert s == front + [x];
      forall y | y in init ensures IndexOf(s, y) == IndexOf(front, y) {
        IndexOfPrefix(front, [x], y);
      }
      if x in init then init
      else
        assert IndexOf(s, x) == |s| - 1 by {
          assert x !in front;
        }
        init + [x]
  }

  /** `$ext.array.flatten` of one level of nesting. */
  function Flatten<T>(ss: seq<seq<T>>): (r: seq<T>)
    ensures forall i, x | 0 <= i < |ss| && x in ss[i] :: x in r
    ensures forall x | x in r :: exists i :: 0 <= i < |ss| && x in ss[i]
  {
    if ss == [] then []
    else
      var rest := Flatten(ss[1..]);
      assert forall i | 1 <= i < |ss| :: ss[i] == ss[1..][i - 1];
      ss[0] + rest
  }
}
