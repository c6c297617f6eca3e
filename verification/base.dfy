/** Option and Result, the two failure-carrying wrappers the rest of the model returns. */
module Results {

  datatype Option<+T> = None | Some(value: T)

  datatype Result<+T, +E> = Ok(value: T) | Err(error: E)
}

/** Order-preserving filtering of sequences and the subsequence relation it produces. */
module Seqs {

  /** A prefix one longer is the shorter prefix and the next element. */
  lemma PrefixSnoc<T>(s: seq<T>, i: nat)
    requires i < |s|
    ensures s[..i + 1] == s[..i] + [s[i]]
  {
  }

  /** `b` is `a`, or `a` with one more element at the end. */
  predicate Appends<T(==)>(a: seq<T>, b: seq<T>) {
    b == a || (|b| == |a| + 1 && b[..|a|] == a)
  }

  /** A sequence of three elements is the display of those elements. */
  lemma SeqOfThree<T>(s: seq<T>, x: T, y: T, z: T)
    requires |s| == 3 && s[0] == x && s[1] == y && s[2] == z
    ensures s == [x, y, z]
  {
  }

  /** The elements of `s` that satisfy `keep`, in their original order (Rust's `Iterator::filter`). */
  function Keep<T>(s: seq<T>, keep: T -> bool): (r: seq<T>)
    ensures |r| <= |s|
    decreases |s|
  {
    if |s| == 0 then []
    else Keep(s[..|s| - 1], keep) + (if keep(s[|s| - 1]) then [s[|s| - 1]] else [])
  }

  /** Everything kept is in the input and satisfies the filter. */
  lemma {:induction false} KeepSound<T>(s: seq<T>, keep: T -> bool, x: T)
    requires x in Keep(s, keep)
    ensures x in s && keep(x)
    decreases |s|
  {
    var s' := s[..|s| - 1];
    if x in Keep(s', keep) {
      KeepSound(s', keep, x);
    }
  }

  /** Everything in the input that satisfies the filter is kept. */
  lemma {:induction false} KeepContains<T>(s: seq<T>, keep: T -> bool, x: T)
    requires x in s && keep(x)
    ensures x in Keep(s, keep)
    decreases |s|
  {
    if x != s[|s| - 1] {
      assert x in s[..|s| - 1];
      KeepContains(s[..|s| - 1], keep, x);
    }
  }

  /** `a` can be obtained from `b` by deleting elements (order kept). */
  predicate IsSubsequence<T(==)>(a: seq<T>, b: seq<T>)
    decreases |b|
  {
    if |a| == 0 then true
    else if |b| == 0 then false
    else if a[|a| - 1] == b[|b| - 1] then IsSubsequence(a[..|a| - 1], b[..|b| - 1])
    else IsSubsequence(a, b[..|b| - 1])
  }

  lemma {:induction false} SubsequenceOfExtension<T>(a: seq<T>, b: seq<T>, x: T)
    requires IsSubsequence(a, b)
    ensures IsSubsequence(a, b + [x])
    decreases |a| + |b|, 1
  {
    if |a| == 0 {
    } else {
      assert (b + [x])[..|b|] == b;
      if a[|a| - 1] == x {
        // Matching the last element against x needs a[..|a|-1] to be a subsequence of b.
        SubsequenceDropLast(a, b);
      }
    }
  }

  lemma {:induction false} SubsequenceDropLast<T>(a: seq<T>, b: seq<T>)
    requires |a| > 0 && IsSubsequence(a, b)
    ensures IsSubsequence(a[..|a| - 1], b)
    decreases |a| + |b|, 0
  {
    assert |b| > 0;
    var a' := a[..|a| - 1];
    var b' := b[..|b| - 1];
    if a[|a| - 1] == b[|b| - 1] {
      SubsequenceOfExtension(a', b', b[|b| - 1]);
      assert b' + [b[|b| - 1]] == b;
    } else {
      SubsequenceDropLast(a, b');
      SubsequenceOfExtension(a', b', b[|b| - 1]);
      assert b' + [b[|b| - 1]] == b;
    }
  }

  /** Every element of a subsequence occurs in the sequence it was taken from. */
  lemma {:induction false} SubsequenceMembers<T>(a: seq<T>, b: seq<T>, x: T)
    requires IsSubsequence(a, b) && x in a
    ensures x in b
    decreases |b|
  {
    var b' := b[..|b| - 1];
    if a[|a| - 1] == b[|b| - 1] {
      if x != a[|a| - 1] {
        assert x in a[..|a| - 1];
        SubsequenceMembers(a[..|a| - 1], b', x);
      }
    } else {
      SubsequenceMembers(a, b', x);
    }
  }

  lemma {:induction false} SubsequenceReflexive<T>(a: seq<T>)
    ensures IsSubsequence(a, a)
    decreases |a|
  {
    if |a| > 0 {
      SubsequenceReflexive(a[..|a| - 1]);
    }
  }

  /** Filtering keeps order: the result is a subsequence of the input. */
  lemma {:induction false} KeepIsSubsequence<T>(s: seq<T>, keep: T -> bool)
    ensures IsSubsequence(Keep(s, keep), s)
    decreases |s|
  {
    if |s| > 0 {
      var s' := s[..|s| - 1];
      var x := s[|s| - 1];
      KeepIsSubsequence(s', keep);
      assert s' + [x] == s;
      if keep(x) {
        var k := Keep(s, keep);
        assert k == Keep(s', keep) + [x];
        assert k[..|k| - 1] == Keep(s', keep);
      } else {
        assert Keep(s, keep) == Keep(s', keep);
        SubsequenceOfExtension(Keep(s', keep), s', x);
      }
    }
  }

  /** Filtering with a weaker predicate keeps everything a stronger one keeps, in the same order. */
  lemma {:induction false} KeepMonotone<T>(s: seq<T>, p: T -> bool, q: T -> bool)
    requires forall x :: x in s && p(x) ==> q(x)
    ensures IsSubsequence(Keep(s, p), Keep(s, q))
    decreases |s|
  {
    if |s| > 0 {
      var s' := s[..|s| - 1];
      var x := s[|s| - 1];
      KeepMonotone(s', p, q);
      if p(x) {
        var kp := Keep(s, p);
        var kq := Keep(s, q);
        assert kq == Keep(s', q) + [x];
        assert kq[..|kq| - 1] == Keep(s', q);
        assert kp[..|kp| - 1] == Keep(s', p);
      } else if q(x) {
        assert Keep(s, p) == Keep(s', p);
        assert Keep(s, q) == Keep(s', q) + [x];
        SubsequenceOfExtension(Keep(s', p), Keep(s', q), x);
      } else {
        assert Keep(s, p) == Keep(s', p);
        assert Keep(s, q) == Keep(s', q);
      }
    }
  }

  /** Two successive filters keep exactly what their conjunction keeps. */
  lemma {:induction false} KeepFusion<T>(s: seq<T>, f: T -> bool, g: T -> bool, both: T -> bool)
    requires forall x :: both(x) == (f(x) && g(x))
    ensures Keep(Keep(s, f), g) == Keep(s, both)
    decreases |s|
  {
    if |s| > 0 {
      var s' := s[..|s| - 1];
      var x := s[|s| - 1];
      KeepFusion(s', f, g, both);
      if f(x) {
        assert Keep(s, f)[..|Keep(s, f)| - 1] == Keep(s', f);
      } else {
        assert Keep(s, f) == Keep(s', f);
      }
    }
  }

  /** The conjunction of two filters. */
  function Both<T>(f: T -> bool, g: T -> bool): T -> bool {
    (x: T) => f(x) && g(x)
  }

  /** Filtering twice is filtering once by the conjunction. */
  lemma KeepBoth<T>(s: seq<T>, f: T -> bool, g: T -> bool)
    ensures Keep(Keep(s, f), g) == Keep(s, Both(f, g))
  {
    KeepFusion(s, f, g, Both(f, g));
  }

  /** Filters that agree on every element produce the same result. */
  lemma {:induction false} KeepExtensional<T>(s: seq<T>, f: T -> bool, g: T -> bool)
    requires forall x :: x in s ==> f(x) == g(x)
    ensures Keep(s, f) == Keep(s, g)
    decreases |s|
  {
    if |s| > 0 {
      KeepExtensional(s[..|s| - 1], f, g);
    }
  }

  /** A filter that accepts every element returns its input. */
  lemma {:induction false} KeepAll<T>(s: seq<T>, f: T -> bool)
    requires forall x :: x in s ==> f(x)
    ensures Keep(s, f) == s
    decreases |s|
  {
    if |s| > 0 {
      KeepAll(s[..|s| - 1], f);
      assert s[..|s| - 1] + [s[|s| - 1]] == s;
    }
  }

  /** Complementary filters split a sequence: their results' lengths add up to the input's. */
  lemma {:induction false} KeepComplement<T>(s: seq<T>, f: T -> bool, g: T -> bool)
    requires forall x :: x in s ==> (f(x) <==> !g(x))
    ensures |Keep(s, f)| + |Keep(s, g)| == |s|
    decreases |s|
  {
    if |s| > 0 {
      KeepComplement(s[..|s| - 1], f, g);
    }
  }
}
