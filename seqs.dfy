/** Generic sequence helpers: JavaScript's `Array.prototype.filter`, `some`, and
    the order-preserving subsequence relation used to state what a filter keeps. */
module Seqs {

  /** `xs.filter(p)`: the elements for which `p` holds, in their original order. */
  function Filter<T>(xs: seq<T>, p: T -> bool): (r: seq<T>)
    ensures |r| <= |xs|
    ensures forall i :: 0 <= i < |r| ==> p(r[i])
  {
    if xs == [] then []
    else if p(xs[0]) then [xs[0]] + Filter(xs[1..], p)
    else Filter(xs[1..], p)
  }

  /** An element is kept exactly when it occurs in `xs` and satisfies `p`. */
  lemma {:induction false} FilterMembers<T>(xs: seq<T>, p: T -> bool, x: T)
    ensures x in Filter(xs, p) <==> x in xs && p(x)
  {
    if xs != [] {
      FilterMembers(xs[1..], p, x);
      assert xs == [xs[0]] + xs[1..];
    }
  }

  /** A filter that every element passes keeps everything. */
  lemma {:induction false} FilterKeepsAll<T>(xs: seq<T>, p: T -> bool)
    requires forall i :: 0 <= i < |xs| ==> p(xs[i])
    ensures Filter(xs, p) == xs
  {
    if xs != [] {
      FilterKeepsAll(xs[1..], p);
    }
  }

  /** `a` is obtained from `b` by deleting elements, keeping the order of the rest. */
  predicate IsSubsequence<T(==)>(a: seq<T>, b: seq<T>)
    decreases |b|
  {
    if a == [] then true
    else if b == [] then false
    else if a[0] == b[0] then IsSubsequence(a[1..], b[1..])
    else IsSubsequence(a, b[1..])
  }

  lemma {:induction false} FilterIsSubsequence<T>(xs: seq<T>, p: T -> bool)
    ensures IsSubsequence(Filter(xs, p), xs)
  {
    if xs != [] {
      FilterIsSubsequence(xs[1..], p);
      if !p(xs[0]) {
        SubsequenceOfTail(Filter(xs[1..], p), xs);
      }
    }
  }

  /** Dropping the head of the larger sequence keeps the relation. */
  lemma {:induction false} SubsequenceOfTail<T>(a: seq<T>, b: seq<T>)
    requires b != []
    requires IsSubsequence(a, b[1..])
    ensures IsSubsequence(a, b)
    decreases |b|, 0
  {
    if a != [] && a[0] == b[0] {
      SubsequenceDropHead(a, b[1..]);
    }
  }

  /** Dropping the head of the smaller sequence keeps the relation. */
  lemma {:induction false} SubsequenceDropHead<T>(a: seq<T>, b: seq<T>)
    requires a != []
    requires IsSubsequence(a, b)
    ensures IsSubsequence(a[1..], b)
    decreases |b|, 1
  {
    if a[1..] != [] {
      assert b != [];
      if a[0] == b[0] {
        SubsequenceOfTail(a[1..], b);
      } else {
        SubsequenceDropHead(a, b[1..]);
        SubsequenceOfTail(a[1..], b);
      }
    }
  }

  lemma {:induction false} SubsequenceReflexive<T>(a: seq<T>)
    ensures IsSubsequence(a, a)
  {
    if a != [] {
      SubsequenceReflexive(a[1..]);
    }
  }

  lemma {:induction false} SubsequenceTransitive<T>(a: seq<T>, b: seq<T>, c: seq<T>)
    requires IsSubsequence(a, b) && IsSubsequence(b, c)
    ensures IsSubsequence(a, c)
    decreases |c|
  {
    if a != [] {
      assert b != [] && c != [];
      if b[0] == c[0] {
        if a[0] == b[0] {
          SubsequenceTransitive(a[1..], b[1..], c[1..]);
        } else {
          SubsequenceTransitive(a, b[1..], c[1..]);
          SubsequenceOfTail(a, c);
        }
      } else {
        SubsequenceTransitive(a, b, c[1..]);
        SubsequenceOfTail(a, c);
      }
    }
  }

  /** Both halves of a concatenation are subsequences of it. */
  lemma {:induction false} PrefixIsSubsequence<T>(a: seq<T>, b: seq<T>)
    ensures IsSubsequence(a, a + b)
  {
    if a == [] {
    } else {
      assert (a + b)[1..] == a[1..] + b;
      PrefixIsSubsequence(a[1..], b);
    }
  }

  lemma {:induction false} SuffixIsSubsequence<T>(a: seq<T>, b: seq<T>)
    ensures IsSubsequence(b, a + b)
  {
    if a == [] {
      assert a + b == b;
      SubsequenceReflexive(b);
    } else {
      assert (a + b)[1..] == a[1..] + b;
      SuffixIsSubsequence(a[1..], b);
      SubsequenceOfTail(b, a + b);
    }
  }

  lemma {:induction false} FilterConcat<T>(a: seq<T>, b: seq<T>, p: T -> bool)
    ensures Filter(a + b, p) == Filter(a, p) + Filter(b, p)
  {
    if a == [] {
      assert a + b == b;
    } else {
      assert (a + b)[0] == a[0];
      assert (a + b)[1..] == a[1..] + b;
      FilterConcat(a[1..], b, p);
    }
  }

  /** A loop that pushes `f(x)` for every `x` of `xs` satisfying `p`, in order. */
  function FilterMap<T(!new), U>(xs: seq<T>, p: T -> bool, f: T --> U): (r: seq<U>)
    requires forall x :: p(x) ==> f.requires(x)
    ensures |r| <= |xs|
  {
    if xs == [] then []
    else
      var init := FilterMap(xs[..|xs| - 1], p, f);
      var x := xs[|xs| - 1];
      if p(x) then init + [f(x)] else init
  }

  lemma {:induction false} FilterMapConcat<T(!new), U>(a: seq<T>, b: seq<T>, p: T -> bool, f: T --> U)
    requires forall x :: p(x) ==> f.requires(x)
    ensures FilterMap(a + b, p, f) == FilterMap(a, p, f) + FilterMap(b, p, f)
    decreases |b|
  {
    if b == [] {
      assert a + b == a;
    } else {
      assert (a + b)[..|a + b| - 1] == a + b[..|b| - 1];
      assert (a + b)[|a + b| - 1] == b[|b| - 1];
      FilterMapConcat(a, b[..|b| - 1], p, f);
    }
  }

  /** `y` is pushed exactly when it is the image of an element satisfying `p`. */
  lemma {:induction false} FilterMapMembers<T(!new), U>(xs: seq<T>, p: T -> bool, f: T --> U, y: U)
    requires forall x :: p(x) ==> f.requires(x)
    ensures y in FilterMap(xs, p, f) <==> exists i :: 0 <= i < |xs| && p(xs[i]) && y == f(xs[i])
  {
    if xs != [] {
      var init := xs[..|xs| - 1];
      FilterMapMembers(init, p, f, y);
      if exists i :: 0 <= i < |init| && p(init[i]) && y == f(init[i]) {
        var i :| 0 <= i < |init| && p(init[i]) && y == f(init[i]);
        assert xs[i] == init[i];
      }
      if exists i :: 0 <= i < |xs| && p(xs[i]) && y == f(xs[i]) {
        var i :| 0 <= i < |xs| && p(xs[i]) && y == f(xs[i]);
        if i < |init| {
          assert init[i] == xs[i];
        }
      }
    }
  }

  /** Nothing is pushed exactly when no element satisfies `p`. */
  lemma {:induction false} FilterMapEmpty<T(!new), U>(xs: seq<T>, p: T -> bool, f: T --> U)
    requires forall x :: p(x) ==> f.requires(x)
    ensures FilterMap(xs, p, f) == [] <==> forall i :: 0 <= i < |xs| ==> !p(xs[i])
  {
    if xs != [] {
      var init := xs[..|xs| - 1];
      FilterMapEmpty(init, p, f);
      if !p(xs[|xs| - 1]) {
        assert forall i :: 0 <= i < |init| ==> init[i] == xs[i];
      }
    }
  }

  /** `xs.some(p)`. */
  predicate Some<T>(xs: seq<T>, p: T -> bool)
  {
    xs != [] && (p(xs[0]) || Some(xs[1..], p))
  }

  lemma {:induction false} SomeIsExists<T>(xs: seq<T>, p: T -> bool)
    ensures Some(xs, p) <==> exists i :: 0 <= i < |xs| && p(xs[i])
  {
    if xs != [] {
      SomeIsExists(xs[1..], p);
      if Some(xs[1..], p) {
        var i :| 0 <= i < |xs[1..]| && p(xs[1..][i]);
        assert p(xs[i + 1]);
      }
      if exists i :: 0 <= i < |xs| && p(xs[i]) {
        var i :| 0 <= i < |xs| && p(xs[i]);
        if i > 0 {
          assert p(xs[1..][i - 1]);
        }
      }
    }
  }
}
