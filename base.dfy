// Small shared vocabulary: optional values, results with an error text,
// and the prefix order on sequences (used for tree positions and paths).

module Base {

  datatype Option<+T> = None | Some(value: T)

  /** The outcome of an operation that can throw: the value, or the name of
      the exception. */
  datatype Result<+T> = Ok(value: T) | Err(reason: string)

  /** `p` is `q` or one of its prefixes. */
  predicate IsPrefix<T(==)>(p: seq<T>, q: seq<T>) {
    |p| <= |q| && q[..|p|] == p
  }

  lemma PrefixCons<T>(p: seq<T>, q: seq<T>)
    requires |p| > 0 && |q| > 0 && p[0] == q[0]
    ensures IsPrefix(p, q) <==> IsPrefix(p[1..], q[1..])
  {
    if |p| <= |q| {
      assert q[..|p|] == [q[0]] + q[1..][..|p| - 1];
      assert p == [p[0]] + p[1..];
    }
  }

  /** Two prefixes of one sequence are prefixes of each other. */
  lemma PrefixesComparable<T>(a: seq<T>, b: seq<T>, x: seq<T>)
    requires IsPrefix(a, x) && IsPrefix(b, x)
    ensures |a| <= |b| ==> IsPrefix(a, b)
    ensures |b| <= |a| ==> IsPrefix(b, a)
  {
  }

  /** Nothing below `base + [b]` lies below a sibling `base + [a]`. */
  lemma Diverge<T>(base: seq<T>, a: T, b: T, x: seq<T>)
    requires a != b && IsPrefix(base + [b], x)
    ensures !IsPrefix(base + [a], x)
  {
    assert x[|base|] == b;
    assert (base + [a])[|base|] == a;
  }

  /** The middle part of `a + b + c`. */
  lemma SliceMiddle<T>(a: seq<T>, b: seq<T>, c: seq<T>)
    ensures (a + b + c)[|a|..|a| + |b|] == b
  {
    assert forall i :: 0 <= i < |b| ==> (a + b + c)[|a|..|a| + |b|][i] == b[i];
  }

  /** A slice of `a + b` that lies inside `b`. */
  lemma SliceAfter<T>(a: seq<T>, b: seq<T>, lo: nat, hi: nat)
    requires lo <= hi <= |b|
    ensures (a + b)[|a| + lo..|a| + hi] == b[lo..hi]
  {
    assert forall i :: 0 <= i < hi - lo ==> (a + b)[|a| + lo..|a| + hi][i] == b[lo..hi][i];
  }
}
