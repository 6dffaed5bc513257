/** Searching a sequence for the first occurrence of an element: the model of
    Rust's `str::find` with a single-element pattern. */
module Seqs {
  import opened Wrappers

  /** Index of the first `x` in `s`, or `None` when `s` holds no `x`. */
  function IndexOf<T(==)>(s: seq<T>, x: T): (r: Option<nat>)
    ensures r.None? <==> x !in s
    ensures r.Some? ==> r.value < |s| && s[r.value] == x && x !in s[..r.value]
    decreases |s|
  {
    if s == [] then None
    else if s[0] == x then Some(0)
    else
      match IndexOf(s[1..], x)
      case None => None
      case Some(i) =>
        assert s[..i + 1] == [s[0]] + s[1..][..i];
        Some(i + 1)
  }

  /** An optional index moved `k` places to the right. */
  function Shift(o: Option<nat>, k: nat): Option<nat>
  {
    match o
    case None => None
    case Some(i) => Some(i + k)
  }

  /** Searching past a prefix that does not hold `x` shifts the answer by the prefix's length. */
  lemma {:induction false} IndexOfAfter<T>(a: seq<T>, b: seq<T>, x: T)
    requires x !in a
    ensures IndexOf(a + b, x) == Shift(IndexOf(b, x), |a|)
  {
    if a != [] {
      assert (a + b)[1..] == a[1..] + b;
      IndexOfAfter(a[1..], b, x);
    } else {
      assert a + b == b;
    }
  }
}
