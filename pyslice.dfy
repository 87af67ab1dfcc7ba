/**
 * Python's open-ended slice `s[start:]` on a list, with the language's
 * index rules: a negative start counts from the end, and a start outside
 * the list is clamped to its nearest end instead of raising an error.
 */
module PySlice {

  function Min(a: int, b: int): int
  {
    if a <= b then a else b
  }

  /** `r` is a contiguous run of `s` that ends where `s` ends. */
  ghost predicate IsSuffix<T>(r: seq<T>, s: seq<T>)
  {
    |r| <= |s| && r == s[|s| - |r|..]
  }

  /** The position at which Python's `s[start:]` begins, for a list of length `n`. */
  function StartIndex(n: nat, start: int): (i: nat)
    ensures i <= n
  {
    if start < 0 then
      (if n + start < 0 then 0 else n + start)
    else if start > n then n
    else start
  }

  /** Python's `s[start:]`. */
  function SliceFrom<T>(s: seq<T>, start: int): (r: seq<T>)
    ensures IsSuffix(r, s)
    ensures 0 <= start <= |s| ==> |r| == |s| - start
    ensures |s| < start ==> r == []
    ensures -|s| <= start < 0 ==> |r| == -start
    ensures start < -|s| ==> r == s
  {
    s[StartIndex(|s|, start)..]
  }

  lemma SuffixOfSuffix<T>(a: seq<T>, b: seq<T>, c: seq<T>)
    requires IsSuffix(a, b) && IsSuffix(b, c)
    ensures IsSuffix(a, c)
  {
    assert a == c[|c| - |b|..][|b| - |a|..];
  }

  lemma SuffixExtended<T>(a: seq<T>, b: seq<T>, x: T)
    requires IsSuffix(a, b)
    ensures IsSuffix(a + [x], b + [x])
  {
    assert (b + [x])[|b| + 1 - (|a| + 1)..] == b[|b| - |a|..] + [x];
  }

  lemma AppendAfterConcat<T>(s: seq<T>, front: seq<T>, x: T)
    ensures s + (front + [x]) == (s + front) + [x]
  {
  }

  lemma SplitLast<T>(s: seq<T>)
    requires s != []
    ensures s[..|s| - 1] + [s[|s| - 1]] == s
  {
  }
}
