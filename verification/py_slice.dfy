/**
 Python's prefix slice `s[:n]` on a list, for any integer `n`.
 */
module PySlice {

  function Min(a: int, b: int): int
  {
    if a <= b then a else b
  }

  /** Python normalises a slice bound against the length: a negative bound counts
      from the end, and the result is clamped into `0..len`. */
  function StopIndex(n: int, len: nat): (k: nat)
    ensures k <= len
  {
    if n < 0 then (if len + n < 0 then 0 else len + n)
    else if n > len then len
    else n
  }

  /** `s[:n]`. A non-negative `n` keeps the first `n` items (all of them when
      there are fewer); a negative `n` drops the last `-n` items (all of them
      when there are fewer). */
  function Head<T>(s: seq<T>, n: int): (r: seq<T>)
    ensures r <= s
    ensures 0 <= n ==> |r| == Min(n, |s|)
    ensures n < 0 ==> |s| - |r| == Min(-n, |s|)
  {
    s[..StopIndex(n, |s|)]
  }

  /** Among bounds of one sign, a larger bound never yields a shorter slice: those
      slices of one list form a chain of prefixes. (Across signs this fails:
      `s[:-1]` is longer than `s[:0]`.) */
  lemma HeadMonotone<T>(s: seq<T>, n: int, m: int)
    requires n <= m
    requires 0 <= n || m < 0
    ensures Head(s, n) <= Head(s, m)
  {
  }
}
