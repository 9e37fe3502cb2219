/** Values and small library models shared by both batch scripts. */
module Common {

  datatype Option<+T> = None | Some(value: T)

  /** What a Java call that may throw hands back: its value, or the exception. */
  datatype Result<+T, +E> = Success(value: T) | Failure(error: E)

  /** One octet, as held in a Java `byte[]` (its sign is irrelevant here). */
  newtype byte = x: int | 0 <= x < 256

  /** A count that is at least one. */
  type Positive = n: nat | 1 <= n witness 1

  function Min(a: int, b: int): int
  {
    if a <= b then a else b
  }

  /** Java's `String.lastIndexOf(c)`: the highest index holding `c`, or -1 when there is none. */
  function LastIndexOf(s: string, c: char): (r: int)
    ensures -1 <= r < |s|
  {
    LastIndexBelow(s, c, |s|)
  }

  /** The highest index below `n` holding `c`, or -1: the backward scan of `lastIndexOf`. */
  function LastIndexBelow(s: string, c: char, n: nat): (r: int)
    requires n <= |s|
    ensures -1 <= r < n
  {
    if n == 0 then -1
    else if s[n - 1] == c then n - 1
    else LastIndexBelow(s, c, n - 1)
  }

  /** The scan finds `c` exactly when it occurs below `n`, and then no later `c` occurs below `n`. */
  lemma {:induction false} LastIndexBelowSpec(s: string, c: char, n: nat)
    requires n <= |s|
    ensures LastIndexBelow(s, c, n) == -1 <==> c !in s[..n]
    ensures 0 <= LastIndexBelow(s, c, n) ==> s[LastIndexBelow(s, c, n)] == c && c !in s[LastIndexBelow(s, c, n) + 1..n]
  {
    if n > 0 && s[n - 1] != c {
      LastIndexBelowSpec(s, c, n - 1);
      assert s[..n] == s[..n - 1] + [s[n - 1]];
      var r := LastIndexBelow(s, c, n - 1);
      assert 0 <= r ==> s[r + 1..n] == s[r + 1..n - 1] + [s[n - 1]];
    }
  }

  /** `lastIndexOf` returns -1 exactly when `c` is absent, and otherwise an index of `c` with none after it. */
  lemma LastIndexOfSpec(s: string, c: char)
    ensures LastIndexOf(s, c) == -1 <==> c !in s
    ensures 0 <= LastIndexOf(s, c) ==> s[LastIndexOf(s, c)] == c && c !in s[LastIndexOf(s, c) + 1..]
  {
    LastIndexBelowSpec(s, c, |s|);
    assert s[..|s|] == s;
  }

  /** The last occurrence of `c` is pinned down by the two facts of its definition. */
  lemma LastIndexOfAt(s: string, c: char, k: int)
    requires 0 <= k < |s| && s[k] == c && c !in s[k + 1..]
    ensures LastIndexOf(s, c) == k
  {
    LastIndexOfSpec(s, c);
  }

  /** `x` occurs in `s` as one contiguous block. */
  ghost predicate IsInfix(x: string, s: string)
  {
    exists i, j :: 0 <= i <= j <= |s| && s[i..j] == x
  }
}
