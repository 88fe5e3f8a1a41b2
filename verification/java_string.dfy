/**
  Java's `String.trim()`, which the command uses to decide whether a research
  id was given at all.  `trim` removes every leading and trailing character
  whose code is at most U+0020 (space and the control characters), not only
  spaces.
 */
module JavaString {

  /** A character `trim` strips. */
  predicate IsTrimmable(c: char)
  {
    c <= ' '
  }

  /** `r` occurs in `s` at index `k` and everything of `s` around it is trimmable. */
  predicate TrimmedAt(s: string, k: int, r: string)
  {
    && 0 <= k <= |s| - |r|
    && r == s[k..k + |r|]
    && (forall i :: 0 <= i < k ==> IsTrimmable(s[i]))
    && (forall i :: k + |r| <= i < |s| ==> IsTrimmable(s[i]))
  }

  /** Drops the leading trimmable characters. */
  function TrimStart(s: string): (r: string)
    ensures |r| <= |s| && r == s[|s| - |r|..]
    ensures forall i :: 0 <= i < |s| - |r| ==> IsTrimmable(s[i])
    ensures |r| > 0 ==> !IsTrimmable(r[0])
  {
    if |s| > 0 && IsTrimmable(s[0]) then TrimStart(s[1..]) else s
  }

  /** Drops the trailing trimmable characters. */
  function TrimEnd(s: string): (r: string)
    ensures |r| <= |s| && r == s[..|r|]
    ensures forall i :: |r| <= i < |s| ==> IsTrimmable(s[i])
    ensures |r| > 0 ==> !IsTrimmable(r[|r| - 1])
  {
    if |s| > 0 && IsTrimmable(s[|s| - 1]) then TrimEnd(s[..|s| - 1]) else s
  }

  /**
    `String.trim()`: the contiguous part of the input left after removing
    trimmable characters at both ends (its own ends are not trimmable), and
    empty exactly when every character is trimmable.
   */
  function Trim(s: string): (r: string)
    ensures exists k :: TrimmedAt(s, k, r)
    ensures |r| > 0 ==> !IsTrimmable(r[0]) && !IsTrimmable(r[|r| - 1])
    ensures r == [] <==> forall i :: 0 <= i < |s| ==> IsTrimmable(s[i])
  {
    var t := TrimStart(s);
    var r := TrimEnd(t);
    assert TrimmedAt(s, |s| - |t|, r);
    r
  }
}
