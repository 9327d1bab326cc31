/** The pieces of Python's string semantics that the script relies on:
    `str()` of a value that may be None, the slice `s[:n]` (where `n` may be
    negative) and the `%-Ns` conversion of the `%` operator. */
module PyText {
  import opened Wrappers

  /** `"%s" % x` for `x` a string or None. */
  function Show(x: Option<string>): string
  {
    match x
    case None => "None"
    case Some(s) => s
  }

  /** `s[:n]`: a non-negative `n` keeps the first `n` characters (all of them
      when `n >= len(s)`); a negative `n` drops the last `-n` characters. */
  function SlicePrefix(s: string, n: int): (r: string)
    ensures |r| == if n >= 0 then (if n < |s| then n else |s|)
                   else (if |s| + n > 0 then |s| + n else 0)
    ensures r == s[..|r|]
  {
    if n >= |s| then s
    else if n >= 0 then s[..n]
    else if |s| + n > 0 then s[..|s| + n]
    else []
  }

  /** A run of `n` blanks. */
  function Spaces(n: nat): (r: string)
    ensures |r| == n
    ensures forall i :: 0 <= i < n ==> r[i] == ' '
  {
    seq(n, _ => ' ')
  }

  /** `"%-Ns" % s`: `s` left-justified in a field at least `w` characters wide. */
  function LeftJustify(s: string, w: nat): (r: string)
    ensures |r| == if |s| < w then w else |s|
    ensures r[..|s|] == s
    ensures forall i :: |s| <= i < |r| ==> r[i] == ' '
  {
    if |s| < w then s + Spaces(w - |s|) else s
  }
}
