/** Strings as sequences of characters, with the few JavaScript string operations
    the commands use: an ASCII-only `toLowerCase`, `startsWith` and `slice`. */
module Text {

  /** `toLowerCase` on one character, restricted to ASCII letters. */
  function Lower(c: char): char
  {
    if 'A' <= c <= 'Z' then (c as int - 'A' as int + 'a' as int) as char else c
  }

  /** `s.toLowerCase()`: ASCII-only, so the length is kept character for character. */
  function LowerStr(s: string): (r: string)
    ensures |r| == |s|
    ensures forall i :: 0 <= i < |s| ==> r[i] == Lower(s[i])
  {
    if s == [] then [] else [Lower(s[0])] + LowerStr(s[1..])
  }

  /** `s.startsWith(prefix)`. */
  predicate StartsWith(s: string, prefix: string)
  {
    |prefix| <= |s| && s[..|prefix|] == prefix
  }

  /** `s.slice(start)` for a non-negative start: everything from `start` on, or "" past the end. */
  function SliceFrom(s: string, start: nat): string
  {
    if start <= |s| then s[start..] else ""
  }

  /** `s.slice(0, n)`: at most the first `n` characters. */
  function Truncate(s: string, n: nat): (r: string)
    ensures |r| <= n
    ensures |r| <= |s| && r == s[..|r|]
    ensures |s| <= n ==> r == s
    ensures n <= |s| ==> |r| == n
  {
    if n <= |s| then s[..n] else s
  }

  lemma LowerLower(c: char)
    ensures Lower(Lower(c)) == Lower(c)
  {
  }

  /** Lower-casing twice is lower-casing once. */
  lemma LowerStrIdempotent(s: string)
    ensures LowerStr(LowerStr(s)) == LowerStr(s)
  {
    var once := LowerStr(s);
    var twice := LowerStr(once);
    forall i | 0 <= i < |s|
      ensures twice[i] == once[i]
    {
      LowerLower(s[i]);
    }
  }
}
