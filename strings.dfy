/**
 * The Python `str` operations the two normalizers rely on: `str.replace` with a
 * one-character pattern, `str.lower()` and `str.join`, together with the ASCII
 * character classes `[a-z]` and `[A-Z]` of Python regular expressions.
 * Lower-casing is modelled on the ASCII letters `A`-`Z` only.
 */
module Strings {

  /** `[A-Z]` */
  predicate IsUpper(c: char) { 'A' <= c <= 'Z' }

  /** `[a-z]` */
  predicate IsLower(c: char) { 'a' <= c <= 'z' }

  /** A string holding no ASCII upper-case letter. */
  predicate NoUpper(t: string) { forall c :: c in t ==> !IsUpper(c) }

  /** `c.lower()` for one character. */
  function LowerChar(c: char): (d: char)
    ensures !IsUpper(d)
    ensures d == c <==> !IsUpper(c)
    ensures IsUpper(c) ==> IsLower(d)
  {
    if IsUpper(c) then (c as int + 32) as char else c
  }

  /** `s.lower()`: every character lower-cased in place. */
  function Lower(s: string): (r: string)
    ensures |r| == |s|
    ensures NoUpper(r)
    ensures NoUpper(s) ==> r == s
  {
    seq(|s|, i requires 0 <= i < |s| => LowerChar(s[i]))
  }

  lemma LowerAppend(a: string, b: string)
    ensures Lower(a + b) == Lower(a) + Lower(b)
  {
  }

  /** Lower-casing introduces no character other than a letter. */
  lemma LowerKeeps(t: string, c: char)
    requires !IsUpper(c) && !IsLower(c) && c !in t
    ensures c !in Lower(t)
  {
    forall i | 0 <= i < |t|
      ensures Lower(t)[i] != c
    {
      assert t[i] != c;
    }
  }

  /** The number of occurrences of `c` in `s`, `s.count(c)`. */
  function Count(s: string, c: char): (n: nat)
    ensures n <= |s|
    ensures n == 0 <==> c !in s
  {
    if s == [] then 0 else (if s[0] == c then 1 else 0) + Count(s[1..], c)
  }

  /** `s.replace(pat, sub)` for a one-character pattern: every occurrence replaced. */
  function Replace(s: string, pat: char, sub: string): (t: string)
    ensures pat !in sub ==> pat !in t
    ensures pat !in s ==> t == s
    ensures forall c :: c in t ==> c in s || c in sub
  {
    if s == [] then []
    else (if s[0] == pat then sub else [s[0]]) + Replace(s[1..], pat, sub)
  }

  lemma {:induction false} ReplaceAppend(a: string, b: string, pat: char, sub: string)
    ensures Replace(a + b, pat, sub) == Replace(a, pat, sub) + Replace(b, pat, sub)
  {
    if a == [] {
      assert a + b == b;
    } else {
      assert (a + b)[0] == a[0];
      assert (a + b)[1..] == a[1..] + b;
      ReplaceAppend(a[1..], b, pat, sub);
    }
  }

  /** The strings of `parts`, one after the other: `"".join(parts)`. */
  function Concat(parts: seq<string>): (r: string)
    ensures parts == [] ==> r == []
  {
    if parts == [] then [] else parts[0] + Concat(parts[1..])
  }

  /** `sep.join(parts)`: the parts in order with one separator between each two. */
  function Join(parts: seq<string>, sep: string): (r: string)
    ensures parts != [] ==> |r| == |Concat(parts)| + (|parts| - 1) * |sep|
  {
    if |parts| == 0 then []
    else if |parts| == 1 then parts[0]
    else parts[0] + sep + Join(parts[1..], sep)
  }

  /** Every character of a join comes from one of the parts or from the separator. */
  lemma {:induction false} JoinChars(parts: seq<string>, sep: string, s: string)
    requires forall i :: 0 <= i < |parts| ==> forall c :: c in parts[i] ==> c in s
    ensures forall c :: c in Join(parts, sep) ==> c in s || c in sep
  {
    if |parts| > 1 {
      JoinChars(parts[1..], sep, s);
    }
  }

  /** A part that holds no `c`, joined with a separator that holds none, holds none. */
  lemma {:induction false} JoinAvoids(parts: seq<string>, sep: string, c: char)
    requires forall i :: 0 <= i < |parts| ==> c !in parts[i]
    requires c !in sep
    ensures c !in Join(parts, sep)
  {
    if |parts| > 1 {
      JoinAvoids(parts[1..], sep, c);
    }
  }
}
