/** Prefix, suffix and occurrence tests on strings, shared by the JavaScript and the Rust models. */
module Strings {

  /** `s.startsWith(p)` in JavaScript, `s.starts_with(p)` in Rust: an exact, case-sensitive prefix test. */
  predicate StartsWith(s: string, p: string)
  {
    |p| <= |s| && s[..|p|] == p
  }

  /** `s.endsWith(p)` in JavaScript, `s.ends_with(p)` in Rust. */
  predicate EndsWith(s: string, p: string)
  {
    |p| <= |s| && s[|s| - |p|..] == p
  }

  /** `pat` occurs in `s` starting at index `i`. */
  predicate OccursAt(s: string, pat: string, i: nat)
  {
    i + |pat| <= |s| && s[i..i + |pat|] == pat
  }

  lemma StartsWithAppend(s: string, t: string)
    ensures StartsWith(s + t, s)
  {
    assert (s + t)[..|s|] == s;
  }

  lemma EndsWithAppend(s: string, t: string)
    ensures EndsWith(s + t, t)
  {
    assert (s + t)[|s|..] == t;
  }

  lemma AppendEmpty(s: string)
    ensures s + "" == s
  {
  }

  lemma EmptyAppend(s: string)
    ensures "" + s == s
  {
  }

  lemma Append(a: string, b: string, c: string)
    ensures (a + b) + c == a + (b + c)
  {
  }

  lemma PrefixTransitive(a: string, b: string, c: string)
    requires StartsWith(b, a) && StartsWith(c, b)
    ensures StartsWith(c, a)
  {
    assert c[..|a|] == c[..|b|][..|a|];
  }

  /** A prefix of `b` is a prefix of anything `b` is extended to. */
  lemma PrefixOfLonger(a: string, b: string, c: string)
    requires StartsWith(b, a)
    ensures StartsWith(b + c, a)
  {
    StartsWithAppend(b, c);
    PrefixTransitive(a, b, b + c);
  }

  /** Putting the same string in front keeps the prefix relation. */
  lemma PrefixUnderHead(h: string, a: string, b: string)
    requires StartsWith(b, a)
    ensures StartsWith(h + b, h + a)
  {
    assert (h + b)[..|h + a|] == h + b[..|a|];
  }

  /** A suffix of `b` is a suffix of anything `b` is appended to. */
  lemma SuffixUnderHead(h: string, b: string, t: string)
    requires EndsWith(b, t)
    ensures EndsWith(h + b, t)
  {
    assert (h + b)[|h + b| - |t|..] == b[|b| - |t|..];
  }

  /** How many times `c` occurs in `s`. */
  function Occurrences(s: string, c: char): nat
    decreases |s|
  {
    if s == [] then 0 else Occurrences(s[..|s| - 1], c) + (if s[|s| - 1] == c then 1 else 0)
  }

  lemma {:induction false} OccurrencesAppend(a: string, b: string, c: char)
    ensures Occurrences(a + b, c) == Occurrences(a, c) + Occurrences(b, c)
    decreases |b|
  {
    if b == [] {
      assert a + b == a;
    } else {
      assert (a + b)[..|a + b| - 1] == a + b[..|b| - 1];
      OccurrencesAppend(a, b[..|b| - 1], c);
    }
  }

  lemma {:induction false} AbsentNotCounted(s: string, c: char)
    requires c !in s
    ensures Occurrences(s, c) == 0
    decreases |s|
  {
    if s != [] {
      assert c !in s[..|s| - 1];
      AbsentNotCounted(s[..|s| - 1], c);
    }
  }
}
