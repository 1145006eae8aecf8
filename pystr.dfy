/**
 * The handful of Python `str` operations the cleansing code relies on:
 * substring membership (`sep in s`), `s.split(sep)[0]` and the second field of
 * `s.split(sep)`, `s.replace(c, d)` for single characters and `s.strip()`.
 */
module PyStr {
  import opened Wrappers

  /** `pat` occurs in `s` starting at position `i`. */
  predicate OccursAt(s: string, pat: string, i: nat) {
    i + |pat| <= |s| && s[i..i + |pat|] == pat
  }

  /** The first occurrence of `pat` in `s` at or after position `k`. */
  function FindFrom(s: string, pat: string, k: nat): (r: Option<nat>)
    requires k <= |s|
    decreases |s| - k
    ensures r.Some? ==> k <= r.value && OccursAt(s, pat, r.value)
    ensures forall i :: k <= i && (r.None? || i < r.value) ==> !OccursAt(s, pat, i)
  {
    if k + |pat| > |s| then None
    else if s[k..k + |pat|] == pat then Some(k)
    else FindFrom(s, pat, k + 1)
  }

  /** The first occurrence of `pat` in `s` (Python's `s.find(pat)`, with `None` for -1). */
  function Find(s: string, pat: string): (r: Option<nat>)
    ensures r.Some? ==> OccursAt(s, pat, r.value)
    ensures forall i: nat :: (r.None? || i < r.value) ==> !OccursAt(s, pat, i)
  {
    FindFrom(s, pat, 0)
  }

  /** Python's `pat in s` for strings. */
  predicate Contains(s: string, pat: string) {
    Find(s, pat).Some?
  }

  /** Python's `s.split(sep)[0]`: everything before the first `sep`, or all of `s`. */
  function BeforeFirst(s: string, sep: string): (r: string)
    requires |sep| > 0
    ensures r <= s
    ensures forall i :: !OccursAt(r, sep, i)
    ensures forall i: nat :: i < |r| ==> !OccursAt(s, sep, i)
    ensures |r| < |s| <==> Contains(s, sep)
    ensures |r| < |s| ==> OccursAt(s, sep, |r|)
  {
    match Find(s, sep)
    case None => s
    case Some(i) =>
      assert forall j: nat :: OccursAt(s[..i], sep, j) ==> OccursAt(s, sep, j) by {
        forall j: nat | OccursAt(s[..i], sep, j) ensures OccursAt(s, sep, j) {
          assert s[..i][j..j + |sep|] == s[j..j + |sep|];
        }
      }
      s[..i]
  }

  /** What follows the first `sep` in `s` (empty when `sep` does not occur). */
  function AfterFirst(s: string, sep: string): (r: string)
    requires |sep| > 0
    ensures Contains(s, sep) ==> BeforeFirst(s, sep) + sep + r == s
  {
    match Find(s, sep)
    case None => ""
    case Some(i) => s[i + |sep|..]
  }

  /**
   * `a, b = s.split(sep)[0:2]` when `sep in s`: the field before the first
   * separator and the field between the first and the second one.
   */
  function SplitFirstTwo(s: string, sep: string): (r: (string, string))
    requires |sep| > 0
    requires Contains(s, sep)
    ensures r.0 + sep <= s
    ensures forall i :: !OccursAt(r.0, sep, i) && !OccursAt(r.1, sep, i)
    ensures r.1 <= s[|r.0| + |sep|..]
    ensures |r.0| + |sep| + |r.1| < |s| ==> OccursAt(s, sep, |r.0| + |sep| + |r.1|)
  {
    SecondField(s, sep);
    (BeforeFirst(s, sep), BeforeFirst(AfterFirst(s, sep), sep))
  }

  /** The field after the first separator ends at the second one, or at the end. */
  lemma SecondField(s: string, sep: string)
    requires |sep| > 0
    requires Contains(s, sep)
    ensures var k := |BeforeFirst(s, sep)| + |sep|;
      && k <= |s| && s[k..] == AfterFirst(s, sep)
      && (k + |BeforeFirst(AfterFirst(s, sep), sep)| < |s|
          ==> OccursAt(s, sep, k + |BeforeFirst(AfterFirst(s, sep), sep)|))
  {
    var rest := AfterFirst(s, sep);
    var k := |BeforeFirst(s, sep)| + |sep|;
    assert s[k..] == rest;
    var second := BeforeFirst(rest, sep);
    if k + |second| < |s| {
      OccursInSuffix(s, k, sep, |second|);
    }
  }

  /** An occurrence in a suffix of `s` is an occurrence in `s`. */
  lemma OccursInSuffix(s: string, k: nat, pat: string, i: nat)
    requires k <= |s| && OccursAt(s[k..], pat, i)
    ensures OccursAt(s, pat, k + i)
  {
    assert s[k..][i..i + |pat|] == s[k + i..k + i + |pat|];
  }

  /** Python's `s.replace(from, to)` for one-character arguments. */
  function ReplaceChar(s: string, from: char, to: char): (r: string)
    ensures |r| == |s|
    ensures from != to ==> from !in r
    ensures from !in s ==> r == s
    ensures forall i :: 0 <= i < |s| && s[i] != from ==> r[i] == s[i]
    ensures forall i :: 0 <= i < |s| && s[i] == from ==> r[i] == to
  {
    if s == [] then [] else [if s[0] == from then to else s[0]] + ReplaceChar(s[1..], from, to)
  }

  /** Python's `s.replace(c, "")`: every `c` removed. */
  function RemoveChar(s: string, c: char): (r: string)
    ensures c !in r
    ensures forall x :: x in r <==> x in s && x != c
    ensures c !in s ==> r == s
    ensures |s| == 1 ==> r == (if s[0] == c then [] else s)
  {
    if s == [] then []
    else (if s[0] == c then [] else [s[0]]) + RemoveChar(s[1..], c)
  }

  /**
   * The characters Python's `str.isspace()` accepts, which are the ones
   * `str.strip()` with no argument removes.
   */
  predicate IsSpace(c: char) {
    ('\t' <= c <= '\r') || ('\U{1C}' <= c <= ' ') || c == '\U{85}' || c == '\U{A0}'
    || c == '\U{1680}' || ('\U{2000}' <= c <= '\U{200A}') || c == '\U{2028}' || c == '\U{2029}'
    || c == '\U{202F}' || c == '\U{205F}' || c == '\U{3000}'
  }

  /** `s.lstrip()`: the suffix of `s` left after removing leading white space. */
  function TrimStart(s: string): (r: string)
    ensures |r| <= |s| && r == s[|s| - |r|..]
    ensures forall i :: 0 <= i < |s| - |r| ==> IsSpace(s[i])
    ensures r != [] ==> !IsSpace(r[0])
  {
    if s != [] && IsSpace(s[0]) then TrimStart(s[1..]) else s
  }

  /** `s.rstrip()`: the prefix of `s` left after removing trailing white space. */
  function TrimEnd(s: string): (r: string)
    ensures r <= s
    ensures forall i :: |r| <= i < |s| ==> IsSpace(s[i])
    ensures r != [] ==> !IsSpace(r[|r| - 1])
  {
    if s != [] && IsSpace(s[|s| - 1]) then TrimEnd(s[..|s| - 1]) else s
  }

  /** `s.strip()`. */
  function Strip(s: string): (r: string)
    ensures |r| <= |s|
    ensures r != [] ==> !IsSpace(r[0]) && !IsSpace(r[|r| - 1])
  {
    TrimEnd(TrimStart(s))
  }

  /** A string made only of white space strips to nothing. */
  lemma StripAllSpace(s: string)
    requires AllSpace(s)
    ensures Strip(s) == []
  {
  }

  /** Stripping twice is stripping once. */
  lemma StripIdempotent(s: string)
    ensures Strip(Strip(s)) == Strip(s)
  {
    UnpaddedStrip(Strip(s));
  }

  /** Text with no white space at either end strips to itself. */
  lemma UnpaddedStrip(s: string)
    requires Unpadded(s)
    ensures Strip(s) == s
  {
    if s != [] {
      StripPadding([], s, []);
      assert [] + s + [] == s;
    }
  }

  /** A string with no white space at either end. */
  predicate Unpadded(t: string) {
    t == [] || (!IsSpace(t[0]) && !IsSpace(t[|t| - 1]))
  }

  predicate AllSpace(p: string) {
    forall i :: 0 <= i < |p| ==> IsSpace(p[i])
  }

  /** Stripping removes exactly the white-space padding around an unpadded string. */
  lemma {:induction false} StripPadding(p: string, t: string, q: string)
    requires AllSpace(p) && AllSpace(q)
    requires t != [] && Unpadded(t)
    ensures Strip(p + t + q) == t
  {
    var u := t + q;
    var s := p + t + q;
    assert s == p + u;
    TrimStartPadding(p, u);
    TrimEndPadding(t, q);
    assert Strip(s) == TrimEnd(TrimStart(s));
  }

  lemma {:induction false} TrimStartPadding(p: string, u: string)
    requires AllSpace(p)
    requires u != [] && !IsSpace(u[0])
    ensures TrimStart(p + u) == u
  {
    if p != [] {
      assert (p + u)[1..] == p[1..] + u;
      TrimStartPadding(p[1..], u);
    } else {
      assert p + u == u;
    }
  }

  lemma {:induction false} TrimEndPadding(t: string, q: string)
    requires AllSpace(q)
    requires t != [] && !IsSpace(t[|t| - 1])
    ensures TrimEnd(t + q) == t
  {
    if q != [] {
      assert (t + q)[..|t + q| - 1] == t + q[..|q| - 1];
      TrimEndPadding(t, q[..|q| - 1]);
    } else {
      assert t + q == t;
    }
  }

  /** `replace` of one character distributes over concatenation. */
  lemma {:induction false} ReplaceCharConcat(a: string, b: string, from: char, to: char)
    ensures ReplaceChar(a + b, from, to) == ReplaceChar(a, from, to) + ReplaceChar(b, from, to)
  {
    if a == [] {
      assert a + b == b;
    } else {
      assert (a + b)[1..] == a[1..] + b;
      ReplaceCharConcat(a[1..], b, from, to);
      var head := [if a[0] == from then to else a[0]];
      ConcatAssoc(head, ReplaceChar(a[1..], from, to), ReplaceChar(b, from, to));
    }
  }

  /**
   * When the first character of `pat` does not occur in `t`, splitting `t + u`
   * at the first `pat` splits inside `u`.
   */
  lemma FindPastPrefix(t: string, u: string, pat: string)
    requires |pat| > 0 && pat[0] !in t
    ensures BeforeFirst(t + u, pat) == t + BeforeFirst(u, pat)
    ensures AfterFirst(t + u, pat) == AfterFirst(u, pat)
    ensures Contains(t + u, pat) <==> Contains(u, pat)
  {
    NoOccurrenceInPrefix(t, u, pat);
    ShiftedOccurrences(t, u, pat);
    if Contains(u, pat) {
      FoundPastPrefix(t, u, pat, Find(u, pat).value);
    } else {
      MissingPastPrefix(t, u, pat);
    }
  }

  lemma MissingPastPrefix(t: string, u: string, pat: string)
    requires Find(u, pat).None?
    requires forall i: nat :: i < |t| ==> !OccursAt(t + u, pat, i)
    requires forall i: nat :: OccursAt(t + u, pat, |t| + i) <==> OccursAt(u, pat, i)
    ensures Find(t + u, pat).None?
  {
    var s := t + u;
    forall k: nat ensures !OccursAt(s, pat, k) {
      if k >= |t| {
        assert OccursAt(s, pat, |t| + (k - |t|)) <==> OccursAt(u, pat, k - |t|);
      }
    }
  }

  lemma FoundPastPrefix(t: string, u: string, pat: string, j: nat)
    requires Find(u, pat).Some? && Find(u, pat).value == j
    requires forall i: nat :: i < |t| ==> !OccursAt(t + u, pat, i)
    requires forall i: nat :: OccursAt(t + u, pat, |t| + i) <==> OccursAt(u, pat, i)
    ensures Find(t + u, pat).Some? && Find(t + u, pat).value == |t| + j
    ensures (t + u)[..|t| + j] == t + u[..j]
    ensures (t + u)[|t| + j + |pat|..] == u[j + |pat|..]
  {
    var s := t + u;
    assert OccursAt(s, pat, |t| + j);
    var k := Find(s, pat).value;
    assert OccursAt(u, pat, k - |t|);
    assert s[..|t| + j] == t + u[..j];
  }

  lemma NoOccurrenceInPrefix(t: string, u: string, pat: string)
    requires |pat| > 0 && pat[0] !in t
    ensures forall i: nat :: i < |t| ==> !OccursAt(t + u, pat, i)
  {
    var s := t + u;
    forall i: nat | i < |t| ensures !OccursAt(s, pat, i) {
      if i + |pat| <= |s| {
        assert s[i..i + |pat|][0] == t[i];
      }
    }
  }

  lemma ShiftedOccurrences(t: string, u: string, pat: string)
    ensures forall i: nat :: OccursAt(t + u, pat, |t| + i) <==> OccursAt(u, pat, i)
  {
    var s := t + u;
    forall i: nat ensures OccursAt(s, pat, |t| + i) <==> OccursAt(u, pat, i) {
      if |t| + i + |pat| <= |s| {
        assert s[|t| + i..|t| + i + |pat|] == u[i..i + |pat|];
      }
    }
  }

  /** `pat in s` holds exactly when `pat` occurs somewhere in `s`. */
  lemma ContainsOccurrence(s: string, pat: string)
    ensures Contains(s, pat) <==> exists i: nat :: OccursAt(s, pat, i)
  {
    if Contains(s, pat) {
      assert OccursAt(s, pat, Find(s, pat).value);
    }
  }

  /** A pattern whose first character is missing from `s` does not occur in it. */
  lemma AbsentFirstChar(s: string, pat: string)
    requires |pat| > 0 && pat[0] !in s
    ensures !Contains(s, pat)
  {
    forall i: nat ensures !OccursAt(s, pat, i) {
      if i + |pat| <= |s| {
        assert s[i..i + |pat|][0] == s[i];
      }
    }
  }

  /** An occurrence anywhere makes `pat in s` true. */
  lemma OccurrenceContains(s: string, pat: string, i: nat)
    requires OccursAt(s, pat, i)
    ensures Contains(s, pat)
  {
  }

  /** Without the separator, `s.split(sep)[0]` is all of `s`. */
  lemma BeforeFirstAbsent(s: string, sep: string)
    requires |sep| > 0 && sep[0] !in s
    ensures BeforeFirst(s, sep) == s
  {
    AbsentFirstChar(s, sep);
  }

  /** A string that starts with the separator splits right there. */
  lemma SplitAtStart(sep: string, u: string)
    requires |sep| > 0
    ensures BeforeFirst(sep + u, sep) == []
    ensures AfterFirst(sep + u, sep) == u
    ensures Contains(sep + u, sep)
  {
    assert (sep + u)[0..|sep|] == sep;
    assert OccursAt(sep + u, sep, 0);
  }

  /** Removing a character distributes over concatenation. */
  lemma {:induction false} RemoveCharConcat(a: string, b: string, c: char)
    ensures RemoveChar(a + b, c) == RemoveChar(a, c) + RemoveChar(b, c)
  {
    if a == [] {
      assert a + b == b;
    } else {
      RemoveCharStep(a, b, c);
      RemoveCharConcat(a[1..], b, c);
      ConcatAssoc(if a[0] == c then [] else [a[0]], RemoveChar(a[1..], c), RemoveChar(b, c));
    }
  }

  lemma ConcatAssoc(x: string, y: string, z: string)
    ensures x + (y + z) == x + y + z
  {
  }

  lemma RemoveCharStep(a: string, b: string, c: char)
    requires a != []
    ensures RemoveChar(a + b, c) == (if a[0] == c then [] else [a[0]]) + RemoveChar(a[1..] + b, c)
    ensures RemoveChar(a, c) == (if a[0] == c then [] else [a[0]]) + RemoveChar(a[1..], c)
  {
    assert (a + b)[1..] == a[1..] + b;
  }

  /** `(t + sep + u).split(sep)` cuts right after `t` when `t` cannot hold `sep`. */
  lemma SplitAfterPrefix(t: string, sep: string, u: string)
    requires |sep| > 0 && sep[0] !in t
    ensures Contains(t + (sep + u), sep)
    ensures BeforeFirst(t + (sep + u), sep) == t
    ensures AfterFirst(t + (sep + u), sep) == u
  {
    FindPastPrefix(t, sep + u, sep);
    SplitAtStart(sep, u);
    assert t + [] == t;
  }

  /** `(t + sep).split(sep)[0] == t` when `t` cannot hold `sep`. */
  lemma CutBeforeSuffix(t: string, sep: string)
    requires |sep| > 0 && sep[0] !in t
    ensures Contains(t + sep, sep)
    ensures BeforeFirst(t + sep, sep) == t
  {
    SplitAfterPrefix(t, sep, []);
    assert sep + [] == sep;
  }

  /** Between texts of the same length, `pat in s` is plain equality. */
  lemma SameLengthContains(s: string, pat: string)
    requires |s| == |pat|
    ensures Contains(s, pat) <==> s == pat
  {
    if s == pat {
      OccurrenceContains(s, pat, 0);
      assert s[0..|pat|] == s;
    } else {
      forall i: nat
        ensures !OccursAt(s, pat, i)
      {
        if i == 0 {
          assert s[0..|pat|] == s;
        }
      }
    }
  }
}
