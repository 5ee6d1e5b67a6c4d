/**
 * String primitives shared by every page: Python's whitespace class, prefix
 * tests, `str.strip`, slicing `s[:n]`, `str.replace`, `str.join` and
 * `str.split()` word counting.
 */
module Text {

  /** `str.isspace` / regex `\s` on a Python `str`: the Unicode whitespace set. */
  predicate IsSpace(c: char)
  {
    ('\t' <= c <= '\r') || ('\U{1C}' <= c <= '\U{1F}') || c == ' '
    || c == '\U{85}' || c == '\U{A0}' || c == '\U{1680}'
    || ('\U{2000}' <= c <= '\U{200A}') || c == '\U{2028}' || c == '\U{2029}'
    || c == '\U{202F}' || c == '\U{205F}' || c == '\U{3000}'
  }

  predicate StartsWith(s: string, p: string)
  {
    |p| <= |s| && s[..|p|] == p
  }

  predicate EndsWith(s: string, p: string)
  {
    |p| <= |s| && s[|s| - |p|..] == p
  }

  /** `p` occurs somewhere in `s` (Python's `p in s`). */
  predicate Occurs(p: string, s: string)
    decreases |s|
  {
    StartsWith(s, p) || (s != [] && Occurs(p, s[1..]))
  }

  predicate NoSpace(s: string)
  {
    forall i :: 0 <= i < |s| ==> !IsSpace(s[i])
  }

  predicate AllSpace(s: string)
  {
    forall i :: 0 <= i < |s| ==> IsSpace(s[i])
  }

  /** The characters of `s` that are not whitespace, in order. */
  function NonSpace(s: string): (r: string)
    ensures NoSpace(r)
    ensures |r| <= |s|
  {
    if s == [] then []
    else if IsSpace(s[0]) then NonSpace(s[1..])
    else [s[0]] + NonSpace(s[1..])
  }

  lemma {:induction false} NonSpaceAppend(a: string, b: string)
    ensures NonSpace(a + b) == NonSpace(a) + NonSpace(b)
  {
    if a != [] {
      assert (a + b)[0] == a[0] && (a + b)[1..] == a[1..] + b;
      NonSpaceAppend(a[1..], b);
      if IsSpace(a[0]) {
        calc {
          NonSpace(a + b);
          NonSpace(a[1..] + b);
          NonSpace(a[1..]) + NonSpace(b);
        }
      } else {
        calc {
          NonSpace(a + b);
          [a[0]] + NonSpace(a[1..] + b);
          [a[0]] + (NonSpace(a[1..]) + NonSpace(b));
        }
      }
    } else {
      assert a + b == b;
    }
  }

  lemma {:induction false} NonSpaceOfAllSpace(s: string)
    requires AllSpace(s)
    ensures NonSpace(s) == []
  {
    if s != [] {
      NonSpaceOfAllSpace(s[1..]);
    }
  }

  lemma NoSpaceTail(p: string)
    requires p != [] && NoSpace(p)
    ensures !IsSpace(p[0]) && NoSpace(p[1..])
  {
    assert forall i :: 0 <= i < |p| - 1 ==> p[1..][i] == p[i + 1];
  }

  lemma NonSpaceCons(c: char, t: string)
    requires !IsSpace(c)
    ensures NonSpace([c] + t) == [c] + NonSpace(t)
  {
    ConsTail([c] + t, c, t);
  }

  lemma NonSpaceSpaceCons(t: string)
    ensures NonSpace(" " + t) == NonSpace(t)
  {
    ConsTail(" " + t, ' ', t);
  }

  /** Dropping leading whitespace keeps the non-space characters. */
  lemma {:induction false} NonSpaceTrimLeft(s: string)
    ensures NonSpace(TrimLeft(s)) == NonSpace(s)
    decreases |s|
  {
    if s != [] && IsSpace(s[0]) {
      NonSpaceTrimLeft(s[1..]);
    }
  }

  /** `a` is an order-preserving subsequence of `b`. */
  predicate IsSubseq<T(==)>(a: seq<T>, b: seq<T>)
    decreases |b|
  {
    a == [] || (b != [] && ((a[0] == b[0] && IsSubseq(a[1..], b[1..])) || IsSubseq(a, b[1..])))
  }

  lemma {:induction false} SubseqRefl<T>(a: seq<T>)
    ensures IsSubseq(a, a)
  {
    if a != [] {
      SubseqRefl(a[1..]);
    }
  }

  /** Dropping a prefix of the larger sequence keeps the relation in the other direction. */
  lemma {:induction false} SubseqOfSuffix<T>(a: seq<T>, b: seq<T>, k: nat)
    requires k <= |b| && IsSubseq(a, b[k..])
    ensures IsSubseq(a, b)
    decreases k
  {
    if k > 0 {
      assert b[k - 1..][1..] == b[k..];
      SubseqOfSuffix(a, b, k - 1);
    }
  }

  lemma SubseqCons<T>(x: T, a: seq<T>, b: seq<T>)
    requires IsSubseq(a, b)
    ensures IsSubseq([x] + a, [x] + b)
  {
    assert ([x] + a)[1..] == a && ([x] + b)[1..] == b;
  }

  // -----------------------------------------------------------------------
  // `str.strip()`
  // -----------------------------------------------------------------------

  /** `str.lstrip()`: the suffix left after dropping leading whitespace. */
  function TrimLeft(s: string): (r: string)
    ensures |r| <= |s| && r == s[|s| - |r|..]
    ensures r == [] || !IsSpace(r[0])
  {
    if s == [] || !IsSpace(s[0]) then s else TrimLeft(s[1..])
  }

  /** `str.rstrip()`: the prefix left after dropping trailing whitespace. */
  function TrimRight(s: string): (r: string)
    ensures |r| <= |s| && r == s[..|r|]
    ensures r == [] || !IsSpace(r[|r| - 1])
  {
    if s == [] || !IsSpace(s[|s| - 1]) then s else TrimRight(s[..|s| - 1])
  }

  /** What `str.lstrip()` drops is whitespace. */
  lemma {:induction false} TrimLeftDrops(s: string)
    ensures AllSpace(s[..|s| - |TrimLeft(s)|])
    decreases |s|
  {
    if s != [] && IsSpace(s[0]) {
      TrimLeftDrops(s[1..]);
      ConsPrefix(s, |s| - |TrimLeft(s)|);
      AllSpaceCons(s[0], s[1..][..|s[1..]| - |TrimLeft(s[1..])|]);
    }
  }

  /** What `str.rstrip()` drops is whitespace. */
  lemma {:induction false} TrimRightDrops(s: string)
    ensures AllSpace(s[|TrimRight(s)|..])
    decreases |s|
  {
    if s != [] && IsSpace(s[|s| - 1]) {
      TrimRightDrops(s[..|s| - 1]);
      SuffixSnoc(s, |TrimRight(s)|);
      AllSpaceSnoc(s[..|s| - 1][|TrimRight(s[..|s| - 1])|..], s[|s| - 1]);
    }
  }

  /** `str.strip()`. */
  function Strip(s: string): (r: string)
  {
    TrimRight(TrimLeft(s))
  }

  /**
   * Stripping leaves the infix of the input that starts after the leading
   * whitespace, with only whitespace after it and none at its ends.
   */
  lemma StripSpec(s: string)
    ensures |s| - |TrimLeft(s)| + |Strip(s)| <= |s|
    ensures Strip(s) == s[|s| - |TrimLeft(s)|..|s| - |TrimLeft(s)| + |Strip(s)|]
    ensures AllSpace(s[..|s| - |TrimLeft(s)|])
    ensures AllSpace(s[|s| - |TrimLeft(s)| + |Strip(s)|..])
    ensures Strip(s) == [] || (!IsSpace(Strip(s)[0]) && !IsSpace(Strip(s)[|Strip(s)| - 1]))
  {
    TrimLeftDrops(s);
    StripInfix(s);
    StripTrailing(s);
    StripEnds(s);
  }

  /** Where the stripped text sits in the input. */
  lemma StripInfix(s: string)
    ensures |s| - |TrimLeft(s)| + |Strip(s)| <= |s|
    ensures Strip(s) == s[|s| - |TrimLeft(s)|..|s| - |TrimLeft(s)| + |Strip(s)|]
  {
    InfixAt(s, TrimLeft(s), Strip(s));
  }

  /** Only whitespace follows the stripped text. */
  lemma StripTrailing(s: string)
    ensures |s| - |TrimLeft(s)| + |Strip(s)| <= |s|
    ensures AllSpace(s[|s| - |TrimLeft(s)| + |Strip(s)|..])
  {
    TrimRightDrops(TrimLeft(s));
    TrailingSpace(s, TrimLeft(s), Strip(s));
  }

  /** A prefix `r` of a suffix `l` of `s`, located in `s`. */
  lemma InfixAt<T>(s: seq<T>, l: seq<T>, r: seq<T>)
    requires |l| <= |s| && l == s[|s| - |l|..] && |r| <= |l| && r == l[..|r|]
    ensures |s| - |l| + |r| <= |s| && r == s[|s| - |l|..|s| - |l| + |r|]
  {
  }

  /** What follows such an `r` in `l` is what follows it in `s`. */
  lemma TrailingSpace(s: string, l: string, r: string)
    requires |l| <= |s| && l == s[|s| - |l|..] && |r| <= |l| && r == l[..|r|] && AllSpace(l[|r|..])
    ensures |s| - |l| + |r| <= |s| && AllSpace(s[|s| - |l| + |r|..])
  {
    SuffixPrefixSlice(s, l, r);
  }

  /** The stripped text neither starts nor ends with whitespace. */
  lemma StripEnds(s: string)
    ensures Strip(s) == [] || (!IsSpace(Strip(s)[0]) && !IsSpace(Strip(s)[|Strip(s)| - 1]))
  {
    var l := TrimLeft(s);
    var r := TrimRight(l);
    if r != [] {
      assert r[0] == l[0];
    }
  }

  /** A string without whitespace at its ends is its own strip. */
  lemma StripNoop(s: string)
    requires s == [] || (!IsSpace(s[0]) && !IsSpace(s[|s| - 1]))
    ensures Strip(s) == s
  {
  }

  lemma StripIdempotent(s: string)
    ensures Strip(Strip(s)) == Strip(s)
  {
    StripSpec(s);
    StripNoop(Strip(s));
  }

  /** Whitespace only strips to nothing. */
  lemma {:induction false} StripAllSpace(s: string)
    requires AllSpace(s)
    ensures TrimLeft(s) == [] && Strip(s) == []
  {
    if s != [] {
      StripAllSpace(s[1..]);
    }
  }

  /** Leading whitespace before a string with non-space ends strips away. */
  lemma {:induction false} StripAfterSpace(ws: string, body: string)
    requires AllSpace(ws) && body != [] && !IsSpace(body[0]) && !IsSpace(body[|body| - 1])
    ensures Strip(ws + body) == body
    decreases |ws|
  {
    if ws == [] {
      assert ws + body == body;
    } else {
      assert (ws + body)[1..] == ws[1..] + body;
      StripAfterSpace(ws[1..], body);
    }
  }

  /** Stripping only removes whitespace. */
  lemma StripKeepsNonSpace(s: string)
    ensures NonSpace(Strip(s)) == NonSpace(s)
  {
    var l := TrimLeft(s);
    var r := TrimRight(l);
    TrimLeftDrops(s);
    TrimRightDrops(l);
    SplitAt(s, |s| - |l|);
    SplitAt(l, |r|);
    NonSpaceAppend(s[..|s| - |l|], l);
    NonSpaceAppend(r, l[|r|..]);
    NonSpaceOfAllSpace(s[..|s| - |l|]);
    NonSpaceOfAllSpace(l[|r|..]);
  }

  // -----------------------------------------------------------------------
  // Slicing and replacement
  // -----------------------------------------------------------------------

  /** `s[:n]` for `n >= 0`. */
  function Take<T>(s: seq<T>, n: nat): (r: seq<T>)
    ensures |r| == if n < |s| then n else |s|
    ensures r == s[..|r|]
  {
    if n < |s| then s[..n] else s
  }

  /**
   * `s.replace(pat, rep)`: occurrences are replaced left to right and do not
   * overlap; scanning resumes after each replaced occurrence.
   */
  function ReplaceAll(s: string, pat: string, rep: string): string
    requires |pat| > 0
    decreases |s|
  {
    if |s| < |pat| then s
    else if StartsWith(s, pat) then rep + ReplaceAll(s[|pat|..], pat, rep)
    else [s[0]] + ReplaceAll(s[1..], pat, rep)
  }

  /** Replacing a pattern that does not occur changes nothing. */
  lemma {:induction false} ReplaceAbsent(s: string, pat: string, rep: string)
    requires |pat| > 0 && !Occurs(pat, s)
    ensures ReplaceAll(s, pat, rep) == s
    decreases |s|
  {
    if |s| >= |pat| {
      ReplaceAbsent(s[1..], pat, rep);
    }
  }

  /** Removing a pattern never lengthens the string. */
  lemma {:induction false} RemoveShortens(s: string, pat: string)
    requires |pat| > 0
    ensures |ReplaceAll(s, pat, "")| <= |s|
    decreases |s|
  {
    if |s| >= |pat| {
      if StartsWith(s, pat) {
        RemoveShortens(s[|pat|..], pat);
      } else {
        RemoveShortens(s[1..], pat);
      }
    }
  }

  /** A pattern whose first character never appears in `s` does not occur in it. */
  lemma {:induction false} AbsentFirstChar(pat: string, s: string)
    requires |pat| > 0 && forall i :: 0 <= i < |s| ==> s[i] != pat[0]
    ensures !Occurs(pat, s)
    decreases |s|
  {
    if s != [] {
      assert s[0] != pat[0];
      AbsentFirstChar(pat, s[1..]);
    }
  }

  /** When the pattern's first character appears only at the start, it occurs iff it is a prefix. */
  lemma OccursOnlyAtStart(pat: string, s: string)
    requires |pat| > 0 && s != [] && pat[0] !in s[1..]
    ensures Occurs(pat, s) <==> StartsWith(s, pat)
  {
    AbsentFirstChar(pat, s[1..]);
  }

  /** Replacement copies a prefix in which the pattern's first character does not appear. */
  lemma {:induction false} ReplaceCopiesPrefix(s: string, pat: string, rep: string, k: nat)
    requires |pat| > 0 && k <= |s| && pat[0] !in s[..k]
    ensures ReplaceAll(s, pat, rep) == s[..k] + ReplaceAll(s[k..], pat, rep)
    decreases k
  {
    if k > 0 {
      ConsPrefix(s, k);
      assert s[0] in s[..k];
      ReplaceOtherChar(s, pat, rep);
      assert forall x :: x in s[1..][..k - 1] ==> x in s[..k];
      ReplaceCopiesPrefix(s[1..], pat, rep, k - 1);
    } else {
      SplitAt(s, 0);
    }
  }

  /** A first character that cannot start the pattern is copied. */
  lemma ReplaceOtherChar(s: string, pat: string, rep: string)
    requires |pat| > 0 && s != [] && s[0] != pat[0]
    ensures ReplaceAll(s, pat, rep) == [s[0]] + ReplaceAll(s[1..], pat, rep)
  {
    if |s| < |pat| {
      SplitAt(s, 1);
    } else {
      assert !StartsWith(s, pat) by { assert s[..|pat|][0] == s[0]; }
    }
  }

  /** A leading occurrence is replaced, and scanning resumes after it. */
  lemma ReplaceLeading(pat: string, rest: string, rep: string)
    requires |pat| > 0
    ensures ReplaceAll(pat + rest, pat, rep) == rep + ReplaceAll(rest, pat, rep)
  {
    assert (pat + rest)[..|pat|] == pat;
    assert (pat + rest)[|pat|..] == rest;
  }

  /** `sep.join(parts)`. */
  function Join(sep: string, parts: seq<string>): string
  {
    if parts == [] then ""
    else if |parts| == 1 then parts[0]
    else parts[0] + sep + Join(sep, parts[1..])
  }

  /** Joining one more part appends the separator and that part. */
  lemma {:induction false} JoinAppend(sep: string, parts: seq<string>, p: string)
    requires parts != []
    ensures Join(sep, parts + [p]) == Join(sep, parts) + sep + p
    decreases |parts|
  {
    if |parts| > 1 {
      assert (parts + [p])[1..] == parts[1..] + [p];
      JoinAppend(sep, parts[1..], p);
    } else {
      assert (parts + [p])[1..] == [p];
    }
  }

  /** The joined text is as long as the parts together with one separator between each pair. */
  lemma {:induction false} JoinLength(sep: string, parts: seq<string>)
    ensures |Join(sep, parts)| == TotalLength(parts) + if parts == [] then 0 else |sep| * (|parts| - 1)
    decreases |parts|
  {
    if |parts| > 1 {
      JoinLength(sep, parts[1..]);
    }
  }

  function TotalLength(parts: seq<string>): nat
  {
    if parts == [] then 0 else |parts[0]| + TotalLength(parts[1..])
  }

  /** The head and tail of a concatenation with a non-empty front. */
  lemma ConsAppend<T>(p: seq<T>, rest: seq<T>)
    requires p != []
    ensures (p + rest)[0] == p[0] && (p + rest)[1..] == p[1..] + rest
  {
  }

  lemma ConsSplit<T>(p: seq<T>)
    requires p != []
    ensures p == [p[0]] + p[1..]
  {
  }

  lemma EmptyAppend<T>(p: seq<T>, rest: seq<T>)
    requires p == []
    ensures p + rest == rest
  {
  }

  lemma AppendHalves<T>(a: seq<T>, b: seq<T>)
    ensures (a + b)[..|a|] == a && (a + b)[|a|..] == b
  {
  }

  lemma AppendEmpty<T>(s: seq<T>)
    ensures s + [] == s
  {
  }

  lemma ZeroSplit<T>(u: seq<T>, x: seq<T>)
    ensures u[..0] + x == x && u[0..] == u
  {
  }

  /** The tail of `[c] + a` is `a`. */
  lemma ConsTail<T>(s: seq<T>, c: T, a: seq<T>)
    requires s == [c] + a
    ensures s[1..] == a
  {
  }

  lemma AppendAssoc<T>(a: seq<T>, b: seq<T>, c: seq<T>)
    ensures a + (b + c) == (a + b) + c
  {
  }

  /** A sequence is its prefix followed by the rest. */
  lemma SplitAt<T>(s: seq<T>, k: nat)
    requires k <= |s|
    ensures s == s[..k] + s[k..]
  {
  }

  /** A non-empty prefix is the first element followed by a prefix of the tail. */
  lemma ConsPrefix<T>(s: seq<T>, k: nat)
    requires 0 < k <= |s|
    ensures s[..k] == [s[0]] + s[1..][..k - 1] && s[1..][k - 1..] == s[k..]
  {
  }

  /** A suffix of a non-empty sequence short of its last element is a suffix of the front, then that element. */
  lemma SuffixSnoc<T>(s: seq<T>, k: nat)
    requires k < |s|
    ensures s[k..] == s[..|s| - 1][k..] + [s[|s| - 1]]
  {
  }

  /** A prefix `r` of a suffix `l` of `s`, located in `s`. */
  lemma SuffixPrefixSlice<T>(s: seq<T>, l: seq<T>, r: seq<T>)
    requires |l| <= |s| && l == s[|s| - |l|..] && |r| <= |l| && r == l[..|r|]
    ensures s[|s| - |l|..|s| - |l| + |r|] == r
    ensures s[|s| - |l| + |r|..] == l[|r|..]
  {
  }

  lemma AllSpaceCons(c: char, s: string)
    requires IsSpace(c) && AllSpace(s)
    ensures AllSpace([c] + s)
  {
    assert forall i :: 0 < i <= |s| ==> ([c] + s)[i] == s[i - 1];
  }

  lemma AllSpaceSnoc(s: string, c: char)
    requires AllSpace(s) && IsSpace(c)
    ensures AllSpace(s + [c])
  {
    assert forall i :: 0 <= i < |s| ==> (s + [c])[i] == s[i];
  }

  /** A non-empty sequence is its front followed by its last element. */
  lemma SplitLast<T>(s: seq<T>)
    requires s != []
    ensures s == s[..|s| - 1] + [s[|s| - 1]]
  {
  }

  /** A non-empty prefix is the shorter prefix followed by its last element. */
  lemma PrefixSnoc<T>(s: seq<T>, n: nat)
    requires 0 < n <= |s|
    ensures s[..n] == s[..n - 1] + [s[n - 1]]
  {
  }

  /** A prefix followed by the slice after it is the longer prefix. */
  lemma PrefixJoin<T>(s: seq<T>, a: nat, b: nat)
    requires a <= b <= |s|
    ensures s[..a] + s[a..b] == s[..b]
  {
  }

  /** The middle part of a concatenation is found again at its offset. */
  lemma ConcatMiddle(a: string, b: string, c: string)
    ensures (a + b + c)[|a|..|a| + |b|] == b
  {
  }
}
