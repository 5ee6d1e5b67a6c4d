/**
 * `destacar_nomes` in the transcript viewer: two regex substitutions,
 * `<strong>([^<]+)</strong>` and then `<b>([^<]+)</b>`, each replacing the
 * opening tag by a styled one and keeping the content and the closing tag.
 * Because the content class excludes `<` and every closing tag starts with
 * `<`, the greedy group never backtracks: a match is the opening tag, the
 * whole `<`-free run after it, and the closing tag right there.
 */
module Highlight {
  import opened Wrappers
  import opened Text

  /** One substitution: the literal opening and closing tags and the styled opening tag. */
  datatype Rule = Rule(open: string, close: string, styled: string)

  const Style: string := " style=\"color: #1f4e79; font-weight: bold;\">"
  const Strong: Rule := Rule("<strong>", "</strong>", "<strong" + Style)
  const Bold: Rule := Rule("<b>", "</b>", "<b" + Style)

  /** Tags that start with `<` and hold no other `<`, as both rules' tags do. */
  predicate TagShaped(t: string)
  {
    |t| >= 2 && t[0] == '<' && '<' !in t[1..]
  }

  predicate WellFormed(r: Rule)
  {
    TagShaped(r.open) && TagShaped(r.close) && TagShaped(r.styled)
  }

  /**
   * Rewriting with `p` cannot create or destroy a match of `q`: neither
   * `p`'s styled tag nor its closing tag can begin a `q` opening tag, and
   * `q`'s closing tag cannot be confused with `p`'s opening or styled tag.
   */
  predicate Compatible(p: Rule, q: Rule)
  {
    WellFormed(p) && WellFormed(q)
    && q.close[1] != p.open[1] && q.close[1] != p.styled[1]
    && p.close[1] != q.open[1]
    && |p.styled| >= |q.open| && p.styled[..|q.open|] != q.open
  }

  /** `[^<]*` at the start of `s`: the length of the leading `<`-free run. */
  function RunLen(s: string): (k: nat)
    ensures k <= |s|
  {
    if s == [] || s[0] == '<' then 0 else RunLen(s[1..]) + 1
  }

  /** The leading run holds no `<`, and stops at a `<` or at the end. */
  lemma {:induction false} RunLenFree(s: string)
    ensures '<' !in s[..RunLen(s)]
    ensures RunLen(s) < |s| ==> s[RunLen(s)] == '<'
    decreases |s|
  {
    if s != [] && s[0] != '<' {
      RunLenFree(s[1..]);
      ConsPrefix(s, RunLen(s));
    }
  }

  /** A match of the rule's pattern at the start of `s`, as the length of its group. */
  function MatchAt(r: Rule, s: string): (m: Option<nat>)
    ensures m.Some? ==> m.value >= 1 && |r.open| + m.value + |r.close| <= |s|
  {
    if StartsWith(s, r.open) then
      var t := s[|r.open|..];
      var k := RunLen(t);
      if k >= 1 && StartsWith(t[k..], r.close) then Some(k) else None
    else None
  }

  /** `re.sub` with the rule, scanning left to right. */
  function Rewrite(r: Rule, s: string): string
    decreases |s|
  {
    if s == [] then []
    else if MatchAt(r, s).Some? then
      r.styled + s[|r.open|..|r.open| + MatchAt(r, s).value] + r.close + Rewrite(r, s[|r.open| + MatchAt(r, s).value + |r.close|..])
    else [s[0]] + Rewrite(r, s[1..])
  }

  /** `destacar_nomes`. */
  function Highlight(html: string): string
  {
    Rewrite(Bold, Rewrite(Strong, html))
  }

  /** No position of `s` starts a match. */
  predicate NoMatch(r: Rule, s: string)
    decreases |s|
  {
    s == [] || (MatchAt(r, s).None? && NoMatch(r, s[1..]))
  }

  // -----------------------------------------------------------------------
  // The regex, read back.
  // -----------------------------------------------------------------------

  /** A match is exactly the opening tag, a non-empty `<`-free content and the closing tag. */
  lemma MatchAtSound(r: Rule, s: string)
    requires WellFormed(r) && MatchAt(r, s).Some?
    ensures var k := MatchAt(r, s).value;
      StartsWith(s, r.open + s[|r.open|..|r.open| + k] + r.close)
      && '<' !in s[|r.open|..|r.open| + k]
  {
    MatchContentFree(r, s);
    var k := MatchAt(r, s).value;
    var t := s[|r.open|..];
    assert s[|r.open|..|r.open| + k] == t[..k];
    assert t[k..][..|r.close|] == s[|r.open| + k..|r.open| + k + |r.close|];
    assert s[..|r.open| + k + |r.close|] == s[..|r.open|] + s[|r.open|..|r.open| + k] + s[|r.open| + k..|r.open| + k + |r.close|];
  }

  /** Conversely, such a text is matched, with exactly that content. */
  lemma MatchAtComplete(r: Rule, content: string, rest: string)
    requires WellFormed(r) && content != [] && '<' !in content
    ensures MatchAt(r, r.open + content + r.close + rest) == Some(|content|)
  {
    var s := r.open + content + r.close + rest;
    assert s[..|r.open|] == r.open;
    var t := s[|r.open|..];
    assert t == content + (r.close + rest);
    RunLenUpToAngle(content, r.close + rest);
    assert t[|content|..] == r.close + rest;
  }

  lemma {:induction false} RunLenUpToAngle(x: string, y: string)
    requires '<' !in x && (y == [] || y[0] == '<')
    ensures RunLen(x + y) == |x|
    decreases |x|
  {
    if x != [] {
      assert x[0] in x;
      assert (x + y)[1..] == x[1..] + y;
      RunLenUpToAngle(x[1..], y);
    } else {
      assert x + y == y;
    }
  }

  // -----------------------------------------------------------------------
  // How a rewrite treats text around its matches.
  // -----------------------------------------------------------------------

  lemma NotInTail(c: char, s: string)
    requires s != [] && c !in s
    ensures c !in s[1..]
  {
  }

  lemma RewriteStep(r: Rule, s: string)
    requires s != [] && MatchAt(r, s).None?
    ensures Rewrite(r, s) == [s[0]] + Rewrite(r, s[1..])
  {
  }

  /** A `<`-free prefix is copied. */
  lemma {:induction false} FreePrefix(r: Rule, u: string, m: nat)
    requires WellFormed(r) && m <= |u| && '<' !in u[..m]
    ensures Rewrite(r, u) == u[..m] + Rewrite(r, u[m..])
    decreases m
  {
    if m > 0 {
      FreeHead(u, m);
      PlainNoMatch(r, u);
      RewriteStep(r, u);
      FreePrefix(r, u[1..], m - 1);
      ConsPrefix(u, m);
      AppendAssoc([u[0]], u[1..][..m - 1], Rewrite(r, u[m..]));
    } else {
      ZeroSplit(u, Rewrite(r, u[0..]));
    }
  }

  /** A `<`-free prefix starts with a character other than `<` and continues `<`-free. */
  lemma FreeHead(u: string, m: nat)
    requires 0 < m <= |u| && '<' !in u[..m]
    ensures u[0] != '<' && '<' !in u[1..][..m - 1]
  {
    assert u[..m][0] == u[0];
    assert forall x :: x in u[1..][..m - 1] ==> x in u[..m];
  }

  /** No match starts at a character other than `<`. */
  lemma PlainNoMatch(r: Rule, u: string)
    requires WellFormed(r) && u != [] && u[0] != '<'
    ensures MatchAt(r, u).None?
  {
    assert !StartsWith(u, r.open) by {
      if |r.open| <= |u| {
        assert u[..|r.open|][0] != r.open[0];
      }
    }
  }

  /** Whether the output starts with `<`-free text is decided by the input. */
  lemma {:induction false} FreeStartsWith(r: Rule, t: string, q: string)
    requires WellFormed(r) && '<' !in q
    ensures StartsWith(Rewrite(r, t), q) <==> StartsWith(t, q)
    decreases |t|
  {
    if q != [] && t != [] {
      assert q[0] in q;
      if MatchAt(r, t).None? {
        RewriteStep(r, t);
        NotInTail('<', q);
        FreeStartsWith(r, t[1..], q[1..]);
        assert StartsWith(t, q) <==> t[0] == q[0] && StartsWith(t[1..], q[1..]);
        var w := Rewrite(r, t);
        assert StartsWith(w, q) <==> w[0] == q[0] && StartsWith(w[1..], q[1..]);
      }
    }
  }

  /**
   * Whether the output starts with `<` and a `<`-free text is decided by the
   * input, when that text cannot be confused with the rule's own tags.
   */
  lemma AngleStartsWith(r: Rule, t: string, q: string)
    requires WellFormed(r) && q != [] && '<' !in q && q[0] != r.open[1] && q[0] != r.styled[1]
    ensures StartsWith(Rewrite(r, t), "<" + q) <==> StartsWith(t, "<" + q)
  {
    var aq := "<" + q;
    if t != [] {
      match MatchAt(r, t)
      case Some(k) =>
        assert t[1] == r.open[1];
        assert Rewrite(r, t)[1] == r.styled[1];
        assert aq[1] == q[0];
      case None =>
        RewriteStep(r, t);
        FreeStartsWith(r, t[1..], q);
        assert StartsWith(t, aq) <==> t[0] == '<' && StartsWith(t[1..], q);
        var w := Rewrite(r, t);
        assert StartsWith(w, aq) <==> w[0] == '<' && StartsWith(w[1..], q);
    }
  }

  /** Output of a text that is empty or starts with `<` is empty or starts with `<`. */
  lemma RewriteAngle(r: Rule, u: string)
    requires WellFormed(r) && (u == [] || u[0] == '<')
    ensures Rewrite(r, u) == [] || Rewrite(r, u)[0] == '<'
  {
  }

  /** At a position `p` does not match, the output starts with `q`'s opening tag iff the input does. */
  lemma KeptOpen(p: Rule, q: Rule, t: string)
    requires Compatible(p, q) && t != [] && MatchAt(p, t).None?
    ensures StartsWith(Rewrite(p, t), q.open) <==> StartsWith(t, q.open)
  {
    var w := Rewrite(p, t);
    RewriteStep(p, t);
    FreeStartsWith(p, t[1..], q.open[1..]);
    assert q.open == [q.open[0]] + q.open[1..];
    assert StartsWith(t, q.open) <==> t[0] == '<' && StartsWith(t[1..], q.open[1..]);
    assert StartsWith(w, q.open) <==> w[0] == '<' && StartsWith(w[1..], q.open[1..]);
  }

  /** Past a kept opening tag, the output continues with the rewrite of the rest. */
  lemma KeptOpenRest(p: Rule, q: Rule, t: string)
    requires Compatible(p, q) && t != [] && MatchAt(p, t).None? && StartsWith(t, q.open)
    ensures Rewrite(p, t) == t[..|q.open|] + Rewrite(p, t[|q.open|..])
  {
    var o := |q.open|;
    ConsPrefix(t, o);
    ConsTail(q.open, t[0], t[1..][..o - 1]);
    RewriteStep(p, t);
    FreePrefix(p, t[1..], o - 1);
    AppendAssoc([t[0]], t[1..][..o - 1], Rewrite(p, t[o..]));
  }

  /** The output continues with the content run of the input, then text that is empty or starts with `<`. */
  lemma KeptRun(p: Rule, t2: string)
    requires WellFormed(p)
    ensures RunLen(Rewrite(p, t2)) == RunLen(t2)
    ensures Rewrite(p, t2)[RunLen(t2)..] == Rewrite(p, t2[RunLen(t2)..])
  {
    var k := RunLen(t2);
    RunLenFree(t2);
    FreePrefix(p, t2, k);
    RewriteAngle(p, t2[k..]);
    RunLenUpToAngle(t2[..k], Rewrite(p, t2[k..]));
  }

  /** The content run and the test for `q`'s closing tag read the same on input and output. */
  lemma KeptContent(p: Rule, q: Rule, t2: string)
    requires Compatible(p, q)
    ensures RunLen(Rewrite(p, t2)) == RunLen(t2)
    ensures StartsWith(Rewrite(p, t2)[RunLen(t2)..], q.close) <==> StartsWith(t2[RunLen(t2)..], q.close)
  {
    KeptRun(p, t2);
    assert q.close == "<" + q.close[1..];
    AngleStartsWith(p, t2[RunLen(t2)..], q.close[1..]);
  }

  lemma MatchAtUnfold(r: Rule, s: string)
    requires StartsWith(s, r.open)
    ensures var t := s[|r.open|..];
      MatchAt(r, s) == if RunLen(t) >= 1 && StartsWith(t[RunLen(t)..], r.close) then Some(RunLen(t)) else None
  {
  }

  /** At a position the rule `p` does not match, rewriting with `p` neither makes nor breaks a `q` match. */
  lemma KeptPositionMatch(p: Rule, q: Rule, t: string)
    requires Compatible(p, q) && t != [] && MatchAt(p, t).None?
    ensures MatchAt(q, Rewrite(p, t)) == MatchAt(q, t)
  {
    KeptOpen(p, q, t);
    if StartsWith(t, q.open) {
      var w := Rewrite(p, t);
      var o := |q.open|;
      KeptOpenRest(p, q, t);
      assert w[o..] == Rewrite(p, t[o..]);
      KeptContent(p, q, t[o..]);
      MatchAtUnfold(q, t);
      MatchAtUnfold(q, w);
    }
  }

  // -----------------------------------------------------------------------
  // No match survives, and none is created.
  // -----------------------------------------------------------------------

  lemma {:induction false} NoMatchFree(q: Rule, x: string, y: string)
    requires WellFormed(q) && '<' !in x && NoMatch(q, y)
    ensures NoMatch(q, x + y)
    decreases |x|
  {
    if x != [] {
      assert x[0] in x;
      assert (x + y)[0] == x[0];
      assert (x + y)[1..] == x[1..] + y;
      NotInTail('<', x);
      NoMatchFree(q, x[1..], y);
    } else {
      assert x + y == y;
    }
  }

  /** A tag-shaped text that does not begin `q`'s opening tag adds no `q` match. */
  lemma NoMatchLead(q: Rule, x: string, y: string)
    requires WellFormed(q) && TagShaped(x) && NoMatch(q, y)
    requires (|x| >= |q.open| && x[..|q.open|] != q.open) || x[1] != q.open[1]
    ensures NoMatch(q, x + y)
  {
    var w := x + y;
    if |x| >= |q.open| && x[..|q.open|] != q.open {
      assert w[..|q.open|] == x[..|q.open|];
    } else {
      assert w[1] == x[1];
    }
    NoMatchFree(q, x[1..], y);
    assert w[1..] == x[1..] + y;
  }

  lemma {:induction false} NoMatchSuffix(q: Rule, s: string, j: nat)
    requires NoMatch(q, s) && j <= |s|
    ensures NoMatch(q, s[j..])
    decreases j
  {
    if j > 0 {
      NoMatchSuffix(q, s[1..], j - 1);
      assert s[1..][j - 1..] == s[j..];
    }
  }

  /** A styled block adds no `q` match in front of a text that has none. */
  lemma BlockNoMatch(p: Rule, q: Rule, content: string, tail: string)
    requires Compatible(p, q) && '<' !in content && NoMatch(q, tail)
    ensures NoMatch(q, p.styled + content + p.close + tail)
  {
    NoMatchLead(q, p.close, tail);
    NoMatchFree(q, content, p.close + tail);
    NoMatchLead(q, p.styled, content + (p.close + tail));
    AppendAssoc(p.styled, content, p.close + tail);
    AppendAssoc(p.styled + content, p.close, tail);
  }

  /**
   * Rewriting with `p` leaves no `q` match when there was none, and never
   * leaves a match of its own pattern (`same`, when `q` is `p`).
   */
  lemma {:induction false} NoMatchAfter(p: Rule, q: Rule, t: string, same: bool)
    requires Compatible(p, q) && (if same then q == p else NoMatch(q, t))
    ensures NoMatch(q, Rewrite(p, t))
    decreases |t|, 1
  {
    if t != [] {
      if MatchAt(p, t).Some? {
        NoMatchAfterMatch(p, q, t, same);
      } else {
        NoMatchAfter(p, q, t[1..], same);
        NoMatchAfterCopy(p, q, t, same);
      }
    }
  }

  /** The case of a match at the start: the rest is rewritten without `q` matches, then the block is added. */
  lemma {:induction false} NoMatchAfterMatch(p: Rule, q: Rule, t: string, same: bool)
    requires Compatible(p, q) && (if same then q == p else NoMatch(q, t)) && MatchAt(p, t).Some?
    ensures NoMatch(q, Rewrite(p, t))
    decreases |t|, 0
  {
    if !same {
      NoMatchSuffix(q, t, |p.open| + MatchAt(p, t).value + |p.close|);
    }
    NoMatchAfter(p, q, t[|p.open| + MatchAt(p, t).value + |p.close|..], same);
    NoMatchAfterBlock(p, q, t);
  }

  /** A rewritten match puts no `q` match in front of a rewrite that has none. */
  lemma NoMatchAfterBlock(p: Rule, q: Rule, t: string)
    requires Compatible(p, q) && MatchAt(p, t).Some?
    requires NoMatch(q, Rewrite(p, t[|p.open| + MatchAt(p, t).value + |p.close|..]))
    ensures NoMatch(q, Rewrite(p, t))
  {
    MatchContentFree(p, t);
    BlockNoMatch(p, q, t[|p.open|..|p.open| + MatchAt(p, t).value], Rewrite(p, t[|p.open| + MatchAt(p, t).value + |p.close|..]));
    RewriteMatch(p, t);
  }

  /** The content of a match holds no `<`. */
  lemma MatchContentFree(r: Rule, s: string)
    requires MatchAt(r, s).Some?
    ensures '<' !in s[|r.open|..|r.open| + MatchAt(r, s).value]
  {
    RunLenFree(s[|r.open|..]);
    assert s[|r.open|..|r.open| + MatchAt(r, s).value] == s[|r.open|..][..MatchAt(r, s).value];
  }

  /** A match is rewritten to the styled tag, its content and the closing tag. */
  lemma RewriteMatch(r: Rule, s: string)
    requires MatchAt(r, s).Some?
    ensures Rewrite(r, s) == r.styled + s[|r.open|..|r.open| + MatchAt(r, s).value] + r.close + Rewrite(r, s[|r.open| + MatchAt(r, s).value + |r.close|..])
  {
    assert |s| > 0;
  }

  /** A copied character puts no `q` match in front of a rewrite that has none. */
  lemma NoMatchAfterCopy(p: Rule, q: Rule, t: string, same: bool)
    requires Compatible(p, q) && t != [] && MatchAt(p, t).None? && (if same then q == p else NoMatch(q, t))
    requires NoMatch(q, Rewrite(p, t[1..]))
    ensures NoMatch(q, Rewrite(p, t))
  {
    RewriteStep(p, t);
    KeptPositionMatch(p, q, t);
    ConsTail(Rewrite(p, t), t[0], Rewrite(p, t[1..]));
  }

  /** Without a match the rewrite is the identity. */
  lemma {:induction false} NoMatchUnchanged(r: Rule, s: string)
    requires NoMatch(r, s)
    ensures Rewrite(r, s) == s
    decreases |s|
  {
    if s != [] {
      NoMatchUnchanged(r, s[1..]);
    }
  }

  lemma RulesCompatible()
    ensures Compatible(Strong, Strong) && Compatible(Strong, Bold)
    ensures Compatible(Bold, Strong) && Compatible(Bold, Bold)
  {
    assert '<' !in Style;
    assert Strong.styled[1..] == "strong" + Style;
    assert Bold.styled[1..] == "b" + Style;
    assert Style[0] == ' ';
    assert Strong.styled[7] == ' ' && Strong.open[7] == '>';
    assert Strong.styled[..8][7] == ' ';
    assert Bold.styled[2] == ' ' && Bold.open[2] == '>';
    assert Bold.styled[..3][2] == ' ';
    assert Strong.styled[..3][1] == 's';
    assert Bold.styled[..8][1] == 'b';
  }

  /** Highlighting twice is highlighting once: the styled tags are never matched again. */
  lemma HighlightIdempotent(html: string)
    ensures Highlight(Highlight(html)) == Highlight(html)
  {
    RulesCompatible();
    var u := Rewrite(Strong, html);
    NoMatchAfter(Strong, Strong, html, true);
    var v := Rewrite(Bold, u);
    NoMatchAfter(Bold, Bold, u, true);
    NoMatchAfter(Bold, Strong, u, false);
    NoMatchUnchanged(Strong, v);
    NoMatchUnchanged(Bold, v);
  }

  /** A literal opening tag is needed before anything is matched. */
  lemma {:induction false} AbsentTagNoMatch(r: Rule, s: string)
    requires !Occurs(r.open, s)
    ensures NoMatch(r, s)
    decreases |s|
  {
    if s != [] {
      AbsentTagNoMatch(r, s[1..]);
    }
  }

  /** A page with neither literal `<strong>` nor `<b>` is returned unchanged. */
  lemma NoTagsUnchanged(html: string)
    requires !Occurs("<strong>", html) && !Occurs("<b>", html)
    ensures Highlight(html) == html
  {
    AbsentTagNoMatch(Strong, html);
    NoMatchUnchanged(Strong, html);
    AbsentTagNoMatch(Bold, html);
    NoMatchUnchanged(Bold, html);
  }

  /** A single tagged text is rewritten to the styled tag, the same content and the closing tag. */
  lemma RewriteSingle(r: Rule, content: string)
    requires WellFormed(r) && content != [] && '<' !in content
    ensures Rewrite(r, r.open + content + r.close) == r.styled + content + r.close
  {
    var s := r.open + content + r.close;
    MatchAtComplete(r, content, []);
    assert s + [] == s;
    var n := |r.open| + |content|;
    assert s[|r.open|..n] == content;
    assert s[n + |r.close|..] == [];
    assert Rewrite(r, s) == r.styled + s[|r.open|..n] + r.close + Rewrite(r, []);
  }

  /** A tag at a position the rule does not match is copied, and the rewrite goes on after it. */
  lemma TagKept(r: Rule, tag: string, x: string)
    requires WellFormed(r) && TagShaped(tag) && MatchAt(r, tag + x).None?
    ensures Rewrite(r, tag + x) == tag + Rewrite(r, x)
  {
    ConsAppend(tag, x);
    RewriteStep(r, tag + x);
    AppendHalves(tag[1..], x);
    FreePrefix(r, tag[1..] + x, |tag| - 1);
    ConsSplit(tag);
    AppendAssoc([tag[0]], tag[1..], Rewrite(r, x));
  }

  /** An opening tag followed by no text or by another tag (empty content, nested markup) is not matched. */
  lemma NoContentNoMatch(r: Rule, x: string)
    requires WellFormed(r) && (x == [] || x[0] == '<')
    ensures MatchAt(r, r.open + x).None?
  {
    AppendHalves(r.open, x);
  }

  /** An opening tag that is not the literal one (attributes, other names) is not matched. */
  lemma OtherTagNoMatch(r: Rule, tag: string, x: string)
    requires WellFormed(r) && |tag| >= |r.open| && tag[..|r.open|] != r.open
    ensures MatchAt(r, tag + x).None?
  {
    assert (tag + x)[..|r.open|] == tag[..|r.open|];
  }

  /** An empty element is kept as it is. */
  lemma EmptyElementKept(r: Rule, x: string)
    requires Compatible(r, r)
    ensures Rewrite(r, r.open + r.close + x) == r.open + r.close + Rewrite(r, x)
  {
    NoContentNoMatch(r, r.close + x);
    AppendAssoc(r.open, r.close, x);
    TagKept(r, r.open, r.close + x);
    assert !StartsWith(r.close + x, r.open) by {
      if |r.open| <= |r.close + x| {
        assert (r.close + x)[..|r.open|][1] == r.close[1];
      }
    }
    TagKept(r, r.close, x);
    AppendAssoc(r.open, r.close, Rewrite(r, x));
  }

  /** An element holding another tag keeps its opening tag unstyled. */
  lemma NestedMarkupKept(r: Rule, x: string)
    requires WellFormed(r) && x != [] && x[0] == '<'
    ensures Rewrite(r, r.open + x) == r.open + Rewrite(r, x)
  {
    NoContentNoMatch(r, x);
    TagKept(r, r.open, x);
  }

  /** A tag that differs from the literal opening tag, such as one with attributes, is copied. */
  lemma AttributeTagKept(r: Rule, tag: string, x: string)
    requires WellFormed(r) && TagShaped(tag) && |tag| >= |r.open| && tag[..|r.open|] != r.open
    ensures Rewrite(r, tag + x) == tag + Rewrite(r, x)
  {
    OtherTagNoMatch(r, tag, x);
    TagKept(r, tag, x);
  }

  /** A speaker name in `<strong>` gets the styled opening tag; the name and closing tag stay. */
  lemma StrongNameStyled(name: string)
    requires name != [] && '<' !in name
    ensures Highlight("<strong>" + name + "</strong>") == Strong.styled + name + "</strong>"
  {
    RulesCompatible();
    RewriteSingle(Strong, name);
    BlockNoMatch(Strong, Bold, name, []);
    assert Strong.styled + name + Strong.close + [] == Strong.styled + name + Strong.close;
    NoMatchUnchanged(Bold, Strong.styled + name + Strong.close);
  }

  /** A speaker name in `<b>` gets the styled opening tag; the name and closing tag stay. */
  lemma BoldNameStyled(name: string)
    requires name != [] && '<' !in name
    ensures Highlight("<b>" + name + "</b>") == Bold.styled + name + "</b>"
  {
    RulesCompatible();
    var s := Bold.open + name + Bold.close;
    assert NoMatch(Strong, s) by {
      NoMatchLead(Strong, Bold.close, []);
      NoMatchFree(Strong, name, Bold.close + []);
      NoMatchLead(Strong, Bold.open, name + (Bold.close + []));
      assert s == Bold.open + (name + (Bold.close + []));
    }
    NoMatchUnchanged(Strong, s);
    RewriteSingle(Bold, name);
  }
}
