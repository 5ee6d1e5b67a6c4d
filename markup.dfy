/**
 * Plain text out of a transcript page, as every page that feeds a model
 * does it: `re.sub(r'<.*?>', ' ', html)`, then `re.sub(r'\s+', ' ', text)`,
 * then `text.strip()`. The tag pattern is non-greedy and `.` does not cross a
 * line break, so a `<` whose first following `>` comes after a newline is
 * kept as text.
 */
module Markup {
  import opened Wrappers
  import opened Text

  /** Offset of the `>` closing a tag whose body starts `s`, if no line break comes first. */
  function CloseAt(s: string): (r: Option<nat>)
    ensures r.Some? ==> r.value < |s| && s[r.value] == '>'
    ensures r.Some? ==> forall j :: 0 <= j < r.value ==> s[j] != '>' && s[j] != '\n'
    ensures r.None? ==> forall k :: 0 <= k < |s| && s[k] == '>' ==> '\n' in s[..k]
  {
    if s == [] then None
    else if s[0] == '>' then Some(0)
    else if s[0] == '\n' then None
    else
      match CloseAt(s[1..])
      case None =>
        assert forall k :: 1 <= k < |s| ==> s[1..][..k - 1] == s[1..k];
        None
      case Some(k) => Some(k + 1)
  }

  /** `re.sub(r'<.*?>', ' ', s)`: every single-line tag, leftmost first, becomes one space. */
  function RemoveTags(s: string): string
    decreases |s|
  {
    if s == [] then []
    else if s[0] == '<' then
      match CloseAt(s[1..])
      case Some(k) => " " + RemoveTags(s[k + 2..])
      case None => "<" + RemoveTags(s[1..])
    else [s[0]] + RemoveTags(s[1..])
  }

  /** No position of `s` starts a match of `<.*?>`. */
  predicate NoTag(s: string)
    decreases |s|
  {
    s == [] || ((s[0] == '<' ==> CloseAt(s[1..]).None?) && NoTag(s[1..]))
  }

  /** Text whose tag search fails keeps failing after tags are removed. */
  lemma {:induction false} UnclosedStaysUnclosed(u: string)
    requires CloseAt(u).None?
    ensures CloseAt(RemoveTags(u)).None?
    decreases |u|
  {
    if u != [] && u[0] != '\n' {
      if u[0] == '<' {
        assert CloseAt(u[1..]).None?;
        UnclosedStaysUnclosed(u[1..]);
        assert RemoveTags(u) == "<" + RemoveTags(u[1..]);
        assert ("<" + RemoveTags(u[1..]))[1..] == RemoveTags(u[1..]);
      } else {
        UnclosedStaysUnclosed(u[1..]);
        assert ([u[0]] + RemoveTags(u[1..]))[1..] == RemoveTags(u[1..]);
      }
    }
  }

  /** After the substitution no tag is left: a second search finds nothing. */
  lemma {:induction false} RemoveTagsLeavesNoTag(s: string)
    ensures NoTag(RemoveTags(s))
    decreases |s|
  {
    if s != [] {
      if s[0] == '<' {
        match CloseAt(s[1..])
        case Some(k) =>
          RemoveTagsLeavesNoTag(s[k + 2..]);
          assert (" " + RemoveTags(s[k + 2..]))[1..] == RemoveTags(s[k + 2..]);
        case None =>
          RemoveTagsLeavesNoTag(s[1..]);
          UnclosedStaysUnclosed(s[1..]);
          assert ("<" + RemoveTags(s[1..]))[1..] == RemoveTags(s[1..]);
      } else {
        RemoveTagsLeavesNoTag(s[1..]);
        assert ([s[0]] + RemoveTags(s[1..]))[1..] == RemoveTags(s[1..]);
      }
    }
  }

  /** Text without tags is left alone. */
  lemma {:induction false} RemoveTagsNoTag(s: string)
    requires NoTag(s)
    ensures RemoveTags(s) == s
    decreases |s|
  {
    if s != [] {
      RemoveTagsNoTag(s[1..]);
    }
  }

  /** Removing tags twice is removing them once. */
  lemma RemoveTagsIdempotent(s: string)
    ensures RemoveTags(RemoveTags(s)) == RemoveTags(s)
  {
    RemoveTagsLeavesNoTag(s);
    RemoveTagsNoTag(RemoveTags(s));
  }

  /** A string with no `<` at all is its own tag removal. */
  lemma {:induction false} RemoveTagsPlain(s: string)
    requires '<' !in s
    ensures RemoveTags(s) == s
    decreases |s|
  {
    if s != [] {
      assert s[0] != '<';
      RemoveTagsPlain(s[1..]);
    }
  }

  /** Tag removal only deletes text: what is left is a subsequence of the original's non-space text. */
  lemma {:induction false} RemoveTagsDeletesOnly(s: string)
    ensures IsSubseq(NonSpace(RemoveTags(s)), NonSpace(s))
    decreases |s|
  {
    if s == [] {
      SubseqRefl(NonSpace(s));
    } else {
      assert s == [s[0]] + s[1..];
      NonSpaceAppend([s[0]], s[1..]);
      if s[0] == '<' && CloseAt(s[1..]).Some? {
        var k := CloseAt(s[1..]).value;
        var rest := s[k + 2..];
        RemoveTagsDeletesOnly(rest);
        NonSpaceAppend(" ", RemoveTags(rest));
        assert s == s[..k + 2] + rest;
        NonSpaceAppend(s[..k + 2], rest);
        assert NonSpace(s)[|NonSpace(s[..k + 2])|..] == NonSpace(rest);
        SubseqOfSuffix(NonSpace(RemoveTags(s)), NonSpace(s), |NonSpace(s[..k + 2])|);
      } else {
        RemoveTagsDeletesOnly(s[1..]);
        assert RemoveTags(s) == [s[0]] + RemoveTags(s[1..]);
        NonSpaceAppend([s[0]], RemoveTags(s[1..]));
        if !IsSpace(s[0]) {
          SubseqCons(s[0], NonSpace(RemoveTags(s[1..])), NonSpace(s[1..]));
        }
      }
    }
  }

  // -----------------------------------------------------------------------
  // `re.sub(r'\s+', ' ', text)`
  // -----------------------------------------------------------------------

  /** Every whitespace character is a plain space and no two are adjacent. */
  predicate Collapsed(t: string)
  {
    (forall i :: 0 <= i < |t| && IsSpace(t[i]) ==> t[i] == ' ')
    && (forall i :: 0 <= i < |t| - 1 ==> !(IsSpace(t[i]) && IsSpace(t[i + 1])))
  }

  /** Each maximal run of whitespace becomes one space. */
  function Collapse(s: string): (r: string)
    ensures s != [] && !IsSpace(s[0]) ==> r != [] && r[0] == s[0]
    decreases |s|
  {
    if s == [] then []
    else if IsSpace(s[0]) then
      var rest := TrimLeft(s);
      assert rest != s;
      " " + Collapse(rest)
    else [s[0]] + Collapse(s[1..])
  }

  lemma {:induction false} CollapseIsCollapsed(s: string)
    ensures Collapsed(Collapse(s))
    decreases |s|
  {
    if s != [] {
      if IsSpace(s[0]) {
        var rest := TrimLeft(s);
        assert rest != s;
        CollapseIsCollapsed(rest);
        var r := Collapse(rest);
        assert Collapse(s) == " " + r;
        forall i | 0 <= i < |r| ensures (" " + r)[i + 1] == r[i] { }
      } else {
        CollapseIsCollapsed(s[1..]);
        var r := Collapse(s[1..]);
        assert Collapse(s) == [s[0]] + r;
        forall i | 0 <= i < |r| ensures ([s[0]] + r)[i + 1] == r[i] { }
      }
    }
  }

  lemma {:induction false} CollapseKeepsNonSpace(s: string)
    ensures NonSpace(Collapse(s)) == NonSpace(s)
    decreases |s|
  {
    if s != [] {
      if IsSpace(s[0]) {
        assert |TrimLeft(s)| < |s|;
        CollapseKeepsNonSpace(TrimLeft(s));
        NonSpaceSpaceCons(Collapse(TrimLeft(s)));
        NonSpaceTrimLeft(s);
      } else {
        CollapseKeepsNonSpace(s[1..]);
        CollapseStep(s);
        NonSpaceCons(s[0], Collapse(s[1..]));
      }
    }
  }

  /** Collapsing already collapsed text changes nothing. */
  lemma {:induction false} CollapseCollapsed(t: string)
    requires Collapsed(t)
    ensures Collapse(t) == t
    decreases |t|
  {
    if t != [] {
      CollapsedInfix(t, 1, |t|);
      CollapseCollapsed(t[1..]);
      assert t == [t[0]] + t[1..];
      if IsSpace(t[0]) {
        assert t[1..] == [] || !IsSpace(t[1]);
        assert TrimLeft(t) == t[1..];
        assert Collapse(t) == " " + t[1..];
      } else {
        assert Collapse(t) == [t[0]] + t[1..];
      }
    }
  }

  lemma CollapsedInfix(t: string, i: nat, j: nat)
    requires Collapsed(t) && i <= j <= |t|
    ensures Collapsed(t[i..j])
  {
    var u := t[i..j];
    assert forall k :: 0 <= k < |u| ==> u[k] == t[i + k];
  }

  /** Text as the pages emit it: collapsed, with no space at either end. */
  predicate Normalized(t: string)
  {
    Collapsed(t) && (t == [] || (t[0] != ' ' && t[|t| - 1] != ' '))
  }

  /** `re.sub(r'\s+', ' ', s).strip()`. */
  function Normalize(s: string): string
  {
    Strip(Collapse(s))
  }

  /** Stripping collapsed text yields normalized text. */
  lemma StripCollapsed(c: string)
    requires Collapsed(c)
    ensures Normalized(Strip(c))
  {
    StripSpec(c);
    CollapsedInfix(c, |c| - |TrimLeft(c)|, |c| - |TrimLeft(c)| + |Strip(c)|);
  }

  lemma NormalizeSpec(s: string)
    ensures Normalized(Normalize(s))
    ensures NonSpace(Normalize(s)) == NonSpace(s)
  {
    CollapseIsCollapsed(s);
    StripCollapsed(Collapse(s));
    StripKeepsNonSpace(Collapse(s));
    CollapseKeepsNonSpace(s);
  }

  /** Normalized text is a fixed point. */
  lemma NormalizeNormalized(t: string)
    requires Normalized(t)
    ensures Normalize(t) == t
  {
    CollapseCollapsed(t);
    StripNoop(t);
  }

  lemma NormalizeIdempotent(s: string)
    ensures Normalize(Normalize(s)) == Normalize(s)
  {
    NormalizeSpec(s);
    NormalizeNormalized(Normalize(s));
  }

  // -----------------------------------------------------------------------
  // The whole extraction
  // -----------------------------------------------------------------------

  /** `extrair_texto_html` / `extract_text_from_html`. */
  function ExtractText(html: string): string
  {
    Normalize(RemoveTags(html))
  }

  /**
   * The extracted text is normalized and only deletes: its non-space
   * characters are, in order, a subsequence of the page's.
   */
  lemma ExtractTextSpec(html: string)
    ensures Normalized(ExtractText(html))
    ensures IsSubseq(NonSpace(ExtractText(html)), NonSpace(html))
  {
    NormalizeSpec(RemoveTags(html));
    RemoveTagsDeletesOnly(html);
  }

  /** A page without `<` only has its whitespace normalized; no character else is lost. */
  lemma ExtractTextPlain(html: string)
    requires '<' !in html
    ensures ExtractText(html) == Normalize(html)
    ensures NonSpace(ExtractText(html)) == NonSpace(html)
  {
    RemoveTagsPlain(html);
    NormalizeSpec(html);
  }

  /** Extraction is idempotent on text that never had markup. */
  lemma ExtractTextOfNormalized(t: string)
    requires '<' !in t && Normalized(t)
    ensures ExtractText(t) == t
  {
    RemoveTagsPlain(t);
    NormalizeNormalized(t);
  }

  /** The body of a single-line tag reaches up to its first `>`. */
  lemma {:induction false} CloseAtBody(x: string, rest: string)
    requires '>' !in x && '\n' !in x
    ensures CloseAt(x + ">" + rest) == Some(|x|)
    decreases |x|
  {
    if x != [] {
      assert (x + ">" + rest)[1..] == x[1..] + ">" + rest;
      assert x[0] in x;
      CloseAtBody(x[1..], rest);
    }
  }

  /** A complete single-line tag becomes one space. */
  lemma RemoveTagsTag(x: string, rest: string)
    requires '>' !in x && '\n' !in x
    ensures RemoveTags("<" + x + ">" + rest) == " " + RemoveTags(rest)
  {
    var s := "<" + x + ">" + rest;
    assert s[1..] == x + ">" + rest;
    CloseAtBody(x, rest);
    assert s[|x| + 2..] == rest;
  }

  /** Text without `<` passes through unchanged. */
  lemma {:induction false} RemoveTagsText(p: string, rest: string)
    requires '<' !in p
    ensures RemoveTags(p + rest) == p + RemoveTags(rest)
    decreases |p|
  {
    if p != [] {
      assert p[0] in p;
      assert (p + rest)[0] == p[0] && (p + rest)[1..] == p[1..] + rest;
      RemoveTagsText(p[1..], rest);
      assert p == [p[0]] + p[1..];
    } else {
      assert p + rest == rest;
    }
  }

  /** A word passes through the collapse unchanged. */
  lemma CollapseStep(s: string)
    requires s != [] && !IsSpace(s[0])
    ensures Collapse(s) == [s[0]] + Collapse(s[1..])
  {
  }

  lemma {:induction false} CollapseWord(p: string, rest: string)
    requires NoSpace(p)
    ensures Collapse(p + rest) == p + Collapse(rest)
    decreases |p|
  {
    if p != [] {
      ConsAppend(p, rest);
      NoSpaceTail(p);
      CollapseStep(p + rest);
      CollapseWord(p[1..], rest);
      ConsSplit(p);
      AppendAssoc([p[0]], p[1..], Collapse(rest));
    } else {
      EmptyAppend(p, rest);
    }
  }

  /** A gap of whitespace before a word, or at the end, becomes one space. */
  lemma CollapseGap(w: string, rest: string)
    requires w != [] && AllSpace(w) && (rest == [] || !IsSpace(rest[0]))
    ensures Collapse(w + rest) == " " + Collapse(rest)
  {
    GapTrimmed(w, rest);
  }

  lemma {:induction false} GapTrimmed(w: string, rest: string)
    requires AllSpace(w) && (rest == [] || !IsSpace(rest[0]))
    ensures TrimLeft(w + rest) == rest
    decreases |w|
  {
    if w != [] {
      assert (w + rest)[1..] == w[1..] + rest;
      GapTrimmed(w[1..], rest);
    } else {
      assert w + rest == rest;
    }
  }

  /** The search for `>` gives up at a line break. */
  lemma {:induction false} CloseAtStopsAtBreak(x: string, rest: string)
    requires '>' !in x && '\n' !in x
    ensures CloseAt(x + "\n" + rest) == None
    decreases |x|
  {
    if x != [] {
      assert (x + "\n" + rest)[1..] == x[1..] + "\n" + rest;
      assert x[0] in x;
      CloseAtStopsAtBreak(x[1..], rest);
    }
  }

  /**
   * A tag broken over a line is kept as text, `<` included: only its line
   * break is later collapsed to a space.
   */
  lemma UnclosedTagKept(x: string, rest: string)
    requires '<' !in x && '>' !in x && '\n' !in x
    ensures RemoveTags("<" + x + "\n" + rest) == "<" + x + "\n" + RemoveTags(rest)
  {
    var s := "<" + x + "\n" + rest;
    assert s[1..] == x + "\n" + rest;
    CloseAtStopsAtBreak(x, rest);
    assert '<' !in x + "\n";
    RemoveTagsText(x + "\n", rest);
  }

  // -----------------------------------------------------------------------
  // Two names in tags
  // -----------------------------------------------------------------------

  /** A single-line tag with the given body. */
  function Tag(body: string): string
  {
    "<" + body + ">"
  }

  predicate TagBody(x: string)
  {
    '>' !in x && '\n' !in x
  }

  /** A word: non-empty, without whitespace and without `<`. */
  predicate Word(w: string)
  {
    w != [] && NoSpace(w) && '<' !in w
  }

  /** The tags of `Tag(p1) a Tag(p2) b Tag(p3) Tag(p4)` become single spaces, the words stay. */
  lemma RemoveTagsTaggedWords(p1: string, a: string, p2: string, b: string, p3: string, p4: string)
    requires TagBody(p1) && TagBody(p2) && TagBody(p3) && TagBody(p4) && Word(a) && Word(b)
    ensures RemoveTags(Tag(p1) + (a + (" " + (Tag(p2) + (b + (Tag(p3) + Tag(p4)))))))
      == " " + (a + (" " + (" " + (b + (" " + (" " + []))))))
  {
    AppendEmpty(Tag(p4));
    RemoveTagsTag(p4, []);
    RemoveTagsTag(p3, Tag(p4));
    RemoveTagsText(b, Tag(p3) + Tag(p4));
    RemoveTagsTag(p2, b + (Tag(p3) + Tag(p4)));
    RemoveTagsText(" ", Tag(p2) + (b + (Tag(p3) + Tag(p4))));
    RemoveTagsText(a, " " + (Tag(p2) + (b + (Tag(p3) + Tag(p4)))));
    RemoveTagsTag(p1, a + (" " + (Tag(p2) + (b + (Tag(p3) + Tag(p4))))));
  }

  /** Two gaps of whitespace in a row are trimmed together. */
  lemma {:induction false} GapsTrimmed(w: string, v: string, rest: string)
    requires AllSpace(w) && AllSpace(v) && (rest == [] || !IsSpace(rest[0]))
    ensures TrimLeft(w + (v + rest)) == rest
    decreases |w|
  {
    if w != [] {
      ConsAppend(w, v + rest);
      GapsTrimmed(w[1..], v, rest);
    } else {
      EmptyAppend(w, v + rest);
      GapTrimmed(v, rest);
    }
  }

  /** Two gaps of whitespace in a row become one space. */
  lemma CollapseGaps(w: string, v: string, rest: string)
    requires w != [] && AllSpace(w) && AllSpace(v) && (rest == [] || !IsSpace(rest[0]))
    ensures Collapse(w + (v + rest)) == " " + Collapse(rest)
  {
    ConsAppend(w, v + rest);
    GapsTrimmed(w, v, rest);
  }

  lemma CollapseTaggedWords(a: string, b: string, s1: string, s2: string, s3: string, s4: string, s5: string)
    requires Word(a) && Word(b)
    requires s1 != [] && AllSpace(s1) && s2 != [] && AllSpace(s2) && AllSpace(s3) && s4 != [] && AllSpace(s4) && AllSpace(s5)
    ensures Collapse(s1 + (a + (s2 + (s3 + (b + (s4 + (s5 + []))))))) == " " + (a + (" " + (b + " ")))
  {
    CollapseGaps(s4, s5, []);
    assert Collapse([]) == [];
    AppendEmpty(" ");
    CollapseWord(b, s4 + (s5 + []));
    CollapseGaps(s2, s3, b + (s4 + (s5 + [])));
    CollapseWord(a, s2 + (s3 + (b + (s4 + (s5 + [])))));
    CollapseGap(s1, a + (s2 + (s3 + (b + (s4 + (s5 + []))))));
  }

  lemma StripTaggedWords(a: string, b: string)
    requires Word(a) && Word(b)
    ensures Strip(" " + (a + (" " + (b + " ")))) == a + " " + b
  {
    GapTrimmed(" ", a + (" " + (b + " ")));
    AppendAssoc(a, " ", b + " ");
    AppendAssoc(a + " ", b, " ");
    TrimRightSpace(a + " " + b);
  }

  lemma TrimRightSpace(x: string)
    requires x != [] && !IsSpace(x[|x| - 1])
    ensures TrimRight(x + " ") == x
  {
    assert (x + " ")[..|x|] == x;
  }

  /**
   * Two words inside single-line tags, the first followed by a space, come
   * out as the two words and one space between them.
   */
  lemma ExtractTaggedWords(p1: string, a: string, p2: string, b: string, p3: string, p4: string)
    requires TagBody(p1) && TagBody(p2) && TagBody(p3) && TagBody(p4) && Word(a) && Word(b)
    ensures ExtractText(Tag(p1) + (a + (" " + (Tag(p2) + (b + (Tag(p3) + Tag(p4))))))) == a + " " + b
  {
    RemoveTagsTaggedWords(p1, a, p2, b, p3, p4);
    CollapseTaggedWords(a, b, " ", " ", " ", " ", " ");
    StripTaggedWords(a, b);
  }

  /** The plain text of `<p>Ola <strong>Ana</strong></p>` is `Ola Ana`. */
  lemma ExtractTextExample()
    ensures ExtractText(Tag("p") + ("Ola" + (" " + (Tag("strong") + ("Ana" + (Tag("/strong") + Tag("/p"))))))) == "Ola" + " " + "Ana"
  {
    assert Word("Ola") && Word("Ana");
    ExtractTaggedWords("p", "Ola", "strong", "Ana", "/strong", "/p");
  }
}
