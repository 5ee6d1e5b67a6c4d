/**
 * The file-naming convention `{kind}_{meeting name}.{ext}` shared by every
 * page. `Parse` is an explicit matcher for what Python's
 * `re.match(r"(html|excel)_(.+)\.(html|xlsx)", filename)` does: anchored at
 * the start only, the alternatives tried left to right, `.+` greedy and not
 * crossing a newline, and backtracking from the longest candidate name until
 * `\.(html|xlsx)` follows it. Text after the extension is never looked at.
 */
module FilenameCodec {
  import opened Wrappers
  import opened Text
  import Order

  datatype FileKind = Html | Excel

  /** `{"type": ..., "meeting_name": ...}` as the parser returns it. */
  datatype FileInfo = FileInfo(kind: FileKind, meetingName: string)

  /** Group 1 followed by `_`. */
  function PrefixOf(kind: FileKind): string
  {
    match kind
    case Html => "html_"
    case Excel => "excel_"
  }

  predicate NoNewline(s: string)
  {
    forall i :: 0 <= i < |s| ==> s[i] != '\n'
  }

  /** `\.(html|xlsx)` matches at position `j`. */
  predicate ExtensionAt(s: string, j: nat)
    requires j <= |s|
  {
    StartsWith(s[j..], ".html") || StartsWith(s[j..], ".xlsx")
  }

  // ---------------------------------------------------------------------
  // The matcher, step by step as the regex engine runs it.
  // ---------------------------------------------------------------------

  /** `(html|excel)_`: the kind, and the position where group 2 starts. */
  function MatchKind(s: string): (r: Option<(FileKind, nat)>)
    ensures r.Some? ==> StartsWith(s, PrefixOf(r.value.0)) && r.value.1 == |PrefixOf(r.value.0)|
    ensures r.None? ==> !StartsWith(s, PrefixOf(Html)) && !StartsWith(s, PrefixOf(Excel))
  {
    if StartsWith(s, "html_") then Some((Html, 5))
    else if StartsWith(s, "excel_") then Some((Excel, 6))
    else None
  }

  /** How far greedy `.+` runs from `p` before backtracking: up to the first newline. */
  function GreedyEnd(s: string, p: nat): (e: nat)
    requires p <= |s|
    ensures p <= e <= |s|
    ensures NoNewline(s[p..e])
    ensures e < |s| ==> s[e] == '\n'
    decreases |s| - p
  {
    if p == |s| || s[p] == '\n' then p
    else
      var e := GreedyEnd(s, p + 1);
      assert s[p..e] == [s[p]] + s[p + 1..e];
      e
  }

  /**
   * Backtracking: group 2 is tried as `s[p..j]` for `j` from the
   * greedy end downwards; the first `j` followed by an extension wins.
   */
  function Backtrack(s: string, p: nat, j: nat): (r: Option<nat>)
    requires p < j <= |s|
    ensures r.Some? ==> p < r.value <= j && ExtensionAt(s, r.value)
    ensures r.Some? ==> forall m :: r.value < m <= j ==> !ExtensionAt(s, m)
    ensures r.None? ==> forall m :: p < m <= j ==> !ExtensionAt(s, m)
    decreases j
  {
    if ExtensionAt(s, j) then Some(j)
    else if j == p + 1 then None
    else Backtrack(s, p, j - 1)
  }

  /** `extrair_info_arquivo` / `extract_info_from_filename`. */
  function Parse(filename: string): Option<FileInfo>
  {
    match MatchKind(filename)
    case None => None
    case Some((kind, p)) =>
      var e := GreedyEnd(filename, p);
      if e == p then None
      else
        match Backtrack(filename, p, e)
        case None => None
        case Some(j) => Some(FileInfo(kind, filename[p..j]))
  }

  // ---------------------------------------------------------------------
  // What the pattern means, independently of how it is searched.
  // ---------------------------------------------------------------------

  /**
   * `filename` is `PrefixOf(kind) + name + ext + rest` with a non-empty,
   * newline-free `name` and `ext` one of `.html`, `.xlsx`.
   */
  predicate Matches(filename: string, kind: FileKind, name: string)
  {
    var pre := PrefixOf(kind);
    |name| >= 1 && NoNewline(name) && StartsWith(filename, pre + name)
    && ExtensionAt(filename, |pre| + |name|)
  }

  /** The match the greedy group selects: no other reading has a longer name. */
  ghost predicate LongestMatch(filename: string, kind: FileKind, name: string)
  {
    Matches(filename, kind, name)
    && forall k, n :: Matches(filename, k, n) ==> |n| <= |name|
  }

  lemma PrefixesDiffer(s: string)
    ensures !(StartsWith(s, PrefixOf(Html)) && StartsWith(s, PrefixOf(Excel)))
  {
    if StartsWith(s, PrefixOf(Html)) {
      assert s[0] == 'h';
    }
  }

  lemma StartsWithConcat(s: string, a: string, b: string)
    requires StartsWith(s, a + b)
    ensures StartsWith(s, a) && s[|a|..|a| + |b|] == b
  {
    assert s[..|a|] == (a + b)[..|a|];
  }

  /** The kind of every reading is the one `MatchKind` finds, and names start where it says. */
  lemma MatchesShape(s: string, k: FileKind, n: string)
    requires Matches(s, k, n)
    ensures MatchKind(s) == Some((k, |PrefixOf(k)|))
    ensures n == s[|PrefixOf(k)|..|PrefixOf(k)| + |n|]
    ensures |PrefixOf(k)| + |n| <= GreedyEnd(s, |PrefixOf(k)|)
  {
    StartsWithConcat(s, PrefixOf(k), n);
    PrefixesDiffer(s);
  }

  /** Parsing returns exactly the longest reading, and nothing when there is none. */
  lemma {:induction false} ParseSpec(filename: string)
    ensures Parse(filename).None? <==> forall k, n :: !Matches(filename, k, n)
    ensures forall k, n :: Parse(filename) == Some(FileInfo(k, n)) <==> LongestMatch(filename, k, n)
  {
    var s := filename;
    match MatchKind(s)
    case None =>
      forall k, n ensures !Matches(s, k, n) {
        if Matches(s, k, n) { MatchesShape(s, k, n); }
      }
    case Some((kind, p)) =>
      var e := GreedyEnd(s, p);
      forall k, n | Matches(s, k, n)
        ensures k == kind && p < p + |n| <= e && ExtensionAt(s, p + |n|)
      {
        MatchesShape(s, k, n);
      }
      if e > p {
        match Backtrack(s, p, e)
        case None =>
        case Some(j) =>
          var name := s[p..j];
          assert s[..p + |name|] == PrefixOf(kind) + name;
          assert NoNewline(name) by {
            forall i | 0 <= i < |name| ensures name[i] != '\n' {
              assert name[i] == s[p + i] == s[p..e][i];
            }
          }
          assert Matches(s, kind, name);
          forall k, n | LongestMatch(s, k, n) ensures n == name {
            MatchesShape(s, k, n);
          }
      }
  }

  /** A parse result is the longest reading. */
  lemma ParseSound(filename: string)
    ensures Parse(filename).Some? ==>
      LongestMatch(filename, Parse(filename).value.kind, Parse(filename).value.meetingName)
  {
    ParseSpec(filename);
  }

  /** Any reading at all makes the parse succeed. */
  lemma ParseComplete(filename: string, kind: FileKind, name: string)
    requires Matches(filename, kind, name)
    ensures Parse(filename).Some?
  {
    ParseSpec(filename);
  }

  /** Uniqueness of the longest reading, used by every lemma below. */
  lemma ParseIs(filename: string, kind: FileKind, name: string)
    requires LongestMatch(filename, kind, name)
    ensures Parse(filename) == Some(FileInfo(kind, name))
  {
    ParseComplete(filename, kind, name);
    ParseSound(filename);
    var r := Parse(filename).value;
    MatchesShape(filename, r.kind, r.meetingName);
    MatchesShape(filename, kind, name);
  }

  predicate IsExtension(ext: string)
  {
    ext == ".html" || ext == ".xlsx"
  }

  /**
   * Round trip: `{kind}_{name}.{ext}` parses back to the kind and the full
   * name, even when the name holds `_` or `.`, because the greedy group stops
   * at the final extension. The extension is not checked against the kind.
   */
  lemma RoundTrip(kind: FileKind, name: string, ext: string)
    requires |name| >= 1 && NoNewline(name) && IsExtension(ext)
    ensures Parse(PrefixOf(kind) + name + ext) == Some(FileInfo(kind, name))
  {
    var s := PrefixOf(kind) + name + ext;
    assert s[..|PrefixOf(kind) + name|] == PrefixOf(kind) + name;
    assert s[|PrefixOf(kind)| + |name|..] == ext;
    forall k, n | Matches(s, k, n) ensures |n| <= |name| {
      MatchesShape(s, k, n);
    }
    ParseIs(s, kind, name);
  }

  /** `html_x.xlsx` is taken as an HTML entry: kind and extension are independent. */
  lemma KindNotCheckedAgainstExtension()
    ensures Parse("html_x.xlsx") == Some(FileInfo(Html, "x"))
    ensures Parse("excel_x.html") == Some(FileInfo(Excel, "x"))
  {
    RoundTrip(Html, "x", ".xlsx");
    assert PrefixOf(Html) + "x" + ".xlsx" == "html_x.xlsx";
    RoundTrip(Excel, "x", ".html");
    assert PrefixOf(Excel) + "x" + ".html" == "excel_x.html";
  }

  /** Only a match at the very start counts: a leading character defeats it. */
  lemma AnchoredAtStart(c: char, rest: string)
    requires c != 'h' && c != 'e'
    ensures Parse([c] + rest) == None
  {
  }

  /** A reading, name and extension together, ends before the first line break after the prefix. */
  lemma BreakBoundsReading(s: string, k: FileKind, n: string, b: nat)
    requires Matches(s, k, n) && b < |s| && s[b] == '\n' && |PrefixOf(k)| <= b
    ensures |PrefixOf(k)| + |n| + 5 <= b
  {
    var p := |PrefixOf(k)|;
    var q := p + |n|;
    StartsWithConcat(s, PrefixOf(k), n);
    assert forall m :: p <= m < q ==> s[m] == n[m - p];
    ExtensionHasNoBreak(s, q);
  }

  /** The five characters of an extension are no line break. */
  lemma ExtensionHasNoBreak(s: string, q: nat)
    requires q <= |s| && ExtensionAt(s, q)
    ensures q + 5 <= |s| && forall m :: q <= m < q + 5 ==> s[m] != '\n'
  {
    assert forall m :: q <= m < q + 5 ==> s[m] == s[q..][..5][m - q];
  }

  /** After the extension and a line break nothing more is read: the name is exact. */
  lemma LineBreakEndsName(kind: FileKind, name: string, ext: string, rest: string)
    requires |name| >= 1 && NoNewline(name) && IsExtension(ext)
    ensures Parse(PrefixOf(kind) + name + ext + "\n" + rest) == Some(FileInfo(kind, name))
  {
    var pre := PrefixOf(kind);
    var s := pre + name + ext + "\n" + rest;
    var q := |pre| + |name|;
    assert s[..q] == pre + name;
    assert s[q..][..5] == ext;
    assert s[q + 5] == '\n';
    assert Matches(s, kind, name);
    forall k, n | Matches(s, k, n) ensures |n| <= |name| {
      MatchesShape(s, k, n);
      BreakBoundsReading(s, k, n, q + 5);
    }
    ParseIs(s, kind, name);
  }

  /** `{kind}_{name}{ext}` followed by anything is a reading of the whole string. */
  lemma ReadingWithTail(kind: FileKind, name: string, ext: string, rest: string)
    requires |name| >= 1 && NoNewline(name) && IsExtension(ext)
    ensures Matches(PrefixOf(kind) + name + ext + rest, kind, name)
  {
    var pre := PrefixOf(kind);
    var t := pre + name + ext + rest;
    assert t[..|pre + name|] == pre + name;
    assert t[|pre| + |name|..][..5] == ext;
  }

  /** Whatever follows the extension, the kind is kept and the name found extends `name`. */
  lemma TrailingTextIgnored(kind: FileKind, name: string, ext: string, rest: string)
    requires |name| >= 1 && NoNewline(name) && IsExtension(ext)
    ensures Parse(PrefixOf(kind) + name + ext + rest).Some?
    ensures Parse(PrefixOf(kind) + name + ext + rest).value.kind == kind
    ensures StartsWith(Parse(PrefixOf(kind) + name + ext + rest).value.meetingName, name)
  {
    var t := PrefixOf(kind) + name + ext + rest;
    ReadingWithTail(kind, name, ext, rest);
    ParseComplete(t, kind, name);
    ParseSound(t);
    var r := Parse(t).value;
    MatchesShape(t, r.kind, r.meetingName);
    MatchesShape(t, kind, name);
  }

  // ---------------------------------------------------------------------
  // Display helpers.
  // ---------------------------------------------------------------------

  /** Drop `prefix` when the name starts with it, otherwise return the name. */
  function StripPrefix(prefix: string, filename: string): (r: string)
    ensures StartsWith(filename, prefix) ==> prefix + r == filename
    ensures !StartsWith(filename, prefix) ==> r == filename
  {
    if StartsWith(filename, prefix) then
      assert filename == filename[..|prefix|] + filename[|prefix|..];
      filename[|prefix|..]
    else filename
  }

  /** The label keeps the meeting name and the extension the parser saw. */
  lemma LabelKeepsExtension(filename: string, kind: FileKind, name: string)
    requires Parse(filename) == Some(FileInfo(kind, name))
    ensures StartsWith(StripPrefix(PrefixOf(kind), filename), name)
    ensures ExtensionAt(StripPrefix(PrefixOf(kind), filename), |name|)
  {
    ParseSpec(filename);
    assert LongestMatch(filename, kind, name);
    var pre := PrefixOf(kind);
    StartsWithConcat(filename, pre, name);
    var shown := StripPrefix(pre, filename);
    assert shown == filename[|pre|..];
    assert shown[..|name|] == filename[|pre|..|pre| + |name|];
    assert shown[|name|..] == filename[|pre| + |name|..];
  }

  /** Labelling is the inverse of prepending the prefix. */
  lemma LabelInverse(prefix: string, name: string)
    ensures StripPrefix(prefix, prefix + name) == name
  {
    assert (prefix + name)[..|prefix|] == prefix;
  }

  /**
   * The name a page shows: the meeting name when the file parses, the raw file
   * name otherwise. A parsed name is the longest reading of the file name.
   */
  function DisplayName(filename: string): (r: string)
    ensures Parse(filename).None? ==> r == filename
    ensures Parse(filename).Some? ==> LongestMatch(filename, Parse(filename).value.kind, r)
  {
    ParseSpec(filename);
    match Parse(filename)
    case Some(info) => info.meetingName
    case None => filename
  }

  /** `[f for f in os.listdir(d) if f.endswith(ext)]`, the listing given in directory order. */
  function FilesWithExtension(listing: seq<string>, ext: string): (r: seq<string>)
    ensures forall i :: 0 <= i < |r| ==> EndsWith(r[i], ext) && r[i] in listing
    ensures forall i :: 0 <= i < |listing| && EndsWith(listing[i], ext) ==> listing[i] in r
    ensures |r| <= |listing|
    ensures IsSubseq(r, listing)
  {
    if listing == [] then []
    else
      var rest := FilesWithExtension(listing[1..], ext);
      assert forall i :: 1 <= i < |listing| ==> listing[i] == listing[1..][i - 1];
      if EndsWith(listing[0], ext) then
        assert ([listing[0]] + rest)[1..] == rest;
        [listing[0]] + rest
      else rest
  }

  /**
   * paginas/visualizar_transcricoes.py, selector and sidebar: the `.html`
   * files in ascending order, each shown under its display name.
   */
  function TranscriptMenu(listing: seq<string>): (r: seq<(string, string)>)
    ensures Order.Sorted(seq(|r|, i requires 0 <= i < |r| => r[i].0))
    ensures multiset(seq(|r|, i requires 0 <= i < |r| => r[i].0)) == multiset(FilesWithExtension(listing, ".html"))
    ensures forall i :: 0 <= i < |r| ==> EndsWith(r[i].0, ".html") && r[i].1 == DisplayName(r[i].0)
  {
    var files := Order.Sort(FilesWithExtension(listing, ".html"));
    forall i | 0 <= i < |files| ensures EndsWith(files[i], ".html") {
      assert files[i] in multiset(files);
    }
    var r := seq(|files|, i requires 0 <= i < |files| => (files[i], DisplayName(files[i])));
    assert seq(|r|, i requires 0 <= i < |r| => r[i].0) == files;
    r
  }
}
