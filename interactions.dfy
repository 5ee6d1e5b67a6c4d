/**
 * The trends tab of the data-analysis example page: the speaker
 * transitions of a meeting, the interaction matrix indexed by the sorted
 * distinct speakers, the split of the rows into five segments and the five
 * most frequent words of each segment.
 */
module Interactions {
  import opened Wrappers
  import opened Text
  import Order
  import TextStatistics

  type Pair = (string, string)

  // ---------------------------------------------------------------------
  // Transitions
  // ---------------------------------------------------------------------

  /** Each speaker paired with the next one: one pair fewer than speakers, none for none. */
  function Pairs(speakers: seq<string>): (r: seq<Pair>)
    ensures |r| == if speakers == [] then 0 else |speakers| - 1
    ensures forall i :: 0 <= i < |r| ==> r[i] == (speakers[i], speakers[i + 1])
  {
    if |speakers| < 2 then []
    else seq(|speakers| - 1, i requires 0 <= i < |speakers| - 1 => (speakers[i], speakers[i + 1]))
  }

  /** The transition list, grown one pair at a time. */
  method Transitions(speakers: seq<string>) returns (transitions: seq<Pair>)
    ensures transitions == Pairs(speakers)
  {
    transitions := [];
    var last := if speakers == [] then 0 else |speakers| - 1;
    for i := 0 to last
      invariant |transitions| == i
      invariant forall k :: 0 <= k < i ==> transitions[k] == (speakers[k], speakers[k + 1])
    {
      transitions := transitions + [(speakers[i], speakers[i + 1])];
    }
  }

  /** How often `p` occurs in `ts`: a `Counter` entry, for transitions and for tokens alike. */
  function Occurrences<T(==)>(ts: seq<T>, p: T): (r: nat)
    ensures r <= |ts|
    ensures r == 0 <==> p !in ts
    decreases |ts|
  {
    if ts == [] then 0
    else
      var r := Occurrences(ts[..|ts| - 1], p);
      assert ts == ts[..|ts| - 1] + [ts[|ts| - 1]];
      r + if ts[|ts| - 1] == p then 1 else 0
  }

  /** One more transition adds one to its own count only. */
  lemma OccurrencesStep<T>(ts: seq<T>, t: T, p: T)
    ensures Occurrences(ts + [t], p) == Occurrences(ts, p) + if t == p then 1 else 0
  {
    assert (ts + [t])[..|ts|] == ts;
  }

  // ---------------------------------------------------------------------
  // Interaction matrix
  // ---------------------------------------------------------------------

  /** The position of `x` in `xs`. */
  function IndexOf(xs: seq<string>, x: string): (i: nat)
    requires x in xs
    ensures i < |xs| && xs[i] == x
  {
    if xs[0] == x then 0 else 1 + IndexOf(xs[1..], x)
  }

  /** Strictly ascending labels are pairwise different. */
  lemma SortedLabelsDistinct(labels: seq<string>)
    requires Order.StrictlySorted(labels)
    ensures Unique(labels)
  {
    forall i, j | 0 <= i < |labels| && 0 <= j < |labels| && i != j ensures labels[i] != labels[j] {
      if i < j {
        Order.LessIrreflexive(labels[i]);
      } else {
        Order.LessIrreflexive(labels[j]);
      }
    }
  }

  /** Both speakers of every transition are speakers of the meeting. */
  lemma PairsFromSpeakers(speakers: seq<string>)
    ensures forall k :: 0 <= k < |Pairs(speakers)| ==> Pairs(speakers)[k].0 in speakers && Pairs(speakers)[k].1 in speakers
  {
  }

  /** Pairwise different. */
  predicate Unique(xs: seq<string>)
  {
    forall i, j :: 0 <= i < |xs| && 0 <= j < |xs| && i != j ==> xs[i] != xs[j]
  }

  /** The entry at row `i` and column `j` once the first `k` counted pairs are written. */
  function Entry(labels: seq<string>, counted: seq<Pair>, k: nat, ts: seq<Pair>, i: nat, j: nat): nat
    requires k <= |counted| && i < |labels| && j < |labels|
  {
    if (labels[i], labels[j]) in counted[..k] then Occurrences(ts, (labels[i], labels[j])) else 0
  }

  /** Writing the `k`-th counted pair changes its own entry only. */
  lemma EntryStep(labels: seq<string>, counted: seq<Pair>, k: nat, ts: seq<Pair>, a: nat, b: nat, i: nat, j: nat)
    requires Unique(labels) && k < |counted| && a < |labels| && b < |labels| && i < |labels| && j < |labels|
    requires counted[k] == (labels[a], labels[b])
    requires forall m :: 0 <= m < k ==> counted[m] != counted[k]
    ensures Entry(labels, counted, k + 1, ts, i, j) ==
      if i == a && j == b then Occurrences(ts, counted[k]) else Entry(labels, counted, k, ts, i, j)
  {
    assert counted[..k + 1] == counted[..k] + [counted[k]];
    if i != a || j != b {
      assert (labels[i], labels[j]) != counted[k];
    } else {
      assert counted[k] !in counted[..k];
    }
  }

  /** `EntryStep` for every entry at once. */
  lemma EntriesStep(labels: seq<string>, counted: seq<Pair>, k: nat, ts: seq<Pair>, a: nat, b: nat)
    requires Unique(labels) && k < |counted| && a < |labels| && b < |labels|
    requires counted[k] == (labels[a], labels[b])
    requires forall m :: 0 <= m < k ==> counted[m] != counted[k]
    ensures forall i: nat, j: nat :: i < |labels| && j < |labels| && (i != a || j != b) ==>
      Entry(labels, counted, k + 1, ts, i, j) == Entry(labels, counted, k, ts, i, j)
    ensures Entry(labels, counted, k + 1, ts, a, b) == Occurrences(ts, counted[k])
  {
    forall i: nat, j: nat | i < |labels| && j < |labels| && (i != a || j != b)
      ensures Entry(labels, counted, k + 1, ts, i, j) == Entry(labels, counted, k, ts, i, j)
    {
      EntryStep(labels, counted, k, ts, a, b, i, j);
    }
    EntryStep(labels, counted, k, ts, a, b, a, b);
  }

  /** Once every counted pair is written, each entry is the count of its pair. */
  lemma EntriesComplete(labels: seq<string>, ts: seq<Pair>, i: nat, j: nat)
    requires i < |labels| && j < |labels|
    ensures Entry(labels, Order.Distinct(ts), |Order.Distinct(ts)|, ts, i, j) == Occurrences(ts, (labels[i], labels[j]))
  {
    var counted := Order.Distinct(ts);
    assert counted[..|counted|] == counted;
    var p := (labels[i], labels[j]);
    if p in ts {
      var k :| 0 <= k < |ts| && ts[k] == p;
      assert ts[k] in counted;
    }
  }

  /**
   * The interaction matrix: rows and columns are the sorted distinct
   * speakers; the entry of a row and a column is the number of times the
   * column's speaker spoke right after the row's speaker.
   */
  method InteractionMatrix(speakers: seq<string>) returns (labels: seq<string>, matrix: array2<nat>)
    ensures labels == Order.SortedDistinct(speakers)
    ensures fresh(matrix) && matrix.Length0 == |labels| && matrix.Length1 == |labels|
    ensures forall i, j :: 0 <= i < |labels| && 0 <= j < |labels| ==>
      matrix[i, j] == Occurrences(Pairs(speakers), (labels[i], labels[j]))
  {
    var transitions := Transitions(speakers);
    var counted := Order.Distinct(transitions);
    labels := Order.SortedDistinct(speakers);
    SortedLabelsDistinct(labels);
    PairsFromSpeakers(speakers);
    var n := |labels|;
    matrix := new nat[n, n]((i, j) => 0);
    FillCounts(matrix, labels, counted, transitions);
    forall i, j | 0 <= i < n && 0 <= j < n
      ensures Entry(labels, counted, |counted|, transitions, i, j) == Occurrences(transitions, (labels[i], labels[j]))
    {
      EntriesComplete(labels, transitions, i, j);
    }
  }

  /** Writes the count of each pair of `counted`, row and column looked up among the labels. */
  method FillCounts(matrix: array2<nat>, labels: seq<string>, counted: seq<Pair>, ts: seq<Pair>)
    requires matrix.Length0 == |labels| && matrix.Length1 == |labels| && Unique(labels)
    requires forall m :: 0 <= m < |counted| ==> counted[m].0 in labels && counted[m].1 in labels
    requires forall m, m' :: 0 <= m < m' < |counted| ==> counted[m] != counted[m']
    requires forall i, j :: 0 <= i < |labels| && 0 <= j < |labels| ==> matrix[i, j] == 0
    modifies matrix
    ensures forall i, j :: 0 <= i < |labels| && 0 <= j < |labels| ==>
      matrix[i, j] == Entry(labels, counted, |counted|, ts, i, j)
  {
    var n := |labels|;
    for k := 0 to |counted|
      invariant forall i, j :: 0 <= i < n && 0 <= j < n ==> matrix[i, j] == Entry(labels, counted, k, ts, i, j)
    {
      var (s1, s2) := counted[k];
      var a := IndexOf(labels, s1);
      var b := IndexOf(labels, s2);
      EntriesStep(labels, counted, k, ts, a, b);
      matrix[a, b] := Occurrences(ts, (s1, s2));
    }
  }

  /** A value held once by pairwise different labels is counted once. */
  lemma {:induction false} CountDistinct(xs: seq<string>, x: string)
    requires Unique(xs)
    ensures Occurrences(xs, x) == if x in xs then 1 else 0
    decreases |xs|
  {
    if xs != [] {
      var init := xs[..|xs| - 1];
      CountDistinct(init, x);
      assert xs == init + [xs[|xs| - 1]];
      if xs[|xs| - 1] == x {
        assert forall m :: 0 <= m < |init| ==> init[m] == xs[m] != x;
      }
    }
  }

  /** The entries of the row of `a`, summed over the columns `cols`. */
  function RowTotal(a: string, cols: seq<string>, ts: seq<Pair>): nat
    decreases |cols|
  {
    if cols == [] then 0 else RowTotal(a, cols[..|cols| - 1], ts) + Occurrences(ts, (a, cols[|cols| - 1]))
  }

  /** All entries of the matrix over rows `rows` and columns `cols`, summed. */
  function Total(rows: seq<string>, cols: seq<string>, ts: seq<Pair>): nat
    decreases |rows|
  {
    if rows == [] then 0 else Total(rows[..|rows| - 1], cols, ts) + RowTotal(rows[|rows| - 1], cols, ts)
  }

  /** The entries of the diagonal over `labels`, summed. */
  function Diagonal(labels: seq<string>, ts: seq<Pair>): nat
    decreases |labels|
  {
    if labels == [] then 0
    else Diagonal(labels[..|labels| - 1], ts) + Occurrences(ts, (labels[|labels| - 1], labels[|labels| - 1]))
  }

  /** How many transitions go from a speaker to the same speaker. */
  function SelfTransitions(ts: seq<Pair>): (r: nat)
    ensures r <= |ts|
    decreases |ts|
  {
    if ts == [] then 0 else SelfTransitions(ts[..|ts| - 1]) + if ts[|ts| - 1].0 == ts[|ts| - 1].1 then 1 else 0
  }

  lemma {:induction false} RowTotalStep(a: string, cols: seq<string>, ts: seq<Pair>, t: Pair)
    ensures RowTotal(a, cols, ts + [t]) == RowTotal(a, cols, ts) + if t.0 == a then Occurrences(cols, t.1) else 0
    decreases |cols|
  {
    if cols != [] {
      RowTotalStep(a, cols[..|cols| - 1], ts, t);
      OccurrencesStep(ts, t, (a, cols[|cols| - 1]));
    }
  }

  /** With pairwise different labels, one more transition adds one to the total exactly when both its speakers are labels. */
  lemma {:induction false} TotalStep(rows: seq<string>, cols: seq<string>, ts: seq<Pair>, t: Pair)
    requires Unique(rows) && Unique(cols)
    ensures Total(rows, cols, ts + [t]) == Total(rows, cols, ts) + if t.0 in rows && t.1 in cols then 1 else 0
    decreases |rows|
  {
    if rows != [] {
      var init, last := rows[..|rows| - 1], rows[|rows| - 1];
      assert rows == init + [last];
      assert Unique(init) by {
        forall i, j | 0 <= i < |init| && 0 <= j < |init| && i != j ensures init[i] != init[j] {
          assert init[i] == rows[i] && init[j] == rows[j];
        }
      }
      TotalStep(init, cols, ts, t);
      RowTotalStep(last, cols, ts, t);
      CountDistinct(cols, t.1);
      if t.0 == last {
        assert forall m :: 0 <= m < |init| ==> init[m] == rows[m] != last;
      }
    }
  }

  lemma {:induction false} DiagonalStep(labels: seq<string>, ts: seq<Pair>, t: Pair)
    ensures Diagonal(labels, ts + [t]) == Diagonal(labels, ts) + if t.0 == t.1 then Occurrences(labels, t.0) else 0
    decreases |labels|
  {
    if labels != [] {
      DiagonalStep(labels[..|labels| - 1], ts, t);
      var x := labels[|labels| - 1];
      OccurrencesStep(ts, t, (x, x));
    }
  }

  /**
   * Over pairwise different labels that include every speaker of the
   * transitions, the matrix entries add up to the number of transitions
   * and the diagonal adds up to the number of self-transitions.
   */
  lemma {:induction false} MatrixSums(labels: seq<string>, ts: seq<Pair>)
    requires Unique(labels)
    requires forall k :: 0 <= k < |ts| ==> ts[k].0 in labels && ts[k].1 in labels
    ensures Total(labels, labels, ts) == |ts|
    ensures Diagonal(labels, ts) == SelfTransitions(ts)
    decreases |ts|
  {
    if ts == [] {
      ZeroTotals(labels, labels);
    } else {
      var init := ts[..|ts| - 1];
      var t := ts[|ts| - 1];
      assert ts == init + [t];
      MatrixSums(labels, init);
      TotalStep(labels, labels, init, t);
      DiagonalStep(labels, init, t);
      CountDistinct(labels, t.0);
    }
  }

  lemma {:induction false} ZeroTotals(rows: seq<string>, cols: seq<string>)
    ensures Total(rows, cols, []) == 0 && Diagonal(rows, []) == 0
    decreases |rows|
  {
    if rows != [] {
      ZeroTotals(rows[..|rows| - 1], cols);
      ZeroRow(rows[|rows| - 1], cols);
    }
  }

  lemma {:induction false} ZeroRow(a: string, cols: seq<string>)
    ensures RowTotal(a, cols, []) == 0
    decreases |cols|
  {
    if cols != [] {
      ZeroRow(a, cols[..|cols| - 1]);
    }
  }

  /**
   * The matrix of a meeting with L rows holds max(0, L - 1) transitions in
   * all, and exactly its self-transitions on the diagonal.
   */
  lemma MeetingMatrixSums(speakers: seq<string>)
    ensures Total(Order.SortedDistinct(speakers), Order.SortedDistinct(speakers), Pairs(speakers)) ==
      if speakers == [] then 0 else |speakers| - 1
    ensures Diagonal(Order.SortedDistinct(speakers), Pairs(speakers)) == SelfTransitions(Pairs(speakers))
  {
    var labels := Order.SortedDistinct(speakers);
    SortedLabelsDistinct(labels);
    PairsFromSpeakers(speakers);
    MatrixSums(labels, Pairs(speakers));
  }

  // ---------------------------------------------------------------------
  // Segments
  // ---------------------------------------------------------------------

  const SegmentCount: nat := 5

  /** Where segment `i` of `n` rows starts: `i * n // 5`. */
  function SegmentStart(i: nat, n: nat): nat
  {
    i * n / SegmentCount
  }

  /** `i * n // 5` through the quotient and remainder of `n`. */
  lemma StartByParts(i: nat, n: nat)
    requires i <= SegmentCount
    ensures SegmentStart(i, n) == i * (n / 5) + (i * (n % 5)) / 5
  {
    var q, r := n / 5, n % 5;
    assert n == 5 * q + r;
    assert i * n == 5 * (i * q) + i * r;
  }

  /**
   * The five segments start at 0, end at `n`, follow each other, and each
   * holds `n // 5` or `n // 5 + 1` rows.
   */
  lemma SegmentBounds(n: nat)
    ensures SegmentStart(0, n) == 0 && SegmentStart(SegmentCount, n) == n
    ensures forall i :: 0 <= i < SegmentCount ==>
      n / 5 <= SegmentStart(i + 1, n) - SegmentStart(i, n) <= n / 5 + 1
  {
    var q, r := n / 5, n % 5;
    forall i | 0 <= i < SegmentCount
      ensures n / 5 <= SegmentStart(i + 1, n) - SegmentStart(i, n) <= n / 5 + 1
    {
      StartByParts(i, n);
      StartByParts(i + 1, n);
      assert 0 <= r < 5;
      assert (i + 1) * r == i * r + r;
    }
    StartByParts(SegmentCount, n);
  }

  /** Any two segments differ in size by at most one row. */
  lemma SegmentsBalanced(n: nat, i: nat, j: nat)
    requires i < SegmentCount && j < SegmentCount
    ensures SegmentStart(i + 1, n) - SegmentStart(i, n) <= SegmentStart(j + 1, n) - SegmentStart(j, n) + 1
  {
    SegmentBounds(n);
  }

  /** Segment `i` of `rows`. */
  function Segment<T>(rows: seq<T>, i: nat): seq<T>
    requires i < SegmentCount
  {
    SegmentBounds(|rows|);
    Monotone(|rows|, i);
    rows[SegmentStart(i, |rows|)..SegmentStart(i + 1, |rows|)]
  }

  lemma Monotone(n: nat, i: nat)
    requires i < SegmentCount
    ensures SegmentStart(i, n) <= SegmentStart(i + 1, n) <= n
    decreases SegmentCount - i
  {
    SegmentBounds(n);
    if i + 1 < SegmentCount {
      Monotone(n, i + 1);
    }
  }

  /** The first `k` segments, one after another. */
  function SegmentsUpTo<T>(rows: seq<T>, k: nat): seq<T>
    requires k <= SegmentCount
  {
    if k == 0 then [] else SegmentsUpTo(rows, k - 1) + Segment(rows, k - 1)
  }

  /** The segments together are the rows, each row once and in order. */
  lemma {:induction false} SegmentsCover<T>(rows: seq<T>, k: nat)
    requires k <= SegmentCount
    ensures SegmentsUpTo(rows, k) == rows[..SegmentStart(k, |rows|)]
  {
    if k == 0 {
      assert SegmentStart(0, |rows|) == 0;
    } else {
      SegmentsCover(rows, k - 1);
      Monotone(|rows|, k - 1);
      PrefixJoin(rows, SegmentStart(k - 1, |rows|), SegmentStart(k, |rows|));
    }
  }

  lemma AllSegmentsCover<T>(rows: seq<T>)
    ensures SegmentsUpTo(rows, SegmentCount) == rows
  {
    SegmentsCover(rows, SegmentCount);
    SegmentBounds(|rows|);
  }

  // ---------------------------------------------------------------------
  // Keywords of a segment
  // ---------------------------------------------------------------------

  /** Word frequencies never increase along `ws`. */
  predicate ByFrequency(ws: seq<string>, tokens: seq<string>)
  {
    forall i, j :: 0 <= i < j < |ws| ==> Occurrences(tokens, ws[i]) >= Occurrences(tokens, ws[j])
  }

  /** `w` placed before the first word no more frequent than it, so that ties keep their order. */
  function InsertByFrequency(w: string, ws: seq<string>, tokens: seq<string>): (r: seq<string>)
    requires ByFrequency(ws, tokens)
    ensures ByFrequency(r, tokens)
    ensures multiset(r) == multiset(ws) + multiset{w}
    decreases |ws|
  {
    if ws == [] || Occurrences(tokens, ws[0]) <= Occurrences(tokens, w) then
      HeadBound(w, ws, tokens);
      ConsByFrequency(w, ws, tokens);
      [w] + ws
    else
      var rest := InsertByFrequency(w, ws[1..], tokens);
      HeadDominates(w, ws, rest, tokens);
      ConsByFrequency(ws[0], rest, tokens);
      HeadTail(ws);
      [ws[0]] + rest
  }

  /** A word at least as frequent as every word of a list may go in front of it. */
  lemma ConsByFrequency(w: string, ws: seq<string>, tokens: seq<string>)
    requires ByFrequency(ws, tokens)
    requires forall j :: 0 <= j < |ws| ==> Occurrences(tokens, w) >= Occurrences(tokens, ws[j])
    ensures ByFrequency([w] + ws, tokens)
  {
    var r := [w] + ws;
    forall i, j | 0 <= i < j < |r| ensures Occurrences(tokens, r[i]) >= Occurrences(tokens, r[j]) {
      assert r[j] == ws[j - 1];
      if i > 0 {
        assert r[i] == ws[i - 1];
      }
    }
  }

  /** A word at least as frequent as the head of a list is at least as frequent as all of it. */
  lemma HeadBound(w: string, ws: seq<string>, tokens: seq<string>)
    requires ByFrequency(ws, tokens)
    requires ws == [] || Occurrences(tokens, ws[0]) <= Occurrences(tokens, w)
    ensures forall j :: 0 <= j < |ws| ==> Occurrences(tokens, w) >= Occurrences(tokens, ws[j])
  {
  }

  /** A non-empty sequence is its head followed by its tail. */
  lemma HeadTail(ws: seq<string>)
    requires ws != []
    ensures ws == [ws[0]] + ws[1..]
  {
  }

  /** A head more frequent than `w` is at least as frequent as every word of its tail with `w` added. */
  lemma HeadDominates(w: string, ws: seq<string>, rest: seq<string>, tokens: seq<string>)
    requires ByFrequency(ws, tokens) && ws != [] && Occurrences(tokens, ws[0]) > Occurrences(tokens, w)
    requires multiset(rest) == multiset(ws[1..]) + multiset{w}
    ensures forall k :: 0 <= k < |rest| ==> Occurrences(tokens, ws[0]) >= Occurrences(tokens, rest[k])
  {
    forall k | 0 <= k < |rest| ensures Occurrences(tokens, ws[0]) >= Occurrences(tokens, rest[k]) {
      assert rest[k] in multiset(rest);
      if rest[k] != w {
        assert rest[k] in multiset(ws[1..]);
        var m :| 0 <= m < |ws[1..]| && ws[1..][m] == rest[k];
        assert ws[m + 1] == rest[k];
      }
    }
  }

  /** A stable sort by decreasing frequency. */
  function SortByFrequency(ws: seq<string>, tokens: seq<string>): (r: seq<string>)
    ensures ByFrequency(r, tokens)
    ensures multiset(r) == multiset(ws)
  {
    if ws == [] then []
    else
      assert ws == [ws[0]] + ws[1..];
      InsertByFrequency(ws[0], SortByFrequency(ws[1..], tokens), tokens)
  }

  /** A rearrangement of the distinct tokens holds each token once and nothing else. */
  lemma SortedWords(tokens: seq<string>, sorted: seq<string>)
    requires multiset(sorted) == multiset(Order.Distinct(tokens))
    ensures |sorted| == |Order.Distinct(tokens)|
    ensures forall i :: 0 <= i < |sorted| ==> sorted[i] in tokens
    ensures forall i, j :: 0 <= i < j < |sorted| ==> sorted[i] != sorted[j]
  {
    var d := Order.Distinct(tokens);
    assert |sorted| == |multiset(sorted)| == |multiset(d)| == |d|;
    forall i | 0 <= i < |sorted| ensures sorted[i] in tokens {
      assert sorted[i] in multiset(d);
    }
    forall i, j | 0 <= i < j < |sorted| ensures sorted[i] != sorted[j] {
      Order.DistinctCountOne(d, sorted[j]);
      Order.OnceMeansDistinct(sorted, i, j);
    }
  }

  /**
   * `Counter(tokens).most_common(k)`, words only: the distinct tokens in
   * first-occurrence order, sorted by decreasing frequency, the first `k`.
   */
  function MostCommon(tokens: seq<string>, k: nat): (r: seq<string>)
    ensures |r| <= k
    ensures |r| == if |Order.Distinct(tokens)| < k then |Order.Distinct(tokens)| else k
    ensures forall i :: 0 <= i < |r| ==> r[i] in tokens
    ensures forall i, j :: 0 <= i < j < |r| ==> r[i] != r[j]
    ensures ByFrequency(r, tokens)
    ensures forall w, i :: w in tokens && w !in r && 0 <= i < |r| ==> Occurrences(tokens, w) <= Occurrences(tokens, r[i])
  {
    var sorted := SortByFrequency(Order.Distinct(tokens), tokens);
    SortedWords(tokens, sorted);
    var r := Take(sorted, k);
    KeptAreCommonest(tokens, sorted, r);
    r
  }

  /** Every token cut off from the front of the frequency-sorted words is no more frequent than any word kept. */
  lemma KeptAreCommonest(tokens: seq<string>, sorted: seq<string>, r: seq<string>)
    requires multiset(sorted) == multiset(Order.Distinct(tokens)) && ByFrequency(sorted, tokens)
    requires |r| <= |sorted| && r == sorted[..|r|]
    ensures forall w, i :: w in tokens && w !in r && 0 <= i < |r| ==> Occurrences(tokens, w) <= Occurrences(tokens, r[i])
  {
    forall w, i | w in tokens && w !in r && 0 <= i < |r| ensures Occurrences(tokens, w) <= Occurrences(tokens, r[i]) {
      LeftOutIsRarer(tokens, sorted, r, w, i);
    }
  }

  /** A token cut off from the front of the frequency-sorted words is no more frequent than any word kept. */
  lemma LeftOutIsRarer(tokens: seq<string>, sorted: seq<string>, r: seq<string>, w: string, i: nat)
    requires multiset(sorted) == multiset(Order.Distinct(tokens)) && ByFrequency(sorted, tokens)
    requires |r| <= |sorted| && r == sorted[..|r|]
    requires w in tokens && w !in r && i < |r|
    ensures Occurrences(tokens, w) <= Occurrences(tokens, r[i])
  {
    var m := PositionIn(tokens, sorted, w);
    PastPrefix(sorted, r, w, m);
    assert sorted[i] == r[i];
    assert Occurrences(tokens, sorted[i]) >= Occurrences(tokens, sorted[m]);
  }

  /** A value missing from a prefix sits past it. */
  lemma PastPrefix(s: seq<string>, r: seq<string>, w: string, m: nat)
    requires |r| <= |s| && r == s[..|r|] && w !in r
    requires m < |s| && s[m] == w
    ensures |r| <= m
  {
    assert forall t :: 0 <= t < |r| ==> s[t] == r[t] && r[t] in r;
  }

  /** Each token has a place among the rearranged distinct tokens. */
  lemma PositionIn(tokens: seq<string>, sorted: seq<string>, w: string) returns (m: nat)
    requires multiset(sorted) == multiset(Order.Distinct(tokens))
    requires w in tokens
    ensures m < |sorted| && sorted[m] == w
  {
    var d := Order.Distinct(tokens);
    var j :| 0 <= j < |tokens| && tokens[j] == w;
    assert w in d;
    assert w in multiset(sorted);
    m :| 0 <= m < |sorted| && sorted[m] == w;
  }

  /** The texts present in `texts` (`dropna`), in order. */
  function Present(texts: seq<Option<string>>): (r: seq<string>)
    ensures |r| <= |texts|
    decreases |texts|
  {
    if texts == [] then []
    else
      var rest := Present(texts[1..]);
      match texts[0]
      case Some(t) => [t] + rest
      case None => rest
  }

  /**
   * The keyword row of segment `i`: its label and its at most five most
   * frequent kept tokens, joined by commas. `tokenize` stands for
   * lower-casing and tokenising the segment's text.
   */
  function SegmentRow(texts: seq<Option<string>>, tokenize: string -> seq<string>, stopWords: set<string>, i: nat): (r: (string, string))
    requires i < SegmentCount
  {
    var tokens := TextStatistics.FilterTokens(tokenize(Join(" ", Present(Segment(texts, i)))), stopWords);
    (SegmentLabel(i), Join(", ", MostCommon(tokens, 5)))
  }

  /** `f"Segmento {i+1}"` for the five segments. */
  function SegmentLabel(i: nat): string
    requires i < SegmentCount
  {
    "Segmento " + [(('1' as int) + i) as char]
  }

  /** The keyword table, one row appended per segment. */
  method SegmentKeywords(texts: seq<Option<string>>, tokenize: string -> seq<string>, stopWords: set<string>)
    returns (rows: seq<(string, string)>)
    ensures |rows| == SegmentCount
    ensures forall i :: 0 <= i < SegmentCount ==> rows[i] == SegmentRow(texts, tokenize, stopWords, i)
  {
    rows := [];
    for i := 0 to SegmentCount
      invariant |rows| == i
      invariant forall k :: 0 <= k < i ==> rows[k] == SegmentRow(texts, tokenize, stopWords, k)
    {
      rows := rows + [SegmentRow(texts, tokenize, stopWords, i)];
    }
  }
}
