/**
 * The data-analysis page (paginas/analise_dados.py): the spreadsheet
 * selector, the check for the five expected columns, the headline
 * metrics, the words-per-minute rate, the split of the meeting into
 * beginning, middle and end, and the per-speaker summary.
 *
 * A sheet is a sequence of rows; pandas' float64 columns are exact reals,
 * and the one place where float64 matters (a division by a zero duration)
 * is modelled with its infinities and NaN.
 */
module SpeechAnalysis {
  import opened Wrappers
  import opened Text
  import Order
  import FilenameCodec
  import Interactions

  /** One row of the first sheet, in the expected format. */
  datatype Row = Row(speaker: string, start: real, end: real, duration: real, words: int)

  // ---------------------------------------------------------------------
  // Selector
  // ---------------------------------------------------------------------

  /** The `.xlsx` files in ascending order, each shown without its `excel_` prefix. */
  function SpreadsheetMenu(listing: seq<string>): (r: seq<(string, string)>)
    ensures Order.Sorted(seq(|r|, i requires 0 <= i < |r| => r[i].0))
    ensures multiset(seq(|r|, i requires 0 <= i < |r| => r[i].0)) == multiset(FilenameCodec.FilesWithExtension(listing, ".xlsx"))
    ensures forall i :: 0 <= i < |r| ==> EndsWith(r[i].0, ".xlsx") && r[i].1 == FilenameCodec.StripPrefix("excel_", r[i].0)
  {
    var files := Order.Sort(FilenameCodec.FilesWithExtension(listing, ".xlsx"));
    forall i | 0 <= i < |files| ensures EndsWith(files[i], ".xlsx") {
      assert files[i] in multiset(files);
    }
    var r := seq(|files|, i requires 0 <= i < |files| => (files[i], FilenameCodec.StripPrefix("excel_", files[i])));
    assert seq(|r|, i requires 0 <= i < |r| => r[i].0) == files;
    r
  }

  // ---------------------------------------------------------------------
  // Expected columns
  // ---------------------------------------------------------------------

  const ExpectedColumns: seq<string> := ["locutor", "inicio", "fim", "duracao", "palavras"]

  const AvailablePrefix: string := "Colunas disponíveis: "

  /** The page either analyses the sheet or warns and lists the columns it has. */
  datatype Schema = Analyse | FormatWarning(available: string)

  function CheckColumns(columns: seq<string>): (r: Schema)
    ensures r == Analyse <==>
      "locutor" in columns && "inicio" in columns && "fim" in columns && "duracao" in columns && "palavras" in columns
    ensures r.FormatWarning? ==> r.available == AvailablePrefix + Join(", ", columns)
  {
    if forall c :: c in ExpectedColumns ==> c in columns then Analyse
    else FormatWarning(AvailablePrefix + Join(", ", columns))
  }

  /** A sheet lacking any one of the five columns is not analysed. */
  lemma MissingColumnWarns(columns: seq<string>, i: nat)
    requires i < |ExpectedColumns| && ExpectedColumns[i] !in columns
    ensures CheckColumns(columns).FormatWarning?
  {
    assert ExpectedColumns[i] in ExpectedColumns;
  }

  /** Extra columns, in any position, do not stop the analysis. */
  lemma ExtraColumnsAnalysed(columns: seq<string>, before: seq<string>, after: seq<string>)
    requires CheckColumns(columns) == Analyse
    ensures CheckColumns(before + columns + after) == Analyse
  {
    forall c | c in ExpectedColumns ensures c in before + columns + after {
      assert c in columns;
    }
  }

  // ---------------------------------------------------------------------
  // Headline metrics
  // ---------------------------------------------------------------------

  function Speakers(rows: seq<Row>): (r: seq<string>)
    ensures |r| == |rows| && forall i :: 0 <= i < |rows| ==> r[i] == rows[i].speaker
  {
    seq(|rows|, i requires 0 <= i < |rows| => rows[i].speaker)
  }

  /** `df['locutor'].nunique()`: no more participants than rows, and at least one when there are rows. */
  function Participants(rows: seq<Row>): (n: nat)
    ensures n <= |rows|
    ensures n == 0 <==> rows == []
  {
    var d := Order.SortedDistinct(Speakers(rows));
    assert rows != [] ==> Speakers(rows)[0] in d;
    |d|
  }

  /** `df[column].sum()` for a column given by its reading of a row. */
  function ColumnTotal(rows: seq<Row>, value: Row -> real): real
    decreases |rows|
  {
    if rows == [] then 0.0 else ColumnTotal(rows[..|rows| - 1], value) + value(rows[|rows| - 1])
  }

  function Duration(row: Row): real { row.duration }

  function Words(row: Row): real { row.words as real }

  // ---------------------------------------------------------------------
  // Per-speaker aggregates
  // ---------------------------------------------------------------------

  /** `df.groupby('locutor')[column].sum()` at one speaker. */
  function SpeakerTotal(rows: seq<Row>, speaker: string, value: Row -> real): real
    decreases |rows|
  {
    if rows == [] then 0.0
    else SpeakerTotal(rows[..|rows| - 1], speaker, value) + if rows[|rows| - 1].speaker == speaker then value(rows[|rows| - 1]) else 0.0
  }

  /** `df.groupby('locutor').size()` at one speaker. */
  function SpeakerCount(rows: seq<Row>, speaker: string): (n: nat)
    ensures n <= |rows|
    decreases |rows|
  {
    if rows == [] then 0
    else SpeakerCount(rows[..|rows| - 1], speaker) + if rows[|rows| - 1].speaker == speaker then 1 else 0
  }

  /** The per-speaker sums over the given labels, added up. */
  function TotalOver(labels: seq<string>, rows: seq<Row>, value: Row -> real): real
    decreases |labels|
  {
    if labels == [] then 0.0
    else TotalOver(labels[..|labels| - 1], rows, value) + SpeakerTotal(rows, labels[|labels| - 1], value)
  }

  /** The per-speaker counts over the given labels, added up. */
  function CountOver(labels: seq<string>, rows: seq<Row>): nat
    decreases |labels|
  {
    if labels == [] then 0 else CountOver(labels[..|labels| - 1], rows) + SpeakerCount(rows, labels[|labels| - 1])
  }

  lemma SnocInit<T>(xs: seq<T>, x: T)
    ensures (xs + [x])[..|xs|] == xs && (xs + [x])[|xs|] == x
  {
  }

  lemma {:induction false} TotalOverStep(labels: seq<string>, rows: seq<Row>, row: Row, value: Row -> real)
    requires Interactions.Unique(labels)
    ensures TotalOver(labels, rows + [row], value) == TotalOver(labels, rows, value) + if row.speaker in labels then value(row) else 0.0
    decreases |labels|
  {
    if labels != [] {
      var init := labels[..|labels| - 1];
      UniqueInit(labels);
      TotalOverStep(init, rows, row, value);
      SnocInit(rows, row);
      LastOnce(labels, row.speaker);
    }
  }

  lemma {:induction false} CountOverStep(labels: seq<string>, rows: seq<Row>, row: Row)
    requires Interactions.Unique(labels)
    ensures CountOver(labels, rows + [row]) == CountOver(labels, rows) + if row.speaker in labels then 1 else 0
    decreases |labels|
  {
    if labels != [] {
      var init := labels[..|labels| - 1];
      UniqueInit(labels);
      CountOverStep(init, rows, row);
      SnocInit(rows, row);
      LastOnce(labels, row.speaker);
    }
  }

  lemma UniqueInit(labels: seq<string>)
    requires labels != [] && Interactions.Unique(labels)
    ensures Interactions.Unique(labels[..|labels| - 1])
  {
    var init := labels[..|labels| - 1];
    forall i, j | 0 <= i < |init| && 0 <= j < |init| && i != j ensures init[i] != init[j] {
      assert init[i] == labels[i] && init[j] == labels[j];
    }
  }

  /** A label held by the last of pairwise different labels is not held by the others. */
  lemma LastOnce(labels: seq<string>, x: string)
    requires labels != [] && Interactions.Unique(labels)
    ensures x in labels <==> x in labels[..|labels| - 1] || x == labels[|labels| - 1]
    ensures x == labels[|labels| - 1] ==> x !in labels[..|labels| - 1]
  {
    var init := labels[..|labels| - 1];
    assert labels == init + [labels[|labels| - 1]];
    if x == labels[|labels| - 1] {
      assert forall m :: 0 <= m < |init| ==> init[m] == labels[m] != x;
    }
  }

  lemma {:induction false} ZeroOver(labels: seq<string>, value: Row -> real)
    ensures TotalOver(labels, [], value) == 0.0 && CountOver(labels, []) == 0
    decreases |labels|
  {
    if labels != [] {
      ZeroOver(labels[..|labels| - 1], value);
    }
  }

  /**
   * Over pairwise different labels that include every row's speaker, the
   * per-speaker sums add up to the column total and the per-speaker
   * counts add up to the number of rows.
   */
  lemma {:induction false} GroupsAddUp(labels: seq<string>, rows: seq<Row>, value: Row -> real)
    requires Interactions.Unique(labels)
    requires forall i :: 0 <= i < |rows| ==> rows[i].speaker in labels
    ensures TotalOver(labels, rows, value) == ColumnTotal(rows, value)
    ensures CountOver(labels, rows) == |rows|
    decreases |rows|
  {
    if rows == [] {
      ZeroOver(labels, value);
    } else {
      var init := rows[..|rows| - 1];
      var last := rows[|rows| - 1];
      assert rows == init + [last];
      assert forall i :: 0 <= i < |init| ==> init[i] == rows[i];
      GroupsAddUp(labels, init, value);
      TotalOverStep(labels, init, last, value);
      CountOverStep(labels, init, last);
    }
  }

  /** The speakers of a sheet as `groupby` lists them: distinct, in ascending order. */
  function SpeakerLabels(rows: seq<Row>): (labels: seq<string>)
    ensures Interactions.Unique(labels)
    ensures forall i :: 0 <= i < |rows| ==> rows[i].speaker in labels
    ensures |labels| == Participants(rows)
  {
    var labels := Order.SortedDistinct(Speakers(rows));
    Interactions.SortedLabelsDistinct(labels);
    assert forall i :: 0 <= i < |rows| ==> Speakers(rows)[i] in Speakers(rows);
    labels
  }

  /**
   * The per-participant summary (and the speaking-time chart): the
   * per-speaker durations add up to the total duration, the words to the
   * total words, and the utterance counts to the number of rows.
   */
  lemma SummaryAddsUp(rows: seq<Row>)
    ensures TotalOver(SpeakerLabels(rows), rows, Duration) == ColumnTotal(rows, Duration)
    ensures TotalOver(SpeakerLabels(rows), rows, Words) == ColumnTotal(rows, Words)
    ensures CountOver(SpeakerLabels(rows), rows) == |rows|
  {
    GroupsAddUp(SpeakerLabels(rows), rows, Duration);
    GroupsAddUp(SpeakerLabels(rows), rows, Words);
  }

  /** One line of the summary table: utterances, words (sum, mean) and duration (sum, mean). */
  datatype Summary = Summary(utterances: nat, totalWords: real, meanWords: real, totalDuration: real, meanDuration: real)

  /** The summary line of a speaker of the sheet; a mean is the sum over the speaker's utterances. */
  function SummaryOf(rows: seq<Row>, speaker: string): (s: Summary)
    requires speaker in Speakers(rows)
    ensures s.utterances >= 1
    ensures s.meanWords * s.utterances as real == s.totalWords
    ensures s.meanDuration * s.utterances as real == s.totalDuration
  {
    SpeakerPresent(rows, speaker);
    var n := SpeakerCount(rows, speaker);
    MeanTimes(SpeakerTotal(rows, speaker, Words), n as real);
    MeanTimes(SpeakerTotal(rows, speaker, Duration), n as real);
    Summary(n, SpeakerTotal(rows, speaker, Words), SpeakerTotal(rows, speaker, Words) / n as real,
      SpeakerTotal(rows, speaker, Duration), SpeakerTotal(rows, speaker, Duration) / n as real)
  }

  lemma MeanTimes(t: real, c: real)
    requires c >= 1.0
    ensures t / c * c == t
  {
  }

  lemma {:induction false} SpeakerPresent(rows: seq<Row>, speaker: string)
    requires speaker in Speakers(rows)
    ensures SpeakerCount(rows, speaker) >= 1
    decreases |rows|
  {
    var init := rows[..|rows| - 1];
    if rows[|rows| - 1].speaker != speaker {
      var i :| 0 <= i < |rows| && Speakers(rows)[i] == speaker;
      assert Speakers(init)[i] == speaker;
      SpeakerPresent(init, speaker);
    }
  }

  // ---------------------------------------------------------------------
  // Words per minute
  // ---------------------------------------------------------------------

  /** A float64 value as far as the rate needs it. */
  datatype Float = Finite(x: real) | PosInf | NegInf | NaN

  /** IEEE division of finite values: by zero it is an infinity of the dividend's sign, or NaN for `0/0`. */
  function Quotient(a: real, b: real): (f: Float)
    ensures b != 0.0 ==> f == Finite(a / b)
    ensures b == 0.0 ==> (f == PosInf <==> a > 0.0) && (f == NegInf <==> a < 0.0) && (f == NaN <==> a == 0.0)
  {
    if b != 0.0 then Finite(a / b) else if a > 0.0 then PosInf else if a < 0.0 then NegInf else NaN
  }

  /** Multiplication by a positive constant. */
  function Scale(f: Float, c: real): Float
    requires c > 0.0
  {
    match f
    case Finite(x) => Finite(x * c)
    case _ => f
  }

  /** `fillna(v)`. */
  function FillNa(f: Float, v: real): (g: Float)
    ensures !g.NaN?
    ensures !f.NaN? ==> g == f
  {
    if f.NaN? then Finite(v) else f
  }

  /** `clip(lo, hi)` of a value that is not NaN. */
  function Clip(f: Float, lo: real, hi: real): (r: real)
    requires lo <= hi && !f.NaN?
    ensures lo <= r <= hi
    ensures f.Finite? && lo <= f.x <= hi ==> r == f.x
    ensures f.PosInf? || (f.Finite? && f.x > hi) ==> r == hi
    ensures f.NegInf? || (f.Finite? && f.x < lo) ==> r == lo
  {
    match f
    case Finite(x) => if x < lo then lo else if x > hi then hi else x
    case PosInf => hi
    case NegInf => lo
  }

  const MaxWpm: real := 500.0

  /** What `df['wpm']` holds after line 166. */
  function RawRate(row: Row): Float
  {
    Scale(Quotient(row.words as real, row.duration), 60.0)
  }

  /** The rate kept for a row: the raw rate with NaN replaced by 0 and then clipped. */
  function Wpm(row: Row): (r: real)
    ensures 0.0 <= r <= MaxWpm
  {
    Clip(FillNa(RawRate(row), 0.0), 0.0, MaxWpm)
  }

  /** With a duration, the rate is words per minute, cut to the range 0 to 500. */
  lemma WpmWithDuration(row: Row)
    requires row.duration != 0.0
    ensures 0.0 <= row.words as real / row.duration * 60.0 <= MaxWpm ==> Wpm(row) == row.words as real / row.duration * 60.0
    ensures row.words as real / row.duration * 60.0 > MaxWpm ==> Wpm(row) == MaxWpm
    ensures row.words as real / row.duration * 60.0 < 0.0 ==> Wpm(row) == 0.0
  {
  }

  /** With no duration, words make the infinite rate that is cut to 500, and no words make NaN, filled with 0. */
  lemma WpmWithoutDuration(row: Row)
    requires row.duration == 0.0
    ensures row.words > 0 ==> Wpm(row) == MaxWpm
    ensures row.words <= 0 ==> Wpm(row) == 0.0
  {
  }

  /** `df['wpm']` after both assignments, one value per row. */
  method AddWpm(rows: seq<Row>) returns (wpm: seq<real>)
    ensures |wpm| == |rows|
    ensures forall i :: 0 <= i < |rows| ==> wpm[i] == Wpm(rows[i])
    ensures forall i :: 0 <= i < |rows| ==> 0.0 <= wpm[i] <= MaxWpm
  {
    var raw := seq(|rows|, i requires 0 <= i < |rows| => RawRate(rows[i]));
    wpm := seq(|raw|, i requires 0 <= i < |raw| => Clip(FillNa(raw[i], 0.0), 0.0, MaxWpm));
  }

  /** `df.groupby('locutor')['wpm'].mean()` at a speaker of the sheet: like every rate, between 0 and 500. */
  function MeanWpm(rows: seq<Row>, speaker: string): (r: real)
    requires speaker in Speakers(rows)
    ensures 0.0 <= r <= MaxWpm
  {
    SpeakerPresent(rows, speaker);
    SpeakerTotalBounds(rows, speaker, Wpm);
    MeanBound(SpeakerTotal(rows, speaker, Wpm), SpeakerCount(rows, speaker) as real);
    SpeakerTotal(rows, speaker, Wpm) / SpeakerCount(rows, speaker) as real
  }

  lemma MeanBound(t: real, c: real)
    requires c >= 1.0 && 0.0 <= t <= 500.0 * c
    ensures 0.0 <= t / c <= 500.0
  {
    assert t / c * c == t;
  }

  /** A speaker's sum of rates lies between 0 and 500 times the speaker's count. */
  lemma {:induction false} SpeakerTotalBounds(rows: seq<Row>, speaker: string, value: Row -> real)
    requires forall i :: 0 <= i < |rows| ==> 0.0 <= value(rows[i]) <= 500.0
    ensures 0.0 <= SpeakerTotal(rows, speaker, value) <= 500.0 * SpeakerCount(rows, speaker) as real
    decreases |rows|
  {
    if rows != [] {
      var init := rows[..|rows| - 1];
      assert forall i :: 0 <= i < |init| ==> init[i] == rows[i];
      SpeakerTotalBounds(init, speaker, value);
    }
  }

  // ---------------------------------------------------------------------
  // Phases of the meeting
  // ---------------------------------------------------------------------

  datatype Phase = Beginning | Middle | End

  /** The label each phase is shown and grouped under. */
  function PhaseName(p: Phase): string
  {
    match p
    case Beginning => "Início"
    case Middle => "Meio"
    case End => "Fim"
  }

  /** The phases in time order. */
  function Rank(p: Phase): nat
  {
    match p
    case Beginning => 0
    case Middle => 1
    case End => 2
  }

  /** The largest start time. */
  function MaxStart(starts: seq<real>): (m: real)
    requires starts != []
    ensures m in starts
    ensures forall i :: 0 <= i < |starts| ==> starts[i] <= m
    decreases |starts|
  {
    if |starts| == 1 then starts[0]
    else
      var m := MaxStart(starts[1..]);
      assert forall i :: 1 <= i < |starts| ==> starts[i] == starts[1..][i - 1];
      if starts[0] > m then starts[0] else m
  }

  /**
   * The phase of a row: everything starts as the middle, the first third
   * (up to 0.33 of the last start) is overwritten as the beginning, and
   * then the last third (from 0.67) as the end, so the end wins.
   */
  function PhaseOf(start: real, maxTime: real): Phase
  {
    if start >= maxTime * 0.67 then End
    else if start <= maxTime * 0.33 then Beginning
    else Middle
  }

  /** A later start is never in an earlier phase, whatever the last start is. */
  lemma PhasesFollowTime(s1: real, s2: real, maxTime: real)
    requires s1 <= s2
    ensures Rank(PhaseOf(s1, maxTime)) <= Rank(PhaseOf(s2, maxTime))
  {
  }

  /** With a non-negative last start, the last row is in the end phase, and a row at time 0 in the beginning unless all rows start at 0. */
  lemma PhaseExtremes(maxTime: real)
    requires maxTime >= 0.0
    ensures PhaseOf(maxTime, maxTime) == End
    ensures maxTime > 0.0 ==> PhaseOf(0.0, maxTime) == Beginning
  {
  }

  /** When every row starts before 0, no row is in the middle and the last row is in the beginning. */
  lemma NegativeStarts(start: real, maxTime: real)
    requires maxTime < 0.0
    ensures PhaseOf(start, maxTime) != Middle
    ensures PhaseOf(maxTime, maxTime) == Beginning
  {
  }

  /** The three column assignments of lines 188-190, applied to the sorted rows' start times. */
  method AssignPhases(starts: seq<real>, maxTime: real) returns (phases: seq<Phase>)
    ensures |phases| == |starts|
    ensures forall i :: 0 <= i < |starts| ==> phases[i] == PhaseOf(starts[i], maxTime)
  {
    var fase := new Phase[|starts|](_ => Middle);
    for i := 0 to |starts|
      invariant forall k :: 0 <= k < i ==> fase[k] == if starts[k] <= maxTime * 0.33 then Beginning else Middle
      invariant forall k :: i <= k < |starts| ==> fase[k] == Middle
    {
      if starts[i] <= maxTime * 0.33 {
        fase[i] := Beginning;
      }
    }
    for i := 0 to |starts|
      invariant forall k :: 0 <= k < i ==> fase[k] == PhaseOf(starts[k], maxTime)
      invariant forall k :: i <= k < |starts| ==> fase[k] == if starts[k] <= maxTime * 0.33 then Beginning else Middle
    {
      if starts[i] >= maxTime * 0.67 {
        fase[i] := End;
      }
    }
    phases := fase[..];
  }

  /** `groupby(['fase', 'locutor']).size().unstack(fill_value=0)`: row and column labels, and the pairs counted. */
  datatype PhaseTable = PhaseTable(phases: seq<string>, speakers: seq<string>, entries: seq<Interactions.Pair>)

  /** The count in the table at a phase and a speaker. */
  function Cell(t: PhaseTable, phase: string, speaker: string): nat
  {
    Interactions.Occurrences(t.entries, (phase, speaker))
  }

  /**
   * Lines 183-192 for the rows of a sheet: nothing for an empty sheet;
   * otherwise every row is counted at its phase and speaker, and the
   * cells of the table add up to the number of rows.
   */
  method ParticipationByPhase(rows: seq<Row>) returns (table: Option<PhaseTable>)
    ensures table.None? <==> rows == []
    ensures table.Some? ==> |table.value.entries| == |rows|
    ensures table.Some? ==> forall i :: 0 <= i < |rows| ==>
      table.value.entries[i] == (PhaseName(PhaseOf(rows[i].start, MaxStart(Starts(rows)))), rows[i].speaker)
    ensures table.Some? ==> table.value.phases == Order.SortedDistinct(PhaseColumn(rows))
    ensures table.Some? ==> table.value.speakers == Order.SortedDistinct(Speakers(rows))
    ensures table.Some? ==> Interactions.Total(table.value.phases, table.value.speakers, table.value.entries) == |rows|
  {
    if |rows| == 0 {
      return None;
    }
    var maxTime := MaxStart(Starts(rows));
    var phases := AssignPhases(Starts(rows), maxTime);
    var entries := seq(|rows|, i requires 0 <= i < |rows| => (PhaseName(phases[i]), rows[i].speaker));
    var names := seq(|rows|, i requires 0 <= i < |rows| => entries[i].0);
    assert names == PhaseColumn(rows);
    var t := PhaseTable(Order.SortedDistinct(names), Order.SortedDistinct(Speakers(rows)), entries);
    Interactions.SortedLabelsDistinct(t.phases);
    Interactions.SortedLabelsDistinct(t.speakers);
    assert forall k :: 0 <= k < |entries| ==> entries[k].0 in t.phases && entries[k].1 in t.speakers by {
      forall k | 0 <= k < |entries| ensures entries[k].0 in t.phases && entries[k].1 in t.speakers {
        assert names[k] in names;
        assert Speakers(rows)[k] in Speakers(rows);
      }
    }
    TableAddsUp(t.phases, t.speakers, entries);
    return Some(t);
  }

  /** The `fase` column: each row's phase name, against the latest start of the sheet. */
  function PhaseColumn(rows: seq<Row>): (r: seq<string>)
    requires rows != []
    ensures |r| == |rows|
  {
    seq(|rows|, i requires 0 <= i < |rows| => PhaseName(PhaseOf(rows[i].start, MaxStart(Starts(rows)))))
  }

  function Starts(rows: seq<Row>): (r: seq<real>)
    ensures |r| == |rows| && forall i :: 0 <= i < |rows| ==> r[i] == rows[i].start
  {
    seq(|rows|, i requires 0 <= i < |rows| => rows[i].start)
  }

  /** Over pairwise different row and column labels that hold every counted pair, the cells add up to the pairs. */
  lemma {:induction false} TableAddsUp(rows: seq<string>, cols: seq<string>, ts: seq<Interactions.Pair>)
    requires Interactions.Unique(rows) && Interactions.Unique(cols)
    requires forall k :: 0 <= k < |ts| ==> ts[k].0 in rows && ts[k].1 in cols
    ensures Interactions.Total(rows, cols, ts) == |ts|
    decreases |ts|
  {
    if ts == [] {
      Interactions.ZeroTotals(rows, cols);
    } else {
      var init := ts[..|ts| - 1];
      var t := ts[|ts| - 1];
      assert ts == init + [t];
      assert forall k :: 0 <= k < |init| ==> init[k] == ts[k];
      TableAddsUp(rows, cols, init);
      Interactions.TotalStep(rows, cols, init, t);
    }
  }
}
