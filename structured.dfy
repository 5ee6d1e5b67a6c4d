/**
 * The structured-report generator of the smart-reports example page: the
 * prompt asking for a JSON answer shaped like an example structure, the
 * extraction of the JSON text from the answer (a fenced ```` ```json ````
 * block first, then the widest `{...}` span, else the whole answer), the
 * decode of that text, the text assembled from the sheets of a workbook, and
 * the name offered for the download.
 */
module StructuredReports {
  import opened Wrappers
  import opened Text
  import opened Oracle
  import FilenameCodec
  import Dict

  // -----------------------------------------------------------------------
  // The prompt
  // -----------------------------------------------------------------------

  /** The `prompts` table of `generate_report`, in the order the page declares it. */
  const Prompts: Dict.Table<string, string> := [
      ("resumo", "Crie um resumo conciso da seguinte transcrição de reunião, destacando os principais pontos discutidos, decisões tomadas e próximos passos:"),
      ("resumo_expandido", "Crie um resumo detalhado da seguinte transcrição de reunião, incluindo todos os tópicos discutidos, decisões tomadas, responsabilidades atribuídas e prazos estabelecidos:"),
      ("insights", "Analise a seguinte transcrição de reunião e identifique insights importantes, padrões de comunicação, pontos de tensão, oportunidades de melhoria e recomendações:"),
      ("ata", "Crie uma ata formal da seguinte reunião, incluindo data, participantes, pauta, discussões, decisões e encaminhamentos:"),
      ("pontos_acao", "Extraia da seguinte transcrição de reunião todos os pontos de ação, tarefas atribuídas, responsáveis e prazos mencionados:")
    ]

  /** The keys of `output_structures`: the same five report types. */
  const StructureKeys: seq<string> := ["resumo", "resumo_expandido", "insights", "ata", "pontos_acao"]

  /** `prompts.get(report_type, prompts["resumo"])`. */
  function Instruction(reportType: string): (p: string)
    ensures reportType in Dict.Keys(Prompts) ==> Dict.Get(Prompts, reportType) == Some(p)
    ensures reportType !in Dict.Keys(Prompts) ==> Dict.Get(Prompts, "resumo") == Some(p)
  {
    Dict.GetOr(Prompts, reportType, Dict.Get(Prompts, "resumo").value)
  }

  /** The output structure chosen: the report type's own, or the summary's. */
  function StructureKey(reportType: string): (k: string)
    ensures reportType in StructureKeys ==> k == reportType
    ensures reportType !in StructureKeys ==> k == "resumo"
  {
    if reportType in StructureKeys then reportType else "resumo"
  }

  const MaxContent: nat := 15000

  const TranscriptHeader: string := "\n\nTranscrição:\n"
  const SchemaRequest: string := "\n\nForneça a resposta em formato JSON estruturado conforme o exemplo a seguir:\n"
  const JsonOnly: string := "\n\nResponda APENAS com o JSON, sem texto adicional."

  /**
   * The full prompt. `schema` renders the example structure of a key, as
   * `json.dumps(output_structures[key], indent=2, ensure_ascii=False)` does.
   */
  function FullPrompt(schema: string -> string, reportType: string, content: string): string
  {
    Instruction(reportType) + TranscriptHeader + Take(content, MaxContent) + SchemaRequest
      + schema(StructureKey(reportType)) + JsonOnly
  }

  /** The two tables have the same keys. */
  lemma SameReportTypes()
    ensures Dict.Keys(Prompts) == StructureKeys
  {
  }

  /** An unknown report type gets the summary prompt and the summary structure. */
  lemma UnknownTypeIsSummary(schema: string -> string, reportType: string, content: string)
    requires reportType !in StructureKeys
    ensures FullPrompt(schema, reportType, content) == FullPrompt(schema, "resumo", content)
  {
    SameReportTypes();
    assert "resumo" == Prompts[0].0;
  }

  /** Text past the first 15000 characters never reaches the model. */
  lemma PromptIgnoresTail(schema: string -> string, reportType: string, content: string, extra: string)
    requires |content| >= MaxContent
    ensures FullPrompt(schema, reportType, content + extra) == FullPrompt(schema, reportType, content)
  {
    assert (content + extra)[..MaxContent] == content[..MaxContent];
  }

  // -----------------------------------------------------------------------
  // `re.search(r'```json\n(.+?)\n```', text, re.DOTALL)`
  // -----------------------------------------------------------------------

  const FenceOpen: string := "```json\n"
  const FenceClose: string := "\n```"

  predicate OpenAt(s: string, i: nat)
  {
    i + 8 <= |s| && s[i..i + 8] == FenceOpen
  }

  predicate CloseAt(s: string, j: nat)
  {
    j + 4 <= |s| && s[j..j + 4] == FenceClose
  }

  /** A fenced block opening at `i` whose non-empty body ends at `j`. */
  predicate FenceAt(s: string, i: nat, j: nat)
  {
    OpenAt(s, i) && i + 8 < j && CloseAt(s, j)
  }

  /** The lazy body `(.+?)`: the nearest closing fence from `k` on. */
  function NearestClose(s: string, k: nat): (r: Option<nat>)
    ensures r.Some? ==> k <= r.value && CloseAt(s, r.value)
    ensures r.Some? ==> forall m :: k <= m < r.value ==> !CloseAt(s, m)
    ensures r.None? ==> forall m :: k <= m ==> !CloseAt(s, m)
    decreases |s| - k
  {
    if k + 4 > |s| then None
    else if CloseAt(s, k) then Some(k)
    else NearestClose(s, k + 1)
  }

  /** The search from position `i` on: each start in turn, the body as short as it can be. */
  function FencedFrom(s: string, i: nat): (r: Option<(nat, nat)>)
    ensures r.Some? ==> i <= r.value.0 && FenceAt(s, r.value.0, r.value.1)
    ensures r.Some? ==> forall a: nat, b: nat :: i <= a < r.value.0 ==> !FenceAt(s, a, b)
    ensures r.Some? ==> forall b: nat :: b < r.value.1 ==> !FenceAt(s, r.value.0, b)
    ensures r.None? ==> forall a: nat, b: nat :: i <= a ==> !FenceAt(s, a, b)
    decreases |s| - i
  {
    if i + 13 > |s| then None
    else if OpenAt(s, i) then
      match NearestClose(s, i + 9)
      case Some(j) => Some((i, j))
      case None => FencedFrom(s, i + 1)
    else FencedFrom(s, i + 1)
  }

  /**
   * The block `re.search` finds: the leftmost opening that has a closing, with
   * the nearest such closing. No other block comes first in that order.
   */
  function Fenced(s: string): (r: Option<(nat, nat)>)
    ensures r.None? <==> forall a: nat, b: nat :: !FenceAt(s, a, b)
    ensures r.Some? ==> FenceAt(s, r.value.0, r.value.1)
    ensures r.Some? ==> forall a: nat, b: nat :: FenceAt(s, a, b) ==>
      r.value.0 < a || (r.value.0 == a && r.value.1 <= b)
  {
    FencedFrom(s, 0)
  }

  // -----------------------------------------------------------------------
  // `re.search(r'\{.+\}', text, re.DOTALL)`
  // -----------------------------------------------------------------------

  /** Greedy `.+` then `\}`: the last `}` at or after `k`. */
  function LastCloseBrace(s: string, k: nat): (r: Option<nat>)
    ensures r.Some? ==> k <= r.value < |s| && s[r.value] == '}'
    ensures r.Some? ==> forall m :: r.value < m < |s| ==> s[m] != '}'
    ensures r.None? ==> forall m :: k <= m < |s| ==> s[m] != '}'
    decreases |s|
  {
    if |s| <= k then None
    else if s[|s| - 1] == '}' then Some(|s| - 1)
    else
      var r := LastCloseBrace(s[..|s| - 1], k);
      assert forall m :: 0 <= m < |s| - 1 ==> s[..|s| - 1][m] == s[m];
      r
  }

  /** The search from position `i` on: each `{` in turn, with a `}` at least two places on. */
  function BracesFrom(s: string, i: nat): (r: Option<(nat, nat)>)
    ensures r.Some? ==> i <= r.value.0 && r.value.0 + 2 <= r.value.1 < |s|
    ensures r.Some? ==> s[r.value.0] == '{' && s[r.value.1] == '}'
    ensures r.Some? ==> forall m :: i <= m < r.value.0 ==> s[m] != '{'
    ensures r.Some? ==> forall m :: r.value.1 < m < |s| ==> s[m] != '}'
    ensures r.None? ==> forall a, b :: i <= a && a + 2 <= b < |s| && s[a] == '{' ==> s[b] != '}'
    decreases |s| - i
  {
    if i >= |s| then None
    else if s[i] == '{' then
      match LastCloseBrace(s, i + 2)
      case Some(j) => Some((i, j))
      case None => BracesFrom(s, i + 1)
    else BracesFrom(s, i + 1)
  }

  /**
   * The span `re.search` finds: from the first `{` to the last `}`, provided
   * at least one character lies between them; nothing when no `{` has a `}`
   * two or more places after it.
   */
  function Braces(s: string): (r: Option<(nat, nat)>)
    ensures r.Some? ==> r.value.0 + 2 <= r.value.1 < |s| && s[r.value.0] == '{' && s[r.value.1] == '}'
    ensures r.Some? ==> '{' !in s[..r.value.0] && '}' !in s[r.value.1 + 1..]
    ensures r.None? <==> forall a, b :: 0 <= a && a + 2 <= b < |s| && s[a] == '{' ==> s[b] != '}'
  {
    BracesFrom(s, 0)
  }

  // -----------------------------------------------------------------------
  // The JSON text handed to the decoder
  // -----------------------------------------------------------------------

  /**
   * The body of the first fenced block; failing that, the span from the first
   * `{` to the last `}`; failing that, the whole answer.
   */
  function JsonText(s: string): string
  {
    match Fenced(s)
    case Some((i, j)) => s[i + 8..j]
    case None =>
      match Braces(s)
      case Some((i, j)) => s[i..j + 1]
      case None => s
  }

  /** The regex attempts of `generate_report`, rebinding the answer text. */
  method ExtractJson(responseText: string) returns (text: string)
    ensures text == JsonText(responseText)
  {
    text := responseText;
    var block := Fenced(text);
    if block.Some? {
      text := text[block.value.0 + 8..block.value.1];
    } else {
      var span := Braces(text);
      if span.Some? {
        text := text[span.value.0..span.value.1 + 1];
      }
    }
  }

  /** No block opens where the text has no backtick. */
  lemma NoOpenWithoutTick(s: string, a: nat)
    requires '`' !in s
    ensures !OpenAt(s, a)
  {
    if a + 8 <= |s| {
      assert s[a..a + 8][0] == s[a];
    }
  }

  /** A fenced block after text without backticks yields its body, whatever follows. */
  lemma FencedBlockExtracted(before: string, body: string, after: string)
    requires body != [] && '`' !in before && '`' !in body
    ensures JsonText(before + FenceOpen + body + FenceClose + after) == body
  {
    var s := before + FenceOpen + body + FenceClose + after;
    var i, j := |before|, |before| + 8 + |body|;
    assert s[i..i + 8] == FenceOpen;
    assert s[j..j + 4] == FenceClose;
    assert s[i + 8..j] == body;
    assert FenceAt(s, i, j);
    forall m | 0 <= m < i ensures s[m] != '`' {
      assert s[m] == before[m];
    }
    forall m | i + 8 <= m < j ensures s[m] != '`' {
      assert s[m] == body[m - i - 8];
    }
    forall a: nat, b: nat | FenceAt(s, a, b) ensures i < a || (i == a && j <= b) {
      assert s[a] == s[a..a + 8][0];
      assert s[b + 1] == s[b..b + 4][1];
    }
    var r := Fenced(s).value;
    assert r == (i, j);
  }

  /** Without a fenced block, the span from a lone `{` to a lone `}` is taken. */
  lemma BraceSpanExtracted(before: string, inner: string, after: string)
    requires inner != [] && '`' !in before + inner + after
    requires '{' !in before && '}' !in after
    ensures JsonText(before + "{" + inner + "}" + after) == "{" + inner + "}"
  {
    var s := before + "{" + inner + "}" + after;
    var i, j := |before|, |before| + 1 + |inner|;
    assert '`' !in s;
    forall a: nat ensures !OpenAt(s, a) {
      NoOpenWithoutTick(s, a);
    }
    assert s[i] == '{' && s[j] == '}';
    assert s[..i] == before && s[j + 1..] == after;
    assert s[i..j + 1] == "{" + inner + "}";
  }

  /** A bare `{}` is not a span: with no fence either, the answer goes to the decoder whole. */
  lemma BareBracesNotSpan()
    ensures Braces("{}") == None
    ensures JsonText("x{}") == "x{}"
  {
    assert !OpenAt("x{}", 0);
  }

  /** An answer with neither a fence character nor a brace is passed on unchanged. */
  lemma PlainAnswerWhole(s: string)
    requires '`' !in s && '{' !in s
    ensures JsonText(s) == s
  {
    forall a: nat ensures !OpenAt(s, a) {
      NoOpenWithoutTick(s, a);
    }
  }

  // -----------------------------------------------------------------------
  // The whole call
  // -----------------------------------------------------------------------

  /**
   * What `generate_report` returns, with `decode` standing for `json.loads`
   * (None for a decode error): None when the call fails or the extracted text
   * does not decode, the decoded value otherwise. There is one attempt only.
   */
  function StructuredReport<J>(model: Model, decode: string -> Option<J>, schema: string -> string,
                               content: string, reportType: string): (r: Option<J>)
    ensures model(FullPrompt(schema, reportType, content)).Failure? ==> r.None?
    ensures model(FullPrompt(schema, reportType, content)).Answer? ==>
      r == decode(JsonText(model(FullPrompt(schema, reportType, content)).text))
  {
    match model(FullPrompt(schema, reportType, content))
    case Failure(_) => None
    case Answer(text) => decode(JsonText(text))
  }

  /** `generate_report`. */
  method GenerateReport<J>(model: Model, decode: string -> Option<J>, schema: string -> string,
                           content: string, reportType: string) returns (r: Option<J>)
    ensures r == StructuredReport(model, decode, schema, content, reportType)
  {
    var reply := model(FullPrompt(schema, reportType, content));
    match reply {
      case Failure(_) =>
        r := None;
      case Answer(text) =>
        var jsonText := ExtractJson(text);
        r := decode(jsonText);
    }
  }

  // -----------------------------------------------------------------------
  // Workbook text and the download name
  // -----------------------------------------------------------------------

  /**
   * The parts collected for a workbook, given as (sheet name, table text)
   * pairs in sheet order: a caption, then the table, for each sheet.
   */
  function SheetParts(sheets: seq<(string, string)>): (parts: seq<string>)
    ensures |parts| == 2 * |sheets|
    ensures forall k :: 0 <= k < |sheets| ==>
      parts[2 * k] == "Planilha: " + sheets[k].0 && parts[2 * k + 1] == sheets[k].1
  {
    if sheets == [] then []
    else
      var init := sheets[..|sheets| - 1];
      var last := sheets[|sheets| - 1];
      assert forall k :: 0 <= k < |init| ==> init[k] == sheets[k];
      SheetParts(init) + ["Planilha: " + last.0, last.1]
  }

  /** The loop over `dfs.items()` appending to `text_parts`, then the join. */
  method SheetText(sheets: seq<(string, string)>) returns (text: string)
    ensures text == Join("\n\n", SheetParts(sheets))
  {
    var parts: seq<string> := [];
    for i := 0 to |sheets|
      invariant parts == SheetParts(sheets[..i])
    {
      assert sheets[..i + 1][..i] == sheets[..i];
      parts := parts + ["Planilha: " + sheets[i].0];
      parts := parts + [sheets[i].1];
    }
    assert sheets[..|sheets|] == sheets;
    text := Join("\n\n", parts);
  }

  /** A single sheet gives its caption, a blank line and its table. */
  lemma OneSheetText(name: string, table: string)
    ensures Join("\n\n", SheetParts([(name, table)])) == "Planilha: " + name + "\n\n" + table
  {
    assert SheetParts([(name, table)]) == ["Planilha: " + name, table];
  }

  /**
   * The download name as written: `meeting_name` is bound only when the
   * selected name parses, so otherwise building the name fails (None).
   */
  function DownloadNameAsWritten(selected: string, reportType: string): (r: Option<string>)
    ensures r.None? <==> FilenameCodec.Parse(selected).None?
    ensures r.Some? ==> r.value == "relatorio_" + FilenameCodec.Parse(selected).value.meetingName + "_" + reportType + ".json"
  {
    match FilenameCodec.Parse(selected)
    case None => None
    case Some(info) => Some("relatorio_" + info.meetingName + "_" + reportType + ".json")
  }

  /** `notes.html` can be selected, yet gets no download name. */
  lemma UnparsedNameHasNoDownload()
    ensures DownloadNameAsWritten("notes.html", "resumo") == None
  {
    FilenameCodec.AnchoredAtStart('n', "otes.html");
    assert ['n'] + "otes.html" == "notes.html";
  }

  /**
   * The download name with the same fallback as the page heading: the
   * displayed name, so the raw file name when it does not parse.
   */
  function DownloadName(selected: string, reportType: string): string
  {
    "relatorio_" + FilenameCodec.DisplayName(selected) + "_" + reportType + ".json"
  }

  /** The corrected name agrees with the written one wherever that one exists, and always exists. */
  lemma DownloadNameAgrees(selected: string, reportType: string)
    ensures DownloadNameAsWritten(selected, reportType).Some? ==>
      DownloadNameAsWritten(selected, reportType).value == DownloadName(selected, reportType)
    ensures DownloadNameAsWritten(selected, reportType).None? ==>
      DownloadName(selected, reportType) == "relatorio_" + selected + "_" + reportType + ".json"
  {
  }

  /** With the fallback, `notes.html` is offered as `relatorio_notes.html_resumo.json`. */
  lemma UnparsedNameDownload()
    ensures DownloadName("notes.html", "resumo") == "relatorio_notes.html_resumo.json"
  {
    UnparsedNameHasNoDownload();
    DownloadNameAgrees("notes.html", "resumo");
  }
}
