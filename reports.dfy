/**
 * The quick-report generator of the reports page: the prompt built for a
 * report type, the cleanup of the model's answer (a fixed list of
 * introductory phrases removed in list order, each with and without its
 * colon, then `strip`), and the session fields the report buttons update.
 */
module Reports {
  import opened Wrappers
  import opened Text
  import opened Oracle
  import FilenameCodec
  import Markup
  import Dict

  /** The closing sentence every instruction of the reports page shares. */
  const DirectAnswer: string := " Responda diretamente com o conteúdo, sem introduções ou explicações:"

  /** The `prompts` table, keyed by report type, in the order the page declares it. */
  const Prompts: Dict.Table<string, string> := [
      ("resumo", "Crie um resumo conciso da seguinte transcrição de reunião, destacando os principais pontos discutidos, decisões tomadas e próximos passos." + DirectAnswer),
      ("resumo_expandido", "Crie um resumo detalhado da seguinte transcrição de reunião, incluindo todos os tópicos discutidos, decisões tomadas, responsabilidades atribuídas e prazos estabelecidos." + DirectAnswer),
      ("insights", "Analise a seguinte transcrição de reunião e identifique insights importantes, padrões de comunicação, pontos de tensão, oportunidades de melhoria e recomendações." + DirectAnswer),
      ("ata", "Crie uma ata formal da seguinte reunião, incluindo data, participantes, pauta, discussões, decisões e encaminhamentos." + DirectAnswer),
      ("pontos_acao", "Extraia da seguinte transcrição de reunião todos os pontos de ação, tarefas atribuídas, responsáveis e prazos mencionados." + DirectAnswer)
    ]

  /** `prompts.get(report_type, prompts["resumo"])`. */
  function Instruction(reportType: string): (p: string)
    ensures reportType in Dict.Keys(Prompts) ==> Dict.Get(Prompts, reportType) == Some(p)
    ensures reportType !in Dict.Keys(Prompts) ==> Dict.Get(Prompts, "resumo") == Some(p)
  {
    Dict.GetOr(Prompts, reportType, Dict.Get(Prompts, "resumo").value)
  }

  /** Only this many characters of the transcript enter a prompt. */
  const MaxContent: nat := 15000

  const TranscriptHeader: string := "\n\nTranscrição:\n"
  const AnswerRequest: string := "\n\nForneça uma resposta estruturada e detalhada em português, começando diretamente com o conteúdo solicitado."

  /** The full prompt sent to the model. */
  function FullPrompt(reportType: string, content: string): string
  {
    Instruction(reportType) + TranscriptHeader + Take(content, MaxContent) + AnswerRequest
  }

  /** Text past the first 15000 characters never reaches the model. */
  lemma PromptIgnoresTail(reportType: string, content: string, extra: string)
    requires |content| >= MaxContent
    ensures FullPrompt(reportType, content + extra) == FullPrompt(reportType, content)
  {
    assert (content + extra)[..MaxContent] == content[..MaxContent];
  }

  /** A transcript short enough is embedded whole, after the instruction of its type. */
  lemma PromptEmbedsShortContent(reportType: string, content: string)
    requires |content| <= MaxContent
    ensures var i := |Instruction(reportType)| + |TranscriptHeader|;
      i + |content| <= |FullPrompt(reportType, content)|
      && FullPrompt(reportType, content)[i..i + |content|] == content
  {
    var a := Instruction(reportType) + TranscriptHeader;
    ConcatMiddle(a, content, AnswerRequest);
  }

  /** An unknown report type is served with the summary prompt. */
  lemma UnknownTypeIsSummary(reportType: string, content: string)
    requires reportType !in Dict.Keys(Prompts)
    ensures FullPrompt(reportType, content) == FullPrompt("resumo", content)
  {
    assert "resumo" == Prompts[0].0;
  }

  // -----------------------------------------------------------------------
  // Cleanup of the answer
  // -----------------------------------------------------------------------

  /**
   * Introductory phrases a model tends to open with; each ends in its only
   * colon. Long phrases are written as word-boundary pieces joined by `+`.
   */
  const Denylist: seq<string> := [
      "Aqui está um resumo detalhado da " + "transcrição da reunião, estruturado " + "conforme solicitado:",
      "Aqui está um resumo conciso da " + "transcrição da reunião:",
      "Aqui está a análise da transcrição " + "da reunião:",
      "Aqui está a ata formal da reunião:",
      "Aqui estão os pontos de ação " + "extraídos da transcrição:",
      "Com base na transcrição fornecida, " + "aqui está o resumo:",
      "Analisando a transcrição da " + "reunião, identifiquei os seguintes " + "pontos:",
      "Segue o resumo estruturado da " + "reunião:",
      "Aqui está o relatório solicitado:",
      "Com base na transcrição, aqui estão " + "os insights:",
      "Aqui está a ata estruturada:",
      "Segue a análise detalhada:",
      "Aqui estão os principais pontos " + "identificados:",
      "Com base na transcrição da reunião:",
      "Aqui está o resumo estruturado:",
      "Segue o relatório solicitado:",
      "Aqui está a análise completa:",
      "Com base na transcrição fornecida:",
      "Aqui está o conteúdo estruturado:",
      "Segue a análise da reunião:"
    ]

  /** `line.replace(":", "")`. */
  function Uncolon(line: string): string
  {
    ReplaceAll(line, ":", "")
  }

  /** `s.replace(pat, "")`; an empty pattern leaves the text as it is, as in Python. */
  function RemoveAll(s: string, pat: string): (r: string)
    ensures |r| <= |s|
  {
    if pat == [] then s
    else
      RemoveShortens(s, pat);
      ReplaceAll(s, pat, "")
  }

  /** One iteration of the cleanup loop: the phrase, then the phrase without its colon. */
  function DropPhrase(text: string, line: string): string
  {
    RemoveAll(RemoveAll(text, line), Uncolon(line))
  }

  /** The phrases dropped one after another, in list order. */
  function DropAll(lines: seq<string>, text: string): (r: string)
    ensures |r| <= |text|
  {
    if lines == [] then text else DropAll(lines[1..], DropPhrase(text, lines[0]))
  }

  /** The cleaned answer. */
  function Cleanup(text: string): string
  {
    Strip(DropAll(Denylist, text))
  }

  /** The cleanup loop of `gerar_relatorio`, rebinding the text once per phrase. */
  method CleanReport(responseText: string) returns (r: string)
    ensures r == Cleanup(responseText)
  {
    r := responseText;
    for i := 0 to |Denylist|
      invariant DropAll(Denylist[i..], r) == DropAll(Denylist, responseText)
    {
      assert Denylist[i..][1..] == Denylist[i + 1..];
      r := DropPhrase(r, Denylist[i]);
    }
    assert Denylist[|Denylist|..] == [];
    r := Strip(r);
  }

  lemma {:induction false} DropAllAbsent(lines: seq<string>, text: string)
    requires forall i :: 0 <= i < |lines| ==> !Occurs(lines[i], text) && !Occurs(Uncolon(lines[i]), text)
    ensures DropAll(lines, text) == text
  {
    if lines != [] {
      if lines[0] != [] {
        ReplaceAbsent(text, lines[0], "");
      }
      if Uncolon(lines[0]) != [] {
        ReplaceAbsent(text, Uncolon(lines[0]), "");
      }
      assert DropPhrase(text, lines[0]) == text;
      DropAllAbsent(lines[1..], text);
    }
  }

  /** An answer without any of the phrases is only trimmed. */
  lemma CleanupWithoutPhrases(text: string)
    requires forall i :: 0 <= i < |Denylist| ==> !Occurs(Denylist[i], text) && !Occurs(Uncolon(Denylist[i]), text)
    ensures Cleanup(text) == Strip(text)
  {
    DropAllAbsent(Denylist, text);
  }

  /** The cleaned answer is never longer than the answer and has no whitespace at either end. */
  lemma CleanupShape(text: string)
    ensures |Cleanup(text)| <= |text|
    ensures Cleanup(text) == [] || (!IsSpace(Cleanup(text)[0]) && !IsSpace(Cleanup(text)[|Cleanup(text)| - 1]))
  {
    StripSpec(DropAll(Denylist, text));
  }

  /** Dropping the colon keeps the first character of a phrase that does not start with one. */
  lemma UncolonHead(line: string)
    requires line != [] && line[0] != ':'
    ensures Uncolon(line) != [] && Uncolon(line)[0] == line[0]
  {
    ReplaceCopiesPrefix(line, ":", "", 1);
  }

  /** A phrase whose first character is absent from the text is not there to drop. */
  lemma DropPhraseAbsent(text: string, line: string)
    requires line != [] && line[0] != ':' && line[0] !in text
    ensures DropPhrase(text, line) == text
  {
    UncolonHead(line);
    AbsentFirstChar(line, text);
    AbsentFirstChar(Uncolon(line), text);
    ReplaceAbsent(text, line, "");
    ReplaceAbsent(text, Uncolon(line), "");
  }

  /** A leading phrase is dropped when nothing after it starts the same way. */
  lemma DropPhraseLeading(line: string, rest: string)
    requires line != [] && line[0] != ':' && line[0] !in rest
    ensures DropPhrase(line + rest, line) == rest
  {
    ReplaceLeading(line, rest, "");
    AbsentFirstChar(line, rest);
    ReplaceAbsent(rest, line, "");
    assert RemoveAll(line + rest, line) == rest;
    DropPhraseAbsent(rest, line);
  }

  /** Every phrase of the list starts with `A`, `S` or `C`. */
  lemma DenylistHeads(lines: seq<string>)
    requires lines == Denylist
    ensures forall i :: 0 <= i < |lines| ==> lines[i] != [] && lines[i][0] in "ASC"
  {
    assert lines[0][0] == 'A';
    assert lines[1][0] == 'A';
    assert lines[2][0] == 'A';
    assert lines[3][0] == 'A';
    assert lines[4][0] == 'A';
    assert lines[5][0] == 'C';
    assert lines[6][0] == 'A';
    assert lines[7][0] == 'S';
    assert lines[8][0] == 'A';
    assert lines[9][0] == 'C';
    assert lines[10][0] == 'A';
    assert lines[11][0] == 'S';
    assert lines[12][0] == 'A';
    assert lines[13][0] == 'C';
    assert lines[14][0] == 'A';
    assert lines[15][0] == 'S';
    assert lines[16][0] == 'A';
    assert lines[17][0] == 'C';
    assert lines[18][0] == 'A';
    assert lines[19][0] == 'S';
  }

  /** Text with no `A`, `S` or `C` is left alone by every phrase after the first two. */
  lemma LaterPhrasesAbsent(rest: string)
    requires 'A' !in rest && 'S' !in rest && 'C' !in rest
    ensures DropAll(Denylist[2..], rest) == rest
  {
    DenylistHeads(Denylist);
    var lines := Denylist[2..];
    forall i | 0 <= i < |lines| ensures !Occurs(lines[i], rest) && !Occurs(Uncolon(lines[i]), rest) {
      UncolonHead(lines[i]);
      AbsentFirstChar(lines[i], rest);
      AbsentFirstChar(Uncolon(lines[i]), rest);
    }
    DropAllAbsent(lines, rest);
  }

  /**
   * A phrase is not there to drop when its first character occurs in the text
   * only at the start, and text and phrase differ at a position `k` before the
   * phrase's colon.
   */
  lemma DropPhraseDiffering(text: string, line: string, k: nat)
    requires k < |line| && k < |text| && line[0] != ':' && ':' !in line[..k + 1]
    requires line[0] !in text[1..] && text[k] != line[k]
    ensures DropPhrase(text, line) == text
  {
    ReplaceCopiesPrefix(line, ":", "", k + 1);
    assert Uncolon(line)[k] == line[k];
    OccursOnlyAtStart(line, text);
    OccursOnlyAtStart(Uncolon(line), text);
    ReplaceAbsent(text, line, "");
    ReplaceAbsent(text, Uncolon(line), "");
  }

  /** The first two phrases agree up to their 21st character, where they part. */
  lemma OpenersPart(lines: seq<string>)
    requires lines == Denylist
    ensures 'A' !in lines[1][1..] && ':' !in lines[0][..21] && lines[1][20] != lines[0][20]
  {
  }

  /** The first phrase is not in an answer that opens with the second. */
  lemma FirstPhraseAbsent(rest: string)
    requires 'A' !in rest
    ensures DropPhrase(Denylist[1] + rest, Denylist[0]) == Denylist[1] + rest
  {
    var lines := Denylist;
    var answer := lines[1] + rest;
    OpenersPart(lines);
    assert answer[1..] == lines[1][1..] + rest;
    DropPhraseDiffering(answer, lines[0], 20);
  }

  /** The second phrase is dropped from the front of an answer that opens with it. */
  lemma SecondPhraseDropped(rest: string)
    requires 'A' !in rest
    ensures DropPhrase(Denylist[1] + rest, Denylist[1]) == rest
  {
    DenylistHeads(Denylist);
    DropPhraseLeading(Denylist[1], rest);
  }

  /** The fold over a list takes its first two phrases, then the rest of the list. */
  lemma DropAllTwo(lines: seq<string>, text: string)
    requires |lines| >= 2
    ensures DropAll(lines, text) == DropAll(lines[2..], DropPhrase(DropPhrase(text, lines[0]), lines[1]))
  {
    assert lines[1..][1..] == lines[2..];
  }

  /**
   * An answer that opens with the concise-summary phrase, followed by text
   * without `A`, `S` or `C`, cleans up to that text trimmed: the first phrase
   * parts from it at the 21st character, the second is its opener, and no
   * later phrase's first letter occurs after it.
   */
  lemma CleanupAfterOpener(rest: string)
    requires 'A' !in rest && 'S' !in rest && 'C' !in rest
    ensures Cleanup(Denylist[1] + rest) == Strip(rest)
  {
    DropAllTwo(Denylist, Denylist[1] + rest);
    FirstPhraseAbsent(rest);
    SecondPhraseDropped(rest);
    LaterPhrasesAbsent(rest);
  }

  /** An answer that opens with the concise-summary phrase, a blank line and a body. */
  lemma CleanupOpenerBlank(body: string)
    requires 'A' !in body && 'S' !in body && 'C' !in body
    ensures Cleanup(Denylist[1] + ("\n\n" + body)) == Strip("\n\n" + body)
  {
    var rest := "\n\n" + body;
    assert 'A' !in rest && 'S' !in rest && 'C' !in rest;
    CleanupAfterOpener(rest);
  }

  /**
   * The concise-summary opener is removed and the blank lines after it
   * trimmed, whatever body without `A`, `S`, `C` or surrounding whitespace
   * follows.
   */
  lemma CleanupOpenerBody(body: string)
    requires body != [] && !IsSpace(body[0]) && !IsSpace(body[|body| - 1])
    requires 'A' !in body && 'S' !in body && 'C' !in body
    ensures Cleanup(Denylist[1] + ("\n\n" + body)) == body
  {
    calc {
      Cleanup(Denylist[1] + ("\n\n" + body));
      { CleanupOpenerBlank(body); }
      Strip("\n\n" + body);
      { StripAfterSpace("\n\n", body); }
      body;
    }
  }

  /**
   * `"Aqui está um resumo conciso da transcrição da reunião:\n\nPonto principal."`
   * cleans up to `"Ponto principal."`.
   */
  lemma CleanupExample()
    ensures Cleanup(Denylist[1] + "\n\nPonto principal.") == "Ponto principal."
  {
    var body := "Ponto principal.";
    assert "\n\nPonto principal." == "\n\n" + body;
    CleanupOpenerBody(body);
  }

  // -----------------------------------------------------------------------
  // The whole call and the session it feeds
  // -----------------------------------------------------------------------

  /** What `gerar_relatorio` returns: None when the call fails, the cleaned answer otherwise. */
  function ReportOf(model: Model, content: string, reportType: string): (r: Option<string>)
    ensures model(FullPrompt(reportType, content)).Failure? <==> r.None?
    ensures r.Some? ==> r.value == Cleanup(model(FullPrompt(reportType, content)).text)
  {
    match model(FullPrompt(reportType, content))
    case Failure(_) => None
    case Answer(text) => Some(Cleanup(text))
  }

  /** `gerar_relatorio`. */
  method GenerateReport(model: Model, content: string, reportType: string) returns (r: Option<string>)
    ensures r == ReportOf(model, content, reportType)
  {
    var reply := model(FullPrompt(reportType, content));
    match reply {
      case Failure(_) =>
        r := None;
      case Answer(text) =>
        var cleaned := CleanReport(text);
        r := Some(cleaned);
    }
  }

  /**
   * What a report button stores, given the selected file and the report
   * generated for it: the report, its type and the meeting name when the
   * report is non-empty, nothing otherwise.
   */
  function Stored(selected: string, reportType: string, report: Option<string>): (o: Option<(string, string, string)>)
    ensures o.Some? <==> report.Some? && report.value != ""
    ensures o.Some? ==> o.value == (report.value, reportType, FilenameCodec.DisplayName(selected))
  {
    if report.Some? && report.value != "" then Some((report.value, reportType, FilenameCodec.DisplayName(selected)))
    else None
  }

  /** The three `current_*` session fields of the reports page. */
  class ReportSession {
    var currentReport: Option<string>
    var currentReportType: Option<string>
    var currentMeetingName: Option<string>

    /** A fresh session has all three unset. */
    constructor ()
      ensures currentReport == None && currentReportType == None && currentMeetingName == None
    {
      currentReport := None;
      currentReportType := None;
      currentMeetingName := None;
    }

    /**
     * After a report button produced `report` for `selected`: a non-empty
     * report replaces all three fields, anything else leaves them alone.
     */
    method RecordReport(selected: string, reportType: string, report: Option<string>)
      modifies this
      ensures var o := Stored(selected, reportType, report);
        if o.Some? then
          currentReport == Some(o.value.0) && currentReportType == Some(o.value.1)
          && currentMeetingName == Some(o.value.2)
        else
          currentReport == old(currentReport) && currentReportType == old(currentReportType)
          && currentMeetingName == old(currentMeetingName)
    {
      if report.Some? && report.value != "" {
        var meetingName := FilenameCodec.DisplayName(selected);
        currentReport := report;
        currentReportType := Some(reportType);
        currentMeetingName := Some(meetingName);
      }
    }
  }
}
