# Meeting-transcript tools: a verified model of the text and table logic

The repository is a set of Streamlit pages that work on the outputs of a
meeting-transcription pipeline. Those outputs sit in a `saidas` directory:

- `html_<meeting>.html` holds the transcript;
- `excel_<meeting>.xlsx` holds the per-utterance table.

Under the widgets, the pages share a small core of deterministic string,
list and dictionary transforms, most of them copied from page to page. This
project models each one once and cites every copy:

- **the file-name codec**: the meeting-name parser built on
  `re.match(r"(html|excel)_(.+)\.(html|xlsx)", filename)`, the prefix
  strippers and the display-name fallback (module `FilenameCodec`);
- **the tag stripper**: `re.sub('<.*?>', ' ')`, then `re.sub('\s+', ' ')`, then
  `strip` (module `Markup`);
- **the name highlighter**: the two `re.sub` rewrites of `<strong>…</strong>`
  and `<b>…</b>` on the viewer page (module `Highlight`);
- **the quick-report generator**:
  - the prompt table with its fallback and 15000-character cut;
  - the denylist cleanup loop;
  - the session fields the buttons set

  (module `Reports`);
- **the structured-report generator**:
  - the prompt and output-structure fallback;
  - JSON span extraction (a fenced `json` block first, then a greedy `{…}` span);
  - the spreadsheet-to-text assembly;
  - the download name

  (module `StructuredReports`);
- **the document chat pages**:
  - the corpus loader, a dictionary in which the last writer wins;
  - the single- and multi-document contexts;
  - the answer functions that turn a failure into a message;
  - the chat-history append rule;
  - the guard on the search button

  (module `Corpus`);
- **the statistics of the example analysis page**:
  - the lexicon sentiment score;
  - the alphabetic/stopword token filter;
  - sentence pieces and lexical diversity (module `TextStatistics`);
  - the speaker-transition matrix, the five-way segmentation and the per-segment top-five keywords (module `Interactions`);
- **the speech-analysis page**:
  - the column check;
  - participant and total metrics;
  - words per minute with NaN filling and clipping;
  - the start/middle/end phase table;
  - the per-speaker summary

  (module `SpeechAnalysis`).

Supporting modules:

- `Wrappers`: `Option`.
- `Text`: Python's whitespace class, `startswith`, `strip`, slicing, `replace`, `join`, subsequences.
- `Order`: Python's string order and `sort`, distinct and sorted-distinct.
- `Dict`: a Python dict as an insertion-ordered association list. Assigning to an existing key keeps its position.
- `Oracle`: the language-model call as a function from prompt to `Answer(text)` or `Failure(message)`.

Other things that stay outside the model are parameters:

- a directory listing is a `seq<string>`;
- a file read is a function from name to contents;
- a spreadsheet is a sequence of `Row` values;
- the tokenizer, lower-casing and the stopword list are given functions and sets;
- the JSON encoder and decoder are given functions.

Where the pages change state step by step, the model is imperative:

- loops become methods with loop invariants (`Reports.CleanReport`,
  `Corpus.LoadDocuments`, `Corpus.CombinedContext`,
  `Interactions.InteractionMatrix`, `SpeechAnalysis.AssignPhases`, …);
- Streamlit session state is a class (`Reports.ReportSession`, `Corpus.ChatSession`).

Each method is proved equal to a specification function, and the properties
are proved about that function.

## Model

| member | source | states |
|---|---|---|
| `FilenameCodec.MatchKind` | paginas/relatorios.py:34-35 | the `html_`/`excel_` alternative: which prefix the name starts with and where the name group begins; none when it starts with neither |
| `FilenameCodec.GreedyEnd` | paginas/relatorios.py:34-35 | the greedy `.+` runs to the first line break or the end of the name, because `.` does not match a newline |
| `FilenameCodec.Backtrack` | paginas/relatorios.py:34-35 | backtracking from the greedy end finds the LAST position where `.html` or `.xlsx` follows, and no later one exists |
| `FilenameCodec.ParseSpec` | paginas/relatorios.py:33-43 | the parser returns None exactly when no kind/name makes the pattern match a prefix of the file name; otherwise it returns precisely the match with the longest name (greedy `.+`) |
| `FilenameCodec.ParseSound` | paginas/relatorios.py:34-42 | a parsed result is always the longest match of the pattern |
| `FilenameCodec.ParseComplete` | exemplos/1_Analise_de_Dados.py:29-40 | whenever the pattern can match, the parser yields a result (same parser copy) |
| `FilenameCodec.ParseIs` | exemplos/2_Relatorios_Inteligentes.py:23-34 | the longest match is the parser's result (same parser copy) |
| `FilenameCodec.RoundTrip` | paginas/relatorios.py:34-42 | for a non-empty, newline-free name n and either extension, `prefix+n+ext` parses to that kind with meeting name exactly n, even when n contains `_` or `.` |
| `FilenameCodec.KindNotCheckedAgainstExtension` | paginas/analise_dados.py:23-33 | `html_x.xlsx` parses as kind html and `excel_x.html` as kind excel: the kind is not checked against the extension |
| `FilenameCodec.AnchoredAtStart` | exemplos/3_Converse_com_Documentos.py:23-34 | a name that does not start with `h` or `e` never parses (`re.match` is anchored at the start) |
| `FilenameCodec.TrailingTextIgnored` | paginas/chat_documentos.py:33-43 | text after the extension does not stop the match: the kind is kept and the meeting name starts with n |
| `FilenameCodec.LineBreakEndsName` | paginas/visualizar_transcricoes.py:20-30 | a line break after the extension ends the name group, so the meeting name is exactly n |
| `FilenameCodec.BreakBoundsReading` | paginas/relatorios.py:34-35 | any line break after the prefix lies after the name and its five-character extension |
| `FilenameCodec.StripPrefix` | paginas/relatorios.py:46-49 | `formatar_nome_arquivo`, one definition for the `html_` menu here and the `excel_` menu of paginas/analise_dados.py:36-39: with the prefix present, prefix + result is the input; otherwise the result is the input unchanged |
| `FilenameCodec.LabelKeepsExtension` | paginas/relatorios.py:46-49 | stripping the prefix of a parsed name leaves the meeting name followed by its extension |
| `FilenameCodec.LabelInverse` | paginas/analise_dados.py:36-39 | stripping undoes prepending the prefix |
| `FilenameCodec.DisplayName` | paginas/visualizar_transcricoes.py:58 | the meeting name (the longest match) when the name parses, else the raw file name |
| `FilenameCodec.FilesWithExtension` | paginas/visualizar_transcricoes.py:44 | the kept names are exactly the listing's names ending in the extension, none other, and they keep the listing's order (a subsequence of it) |
| `FilenameCodec.TranscriptMenu` | paginas/visualizar_transcricoes.py:44-45 | the menu is sorted ascending, is a permutation of the `.html` names, and labels each with its display name |
| `Markup.CloseAt` | paginas/relatorios.py:59 | the lazy `.*?>` stops at the first `>` with no line break before it; none when every `>` comes after a line break |
| `Markup.RemoveTagsLeavesNoTag` | paginas/relatorios.py:59 | after tag removal no `<…>` without a line break remains |
| `Markup.RemoveTagsNoTag` | paginas/relatorios.py:59 | text with no such tag is left unchanged |
| `Markup.RemoveTagsIdempotent` | paginas/relatorios.py:59 | tag removal applied twice equals applied once |
| `Markup.RemoveTagsPlain` | paginas/relatorios.py:59 | text without `<` is unchanged by tag removal |
| `Markup.RemoveTagsDeletesOnly` | exemplos/2_Relatorios_Inteligentes.py:45 | the non-space characters left after tag removal are a subsequence of the input's |
| `Markup.UnclosedStaysUnclosed` | paginas/relatorios.py:59 | text with no closable tag still has none after removal |
| `Markup.UnclosedTagKept` | paginas/relatorios.py:59 | a `<` whose `>` would lie beyond a line break is kept with its text |
| `Markup.CloseAtStopsAtBreak` | paginas/relatorios.py:59 | a line break before any `>` means the tag cannot close |
| `Markup.RemoveTagsTag` | paginas/relatorios.py:59 | a closed tag is replaced by exactly one space |
| `Markup.Collapse` | paginas/relatorios.py:60 | text that starts with a non-space character still starts with it after collapsing |
| `Markup.CollapseIsCollapsed` | paginas/relatorios.py:60 | after collapsing, every whitespace character is a single `' '` and no two are adjacent |
| `Markup.CollapseKeepsNonSpace` | paginas/relatorios.py:60 | collapsing keeps every non-space character in order |
| `Markup.CollapseCollapsed` | paginas/relatorios.py:60 | already-collapsed text is a fixed point |
| `Markup.NormalizeSpec` | exemplos/2_Relatorios_Inteligentes.py:46-47 | collapse-then-strip output has no leading or trailing space, only single spaces, and keeps every non-space character |
| `Markup.NormalizeIdempotent` | paginas/relatorios.py:60-61 | normalising twice equals normalising once |
| `Markup.NormalizeNormalized` | paginas/relatorios.py:60-61 | normalised text is a fixed point |
| `Markup.ExtractTextSpec` | paginas/relatorios.py:57-61 | the extracted text is stripped and single-spaced, and its non-space characters are a subsequence of the input's |
| `Markup.ExtractTextPlain` | exemplos/3_Converse_com_Documentos.py:42-47 | input without `<` is only whitespace-normalised and keeps all non-space characters |
| `Markup.ExtractTextOfNormalized` | paginas/chat_documentos.py:51-55 | normalised text without `<` passes through unchanged |
| `Markup.ExtractTaggedWords` | paginas/relatorios.py:57-61 | two words in any tags without line breaks, as in `<p>a <strong>b</strong></p>`, come out as `a b` |
| `Markup.ExtractTextExample` | paginas/relatorios.py:57-61 | `<p>Ola <strong>Ana</strong></p>` gives `Ola Ana` |
| `Highlight.MatchAt` | paginas/visualizar_transcricoes.py:36 | a match of `<strong>([^<]+)</strong>` here has content of length at least one and fits in the text |
| `Highlight.MatchAtSound` | paginas/visualizar_transcricoes.py:36 | a match really is open tag, content free of `<`, close tag |
| `Highlight.MatchAtComplete` | paginas/visualizar_transcricoes.py:36-37 | open tag, non-empty `<`-free content and close tag is always matched, with exactly that content |
| `Highlight.RewriteMatch` | paginas/visualizar_transcricoes.py:36 | a match is replaced by the styled open tag, the same content and the close tag, and the scan resumes after it |
| `Highlight.RewriteSingle` | paginas/visualizar_transcricoes.py:36-37 | `<strong>T</strong>` or `<b>T</b>`, with T non-empty and free of `<`, becomes the styled tag around the same T |
| `Highlight.StrongNameStyled` | paginas/visualizar_transcricoes.py:36 | the whole highlighter turns `<strong>name</strong>` into the styled strong tag around the unchanged name |
| `Highlight.BoldNameStyled` | paginas/visualizar_transcricoes.py:37 | the whole highlighter turns `<b>name</b>` into the styled bold tag around the unchanged name |
| `Highlight.AttributeTagKept` | paginas/visualizar_transcricoes.py:36-37 | a tag that is not the literal open tag (e.g. one with attributes) is copied unchanged |
| `Highlight.EmptyElementKept` | paginas/visualizar_transcricoes.py:36-37 | an element with empty content is left unchanged |
| `Highlight.NestedMarkupKept` | paginas/visualizar_transcricoes.py:36-37 | an open tag followed directly by nested markup is left unchanged |
| `Highlight.TagKept` | paginas/visualizar_transcricoes.py:36-37 | a tag where no match starts is copied and the rest is rewritten |
| `Highlight.NoContentNoMatch` | paginas/visualizar_transcricoes.py:36-37 | an open tag with no text before the next `<` never matches |
| `Highlight.OtherTagNoMatch` | paginas/visualizar_transcricoes.py:36-37 | a tag that differs from the open tag never matches |
| `Highlight.FreePrefix` | paginas/visualizar_transcricoes.py:36 | text without `<` is copied unchanged ahead of the rewritten rest |
| `Highlight.NoMatchUnchanged` | paginas/visualizar_transcricoes.py:36-37 | a rule that matches nowhere leaves the text unchanged |
| `Highlight.NoMatchAfter` | paginas/visualizar_transcricoes.py:36-37 | after a rewrite, that rule matches nowhere, and a compatible rule that matched nowhere still matches nowhere |
| `Highlight.KeptPositionMatch` | paginas/visualizar_transcricoes.py:36-37 | where one rule does not match, rewriting with it does not change whether a compatible rule matches |
| `Highlight.RulesCompatible` | paginas/visualizar_transcricoes.py:36-37 | the strong and bold rules do not interfere: the styled forms start neither open tag |
| `Highlight.HighlightIdempotent` | paginas/visualizar_transcricoes.py:34-41 | highlighting twice equals highlighting once, because styled tags no longer match the literal open tags |
| `Highlight.AbsentTagNoMatch` | paginas/visualizar_transcricoes.py:36-37 | without a literal open tag, the rule matches nowhere |
| `Highlight.NoTagsUnchanged` | paginas/visualizar_transcricoes.py:34-41 | text with no literal `<strong>` or `<b>` is returned unchanged |
| `Reports.Instruction` | paginas/relatorios.py:85 | a known report type gets its own prompt from the table; any other type gets the `resumo` prompt |
| `Reports.UnknownTypeIsSummary` | paginas/relatorios.py:85-86 | the full prompt for an unknown type is the `resumo` prompt |
| `Reports.PromptIgnoresTail` | paginas/relatorios.py:86 | content past the first 15000 characters never changes the prompt |
| `Reports.PromptEmbedsShortContent` | paginas/relatorios.py:86 | content of at most 15000 characters appears verbatim in the prompt after the instruction and header |
| `Reports.RemoveAll` | paginas/relatorios.py:119 | removing every occurrence of a phrase never lengthens the text |
| `Reports.DropAll` | paginas/relatorios.py:118-119 | the sequential removals never lengthen the text |
| `Reports.CleanReport` | paginas/relatorios.py:117-122 | the loop over the denylist followed by `strip` computes the cleanup function |
| `Reports.CleanupShape` | paginas/relatorios.py:118-122 | the cleaned report is no longer than the answer and has no leading or trailing whitespace |
| `Reports.DropAllAbsent` | paginas/relatorios.py:118-119 | phrases that occur neither with nor without their colon leave the text unchanged |
| `Reports.CleanupWithoutPhrases` | paginas/relatorios.py:94-122 | an answer containing no denylist phrase is only stripped |
| `Reports.DropAllTwo` | paginas/relatorios.py:118-119 | the removals apply in list order, one phrase after another |
| `Reports.DenylistHeads` | paginas/relatorios.py:94-115 | every denylist phrase is non-empty and starts with `A`, `S` or `C` |
| `Reports.FirstPhraseAbsent` | paginas/relatorios.py:95-96 | the first phrase is not contained in an answer that opens with the second |
| `Reports.SecondPhraseDropped` | paginas/relatorios.py:96 | the second phrase at the head of the answer is removed |
| `Reports.LaterPhrasesAbsent` | paginas/relatorios.py:97-114 | the remaining phrases cannot occur in text free of `A`, `S` and `C` |
| `Reports.CleanupAfterOpener` | paginas/relatorios.py:94-122 | an answer that opens with the concise-summary phrase reduces to the stripped rest |
| `Reports.CleanupOpenerBody` | paginas/relatorios.py:94-122 | the opener followed by a blank line and a trimmed body gives exactly the body |
| `Reports.CleanupExample` | paginas/relatorios.py:94-124 | `"Aqui está um resumo conciso da transcrição da reunião:\n\nPonto principal."` becomes `"Ponto principal."` |
| `Reports.ReportOf` | paginas/relatorios.py:88-127 | a failed model call yields None; otherwise the result is the cleaned answer |
| `Reports.GenerateReport` | paginas/relatorios.py:74-127 | the report generator computes that result |
| `Reports.Stored` | paginas/relatorios.py:384-390 | only a non-empty report is stored, together with its type and the meeting name (the raw file name when parsing fails) |
| `Reports.ReportSession.constructor` | paginas/relatorios.py:366-371 | the three session fields start empty |
| `Reports.ReportSession.RecordReport` | paginas/relatorios.py:384-390 | a non-empty report sets all three fields; a missing or empty one leaves all three unchanged |
| `StructuredReports.Instruction` | exemplos/2_Relatorios_Inteligentes.py:149 | a known type gets its own prompt, any other the `resumo` prompt |
| `StructuredReports.StructureKey` | exemplos/2_Relatorios_Inteligentes.py:150 | a known type gets its own output structure, any other the `resumo` structure |
| `StructuredReports.SameReportTypes` | exemplos/2_Relatorios_Inteligentes.py:76-146 | the prompt table and the structure table have the same keys in the same order |
| `StructuredReports.UnknownTypeIsSummary` | exemplos/2_Relatorios_Inteligentes.py:149-153 | an unknown type builds exactly the `resumo` prompt, structure included |
| `StructuredReports.PromptIgnoresTail` | exemplos/2_Relatorios_Inteligentes.py:153 | only `content[:15000]` enters the prompt |
| `StructuredReports.NearestClose` | exemplos/2_Relatorios_Inteligentes.py:165 | the lazy `(.+?)` ends at the nearest closing fence |
| `StructuredReports.Fenced` | exemplos/2_Relatorios_Inteligentes.py:165 | none exactly when no fenced block with non-empty content exists; otherwise the earliest opening with its nearest close |
| `StructuredReports.LastCloseBrace` | exemplos/2_Relatorios_Inteligentes.py:170 | the greedy `.+` ends at the last `}` |
| `StructuredReports.Braces` | exemplos/2_Relatorios_Inteligentes.py:170 | the span runs from the first `{` to the last `}` with at least one character between; none exactly when no such pair exists |
| `StructuredReports.ExtractJson` | exemplos/2_Relatorios_Inteligentes.py:163-172 | the step-by-step rebinding of the response text computes the extracted JSON text |
| `StructuredReports.FencedBlockExtracted` | exemplos/2_Relatorios_Inteligentes.py:165-167 | a fenced `json` block with non-empty content X yields exactly X |
| `StructuredReports.BraceSpanExtracted` | exemplos/2_Relatorios_Inteligentes.py:168-172 | without a fence, the first-`{`-to-last-`}` span is extracted |
| `StructuredReports.BareBracesNotSpan` | exemplos/2_Relatorios_Inteligentes.py:170 | a bare `{}` does not match, so the text passes unchanged |
| `StructuredReports.PlainAnswerWhole` | exemplos/2_Relatorios_Inteligentes.py:163-175 | when neither pattern can match, the whole response reaches the decoder |
| `StructuredReports.StructuredReport` | exemplos/2_Relatorios_Inteligentes.py:155-185 | a model failure gives None; otherwise one decode of the extracted text, so a decode failure is None with no retry |
| `StructuredReports.GenerateReport` | exemplos/2_Relatorios_Inteligentes.py:74-185 | the generator computes that result |
| `StructuredReports.SheetParts` | exemplos/2_Relatorios_Inteligentes.py:406-409 | two parts per sheet, in order: `Planilha: name`, then the sheet's text |
| `StructuredReports.SheetText` | exemplos/2_Relatorios_Inteligentes.py:406-410 | the loop and `"\n\n".join` compute the joined parts |
| `StructuredReports.OneSheetText` | exemplos/2_Relatorios_Inteligentes.py:406-410 | one sheet gives `Planilha: name`, a blank line, then the table text |
| `StructuredReports.DownloadNameAsWritten` | exemplos/2_Relatorios_Inteligentes.py:387-427 | as written: a download name exists exactly when the selected name parses |
| `StructuredReports.UnparsedNameHasNoDownload` | exemplos/2_Relatorios_Inteligentes.py:427-433 | `notes.html` gets no download name, so the error handler at 431-433 is reached instead |
| `StructuredReports.DownloadNameAgrees` | exemplos/2_Relatorios_Inteligentes.py:387-427 | the corrected name agrees with the as-written one whenever that exists, and otherwise uses the raw file name as the heading does |
| `StructuredReports.UnparsedNameDownload` | exemplos/2_Relatorios_Inteligentes.py:427 | under the correction (the heading's fallback at 392) `notes.html` downloads as `relatorio_notes.html_resumo.json` |
| `Dict.Get` | exemplos/3_Converse_com_Documentos.py:103-104 | a key is found exactly when it is among the keys, and the value found is stored under it |
| `Dict.GetOr` | paginas/relatorios.py:85 | `dict.get(key, default)`: the default exactly for a missing key |
| `Dict.Put` | exemplos/3_Converse_com_Documentos.py:68-72 | an existing key keeps its position; a new key is appended at the end |
| `Dict.PutKeepsUnique` | exemplos/3_Converse_com_Documentos.py:68-72 | assignment keeps the keys unique |
| `Dict.GetPutSame` | exemplos/3_Converse_com_Documentos.py:68-72 | after assignment the key maps to the new value |
| `Dict.GetPutOther` | exemplos/3_Converse_com_Documentos.py:68-72 | assignment leaves every other key's value unchanged |
| `Corpus.CorpusOf` | exemplos/3_Converse_com_Documentos.py:55-74 | the loaded documents have unique keys |
| `Corpus.LoadDocuments` | exemplos/3_Converse_com_Documentos.py:55-74 | the loop over the `.html` names computes the corpus with the page's parser and tag stripper |
| `Corpus.CorpusKeys` | paginas/chat_documentos.py:69-88 | a meeting name is a key exactly when some `.html` file in the listing parses to it; non-parsing files are skipped |
| `Corpus.CorpusLookup` | exemplos/3_Converse_com_Documentos.py:57-72 | the document under a name comes from the last file in listing order that parses to it |
| `Corpus.LastNamed` | exemplos/3_Converse_com_Documentos.py:57-72 | the last file in listing order named so, and nothing named so after it |
| `Corpus.LaterFileWins` | paginas/chat_documentos.py:71-86 | of two files with the same meeting name, the later one is the stored document |
| `Corpus.ExcelNamedHtmlLoaded` | exemplos/3_Converse_com_Documentos.py:57-72 | `excel_x.html` is loaded under the meeting name `x` |
| `Corpus.BlocksAppend` | exemplos/3_Converse_com_Documentos.py:101-107 | the context of two runs of blocks is their concatenation |
| `Corpus.Picked` | exemplos/3_Converse_com_Documentos.py:102-106 | the selected names that are documents, in selection order, each with its first 5000 characters; missing names skipped |
| `Corpus.CombinedContext` | exemplos/3_Converse_com_Documentos.py:99-107 | the `+=` loop builds the blocks of the picked documents |
| `Corpus.Entries` | paginas/chat_documentos.py:94-96 | every document in insertion order, with its full content |
| `Corpus.AllContext` | paginas/chat_documentos.py:91-97 | the `+=` loop builds the blocks of every document with no truncation |
| `Corpus.CutEach` | exemplos/3_Converse_com_Documentos.py:106 | each entry cut to the limit, names and order kept |
| `Corpus.AllKeysPicked` | exemplos/3_Converse_com_Documentos.py:151-152 | selecting every key picks every document in dictionary order, each cut to 5000 characters |
| `Corpus.ShortDocumentsSameContext` | exemplos/3_Converse_com_Documentos.py:99-107 | when no document exceeds 5000 characters, the two pages build the same context |
| `Corpus.SinglePromptIgnoresTail` | exemplos/3_Converse_com_Documentos.py:84 | only `context[:15000]` enters the single-document prompt |
| `Corpus.SinglePromptEmbedsShortContext` | exemplos/3_Converse_com_Documentos.py:77-88 | a context of at most 15000 characters appears verbatim after the meeting header |
| `Corpus.AnswerText` | exemplos/3_Converse_com_Documentos.py:90-96 | a failure becomes the error prefix followed by its message instead of raising; an answer is returned as is |
| `Corpus.Turns` | exemplos/3_Converse_com_Documentos.py:155-184 | the user turn comes first for a non-empty question; an assistant turn follows exactly when question, documents and session key are all non-empty |
| `Corpus.EmptyKeyNeverAnswers` | exemplos/3_Converse_com_Documentos.py:137-156 | with the key still `""`, only user turns are appended |
| `Corpus.ChatSession.constructor` | exemplos/3_Converse_com_Documentos.py:133-138 | the history starts empty and the key starts as `""` |
| `Corpus.ChatSession.Submit` | exemplos/3_Converse_com_Documentos.py:155-184 | a submission appends those turns and never sets the key, so a session that starts as on the page never holds an assistant turn |
| `Corpus.ChatSession.SubmitWithConfiguredKey` | exemplos/3_Converse_com_Documentos.py:141-184 | corrected: the key from the secrets gates the answer, and the turns are appended |
| `Corpus.ConfiguredKeyAnswers` | exemplos/3_Converse_com_Documentos.py:164-177 | with a configured key, a question over documents gets both the user and the assistant turn |
| `Corpus.SearchOutcome` | paginas/chat_documentos.py:156-178 | the model is consulted only when question, setup and documents are all present; otherwise exactly one message, checked in the order question, key, documents; a setup failure shows the processing error |
| `TextStatistics.Hits` | exemplos/1_Analise_de_Dados.py:121-122 | the number of lexicon hits never exceeds the number of tokens |
| `TextStatistics.HitsBounds` | exemplos/1_Analise_de_Dados.py:121-122 | zero hits without lexicon words, at least one with one, and every token counted when all are lexicon words |
| `TextStatistics.HitsAppend` | exemplos/1_Analise_de_Dados.py:121-122 | every occurrence counts, repeats included: the hits of two token lists add up |
| `TextStatistics.Score` | exemplos/1_Analise_de_Dados.py:124-130 | the score lies in [-1, 1], is 0 exactly when the counts are equal (no hits included), is positive exactly when positives dominate, and is ±1 when only one side occurs |
| `TextStatistics.LexiconsDisjoint` | exemplos/1_Analise_de_Dados.py:111-115 | no word is in both lexicons |
| `TextStatistics.NeutralWithoutHits` | exemplos/1_Analise_de_Dados.py:125-127 | no lexicon word gives the neutral score 0 |
| `TextStatistics.OnlyPositiveScoresOne` | exemplos/1_Analise_de_Dados.py:125-130 | only positive words give 1 |
| `TextStatistics.OnlyNegativeScoresMinusOne` | exemplos/1_Analise_de_Dados.py:125-130 | only negative words give -1 |
| `TextStatistics.RepeatKeepsScore` | exemplos/1_Analise_de_Dados.py:121-130 | repeating a text leaves its score unchanged |
| `TextStatistics.FilterTokens` | exemplos/1_Analise_de_Dados.py:84-87 | the kept tokens are an order-preserving subsequence, each alphabetic and not a stopword, and every such token is kept |
| `TextStatistics.FilterAppend` | exemplos/1_Analise_de_Dados.py:85 | filtering works token by token: filtering two lists is filtering each |
| `TextStatistics.FilterIdempotent` | exemplos/1_Analise_de_Dados.py:85 | filtering twice equals filtering once |
| `TextStatistics.Pieces` | exemplos/1_Analise_de_Dados.py:409 | `re.split(r'[.!?]+')` gives at least one piece, none containing `.`, `!` or `?` |
| `TextStatistics.PiecesCount` | exemplos/1_Analise_de_Dados.py:409 | the sentence count is 1 plus the number of maximal runs of `.!?` |
| `TextStatistics.TrailingStopEmptyPiece` | exemplos/1_Analise_de_Dados.py:409 | trailing punctuation adds an empty last piece |
| `TextStatistics.WordsPerSentence` | exemplos/1_Analise_de_Dados.py:410 | words per sentence is between 0 and the word count, since the divisor is at least 1 |
| `TextStatistics.UniqueWordsBound` | exemplos/1_Analise_de_Dados.py:277 | there are never more distinct words than words |
| `TextStatistics.LexicalDiversity` | exemplos/1_Analise_de_Dados.py:273-281 | diversity lies in [0, 1] and is 0 exactly when there are no words |
| `Interactions.Pairs` | exemplos/1_Analise_de_Dados.py:346-348 | max(0, L-1) transitions for L speakers, transition i being speaker i followed by speaker i+1 |
| `Interactions.Transitions` | exemplos/1_Analise_de_Dados.py:346-348 | the append loop computes those transitions |
| `Interactions.PairsFromSpeakers` | exemplos/1_Analise_de_Dados.py:346-348 | both ends of every transition are speakers of the meeting |
| `Interactions.Occurrences` | exemplos/1_Analise_de_Dados.py:350 | the `Counter` entry, used for transitions and for token frequencies alike: at most the length, and 0 exactly when the item never occurs |
| `Interactions.InteractionMatrix` | exemplos/1_Analise_de_Dados.py:350-360 | the matrix is indexed by the sorted distinct speakers, and each entry is the number of occurrences of that transition (0 for unseen pairs) |
| `Interactions.FillCounts` | exemplos/1_Analise_de_Dados.py:359-360 | the fill loop over the distinct transitions sets each counted entry and leaves the remaining zeros |
| `Interactions.EntriesComplete` | exemplos/1_Analise_de_Dados.py:357-360 | filling from every distinct transition leaves each entry equal to its occurrence count |
| `Interactions.MatrixSums` | exemplos/1_Analise_de_Dados.py:357-360 | the entries sum to the number of transitions, and the diagonal sums to the self-transitions |
| `Interactions.MeetingMatrixSums` | exemplos/1_Analise_de_Dados.py:343-360 | for the meeting's speakers, the entries sum to max(0, L-1), and self-transitions land on the diagonal |
| `Interactions.SortedLabelsDistinct` | exemplos/1_Analise_de_Dados.py:353 | the sorted unique speakers have no repeats |
| `Interactions.SegmentBounds` | exemplos/1_Analise_de_Dados.py:376-377 | the first segment starts at 0 and the last ends at n, and every segment has n//5 or n//5+1 rows |
| `Interactions.SegmentsBalanced` | exemplos/1_Analise_de_Dados.py:377 | any two segments differ in size by at most one |
| `Interactions.Monotone` | exemplos/1_Analise_de_Dados.py:377 | segment boundaries are non-decreasing and within the rows |
| `Interactions.SegmentsCover` | exemplos/1_Analise_de_Dados.py:377 | the first k segments concatenated are exactly the rows up to the k-th boundary |
| `Interactions.AllSegmentsCover` | exemplos/1_Analise_de_Dados.py:377 | the five segments concatenated are all rows, each once and in order |
| `Interactions.SortByFrequency` | exemplos/1_Analise_de_Dados.py:388-391 | ordering by descending frequency is a permutation |
| `Interactions.MostCommon` | exemplos/1_Analise_de_Dados.py:391 | `most_common(k)`: min(k, distinct) distinct tokens of the text, by descending frequency, and every token left out is no more frequent than any token kept |
| `Interactions.SegmentKeywords` | exemplos/1_Analise_de_Dados.py:380-397 | one row per segment, five in all, each the segment's label and its at most five top kept tokens joined by commas |
| `Order.Sort` | paginas/visualizar_transcricoes.py:45 | `list.sort()`: sorted ascending and a permutation of the input |
| `Order.SortedDistinct` | exemplos/1_Analise_de_Dados.py:353 | `sorted(unique())`: strictly ascending, the same members as the input, never longer |
| `Order.Distinct` | exemplos/1_Analise_de_Dados.py:350 | `unique()`: every item of the input appears, each exactly once, nothing else, and in the order of their first occurrences |
| `Order.LessTotal` | paginas/visualizar_transcricoes.py:45 | Python's string order is total |
| `Order.LessTransitive` | paginas/visualizar_transcricoes.py:45 | Python's string order is transitive |
| `SpeechAnalysis.SpreadsheetMenu` | paginas/analise_dados.py:46-60 | the menu is the `.xlsx` names sorted ascending, each shown with its `excel_` prefix removed |
| `SpeechAnalysis.CheckColumns` | paginas/analise_dados.py:87-90 | analysis exactly when all five columns are present; otherwise the warning of lines 227-229 with the comma-joined available columns |
| `SpeechAnalysis.MissingColumnWarns` | paginas/analise_dados.py:227-229 | any missing expected column gives the format warning |
| `SpeechAnalysis.ExtraColumnsAnalysed` | paginas/analise_dados.py:87-88 | extra columns around the expected ones do not stop the analysis |
| `SpeechAnalysis.Participants` | paginas/analise_dados.py:97 | the distinct speaker count is at most the number of rows, and 0 exactly when there are none |
| `SpeechAnalysis.SpeakerCount` | paginas/analise_dados.py:130 | one speaker's utterances are at most all utterances |
| `SpeechAnalysis.SpeakerLabels` | paginas/analise_dados.py:144 | the group keys: no repeats, every speaker present, as many as the participants |
| `SpeechAnalysis.GroupsAddUp` | paginas/analise_dados.py:144-148 | over any duplicate-free labels covering the speakers, the per-speaker sums add up to the column total and the counts to the number of rows |
| `SpeechAnalysis.SummaryAddsUp` | paginas/analise_dados.py:212-215 | the summary's per-speaker duration and word sums add up to the page's totals (lines 106 and 113), and its per-speaker utterance counts to len(df) (line 101) |
| `SpeechAnalysis.SpeakerPresent` | paginas/analise_dados.py:212-213 | a speaker in the table has at least one utterance |
| `SpeechAnalysis.SummaryOf` | paginas/analise_dados.py:212-219 | each speaker's summary row has at least one utterance, and mean times count gives the total for both words and duration |
| `SpeechAnalysis.Quotient` | paginas/analise_dados.py:166 | float division: the exact quotient for a non-zero divisor; over 0, +inf, -inf or NaN by the dividend's sign |
| `SpeechAnalysis.FillNa` | paginas/analise_dados.py:167 | `fillna`: never NaN, and any other value unchanged |
| `SpeechAnalysis.Clip` | paginas/analise_dados.py:167 | `clip(lo, hi)`: within bounds, in-range values kept, +inf and large values become hi, -inf and small values become lo |
| `SpeechAnalysis.Wpm` | paginas/analise_dados.py:166-167 | every WPM lies in [0, 500] |
| `SpeechAnalysis.WpmWithDuration` | paginas/analise_dados.py:166-167 | with a non-zero duration, WPM is words/duration·60 clipped to [0, 500] |
| `SpeechAnalysis.WpmWithoutDuration` | paginas/analise_dados.py:166-167 | with zero duration, 0/0 gives 0, positive words give 500 (infinity clipped), negative give 0 |
| `SpeechAnalysis.AddWpm` | paginas/analise_dados.py:166-167 | the column assigned and then overwritten holds every row's WPM, all in [0, 500] |
| `SpeechAnalysis.MeanWpm` | paginas/analise_dados.py:169 | every speaker's mean WPM lies in [0, 500] |
| `SpeechAnalysis.SpeakerTotalBounds` | paginas/analise_dados.py:169 | a sum of values in [0, 500] over a speaker's rows lies in [0, 500·count] |
| `SpeechAnalysis.MaxStart` | paginas/analise_dados.py:186 | the maximum start is one of the starts and at least every start |
| `SpeechAnalysis.PhasesFollowTime` | paginas/analise_dados.py:188-190 | a later start never gets an earlier phase |
| `SpeechAnalysis.PhaseExtremes` | paginas/analise_dados.py:188-190 | with max ≥ 0 the max row is `Fim` (the later assignment wins), and with max > 0 a start of 0 is `Início` |
| `SpeechAnalysis.NegativeStarts` | paginas/analise_dados.py:188-190 | with a negative max no row is `Meio`, and the max row is `Início` |
| `SpeechAnalysis.AssignPhases` | paginas/analise_dados.py:188-190 | the column set to `Meio` and then overwritten twice gives every row exactly its phase |
| `SpeechAnalysis.Starts` | paginas/analise_dados.py:186 | the start column, row for row |
| `SpeechAnalysis.ParticipationByPhase` | paginas/analise_dados.py:183-192 | no table for an empty sheet; otherwise the row labels are the sorted distinct phase names and the column labels the sorted distinct speakers (the `groupby`/`unstack` index), each row is counted under its phase and speaker, and the counts sum to the number of rows |
| `SpeechAnalysis.TableAddsUp` | paginas/analise_dados.py:192 | a phase×speaker count table over duplicate-free labels covering the entries sums to the number of entries |

## Left out

- **I/O.** File reads, `os.listdir`, `pd.read_excel`, the `path` field of a loaded document, and all Streamlit widgets, layout and reruns are not modelled. Listings, file contents and spreadsheet rows are inputs. Unsorted listings are taken in the order given.
- **Outside services.** The Gemini client and its configuration are an abstract function from prompt to answer or failure. `json.loads`, `json.dumps` of the output structures and `df.to_string` are given functions.
- **Text processing inputs.** nltk's `word_tokenize`, `str.lower` and the stopword corpus are given functions and sets.
- **Other pages.** The HTML report template, including its Markdown conversion and `pd.Timestamp.now()`, is not modelled, and neither are the zip export of the start page, Plotly, matplotlib or wordcloud.
- **Floats.** Floats are exact reals. 0.33 and 0.67 are exact decimals, so a start that float rounding moves across a phase boundary is not modelled. `.round(1)` and the duration-in-minutes display (`/ 60`) are not modelled.
- **Percentages.** The percentage columns (paginas/analise_dados.py:149, exemplos/1_Analise_de_Dados.py:240) are not modelled beyond the sums they divide by.
- **Phase order.** `df.sort_values('inicio')` before the phase assignment is not modelled. Only the grouped counts leave that block, and they do not depend on row order.
- **Display order.** Sorting the mean-WPM and summary tables for display is not modelled (paginas/analise_dados.py:171, 223). pandas' default sort is not stable, so the order of tied rows is not determined by the source.
- **Malformed cells.** Every row's cells are taken as present, with exact values. An empty or non-numeric cell, and a mean over an absent column, are not modelled.
- **Other `exemplos/1` metrics.** Its column check, the metrics and histogram of tab 1 and the participation charts of tab 2 are not modelled. The same holds for the per-speaker means of sentiment and words per sentence (exemplos/1_Analise_de_Dados.py:163-166, 174-261, 320-323, 413).
- `TextStatistics.IsLetter`: `str.isalpha` is approximated by the ASCII letters and the letters of the Latin-1 supplement. Letters beyond U+00FF are not recognised.
- `Interactions.MostCommon`: `Counter.most_common` breaks frequency ties by first occurrence. The contract fixes the count, the descending frequencies and that no token left out is more frequent than a token kept. It does not state the order among tied tokens, or which of several tokens tied at the cut are kept.
- `Interactions.SegmentKeywords`: the label is written for the five segments only, which matches `n_segments = 5`.
- `Corpus.CorpusKeys`: this and the other corpus lemmas are stated for any name parser. `Corpus.LoadDocuments` instantiates them with the file-name codec.
- `Markup.ExtractTextExample`: the example is stated with its tags written as pieces (`Tag("p")` is `"<p>"`). `Markup.ExtractTaggedWords` gives the same result for any two words and any line-free tags.
- `Reports.CleanupExample`: the opener is written as the denylist's second entry, which is that literal phrase.
- `Corpus.SearchOutcome`: an exception raised while building the context is not modelled; only a failure to set up the model or a failed call is.
- **Shared session state.** `Corpus.ChatSession` holds the chat page's own session fields only. Streamlit shares `st.session_state` between pages, and a key stored by the report page (exemplos/2_Relatorios_Inteligentes.py:341) is not modelled; a session is one in which no other page has stored a key.
- **Model calls.** The structured-report and chat pages' `st.error` side messages are not modelled; only the returned values are.

## Findings

| source | as written | input that shows it | evidently intended | confidence | as-written member | corrected member |
|---|---|---|---|---|---|---|
| exemplos/2_Relatorios_Inteligentes.py:427 | the download name uses `meeting_name`, which is only bound when the selected file name parses (387-389); otherwise the `NameError` is caught at 431-433 and no download is offered | selected file `notes.html` with report type `resumo` | fall back to the raw file name, as the heading at 392 does, giving `relatorio_notes.html_resumo.json` | not executed | `StructuredReports.UnparsedNameHasNoDownload` | `StructuredReports.UnparsedNameDownload` |
| exemplos/3_Converse_com_Documentos.py:156 | the answer is gated on `st.session_state.gemini_api_key`, which is initialised to `""` (137-138) and never set on this page, because the key read from the secrets at 142 goes into a local only; the session state is shared between pages, and exemplos/2_Relatorios_Inteligentes.py:341 does store a key, so this holds in a session where that page has not stored one; there no assistant turn is ever appended | any question over a non-empty corpus in a fresh session that has not visited the report page's key setup | gate on the configured key, so that a question over documents is answered | not executed | `Corpus.EmptyKeyNeverAnswers` | `Corpus.ConfiguredKeyAnswers` |
