/**
 * The document chat: the corpus of transcripts loaded from the output
 * directory (a dictionary from meeting name to document), the context
 * blocks built from it, the two prompts, the answer functions that turn a
 * model failure into an error message, the chat history of the example
 * chat page and the guard of the search button of the chat page.
 */
module Corpus {
  import opened Wrappers
  import opened Text
  import opened Oracle
  import opened Dict
  import FilenameCodec
  import Markup

  /** One loaded transcript: the file it came from and its tag-free text. */
  datatype Document = Document(filename: string, content: string)

  /** Meeting name to document, in insertion order. */
  type Documents = Table<string, Document>

  /** The file names of the listing that end in `.html`, in listing order. */
  function HtmlFiles(listing: seq<string>): seq<string>
  {
    FilenameCodec.FilesWithExtension(listing, ".html")
  }

  /**
   * A file-name parser. The loader uses `FilenameCodec.Parse`; the lemmas
   * about loading hold for any parser.
   */
  type Parser = string -> Option<FilenameCodec.FileInfo>

  /** `f` parses and its meeting name is `name`. */
  predicate NamedAs(parse: Parser, f: string, name: string)
  {
    parse(f).Some? && parse(f).value.meetingName == name
  }

  // ---------------------------------------------------------------------
  // Loading
  // ---------------------------------------------------------------------

  /**
   * The dictionary after the loader has visited `files` in order: a file
   * whose name parses is stored under its meeting name with the text of
   * its contents (`read` stands for reading the file), a file whose name
   * does not parse is skipped.
   */
  function CorpusOf(files: seq<string>, parse: Parser, read: string -> string): (d: Documents)
    ensures UniqueKeys(d)
    decreases |files|
  {
    if files == [] then []
    else
      var d := CorpusOf(files[..|files| - 1], parse, read);
      var f := files[|files| - 1];
      match parse(f)
      case None => d
      case Some(info) =>
        PutKeepsUnique(d, info.meetingName, Document(f, Markup.ExtractText(read(f))));
        Put(d, info.meetingName, Document(f, Markup.ExtractText(read(f))))
  }

  /** The loader: every `.html` file of the listing, visited in listing order. */
  method LoadDocuments(listing: seq<string>, read: string -> string) returns (documents: Documents)
    ensures documents == CorpusOf(HtmlFiles(listing), FilenameCodec.Parse, read)
  {
    var htmlFiles := HtmlFiles(listing);
    documents := [];
    for i := 0 to |htmlFiles|
      invariant documents == CorpusOf(htmlFiles[..i], FilenameCodec.Parse, read)
    {
      var f := htmlFiles[i];
      PrefixSnoc(htmlFiles, i + 1);
      CorpusStep(htmlFiles[..i], f, FilenameCodec.Parse, read);
      var info := FilenameCodec.Parse(f);
      if info.Some? {
        var text := Markup.ExtractText(read(f));
        documents := Put(documents, info.value.meetingName, Document(f, text));
      }
    }
    assert htmlFiles[..|htmlFiles|] == htmlFiles;
  }

  /** The position of the last file of `files` named `name`, if any. */
  function LastNamed(files: seq<string>, parse: Parser, name: string): (r: Option<nat>)
    ensures r.Some? ==> r.value < |files| && NamedAs(parse, files[r.value], name)
    ensures r.Some? ==> forall j :: r.value < j < |files| ==> !NamedAs(parse, files[j], name)
    ensures r.None? ==> forall j :: 0 <= j < |files| ==> !NamedAs(parse, files[j], name)
    decreases |files|
  {
    if files == [] then None
    else if NamedAs(parse, files[|files| - 1], name) then Some(|files| - 1)
    else
      var r := LastNamed(files[..|files| - 1], parse, name);
      assert forall j :: 0 <= j < |files| - 1 ==> files[..|files| - 1][j] == files[j];
      r
  }

  /** One step of the loader, unfolded: the corpus of `files + [f]`. */
  lemma CorpusStep(files: seq<string>, f: string, parse: Parser, read: string -> string)
    ensures CorpusOf(files + [f], parse, read) ==
      match parse(f)
      case None => CorpusOf(files, parse, read)
      case Some(info) => Put(CorpusOf(files, parse, read), info.meetingName, Document(f, Markup.ExtractText(read(f))))
  {
    assert (files + [f])[..|files|] == files;
  }

  /**
   * What the corpus holds under `name`: nothing when no file is named
   * `name`, otherwise the document of the LAST such file, so a later file
   * overwrites an earlier one with the same meeting name.
   */
  lemma {:induction false} CorpusLookup(files: seq<string>, parse: Parser, read: string -> string, name: string)
    ensures Get(CorpusOf(files, parse, read), name) == Stored(files, parse, read, name)
    decreases |files|
  {
    if files != [] {
      var init, f := files[..|files| - 1], files[|files| - 1];
      CorpusLookup(init, parse, read, name);
      SplitLast(files);
      LookupStep(init, f, parse, read, name);
    }
  }

  /** The document of the last file named `name`, if any. */
  function Stored(files: seq<string>, parse: Parser, read: string -> string, name: string): Option<Document>
  {
    match LastNamed(files, parse, name)
    case None => None
    case Some(i) => Some(Document(files[i], Markup.ExtractText(read(files[i]))))
  }

  /** `LastNamed` of one more file. */
  lemma LastNamedStep(files: seq<string>, f: string, parse: Parser, name: string)
    ensures LastNamed(files + [f], parse, name) == if NamedAs(parse, f, name) then Some(|files|) else LastNamed(files, parse, name)
  {
    assert (files + [f])[..|files|] == files;
  }

  /** One more file keeps a lookup in line with `Stored`. */
  lemma LookupStep(files: seq<string>, f: string, parse: Parser, read: string -> string, name: string)
    requires Get(CorpusOf(files, parse, read), name) == Stored(files, parse, read, name)
    ensures Get(CorpusOf(files + [f], parse, read), name) == Stored(files + [f], parse, read, name)
  {
    CorpusStep(files, f, parse, read);
    LastNamedStep(files, f, parse, name);
    if NamedAs(parse, f, name) {
      LookupNamed(files, f, parse, read, name);
    } else {
      LookupOther(files, f, parse, read, name);
    }
  }

  /** A file named `name` is what `name` reads afterwards. */
  lemma LookupNamed(files: seq<string>, f: string, parse: Parser, read: string -> string, name: string)
    requires NamedAs(parse, f, name)
    ensures Get(CorpusOf(files + [f], parse, read), name) == Stored(files + [f], parse, read, name)
  {
    CorpusStep(files, f, parse, read);
    LastNamedStep(files, f, parse, name);
    GetPutSame(CorpusOf(files, parse, read), name, Document(f, Markup.ExtractText(read(f))));
    assert (files + [f])[|files|] == f;
  }

  /** A file not named `name` changes neither what `name` reads nor which file it came from. */
  lemma LookupOther(files: seq<string>, f: string, parse: Parser, read: string -> string, name: string)
    requires !NamedAs(parse, f, name)
    requires Get(CorpusOf(files, parse, read), name) == Stored(files, parse, read, name)
    ensures Get(CorpusOf(files + [f], parse, read), name) == Stored(files + [f], parse, read, name)
  {
    StoredOther(files, f, parse, read, name);
    CorpusStep(files, f, parse, read);
    match parse(f)
    case None =>
    case Some(info) =>
      GetPutOther(CorpusOf(files, parse, read), info.meetingName, Document(f, Markup.ExtractText(read(f))), name);
  }

  /** `Stored` of one more file not named `name`. */
  lemma StoredOther(files: seq<string>, f: string, parse: Parser, read: string -> string, name: string)
    requires !NamedAs(parse, f, name)
    ensures Stored(files + [f], parse, read, name) == Stored(files, parse, read, name)
  {
    LastNamedStep(files, f, parse, name);
    if LastNamed(files, parse, name).Some? {
      var i := LastNamed(files, parse, name).value;
      assert (files + [f])[i] == files[i];
    }
  }

  /**
   * The keys of the loaded corpus are exactly the meeting names of the
   * `.html` files of the listing whose names parse.
   */
  lemma CorpusKeys(listing: seq<string>, parse: Parser, read: string -> string, name: string)
    ensures name in Keys(CorpusOf(HtmlFiles(listing), parse, read)) <==>
      exists i :: 0 <= i < |listing| && EndsWith(listing[i], ".html") && NamedAs(parse, listing[i], name)
  {
    var files := HtmlFiles(listing);
    CorpusLookup(files, parse, read, name);
    var last := LastNamed(files, parse, name);
    if last.Some? {
      var k := last.value;
      assert files[k] in listing;
      var i :| 0 <= i < |listing| && listing[i] == files[k];
      assert EndsWith(listing[i], ".html") && NamedAs(parse, listing[i], name);
    } else {
      forall i | 0 <= i < |listing| && EndsWith(listing[i], ".html") ensures !NamedAs(parse, listing[i], name) {
        assert listing[i] in files;
      }
    }
  }

  /** A spreadsheet-named `.html` file is loaded like a transcript, under its meeting name. */
  lemma ExcelNamedHtmlLoaded(read: string -> string)
    ensures CorpusOf(["excel_x.html"], FilenameCodec.Parse, read) == [("x", Document("excel_x.html", Markup.ExtractText(read("excel_x.html"))))]
  {
    FilenameCodec.KindNotCheckedAgainstExtension();
    SingleFile("excel_x.html", FilenameCodec.Parse, "x", read);
  }

  /**
   * Of two files with the same meeting name, the later one is kept, in the
   * place the earlier one took.
   */
  lemma LaterFileWins(first: string, second: string, parse: Parser, name: string, read: string -> string)
    requires NamedAs(parse, first, name) && NamedAs(parse, second, name)
    ensures CorpusOf([first, second], parse, read) == [(name, Document(second, Markup.ExtractText(read(second))))]
  {
    TwoFiles(first, second, parse, name, read);
    SingleFile(first, parse, name, read);
    PutOverSingle(name, Document(first, Markup.ExtractText(read(first))), Document(second, Markup.ExtractText(read(second))));
  }

  /** The corpus of two files, the second named `name`: the second one loaded over the corpus of the first. */
  lemma TwoFiles(first: string, second: string, parse: Parser, name: string, read: string -> string)
    requires NamedAs(parse, second, name)
    ensures CorpusOf([first, second], parse, read) == Put(CorpusOf([first], parse, read), name, Document(second, Markup.ExtractText(read(second))))
  {
    PairOfFiles(first, second);
    CorpusStep([first], second, parse, read);
  }

  lemma PairOfFiles(first: string, second: string)
    ensures [first] + [second] == [first, second]
  {
  }

  /** A single parsing file gives a one-entry corpus. */
  lemma SingleFile(f: string, parse: Parser, name: string, read: string -> string)
    requires NamedAs(parse, f, name)
    ensures CorpusOf([f], parse, read) == [(name, Document(f, Markup.ExtractText(read(f))))]
  {
    CorpusStep([], f, parse, read);
    assert [] + [f] == [f];
  }

  // ---------------------------------------------------------------------
  // Contexts
  // ---------------------------------------------------------------------

  /** The largest part of one document the example chat puts into a combined context. */
  const MaxPerDocument: nat := 5000

  /** The context block of one meeting. */
  function Block(name: string, content: string): string
  {
    "\n\nTranscrição da reunião '" + name + "':\n" + content + "\n"
  }

  /** The blocks of `entries` (name and content), concatenated in order. */
  function Blocks(entries: seq<(string, string)>): string
    decreases |entries|
  {
    if entries == [] then ""
    else Blocks(entries[..|entries| - 1]) + Block(entries[|entries| - 1].0, entries[|entries| - 1].1)
  }

  /** Concatenated contexts are the contexts of the two halves, one after the other. */
  lemma {:induction false} BlocksAppend(a: seq<(string, string)>, b: seq<(string, string)>)
    ensures Blocks(a + b) == Blocks(a) + Blocks(b)
    decreases |b|
  {
    if b != [] {
      var b' := b[..|b| - 1];
      assert (a + b)[..|a + b| - 1] == a + b';
      BlocksAppend(a, b');
    } else {
      assert a + b == a;
    }
  }

  /** The names of `entries`, in order. */
  function Names(entries: seq<(string, string)>): (r: seq<string>)
    ensures |r| == |entries| && forall i :: 0 <= i < |r| ==> r[i] == entries[i].0
  {
    seq(|entries|, i requires 0 <= i < |entries| => entries[i].0)
  }

  /**
   * The entries the example chat picks for `selected`: each selected name
   * that is a key of `documents`, in selection order, with the first 5000
   * characters of its content; names that are not keys are skipped.
   */
  function Picked(selected: seq<string>, documents: Documents): (r: seq<(string, string)>)
    ensures IsSubseq(Names(r), selected)
    ensures forall name :: name in Names(r) <==> name in selected && name in Keys(documents)
    ensures forall i :: 0 <= i < |r| ==> exists doc :: Get(documents, r[i].0) == Some(doc) && r[i].1 == Take(doc.content, MaxPerDocument)
    decreases |selected|
  {
    if selected == [] then []
    else
      var init := selected[..|selected| - 1];
      var name := selected[|selected| - 1];
      var p := Picked(init, documents);
      assert selected == init + [name];
      match Get(documents, name)
      case None =>
        SubseqOfPrefix(Names(p), init, name);
        p
      case Some(doc) =>
        var r := p + [(name, Take(doc.content, MaxPerDocument))];
        assert Names(r) == Names(p) + [name];
        SubseqSnoc(Names(p), init, name);
        r
  }

  /** One more selected name, unfolded. */
  lemma PickedStep(selected: seq<string>, name: string, documents: Documents)
    ensures Picked(selected + [name], documents) ==
      match Get(documents, name)
      case None => Picked(selected, documents)
      case Some(doc) => Picked(selected, documents) + [(name, Take(doc.content, MaxPerDocument))]
  {
    assert (selected + [name])[..|selected|] == selected;
  }

  /** A subsequence of `b` is one of `b` extended. */
  lemma {:induction false} SubseqOfPrefix<T>(a: seq<T>, b: seq<T>, x: T)
    requires IsSubseq(a, b)
    ensures IsSubseq(a, b + [x])
    decreases |b|
  {
    if a != [] {
      assert (b + [x])[1..] == b[1..] + [x];
      if a[0] == b[0] && IsSubseq(a[1..], b[1..]) {
        SubseqOfPrefix(a[1..], b[1..], x);
      } else {
        SubseqOfPrefix(a, b[1..], x);
      }
    }
  }

  /** Extending both sides by the same element keeps a subsequence. */
  lemma {:induction false} SubseqSnoc<T>(a: seq<T>, b: seq<T>, x: T)
    requires IsSubseq(a, b)
    ensures IsSubseq(a + [x], b + [x])
    decreases |b|
  {
    if b == [] {
      assert a + [x] == [x] && b + [x] == [x];
      SubseqRefl([x]);
    } else {
      assert (b + [x])[1..] == b[1..] + [x];
      if a != [] && a[0] == b[0] && IsSubseq(a[1..], b[1..]) {
        assert (a + [x])[1..] == a[1..] + [x];
        SubseqSnoc(a[1..], b[1..], x);
      } else {
        SubseqSnoc(a, b[1..], x);
      }
    }
  }

  /** The combined context of the example chat, grown block by block. */
  method CombinedContext(selected: seq<string>, documents: Documents) returns (context: string)
    ensures context == Blocks(Picked(selected, documents))
  {
    context := "";
    for i := 0 to |selected|
      invariant context == Blocks(Picked(selected[..i], documents))
    {
      var name := selected[i];
      assert selected[..i + 1][..i] == selected[..i];
      match Get(documents, name) {
        case Some(doc) =>
          var content := Take(doc.content, MaxPerDocument);
          context := context + Block(name, content);
        case None =>
      }
    }
    assert selected[..|selected|] == selected;
  }

  /** Every document of the corpus with its whole content, in insertion order. */
  function Entries(documents: Documents): (r: seq<(string, string)>)
    ensures |r| == |documents|
    ensures forall i :: 0 <= i < |r| ==> r[i] == (documents[i].0, documents[i].1.content)
  {
    seq(|documents|, i requires 0 <= i < |documents| => (documents[i].0, documents[i].1.content))
  }

  /** The context of the chat page: every document, in insertion order, not truncated. */
  method AllContext(documents: Documents) returns (context: string)
    ensures context == Blocks(Entries(documents))
  {
    context := "";
    for i := 0 to |documents|
      invariant context == Blocks(Entries(documents[..i]))
    {
      var (name, doc) := documents[i];
      assert Entries(documents[..i + 1])[..i] == Entries(documents[..i]);
      context := context + Block(name, doc.content);
    }
    assert documents[..|documents|] == documents;
  }

  /** Each entry with its content cut to its first `limit` characters. */
  function CutEach(entries: seq<(string, string)>, limit: nat): (r: seq<(string, string)>)
    ensures |r| == |entries|
    ensures forall i :: 0 <= i < |r| ==> r[i] == (entries[i].0, Take(entries[i].1, limit))
  {
    seq(|entries|, i requires 0 <= i < |entries| => (entries[i].0, Take(entries[i].1, limit)))
  }

  /** The `n`-th key adds the `n`-th document, cut. */
  lemma PickedKeysStep(documents: Documents, n: nat)
    requires UniqueKeys(documents) && 0 < n <= |documents|
    ensures Picked(Keys(documents)[..n], documents) ==
      Picked(Keys(documents)[..n - 1], documents) + [(documents[n - 1].0, Take(documents[n - 1].1.content, MaxPerDocument))]
  {
    var keys := Keys(documents);
    var selected := keys[..n - 1];
    var (name, doc) := documents[n - 1];
    PrefixSnoc(keys, n);
    GetAt(documents, n - 1);
    PickedStep(selected, name, documents);
    calc {
      Picked(keys[..n], documents);
      Picked(selected + [name], documents);
      Picked(selected, documents) + [(name, Take(doc.content, MaxPerDocument))];
    }
  }

  /** Selecting the first `n` keys picks the first `n` documents, each cut. */
  lemma {:induction false} PickedKeysPrefix(documents: Documents, n: nat)
    requires UniqueKeys(documents) && n <= |documents|
    ensures Picked(Keys(documents)[..n], documents) == CutEach(Entries(documents), MaxPerDocument)[..n]
  {
    var want := CutEach(Entries(documents), MaxPerDocument);
    if n > 0 {
      PickedKeysPrefix(documents, n - 1);
      PickedKeysStep(documents, n);
      PrefixSnoc(want, n);
    } else {
      assert Keys(documents)[..0] == [];
    }
  }

  /**
   * Selecting every key, as the example chat does, picks every document in
   * insertion order, each cut to its first 5000 characters.
   */
  lemma AllKeysPicked(documents: Documents)
    requires UniqueKeys(documents)
    ensures Picked(Keys(documents), documents) == CutEach(Entries(documents), MaxPerDocument)
  {
    PickedKeysPrefix(documents, |documents|);
    assert Keys(documents)[..|documents|] == Keys(documents);
    assert CutEach(Entries(documents), MaxPerDocument)[..|documents|] == CutEach(Entries(documents), MaxPerDocument);
  }

  /**
   * When no document is longer than 5000 characters, the example chat's
   * context over every key equals the chat page's untruncated context.
   */
  lemma ShortDocumentsSameContext(documents: Documents)
    requires UniqueKeys(documents)
    requires forall i :: 0 <= i < |documents| ==> |documents[i].1.content| <= MaxPerDocument
    ensures Blocks(Picked(Keys(documents), documents)) == Blocks(Entries(documents))
  {
    AllKeysPicked(documents);
    var e := Entries(documents);
    var p := CutEach(e, MaxPerDocument);
    forall i | 0 <= i < |documents| ensures p[i] == e[i] {
      var c := documents[i].1.content;
      assert Take(c, MaxPerDocument) == c[..|c|] == c;
    }
    assert p == e;
  }

  // ---------------------------------------------------------------------
  // Prompts and answers
  // ---------------------------------------------------------------------

  /** The largest part of the context the single-document prompt embeds. */
  const MaxContext: nat := 15000

  const SingleIntro: string :=
    "Você é um assistente especializado"
    + " em analisar transcrições de"
    + " reuniões. \n    Responda à"
    + " pergunta com base apenas nas"
    + " informações contidas na"
    + " transcrição fornecida.\n    Se a"
    + " resposta não estiver na"
    + " transcrição, diga claramente que"
    + " não consegue responder com base"
    + " nas informações disponíveis.\n   "
    + " \n    Transcrição da reunião '"

  const MultiIntro: string :=
    "Você é um assistente especializado"
    + " em analisar transcrições de"
    + " reuniões. \n    Responda à"
    + " pergunta com base apenas nas"
    + " informações contidas nas"
    + " transcrições fornecidas.\n    Se a"
    + " resposta não estiver nas"
    + " transcrições, diga claramente que"
    + " não consegue responder com base"
    + " nas informações disponíveis.\n   "
    + " Quando a informação estiver em"
    + " uma transcrição específica,"
    + " mencione qual reunião contém essa"
    + " informação.\n    \n    Contexto das"
    + " transcrições:\n    "

  /** The end of both prompts: the question and the answer cue. */
  function QuestionPart(question: string): string
  {
    "\n    \n    Pergunta: " + question + "\n    \n    Resposta:"
  }

  /** The prompt about one meeting: its name and the first 15000 characters of its context. */
  function SinglePrompt(meetingName: string, context: string, question: string): string
  {
    SingleIntro + meetingName + "':\n    " + Take(context, MaxContext) + QuestionPart(question)
  }

  /** The prompt about several meetings, around their combined context. */
  function MultiPrompt(combined: string, question: string): string
  {
    MultiIntro + combined + QuestionPart(question)
  }

  /** Context past the first 15000 characters never reaches the model. */
  lemma SinglePromptIgnoresTail(meetingName: string, context: string, question: string, extra: string)
    requires |context| >= MaxContext
    ensures SinglePrompt(meetingName, context + extra, question) == SinglePrompt(meetingName, context, question)
  {
    assert Take(context + extra, MaxContext) == Take(context, MaxContext);
  }

  /** A context short enough is embedded whole, after the meeting's name. */
  lemma SinglePromptEmbedsShortContext(meetingName: string, context: string, question: string)
    requires |context| <= MaxContext
    ensures var i := |SingleIntro + meetingName + "':\n    "|;
      i + |context| <= |SinglePrompt(meetingName, context, question)|
      && SinglePrompt(meetingName, context, question)[i..i + |context|] == context
  {
    ConcatMiddle(SingleIntro + meetingName + "':\n    ", context, QuestionPart(question));
  }

  /** The answer prefix used when the model call fails. */
  const ErrorPrefix: string := "Ocorreu um erro ao processar sua pergunta: "

  /**
   * The answer to `prompt`: the model's text, or, when the call fails, an
   * error message carrying the failure. It never fails itself.
   */
  function AnswerText(model: Model, prompt: string): (r: string)
    ensures model(prompt).Failure? ==> StartsWith(r, ErrorPrefix) && r[|ErrorPrefix|..] == model(prompt).message
    ensures model(prompt).Answer? ==> r == model(prompt).text
  {
    match model(prompt)
    case Answer(text) => text
    case Failure(message) => ErrorPrefix + message
  }

  // ---------------------------------------------------------------------
  // Chat history of the example chat
  // ---------------------------------------------------------------------

  /** The outcome of building the model client: a client, or the exception it raised. */
  datatype Setup = Ready(model: Model) | SetupFailed(message: string)

  datatype Role = User | Assistant

  datatype Turn = Turn(role: Role, content: string)

  /**
   * The assistant's message for `question` over a non-empty corpus: the
   * single-document prompt when there is one document (with its whole
   * content, which the prompt cuts to 15000 characters), otherwise the
   * combined context over every key, each cut to 5000 characters; a client
   * that cannot be built gives `Erro: ` and its message.
   */
  function AssistantReply(question: string, documents: Documents, setup: Setup): string
    requires documents != []
  {
    match setup
    case SetupFailed(message) => "Erro: " + message
    case Ready(model) =>
      if |documents| == 1 then
        AnswerText(model, SinglePrompt(documents[0].0, documents[0].1.content, question))
      else
        AnswerText(model, MultiPrompt(Blocks(Picked(Keys(documents), documents)), question))
  }

  /**
   * The turns one submission appends: nothing for an empty input, else the
   * user's turn first, then the assistant's turn only when the question,
   * the corpus and the session key are all non-empty.
   */
  function Turns(question: string, documents: Documents, apiKey: string, setup: Setup): (r: seq<Turn>)
    ensures question == [] <==> r == []
    ensures r != [] ==> r[0] == Turn(User, question)
    ensures |r| <= 2 && (|r| == 2 ==> r[1].role == Assistant)
    ensures |r| == 2 <==> question != [] && documents != [] && apiKey != []
    ensures |r| == 2 ==> r[1].content == AssistantReply(question, documents, setup)
  {
    if question == [] then []
    else if documents != [] && apiKey != [] then
      [Turn(User, question), Turn(Assistant, AssistantReply(question, documents, setup))]
    else [Turn(User, question)]
  }

  /** With the session key empty, a submission appends the user's turn at most. */
  lemma EmptyKeyNeverAnswers(question: string, documents: Documents, setup: Setup)
    ensures forall t :: t in Turns(question, documents, "", setup) ==> t.role == User
  {
  }

  /** The session state of the example chat. */
  class ChatSession {
    var history: seq<Turn>
    var apiKey: string

    /** No turn holds an assistant's answer. */
    predicate UnansweredOnly()
      reads this
    {
      forall i :: 0 <= i < |history| ==> history[i].role == User
    }

    /** A fresh session starts with an empty history and an empty key. */
    constructor ()
      ensures history == [] && apiKey == ""
      ensures UnansweredOnly()
    {
      history := [];
      apiKey := "";
    }

    /**
     * One submission. The key is read, never written, so a session that
     * starts with the empty key never shows an answer.
     */
    method Submit(question: string, documents: Documents, setup: Setup)
      modifies this
      ensures history == old(history) + Turns(question, documents, apiKey, setup)
      ensures apiKey == old(apiKey)
      ensures old(apiKey) == "" && old(UnansweredOnly()) ==> UnansweredOnly()
    {
      var turns := Turns(question, documents, apiKey, setup);
      EmptyKeyNeverAnswers(question, documents, setup);
      history := history + turns;
    }

    /**
     * The submission as the page evidently intends it: the key read from
     * the configuration (the page stops when there is none) enables the
     * answer.
     */
    method SubmitWithConfiguredKey(question: string, documents: Documents, configuredKey: string, setup: Setup)
      requires configuredKey != ""
      modifies this
      ensures history == old(history) + Turns(question, documents, configuredKey, setup)
      ensures apiKey == old(apiKey)
    {
      history := history + Turns(question, documents, configuredKey, setup);
    }
  }

  /** With a configured key, a question over a non-empty corpus is answered. */
  lemma ConfiguredKeyAnswers(question: string, documents: Documents, configuredKey: string, setup: Setup)
    requires configuredKey != "" && question != [] && documents != []
    ensures Turns(question, documents, configuredKey, setup) ==
      [Turn(User, question), Turn(Assistant, AssistantReply(question, documents, setup))]
  {
  }

  // ---------------------------------------------------------------------
  // Search button of the chat page
  // ---------------------------------------------------------------------

  /** What pressing the search button shows: the answer, a warning or an error. */
  datatype Outcome = Shown(answer: string) | Warning(message: string) | Error(message: string)

  const AskQuestion: string := "Por favor, digite uma pergunta."
  const NoKey: string := "Chave API do Gemini não configurada."
  const NoDocuments: string := "Nenhum documento encontrado no diretório 'saidas'."
  const ProcessingError: string := "Erro ao processar pergunta: "

  /**
   * The search button. `genai` is None when no configured client library
   * is available; otherwise it is the outcome of building the model. The
   * chat page answers over every document, untruncated.
   */
  function SearchOutcome(question: string, genai: Option<Setup>, documents: Documents): (r: Outcome)
    ensures r.Shown? ==> question != [] && genai.Some? && documents != []
    ensures question != [] && genai.Some? && genai.value.SetupFailed? && documents != [] ==> r == Error(ProcessingError + genai.value.message)
    ensures question != [] && genai.Some? && genai.value.Ready? && documents != [] ==>
      r == Shown(AnswerText(genai.value.model, MultiPrompt(Blocks(Entries(documents)), question)))
    ensures question == [] ==> r == Warning(AskQuestion)
    ensures question != [] && genai.None? ==> r == Error(NoKey)
    ensures question != [] && genai.Some? && documents == [] ==> r == Error(NoDocuments)
  {
    if question != [] && genai.Some? && documents != [] then
      match genai.value
      case Ready(model) => Shown(AnswerText(model, MultiPrompt(Blocks(Entries(documents)), question)))
      case SetupFailed(message) => Error(ProcessingError + message)
    else if question == [] then Warning(AskQuestion)
    else if genai.None? then Error(NoKey)
    else Error(NoDocuments)
  }
}
