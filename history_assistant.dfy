/**
 * `answer_question_hybrid_search` and the source table of the hybrid
 * search page: the prompt context built from the merged documents, the two
 * early answers, and one table row per referenced document.
 */
module HistoryAssistant {
  import opened Wrappers
  import opened PyStrings
  import opened PyData
  import opened SourceFilter
  import opened HybridSearch
  import LlmUtil

  const NoSourcesAnswer := "No relevant sources found based on your filters."
  const ValidationFailedAnswer := "Validation failed. Please try again."

  /** How much of a document's text goes into the prompt. */
  const ContextLimit := 500

  /** How much of a document's text the source table shows. */
  const PreviewLimit := 300

  // ---------------------------------------------------------- prompt context

  /** `f"{key}: {value}"` */
  function EntryText(e: Entry): string {
    e.key + ": " + Render(e.value)
  }

  function EntryTexts(d: seq<Entry>): seq<string> {
    seq(|d|, i requires 0 <= i < |d| => EntryText(d[i]))
  }

  /** `' | '.join(f'{key}: {value}' for key, value in doc.metadata.items())` */
  function MetadataLine(d: seq<Entry>): string {
    Join(" | ", EntryTexts(d))
  }

  /** One passage of the context: the metadata line, a newline, the start of the text. */
  function ContextBlock(doc: Document): string {
    MetadataLine(doc.metadata) + "\n" + Truncate(doc.pageContent, ContextLimit)
  }

  function ContextBlocks(docs: seq<Document>): seq<string> {
    seq(|docs|, i requires 0 <= i < |docs| => ContextBlock(docs[i]))
  }

  /** `formatted_context`: the passages joined by blank lines. */
  function FormatContext(docs: seq<Document>): string {
    Join("\n\n", ContextBlocks(docs))
  }

  // ---------------------------------------------------------------- answers

  /**
   * `answer_question_hybrid_search` once `hybrid_search` has returned `docs`.
   * `generate` stands for the prompt-and-model chain: it maps the context
   * and the question to the model's reply.
   */
  function Answer(docs: seq<Document>, question: string, generate: (string, string) -> string): Response {
    if docs == [] then Response(NoSourcesAnswer, [])
    else
      var content := generate(FormatContext(docs), question);
      if !LlmUtil.ValidateAnswerFormat(content) then Response(ValidationFailedAnswer, [])
      else Response(content, docs)
  }

  /** The whole question-answering step, from retrieval and web results to the response. */
  function AnswerQuestion(retrieved: seq<Document>, sel: Selection, results: seq<SearchResult>,
                          question: string, generate: (string, string) -> string): Response
    requires AllTextSources(retrieved) && AllNumericScores(Kept(sel, retrieved))
  {
    Answer(Search(retrieved, sel, results), question, generate)
  }

  // ------------------------------------------------------------ source table

  /** `page_content[:300] + "..."`: the start of the text, marked as cut. */
  function Preview(text: string): (r: string)
    ensures |r| == 3 + if |text| <= PreviewLimit then |text| else PreviewLimit
    ensures r[..|r| - 3] <= text && r[|r| - 3..] == "..."
  {
    var cut := Truncate(text, PreviewLimit);
    assert (cut + "...")[..|cut|] == cut;
    cut + "..."
  }

  /** The row `render_ui` shows for one referenced document. */
  function SourceRow(doc: Document): Dict {
    [ Entry("Title", Get(doc.metadata, "title").GetOr(Str("Unknown"))),
      Entry("Source", Get(doc.metadata, "source").GetOr(Str("Unknown"))),
      Entry("Page", Get(doc.metadata, "page").GetOr(Str("N/A"))),
      Entry("Page Content", Str(Preview(doc.pageContent))),
      Entry("URL", Get(doc.metadata, "url").GetOr(Str("N/A"))) ]
  }

  /** The loop that fills `sources_data`. */
  method SourceRows(context: seq<Document>) returns (rows: seq<Dict>)
    ensures |rows| == |context|
    ensures forall i :: 0 <= i < |context| ==> rows[i] == SourceRow(context[i])
  {
    rows := [];
    var i := 0;
    while i < |context|
      invariant 0 <= i <= |context|
      invariant |rows| == i
      invariant forall j :: 0 <= j < i ==> rows[j] == SourceRow(context[j])
    {
      rows := rows + [SourceRow(context[i])];
      i := i + 1;
    }
  }

  // ---------------------------------------------------------------- lemmas

  /**
   * A passage is the metadata line, a newline, and the first
   * `min(len(text), 500)` characters of the text.
   */
  lemma ContextBlockShape(doc: Document)
    ensures var line, block := MetadataLine(doc.metadata), ContextBlock(doc);
            && |line| < |block| && block[..|line|] == line && block[|line|] == '\n'
            && block[|line| + 1..] <= doc.pageContent
            && |block| - |line| - 1 == if |doc.pageContent| <= ContextLimit then |doc.pageContent| else ContextLimit
  {
    var line, text := MetadataLine(doc.metadata), Truncate(doc.pageContent, ContextLimit);
    var block := ContextBlock(doc);
    assert block == line + ("\n" + text);
    assert block[..|line|] == line;
    assert block[|line| + 1..] == text;
  }

  lemma ContextBlocksAppend(docs: seq<Document>, doc: Document)
    ensures ContextBlocks(docs + [doc]) == ContextBlocks(docs) + [ContextBlock(doc)]
  {
    var a, b := ContextBlocks(docs + [doc]), ContextBlocks(docs) + [ContextBlock(doc)];
    assert |a| == |b|;
    forall i | 0 <= i < |a| ensures a[i] == b[i] {
      if i < |docs| {
        assert (docs + [doc])[i] == docs[i];
      }
    }
  }

  /**
   * The context is the passages of the documents in their merged order,
   * separated by blank lines: one document gives its passage, and each
   * further document adds a blank line and its passage.
   */
  lemma FormatContextOrder(docs: seq<Document>, doc: Document)
    ensures FormatContext([]) == ""
    ensures FormatContext([doc]) == ContextBlock(doc)
    ensures docs != [] ==> FormatContext(docs + [doc]) == FormatContext(docs) + "\n\n" + ContextBlock(doc)
  {
    assert ContextBlocks([doc]) == [ContextBlock(doc)];
    if docs != [] {
      ContextBlocksAppend(docs, doc);
      JoinAppend("\n\n", ContextBlocks(docs), [ContextBlock(doc)]);
    }
  }

  lemma EntryTextsAppend(d: seq<Entry>, e: Entry)
    ensures EntryTexts(d + [e]) == EntryTexts(d) + [EntryText(e)]
  {
    var a, b := EntryTexts(d + [e]), EntryTexts(d) + [EntryText(e)];
    assert |a| == |b|;
    forall i | 0 <= i < |a| ensures a[i] == b[i] {
      if i < |d| {
        assert (d + [e])[i] == d[i];
      }
    }
  }

  /** The metadata line lists the entries as `key: value` in insertion order, separated by ` | `. */
  lemma MetadataLineOrder(d: seq<Entry>, e: Entry)
    ensures MetadataLine([]) == ""
    ensures MetadataLine([e]) == e.key + ": " + Render(e.value)
    ensures d != [] ==> MetadataLine(d + [e]) == MetadataLine(d) + " | " + e.key + ": " + Render(e.value)
  {
    assert EntryTexts([e]) == [EntryText(e)];
    if d != [] {
      EntryTextsAppend(d, e);
      JoinAppend(" | ", EntryTexts(d), [EntryText(e)]);
    }
  }

  /** With nothing to cite, the answer is the fixed message and no sources. */
  lemma NothingRetrieved(question: string, generate: (string, string) -> string)
    ensures Answer([], question, generate) == Response(NoSourcesAnswer, [])
  {
  }

  /**
   * Validation never rejects a reply: with documents to cite, the answer is
   * the model's reply to the formatted context, citing exactly those documents.
   */
  lemma AnswerIsReply(docs: seq<Document>, question: string, generate: (string, string) -> string)
    requires docs != []
    ensures Answer(docs, question, generate) == Response(generate(FormatContext(docs), question), docs)
    ensures Answer(docs, question, generate).answer != ValidationFailedAnswer || generate(FormatContext(docs), question) == ValidationFailedAnswer
  {
  }

  /** The response's sources are empty exactly when there was nothing to cite. */
  lemma ContextEmptyIffNoDocuments(docs: seq<Document>, question: string, generate: (string, string) -> string)
    ensures Answer(docs, question, generate).context == [] <==> docs == []
  {
    if docs != [] {
      AnswerIsReply(docs, question, generate);
    }
  }

  /** With no category ticked and no web result, the page answers that nothing was found. */
  lemma NoFiltersNoWebResults(retrieved: seq<Document>, question: string, generate: (string, string) -> string)
    requires AllTextSources(retrieved)
    ensures && AllNumericScores(Kept(Selection(false, false, false), retrieved))
            && AnswerQuestion(retrieved, Selection(false, false, false), [], question, generate) == Response(NoSourcesAnswer, [])
  {
    NothingSelected(retrieved);
    var none: seq<Document> := [];
    assert LiveDocuments([]) == none;
    assert none + none == none;
  }

  /** A row's columns, in order, are Title, Source, Page, Page Content and URL. */
  lemma SourceRowColumns(doc: Document)
    ensures Keys(SourceRow(doc)) == ["Title", "Source", "Page", "Page Content", "URL"]
  {
  }

  /**
   * Each metadata column shows the document's value when it has one and the
   * default otherwise; the preview column shows the start of the text.
   */
  lemma SourceRowValues(doc: Document)
    ensures Get(SourceRow(doc), "Title") == Some(if "title" in Keys(doc.metadata) then Get(doc.metadata, "title").value else Str("Unknown"))
    ensures Get(SourceRow(doc), "Source") == Some(if "source" in Keys(doc.metadata) then Get(doc.metadata, "source").value else Str("Unknown"))
    ensures Get(SourceRow(doc), "Page") == Some(if "page" in Keys(doc.metadata) then Get(doc.metadata, "page").value else Str("N/A"))
    ensures Get(SourceRow(doc), "Page Content") == Some(Str(Preview(doc.pageContent)))
    ensures Get(SourceRow(doc), "URL") == Some(if "url" in Keys(doc.metadata) then Get(doc.metadata, "url").value else Str("N/A"))
  {
    var row := SourceRow(doc);
    GetAt(row, 0);
    GetAt(row, 1);
    GetAt(row, 2);
    GetAt(row, 3);
    GetAt(row, 4);
  }
}
