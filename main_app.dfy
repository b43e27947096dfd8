/**
 * The vector-store-only page: `format_docs`, the validation early return of
 * `answer_question_from_vector_store`, and the loop that fills its source
 * table, copying metadata keys into columns named by `key.capitalize()`.
 */
module MainApp {
  import opened Wrappers
  import opened PyStrings
  import opened PyData
  import HistoryAssistant
  import LlmUtil

  // ---------------------------------------------------------------- context

  function Excerpts(docs: seq<Document>): seq<string> {
    seq(|docs|, i requires 0 <= i < |docs| => Truncate(docs[i].pageContent, HistoryAssistant.ContextLimit))
  }

  /** `format_docs`: the start of each text, joined by blank lines, without metadata. */
  function FormatDocs(docs: seq<Document>): string {
    Join("\n\n", Excerpts(docs))
  }

  /**
   * `answer_question_from_vector_store` once the retriever has returned
   * `docs`; `generate` stands for the prompt-and-model chain.  Unlike the
   * hybrid page, an empty retrieval is not answered early.
   */
  function Answer(docs: seq<Document>, question: string, generate: (string, string) -> string): Response {
    var content := generate(FormatDocs(docs), question);
    if !LlmUtil.ValidateAnswerFormat(content) then Response(HistoryAssistant.ValidationFailedAnswer, [])
    else Response(content, docs)
  }

  // ------------------------------------------------------------ source table

  /** The metadata keys the table copies. */
  const CopiedKeys: seq<string> := ["title", "source", "url"]

  /** `{"Title": "", "Source": "", "URL": "", "Page Content": doc.page_content[:300] + "..."}` */
  function InitialRow(doc: Document): Dict {
    [ Entry("Title", Str("")),
      Entry("Source", Str("")),
      Entry("URL", Str("")),
      Entry("Page Content", Str(HistoryAssistant.Preview(doc.pageContent))) ]
  }

  /** The row once the inner loop has visited `entries`, starting from `row`. */
  function FillRow(row: seq<Entry>, entries: seq<Entry>): seq<Entry>
    decreases |entries|
  {
    if entries == [] then row
    else
      var last := entries[|entries| - 1];
      var r := FillRow(row, entries[..|entries| - 1]);
      if last.key in CopiedKeys then Set(r, Capitalize(last.key), last.value) else r
  }

  /** The finished row of one document. */
  function MainRow(doc: Document): seq<Entry> {
    FillRow(InitialRow(doc), doc.metadata)
  }

  /** The inner loop: `source_info[key.capitalize()] = value` for each copied key. */
  method BuildRow(doc: Document) returns (row: Dict)
    ensures row == MainRow(doc)
  {
    row := InitialRow(doc);
    var i := 0;
    while i < |doc.metadata|
      invariant 0 <= i <= |doc.metadata|
      invariant row == FillRow(InitialRow(doc), doc.metadata[..i])
    {
      var e := doc.metadata[i];
      FillStep(InitialRow(doc), doc.metadata, i);
      if e.key in CopiedKeys {
        SetUnique(row, Capitalize(e.key), e.value);
        row := Set(row, Capitalize(e.key), e.value);
      }
      i := i + 1;
    }
    assert doc.metadata[..|doc.metadata|] == doc.metadata;
  }

  /** The outer loop: one row per document, in order. */
  method SourceRows(context: seq<Document>) returns (rows: seq<Dict>)
    ensures |rows| == |context|
    ensures forall i :: 0 <= i < |context| ==> rows[i] == MainRow(context[i])
  {
    rows := [];
    var i := 0;
    while i < |context|
      invariant 0 <= i <= |context|
      invariant |rows| == i
      invariant forall j :: 0 <= j < i ==> rows[j] == MainRow(context[j])
    {
      var row := BuildRow(context[i]);
      rows := rows + [row];
      i := i + 1;
    }
  }

  /** One more iteration of the inner loop. */
  lemma FillStep(row: seq<Entry>, entries: seq<Entry>, i: nat)
    requires i < |entries|
    ensures entries[i].key in CopiedKeys ==>
              FillRow(row, entries[..i + 1]) == Set(FillRow(row, entries[..i]), Capitalize(entries[i].key), entries[i].value)
    ensures entries[i].key !in CopiedKeys ==> FillRow(row, entries[..i + 1]) == FillRow(row, entries[..i])
  {
    assert entries[..i + 1][..i] == entries[..i];
  }

  // ---------------------------------------------------------------- lemmas

  lemma ExcerptsAppend(docs: seq<Document>, doc: Document)
    ensures Excerpts(docs + [doc]) == Excerpts(docs) + [Truncate(doc.pageContent, HistoryAssistant.ContextLimit)]
  {
    var a, b := Excerpts(docs + [doc]), Excerpts(docs) + [Truncate(doc.pageContent, HistoryAssistant.ContextLimit)];
    assert |a| == |b|;
    forall i | 0 <= i < |a| ensures a[i] == b[i] {
      if i < |docs| {
        assert (docs + [doc])[i] == docs[i];
      }
    }
  }

  /** The context holds the start of each text, in retrieval order, separated by blank lines. */
  lemma FormatDocsOrder(docs: seq<Document>, doc: Document)
    ensures FormatDocs([]) == ""
    ensures FormatDocs([doc]) == Truncate(doc.pageContent, HistoryAssistant.ContextLimit)
    ensures docs != [] ==> FormatDocs(docs + [doc]) == FormatDocs(docs) + "\n\n" + Truncate(doc.pageContent, HistoryAssistant.ContextLimit)
  {
    assert Excerpts([doc]) == [Truncate(doc.pageContent, HistoryAssistant.ContextLimit)];
    if docs != [] {
      ExcerptsAppend(docs, doc);
      JoinAppend("\n\n", Excerpts(docs), [Truncate(doc.pageContent, HistoryAssistant.ContextLimit)]);
    }
  }

  /** Metadata plays no part in the context: documents with the same texts give the same context. */
  lemma FormatDocsIgnoresMetadata(a: seq<Document>, b: seq<Document>)
    requires |a| == |b|
    requires forall i :: 0 <= i < |a| ==> a[i].pageContent == b[i].pageContent
    ensures FormatDocs(a) == FormatDocs(b)
  {
    assert Excerpts(a) == Excerpts(b);
  }

  /** Validation never rejects a reply: the answer is the model's reply, citing the retrieved documents. */
  lemma AnswerIsReply(docs: seq<Document>, question: string, generate: (string, string) -> string)
    ensures Answer(docs, question, generate) == Response(generate(FormatDocs(docs), question), docs)
  {
  }

  lemma CapUrl()
    ensures Capitalize("url") == "Url"
  {
    assert Capitalize("url") == [UpperChar('u')] + Lower("rl");
  }

  lemma CapTitle()
    ensures Capitalize("title") == "Title"
  {
    assert Capitalize("title") == [UpperChar('t')] + Lower("itle");
  }

  lemma CapSource()
    ensures Capitalize("source") == "Source"
  {
    assert Capitalize("source") == [UpperChar('s')] + Lower("ource");
  }

  /** The three copied keys and the columns they land in: `url` goes to "Url", not "URL". */
  lemma CapitalizedKeys()
    ensures Capitalize("title") == "Title"
    ensures Capitalize("source") == "Source"
    ensures Capitalize("url") == "Url"
  {
    CapTitle();
    CapSource();
    CapUrl();
  }

  /** The metadata key whose value lands in column `col`, if any. */
  function Origin(col: string): Option<string> {
    if col == "Title" then Some("title")
    else if col == "Source" then Some("source")
    else if col == "Url" then Some("url")
    else None
  }

  /** A copied key lands exactly in the column whose origin it is. */
  lemma OriginOfCopied(c: string, col: string)
    requires c in CopiedKeys
    ensures Capitalize(c) == col <==> Origin(col) == Some(c)
  {
    CapitalizedKeys();
  }

  lemma KeysAppend(d: seq<Entry>, e: Entry)
    ensures Keys(d + [e]) == Keys(d) + [e.key]
  {
    var a, b := Keys(d + [e]), Keys(d) + [e.key];
    assert |a| == |b|;
    forall i | 0 <= i < |a| ensures a[i] == b[i] {
      if i < |d| {
        assert (d + [e])[i] == d[i];
      }
    }
  }

  lemma UniquePrefix(d: seq<Entry>, n: nat)
    requires UniqueKeys(d) && n <= |d|
    ensures UniqueKeys(d[..n])
  {
    forall i, j | 0 <= i < j < n ensures d[..n][i].key != d[..n][j].key {
      assert d[..n][i] == d[i] && d[..n][j] == d[j];
    }
  }

  /** In a dict, the last key does not occur before. */
  lemma LastKeyFresh(d: seq<Entry>)
    requires UniqueKeys(d) && d != []
    ensures d[|d| - 1].key !in Keys(d[..|d| - 1])
  {
  }

  /** What a column holds once the loop has visited `entries` (keys unique, as in a dict). */
  predicate ColumnAfter(row: seq<Entry>, entries: seq<Entry>, col: string, v: Option<Value>) {
    match Origin(col)
    case Some(c) => v == (if c in Keys(entries) then Get(entries, c) else Get(row, col))
    case None => v == Get(row, col)
  }

  /**
   * A column whose origin is a copied key holds that key's metadata value
   * when the document has it; every other column keeps its initial value.
   */
  lemma {:induction false} FillRowGet(row: seq<Entry>, entries: seq<Entry>, col: string)
    requires UniqueKeys(entries)
    ensures ColumnAfter(row, entries, col, Get(FillRow(row, entries), col))
    decreases |entries|
  {
    if entries != [] {
      var n := |entries| - 1;
      var init, last := entries[..n], entries[n];
      assert entries == init + [last];
      UniquePrefix(entries, n);
      LastKeyFresh(entries);
      FillRowGet(row, init, col);
      KeysAppend(init, last);
      GetAppend(init, last, col);
      var r := FillRow(row, init);
      match Origin(col)
      case Some(c) =>
        GetAppend(init, last, c);
        if last.key in CopiedKeys {
          OriginOfCopied(last.key, col);
          SetGet(r, Capitalize(last.key), last.value, col);
        } else {
          assert last.key != c;
        }
      case None =>
        if last.key in CopiedKeys {
          OriginOfCopied(last.key, col);
          SetGet(r, Capitalize(last.key), last.value, col);
        }
    }
  }

  /**
   * The loop adds one column, "Url", when the document has a `url`; the
   * other copied keys land in columns the row already has.
   */
  lemma {:induction false} FillRowKeys(row: seq<Entry>, entries: seq<Entry>)
    requires UniqueKeys(entries)
    requires "Title" in Keys(row) && "Source" in Keys(row) && "Url" !in Keys(row)
    ensures Keys(FillRow(row, entries)) == Keys(row) + (if "url" in Keys(entries) then ["Url"] else [])
    decreases |entries|
  {
    if entries != [] {
      var n := |entries| - 1;
      var init, last := entries[..n], entries[n];
      assert entries == init + [last];
      UniquePrefix(entries, n);
      LastKeyFresh(entries);
      FillRowKeys(row, init);
      KeysAppend(init, last);
      var r := FillRow(row, init);
      assert "url" in Keys(entries) <==> "url" in Keys(init) || last.key == "url";
      if last.key == "url" {
        CopiedUrl(r, row, last.value);
      } else if last.key == "title" {
        CopiedTitle(r, row, last.value);
      } else if last.key == "source" {
        CopiedSource(r, row, last.value);
      }
    }
  }

  lemma CopiedUrl(r: seq<Entry>, row: seq<Entry>, v: Value)
    requires "Url" !in Keys(row)
    requires Keys(r) == Keys(row)
    ensures Keys(Set(r, Capitalize("url"), v)) == Keys(row) + ["Url"]
  {
    CapUrl();
    SetKeys(r, "Url", v);
  }

  lemma CopiedTitle(r: seq<Entry>, row: seq<Entry>, v: Value)
    requires "Title" in Keys(row)
    requires Keys(row) <= Keys(r)
    ensures Keys(Set(r, Capitalize("title"), v)) == Keys(r)
  {
    CapTitle();
    SetKeys(r, "Title", v);
  }

  lemma CopiedSource(r: seq<Entry>, row: seq<Entry>, v: Value)
    requires "Source" in Keys(row)
    requires Keys(row) <= Keys(r)
    ensures Keys(Set(r, Capitalize("source"), v)) == Keys(r)
  {
    CapSource();
    SetKeys(r, "Source", v);
  }

  lemma InitialRowKeys(doc: Document)
    ensures Keys(InitialRow(doc)) == ["Title", "Source", "URL", "Page Content"]
  {
  }

  /**
   * A finished row has the columns Title, Source, URL and Page Content, and
   * "Url" after them exactly when the document has a `url`; no other
   * metadata key makes a column.
   */
  lemma MainRowColumns(doc: Document)
    ensures Keys(MainRow(doc)) == ["Title", "Source", "URL", "Page Content"] + (if "url" in Keys(doc.metadata) then ["Url"] else [])
  {
    InitialRowKeys(doc);
    FillRowKeys(InitialRow(doc), doc.metadata);
  }

  /**
   * Title and Source show the document's `title` and `source`, or stay
   * empty; the `url` shows under "Url" while "URL" always stays empty; the
   * preview is the start of the text.
   */
  lemma MainRowValues(doc: Document)
    ensures Get(MainRow(doc), "Title") == Some(if "title" in Keys(doc.metadata) then Get(doc.metadata, "title").value else Str(""))
    ensures Get(MainRow(doc), "Source") == Some(if "source" in Keys(doc.metadata) then Get(doc.metadata, "source").value else Str(""))
    ensures Get(MainRow(doc), "Url") == Get(doc.metadata, "url")
    ensures Get(MainRow(doc), "URL") == Some(Str(""))
    ensures Get(MainRow(doc), "Page Content") == Some(Str(HistoryAssistant.Preview(doc.pageContent)))
  {
    var row := InitialRow(doc);
    GetAt(row, 0);
    GetAt(row, 1);
    GetAt(row, 2);
    GetAt(row, 3);
    assert "Url" !in Keys(row);
    FillRowGet(row, doc.metadata, "Title");
    FillRowGet(row, doc.metadata, "Source");
    FillRowGet(row, doc.metadata, "Url");
    FillRowGet(row, doc.metadata, "URL");
    FillRowGet(row, doc.metadata, "Page Content");
  }
}
