# History teacher assistant — a Dafny model of its retrieval core

The History Teacher Assistant is a Streamlit application. A teacher asks
about Singapore's history and gets several perspectives and discussion
questions, generated by a language model from retrieved sources. This
project models, in Dafny, the logic between the external services and the
screen:

- **Source filter.** `filter_docs_by_source` keeps the retrieved documents
  whose normalised `source` falls in a ticked category (Infopedia,
  textbooks, Roots articles). It also collects the sources it dropped, so
  that an empty result can be explained (`SourceFilter`).
- **Hybrid search.** `hybrid_search` merges the filtered vector-store hits
  with at most three live web results. It then sorts them by `score`, highest
  first, with a missing score counting as 1; Python's sort is stable
  (`HybridSearch`).
- **Answering.** `answer_question_hybrid_search` returns a fixed message
  when there is nothing to cite. Otherwise it builds the prompt context
  (a metadata line plus the first 500 characters of each document) and
  checks the model's reply with `validate_answer_format`
  (`HistoryAssistant`).
- **Source table.** The hybrid page builds one row per cited document
  (`HistoryAssistant`). The vector-store-only page fills its rows by copying
  `title`, `source` and `url` under `key.capitalize()`; its `format_docs`
  context carries no metadata (`MainApp`).
- **Answer check.** `validate_answer_format` runs two `re.findall` calls and
  builds a pydantic record. The regular expressions are written out as
  scanners (`LlmUtil`).
- **Vector-store build.** `sanitize_metadata` and the chunking loop, which
  copies a parent's metadata onto each of its chunks (`VectorDb`).

Python's strings, metadata values and dictionaries are modelled in
`PyStrings` and `PyData`:

- a `dict` is a sequence of entries with unique keys, in insertion order;
- `d.get(k)` is `Get`;
- `d[k] = v` is `Set`.

The language model, the Tavily client, FAISS and the text splitter are
parameters (`generate`, `results`, `retrieved`, `split`). The model
describes what the code does with their output.

Four behaviours of the code are worth stating plainly, since the
program's own text suggests otherwise:

- **Validation always passes.** The answer prompt `ANSWER_QUESTION_PROMPT`
  asks the model for 3-5 perspectives and 2-3 discussion questions
  (util/llm_util.py:36, 63), and the answer functions fall back to
  "Validation failed. Please try again." when `validate_answer_format`
  says no. But `validate_answer_format` (util/llm_util.py:95-104) enforces
  neither count: it builds a record of two string lists, which pydantic
  always accepts, so it returns `True` for every input
  (`LlmUtil.ValidateAnswerFormat`, `LlmUtil.EmptyAnswerAccepted`). The
  "Validation failed" branch of both answer functions therefore never
  fires (`HistoryAssistant.AnswerIsReply`, `MainApp.AnswerIsReply`).
- **The prompt's own layout yields no questions.** The template in
  `ANSWER_QUESTION_PROMPT` heads the questions `[Discussion Questions]`
  (util/llm_util.py:53), but the validator looks for
  `"Discussion Questions:"` with a colon (util/llm_util.py:98). A reply that
  copies the template's header therefore gives an empty question list
  (`LlmUtil.BracketedHeaderNoQuestions`).
- **No empty-retrieval check in `main.py`.** The vector-store-only answer
  in `main.py` has no "No relevant sources" early return
  (`MainApp.Answer`).
- **URL column in `main.py`.** The row starts with a `"URL"` column, but
  `"url".capitalize()` is `"Url"`. So a document's URL lands in a new
  `"Url"` column while `"URL"` stays empty (`MainApp.MainRowColumns`,
  `MainApp.MainRowValues`).

The three copies of `validate_answer_format` are identical:
util/llm_util.py:95-104, History_Assistant.py:41-49 and main.py:36-44.
The model defines the function once, in `LlmUtil`.

## Model

| member | source | states |
|---|---|---|
| SourceFilter.FilterDocsBySource | History_Assistant.py:52-77 | the loop returns exactly `Kept(sel, docs)`, and it raises the warning, carrying exactly the unmatched sources, if and only if nothing was kept |
| SourceFilter.NormalizedSource | History_Assistant.py:59 | `doc.metadata.get("source", "").lower().strip()`: a missing or empty source normalises to ""; `StripKeepsOccurrence` shows the category tests are unaffected by the strip |
| SourceFilter.Matches | History_Assistant.py:66-68 | the three category tests, each only when its box is ticked: `"infopedia"`; `"sec1"`, `"sec2"` or `"textbook"`; `"roots website"` in the normalised source (so "roots.gov.sg" alone matches nothing); `KeptMembers` characterises it |
| SourceFilter.Keeps | History_Assistant.py:59-69 | the per-document rule: non-empty normalised source that matches a ticked category; `KeptMembers` and `KeptSingle` state it |
| SourceFilter.Reported | History_Assistant.py:61-71 | what a dropped document adds to the warning set: "(Missing Source)" or its normalised source; `MissingSourceDropped` and `DroppedSourceReported` state the two cases |
| SourceFilter.Unmatched | History_Assistant.py:56-71 | the set the loop collects; `UnmatchedExactly` states its members both ways |
| SourceFilter.LoopStep | History_Assistant.py:58-71 | one iteration: a document without a source adds "(Missing Source)"; a matching one is appended; any other adds its normalised source |
| SourceFilter.KeptMembers | History_Assistant.py:59-69 | a document is kept if and only if it is an input whose normalised source is non-empty and matches a ticked category |
| SourceFilter.KeptAppend | History_Assistant.py:58-69 | filtering distributes over concatenation, so kept documents keep their relative order |
| SourceFilter.KeptSingle | History_Assistant.py:61-69 | one document is kept on its own exactly when it passes the rules |
| SourceFilter.Kept | History_Assistant.py:55-69 | the kept list is never longer than the input |
| SourceFilter.NothingSelected | History_Assistant.py:66-68 | with no box ticked nothing is kept |
| SourceFilter.UnmatchedExactly | History_Assistant.py:56-71 | a string is in the unmatched set if and only if it is the reported source of some dropped document |
| SourceFilter.MissingSourceDropped | History_Assistant.py:61-63 | a document with an empty normalised source is dropped and leaves "(Missing Source)" in the set |
| SourceFilter.DroppedSourceReported | History_Assistant.py:70-71 | a document with a non-matching source is dropped and its normalised source is reported |
| SourceFilter.KeptAll | History_Assistant.py:66-69 | a list whose every document passes is returned unchanged |
| SourceFilter.FilterIdempotent | History_Assistant.py:52-77 | filtering twice with the same boxes equals filtering once |
| SourceFilter.AllTextSourcesPrefix | History_Assistant.py:59 | helper lemma: the string-source precondition holds for every prefix of the input |
| HybridSearch.LiveDocumentsShape | History_Assistant.py:124-131 | at most `tavily_top_k` (3) live documents: the first results in order, each with text `content` and metadata `source`/`score` |
| HybridSearch.LiveDocument | History_Assistant.py:128-130 | one Tavily result as a document; `LiveDocumentScore` states its metadata and sort key |
| HybridSearch.LiveDocuments | History_Assistant.py:124-131 | the loop over `results[:3]`; `LiveDocumentsShape` states its length and contents |
| HybridSearch.Score | History_Assistant.py:135 | the sort key `x.metadata.get("score", 1)`; `LiveDocumentScore` and `UnscoredLocalFirst` state its values |
| HybridSearch.Insert | History_Assistant.py:135 | one step of the stable descending sort; `InsertPermutation`, `InsertDescending` and `InsertStable` state it |
| HybridSearch.SortDescending | History_Assistant.py:135 | `sorted(..., reverse=True)`; `SortPermutation`, `SortIsDescending` and `SortStable` state it |
| HybridSearch.MergeResults | History_Assistant.py:133-135 | the combined list sorted by score; `MergeProperties` states its members, order and tie rule |
| HybridSearch.Search | History_Assistant.py:113-137 | `hybrid_search`; `SearchResults` states its members and order |
| HybridSearch.LiveDocumentScore | History_Assistant.py:128-130 | a live document's metadata is exactly `{source: url, score: score}` and its sort key is the search score |
| HybridSearch.LiveScoresNumeric | History_Assistant.py:128-135 | every live document can be compared by score |
| HybridSearch.InsertPermutation | History_Assistant.py:135 | one insertion step adds exactly the inserted element |
| HybridSearch.DescendingTail | History_Assistant.py:135 | helper lemma: the tail of a descending list is descending and bounded by its head |
| HybridSearch.ConsDescending | History_Assistant.py:135 | helper lemma: a greatest element in front of a descending list keeps it descending |
| HybridSearch.InsertBounded | History_Assistant.py:135 | insertion keeps every key under a common bound |
| HybridSearch.InsertDescending | History_Assistant.py:135 | inserting into a descending list keeps it descending |
| HybridSearch.WithKeyCons | History_Assistant.py:135 | helper lemma: the equal-key subsequence of a list with one more element in front |
| HybridSearch.InsertStable | History_Assistant.py:135 | insertion puts the new element ahead of every element with the same key and keeps their order |
| HybridSearch.SortPermutation | History_Assistant.py:135 | `sorted` returns a permutation of its input |
| HybridSearch.SortIsDescending | History_Assistant.py:135 | with `reverse=True` the highest score comes first |
| HybridSearch.SortStable | History_Assistant.py:135 | the sort is stable: elements with equal scores keep their input order |
| HybridSearch.WithKeyAppend | History_Assistant.py:134 | the equal-score subsequence of a concatenation is the concatenation of the subsequences |
| HybridSearch.MergeProperties | History_Assistant.py:133-135 | the merge holds exactly the local and live documents, highest score first; at equal scores every local document precedes every live one |
| HybridSearch.SearchResults | History_Assistant.py:113-137 | `hybrid_search` returns exactly the kept retrieved documents and the live ones, in descending score order |
| HybridSearch.UnscoredLocalFirst | History_Assistant.py:135 | a local document without a score (default 1) stays ahead of a live result scored 1.0, and both precede one scored 0.8 |
| HistoryAssistant.NothingRetrieved | History_Assistant.py:143-144 | with no documents the answer is "No relevant sources found based on your filters." with no context |
| HistoryAssistant.Answer | History_Assistant.py:143-162 | the answer for a retrieved list; `NothingRetrieved`, `AnswerIsReply` and `ContextEmptyIffNoDocuments` state both branches |
| HistoryAssistant.AnswerQuestion | History_Assistant.py:140-162 | `answer_question_hybrid_search`: search, then answer; `NoFiltersNoWebResults` states the nothing-ticked case |
| HistoryAssistant.FormatContext | History_Assistant.py:146-149 | the prompt context; `FormatContextOrder` and `ContextBlocksAppend` state it |
| HistoryAssistant.ContextBlock | History_Assistant.py:147-148 | one passage of the context; `ContextBlockShape` states it |
| HistoryAssistant.MetadataLine | History_Assistant.py:147 | the metadata line of a passage; `MetadataLineOrder` states it |
| HistoryAssistant.EntryText | History_Assistant.py:147 | `f"{key}: {value}"` for one metadata entry; `EntryTextsAppend` and `MetadataLineOrder` characterise it |
| HistoryAssistant.SourceRow | History_Assistant.py:212-218 | one row of the hybrid page table; `SourceRowColumns` and `SourceRowValues` state it |
| HistoryAssistant.AnswerIsReply | History_Assistant.py:146-162 | with documents, the answer is the model's reply to the formatted context and question, citing exactly those documents; validation never replaces it |
| HistoryAssistant.ContextEmptyIffNoDocuments | History_Assistant.py:140-162 | the response cites no sources if and only if nothing was retrieved |
| HistoryAssistant.NoFiltersNoWebResults | History_Assistant.py:140-144 | with no category ticked and no web result, the page answers that nothing was found |
| HistoryAssistant.ContextBlockShape | History_Assistant.py:147 | a context passage is the metadata line, a newline, then at most 500 characters that begin the document's text |
| HistoryAssistant.ContextBlocksAppend | History_Assistant.py:146-149 | one passage per document, in retrieval order |
| HistoryAssistant.FormatContextOrder | History_Assistant.py:146-149 | the context is the passages separated by blank lines: empty for no documents, the passage itself for one |
| HistoryAssistant.EntryTextsAppend | History_Assistant.py:147 | one `key: value` text per metadata entry, in insertion order |
| HistoryAssistant.MetadataLineOrder | History_Assistant.py:147 | the metadata line lists `key: value` in insertion order, separated by " \| " |
| HistoryAssistant.Preview | History_Assistant.py:216 | the preview is at most 300 characters that begin the text, followed by "..." |
| HistoryAssistant.SourceRows | History_Assistant.py:209-220 | the loop yields one row per cited document, in order |
| HistoryAssistant.SourceRowColumns | History_Assistant.py:212-218 | a row's columns, in order, are Title, Source, Page, Page Content, URL |
| HistoryAssistant.SourceRowValues | History_Assistant.py:213-217 | each column holds the metadata value or its default ("Unknown", "Unknown", "N/A", "N/A"), plus the text preview |
| MainApp.FormatDocsOrder | main.py:101-102 | the context is the first 500 characters of each text, in order, separated by blank lines |
| MainApp.FormatDocs | main.py:101-102 | `format_docs`; `FormatDocsOrder` and `FormatDocsIgnoresMetadata` state it |
| MainApp.Answer | main.py:107-120 | the vector-store-only answer; `AnswerIsReply` states it |
| MainApp.InitialRow | main.py:155 | the row before the copy loop: Title, Source, URL, Page Content; `MainRowColumns` and `MainRowValues` state the result |
| MainApp.FillRow | main.py:156-158 | the copy loop over the metadata; `FillStep`, `FillRowGet` and `FillRowKeys` state it |
| MainApp.MainRow | main.py:155-158 | one row of the table; `MainRowColumns` and `MainRowValues` state it |
| MainApp.ExcerptsAppend | main.py:102 | one excerpt per document, in retrieval order |
| MainApp.FormatDocsIgnoresMetadata | main.py:101-102 | documents with equal texts give equal contexts, whatever their metadata |
| MainApp.AnswerIsReply | main.py:107-120 | the answer is always the model's reply citing the retrieved documents, with no empty-retrieval or validation branch taken |
| MainApp.BuildRow | main.py:155-158 | the inner loop produces exactly the row `MainRow(doc)` |
| MainApp.FillStep | main.py:156-158 | one iteration assigns `key.capitalize()` for a copied key and leaves the row alone otherwise |
| MainApp.SourceRows | main.py:153-159 | one row per cited document, in order |
| MainApp.CapitalizedKeys | main.py:157-158 | "title", "source" and "url" capitalise to "Title", "Source" and "Url" |
| MainApp.CapUrl | main.py:158 | "url".capitalize() is "Url", not "URL" |
| MainApp.CapTitle | main.py:158 | "title".capitalize() is "Title" |
| MainApp.CapSource | main.py:158 | "source".capitalize() is "Source" |
| MainApp.OriginOfCopied | main.py:157-158 | a copied key lands in a column if and only if that column's origin is the key |
| MainApp.FillRowGet | main.py:155-158 | after the loop, a column fed by a copied key holds that key's metadata value when present, and every other column keeps its initial value |
| MainApp.FillRowKeys | main.py:155-158 | the loop adds exactly one column, "Url", and only when the metadata has a `url` |
| MainApp.CopiedUrl | main.py:158 | copying `url` appends a new "Url" column |
| MainApp.CopiedTitle | main.py:158 | copying `title` overwrites the existing "Title" column |
| MainApp.CopiedSource | main.py:158 | copying `source` overwrites the existing "Source" column |
| MainApp.MainRowColumns | main.py:153-159 | a row's columns are Title, Source, URL, Page Content, then "Url" if and only if the document has a `url` |
| MainApp.MainRowValues | main.py:155-158 | Title and Source show the metadata value or "", "Url" shows the `url` if any, "URL" always stays "", Page Content is the preview |
| LlmUtil.ValidateAnswerFormat | util/llm_util.py:95-104 | the check accepts every answer |
| LlmUtil.EmptyAnswerAccepted | util/llm_util.py:95-104 | an answer with no perspectives and no questions yields two empty lists and is accepted |
| LlmUtil.WellFormedAnswer | util/llm_util.py:97-98 | for an answer made of perspective lines back to back, then the literal "Discussion Questions:", then numbered question lines (and no further marker or "Perspective " after the perspectives), the two extractions return exactly the perspective texts and question texts. This is not the prompt template's layout, which puts citation lines between perspectives and a bracketed header before the questions |
| LlmUtil.BracketedHeaderNoQuestions | util/llm_util.py:98 | a reply whose questions follow the template header `[Discussion Questions]` (util/llm_util.py:53), with no "Discussion Questions:" elsewhere, yields an empty question list |
| LlmUtil.MarkerChars | util/llm_util.py:98 | helper lemma: the marker is 21 characters, begins with "D" and contains no bracket |
| LlmUtil.HeaderLacksMarker | util/llm_util.py:98 | helper lemma: "[Discussion Questions" does not contain the marker |
| LlmUtil.PerspectivesOf | util/llm_util.py:97 | perspective lines before the marker, with no further "Perspective " after them, are extracted exactly |
| LlmUtil.QuestionsOf | util/llm_util.py:98 | numbered lines after the first marker, with no second marker, are extracted exactly as the questions |
| LlmUtil.ListingRoundTrip | util/llm_util.py:97-98 | `findall` over rendered numbered lines gives back their texts (extraction inverts rendering) |
| LlmUtil.ListingAt | util/llm_util.py:97-98 | rendered lines at any position are extracted in order, and scanning resumes after them |
| LlmUtil.NoMarkerNoQuestions | util/llm_util.py:98 | without "Discussion Questions:" there are no questions, whatever the answer holds |
| LlmUtil.SegmentBetweenMarkers | util/llm_util.py:98 | `split(marker)[1]` is the text after the first marker and up to the next one |
| LlmUtil.SegmentOf | util/llm_util.py:98 | with a single marker, the segment is everything after it |
| LlmUtil.GroupsHaveNoNewline | util/llm_util.py:97-98 | no extracted group contains a newline, so an item never spans two lines |
| LlmUtil.NoNewlineNoMatches | util/llm_util.py:97-98 | text without a newline yields no match, because the pattern needs the closing `\n` |
| LlmUtil.PerspectivesNeedPrefix | util/llm_util.py:97 | without the literal "Perspective " nothing is extracted as a perspective |
| LlmUtil.MatchAtShape | util/llm_util.py:97-98 | a match ends at a newline, its group is the newline-free text just before it, and the matched text is a label with some digit string followed by the group and the newline |
| LlmUtil.LabelledMatch | util/llm_util.py:97-98 | every match is a well-formed line: a label with some digit string, the group, then a newline |
| LlmUtil.PerspectiveLabel | util/llm_util.py:97 | a perspective label followed by text and a newline is `Perspective <digits>: <text>\n` |
| LlmUtil.NumberedLabel | util/llm_util.py:98 | a question label followed by text and a newline is `<digits>. <text>\n` |
| LlmUtil.DigitRunDigits | util/llm_util.py:97-98 | every character the digit run takes is a digit |
| LlmUtil.FindAllFromSound | util/llm_util.py:97-98 | every group `findall` returns is the text of a well-formed line occurring in the scanned part |
| LlmUtil.ExtractedFromLines | util/llm_util.py:97-98 | every extracted perspective comes from a `Perspective <n>: ...` line of the answer, every question from a `<n>. ...` line of the question segment |
| LlmUtil.MatchAt | util/llm_util.py:97-98 | one match attempt of either pattern; a match ends after its start, within the text; `MatchAtShape` and `LabelledMatch` characterise it |
| LlmUtil.LabelEnd | util/llm_util.py:97-98 | the label part of either pattern; when found it ends after its start |
| LlmUtil.DigitRun | util/llm_util.py:97-98 | the greedy `\d+` run stays inside the text; `DigitRunOf` and `DigitRunDigits` characterise it |
| LlmUtil.LineEnd | util/llm_util.py:97-98 | the first newline at or after an index; `LineEndIsFirst` characterises it |
| LlmUtil.NumberThen | util/llm_util.py:97-98 | a number followed by ": " or ". "; when found it ends after the start; `NumberThenOf` characterises it |
| LlmUtil.FindAllFrom | util/llm_util.py:97-98 | `re.findall` from an index; `FindAllFromMatch`, `FindAllFromSound` and `ListingAt` characterise it |
| LlmUtil.FindAll | util/llm_util.py:97-98 | `re.findall`; `ListingRoundTrip` and `ExtractedFromLines` characterise it |
| LlmUtil.QuestionSegment | util/llm_util.py:98 | the text searched for questions; `SegmentBetweenMarkers`, `SegmentOf` and `NoMarkerNoQuestions` characterise it |
| LlmUtil.ParseAnswer | util/llm_util.py:97-98 | the two `findall` calls; `WellFormedAnswer` and `ExtractedFromLines` characterise them |
| LlmUtil.FieldsAreStringLists | util/llm_util.py:100-104 | pydantic's check of the two list fields, which the field types already guarantee; `ValidateAnswerFormat` states the outcome |
| LlmUtil.HoldsAtIsOccursAt | util/llm_util.py:97 | helper lemma: the character-by-character prefix test is `OccursAt` |
| LlmUtil.LineFromParts | util/llm_util.py:97-98 | helper lemma: a line cut at its label, number, separator, group and newline is their concatenation |
| LlmUtil.MatchAtLine | util/llm_util.py:97-98 | a well-formed line is matched whole and its group is its text |
| LlmUtil.FindAllFromMatch | util/llm_util.py:97-98 | after a match, `findall` records its group and resumes right after it (no overlap) |
| LlmUtil.FindAllLine | util/llm_util.py:97-98 | a well-formed line contributes its text and scanning resumes after its newline |
| LlmUtil.FirstLine | util/llm_util.py:97-98 | the first of several lines is extracted and the rest follow it |
| LlmUtil.DigitRunOf | util/llm_util.py:97-98 | `\d+` is greedy: it takes exactly the digits before the first non-digit |
| LlmUtil.DigitsThen | util/llm_util.py:97-98 | a number followed by its separator is read as exactly that number |
| LlmUtil.NumberThenOf | util/llm_util.py:97-98 | a number followed by ": " or ". " ends just past the separator |
| LlmUtil.LineEndOf | util/llm_util.py:97-98 | the lazy group `(.*?)\n` stops at the first newline |
| LlmUtil.LineEndIsFirst | util/llm_util.py:97-98 | the line end found is a newline with none before it, and none is found only when there is none |
| LlmUtil.LineEndOfText | util/llm_util.py:97-98 | a text without newlines followed by one ends the line exactly there |
| LlmUtil.LabelEndOfLabel | util/llm_util.py:97-98 | a well-formed label ends where the group starts |
| LlmUtil.PerspectiveLabelEnd | util/llm_util.py:97 | helper lemma: "Perspective " followed by a number and ": " is one label |
| LlmUtil.PerspectiveParts | util/llm_util.py:97 | a perspective label splits into the literal prefix, then the number and ": " |
| LlmUtil.NumberedLabelAt | util/llm_util.py:98 | a number followed by ". " is a question label |
| LlmUtil.PrefixAt | util/llm_util.py:97 | helper lemma: where "Perspective " stands, the prefix test passes |
| VectorDb.SanitizeMetadata | generate_vectordb.py:21 | sanitising keeps every key, in order |
| VectorDb.SanitizeValue | generate_vectordb.py:21 | one value: kept if str, int, float or bool, otherwise "Unknown"; `SanitizeValues` states it |
| VectorDb.IsPrimitive | generate_vectordb.py:21 | `isinstance(v, (str, int, float, bool))`; `SanitizedIsPrimitive` and `SanitizePrimitiveUnchanged` characterise it |
| VectorDb.SanitizeGet | generate_vectordb.py:21 | each key maps to the sanitised form of its old value |
| VectorDb.SanitizeValues | generate_vectordb.py:21 | str, int, float and bool values pass unchanged; any other value becomes "Unknown" |
| VectorDb.SanitizedIsPrimitive | generate_vectordb.py:21 | every sanitised value is primitive |
| VectorDb.SanitizePrimitiveUnchanged | generate_vectordb.py:21 | metadata whose values are all primitive is left as it is |
| VectorDb.SanitizeIdempotent | generate_vectordb.py:21 | sanitising twice equals sanitising once |
| VectorDb.BuildChunks | generate_vectordb.py:76-84 | the nested loop produces exactly `ChunksOf(docs, split)` |
| VectorDb.ChunksOf | generate_vectordb.py:76-84 | the chunks of a document list; `ChunksAppend`, `ChunksSingle` and `ChunkProvenance` characterise it |
| VectorDb.TaggedStep | generate_vectordb.py:80-84 | one inner iteration appends the split with its document's metadata |
| VectorDb.Tagged | generate_vectordb.py:79-84 | a document yields one chunk per split |
| VectorDb.ChunksAppend | generate_vectordb.py:78-84 | chunks appear in document order: chunking distributes over concatenation |
| VectorDb.ChunksSingle | generate_vectordb.py:79-84 | one document gives its splits in split order, each with the document's metadata |
| VectorDb.ChunkProvenance | generate_vectordb.py:78-84 | a chunk exists if and only if some document has its text among its splits; the chunk carries exactly that document's metadata |
| VectorDb.TaggedMembers | generate_vectordb.py:80-84 | a document's chunks are exactly its splits paired with its metadata |
| PyData.Get | History_Assistant.py:59 | `d.get(k)` finds a value if and only if `k` is a key |
| PyData.Render | History_Assistant.py:147 | `f"{v}"`: a string as is, an int by `PyStrings.IntToString`, a bool as "True"/"False", a float by its printed form |
| PyData.GetAt | History_Assistant.py:213-217 | looking up an entry's key finds that entry's value |
| PyData.Set | main.py:158 | `d[k] = v` grows the dictionary only for a new key |
| PyData.SetKeys | main.py:158 | an existing key keeps its position; a new key goes last |
| PyData.SetGet | main.py:158 | after `d[k] = v`, `k` maps to `v` and every other key is unchanged |
| PyData.SetUnique | main.py:158 | assignment keeps the keys unique |
| PyStrings.StripKeepsOccurrence | History_Assistant.py:59 | a word that neither begins nor ends with whitespace occurs in `s.strip()` if and only if it occurs in `s`, so the category tests survive normalisation |
| PyStrings.Lower | History_Assistant.py:59 | `s.lower()` keeps the length; `LowerChars` states it maps each character by the ASCII case mapping |
| PyStrings.Strip | History_Assistant.py:59 | `s.strip()`; `StripLeftShape` and `StripRightShape` state it removes exactly the leading and trailing whitespace, and `StripKeepsOccurrence` that it keeps inner occurrences |
| PyStrings.LowerChars | History_Assistant.py:59 | `s.lower()` replaces each character by its lower-case form, position by position |
| PyStrings.StripLeftShape | History_Assistant.py:59 | `lstrip` returns the longest suffix that does not start with whitespace, and everything it removed is whitespace |
| PyStrings.StripRightShape | History_Assistant.py:59 | `rstrip` returns the longest prefix that does not end with whitespace, and everything it removed is whitespace |
| PyStrings.Contains | History_Assistant.py:66-68 | `p in s`; `ContainsConcat`, `ContainsTail` and `OccursPrefix` characterise it |
| PyStrings.ContainsConcat | History_Assistant.py:66-68 | `p in a + b` is `p in a or p in b` when the first character of `b` does not occur in `p` |
| PyStrings.OccursInPart | History_Assistant.py:66-68 | helper lemma: such an occurrence lies wholly in `a` or wholly in `b` |
| PyStrings.SplitHead | util/llm_util.py:98 | `s.split(sep)[0]`; `SplitHeadFirst` states it is a prefix of `s` without `sep` |
| PyStrings.IntToString | History_Assistant.py:147 | `str(i)`; `IntToStringValue` characterises it |
| PyStrings.NatToStringValue | History_Assistant.py:147 | reading back the digits of `str(n)` gives `n` |
| PyStrings.IntToStringValue | History_Assistant.py:147 | `str(i)` is non-empty, starts with "-" exactly when `i` is negative, and the rest are digits whose value is the magnitude of `i` |
| PyStrings.Capitalize | main.py:158 | `s.capitalize()` keeps the length; `MainApp.CapUrl` shows `"url"` gives `"Url"` |
| PyStrings.Find | util/llm_util.py:98 | `s.find(p)`: the first index where `p` occurs, or none when it occurs nowhere |
| PyStrings.SplitSecond | util/llm_util.py:98 | `s.split(sep)[1]`; `LlmUtil.SegmentBetweenMarkers` characterises it |
| PyStrings.Truncate | History_Assistant.py:147 | `s[:n]` begins `s` and has length `min(n, len(s))` |
| PyStrings.JoinAppend | History_Assistant.py:146 | `sep.join(a + b)` is the two joins with `sep` between them |
| PyStrings.Join | History_Assistant.py:146-147 | `sep.join(parts)`; `JoinAppend`, `HistoryAssistant.FormatContextOrder` and `HistoryAssistant.MetadataLineOrder` characterise it |

## Left out

- `check_password`, the page layout, CSS, `st.table`, `st.write` and `st.subheader` are display code. `st.warning` is modelled only as the `warning` output of `SourceFilter.FilterDocsBySource`, which carries the set of unmatched sources. `', '.join` over a Python set has no defined order, so the model keeps the set.
- `load_vectorstore` (S3 download, FAISS loading), retriever calls, `tavily_client.search` and the OpenAI chat chain are I/O. They are parameters: the retrieved list, the search results and the `generate` function.
- The CSV, pickle and Infopedia loading loops (generate_vectordb.py:23-67) read files. Only `sanitize_metadata`, which they call, is modelled. The embedding step and `FAISS.from_texts` (generate_vectordb.py:86-97) are I/O.
- `RecursiveCharacterTextSplitter.split_text` is a library algorithm. It is the `split` parameter of `VectorDb.BuildChunks`.
- `evaluate_sources`, the prompt templates and `AnswerFormat`'s pydantic internals are left out. The record check is reduced to what pydantic checks here: two lists of strings.
- `pd.DataFrame`, `dropna(axis=1, how='all')` and the index reset are not modelled. The table rows are modelled as the dictionaries the loops build.
- `faiss_top_k` and the retriever's `k` only bound the size of the retrieved list, which is a parameter.
- SourceFilter.FilterDocsBySource: requires every `source` to be a string or absent. Any other value makes Python raise `AttributeError` at `.lower()`, and that exception is not modelled.
- HybridSearch.MergeResults: requires every local `score` to be absent, an int, a float or a bool; `HybridSearch.Search` and `HistoryAssistant.AnswerQuestion` ask this only of the documents that pass the filter, since dropped documents never reach the sort. Python's `sorted` compares keys with `<`, so a non-numeric key beside a numeric one (a live score, the default 1 of a missing score, a number) raises `TypeError`, which is not modelled. The precondition also excludes two inputs Python sorts without error: a merge of a single document, where no comparison is made, and a merge with no live results whose keys are all mutually comparable non-numeric values, such as all strings. `Score` gives 1 to non-numeric values only to stay total.
- HybridSearch.Search: requires numeric or absent scores on the documents that pass the filter, so it leaves out the `TypeError` path and the two sortable inputs named for `HybridSearch.MergeResults`.
- HistoryAssistant.AnswerQuestion: inherits the precondition of `HybridSearch.Search`, for the same reason.
- LlmUtil.DigitRun: `\d` is read as the ASCII digits 0-9 (`PyStrings.IsDigit`). Python's `re` on a `str` pattern also matches every other Unicode decimal digit (category Nd), so a line such as "Perspective ٣: text" followed by a newline is extracted by Python and not by the model. The extracted lists only feed `validate_answer_format`, which accepts every answer, so the reply shown does not depend on this.
- LlmUtil.DigitRunOf: states the greediness of `\d+` over ASCII digits only, for the reason given for `LlmUtil.DigitRun`.
- LlmUtil.NumberThen: inherits the ASCII reading of `\d` from `LlmUtil.DigitRun`.
- LlmUtil.LabelEnd: inherits the ASCII reading of `\d` from `LlmUtil.DigitRun`.
- LlmUtil.MatchAt: inherits the ASCII reading of `\d` from `LlmUtil.DigitRun`.
- LlmUtil.FindAllFrom: inherits the ASCII reading of `\d` from `LlmUtil.DigitRun`.
- LlmUtil.FindAll: inherits the ASCII reading of `\d` from `LlmUtil.DigitRun`.
- LlmUtil.ParseAnswer: inherits the ASCII reading of `\d` from `LlmUtil.DigitRun`.
- Floats are kept as a real number plus the text Python prints for them. Python's float formatting is not computed.
- PyStrings.Lower: maps only the ASCII capitals A-Z. Python's `lower()` maps every cased character; for example the Kelvin sign "\u212a" becomes an ASCII "k", so a source "TEXTBOO\u212a" matches "textbook" in Python and not in the model.
- PyStrings.Strip: removes only ASCII whitespace (space, \t to \r, \x1c to \x1f). Python's `strip()` also removes Unicode whitespace such as "\xa0" and "\u3000".
- SourceFilter.NormalizedSource: inherits both gaps. A source of only "\xa0" normalises to "" in Python, so the document is reported as "(Missing Source)", while the model reports "\xa0"; a source "TEXTBOO\u212a" is kept in Python when textbooks are ticked and dropped by the model.
- PyStrings.Capitalize: ASCII only, like `PyStrings.Lower`; it is applied only to the keys "title", "source" and "url", where it agrees with Python.
- The commented-out `answer_question_from_vector_store` in History_Assistant.py (lines 80-105) is not code and is not modelled.
