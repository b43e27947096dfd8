/**
 * `filter_docs_by_source`: keeps the retrieved documents whose normalised
 * `source` belongs to a category the user ticked, and collects the sources
 * it had to drop so that an empty result can be explained to the user.
 */
module SourceFilter {
  import opened Wrappers
  import opened PyStrings
  import opened PyData

  /** What the filter records for a document without a source. */
  const MissingSource := "(Missing Source)"

  /** The three check boxes of the filter panel. */
  datatype Selection = Selection(infopedia: bool, textbooks: bool, roots: bool)

  /**
   * `doc.metadata.get("source", "")` is a string.  Any other value makes
   * Python raise at `.lower()`, so the filter demands this of every input.
   */
  predicate HasTextSource(doc: Document) {
    var v := Get(doc.metadata, "source");
    v.None? || v.value.Str?
  }

  predicate AllTextSources(docs: seq<Document>) {
    forall doc <- docs :: HasTextSource(doc)
  }

  /** `doc.metadata.get("source", "").lower().strip()` */
  function NormalizedSource(doc: Document): string
    requires HasTextSource(doc)
  {
    match Get(doc.metadata, "source")
    case None => ""
    case Some(v) => Strip(Lower(v.s))
  }

  /** The category rules, applied to a normalised source. */
  predicate Matches(sel: Selection, source: string) {
    (sel.infopedia && Contains(source, "infopedia"))
    || (sel.textbooks && (Contains(source, "sec1") || Contains(source, "sec2") || Contains(source, "textbook")))
    || (sel.roots && Contains(source, "roots website"))
  }

  /** A document survives the filter: it has a source and that source matches a ticked category. */
  predicate Keeps(sel: Selection, doc: Document)
    requires HasTextSource(doc)
  {
    NormalizedSource(doc) != "" && Matches(sel, NormalizedSource(doc))
  }

  /** The entry a dropped document leaves in `unmatched_sources`. */
  function Reported(doc: Document): string
    requires HasTextSource(doc)
  {
    if NormalizedSource(doc) == "" then MissingSource else NormalizedSource(doc)
  }

  /** The documents the filter keeps, in their retrieval order. */
  function Kept(sel: Selection, docs: seq<Document>): (r: seq<Document>)
    requires AllTextSources(docs)
    ensures |r| <= |docs|
    decreases |docs|
  {
    if docs == [] then []
    else
      var last := docs[|docs| - 1];
      Kept(sel, docs[..|docs| - 1]) + (if Keeps(sel, last) then [last] else [])
  }

  /** The set `unmatched_sources` holds once the loop has seen `docs`. */
  function Unmatched(sel: Selection, docs: seq<Document>): set<string>
    requires AllTextSources(docs)
    decreases |docs|
  {
    if docs == [] then {}
    else
      var last := docs[|docs| - 1];
      Unmatched(sel, docs[..|docs| - 1]) + (if Keeps(sel, last) then {} else {Reported(last)})
  }

  /**
   * `filter_docs_by_source`.  `warning` stands for the `st.warning` call:
   * it carries the unmatched sources exactly when nothing was kept.
   */
  method FilterDocsBySource(docs: seq<Document>, sel: Selection) returns (filtered: seq<Document>, warning: Option<set<string>>)
    requires AllTextSources(docs)
    ensures filtered == Kept(sel, docs)
    ensures warning == if filtered == [] then Some(Unmatched(sel, docs)) else None
  {
    filtered := [];
    var unmatched: set<string> := {};
    var i := 0;
    while i < |docs|
      invariant 0 <= i <= |docs|
      invariant filtered == Kept(sel, docs[..i])
      invariant unmatched == Unmatched(sel, docs[..i])
    {
      var doc := docs[i];
      var source := NormalizedSource(doc);
      LoopStep(sel, docs, i, source);
      if |source| == 0 {
        unmatched := unmatched + {MissingSource};
      } else if Matches(sel, source) {
        filtered := filtered + [doc];
      } else {
        unmatched := unmatched + {source};
      }
      i := i + 1;
    }
    assert docs[..|docs|] == docs;
    warning := if filtered == [] then Some(unmatched) else None;
  }

  /** One more iteration of the loop: the spec functions grow by what the loop does with `docs[i]`. */
  lemma LoopStep(sel: Selection, docs: seq<Document>, i: nat, source: string)
    requires AllTextSources(docs) && i < |docs|
    requires source == NormalizedSource(docs[i])
    ensures AllTextSources(docs[..i]) && AllTextSources(docs[..i + 1])
    ensures |source| == 0 ==> Kept(sel, docs[..i + 1]) == Kept(sel, docs[..i])
    ensures |source| == 0 ==> Unmatched(sel, docs[..i + 1]) == Unmatched(sel, docs[..i]) + {MissingSource}
    ensures |source| != 0 && Matches(sel, source) ==> Kept(sel, docs[..i + 1]) == Kept(sel, docs[..i]) + [docs[i]]
    ensures |source| != 0 && Matches(sel, source) ==> Unmatched(sel, docs[..i + 1]) == Unmatched(sel, docs[..i])
    ensures |source| != 0 && !Matches(sel, source) ==> Kept(sel, docs[..i + 1]) == Kept(sel, docs[..i])
    ensures |source| != 0 && !Matches(sel, source) ==> Unmatched(sel, docs[..i + 1]) == Unmatched(sel, docs[..i]) + {source}
  {
    AllTextSourcesPrefix(docs, i);
    AllTextSourcesPrefix(docs, i + 1);
    assert docs[..i + 1][..i] == docs[..i];
  }

  // ---------------------------------------------------------------- lemmas

  lemma AllTextSourcesPrefix(docs: seq<Document>, n: nat)
    requires AllTextSources(docs) && n <= |docs|
    ensures AllTextSources(docs[..n])
  {
    forall doc | doc in docs[..n] ensures HasTextSource(doc) {
      var k :| 0 <= k < n && docs[..n][k] == doc;
      assert docs[k] == doc;
    }
  }

  /** A document is kept if and only if it is one of the inputs and passes the rules. */
  lemma {:induction false} KeptMembers(sel: Selection, docs: seq<Document>)
    requires AllTextSources(docs)
    ensures forall doc :: doc in Kept(sel, docs) <==> doc in docs && Keeps(sel, doc)
    decreases |docs|
  {
    if docs != [] {
      var init := docs[..|docs| - 1];
      assert docs == init + [docs[|docs| - 1]];
      KeptMembers(sel, init);
    }
  }

  /** Filtering distributes over concatenation: kept documents keep their relative order. */
  lemma {:induction false} KeptAppend(sel: Selection, a: seq<Document>, b: seq<Document>)
    requires AllTextSources(a) && AllTextSources(b)
    ensures AllTextSources(a + b)
    ensures Kept(sel, a + b) == Kept(sel, a) + Kept(sel, b)
    decreases |b|
  {
    if b != [] {
      var init := b[..|b| - 1];
      var last := b[|b| - 1];
      assert (a + b)[..|a + b| - 1] == a + init;
      assert (a + b)[|a + b| - 1] == last;
      AllTextSourcesPrefix(b, |b| - 1);
      KeptAppend(sel, a, init);
    } else {
      assert a + b == a;
    }
  }

  /** A single document is kept on its own exactly when it passes the rules. */
  lemma KeptSingle(sel: Selection, doc: Document)
    requires HasTextSource(doc)
    ensures AllTextSources([doc])
    ensures Kept(sel, [doc]) == if Keeps(sel, doc) then [doc] else []
  {
    assert [doc][..0] == [];
  }

  /** With no category ticked nothing is kept. */
  lemma {:induction false} NothingSelected(docs: seq<Document>)
    requires AllTextSources(docs)
    ensures Kept(Selection(false, false, false), docs) == []
    decreases |docs|
  {
    if docs != [] {
      AllTextSourcesPrefix(docs, |docs| - 1);
      NothingSelected(docs[..|docs| - 1]);
    }
  }

  /** Every document the filter drops is reported in the unmatched set, and nothing else is. */
  lemma {:induction false} UnmatchedExactly(sel: Selection, docs: seq<Document>)
    requires AllTextSources(docs)
    ensures forall u :: u in Unmatched(sel, docs) <==> exists doc :: doc in docs && !Keeps(sel, doc) && u == Reported(doc)
    decreases |docs|
  {
    if docs != [] {
      var init := docs[..|docs| - 1];
      var last := docs[|docs| - 1];
      assert docs == init + [last];
      AllTextSourcesPrefix(docs, |docs| - 1);
      UnmatchedExactly(sel, init);
    }
  }

  /** A retrieved document without a source is dropped and leaves "(Missing Source)" behind. */
  lemma MissingSourceDropped(sel: Selection, docs: seq<Document>, doc: Document)
    requires AllTextSources(docs) && doc in docs
    requires NormalizedSource(doc) == ""
    ensures doc !in Kept(sel, docs)
    ensures MissingSource in Unmatched(sel, docs)
  {
    KeptMembers(sel, docs);
    UnmatchedExactly(sel, docs);
  }

  /** The normalised source of a dropped document that has one is in the unmatched set. */
  lemma DroppedSourceReported(sel: Selection, docs: seq<Document>, doc: Document)
    requires AllTextSources(docs) && doc in docs
    requires NormalizedSource(doc) != "" && !Matches(sel, NormalizedSource(doc))
    ensures doc !in Kept(sel, docs)
    ensures NormalizedSource(doc) in Unmatched(sel, docs)
  {
    KeptMembers(sel, docs);
    UnmatchedExactly(sel, docs);
  }

  /** A list whose every document passes the rules is left as it is. */
  lemma {:induction false} KeptAll(sel: Selection, docs: seq<Document>)
    requires AllTextSources(docs)
    requires forall doc <- docs :: Keeps(sel, doc)
    ensures Kept(sel, docs) == docs
    decreases |docs|
  {
    if docs != [] {
      var init := docs[..|docs| - 1];
      AllTextSourcesPrefix(docs, |docs| - 1);
      assert forall doc <- init :: doc in docs;
      KeptAll(sel, init);
      assert docs == init + [docs[|docs| - 1]];
    }
  }

  /** Filtering an already filtered list with the same check boxes changes nothing. */
  lemma FilterIdempotent(sel: Selection, docs: seq<Document>)
    requires AllTextSources(docs)
    ensures AllTextSources(Kept(sel, docs))
    ensures Kept(sel, Kept(sel, docs)) == Kept(sel, docs)
  {
    KeptMembers(sel, docs);
    KeptAll(sel, Kept(sel, docs));
  }
}
