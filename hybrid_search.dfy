/**
 * The merge half of `hybrid_search`: the first live web results are turned
 * into documents, appended to the filtered vector-store documents, and the
 * whole list is sorted by relevance score, highest first, keeping the
 * original order among equal scores.
 */
module HybridSearch {
  import opened Wrappers
  import opened PyData
  import opened SourceFilter

  /** `tavily_top_k`: how many live results enter the merge. */
  const TavilyTopK := 3

  /**
   * One entry of the web search's `results` list: its `content`, `url` and
   * `score`, the score with the text Python prints for it.
   */
  datatype SearchResult = SearchResult(content: string, url: string, score: real, scoreRepr: string)

  /** `Document(page_content=entry["content"], metadata={"source": entry["url"], "score": entry["score"]})` */
  function LiveDocument(entry: SearchResult): Document {
    Document(entry.content, [Entry("source", Str(entry.url)), Entry("score", Float(entry.score, entry.scoreRepr))])
  }

  /** The live documents built from `results[:tavily_top_k]`, in the search's order. */
  function LiveDocuments(results: seq<SearchResult>): seq<Document> {
    var top := if |results| <= TavilyTopK then results else results[..TavilyTopK];
    seq(|top|, i requires 0 <= i < |top| => LiveDocument(top[i]))
  }

  /** A `score` that Python can compare with numbers: absent, or an `int`, `float` or `bool`. */
  predicate NumericScore(doc: Document) {
    var v := Get(doc.metadata, "score");
    v.None? || v.value.Int? || v.value.Float? || v.value.Bool?
  }

  predicate AllNumericScores(docs: seq<Document>) {
    forall doc <- docs :: NumericScore(doc)
  }

  /**
   * The sort key `metadata.get("score", 1)` as a number (`True` counts as 1).
   * A key that is not a number is outside the merge's precondition; it is
   * given 1 here only so that the key is total.
   */
  function Score(doc: Document): real {
    match Get(doc.metadata, "score")
    case None => 1.0
    case Some(v) =>
      match v
      case Int(i) => i as real
      case Float(x, _) => x
      case Bool(b) => if b then 1.0 else 0.0
      case _ => 1.0
  }

  /** Highest key first. */
  predicate Descending<T>(xs: seq<T>, key: T -> real) {
    forall i, j :: 0 <= i < j < |xs| ==> key(xs[i]) >= key(xs[j])
  }

  /** Puts `x` in front of the first element whose key is not strictly greater. */
  function Insert<T>(x: T, sorted: seq<T>, key: T -> real): seq<T> {
    if sorted == [] then [x]
    else if key(sorted[0]) > key(x) then [sorted[0]] + Insert(x, sorted[1..], key)
    else [x] + sorted
  }

  /** `sorted(xs, key=key, reverse=True)`: an insertion sort, from the back of the list. */
  function SortDescending<T>(xs: seq<T>, key: T -> real): seq<T> {
    if xs == [] then [] else Insert(xs[0], SortDescending(xs[1..], key), key)
  }

  /** The elements whose key is exactly `k`, in their order. */
  function WithKey<T>(xs: seq<T>, key: T -> real, k: real): seq<T> {
    if xs == [] then []
    else (if key(xs[0]) == k then [xs[0]] else []) + WithKey(xs[1..], key, k)
  }

  /** `filtered_faiss_results + tavily_docs`, sorted. */
  function MergeResults(local: seq<Document>, results: seq<SearchResult>): seq<Document>
    requires AllNumericScores(local)
  {
    SortDescending(local + LiveDocuments(results), Score)
  }

  /** `hybrid_search` once retrieval and the web search have produced their lists. */
  function Search(retrieved: seq<Document>, sel: Selection, results: seq<SearchResult>): seq<Document>
    requires AllTextSources(retrieved) && AllNumericScores(Kept(sel, retrieved))
  {
    MergeResults(Kept(sel, retrieved), results)
  }

  // ---------------------------------------------------------------- lemmas

  /** At most three live documents, each with metadata exactly `{source: url, score: score}`. */
  lemma LiveDocumentsShape(results: seq<SearchResult>)
    ensures |LiveDocuments(results)| <= TavilyTopK
    ensures |LiveDocuments(results)| == if |results| < TavilyTopK then |results| else TavilyTopK
    ensures forall i :: 0 <= i < |LiveDocuments(results)| ==>
              && LiveDocuments(results)[i].pageContent == results[i].content
              && Keys(LiveDocuments(results)[i].metadata) == ["source", "score"]
              && Get(LiveDocuments(results)[i].metadata, "source") == Some(Str(results[i].url))
              && Get(LiveDocuments(results)[i].metadata, "score") == Some(Float(results[i].score, results[i].scoreRepr))
  {
    var docs := LiveDocuments(results);
    var top := if |results| <= TavilyTopK then results else results[..TavilyTopK];
    forall i | 0 <= i < |docs|
      ensures docs[i] == LiveDocument(results[i])
      ensures Keys(docs[i].metadata) == ["source", "score"]
      ensures Get(docs[i].metadata, "source") == Some(Str(results[i].url))
      ensures Get(docs[i].metadata, "score") == Some(Float(results[i].score, results[i].scoreRepr))
    {
      assert top[i] == results[i];
      LiveDocumentScore(results[i]);
    }
  }

  lemma LiveDocumentScore(entry: SearchResult)
    ensures Keys(LiveDocument(entry).metadata) == ["source", "score"]
    ensures Get(LiveDocument(entry).metadata, "source") == Some(Str(entry.url))
    ensures Get(LiveDocument(entry).metadata, "score") == Some(Float(entry.score, entry.scoreRepr))
    ensures NumericScore(LiveDocument(entry)) && Score(LiveDocument(entry)) == entry.score
  {
    var m := LiveDocument(entry).metadata;
    assert m[1..][1..] == [];
  }

  /** Every live document has a numeric score. */
  lemma LiveScoresNumeric(results: seq<SearchResult>)
    ensures AllNumericScores(LiveDocuments(results))
  {
    forall doc | doc in LiveDocuments(results) ensures NumericScore(doc) {
      var i :| 0 <= i < |LiveDocuments(results)| && LiveDocuments(results)[i] == doc;
      LiveDocumentScore(results[i]);
    }
  }

  /** Inserting adds exactly one element. */
  lemma {:induction false} InsertPermutation<T>(x: T, sorted: seq<T>, key: T -> real)
    ensures multiset(Insert(x, sorted, key)) == multiset(sorted) + multiset{x}
    decreases |sorted|
  {
    if sorted != [] && key(sorted[0]) > key(x) {
      InsertPermutation(x, sorted[1..], key);
      assert sorted == [sorted[0]] + sorted[1..];
    }
  }

  /** Every key in `xs` is at most `top`. */
  predicate KeysAtMost<T>(xs: seq<T>, key: T -> real, top: real) {
    forall i :: 0 <= i < |xs| ==> key(xs[i]) <= top
  }

  /** The tail of a descending list is descending, and its head has the greatest key. */
  lemma DescendingTail<T>(xs: seq<T>, key: T -> real)
    requires Descending(xs, key) && xs != []
    ensures Descending(xs[1..], key)
    ensures KeysAtMost(xs[1..], key, key(xs[0]))
  {
    var tail := xs[1..];
    forall i, j | 0 <= i < j < |tail| ensures key(tail[i]) >= key(tail[j]) {
      assert tail[i] == xs[i + 1] && tail[j] == xs[j + 1];
    }
    forall i | 0 <= i < |tail| ensures key(tail[i]) <= key(xs[0]) {
      assert tail[i] == xs[i + 1];
    }
  }

  /** A descending list stays descending behind an element with the greatest key. */
  lemma ConsDescending<T>(y: T, ys: seq<T>, key: T -> real)
    requires Descending(ys, key) && KeysAtMost(ys, key, key(y))
    ensures Descending([y] + ys, key)
  {
    var r := [y] + ys;
    forall i, j | 0 <= i < j < |r| ensures key(r[i]) >= key(r[j]) {
      assert r[j] == ys[j - 1];
      if i > 0 {
        assert r[i] == ys[i - 1];
      }
    }
  }

  /** Inserting an element under a bound keeps every key under it. */
  lemma {:induction false} InsertBounded<T>(x: T, xs: seq<T>, key: T -> real, top: real)
    requires KeysAtMost(xs, key, top) && key(x) <= top
    ensures KeysAtMost(Insert(x, xs, key), key, top)
    decreases |xs|
  {
    if xs != [] && key(xs[0]) > key(x) {
      var rest := Insert(x, xs[1..], key);
      assert KeysAtMost(xs[1..], key, top) by {
        forall i | 0 <= i < |xs| - 1 ensures key(xs[1..][i]) <= top {
          assert xs[1..][i] == xs[i + 1];
        }
      }
      InsertBounded(x, xs[1..], key, top);
      var r := [xs[0]] + rest;
      forall i | 0 <= i < |r| ensures key(r[i]) <= top {
        if i > 0 {
          assert r[i] == rest[i - 1];
        }
      }
    } else {
      var r := [x] + xs;
      forall i | 0 <= i < |r| ensures key(r[i]) <= top {
        if i > 0 {
          assert r[i] == xs[i - 1];
        }
      }
    }
  }

  /** Inserting into a descending list keeps it descending. */
  lemma {:induction false} InsertDescending<T>(x: T, sorted: seq<T>, key: T -> real)
    requires Descending(sorted, key)
    ensures Descending(Insert(x, sorted, key), key)
    decreases |sorted|
  {
    if sorted == [] {
      assert KeysAtMost([], key, key(x));
      ConsDescending(x, [], key);
      assert [x] + [] == [x];
    } else {
      DescendingTail(sorted, key);
      if key(sorted[0]) > key(x) {
        InsertDescending(x, sorted[1..], key);
        InsertBounded(x, sorted[1..], key, key(sorted[0]));
        ConsDescending(sorted[0], Insert(x, sorted[1..], key), key);
      } else {
        assert KeysAtMost(sorted, key, key(x)) by {
          forall i | 0 <= i < |sorted| ensures key(sorted[i]) <= key(x) {
            if i > 0 {
              assert sorted[i] == sorted[1..][i - 1];
            }
          }
        }
        ConsDescending(x, sorted, key);
      }
    }
  }

  lemma WithKeyCons<T>(y: T, ys: seq<T>, key: T -> real, k: real)
    ensures key(y) == k ==> WithKey([y] + ys, key, k) == [y] + WithKey(ys, key, k)
    ensures key(y) != k ==> WithKey([y] + ys, key, k) == WithKey(ys, key, k)
  {
    assert ([y] + ys)[1..] == ys;
  }

  /**
   * Insertion passes only over elements with a strictly greater key, so
   * among the elements with key `k`, `x` comes first.
   */
  lemma {:induction false} InsertStable<T>(x: T, sorted: seq<T>, key: T -> real, k: real)
    ensures key(x) == k ==> WithKey(Insert(x, sorted, key), key, k) == [x] + WithKey(sorted, key, k)
    ensures key(x) != k ==> WithKey(Insert(x, sorted, key), key, k) == WithKey(sorted, key, k)
    decreases |sorted|
  {
    if sorted == [] {
      WithKeyCons(x, [], key, k);
      assert [x] + [] == [x];
    } else if key(sorted[0]) > key(x) {
      var rest := Insert(x, sorted[1..], key);
      InsertStable(x, sorted[1..], key, k);
      WithKeyCons(sorted[0], rest, key, k);
      WithKeyCons(sorted[0], sorted[1..], key, k);
      assert [sorted[0]] + sorted[1..] == sorted;
    } else {
      WithKeyCons(x, sorted, key, k);
    }
  }

  /** The sort is a permutation of its input. */
  lemma {:induction false} SortPermutation<T>(xs: seq<T>, key: T -> real)
    ensures multiset(SortDescending(xs, key)) == multiset(xs)
    decreases |xs|
  {
    if xs != [] {
      SortPermutation(xs[1..], key);
      InsertPermutation(xs[0], SortDescending(xs[1..], key), key);
      assert xs == [xs[0]] + xs[1..];
    }
  }

  /** The sort's result has the highest key first. */
  lemma {:induction false} SortIsDescending<T>(xs: seq<T>, key: T -> real)
    ensures Descending(SortDescending(xs, key), key)
    decreases |xs|
  {
    if xs != [] {
      SortIsDescending(xs[1..], key);
      InsertDescending(xs[0], SortDescending(xs[1..], key), key);
    }
  }

  /** The sort is stable: the elements with any one key keep their order. */
  lemma {:induction false} SortStable<T>(xs: seq<T>, key: T -> real, k: real)
    ensures WithKey(SortDescending(xs, key), key, k) == WithKey(xs, key, k)
    decreases |xs|
  {
    if xs != [] {
      SortStable(xs[1..], key, k);
      InsertStable(xs[0], SortDescending(xs[1..], key), key, k);
      WithKeyCons(xs[0], xs[1..], key, k);
      assert [xs[0]] + xs[1..] == xs;
    }
  }

  lemma {:induction false} WithKeyAppend<T>(a: seq<T>, b: seq<T>, key: T -> real, k: real)
    ensures WithKey(a + b, key, k) == WithKey(a, key, k) + WithKey(b, key, k)
    decreases |a|
  {
    if a != [] {
      WithKeyAppend(a[1..], b, key, k);
      assert (a + b)[1..] == a[1..] + b;
    } else {
      assert a + b == b;
    }
  }

  /**
   * The merged list holds exactly the filtered local documents and the live
   * ones, highest score first; among documents of equal score every local
   * one precedes every live one, each group in its own order.
   */
  lemma MergeProperties(local: seq<Document>, results: seq<SearchResult>, k: real)
    requires AllNumericScores(local)
    ensures multiset(MergeResults(local, results)) == multiset(local) + multiset(LiveDocuments(results))
    ensures Descending(MergeResults(local, results), Score)
    ensures WithKey(MergeResults(local, results), Score, k) == WithKey(local, Score, k) + WithKey(LiveDocuments(results), Score, k)
  {
    var all := local + LiveDocuments(results);
    SortPermutation(all, Score);
    SortIsDescending(all, Score);
    SortStable(all, Score, k);
    WithKeyAppend(local, LiveDocuments(results), Score, k);
  }

  /**
   * `hybrid_search` returns exactly the retrieved documents the filter keeps
   * and the live ones, highest score first.
   */
  lemma SearchResults(retrieved: seq<Document>, sel: Selection, results: seq<SearchResult>, doc: Document)
    requires AllTextSources(retrieved) && AllNumericScores(Kept(sel, retrieved))
    ensures doc in Search(retrieved, sel, results) <==>
              (doc in retrieved && Keeps(sel, doc)) || doc in LiveDocuments(results)
    ensures Descending(Search(retrieved, sel, results), Score)
  {
    KeptMembers(sel, retrieved);
    var local := Kept(sel, retrieved);
    MergeProperties(local, results, 0.0);
    assert doc in Search(retrieved, sel, results) <==> doc in multiset(MergeResults(local, results));
  }

  /**
   * A local document without a score stays ahead of a live result scored 1,
   * and both rank above a live result scored 0.8.
   */
  lemma UnscoredLocalFirst(local: Document, best: SearchResult, second: SearchResult)
    requires Get(local.metadata, "score").None?
    requires best.score == 1.0 && second.score == 0.8
    ensures MergeResults([local], [best, second]) == [local, LiveDocument(best), LiveDocument(second)]
  {
    var b, s := LiveDocument(best), LiveDocument(second);
    LiveDocumentScore(best);
    LiveDocumentScore(second);
    assert Score(local) == 1.0;
    assert LiveDocuments([best, second]) == [b, s];
    var all := [local, b, s];
    assert [local] + [b, s] == all;
    assert all[1..] == [b, s] && all[1..][1..] == [s] && all[1..][1..][1..] == [];
    assert SortDescending([s], Score) == [s];
    assert SortDescending([b, s], Score) == Insert(b, [s], Score) == [b, s];
    assert SortDescending(all, Score) == Insert(local, [b, s], Score) == all;
  }
}
