/**
 * Building the vector store: `sanitize_metadata`, which makes every
 * metadata value one FAISS can hold, and the loop that cuts each document
 * into chunks that carry their parent's metadata.  The text splitter is a
 * parameter: only what the loop does with its output is modelled.
 */
module VectorDb {
  import opened Wrappers
  import opened PyData

  /** What `sanitize_metadata` puts in place of a value FAISS cannot hold. */
  const Unknown := "Unknown"

  /** `isinstance(v, (str, int, float, bool))` */
  predicate IsPrimitive(v: Value) {
    v.Str? || v.Int? || v.Float? || v.Bool?
  }

  function SanitizeValue(v: Value): Value {
    if IsPrimitive(v) then v else Str(Unknown)
  }

  /** `{k: (v if isinstance(v, (str, int, float, bool)) else "Unknown") for k, v in metadata.items()}` */
  function SanitizeMetadata(d: Dict): (r: Dict)
    ensures Keys(r) == Keys(d)
  {
    var r := seq(|d|, i requires 0 <= i < |d| => Entry(d[i].key, SanitizeValue(d[i].value)));
    assert forall i :: 0 <= i < |d| ==> r[i].key == d[i].key;
    r
  }

  /** Every value of a dictionary is primitive. */
  predicate AllPrimitive(d: seq<Entry>) {
    forall i :: 0 <= i < |d| ==> IsPrimitive(d[i].value)
  }

  // ---------------------------------------------------------------- chunks

  /** One entry of `chunks`: `{"text": split, "metadata": doc.metadata}`. */
  datatype Chunk = Chunk(text: string, metadata: Dict)

  /** The chunks of one document: its splits, in order, each with the document's metadata. */
  function Tagged(splits: seq<string>, metadata: Dict): (r: seq<Chunk>)
    ensures |r| == |splits|
  {
    seq(|splits|, i requires 0 <= i < |splits| => Chunk(splits[i], metadata))
  }

  /**
   * The chunks once the loop has visited `docs`; `split` stands for
   * `text_splitter.split_text`.
   */
  function ChunksOf(docs: seq<Document>, split: string -> seq<string>): seq<Chunk>
    decreases |docs|
  {
    if docs == [] then []
    else
      var last := docs[|docs| - 1];
      ChunksOf(docs[..|docs| - 1], split) + Tagged(split(last.pageContent), last.metadata)
  }

  /** The chunking loop of the vector-store build. */
  method BuildChunks(docs: seq<Document>, split: string -> seq<string>) returns (chunks: seq<Chunk>)
    ensures chunks == ChunksOf(docs, split)
  {
    chunks := [];
    var i := 0;
    while i < |docs|
      invariant 0 <= i <= |docs|
      invariant chunks == ChunksOf(docs[..i], split)
    {
      var doc := docs[i];
      var splits := split(doc.pageContent);
      var j := 0;
      while j < |splits|
        invariant 0 <= j <= |splits|
        invariant chunks == ChunksOf(docs[..i], split) + Tagged(splits[..j], doc.metadata)
      {
        TaggedStep(splits, doc.metadata, j);
        chunks := chunks + [Chunk(splits[j], doc.metadata)];
        j := j + 1;
      }
      assert splits[..j] == splits;
      assert docs[..i + 1][..i] == docs[..i];
      i := i + 1;
    }
    assert docs[..i] == docs;
  }

  lemma TaggedStep(splits: seq<string>, metadata: Dict, j: nat)
    requires j < |splits|
    ensures Tagged(splits[..j + 1], metadata) == Tagged(splits[..j], metadata) + [Chunk(splits[j], metadata)]
  {
  }

  // ---------------------------------------------------------------- lemmas

  /** A key maps after sanitising to the sanitised value it mapped to before. */
  lemma SanitizeGet(d: Dict, k: string)
    ensures Get(SanitizeMetadata(d), k) == match Get(d, k) case None => None case Some(v) => Some(SanitizeValue(v))
  {
    var r := SanitizeMetadata(d);
    if k in Keys(d) {
      var i :| 0 <= i < |d| && Keys(d)[i] == k;
      GetAt(d, i);
      GetAt(r, i);
    }
  }

  /**
   * Primitive values come through unchanged and every other value becomes
   * "Unknown"; no key is added or lost.
   */
  lemma SanitizeValues(d: Dict, k: string, v: Value)
    requires Get(d, k) == Some(v)
    ensures IsPrimitive(v) ==> Get(SanitizeMetadata(d), k) == Some(v)
    ensures !IsPrimitive(v) ==> Get(SanitizeMetadata(d), k) == Some(Str(Unknown))
  {
    SanitizeGet(d, k);
  }

  /** After sanitising, every value is primitive. */
  lemma SanitizedIsPrimitive(d: Dict)
    ensures AllPrimitive(SanitizeMetadata(d))
  {
  }

  /** A dictionary of primitive values is left as it is. */
  lemma SanitizePrimitiveUnchanged(d: Dict)
    requires AllPrimitive(d)
    ensures SanitizeMetadata(d) == d
  {
    var r := SanitizeMetadata(d);
    assert forall i :: 0 <= i < |d| ==> r[i] == d[i];
  }

  /** Sanitising twice is sanitising once. */
  lemma SanitizeIdempotent(d: Dict)
    ensures SanitizeMetadata(SanitizeMetadata(d)) == SanitizeMetadata(d)
  {
    SanitizedIsPrimitive(d);
    SanitizePrimitiveUnchanged(SanitizeMetadata(d));
  }

  /** Chunking distributes over concatenation: documents' chunks appear in document order. */
  lemma {:induction false} ChunksAppend(a: seq<Document>, b: seq<Document>, split: string -> seq<string>)
    ensures ChunksOf(a + b, split) == ChunksOf(a, split) + ChunksOf(b, split)
    decreases |b|
  {
    if b == [] {
      assert a + b == a;
    } else {
      var init, last := b[..|b| - 1], b[|b| - 1];
      assert (a + b)[..|a + b| - 1] == a + init;
      assert (a + b)[|a + b| - 1] == last;
      ChunksAppend(a, init, split);
    }
  }

  /** A single document gives its splits, in split order, each with the document's metadata. */
  lemma ChunksSingle(doc: Document, split: string -> seq<string>)
    ensures ChunksOf([doc], split) == Tagged(split(doc.pageContent), doc.metadata)
  {
    assert [doc][..0] == [];
  }

  /**
   * A chunk is produced exactly when some document has it as one of its
   * splits: every chunk carries exactly its parent document's metadata.
   */
  lemma {:induction false} ChunkProvenance(docs: seq<Document>, split: string -> seq<string>, c: Chunk)
    ensures c in ChunksOf(docs, split) <==>
              exists doc :: doc in docs && c.metadata == doc.metadata && c.text in split(doc.pageContent)
    decreases |docs|
  {
    if docs != [] {
      var init, last := docs[..|docs| - 1], docs[|docs| - 1];
      assert docs == init + [last];
      ChunkProvenance(init, split, c);
      TaggedMembers(split(last.pageContent), last.metadata, c);
    }
  }

  lemma TaggedMembers(splits: seq<string>, metadata: Dict, c: Chunk)
    ensures c in Tagged(splits, metadata) <==> c.metadata == metadata && c.text in splits
  {
    if c.metadata == metadata && c.text in splits {
      var i :| 0 <= i < |splits| && splits[i] == c.text;
      assert Tagged(splits, metadata)[i] == c;
    }
  }
}
