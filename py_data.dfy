/**
 * Python values as they occur in document metadata, insertion-ordered
 * dictionaries of them, and LangChain's `Document` (text plus metadata).
 */
module PyData {
  import opened Wrappers
  import opened PyStrings

  /**
   * A metadata value.  `str`, `int`, `float` and `bool` are the primitive
   * kinds; everything else (lists, `None`, nested dicts, ...) is `Other`.
   * A float and a non-primitive value carry the text Python prints for
   * them, since the model does not reproduce Python's float formatting.
   */
  datatype Value =
    | Str(s: string)
    | Int(i: int)
    | Float(x: real, repr: string)
    | Bool(b: bool)
    | Other(repr: string)

  /** `f"{v}"` */
  function Render(v: Value): string {
    match v
    case Str(s) => s
    case Int(i) => IntToString(i)
    case Float(_, repr) => repr
    case Bool(b) => if b then "True" else "False"
    case Other(repr) => repr
  }

  datatype Entry = Entry(key: string, value: Value)

  function Keys(d: seq<Entry>): (ks: seq<string>)
    ensures |ks| == |d| && forall i :: 0 <= i < |d| ==> ks[i] == d[i].key
  {
    if d == [] then [] else [d[0].key] + Keys(d[1..])
  }

  predicate UniqueKeys(d: seq<Entry>) {
    forall i, j :: 0 <= i < j < |d| ==> d[i].key != d[j].key
  }

  /** A Python `dict` from strings to values: its entries in insertion order, no key twice. */
  type Dict = d: seq<Entry> | UniqueKeys(d) witness []

  /** `d.get(k)`, `None` when `k` is absent. */
  function Get(d: seq<Entry>, k: string): (r: Option<Value>)
    ensures r.Some? <==> k in Keys(d)
  {
    if d == [] then None
    else if d[0].key == k then Some(d[0].value)
    else Get(d[1..], k)
  }

  /** `d[k] = v`: an existing key keeps its position, a new key goes last. */
  function Set(d: seq<Entry>, k: string, v: Value): (r: seq<Entry>)
    ensures |r| == if k in Keys(d) then |d| else |d| + 1
  {
    if d == [] then [Entry(k, v)]
    else if d[0].key == k then [Entry(k, v)] + d[1..]
    else [d[0]] + Set(d[1..], k, v)
  }

  /** Assignment keeps the keys and their order, adding a new key at the end. */
  lemma {:induction false} SetKeys(d: seq<Entry>, k: string, v: Value)
    ensures Keys(Set(d, k, v)) == if k in Keys(d) then Keys(d) else Keys(d) + [k]
  {
    if d != [] && d[0].key != k {
      SetKeys(d[1..], k, v);
      assert Keys(d) == [d[0].key] + Keys(d[1..]);
    }
  }

  /** After `d[k] = v`, `k` maps to `v` and every other key to what it mapped to before. */
  lemma {:induction false} SetGet(d: seq<Entry>, k: string, v: Value, k': string)
    ensures Get(Set(d, k, v), k') == if k' == k then Some(v) else Get(d, k')
  {
    if d != [] && d[0].key != k {
      SetGet(d[1..], k, v, k');
    }
  }

  /** Assignment keeps a dictionary's keys unique. */
  lemma SetUnique(d: seq<Entry>, k: string, v: Value)
    requires UniqueKeys(d)
    ensures UniqueKeys(Set(d, k, v))
  {
    SetKeys(d, k, v);
    var r := Set(d, k, v);
    assert forall i :: 0 <= i < |r| ==> r[i].key == Keys(r)[i];
    assert forall i :: 0 <= i < |d| ==> d[i].key == Keys(d)[i];
  }

  /** Looking up the entry at position `i` of a dictionary finds that entry's value. */
  lemma {:induction false} GetAt(d: seq<Entry>, i: nat)
    requires UniqueKeys(d) && i < |d|
    ensures Get(d, d[i].key) == Some(d[i].value)
  {
    if i > 0 {
      assert d[0].key != d[i].key;
      assert d[1..][i - 1] == d[i];
      assert UniqueKeys(d[1..]) by {
        forall a, b | 0 <= a < b < |d| - 1 ensures d[1..][a].key != d[1..][b].key {
          assert d[1..][a] == d[a + 1] && d[1..][b] == d[b + 1];
        }
      }
      GetAt(d[1..], i - 1);
    }
  }

  /** Looking a key up after appending one entry to a dictionary. */
  lemma {:induction false} GetAppend(d: seq<Entry>, e: Entry, k: string)
    ensures Get(d + [e], k) == if Get(d, k).Some? then Get(d, k) else if e.key == k then Some(e.value) else None
  {
    if d != [] {
      assert (d + [e])[1..] == d[1..] + [e];
      GetAppend(d[1..], e, k);
    }
  }

  /** LangChain's `Document`: `page_content` and `metadata`. */
  datatype Document = Document(pageContent: string, metadata: Dict)

  /** The dictionary `{"answer": ..., "context": ...}` the question-answering functions return. */
  datatype Response = Response(answer: string, context: seq<Document>)
}
