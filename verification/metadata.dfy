/** The deterministic part of backend/services/advanced_rag_service.py:
    metadata sanitisation, the right-biased merge of chunk and generated
    metadata, the JSON-span fallback of metadata generation, and the
    base-document and chunk annotation of `create_smart_chunks`. The text
    splitter, the language model chain, `json.loads` and `json.dumps` are
    function parameters. */
module RagMetadata {
  import opened Wrappers
  import opened Text

  /** A Python value stored in a metadata dict. `Float` and `Other` carry
      the text `str()` gives for them. */
  datatype Value =
    | Str(s: string)
    | Int(i: int)
    | Float(repr: string)
    | Bool(b: bool)
    | NoneValue
    | List(items: seq<Value>)
    | Dict(entries: map<string, Value>)
    | Other(repr: string)

  type Metadata = map<string, Value>

  /** The types the vector store accepts: `str`, `int`, `float`, `bool`, `None`. */
  predicate IsScalar(v: Value) {
    v.Str? || v.Int? || v.Float? || v.Bool? || v.NoneValue?
  }

  predicate AllScalar(m: Metadata) {
    forall k :: k in m ==> IsScalar(m[k])
  }

  /** Python's `str(v)`; `repr` gives the text of a nested list or dict. */
  function StrOf(v: Value, repr: Value -> string): string {
    match v
    case Str(s) => s
    case Int(i) => IntToString(i)
    case Float(r) => r
    case Bool(b) => if b then "True" else "False"
    case NoneValue => "None"
    case Other(r) => r
    case _ => repr(v)
  }

  function ItemStrings(items: seq<Value>, repr: Value -> string): (r: seq<string>)
    ensures |r| == |items|
    ensures forall k :: 0 <= k < |items| ==> r[k] == StrOf(items[k], repr)
  {
    seq(|items|, k requires 0 <= k < |items| => StrOf(items[k], repr))
  }

  /** One value of `sanitize_metadata`; `None` when `json.dumps` raises. */
  function SanitizeValue(v: Value, repr: Value -> string, dumps: Metadata -> Option<string>): (r: Option<Value>)
    ensures IsScalar(v) ==> r == Some(v)
    ensures v.List? ==> r == Some(Str(Join(", ", ItemStrings(v.items, repr))))
    ensures v.Dict? ==> (r.Some? <==> dumps(v.entries).Some?)
    ensures v.Dict? && r.Some? ==> r.value == Str(dumps(v.entries).value)
    ensures v.Other? ==> r == Some(Str(v.repr))
    ensures r.Some? ==> IsScalar(r.value)
  {
    if IsScalar(v) then Some(v)
    else
      match v
      case List(items) => Some(Str(Join(", ", ItemStrings(items, repr))))
      case Dict(entries) =>
        (match dumps(entries)
         case Some(text) => Some(Str(text))
         case None => None)
      case _ => Some(Str(StrOf(v, repr)))
  }

  /** `sanitize_metadata(metadata)`; `None` when it raises. */
  function Sanitize(m: Metadata, repr: Value -> string, dumps: Metadata -> Option<string>): (r: Option<Metadata>)
    ensures r.None? <==> exists k :: k in m && SanitizeValue(m[k], repr, dumps).None?
    ensures r.Some? ==> r.value.Keys == m.Keys && AllScalar(r.value)
    ensures r.Some? ==> forall k :: k in m && IsScalar(m[k]) ==> r.value[k] == m[k]
    ensures r.Some? ==> forall k :: k in m ==> Some(r.value[k]) == SanitizeValue(m[k], repr, dumps)
  {
    if exists k :: k in m && SanitizeValue(m[k], repr, dumps).None? then None
    else Some(map k | k in m :: SanitizeValue(m[k], repr, dumps).value)
  }

  /** An empty list becomes the empty string; a list's text is its items'
      texts plus two characters per separator. */
  lemma SanitizeList(items: seq<Value>, repr: Value -> string, dumps: Metadata -> Option<string>)
    ensures items == [] ==> SanitizeValue(List(items), repr, dumps) == Some(Str(""))
    ensures var t := SanitizeValue(List(items), repr, dumps).value.s;
      |items| > 0 ==> |t| == TotalLength(ItemStrings(items, repr)) + 2 * (|items| - 1)
  {
    if |items| > 0 {
      JoinLength(", ", ItemStrings(items, repr));
    }
  }

  /** Sanitising all-scalar metadata changes nothing. */
  lemma SanitizeOfScalar(m: Metadata, repr: Value -> string, dumps: Metadata -> Option<string>)
    requires AllScalar(m)
    ensures Sanitize(m, repr, dumps) == Some(m)
  {
    assert forall k :: k in m ==> SanitizeValue(m[k], repr, dumps) == Some(m[k]);
    var s := Sanitize(m, repr, dumps);
    assert s.Some?;
    assert s.value == m;
  }

  /** Sanitised metadata is all scalar, so sanitising again changes nothing. */
  lemma SanitizeIdempotent(m: Metadata, repr: Value -> string, dumps: Metadata -> Option<string>)
    requires Sanitize(m, repr, dumps).Some?
    ensures Sanitize(Sanitize(m, repr, dumps).value, repr, dumps) == Sanitize(m, repr, dumps)
  {
    SanitizeOfScalar(Sanitize(m, repr, dumps).value, repr, dumps);
  }

  /** `{**chunk.metadata, **sanitized_ai_metadata}` */
  function Merge(base: Metadata, over: Metadata): (r: Metadata)
    ensures r.Keys == base.Keys + over.Keys
    ensures forall k :: k in over ==> r[k] == over[k]
    ensures forall k :: k in base && k !in over ==> r[k] == base[k]
  {
    base + over
  }

  // ---------------------------------------------------------------------
  // generate_metadata_with_ai

  /** The fixed record returned when no metadata could be extracted. */
  const DefaultMetadata: Metadata := map[
    "source" := Str("unknown"),
    "category" := Str("general"),
    "name" := Str(""),
    "trait" := Str(""),
    "game" := Str(""),
    "sentiment" := Str("neutral"),
    "language" := Str("zh")
  ]

  /** `re.search(r'\{.*\}', text, re.DOTALL)`: the greedy match runs from the
      first `{` to the last `}`. */
  function JsonSpan(text: string): (r: Option<string>)
    ensures r.Some? ==> exists i :: 0 <= i && i + |r.value| <= |text| && r.value == text[i..i + |r.value|]
                          && '{' !in text[..i] && '}' !in text[i + |r.value|..]
    ensures r.Some? ==> |r.value| >= 2 && r.value[0] == '{' && r.value[|r.value| - 1] == '}'
  {
    var first := FirstIndex(text, '{');
    var last := LastIndex(text, '}');
    if first.Some? && last.Some? && first.value < last.value then
      Some(text[first.value..last.value + 1])
    else
      None
  }

  /** The match exists exactly when some `{` comes before some `}`. */
  lemma JsonSpanExists(text: string)
    ensures JsonSpan(text).Some? <==> exists i, j :: 0 <= i < j < |text| && text[i] == '{' && text[j] == '}'
  {
    if exists i, j :: 0 <= i < j < |text| && text[i] == '{' && text[j] == '}' {
      var i, j :| 0 <= i < j < |text| && text[i] == '{' && text[j] == '}';
      var first := FirstIndex(text, '{');
      var last := LastIndex(text, '}');
      assert '{' in text && '}' in text;
    }
  }

  /** `generate_metadata_with_ai(content)`: `response` is the chain's output
      or the text of what it raised, `loads` is `json.loads` (`None` when it
      raises). */
  function GenerateMetadata(response: Result<string, string>, loads: string -> Option<Metadata>): (r: Metadata)
    ensures response.Err? ==> r == DefaultMetadata
    ensures response.Ok? && JsonSpan(response.value).None? ==> r == DefaultMetadata
    ensures response.Ok? && JsonSpan(response.value).Some? ==>
              r == loads(JsonSpan(response.value).value).GetOr(DefaultMetadata)
  {
    match response
    case Err(_) => DefaultMetadata
    case Ok(text) =>
      match JsonSpan(text)
      case None => DefaultMetadata
      case Some(span) =>
        match loads(span)
        case None => DefaultMetadata
        case Some(m) => m
  }

  /** The default record is already sanitised. */
  lemma DefaultMetadataIsClean(repr: Value -> string, dumps: Metadata -> Option<string>)
    ensures Sanitize(DefaultMetadata, repr, dumps) == Some(DefaultMetadata)
    ensures DefaultMetadata.Keys == {"source", "category", "name", "trait", "game", "sentiment", "language"}
  {
    assert AllScalar(DefaultMetadata);
    SanitizeOfScalar(DefaultMetadata, repr, dumps);
  }

  // ---------------------------------------------------------------------
  // create_smart_chunks and enhance_chunks_with_ai_metadata

  /** A LangChain `Document`. */
  datatype Doc = Doc(pageContent: string, metadata: Metadata)

  /** The base document built from input `content` at position `index`:
      the stripped text, tagged with the position and the unstripped length. */
  function BaseDoc(content: string, index: nat): Doc {
    Doc(Strip(content), map["source" := Str("google_sheets"), "document_id" := Int(index), "content_length" := Int(|content|)])
  }

  /** The positions `i` onwards whose input is not blank, in order. */
  function NonBlankPositions(documents: seq<string>, i: nat): (r: seq<nat>)
    requires i <= |documents|
    ensures |r| <= |documents| - i
    ensures forall k :: 0 <= k < |r| ==> i <= r[k] < |documents| && !IsBlank(documents[r[k]])
    ensures forall k, l :: 0 <= k < l < |r| ==> r[k] < r[l]
    decreases |documents| - i
  {
    if i == |documents| then []
    else (if IsBlank(documents[i]) then [] else [i]) + NonBlankPositions(documents, i + 1)
  }

  /** No non-blank position is skipped. */
  lemma {:induction false} NonBlankPositionsComplete(documents: seq<string>, i: nat, j: nat)
    requires i <= j < |documents| && !IsBlank(documents[j])
    ensures j in NonBlankPositions(documents, i)
    decreases j - i
  {
    if i < j {
      NonBlankPositionsComplete(documents, i + 1, j);
    }
  }

  /** The base-document loop: one document per non-blank input, in input
      order, tagged with the input's original position. */
  function BaseDocs(documents: seq<string>): (r: seq<Doc>)
    ensures |r| <= |documents|
  {
    var ps := NonBlankPositions(documents, 0);
    seq(|ps|, k requires 0 <= k < |ps| => BaseDoc(documents[ps[k]], ps[k]))
  }

  /** A base document of a non-blank input has non-empty stripped text, the
      input's position as `document_id` and the unstripped length as
      `content_length`. */
  lemma BaseDocFields(content: string, index: nat)
    requires !IsBlank(content)
    ensures var d := BaseDoc(content, index);
      && d.pageContent != "" && IsStripped(d.pageContent) && |d.pageContent| <= |content|
      && d.metadata.Keys == {"source", "document_id", "content_length"}
      && d.metadata["document_id"] == Int(index)
      && d.metadata["content_length"] == Int(|content|)
  {
  }

  /** Document `d` is the base document of the non-blank input at `j`. */
  predicate BaseOf(documents: seq<string>, j: int, d: Doc) {
    0 <= j < |documents| && !IsBlank(documents[j]) && d == BaseDoc(documents[j], j)
  }

  /** Every base document comes from a non-blank input. */
  lemma BaseDocsFromNonBlank(documents: seq<string>, k: nat)
    requires k < |BaseDocs(documents)|
    ensures exists j :: BaseOf(documents, j, BaseDocs(documents)[k])
  {
    var ps := NonBlankPositions(documents, 0);
    assert BaseOf(documents, ps[k], BaseDocs(documents)[k]);
  }

  /** Base documents keep input order: their `document_id`s strictly increase. */
  lemma BaseDocsOrdered(documents: seq<string>)
    ensures var r := BaseDocs(documents);
      forall k, l :: 0 <= k < l < |r| ==> r[k].metadata["document_id"].i < r[l].metadata["document_id"].i
  {
    var ps := NonBlankPositions(documents, 0);
    var r := BaseDocs(documents);
    forall k | 0 <= k < |r|
      ensures r[k].metadata["document_id"] == Int(ps[k])
    {
      assert r[k] == BaseDoc(documents[ps[k]], ps[k]);
    }
  }

  /** Every non-blank input has its base document. */
  lemma BaseDocsComplete(documents: seq<string>)
    ensures forall j :: 0 <= j < |documents| && !IsBlank(documents[j]) ==> BaseDoc(documents[j], j) in BaseDocs(documents)
  {
    var ps := NonBlankPositions(documents, 0);
    var r := BaseDocs(documents);
    forall j | 0 <= j < |documents| && !IsBlank(documents[j])
      ensures BaseDoc(documents[j], j) in r
    {
      NonBlankPositionsComplete(documents, 0, j);
      var k :| 0 <= k < |ps| && ps[k] == j;
      assert r[k] == BaseDoc(documents[j], j);
    }
  }

  /** The keys the chunk-metadata loop writes. */
  const ChunkKeys: set<string> := {"chunk_id", "total_chunks", "chunk_size"}

  /** Chunk `k` of `n` with its number, the total and its own length
      written into its metadata. */
  function AnnotateOne(chunk: Doc, k: nat, n: nat): (r: Doc)
    ensures r.pageContent == chunk.pageContent
    ensures r.metadata.Keys == chunk.metadata.Keys + ChunkKeys
    ensures r.metadata["chunk_id"] == Int(k)
    ensures r.metadata["total_chunks"] == Int(n)
    ensures r.metadata["chunk_size"] == Int(|chunk.pageContent|)
    ensures forall key :: key in chunk.metadata && key !in ChunkKeys ==> r.metadata[key] == chunk.metadata[key]
  {
    Doc(chunk.pageContent,
        Merge(chunk.metadata, map["chunk_id" := Int(k), "total_chunks" := Int(n), "chunk_size" := Int(|chunk.pageContent|)]))
  }

  /** The chunk-metadata loop: chunk `k` of `n` gets its number, the total
      and its own length; its other keys and its text are kept. */
  function Annotate(chunks: seq<Doc>): (r: seq<Doc>)
    ensures |r| == |chunks|
    ensures forall k :: 0 <= k < |r| ==>
      && r[k].pageContent == chunks[k].pageContent
      && r[k].metadata.Keys == chunks[k].metadata.Keys + ChunkKeys
      && r[k].metadata["chunk_id"] == Int(k)
      && r[k].metadata["total_chunks"] == Int(|chunks|)
      && r[k].metadata["chunk_size"] == Int(|chunks[k].pageContent|)
      && forall key :: key in chunks[k].metadata && key !in ChunkKeys ==>
           r[k].metadata[key] == chunks[k].metadata[key]
  {
    seq(|chunks|, k requires 0 <= k < |chunks| => AnnotateOne(chunks[k], k, |chunks|))
  }

  /** `create_smart_chunks(documents)`: `[]` before the splitter exists or
      when splitting raises (`split` returns `None`). */
  function CreateSmartChunks(splitterReady: bool, documents: seq<string>,
                             split: seq<Doc> -> Option<seq<Doc>>): (r: seq<Doc>)
    ensures !splitterReady ==> r == []
    ensures splitterReady && split(BaseDocs(documents)).None? ==> r == []
    ensures splitterReady && split(BaseDocs(documents)).Some? ==>
              r == Annotate(split(BaseDocs(documents)).value)
  {
    if !splitterReady then []
    else
      match split(BaseDocs(documents))
      case None => []
      case Some(chunks) => Annotate(chunks)
  }

  /** The collaborators of `enhance_chunks_with_ai_metadata`: the language
      model chain (its output, or the text of what it raised), `json.loads`
      (`None` when it raises), `str()` of a nested value and `json.dumps`
      (`None` when it raises). */
  datatype Oracles = Oracles(chain: string -> Result<string, string>,
                             loads: string -> Option<Metadata>,
                             repr: Value -> string,
                             dumps: Metadata -> Option<string>)

  /** The sanitised generated metadata of one chunk; `None` when sanitising
      raises. */
  function AiMetadata(chunk: Doc, o: Oracles): Option<Metadata> {
    Sanitize(GenerateMetadata(o.chain(chunk.pageContent), o.loads), o.repr, o.dumps)
  }

  /** One chunk with its generated metadata merged over its own. */
  function EnhanceOne(chunk: Doc, o: Oracles): (r: Option<Doc>)
    ensures r.None? <==> AiMetadata(chunk, o).None?
    ensures r.Some? ==> r.value.pageContent == chunk.pageContent
    ensures r.Some? ==> r.value.metadata.Keys == chunk.metadata.Keys + AiMetadata(chunk, o).value.Keys
    ensures r.Some? ==> forall k :: k in AiMetadata(chunk, o).value ==> r.value.metadata[k] == AiMetadata(chunk, o).value[k]
    ensures r.Some? ==> forall k :: k in chunk.metadata && k !in AiMetadata(chunk, o).value ==>
                          r.value.metadata[k] == chunk.metadata[k]
  {
    match AiMetadata(chunk, o)
    case None => None
    case Some(ai) => Some(Doc(chunk.pageContent, Merge(chunk.metadata, ai)))
  }

  /** All the values when every entry is present, `None` as soon as one is
      missing: a loop that stops at the first exception. */
  function AllPresent<T>(xs: seq<Option<T>>): (r: Option<seq<T>>)
    ensures r.Some? ==> |r.value| == |xs|
    ensures r.Some? ==> forall k :: 0 <= k < |xs| ==> xs[k] == Some(r.value[k])
    ensures r.None? <==> (exists k :: 0 <= k < |xs| && xs[k].None?)
  {
    if |xs| == 0 then Some([])
    else
      var rest := AllPresent(xs[1..]);
      if xs[0].None? then None
      else if rest.None? then
        var k :| 0 <= k < |xs[1..]| && xs[1..][k].None?;
        assert xs[k + 1].None?;
        None
      else
        var r := [xs[0].value] + rest.value;
        assert forall k :: 1 <= k < |xs| ==> xs[k] == xs[1..][k - 1] && r[k] == rest.value[k - 1];
        Some(r)
  }

  /** The loop of `enhance_chunks_with_ai_metadata`; `None` when some chunk's
      sanitising raises. */
  function EnhanceAll(chunks: seq<Doc>, o: Oracles): (r: Option<seq<Doc>>)
    ensures r.Some? ==> |r.value| == |chunks|
    ensures r.Some? ==> forall k :: 0 <= k < |chunks| ==> Some(r.value[k]) == EnhanceOne(chunks[k], o)
    ensures r.None? <==> (exists k :: 0 <= k < |chunks| && EnhanceOne(chunks[k], o).None?)
  {
    var each := seq(|chunks|, k requires 0 <= k < |chunks| => EnhanceOne(chunks[k], o));
    AllPresent(each)
  }

  /** `enhance_chunks_with_ai_metadata(chunks)`: any exception returns the
      chunks unchanged. */
  function EnhanceChunks(chunks: seq<Doc>, o: Oracles): (r: seq<Doc>)
    ensures |r| == |chunks|
    ensures forall k :: 0 <= k < |r| ==> r[k].pageContent == chunks[k].pageContent
    ensures forall k :: 0 <= k < |r| ==> chunks[k].metadata.Keys <= r[k].metadata.Keys
    ensures (exists k :: 0 <= k < |chunks| && EnhanceOne(chunks[k], o).None?) ==> r == chunks
    ensures (forall k :: 0 <= k < |chunks| ==> EnhanceOne(chunks[k], o).Some?) ==>
              forall k :: 0 <= k < |chunks| ==> Some(r[k]) == EnhanceOne(chunks[k], o)
  {
    match EnhanceAll(chunks, o)
    case None => chunks
    case Some(docs) => docs
  }

  /** When the chain fails for every chunk, each chunk gets the default
      record merged over its own metadata, so the default `source` replaces
      the chunk's own `source`. */
  lemma ChainFailureOverridesSource(chunks: seq<Doc>, o: Oracles)
    requires forall k :: 0 <= k < |chunks| ==> o.chain(chunks[k].pageContent).Err?
    ensures var r := EnhanceChunks(chunks, o);
      forall k :: 0 <= k < |r| ==>
        && r[k].metadata == chunks[k].metadata + DefaultMetadata
        && "source" in r[k].metadata && r[k].metadata["source"] == Str("unknown")
        && "sentiment" in r[k].metadata && r[k].metadata["sentiment"] == Str("neutral")
        && forall key :: key in chunks[k].metadata && key !in DefaultMetadata ==>
             r[k].metadata[key] == chunks[k].metadata[key]
  {
    forall k | 0 <= k < |chunks|
      ensures EnhanceOne(chunks[k], o) == Some(Doc(chunks[k].pageContent, chunks[k].metadata + DefaultMetadata))
    {
      ChainFailureGivesDefault(chunks[k], o);
    }
    DefaultEntries();
  }

  lemma DefaultEntries()
    ensures "source" in DefaultMetadata && DefaultMetadata["source"] == Str("unknown")
    ensures "sentiment" in DefaultMetadata && DefaultMetadata["sentiment"] == Str("neutral")
  {
  }

  /** A failing chain gives the default record for that chunk. */
  lemma ChainFailureGivesDefault(chunk: Doc, o: Oracles)
    requires o.chain(chunk.pageContent).Err?
    ensures AiMetadata(chunk, o) == Some(DefaultMetadata)
  {
    DefaultMetadataIsClean(o.repr, o.dumps);
  }
}
