/** The `retrieve` tool of rag/agent.py: search the store with the query's
    embedding and format what comes back for the language model. The
    embedding call is outside the model; the query vector is a parameter. */
module RetrievalTool {
  import opened Wrappers
  import opened Text
  import opened Chunker
  import opened Ranking
  import opened Store

  /** What the tool answers when the search finds nothing. */
  const NoContext: String := "No relevant context found."

  /** What precedes the retrieved context otherwise. */
  const ContextHeader: String := "Retrieved context:\n\n"

  /** What stands between two retrieved documents. */
  const ResultSeparator: String := "\n\n---\n\n"

  /** `settings.top_k`, unless the environment overrides it. */
  const DefaultTopK: int := 5

  /** The tool's answer for the list `search` returned. */
  function FormatResults(results: seq<String>): (out: String)
    ensures out == NoContext <==> results == []
    ensures results != [] ==> |ContextHeader| <= |out| && out[..|ContextHeader|] == ContextHeader
  {
    if results == [] then NoContext
    else
      var out := ContextHeader + Join(results, ResultSeparator);
      assert out[0] != NoContext[0];
      out
  }

  /** Reads the list of documents back from an answer of the tool; `None`
      for text the tool cannot have produced. */
  function ParseContext(out: String): (r: Option<seq<String>>)
    ensures r == Some([]) <==> out == NoContext
  {
    if out == NoContext then Some([])
    else if |ContextHeader| <= |out| && out[..|ContextHeader|] == ContextHeader then
      Some(Split(out[|ContextHeader|..], ResultSeparator))
    else None
  }

  /** Text without a paragraph break cannot run into the result separator:
      the separator opens with a paragraph break, and its third character
      is not a newline. */
  lemma NoBreakOverlapFree(p: String)
    requires !Contains(p, ParagraphBreak)
    ensures OverlapFree(p, ResultSeparator)
  {
    var s := p + ResultSeparator;
    forall k | 0 <= k < |p| ensures !SepStartsAt(p, ResultSeparator, k) {
      if k + 1 < |p| {
        assert !OccursAt(p, ParagraphBreak, k);
        assert p[k..k + 2] == [p[k], p[k + 1]];
        assert s[k] == p[k] && s[k + 1] == p[k + 1];
        assert s[k] != '\n' || s[k + 1] != '\n';
      } else {
        assert s[k + 2] == ResultSeparator[1];
      }
      assert k + |ResultSeparator| <= |s| ==> s[k..k + |ResultSeparator|][..3] == s[k..k + 3];
    }
  }

  /** Parsing the answer gives back the results, in order, when no result
      runs into the separator that follows it. */
  lemma FormatRoundTrip(results: seq<String>)
    requires forall j :: 0 <= j < |results| ==> OverlapFree(results[j], ResultSeparator)
    ensures ParseContext(FormatResults(results)) == Some(results)
  {
    if results != [] {
      var out := FormatResults(results);
      assert out[|ContextHeader|..] == Join(results, ResultSeparator);
      JoinSplit(results, ResultSeparator);
    }
  }

  /** Chunks hold no paragraph break, so an answer made of chunks always
      parses back to those chunks. */
  lemma ChunksRoundTrip(results: seq<String>)
    requires forall j :: 0 <= j < |results| ==> IsChunk(results[j])
    ensures ParseContext(FormatResults(results)) == Some(results)
  {
    forall j | 0 <= j < |results| ensures OverlapFree(results[j], ResultSeparator) {
      NoBreakOverlapFree(results[j]);
    }
    FormatRoundTrip(results);
  }

  /** The context after the header holds one separator fewer than there are
      results. */
  lemma SeparatorCount(results: seq<String>)
    requires results != []
    requires forall j :: 0 <= j < |results| ==> OverlapFree(results[j], ResultSeparator)
    ensures Count(FormatResults(results)[|ContextHeader|..], ResultSeparator) == |results| - 1
  {
    var body := FormatResults(results)[|ContextHeader|..];
    assert body == Join(results, ResultSeparator);
    JoinSplit(results, ResultSeparator);
    SplitLength(body, ResultSeparator);
  }

  /** A single result is the header followed by that result. */
  lemma SingleResult(r: String)
    ensures FormatResults([r]) == ContextHeader + r
  {
  }

  /** Results that merely do not contain the separator are not enough for
      the round trip: a result ending in a paragraph break and three dashes
      runs into the separator after it. */
  lemma SeparatorFreeNotEnough()
    ensures var results := ["A\n\n---", "B"];
      && (forall j :: 0 <= j < |results| ==> !Contains(results[j], ResultSeparator))
      && ParseContext(FormatResults(results)) != Some(results)
  {
    var results := ["A\n\n---", "B"];
    var body := Join(results, ResultSeparator);
    assert body == "A\n\n---\n\n---\n\nB";
    assert OccursAt(body, ResultSeparator, 1) by {
      assert body[1..8] == ResultSeparator;
    }
    assert !OccursAt(body, ResultSeparator, 0) by {
      assert body[0..7][0] == 'A';
    }
    FindIs(body, ResultSeparator, 1);
    var out := FormatResults(results);
    assert out[|ContextHeader|..] == body;
    assert Split(body, ResultSeparator)[0] == "A";
  }

  /** Nor are they enough for the separator count: each of two results
      can supply half of a separator next to the real one, so the context
      holds two separators for two results. */
  lemma SeparatorFreeMiscounts()
    ensures var results := ["\n\n---", "---\n\n"];
      && (forall j :: 0 <= j < |results| ==> !Contains(results[j], ResultSeparator))
      && Count(FormatResults(results)[|ContextHeader|..], ResultSeparator) == 2
  {
    var results := ["\n\n---", "---\n\n"];
    var body := Join(results, ResultSeparator);
    assert body == "\n\n---\n\n---\n\n---\n\n";
    assert OccursAt(body, ResultSeparator, 0) by {
      assert body[0..7] == ResultSeparator;
    }
    FindIs(body, ResultSeparator, 0);
    var rest := body[7..];
    assert rest == "---\n\n---\n\n";
    assert OccursAt(rest, ResultSeparator, 3) by {
      assert rest[3..10] == ResultSeparator;
    }
    forall k | 0 <= k < 3 ensures !OccursAt(rest, ResultSeparator, k) {
      assert rest[k] == '-';
      assert k + 7 <= |rest| ==> rest[k..k + 7][0] == rest[k];
    }
    FindIs(rest, ResultSeparator, 3);
    assert rest[10..] == [];
    assert Count([], ResultSeparator) == 0;
    assert Count(rest, ResultSeparator) == 1;
    var out := FormatResults(results);
    assert out[|ContextHeader|..] == body;
  }

  /** `retrieve(query)` with the query's embedding given: `None` when
      `search` raises. */
  function Retrieve(store: VectorStore, query: Vector, score: Similarity): (r: Option<String>)
    reads store
    ensures r.Some? <==> store.Search(query, DefaultTopK, score).Some?
    ensures store.documents == [] ==> r == Some(NoContext)
  {
    match store.Search(query, DefaultTopK, score)
    case None => None
    case Some(results) => Some(FormatResults(results))
  }

  /** End to end: on a store in step that holds chunks, the tool's answer
      parses back to at most `top_k` stored chunks — exactly
      `min(top_k, len(documents))` of them — in the order `search` ranked
      them. */
  lemma RetrieveChunks(store: VectorStore, query: Vector, score: Similarity)
    requires InStep(store.documents, store.embeddings) && store.Fits(query)
    requires forall j :: 0 <= j < |store.documents| ==> IsChunk(store.documents[j])
    ensures var r := Retrieve(store, query, score);
      && r.Some?
      && var parsed := ParseContext(r.value);
      && parsed == store.Search(query, DefaultTopK, score)
      && parsed.Some?
      && |parsed.value| == SliceLength(|store.documents|, DefaultTopK) <= DefaultTopK
      && forall t :: 0 <= t < |parsed.value| ==> parsed.value[t] in store.documents
  {
    var results := store.Search(query, DefaultTopK, score).value;
    if results != [] {
      var rows := store.embeddings.value.rows;
      var idx :| IsTopSelection(Scores(rows, query, score), DefaultTopK, idx)
        && InRange(idx, |store.documents|) && results == Pick(store.documents, idx);
      assert forall t :: 0 <= t < |results| ==> results[t] == store.documents[idx[t]];
    }
    ChunksRoundTrip(results);
  }
}
