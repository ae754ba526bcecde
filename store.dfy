/** `VectorStore` of rag/vector_store.py: two parallel collections, the
    stored documents and the rows of a NumPy embedding matrix, appended to
    by `add_documents` and ranked against a query by `search`.

    The matrix is modelled by its shape, as NumPy builds it: `np.array`
    of an empty batch is a one-dimensional array of length zero (`Flat`),
    of a rectangular batch a matrix (`Grid`), and of a ragged batch an
    error; `np.vstack` first lifts a `Flat` array to one row of width zero
    and then insists on equal widths. The cosine similarity is an abstract
    score function. */
module Store {
  import opened Wrappers
  import opened Text
  import opened Ranking

  type Vector = seq<real>

  /** The similarity of a stored row to the query (cosine similarity in
      the source, after normalising both). */
  type Similarity = (Vector, Vector) -> real

  /** The shape of a NumPy array built from a batch of embeddings. */
  datatype Array =
    | Flat                                  // shape (0,): `np.array([])`
    | Grid(width: nat, rows: seq<Vector>)   // shape (len(rows), width)

  /** Every row has `width` entries. */
  predicate Rectangular(rows: seq<Vector>, width: nat) {
    forall i :: 0 <= i < |rows| ==> |rows[i]| == width
  }

  /** `np.array(batch)`: `None` stands for the `ValueError` NumPy raises on
      an inhomogeneous (ragged) batch. */
  function FromList(batch: seq<Vector>): (a: Option<Array>)
    ensures a == Some(Flat) <==> batch == []
    ensures a.None? <==> exists i, j :: 0 <= i < |batch| && 0 <= j < |batch| && |batch[i]| != |batch[j]|
    ensures a.Some? && a.value.Grid? ==> a.value.rows == batch && Rectangular(batch, a.value.width)
  {
    if batch == [] then Some(Flat)
    else if Rectangular(batch, |batch[0]|) then Some(Grid(|batch[0]|, batch))
    else None
  }

  /** `np.atleast_2d`: a flat array becomes one row of width zero. */
  function AtLeast2D(a: Array): (g: Array)
    ensures g.Grid?
    ensures a.Flat? ==> g == Grid(0, [[]])
    ensures a.Grid? ==> g == a
  {
    match a
    case Flat => Grid(0, [[]])
    case Grid(_, _) => a
  }

  /** `np.vstack([top, bottom])`: `None` stands for the `ValueError` raised
      when the widths differ. */
  function VStack(top: Array, bottom: Array): (s: Option<Array>)
    ensures s.Some? <==> AtLeast2D(top).width == AtLeast2D(bottom).width
    ensures s.Some? ==> s.value.Grid? && s.value.rows == AtLeast2D(top).rows + AtLeast2D(bottom).rows
  {
    var t, b := AtLeast2D(top), AtLeast2D(bottom);
    if t.width == b.width then Some(Grid(t.width, t.rows + b.rows)) else None
  }

  /** The matrix `add_documents` leaves behind, or `None` when it raises:
      the first batch is stored as built, later ones are stacked below. */
  function Stacked(current: Option<Array>, batch: seq<Vector>): (r: Option<Array>)
    ensures FromList(batch).None? ==> r.None?
    ensures current.None? ==> r == FromList(batch)
    ensures current.Some? && FromList(batch).Some? ==>
      (r.Some? <==> AtLeast2D(current.value).width == AtLeast2D(FromList(batch).value).width)
    ensures current.Some? && r.Some? ==>
      r.value.Grid? && r.value.rows == AtLeast2D(current.value).rows + AtLeast2D(FromList(batch).value).rows
  {
    match FromList(batch)
    case None => None
    case Some(built) =>
      if current.None? then Some(built) else VStack(current.value, built)
  }

  /** The embedding rows held, in order. */
  function Rows(e: Option<Array>): seq<Vector> {
    if e.Some? && e.value.Grid? then e.value.rows else []
  }

  /** Documents and embeddings correspond: row `i` is the embedding of
      `documents[i]`, and no document lacks one. */
  predicate InStep(documents: seq<String>, embeddings: Option<Array>) {
    match embeddings
    case None => documents == []
    case Some(Flat) => documents == []
    case Some(Grid(w, rows)) => Rectangular(rows, w) && |rows| == |documents|
  }

  /** The similarity of every stored row to the query. */
  function Scores(rows: seq<Vector>, query: Vector, score: Similarity): (s: seq<real>)
    ensures |s| == |rows|
    ensures forall i :: 0 <= i < |rows| ==> s[i] == score(rows[i], query)
  {
    seq(|rows|, i requires 0 <= i < |rows| => score(rows[i], query))
  }

  /** `[documents[i] for i in idx]`. */
  function Pick(documents: seq<String>, idx: seq<nat>): (r: seq<String>)
    requires InRange(idx, |documents|)
    ensures |r| == |idx|
    ensures forall t :: 0 <= t < |idx| ==> r[t] == documents[idx[t]]
  {
    seq(|idx|, t requires 0 <= t < |idx| => documents[idx[t]])
  }

  class VectorStore {
    var documents: seq<String>
    var embeddings: Option<Array>

    /** `VectorStore()`: no documents and no matrix yet. */
    constructor ()
      ensures documents == [] && embeddings == None
      ensures InStep(documents, embeddings)
    {
      documents := [];
      embeddings := None;
    }

    /** `add_documents(docs, batch)`. The documents are appended first, so
        they stay appended even when building or stacking the matrix raises
        (`ok` false), in which case the matrix is left as it was. */
    method AddDocuments(docs: seq<String>, batch: seq<Vector>) returns (ok: bool)
      modifies this
      ensures documents == old(documents) + docs
      ensures ok <==> Stacked(old(embeddings), batch).Some?
      ensures embeddings == if ok then Stacked(old(embeddings), batch) else old(embeddings)
    {
      documents := documents + docs;
      var stacked := Stacked(embeddings, batch);
      if stacked.Some? {
        embeddings := stacked;
        ok := true;
      } else {
        ok := false;
      }
    }

    /** The query width the matrix accepts in `embeddings_norm @ query_norm`. */
    predicate Fits(query: Vector)
      reads this
      ensures (&& embeddings.Some? && embeddings.value.Grid? && embeddings.value.rows != []
               && Rectangular(embeddings.value.rows, embeddings.value.width)) ==>
        (Fits(query) <==> |query| == |embeddings.value.rows[0]|)
    {
      embeddings.Some? && embeddings.value.Grid? ==> |query| == embeddings.value.width
    }

    /** `search(query, top_k)`: the documents of the `top_k` best-scoring
        rows, best first. `None` stands for an exception: a flat matrix has
        no axis 1 to normalise over, a query of the wrong width cannot be
        multiplied, and a row without a document is an index error. */
    function Search(query: Vector, topK: int, score: Similarity): (r: Option<seq<String>>)
      reads this
      ensures embeddings.None? || documents == [] ==> r == Some([])
      ensures documents != [] && embeddings.Some? && (embeddings.value.Flat? || !Fits(query)) ==> r.None?
      ensures r.Some? && r.value != [] ==>
        && embeddings.Some? && embeddings.value.Grid?
        && exists idx :: IsTopSelection(Scores(embeddings.value.rows, query, score), topK, idx)
             && InRange(idx, |documents|) && r.value == Pick(documents, idx)
      ensures InStep(documents, embeddings) && Fits(query) ==>
        r.Some? && |r.value| == SliceLength(|documents|, topK)
    {
      if embeddings.None? || documents == [] then Some([])
      else
        match embeddings.value
        case Flat => None
        case Grid(w, rows) =>
          if |query| != w then None
          else
            var scores := Scores(rows, query, score);
            var idx := TopIndices(scores, topK);
            TopIndicesSelect(scores, topK);
            if InRange(idx, |documents|) then Some(Pick(documents, idx)) else None
    }
  }

  /** A successful add on a store in step keeps it in step exactly when no
      phantom row of width zero is stacked: that happens when the store
      holds the flat array of an empty first batch, or when the batch
      itself is empty. */
  lemma AddKeepsStep(documents: seq<String>, current: Option<Array>, docs: seq<String>, batch: seq<Vector>)
    requires InStep(documents, current) && |docs| == |batch|
    requires Stacked(current, batch).Some?
    ensures InStep(documents + docs, Stacked(current, batch)) <==>
      !(current == Some(Flat) || (current.Some? && batch == []))
  {
    var next := Stacked(current, batch).value;
    if current.Some? && current.value.Grid? && batch != [] {
      var w := current.value.width;
      assert Rectangular(next.rows, w) by {
        forall i | 0 <= i < |next.rows| ensures |next.rows[i]| == w {
          if i >= |current.value.rows| {
            assert next.rows[i] == batch[i - |current.value.rows|];
          }
        }
      }
    }
  }

  /** A successful add appends the batch's rows below the rows already
      held, leaving them unchanged, whenever the batch is not empty and the
      store does not hold the flat array of an empty first batch. */
  lemma AddAppendsRows(current: Option<Array>, batch: seq<Vector>)
    requires Stacked(current, batch).Some?
    requires batch != [] && current != Some(Flat)
    ensures Rows(Stacked(current, batch)) == Rows(current) + batch
  {
  }

  /** A failed add that carries documents leaves the store out of step:
      the documents were appended, the rows were not. */
  lemma FailedAddDesyncs(documents: seq<String>, current: Option<Array>, docs: seq<String>, batch: seq<Vector>)
    requires InStep(documents, current) && docs != []
    requires Stacked(current, batch).None?
    ensures !InStep(documents + docs, current)
  {
  }

  /** Stacking raises when the new rows have another width than the
      stored ones, including an empty batch on a store of non-zero width. */
  lemma WidthMismatchRaises(w: nat, rows: seq<Vector>, batch: seq<Vector>)
    requires batch == [] ==> w != 0
    requires batch != [] ==> Rectangular(batch, |batch[0]|) && |batch[0]| != w
    ensures Stacked(Some(Grid(w, rows)), batch) == None
  {
  }

  /** After an empty first batch (`np.array([])`, a flat array) only rows
      of width zero can ever be stacked: a batch of real embeddings raises. */
  lemma FlatStoreRejectsEmbeddings(batch: seq<Vector>)
    requires batch != [] && Rectangular(batch, |batch[0]|) && |batch[0]| > 0
    ensures Stacked(Some(Flat), batch) == None
  {
  }

  /** Two empty adds leave two phantom rows of width zero behind no
      document. */
  lemma EmptyAddsLeavePhantomRows()
    ensures Stacked(Stacked(None, []), []) == Some(Grid(0, [[], []]))
    ensures !InStep([], Stacked(Stacked(None, []), []))
  {
    var phantom: seq<Vector> := [[]];
    assert Stacked(None, []) == Some(Flat);
    assert phantom + phantom == [[], []];
  }

  /** On a store in step whose matrix accepts the query, `search` with a
      positive slice finds something: every result is a stored document,
      and the first is the document of a best-scoring row. */
  lemma SearchSelects(store: VectorStore, query: Vector, topK: int, score: Similarity)
    requires InStep(store.documents, store.embeddings) && store.Fits(query)
    requires store.documents != [] && SliceLength(|store.documents|, topK) > 0
    ensures var r := store.Search(query, topK, score);
      && r.Some? && r.value != []
      && (forall t :: 0 <= t < |r.value| ==> r.value[t] in store.documents)
      && exists i :: 0 <= i < |store.documents| && r.value[0] == store.documents[i]
           && forall j :: 0 <= j < |store.documents| ==>
                score(Rows(store.embeddings)[j], query) <= score(Rows(store.embeddings)[i], query)
  {
    var r := store.Search(query, topK, score).value;
    var rows := store.embeddings.value.rows;
    var scores := Scores(rows, query, score);
    var idx :| IsTopSelection(scores, topK, idx) && InRange(idx, |store.documents|) && r == Pick(store.documents, idx);
    TopIsMaximum(scores, topK, idx);
    assert r[0] == store.documents[idx[0]];
  }

  /** Querying with a stored embedding whose row scores strictly above
      every other row (cosine similarity of a non-zero vector with itself)
      returns that row's document first. */
  lemma SelfMatchRanksFirst(store: VectorStore, j: nat, topK: int, score: Similarity)
    requires InStep(store.documents, store.embeddings)
    requires j < |Rows(store.embeddings)| && store.Fits(Rows(store.embeddings)[j])
    requires topK >= 1
    requires var rows := Rows(store.embeddings);
      forall i :: 0 <= i < |rows| && i != j ==> score(rows[i], rows[j]) < score(rows[j], rows[j])
    ensures var r := store.Search(Rows(store.embeddings)[j], topK, score);
      r.Some? && r.value != [] && r.value[0] == store.documents[j]
  {
    var rows := Rows(store.embeddings);
    var query := rows[j];
    var r := store.Search(query, topK, score).value;
    var scores := Scores(rows, query, score);
    var idx :| IsTopSelection(scores, topK, idx) && InRange(idx, |store.documents|) && r == Pick(store.documents, idx);
    TopIsMaximum(scores, topK, idx);
    assert idx[0] == j;
  }
}
