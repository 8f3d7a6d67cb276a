/**
 * `FAISSVectorStore`: an append-only list of chunk texts kept beside a
 * flat L2 index of their embeddings. The index is created on the first
 * `add_documents`, with the dimension of that first batch.
 *
 * The embedding model is a parameter of the store (`embed`, one vector per
 * text, all of one length), and the nearest-neighbour search of the index
 * is a parameter of `Search` (`knn`, the ids FAISS returns for the stored
 * rows, a query vector and `k`); `FlatL2.Search` is the exhaustive scan
 * that `IndexFlatL2` performs.
 */
module VectorStore {
  import opened Wrappers
  import Py
  import Chunking
  import FlatL2

  /** An embedding. The source's vectors are float32 arrays. */
  type Vector = FlatL2.Vector

  /** The FAISS `IndexFlatL2` object: its dimension `d` and the rows added to it, in order. */
  datatype FlatIndex = FlatIndex(dim: nat, rows: seq<Vector>)

  /** `add_documents` on a batch with no chunks raises inside numpy/FAISS before anything is stored. */
  datatype AddError = EmptyBatch

  /** The chunks of one text under `chunk_text`'s default parameters. */
  function DefaultChunks(text: string): seq<string>
  {
    Chunking.Chunks(text, Chunking.ChunkSize, Chunking.Overlap).value
  }

  /** `chunked_texts` after the loop of `add_documents`: the chunks of each text, in input order. */
  function ChunkAll(texts: seq<string>): seq<string>
  {
    if texts == [] then [] else ChunkAll(texts[..|texts| - 1]) + DefaultChunks(texts[|texts| - 1])
  }

  lemma ChunkAllStep(texts: seq<string>, j: int)
    requires 0 <= j < |texts|
    ensures ChunkAll(texts[..j + 1]) == ChunkAll(texts[..j]) + DefaultChunks(texts[j])
  {
    assert texts[..j + 1][..j] == texts[..j];
  }

  /** The loop of `add_documents` that gathers `chunked_texts`, extending it with the chunks of each text. */
  method ChunkTexts(texts: seq<string>) returns (chunked: seq<string>)
    ensures chunked == ChunkAll(texts)
  {
    chunked := [];
    var j := 0;
    while j < |texts|
      invariant 0 <= j <= |texts|
      invariant chunked == ChunkAll(texts[..j])
    {
      var c := Chunking.ChunkText(texts[j], Chunking.ChunkSize, Chunking.Overlap);
      ChunkAllStep(texts, j);
      chunked := chunked + c.value;
      j := j + 1;
    }
    assert texts[..|texts|] == texts;
  }

  /** The ids that pass the filter `i < len(documents)`, in the order the index returned them. */
  function Kept(ids: seq<int>, n: int): seq<int>
  {
    if ids == [] then [] else (if ids[0] < n then [ids[0]] else []) + Kept(ids[1..], n)
  }

  /**
   * `[documents[i] for i in ids if i < len(documents)]`, evaluated left to
   * right; `None` when a kept id is below `-len(documents)` and indexing
   * raises `IndexError`.
   */
  function Hits(documents: seq<string>, ids: seq<int>): Option<seq<string>>
  {
    if ids == [] then Some([])
    else if ids[0] >= |documents| then Hits(documents, ids[1..])
    else match Py.Index(documents, ids[0])
      case None => None
      case Some(d) =>
        match Hits(documents, ids[1..])
        case None => None
        case Some(rest) => Some([d] + rest)
  }

  /**
   * What `IndexFlatL2.search` returns for `k` neighbours over `n` rows:
   * `k` ids, the first `min(k, n)` of them row numbers and the rest the
   * padding value `-1`.
   */
  ghost predicate FaissShaped(n: nat, k: nat, ids: seq<int>)
  {
    |ids| == k && forall j :: 0 <= j < k ==> if j < n then 0 <= ids[j] < n else ids[j] == -1
  }

  // ---------------------------------------------------------------------
  // Properties of the filter and the lookup (line 48)
  // ---------------------------------------------------------------------

  /** The filter keeps exactly the ids below `n`, and keeps them all when every id is below `n`. */
  lemma {:induction false} KeptFilters(ids: seq<int>, n: int)
    ensures forall x :: x in Kept(ids, n) <==> x in ids && x < n
    ensures |Kept(ids, n)| <= |ids|
    ensures (forall j :: 0 <= j < |ids| ==> ids[j] < n) ==> Kept(ids, n) == ids
  {
    if ids != [] {
      KeptFilters(ids[1..], n);
      assert ids == [ids[0]] + ids[1..];
    }
  }

  /**
   * The lookup succeeds exactly when no id is below `-len(documents)`; it
   * then yields one stored document per kept id, in order, a negative id
   * counting from the end of the list.
   */
  lemma {:induction false} HitsShape(documents: seq<string>, ids: seq<int>)
    ensures Hits(documents, ids).Some? <==> forall j :: 0 <= j < |ids| ==> -|documents| <= ids[j]
    ensures Hits(documents, ids).Some? ==>
              var hits, kept := Hits(documents, ids).value, Kept(ids, |documents|);
              |hits| == |kept| &&
              forall t :: 0 <= t < |hits| ==> Py.Index(documents, kept[t]) == Some(hits[t]) && hits[t] in documents
  {
    if ids != [] {
      HitsShape(documents, ids[1..]);
      if ids[0] < |documents| && Py.Index(documents, ids[0]).Some? && Hits(documents, ids[1..]).Some? {
        var hits, kept := Hits(documents, ids).value, Kept(ids, |documents|);
        assert kept == [ids[0]] + Kept(ids[1..], |documents|);
        assert hits == [Py.Index(documents, ids[0]).value] + Hits(documents, ids[1..]).value;
      }
      if forall j :: 0 <= j < |ids| ==> -|documents| <= ids[j] {
        assert forall j :: 0 <= j < |ids| - 1 ==> -|documents| <= ids[1..][j] by {
          forall j | 0 <= j < |ids| - 1 ensures -|documents| <= ids[1..][j] {
            assert ids[1..][j] == ids[j + 1];
          }
        }
      } else {
        var j :| 0 <= j < |ids| && ids[j] < -|documents|;
        if j > 0 {
          assert ids[1..][j - 1] == ids[j];
        }
      }
    }
  }

  /** Ids shaped as FAISS returns them all pass the filter. */
  lemma FaissIdsAllKept(n: nat, k: nat, ids: seq<int>)
    requires FaissShaped(n, k, ids)
    ensures Kept(ids, n) == ids
  {
    KeptFilters(ids, n);
  }

  /**
   * On a non-empty store the padding id `-1` reads as `documents[-1]`:
   * a store with fewer than `k` chunks returns `k` hits, the stored
   * chunks the index chose followed by the last chunk repeated.
   */
  lemma PaddingRepeatsLast(documents: seq<string>, k: nat, ids: seq<int>)
    requires documents != [] && FaissShaped(|documents|, k, ids)
    ensures Hits(documents, ids).Some?
    ensures var hits := Hits(documents, ids).value;
            |hits| == k &&
            (forall j :: 0 <= j < k && j < |documents| ==> hits[j] == documents[ids[j]]) &&
            (forall j :: |documents| <= j < k ==> hits[j] == documents[|documents| - 1])
  {
    FaissIdsAllKept(|documents|, k, ids);
    HitsShape(documents, ids);
  }

  /** The exhaustive L2 scan returns ids of the shape the store relies on. */
  lemma FlatScanShaped(rows: seq<Vector>, q: Vector, k: nat)
    ensures FaissShaped(|rows|, k, FlatL2.Search(rows, q, k))
  {
  }

  // ---------------------------------------------------------------------
  // The store
  // ---------------------------------------------------------------------

  class FaissVectorStore {
    /** The embedding model: one vector of length `dim` per text. */
    const embed: string -> Vector
    const dim: nat
    /** `None` until the first batch is added. */
    var index: Option<FlatIndex>
    /** The stored chunk texts; row `i` of the index is the embedding of `documents[i]`. */
    var documents: seq<string>

    ghost predicate Valid()
      reads this
    {
      (forall t :: |embed(t)| == dim) &&
      (index.Some? <==> documents != []) &&
      (index.Some? ==>
         index.value.dim == dim && |index.value.rows| == |documents| &&
         forall i :: 0 <= i < |documents| ==> index.value.rows[i] == embed(documents[i]))
    }

    /** `embed_documents(texts)`: one embedding per text, in order. */
    function EmbedAll(texts: seq<string>): (vs: seq<Vector>)
      ensures |vs| == |texts|
      ensures forall i :: 0 <= i < |texts| ==> vs[i] == embed(texts[i])
    {
      seq(|texts|, i requires 0 <= i < |texts| => embed(texts[i]))
    }

    /** `FAISSVectorStore()`: no index yet and no documents. */
    constructor (embed: string -> Vector, dim: nat)
      requires forall t :: |embed(t)| == dim
      ensures Valid() && index == None && documents == []
      ensures this.embed == embed && this.dim == dim
    {
      this.embed := embed;
      this.dim := dim;
      index := None;
      documents := [];
    }

    /**
     * `add_documents(texts)`: chunks every text, embeds the chunks, creates
     * the index on first use with the batch's dimension, adds the rows and
     * appends the chunks to `documents`.
     */
    method AddDocuments(texts: seq<string>) returns (r: Result<(), AddError>)
      requires Valid()
      modifies this
      ensures Valid()
      ensures r.Failure? <==> ChunkAll(texts) == []
      ensures r.Failure? ==> documents == old(documents) && index == old(index)
      ensures r.Success? ==> documents == old(documents) + ChunkAll(texts)
      ensures r.Success? ==>
                index.Some? &&
                index.value.rows == (if old(index).Some? then old(index).value.rows else []) + EmbedAll(ChunkAll(texts))
      ensures old(index).Some? ==> index.Some? && index.value.dim == old(index).value.dim
      ensures old(index).None? && r.Success? ==> index.value.dim == |embed(ChunkAll(texts)[0])|
    {
      var chunked := ChunkTexts(texts);
      var vectors := EmbedAll(chunked);
      if chunked == [] {
        return Failure(EmptyBatch);
      }
      if index.None? {
        index := Some(FlatIndex(|vectors[0]|, []));
      }
      index := Some(FlatIndex(index.value.dim, index.value.rows + vectors));
      documents := documents + chunked;
      return Success(());
    }

    /**
     * What `search(query, k)` returns: no hits on an empty store; otherwise
     * the stored documents for the ids the index returns for the query's
     * embedding, dropping ids at or past the end of `documents`.
     */
    function Retrieve(query: string, k: int, knn: (seq<Vector>, Vector, int) -> seq<int>): (hits: Option<seq<string>>)
      reads this
      requires Valid()
      ensures documents == [] ==> hits == Some([])
      ensures hits.Some? ==> forall j :: 0 <= j < |hits.value| ==> hits.value[j] in documents
    {
      if documents == [] then Some([])
      else
        var ids := knn(index.value.rows, embed(query), k);
        HitsShape(documents, ids);
        Hits(documents, ids)
    }

    /** `search(query, k)`: returns before embedding anything when the store is empty. */
    method Search(query: string, k: int, knn: (seq<Vector>, Vector, int) -> seq<int>) returns (hits: Option<seq<string>>)
      requires Valid()
      ensures hits == Retrieve(query, k, knn)
    {
      if documents == [] {
        return Some([]);
      }
      var queryVector := embed(query);
      var ids := knn(index.value.rows, queryVector, k);
      hits := Hits(documents, ids);
    }

    /**
     * `search(query, k)` over the exhaustive L2 scan on a non-empty store
     * of `n` chunks: `k` hits, of which the first `min(k, n)` are the
     * chunks of distinct rows, nearest to the query first, with no chunk
     * left out nearer than one returned; the rest repeat the last chunk.
     */
    lemma FlatSearchHits(query: string, k: nat)
      requires Valid() && documents != []
      ensures var hits, n := Retrieve(query, k, FlatL2.Search), |documents|;
              var rows, q := index.value.rows, embed(query);
              var ids, m := FlatL2.Search(rows, q, k), FlatL2.Picked(k, n);
              hits.Some? && |hits.value| == k && |ids| == k &&
              (forall j :: 0 <= j < m ==> 0 <= ids[j] < n && hits.value[j] == documents[ids[j]]) &&
              (forall j :: m <= j < k ==> hits.value[j] == documents[n - 1]) &&
              (forall i, j :: 0 <= i < j < m ==> ids[i] != ids[j]) &&
              (forall i, j :: 0 <= i < j < m ==> FlatL2.SqDist(rows[ids[i]], q) <= FlatL2.SqDist(rows[ids[j]], q)) &&
              (forall i, j :: 0 <= i < n && i !in ids[..m] && 0 <= j < m ==> FlatL2.SqDist(rows[ids[j]], q) <= FlatL2.SqDist(rows[i], q))
    {
      var rows, q := index.value.rows, embed(query);
      FlatScanShaped(rows, q, k);
      PaddingRepeatsLast(documents, k, FlatL2.Search(rows, q, k));
      FlatL2.SearchDistinct(rows, q, k);
      FlatL2.SearchAscending(rows, q, k);
      FlatL2.SearchNoNearer(rows, q, k);
    }
  }
}
