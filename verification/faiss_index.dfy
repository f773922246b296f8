/** The semantic index (`FaissIndex`): turning catalog rows into index-aligned
    chunks, the cluster-count rule, the build outcome, the lazy load guard and
    the mapping of ANN search ordinals back to chunk texts. The sentence
    embedding model and FAISS itself are oracles: the model sees only how many
    vectors were embedded and the `(distances, indices)` a search returns. */
module FaissIndex {
  import opened Outcome

  /** `build` indexes only the first rows of the catalog (`data.iloc[:300]`). */
  const MaxRows: nat := 300

  /** FAISS's "no candidate" ordinal. */
  const NoCandidate: int := -1

  /** One row of the preprocessed film file, as `build` reads it. */
  datatype CatalogRow = CatalogRow(title: string, titlePlot: string, titleMeta: string)

  datatype ChunkType = Meta | Plot

  /** A metadata record: which row and which of its texts an index vector came from. */
  datatype Chunk = Chunk(rowIdx: nat, chunkType: ChunkType, title: string, chunkText: string)

  /** The trained FAISS index as far as the rest of the code can observe it:
      how many vectors it holds and how many inverted lists it was built with. */
  datatype IndexHandle = IndexHandle(ntotal: nat, nlist: nat)

  /** What one `build` call ends with. */
  datatype BuildOutcome =
    | NoPreprocessedData           // the film file is absent: an error is printed, nothing is written
    | TrainingFailed               // no rows, hence no vectors and no clusters: FAISS raises
    | Built(index: IndexHandle, metadata: seq<Chunk>)

  /** The two files a build writes; either may be absent. */
  datatype Disk = Disk(index: Option<IndexHandle>, metadata: Option<seq<Chunk>>)

  /** The `index`/`metadata` fields of a `FaissIndex` instance: both unset,
      both loaded, or half loaded. `search` reads the index file before it
      opens the metadata file, so when that open raises the instance keeps
      its index while its metadata stays `None`. */
  datatype Store =
    | Unloaded
    | IndexOnly(index: IndexHandle)
    | Ready(index: IndexHandle, metadata: seq<Chunk>)

  datatype SearchError =
    | IndexAbsent                  // `ValueError`: no index file
    | MetadataFileMissing          // the index file exists but opening the metadata file fails
    | OrdinalOutOfRange(ordinal: int)  // `IndexError` from `self.metadata[idx]`
    | MetadataUnset                // `TypeError` from `self.metadata[idx]` while the metadata is `None`

  /** One search result: `{"chunk_text": ..., "similarity": dist}`. */
  datatype Hit = Hit(chunkText: string, similarity: real)

  // ---------------------------------------------------------------- chunking

  /** The rows `build` actually uses. */
  function Capped(rows: seq<CatalogRow>): (r: seq<CatalogRow>)
    ensures |r| <= MaxRows
    ensures |r| == if |rows| <= MaxRows then |rows| else MaxRows
    ensures forall i :: 0 <= i < |r| ==> r[i] == rows[i]
  {
    if |rows| <= MaxRows then rows else rows[..MaxRows]
  }

  /** Row `i` owns positions `2i` (its meta chunk) and `2i+1` (its plot chunk). */
  predicate MetadataLayout(rows: seq<CatalogRow>, metadata: seq<Chunk>) {
    && |metadata| == 2 * |rows|
    && forall i :: 0 <= i < |rows| ==>
         && metadata[2 * i] == Chunk(i, Meta, rows[i].title, rows[i].titleMeta)
         && metadata[2 * i + 1] == Chunk(i, Plot, rows[i].title, rows[i].titlePlot)
  }

  /** The embedded texts and the metadata records line up position by position. */
  predicate Aligned(texts: seq<string>, metadata: seq<Chunk>) {
    |texts| == |metadata| && forall j :: 0 <= j < |texts| ==> metadata[j].chunkText == texts[j]
  }

  /** The chunk loop of `build`: for each row, in order, the meta chunk then the plot chunk. */
  method ExtractChunks(rows: seq<CatalogRow>) returns (texts: seq<string>, metadata: seq<Chunk>)
    ensures MetadataLayout(rows, metadata)
    ensures Aligned(texts, metadata)
    ensures |texts| == 2 * |rows|
  {
    texts, metadata := [], [];
    var idx := 0;
    while idx < |rows|
      invariant 0 <= idx <= |rows|
      invariant MetadataLayout(rows[..idx], metadata)
      invariant Aligned(texts, metadata)
    {
      var row := rows[idx];
      texts := texts + [row.titleMeta];
      metadata := metadata + [Chunk(idx, Meta, row.title, row.titleMeta)];
      texts := texts + [row.titlePlot];
      metadata := metadata + [Chunk(idx, Plot, row.title, row.titlePlot)];
      idx := idx + 1;
      assert forall i :: 0 <= i < idx ==> rows[..idx][i] == rows[i];
    }
    assert rows[..idx] == rows;
  }

  /** How many records of `metadata` are of type `t`. */
  function CountType(metadata: seq<Chunk>, t: ChunkType): nat {
    if |metadata| == 0 then 0
    else CountType(metadata[..|metadata| - 1], t) + (if metadata[|metadata| - 1].chunkType == t then 1 else 0)
  }

  /** How many records of `metadata` point back to catalog row `i`. */
  function CountRow(metadata: seq<Chunk>, i: int): nat {
    if |metadata| == 0 then 0
    else CountRow(metadata[..|metadata| - 1], i) + (if metadata[|metadata| - 1].rowIdx == i then 1 else 0)
  }

  /** The build summary's split, and the foreign key back to the catalog: there
      are as many meta chunks as plot chunks (one each per row), and every row
      index below the row count is carried by exactly two chunks, no other by any. */
  lemma {:induction false} ChunkCounts(rows: seq<CatalogRow>, metadata: seq<Chunk>, i: int)
    requires MetadataLayout(rows, metadata)
    ensures CountType(metadata, Meta) == |rows|
    ensures CountType(metadata, Plot) == |rows|
    ensures CountRow(metadata, i) == if 0 <= i < |rows| then 2 else 0
    decreases |rows|
  {
    if |rows| > 0 {
      var n := |rows| - 1;
      var front, md := rows[..n], metadata[..2 * n];
      assert MetadataLayout(front, md) by {
        forall k | 0 <= k < n
          ensures md[2 * k] == Chunk(k, Meta, front[k].title, front[k].titleMeta)
          ensures md[2 * k + 1] == Chunk(k, Plot, front[k].title, front[k].titlePlot)
        {
          assert front[k] == rows[k];
        }
      }
      ChunkCounts(front, md, i);
      var mid := metadata[..2 * n + 1];
      assert mid[..2 * n] == md;
      assert metadata[..2 * n + 1 + 1] == metadata;
      assert metadata[2 * n] == Chunk(n, Meta, rows[n].title, rows[n].titleMeta);
      assert metadata[2 * n + 1] == Chunk(n, Plot, rows[n].title, rows[n].titlePlot);
    } else {
      assert metadata == [];
    }
  }

  // ---------------------------------------------------------- cluster count

  /** `int(np.sqrt(n))`: the integer square root of the number of embeddings. */
  function NumClusters(n: nat): (k: nat)
    ensures k * k <= n < (k + 1) * (k + 1)
    ensures n >= 1 ==> 1 <= k <= n
  {
    if n == 0 then 0
    else
      var k := NumClusters(n - 1);
      if (k + 1) * (k + 1) <= n then k + 1 else k
  }

  /** The cluster count is the largest `k` with `k * k <= n`. */
  lemma NumClustersIsLargest(n: nat, k: nat)
    requires k * k <= n
    ensures k <= NumClusters(n)
  {
    var r := NumClusters(n);
    assert k * k < (r + 1) * (r + 1);
    SquaresOrdered(k, r + 1);
  }

  lemma SquaresOrdered(a: nat, b: nat)
    requires a * a < b * b
    ensures a < b
  {
  }

  // ------------------------------------------------------------------ build

  /** The two files after a build: both are written together, or neither. */
  function Persist(disk: Disk, outcome: BuildOutcome): (d: Disk)
    ensures outcome.Built? ==> d.index == Some(outcome.index) && d.metadata == Some(outcome.metadata)
    ensures !outcome.Built? ==> d == disk
  {
    match outcome
    case Built(index, metadata) => Disk(Some(index), Some(metadata))
    case _ => disk
  }

  /** Reading the index file, then the metadata file, as `__init__` does; a
      load succeeds exactly when both files exist. */
  function LoadFromDisk(disk: Disk): (r: Result<Store, SearchError>)
    ensures r.Ok? <==> disk.index.Some? && disk.metadata.Some?
    ensures disk.index.None? ==> r == Err(IndexAbsent)
    ensures disk.index.Some? && disk.metadata.None? ==> r == Err(MetadataFileMissing)
    ensures r.Ok? ==> r.value == Ready(disk.index.value, disk.metadata.value)
  {
    if disk.index.None? then Err(IndexAbsent)
    else if disk.metadata.None? then Err(MetadataFileMissing)
    else Ok(Ready(disk.index.value, disk.metadata.value))
  }

  /** `build`: chunk the first rows, embed every chunk text (one vector per
      text), train an inverted-file index with the integer square root of the
      vector count as its list count, add all vectors, and write the index and
      the metadata. `dataExists` is the check for the preprocessed film file. */
  method Build(rows: seq<CatalogRow>, dataExists: bool) returns (outcome: BuildOutcome)
    ensures !dataExists ==> outcome == NoPreprocessedData
    ensures dataExists && |rows| == 0 ==> outcome == TrainingFailed
    ensures dataExists && |rows| > 0 ==> outcome.Built?
    ensures outcome.Built? ==>
      && MetadataLayout(Capped(rows), outcome.metadata)
      && outcome.index.ntotal == |outcome.metadata| == 2 * |Capped(rows)|
      && outcome.index.ntotal <= 2 * MaxRows
      && 1 <= outcome.index.nlist <= outcome.index.ntotal
      && outcome.index.nlist * outcome.index.nlist <= outcome.index.ntotal
      && outcome.index.ntotal < (outcome.index.nlist + 1) * (outcome.index.nlist + 1)
    ensures forall disk :: outcome.Built? ==>
      LoadFromDisk(Persist(disk, outcome)) == Ok(Ready(outcome.index, outcome.metadata))
  {
    if !dataExists {
      return NoPreprocessedData;
    }
    var texts, metadata := ExtractChunks(Capped(rows));
    var embedded := |texts|;
    if embedded == 0 {
      return TrainingFailed;
    }
    var index := IndexHandle(embedded, NumClusters(embedded));
    outcome := Built(index, metadata);
  }

  // ----------------------------------------------------------- load guard

  /** `__init__`: the index is loaded eagerly when its file exists. A missing
      metadata file next to an existing index makes the constructor raise, so
      no instance exists and in particular none is ever half loaded. */
  function Init(disk: Disk): (r: Result<Store, SearchError>)
    ensures r == Ok(Unloaded) <==> disk.index.None?
    ensures r.Err? <==> disk.index.Some? && disk.metadata.None?
    ensures r.Err? ==> r.error == MetadataFileMissing
    ensures r.Ok? ==> !r.value.IndexOnly?
    ensures r.Ok? && r.value.Ready? ==> r.value == Ready(disk.index.value, disk.metadata.value)
  {
    if disk.index.Some? then LoadFromDisk(disk) else Ok(Unloaded)
  }

  /** The guard at the top of `search`, run only while `self.index` is `None`:
      read the index file, then open the metadata file. It yields the fields
      it leaves behind, together with the error it raises, if any. */
  function EnsureLoaded(store: Store, disk: Disk): (r: (Store, Option<SearchError>))
    ensures !store.Unloaded? ==> r == (store, None)
    ensures store.Unloaded? && disk.index.None? ==> r == (Unloaded, Some(IndexAbsent))
    ensures store.Unloaded? && disk.index.Some? ==> !r.0.Unloaded? && r.0.index == disk.index.value
    ensures store.Unloaded? ==> (r.1.None? <==> LoadFromDisk(disk).Ok?)
    ensures store.Unloaded? && r.1.None? ==> LoadFromDisk(disk) == Ok(r.0)
    ensures store.Unloaded? && disk.index.Some? && disk.metadata.None? ==>
      r == (IndexOnly(disk.index.value), Some(MetadataFileMissing))
  {
    if !store.Unloaded? then (store, None)
    else if disk.index.None? then (Unloaded, Some(IndexAbsent))
    else if disk.metadata.None? then (IndexOnly(disk.index.value), Some(MetadataFileMissing))
    else (Ready(disk.index.value, disk.metadata.value), None)
  }

  /** Loading eagerly in the constructor and lazily at the first search agree
      for an unchanged disk: whenever construction succeeds, the first
      search's guard ends where it would for an instance that never loaded. */
  lemma EagerAndLazyLoadAgree(disk: Disk)
    requires Init(disk).Ok?
    ensures EnsureLoaded(Init(disk).value, disk) == EnsureLoaded(Unloaded, disk)
    ensures disk.index.Some? <==> Init(disk).value.Ready?
  {
  }

  /** `build` writes new files but never touches the instance's fields: an
      instance that already holds an index keeps using it after a rebuild,
      while one that never loaded picks up the new pair at its first search. */
  lemma RebuildSeenOnlyWhenUnloaded(store: Store, disk: Disk, index: IndexHandle, metadata: seq<Chunk>)
    ensures !store.Unloaded? ==> EnsureLoaded(store, Persist(disk, Built(index, metadata))) == (store, None)
    ensures EnsureLoaded(Unloaded, Persist(disk, Built(index, metadata))) == (Ready(index, metadata), None)
  {
  }

  // ---------------------------------------------------- result mapping

  /** Python list indexing: `xs[ordinal]` for a list of length `len`, negative
      ordinals counting from the end; `None` where Python raises `IndexError`. */
  function Resolve(len: nat, ordinal: int): (r: Option<nat>)
    ensures r.Some? <==> -(len as int) <= ordinal < len
    ensures r.Some? ==> r.value < len
    ensures 0 <= ordinal ==> r.Some? ==> r.value == ordinal
  {
    if 0 <= ordinal < len then Some(ordinal)
    else if -(len as int) <= ordinal < 0 then Some(len + ordinal)
    else None
  }

  /** The positions among the first `n` candidates that carry a real ordinal, in order. */
  function Survivors(indices: seq<int>, n: nat): (s: seq<nat>)
    requires n <= |indices|
    ensures |s| <= n
    ensures forall k :: 0 <= k < |s| ==> s[k] < n
  {
    if n == 0 then []
    else Survivors(indices, n - 1) + (if indices[n - 1] == NoCandidate then [] else [n - 1])
  }

  /** The survivors are exactly the candidate positions whose ordinal is not
      -1, listed in increasing order, so the oracle's order is kept. */
  lemma {:induction false} SurvivorsSpec(indices: seq<int>, n: nat)
    requires n <= |indices|
    ensures forall k :: 0 <= k < |Survivors(indices, n)| ==> indices[Survivors(indices, n)[k]] != NoCandidate
    ensures forall k, l :: 0 <= k < l < |Survivors(indices, n)| ==> Survivors(indices, n)[k] < Survivors(indices, n)[l]
    ensures forall j :: 0 <= j < n && indices[j] != NoCandidate ==> j in Survivors(indices, n)
  {
    if n > 0 {
      SurvivorsSpec(indices, n - 1);
    }
  }

  /** Every ordinal at a surviving position names a metadata record. */
  predicate Resolvable(len: nat, indices: seq<int>, s: seq<nat>) {
    forall k :: 0 <= k < |s| ==> s[k] < |indices| && Resolve(len, indices[s[k]]).Some?
  }

  /** The result built from candidate position `j`. */
  function HitAt(metadata: seq<Chunk>, distances: seq<real>, indices: seq<int>, j: nat): Hit
    requires j < |distances| && j < |indices|
    requires Resolve(|metadata|, indices[j]).Some?
  {
    Hit(metadata[Resolve(|metadata|, indices[j]).value].chunkText, distances[j])
  }

  /** `hits` holds, in order, the result of each surviving position in `s`. */
  predicate HitsMatch(metadata: seq<Chunk>, distances: seq<real>, indices: seq<int>, s: seq<nat>, hits: seq<Hit>) {
    && |hits| == |s|
    && forall k :: 0 <= k < |s| ==>
         && s[k] < |distances| && s[k] < |indices|
         && Resolve(|metadata|, indices[s[k]]).Some?
         && hits[k] == HitAt(metadata, distances, indices, s[k])
  }

  function Min(a: nat, b: nat): nat {
    if a <= b then a else b
  }

  /** The result loop of `search`: walk the zipped `(distance, ordinal)` pairs
      in the order FAISS returned them, skip the "no candidate" ordinal, and map
      every other ordinal through the metadata. It succeeds exactly when every
      surviving ordinal is a valid list index, and then returns one result per
      surviving position, in the oracle's order. */
  method CollectHits(metadata: seq<Chunk>, distances: seq<real>, indices: seq<int>)
    returns (r: Result<seq<Hit>, SearchError>)
    ensures r.Ok? <==> Resolvable(|metadata|, indices, Survivors(indices, Min(|distances|, |indices|)))
    ensures r.Ok? ==>
      HitsMatch(metadata, distances, indices, Survivors(indices, Min(|distances|, |indices|)), r.value)
    ensures r.Err? ==>
      r.error.OrdinalOutOfRange? && r.error.ordinal in indices && r.error.ordinal != NoCandidate
  {
    var n := Min(|distances|, |indices|);
    var hits: seq<Hit> := [];
    var i := 0;
    while i < n
      invariant 0 <= i <= n
      invariant HitsMatch(metadata, distances, indices, Survivors(indices, i), hits)
    {
      var idx := indices[i];
      ghost var s := Survivors(indices, i);
      if idx != NoCandidate {
        var slot := Resolve(|metadata|, idx);
        if slot.None? {
          UnresolvableSurvivor(metadata, indices, n, i);
          return Err(OrdinalOutOfRange(idx));
        }
        assert Survivors(indices, i + 1) == s + [i];
        ExtendHits(metadata, distances, indices, s, hits, i);
        hits := hits + [Hit(metadata[slot.value].chunkText, distances[i])];
      } else {
        assert Survivors(indices, i + 1) == s;
      }
      i := i + 1;
    }
    return Ok(hits);
  }

  /** One more resolvable survivor extends the matching results by its hit. */
  lemma ExtendHits(metadata: seq<Chunk>, distances: seq<real>, indices: seq<int>,
                   s: seq<nat>, hits: seq<Hit>, j: nat)
    requires j < |distances| && j < |indices|
    requires HitsMatch(metadata, distances, indices, s, hits)
    requires Resolve(|metadata|, indices[j]).Some?
    ensures HitsMatch(metadata, distances, indices, s + [j], hits + [HitAt(metadata, distances, indices, j)])
  {
    var s', hits' := s + [j], hits + [HitAt(metadata, distances, indices, j)];
    assert forall k :: 0 <= k < |s| ==> s'[k] == s[k] && hits'[k] == hits[k];
  }

  /** A candidate that survives the filter but fails to resolve makes the whole list unresolvable. */
  lemma UnresolvableSurvivor(metadata: seq<Chunk>, indices: seq<int>, n: nat, j: nat)
    requires j < n <= |indices|
    requires indices[j] != NoCandidate && Resolve(|metadata|, indices[j]).None?
    ensures !Resolvable(|metadata|, indices, Survivors(indices, n))
  {
    SurvivorsSpec(indices, n);
    var s := Survivors(indices, n);
    assert j in s;
    var k :| 0 <= k < |s| && s[k] == j;
  }

  /** `search`: the load guard, then the oracle's candidates for the query
      (`distances`, `indices`, each `top_k` long), then the result loop. The
      fields the guard sets stay set even when it or the result loop raises,
      so the next store is returned in every case. */
  method Search(store: Store, disk: Disk, distances: seq<real>, indices: seq<int>)
    returns (next: Store, r: Result<seq<Hit>, SearchError>)
    ensures !store.Unloaded? ==> next == store
    ensures store.Unloaded? && disk.index.None? ==> next == Unloaded && r == Err(IndexAbsent)
    ensures store.Unloaded? && disk.index.Some? && disk.metadata.None? ==>
      next == IndexOnly(disk.index.value) && r == Err(MetadataFileMissing)
    ensures store.Unloaded? && disk.index.Some? && disk.metadata.Some? ==>
      next == Ready(disk.index.value, disk.metadata.value)
    ensures store.IndexOnly? ==>
      (r.Ok? <==> forall j :: 0 <= j < Min(|distances|, |indices|) ==> indices[j] == NoCandidate)
    ensures store.IndexOnly? && r.Ok? ==> r.value == []
    ensures store.IndexOnly? && r.Err? ==> r.error == MetadataUnset
    ensures next.Ready? ==>
      (r.Ok? <==> Resolvable(|next.metadata|, indices, Survivors(indices, Min(|distances|, |indices|))))
    ensures next.Ready? && r.Ok? ==>
      HitsMatch(next.metadata, distances, indices, Survivors(indices, Min(|distances|, |indices|)), r.value)
    ensures next.Ready? && r.Err? ==>
      r.error.OrdinalOutOfRange? && r.error.ordinal in indices && r.error.ordinal != NoCandidate
    ensures r.Ok? ==> |r.value| <= |indices| && |r.value| <= |distances|
    ensures next.Ready? && r.Ok? ==> forall h :: h in r.value ==>
      exists j :: 0 <= j < |next.metadata| && h.chunkText == next.metadata[j].chunkText
    ensures next.Ready? && (forall j :: 0 <= j < |indices| ==> NoCandidate <= indices[j] < |next.metadata|) ==>
      r.Ok?
  {
    var guard := EnsureLoaded(store, disk);
    next := guard.0;
    if guard.1.Some? {
      return next, Err(guard.1.value);
    }
    if next.IndexOnly? {
      r := ScanUnset(distances, indices);
      return;
    }
    var md := next.metadata;
    r := CollectHits(md, distances, indices);
    if r.Ok? {
      forall h | h in r.value
        ensures exists j :: 0 <= j < |md| && h.chunkText == md[j].chunkText
      {
        var k :| 0 <= k < |r.value| && r.value[k] == h;
      }
    }
  }

  /** The result loop of `search` on a half-loaded instance: every ordinal
      other than -1 is looked up in metadata that is still `None`, which
      raises; only a candidate list with no real ordinal gets through, empty. */
  method ScanUnset(distances: seq<real>, indices: seq<int>) returns (r: Result<seq<Hit>, SearchError>)
    ensures r.Ok? <==> forall j :: 0 <= j < Min(|distances|, |indices|) ==> indices[j] == NoCandidate
    ensures r.Ok? ==> r.value == []
    ensures r.Err? ==> r.error == MetadataUnset
  {
    var n := Min(|distances|, |indices|);
    var i := 0;
    while i < n
      invariant 0 <= i <= n
      invariant forall j :: 0 <= j < i ==> indices[j] == NoCandidate
    {
      if indices[i] != NoCandidate {
        return Err(MetadataUnset);
      }
      i := i + 1;
    }
    return Ok([]);
  }
}
