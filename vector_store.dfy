/** `build_or_load_vectorstore`: reuse the persisted index when the corpus
    fingerprint is unchanged, otherwise load, chunk and embed the documents and
    persist the result. The index directory (`index.faiss`, `chunks.txt`,
    `.doc_hash`) is a value the operation returns anew. */
module VectorStore {
  import opened Wrappers
  import opened PyStr
  import opened Chunker
  import opened DocHash
  import opened ChunkFile

  const PdfDir: string := "data/docs"

  /** The dimension the FAISS index is created with. */
  const Dimension: nat := 768

  type Vector = seq<real>

  /** Python truthiness of an embedding: not `None` and not empty. */
  predicate Truthy(e: Option<Vector>) {
    e.Some? && |e.value| > 0
  }

  /** An index with its parallel chunk-text list: vector `i` belongs to text `i`. */
  datatype Store = Store(vectors: seq<Vector>, chunks: seq<string>)

  /** `index.faiss`: either `faiss.read_index` raises on it, or it yields the vectors. */
  datatype IndexFile = Unreadable | Readable(vectors: seq<Vector>)

  /** The three files of the index directory; `None` is a missing file. */
  datatype IndexDir = IndexDir(hashFile: Option<string>, indexFile: Option<IndexFile>,
                               chunksFile: Option<string>)

  datatype Decision = Reuse | Rebuild

  /** What `build_or_load_vectorstore` ends with: the persisted store, a rebuilt
      one, `(None, None)` for an empty corpus, or an exception. */
  datatype Outcome = Reused(store: Store) | Rebuilt(store: Store) | NoDocuments | Raised

  /** `os.path.join(PDF_DIR, name)` for a name `os.listdir` returned. */
  function PdfPath(name: string): string {
    PdfDir + "/" + name
  }

  predicate IsPdf(name: string) {
    EndsWith(name, ".pdf")
  }

  /** `pdf_paths`: the paths of the listed names ending in ".pdf", in listing order. */
  function PdfPaths(listing: seq<string>): seq<string> {
    if |listing| == 0 then []
    else
      var name := listing[|listing| - 1];
      PdfPaths(listing[..|listing| - 1]) + (if IsPdf(name) then [PdfPath(name)] else [])
  }

  /** The freshness test: reuse only if a hash file exists, its stripped content
      is the current fingerprint, `index.faiss` exists and loading does not raise. */
  function Decide(hashFile: Option<string>, currentHash: string,
                  indexExists: bool, loadSucceeds: bool): Decision {
    if hashFile.Some? && Strip(hashFile.value) == currentHash && indexExists && loadSucceeds
    then Reuse else Rebuild
  }

  /** Loading the persisted pair: `faiss.read_index` and reading `chunks.txt`;
      `None` when either raises. */
  function LoadStore(dir: IndexDir): Option<Store> {
    if dir.indexFile.Some? && dir.indexFile.value.Readable? && dir.chunksFile.Some?
    then Some(Store(dir.indexFile.value.vectors, ReadChunks(dir.chunksFile.value)))
    else None
  }

  /** The directory after a successful save of `s` under fingerprint `h`. */
  function SavedDir(h: string, s: Store): IndexDir {
    IndexDir(Some(h), Some(Readable(s.vectors)), Some(WriteChunks(s.chunks)))
  }

  /** What `load_documents` returns: one document per listed ".pdf" name whose
      text extraction succeeds (`pdfText` has no entry where `PdfReader` raises). */
  function LoadedDocs(listing: seq<string>, pdfText: map<string, string>): seq<Document> {
    if |listing| == 0 then []
    else
      var name := listing[|listing| - 1];
      LoadedDocs(listing[..|listing| - 1], pdfText) +
        (if IsPdf(name) && PdfPath(name) in pdfText
         then [Document(name, pdfText[PdfPath(name)])] else [])
  }

  /** Every loaded document is a listed ".pdf" file whose extracted text is its
      content, and its path is among the paths the fingerprint hashed. */
  lemma {:induction false} LoadedDocsAreHashed(listing: seq<string>, pdfText: map<string, string>)
    ensures forall d :: d in LoadedDocs(listing, pdfText) ==>
      d.filename in listing && IsPdf(d.filename) && PdfPath(d.filename) in pdfText &&
      d.content == pdfText[PdfPath(d.filename)] &&
      PdfPath(d.filename) in PdfPaths(listing)
    decreases |listing|
  {
    if |listing| > 0 {
      var init := listing[..|listing| - 1];
      var name := listing[|listing| - 1];
      LoadedDocsAreHashed(init, pdfText);
      assert forall x :: x in init ==> x in listing;
      assert forall p :: p in PdfPaths(init) ==> p in PdfPaths(listing);
      if IsPdf(name) {
        assert PdfPath(name) in PdfPaths(listing);
      }
    }
  }

  /** The texts of a loaded store are single stripped lines. */
  lemma LoadedTextsStorable(dir: IndexDir)
    requires LoadStore(dir).Some?
    ensures forall k :: 0 <= k < |LoadStore(dir).value.chunks| ==>
      Storable(LoadStore(dir).value.chunks[k])
  {
  }

  /** The corpus is empty exactly when no listed ".pdf" file could be read. */
  lemma {:induction false} NoDocumentsIff(listing: seq<string>, pdfText: map<string, string>)
    ensures |LoadedDocs(listing, pdfText)| == 0 <==>
            forall k :: 0 <= k < |listing| ==> !(IsPdf(listing[k]) && PdfPath(listing[k]) in pdfText)
    decreases |listing|
  {
    if |listing| > 0 {
      var init := listing[..|listing| - 1];
      NoDocumentsIff(init, pdfText);
      assert forall k :: 0 <= k < |init| ==> init[k] == listing[k];
    }
  }

  /** `load_documents`: the loop over the listing, skipping files that fail. */
  method LoadDocuments(listing: seq<string>, pdfText: map<string, string>)
    returns (docs: seq<Document>)
    ensures docs == LoadedDocs(listing, pdfText)
  {
    docs := [];
    for i := 0 to |listing|
      invariant docs == LoadedDocs(listing[..i], pdfText)
    {
      var name := listing[i];
      assert listing[..i + 1][..i] == listing[..i];
      if IsPdf(name) && PdfPath(name) in pdfText {
        docs := docs + [Document(name, pdfText[PdfPath(name)])];
      }
    }
    assert listing[..|listing|] == listing;
  }

  /** The chunks kept by the embedding loop: the `j`-th call to the embedding
      service answers `embed(j)`, and a chunk is kept with its vector only when
      that answer is truthy. */
  function Kept(chunks: seq<Chunk>, embed: nat -> Option<Vector>): (s: Store)
    ensures |s.vectors| == |s.chunks| <= |chunks|
  {
    if |chunks| == 0 then Store([], [])
    else
      var s := Kept(chunks[..|chunks| - 1], embed);
      var j := |chunks| - 1;
      if Truthy(embed(j)) then Store(s.vectors + [embed(j).value], s.chunks + [chunks[j].content])
      else s
  }

  /** The positions below `n` whose embedding succeeded, in increasing order. */
  function Positions(n: nat, embed: nat -> Option<Vector>): seq<nat> {
    if n == 0 then []
    else Positions(n - 1, embed) + (if Truthy(embed(n - 1)) then [n - 1] else [])
  }

  /** `Positions` lists exactly the successful positions, each once, in order. */
  lemma {:induction false} PositionsExact(n: nat, embed: nat -> Option<Vector>)
    ensures var pos := Positions(n, embed);
      (forall j: nat :: j in pos <==> j < n && Truthy(embed(j))) &&
      (forall a, b :: 0 <= a < b < |pos| ==> pos[a] < pos[b])
  {
    if n > 0 {
      PositionsExact(n - 1, embed);
      var pre := Positions(n - 1, embed);
      var pos := Positions(n, embed);
      assert forall k :: 0 <= k < |pre| ==> pre[k] in pre;
      assert forall k :: 0 <= k < |pre| ==> pos[k] == pre[k] < n - 1;
    }
  }

  /** The lockstep invariant of the embedding loop: kept text `m` is the content
      of the chunk at the `m`-th successful position, and vector `m` is that
      chunk's embedding. */
  lemma {:induction false} KeptPairing(chunks: seq<Chunk>, embed: nat -> Option<Vector>)
    ensures var s := Kept(chunks, embed); var pos := Positions(|chunks|, embed);
      |s.chunks| == |pos| &&
      forall m :: 0 <= m < |pos| ==>
        pos[m] < |chunks| && s.chunks[m] == chunks[pos[m]].content &&
        embed(pos[m]).Some? && s.vectors[m] == embed(pos[m]).value
    decreases |chunks|
  {
    PositionsExact(|chunks|, embed);
    if |chunks| > 0 {
      var init := chunks[..|chunks| - 1];
      KeptPairing(init, embed);
      assert forall k :: 0 <= k < |init| ==> init[k] == chunks[k];
    }
  }

  /** Nothing is kept exactly when every embedding call failed. */
  lemma NothingKeptIff(chunks: seq<Chunk>, embed: nat -> Option<Vector>)
    ensures |Kept(chunks, embed).vectors| == 0 <==>
            forall j :: 0 <= j < |chunks| ==> !Truthy(embed(j))
  {
    KeptPairing(chunks, embed);
    PositionsExact(|chunks|, embed);
    var pos := Positions(|chunks|, embed);
    if |pos| > 0 {
      assert pos[0] in pos;
    }
  }

  /** The embedding loop, appending vectors and texts in lockstep. */
  method EmbedChunks(chunks: seq<Chunk>, embed: nat -> Option<Vector>)
    returns (embeddings: seq<Vector>, texts: seq<string>)
    ensures Store(embeddings, texts) == Kept(chunks, embed)
  {
    embeddings, texts := [], [];
    for i := 0 to |chunks|
      invariant Store(embeddings, texts) == Kept(chunks[..i], embed)
    {
      assert chunks[..i + 1][..i] == chunks[..i];
      var e := embed(i);
      if Truthy(e) {
        embeddings := embeddings + [e.value];
        texts := texts + [chunks[i].content];
      }
    }
    assert chunks[..|chunks|] == chunks;
  }

  /** `index.add` accepts the vectors only if each has the index's dimension. */
  predicate FitsIndex(vectors: seq<Vector>) {
    forall k :: 0 <= k < |vectors| ==> |vectors[k]| == Dimension
  }

  /** The rebuild path once the fingerprint `h` is known and reuse was refused:
      no documents gives `(None, None)`; otherwise the kept chunks form the new
      store, and the files are written only if something was kept and fits the
      index's dimension. */
  function RebuildSpec(h: string, dir: IndexDir, docs: seq<Document>,
                       embed: nat -> Option<Vector>): (Outcome, IndexDir)
  {
    if |docs| == 0 then (NoDocuments, dir)
    else
      var s := Kept(AllChunks(docs), embed);
      if |s.vectors| == 0 then (Rebuilt(s), dir)
      else if !FitsIndex(s.vectors) then (Raised, dir)
      else (Rebuilt(s), SavedDir(h, s))
  }

  /** Both paths once the current fingerprint `h` is known. */
  function FromHash(h: string, dir: IndexDir, docs: seq<Document>,
                    embed: nat -> Option<Vector>): (Outcome, IndexDir)
  {
    var loaded := LoadStore(dir);
    if Decide(dir.hashFile, h, dir.indexFile.Some?, loaded.Some?) == Reuse
    then (Reused(loaded.value), dir)
    else RebuildSpec(h, dir, docs, embed)
  }

  /** The outcome of `build_or_load_vectorstore` and the index directory after it.
      `listing` is what `os.listdir(PDF_DIR)` returns, `fs` the bytes of each
      path, `pdfText` the text extracted from each readable PDF, `md5` the hash
      function and `embed` the embedding service's answer to each call. */
  function BuildOrLoadSpec(dir: IndexDir, listing: seq<string>, fs: map<string, seq<byte>>,
                           pdfText: map<string, string>, md5: seq<byte> -> seq<byte>,
                           embed: nat -> Option<Vector>): (Outcome, IndexDir)
  {
    match Fingerprint(PdfPaths(listing), fs, md5)
    case None => (Raised, dir)
    case Some(h) => FromHash(h, dir, LoadedDocs(listing, pdfText), embed)
  }

  /** `build_or_load_vectorstore`. */
  method BuildOrLoad(dir: IndexDir, listing: seq<string>, fs: map<string, seq<byte>>,
                     pdfText: map<string, string>, md5: seq<byte> -> seq<byte>,
                     embed: nat -> Option<Vector>)
    returns (outcome: Outcome, dir': IndexDir)
    ensures (outcome, dir') == BuildOrLoadSpec(dir, listing, fs, pdfText, md5, embed)
  {
    dir' := dir;
    var pdfPaths := PdfPaths(listing);
    var currentHash := HashDocs(pdfPaths, fs, md5);
    if currentHash.None? {
      return Raised, dir;
    }
    var h := currentHash.value;
    ghost var docs := LoadedDocs(listing, pdfText);
    assert BuildOrLoadSpec(dir, listing, fs, pdfText, md5, embed) == FromHash(h, dir, docs, embed);
    if dir.hashFile.Some? {
      var previous := Strip(dir.hashFile.value);
      if previous == h && dir.indexFile.Some? {
        var loaded := LoadStore(dir);
        if loaded.Some? {
          FromHashReuse(h, dir, docs, embed);
          return Reused(loaded.value), dir;
        }
      }
    }
    FromHashRebuild(h, dir, docs, embed);
    var documents := LoadDocuments(listing, pdfText);
    if |documents| == 0 {
      return NoDocuments, dir;
    }
    var chunks := SplitDocuments(documents);
    var embeddings, chunkTexts := EmbedChunks(chunks, embed);
    if |embeddings| > 0 {
      if !FitsIndex(embeddings) {
        return Raised, dir;
      }
      dir' := SavedDir(h, Store(embeddings, chunkTexts));
    }
    outcome := Rebuilt(Store(embeddings, chunkTexts));
  }

  /** The reuse branch of `FromHash`. */
  lemma FromHashReuse(h: string, dir: IndexDir, docs: seq<Document>, embed: nat -> Option<Vector>)
    requires dir.hashFile.Some? && Strip(dir.hashFile.value) == h
    requires dir.indexFile.Some? && LoadStore(dir).Some?
    ensures FromHash(h, dir, docs, embed) == (Reused(LoadStore(dir).value), dir)
  {
  }

  /** The rebuild branch of `FromHash`. */
  lemma FromHashRebuild(h: string, dir: IndexDir, docs: seq<Document>, embed: nat -> Option<Vector>)
    requires !(dir.hashFile.Some? && Strip(dir.hashFile.value) == h &&
               dir.indexFile.Some? && LoadStore(dir).Some?)
    ensures FromHash(h, dir, docs, embed) == RebuildSpec(h, dir, docs, embed)
  {
  }

  /** The persisted index is reused if and only if the hash file holds the current
      fingerprint (up to surrounding whitespace), `index.faiss` exists and both
      files load; reusing touches nothing. */
  lemma ReuseIff(h: string, dir: IndexDir, docs: seq<Document>, embed: nat -> Option<Vector>)
    ensures var (o, d) := FromHash(h, dir, docs, embed);
      (o.Reused? <==> dir.hashFile.Some? && Strip(dir.hashFile.value) == h &&
                      dir.indexFile.Some? && LoadStore(dir).Some?) &&
      (o.Reused? ==> d == dir && LoadStore(dir) == Some(o.store))
  {
    var loaded := LoadStore(dir);
    if Decide(dir.hashFile, h, dir.indexFile.Some?, loaded.Some?) == Rebuild {
      var r := RebuildSpec(h, dir, docs, embed);
      assert !r.0.Reused?;
    }
  }

  /** With no readable PDF and a stale index, the result is `(None, None)` and no
      file is written. */
  lemma EmptyCorpusWritesNothing(dir: IndexDir, listing: seq<string>, fs: map<string, seq<byte>>,
                                 pdfText: map<string, string>, md5: seq<byte> -> seq<byte>,
                                 embed: nat -> Option<Vector>)
    requires Fingerprint(PdfPaths(listing), fs, md5).Some?
    requires !BuildOrLoadSpec(dir, listing, fs, pdfText, md5, embed).0.Reused?
    requires forall k :: 0 <= k < |listing| ==> !(IsPdf(listing[k]) && PdfPath(listing[k]) in pdfText)
    ensures BuildOrLoadSpec(dir, listing, fs, pdfText, md5, embed) == (NoDocuments, dir)
  {
    NoDocumentsIff(listing, pdfText);
    var h := Fingerprint(PdfPaths(listing), fs, md5).value;
    var docs := LoadedDocs(listing, pdfText);
    assert BuildOrLoadSpec(dir, listing, fs, pdfText, md5, embed) == FromHash(h, dir, docs, embed);
    if dir.hashFile.Some? && Strip(dir.hashFile.value) == h && dir.indexFile.Some? && LoadStore(dir).Some? {
      FromHashReuse(h, dir, docs, embed);
      assert false;
    }
    FromHashRebuild(h, dir, docs, embed);
    assert |docs| == 0;
  }

  /** The files change only after at least one embedding succeeded, and then they
      hold the current fingerprint, the kept vectors and the kept texts. */
  lemma WritesOnlyAfterEmbedding(dir: IndexDir, listing: seq<string>, fs: map<string, seq<byte>>,
                                 pdfText: map<string, string>, md5: seq<byte> -> seq<byte>,
                                 embed: nat -> Option<Vector>)
    ensures var (o, d) := BuildOrLoadSpec(dir, listing, fs, pdfText, md5, embed);
      d != dir ==>
        var chunks := AllChunks(LoadedDocs(listing, pdfText));
        o.Rebuilt? && o.store == Kept(chunks, embed) &&
        (exists j :: 0 <= j < |chunks| && Truthy(embed(j))) &&
        Fingerprint(PdfPaths(listing), fs, md5).Some? &&
        d == SavedDir(Fingerprint(PdfPaths(listing), fs, md5).value, o.store)
  {
    var (o, d) := BuildOrLoadSpec(dir, listing, fs, pdfText, md5, embed);
    var chunks := AllChunks(LoadedDocs(listing, pdfText));
    if d != dir {
      NothingKeptIff(chunks, embed);
    }
  }

  /** Reloading a saved store gives back the same store if and only if every kept
      text is storable in `chunks.txt` (no line break, no surrounding whitespace). */
  lemma ReloadIff(h: string, s: Store)
    ensures LoadStore(SavedDir(h, s)) == Some(s) <==>
            forall k :: 0 <= k < |s.chunks| ==> Storable(s.chunks[k])
  {
    RoundTrip(s.chunks);
  }

  /** A directory saved under a fingerprint with no surrounding whitespace is
      reused by the next call that computes the same fingerprint. */
  lemma SavedIsReused(h: string, s: Store, docs: seq<Document>, embed: nat -> Option<Vector>)
    requires Stripped(h)
    ensures FromHash(h, SavedDir(h, s), docs, embed) ==
            (Reused(Store(s.vectors, ReadChunks(WriteChunks(s.chunks)))), SavedDir(h, s))
  {
    StripIdentity(h);
    FromHashReuse(h, SavedDir(h, s), docs, embed);
  }

  /** A hash file that holds the fingerprint followed by a newline (as an editor
      would save it) still lets the index be reused. */
  lemma HashFileNewlineTolerated(h: string)
    requires Stripped(h)
    ensures Decide(Some(h + "\n"), h, true, true) == Reuse
  {
    StripDropsNewline(h);
    StripIdentity(h);
  }

  /** As written: a saved chunk that holds a line break reloads as two texts next
      to one vector, so text `i` no longer belongs to vector `i`. */
  lemma ReloadMisaligned(h: string, v: Vector, x: string, y: string)
    requires Storable(x) && Storable(y)
    ensures var loaded := LoadStore(SavedDir(h, Store([v], [x + "\n" + y])));
      loaded.Some? && |loaded.value.vectors| == 1 && loaded.value.chunks == [x, y]
  {
    MultilineChunkSplits(x, y);
  }

  /** Freshness idempotence: after a call that saved the index, a second call on
      the same documents reuses it without embedding anything, and gets back the
      saved vectors with the texts as `chunks.txt` returns them. */
  lemma SecondCallReuses(dir: IndexDir, listing: seq<string>, fs: map<string, seq<byte>>,
                         pdfText: map<string, string>, md5: seq<byte> -> seq<byte>,
                         embed: nat -> Option<Vector>, embed2: nat -> Option<Vector>)
    requires var (o, d) := BuildOrLoadSpec(dir, listing, fs, pdfText, md5, embed); d != dir
    ensures var (o, d) := BuildOrLoadSpec(dir, listing, fs, pdfText, md5, embed);
      BuildOrLoadSpec(d, listing, fs, pdfText, md5, embed2) ==
        (Reused(Store(o.store.vectors, ReadChunks(WriteChunks(o.store.chunks)))), d)
  {
    var (o, d) := BuildOrLoadSpec(dir, listing, fs, pdfText, md5, embed);
    WritesOnlyAfterEmbedding(dir, listing, fs, pdfText, md5, embed);
    var sorted := Sort(PdfPaths(listing));
    var h := HexDigest(md5(Concat(sorted, fs)));
    assert Fingerprint(PdfPaths(listing), fs, md5) == Some(h);
    DigestStripped(md5(Concat(sorted, fs)));
    assert d == SavedDir(h, o.store);
    SavedIsReused(h, o.store, LoadedDocs(listing, pdfText), embed2);
  }
}
