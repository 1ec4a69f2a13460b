/** `retrieve_context`: make sure the store is fresh, embed the query, search,
    and join the texts of the hits. The FAISS search is an oracle returning the
    labels of the hits in rank order. */
module Retrieval {
  import opened Wrappers
  import opened PyStr
  import opened Chunker
  import opened DocHash
  import opened VectorStore

  const NoKnowledge: string :=
    "No relevant agricultural knowledge found. Please add PDF documents to 'data/docs/'."
  const EmbedFailed: string := "Error: Could not embed query."
  const Separator: string := "\n\n"

  /** Python's `xs[i]`, negative `i` counting from the end; `None` is an `IndexError`. */
  function PyIndex<T>(xs: seq<T>, i: int): (r: Option<T>)
    ensures r.Some? <==> -|xs| <= i < |xs|
    ensures 0 <= i < |xs| ==> r == Some(xs[i])
    ensures -|xs| <= i < 0 ==> r == Some(xs[|xs| + i])
  {
    if 0 <= i < |xs| then Some(xs[i])
    else if -|xs| <= i < 0 then Some(xs[|xs| + i])
    else None
  }

  /** How many labels pass the filter `i < n`. */
  function CountBelow(labels: seq<int>, n: int): nat {
    if |labels| == 0 then 0
    else (if labels[0] < n then 1 else 0) + CountBelow(labels[1..], n)
  }

  /** `[chunks[i] for i in labels if i < len(chunks)]`; `None` when it raises,
      which happens exactly when some label is below `-len(chunks)`. */
  function RelevantChunks(chunks: seq<string>, labels: seq<int>): (r: Option<seq<string>>)
    ensures r.Some? <==> forall k :: 0 <= k < |labels| ==> labels[k] >= -|chunks|
    ensures r.Some? ==> |r.value| == CountBelow(labels, |chunks|)
    ensures r.Some? ==> forall m :: 0 <= m < |r.value| ==> r.value[m] in chunks
  {
    if |labels| == 0 then Some([])
    else
      var rest := RelevantChunks(chunks, labels[1..]);
      assert forall k :: 1 <= k < |labels| ==> labels[k] == labels[1..][k - 1];
      if labels[0] >= |chunks| then rest
      else
        match PyIndex(chunks, labels[0])
        case None => None
        case Some(c) => if rest.None? then None else Some([c] + rest.value)
  }

  /** The store's answer to a query: the embed-error message for a falsy query
      embedding, the no-knowledge sentinel when the search raises (a query whose
      length is not the index's dimension) or the comprehension raises, and the
      blank-line join of the hits otherwise. */
  function Answer(s: Store, query: Option<Vector>, labels: seq<int>): string {
    if !Truthy(query) then EmbedFailed
    else if |query.value| != Dimension then NoKnowledge
    else
      match RelevantChunks(s.chunks, labels)
      case None => NoKnowledge
      case Some(parts) => Join(Separator, parts)
  }

  /** What `retrieve_context` returns after `build_or_load_vectorstore` ended in
      `outcome`: without a store, or on an exception, the no-knowledge sentinel. */
  function ContextFor(outcome: Outcome, query: Option<Vector>, labels: seq<int>): string {
    match outcome
    case Reused(s) => Answer(s, query, labels)
    case Rebuilt(s) => Answer(s, query, labels)
    case NoDocuments => NoKnowledge
    case Raised => NoKnowledge
  }

  /** `retrieve_context`: `embed` answers the calls made while rebuilding, `query`
      is the query's embedding and `labels` what `index.search` returns. */
  method RetrieveContext(dir: IndexDir, listing: seq<string>, fs: map<string, seq<byte>>,
                         pdfText: map<string, string>, md5: seq<byte> -> seq<byte>,
                         embed: nat -> Option<Vector>, query: Option<Vector>, labels: seq<int>)
    returns (context: string, dir': IndexDir)
    ensures var (o, d) := BuildOrLoadSpec(dir, listing, fs, pdfText, md5, embed);
      context == ContextFor(o, query, labels) && dir' == d
  {
    var outcome;
    outcome, dir' := BuildOrLoad(dir, listing, fs, pdfText, md5, embed);
    context := ContextFor(outcome, query, labels);
  }

  /** The labels an exhaustive FAISS search returns for `k` neighbours among `n`
      vectors: `min(k, n)` distinct valid labels, then `-1` padding. */
  predicate FaissLabels(labels: seq<int>, n: nat, k: nat) {
    |labels| == k &&
    (forall j :: 0 <= j < k && j < n ==> 0 <= labels[j] < n) &&
    (forall j :: n <= j < k ==> labels[j] == -1) &&
    (forall a, b :: 0 <= a < b < k && b < n ==> labels[a] != labels[b])
  }

  /** The position `PyIndex` reads for an index `i` into a list of length `n`
      (negative `i` counted from the end), when it succeeds. */
  function Resolve(i: int, n: nat): int {
    if i < 0 then n + i else i
  }

  /** Every label read from `chunks` the way Python resolves it. */
  function Resolved(chunks: seq<string>, labels: seq<int>): (r: seq<string>)
    requires forall k :: 0 <= k < |labels| ==> -|chunks| <= labels[k] < |chunks|
    ensures |r| == |labels|
    ensures forall j :: 0 <= j < |labels| ==> r[j] == chunks[Resolve(labels[j], |chunks|)]
  {
    if |labels| == 0 then []
    else [chunks[Resolve(labels[0], |chunks|)]] + Resolved(chunks, labels[1..])
  }

  /** When no label is out of Python's range, the comprehension keeps every label
      and reads each (negative ones from the end). */
  lemma {:induction false} RelevantChunksInRange(chunks: seq<string>, labels: seq<int>)
    requires forall k :: 0 <= k < |labels| ==> -|chunks| <= labels[k] < |chunks|
    ensures RelevantChunks(chunks, labels) == Some(Resolved(chunks, labels))
    decreases |labels|
  {
    if |labels| > 0 {
      RelevantChunksInRange(chunks, labels[1..]);
    }
  }

  /** The labels that pass the filter `i < n`, in rank order. */
  function Below(labels: seq<int>, n: int): (r: seq<int>)
    ensures forall k :: 0 <= k < |r| ==> r[k] < n && r[k] in labels
  {
    if |labels| == 0 then []
    else (if labels[0] < n then [labels[0]] else []) + Below(labels[1..], n)
  }

  /** Whenever the comprehension does not raise, it reads exactly the labels that
      pass `i < len(chunks)`, in rank order, each resolved as Python does. */
  lemma {:induction false} RelevantChunksFiltered(chunks: seq<string>, labels: seq<int>)
    requires forall k :: 0 <= k < |labels| ==> labels[k] >= -|chunks|
    ensures forall k :: 0 <= k < |Below(labels, |chunks|)| ==>
      -|chunks| <= Below(labels, |chunks|)[k] < |chunks|
    ensures RelevantChunks(chunks, labels) == Some(Resolved(chunks, Below(labels, |chunks|)))
    decreases |labels|
  {
    if |labels| > 0 {
      var n := |chunks|;
      var rest := labels[1..];
      assert forall k :: 0 <= k < |rest| ==> rest[k] == labels[k + 1];
      RelevantChunksFiltered(chunks, rest);
      var b, br := Below(labels, n), Below(rest, n);
      assert forall x :: x in labels ==> x >= -n;
      if labels[0] < n {
        assert b == [labels[0]] + br;
        assert b[1..] == br;
        assert PyIndex(chunks, labels[0]) == Some(chunks[Resolve(labels[0], n)]);
        assert Resolved(chunks, b) == [chunks[Resolve(labels[0], n)]] + Resolved(chunks, br);
      } else {
        assert b == br;
      }
    }
  }

  lemma {:induction false} BelowKeepsAll(labels: seq<int>, n: int)
    requires forall k :: 0 <= k < |labels| ==> labels[k] < n
    ensures Below(labels, n) == labels
    decreases |labels|
  {
    if |labels| > 0 {
      BelowKeepsAll(labels[1..], n);
      assert labels == [labels[0]] + labels[1..];
    }
  }

  /** With at least as many texts as vectors, the filter `i < len(chunks)` drops
      no label a FAISS search returns, the `-1` padding included. */
  lemma FilterDropsNothing(chunks: seq<string>, labels: seq<int>, n: nat, k: nat)
    requires FaissLabels(labels, n, k) && n <= |chunks|
    ensures Below(labels, |chunks|) == labels
  {
    BelowKeepsAll(labels, |chunks|);
  }

  /** As written: with fewer chunks than `k`, FAISS pads with `-1`, which passes
      `i < len(chunks)` and reads the LAST chunk, so the context repeats it once
      per missing neighbour. */
  lemma PaddedSearchRepeatsLastChunk(chunks: seq<string>, labels: seq<int>, k: nat)
    requires 0 < |chunks| < k
    requires FaissLabels(labels, |chunks|, k)
    ensures var r := RelevantChunks(chunks, labels); var n := |chunks|;
      r.Some? && |r.value| == k &&
      (forall j :: 0 <= j < n ==> r.value[j] == chunks[labels[j]]) &&
      (forall j :: n <= j < k ==> r.value[j] == chunks[n - 1])
  {
    RelevantChunksInRange(chunks, labels);
  }

  /** As written: when every embedding failed the store is empty but not `None`;
      the search then returns only `-1` labels, `chunks[-1]` raises, and the
      caller gets the no-knowledge sentinel. */
  lemma EmptyStoreAnswersSentinel(vectors: seq<Vector>, query: Option<Vector>,
                                  labels: seq<int>, k: nat)
    requires Truthy(query) && |query.value| == Dimension
    requires 0 < k && FaissLabels(labels, 0, k)
    ensures Answer(Store(vectors, []), query, labels) == NoKnowledge
  {
    assert labels[0] == -1;
  }

  /** The filter as evidently intended: only real labels, `0 <= i < len(chunks)`. */
  function RelevantChunksFixed(chunks: seq<string>, labels: seq<int>): seq<string> {
    if |labels| == 0 then []
    else
      (if 0 <= labels[0] < |chunks| then [chunks[labels[0]]] else []) +
      RelevantChunksFixed(chunks, labels[1..])
  }

  lemma {:induction false} FixedPrefix(chunks: seq<string>, labels: seq<int>, m: nat)
    requires m <= |labels|
    requires forall j :: 0 <= j < m ==> 0 <= labels[j] < |chunks|
    requires forall j :: m <= j < |labels| ==> labels[j] == -1
    ensures var r := RelevantChunksFixed(chunks, labels);
      |r| == m && forall j :: 0 <= j < m ==> r[j] == chunks[labels[j]]
    decreases |labels|
  {
    if |labels| > 0 {
      FixedPrefix(chunks, labels[1..], if m > 0 then m - 1 else 0);
    }
  }

  /** With the intended filter, the context holds exactly the `min(k, n)` real
      neighbours, in rank order, each chunk position at most once. */
  lemma FixedKeepsOnlyRealNeighbours(chunks: seq<string>, labels: seq<int>, k: nat)
    requires FaissLabels(labels, |chunks|, k)
    ensures var r := RelevantChunksFixed(chunks, labels); var m := Min(k, |chunks|);
      |r| == m && forall j :: 0 <= j < m ==> r[j] == chunks[labels[j]]
  {
    FixedPrefix(chunks, labels, Min(k, |chunks|));
  }

  /** The answer with the intended filter; it never raises on padding. */
  function AnswerFixed(s: Store, query: Option<Vector>, labels: seq<int>): string {
    if !Truthy(query) then EmbedFailed
    else if |query.value| != Dimension then NoKnowledge
    else Join(Separator, RelevantChunksFixed(s.chunks, labels))
  }

  /** The scenario of a one-sentence corpus: a store holding one chunk answers a
      query with that chunk when the search is asked for one neighbour. */
  lemma SingleChunkScenario(v: Vector, c: string, query: Option<Vector>)
    requires Truthy(query) && |query.value| == Dimension
    ensures Answer(Store([v], [c]), query, [0]) == c
  {
    RelevantChunksInRange([c], [0]);
  }

  /** The same store searched with the default `k = 10`: as written the context is
      the chunk ten times over, with the intended filter it is the chunk once. */
  lemma DefaultKScenario(v: Vector, c: string, query: Option<Vector>, labels: seq<int>)
    requires Truthy(query) && |query.value| == Dimension
    requires FaissLabels(labels, 1, 10)
    ensures var r := RelevantChunks([c], labels);
      r.Some? && |r.value| == 10 && forall j :: 0 <= j < 10 ==> r.value[j] == c
    ensures AnswerFixed(Store([v], [c]), query, labels) == c
  {
    PaddedSearchRepeatsLastChunk([c], labels, 10);
    FixedKeepsOnlyRealNeighbours([c], labels, 10);
    var r := RelevantChunksFixed([c], labels);
    assert r == [c];
  }
}
