/** The sliding-window chunker (`split_text`) and the per-document
    flattening (`split_documents`). */
module Chunker {

  const ChunkSize: nat := 500
  const ChunkOverlap: int := 100

  /** A loaded document: its file name and extracted text. */
  datatype Document = Document(filename: string, content: string)

  /** One window of a document's text, tagged with the document's file name. */
  datatype Chunk = Chunk(content: string, filename: string)

  function Min(a: int, b: int): int { if a <= b then a else b }

  /** The windows whose start is `start`, `start + step`, ... and below `|text|`;
      each one is `text[start:min(start + size, len(text))]`. */
  function WindowsFrom(text: string, start: nat, size: nat, step: nat): (r: seq<string>)
    requires step > 0
    ensures forall k :: 0 <= k < |r| ==> |r[k]| <= size
    decreases |text| - start
  {
    if start >= |text| then []
    else [text[start..Min(start + size, |text|)]] + WindowsFrom(text, start + step, size, step)
  }

  /** What `split_text(text, size, overlap)` returns. */
  function Windows(text: string, size: nat, overlap: int): seq<string>
    requires overlap < size
  {
    WindowsFrom(text, 0, size, size - overlap)
  }

  /** How many windows of stride `step` start below `n`: the ceiling of `n / step`. */
  function Count(n: int, step: nat): nat
    requires step > 0
    decreases n
  {
    if n <= 0 then 0 else 1 + Count(n - step, step)
  }

  /** `Count(n, step)` is the least `c` with `c * step >= n`. */
  lemma {:induction false} CountBounds(n: int, step: nat)
    requires step > 0
    ensures var c := Count(n, step);
      (n <= 0 ==> c == 0) && (n > 0 ==> c > 0 && (c - 1) * step < n <= c * step)
    decreases n
  {
    if n > 0 {
      CountBounds(n - step, step);
      var c' := Count(n - step, step);
      assert (c' + 1 - 1) * step == c' * step;
      assert (c' + 1) * step == c' * step + step;
    }
  }

  /** There are `Count(|text| - start, step)` windows from `start` on. */
  lemma {:induction false} WindowsFromLength(text: string, start: nat, size: nat, step: nat)
    requires step > 0
    ensures |WindowsFrom(text, start, size, step)| == Count(|text| - start, step)
    decreases |text| - start
  {
    if start < |text| {
      WindowsFromLength(text, start + step, size, step);
    }
  }

  /** `start + j * step`, counted one stride at a time so that the window
      lemmas need no multiplication. */
  function Offset(start: nat, step: nat, j: nat): (r: nat)
    ensures r >= start
    decreases j
  {
    if j == 0 then start else Offset(start + step, step, j - 1)
  }

  lemma {:induction false} OffsetIsProduct(start: nat, step: nat, j: nat)
    ensures Offset(start, step, j) == start + j * step
    decreases j
  {
    if j > 0 {
      OffsetIsProduct(start + step, step, j - 1);
      StepShift(start, step, j);
    }
  }

  lemma StepShift(start: nat, step: nat, j: nat)
    requires j > 0
    ensures start + step + (j - 1) * step == start + j * step
  {
  }

  /** Window `j` starts at `Offset(start, step, j)` and stops `size` later, or at
      the end of the text. */
  lemma {:induction false} WindowsFromAt(text: string, start: nat, size: nat, step: nat, j: nat)
    requires step > 0
    requires j < |WindowsFrom(text, start, size, step)|
    ensures Offset(start, step, j) < |text|
    ensures WindowsFrom(text, start, size, step)[j] ==
            text[Offset(start, step, j)..Min(Offset(start, step, j) + size, |text|)]
    decreases |text| - start
  {
    var ws := WindowsFrom(text, start, size, step);
    var rest := WindowsFrom(text, start + step, size, step);
    assert ws == [text[start..Min(start + size, |text|)]] + rest;
    if j > 0 {
      WindowsFromAt(text, start + step, size, step, j - 1);
      assert ws[j] == rest[j - 1];
    }
  }

  /** Chunk `j` of `split_text` is `text[j*step : min(j*step + size, len(text))]`,
      so chunks come out in increasing start order, each at most `size` long. */
  lemma ChunkAt(text: string, size: nat, overlap: int, j: nat)
    requires overlap < size
    requires j < |Windows(text, size, overlap)|
    ensures var step := size - overlap;
      j * step < |text| &&
      Windows(text, size, overlap)[j] == text[j * step..Min(j * step + size, |text|)] &&
      |Windows(text, size, overlap)[j]| <= size
  {
    WindowsFromAt(text, 0, size, size - overlap, j);
    OffsetIsProduct(0, size - overlap, j);
  }

  /** `(c - 1) * m + m == c * m`, kept apart so that no other proof carries
      the non-linear step. */
  lemma MulPred(c: int, m: int)
    ensures (c - 1) * m + m == c * m
  {
  }

  /** `split_text` of the empty text has no chunk. */
  lemma SplitEmpty(size: nat, overlap: int)
    requires overlap < size
    ensures Windows("", size, overlap) == []
  {
  }

  /** A non-empty text no longer than one stride is a single chunk: the whole text
      (with a non-negative overlap the stride is at most the window size). */
  lemma SplitShort(text: string, size: nat, overlap: int)
    requires 0 <= overlap < size
    requires 0 < |text| <= size - overlap
    ensures Windows(text, size, overlap) == [text]
  {
    var step := size - overlap;
    var ws := Windows(text, size, overlap);
    WindowsFromLength(text, 0, size, step);
    assert Count(|text|, step) == 1 + Count(|text| - step, step) == 1;
    assert |ws| == 1;
    WindowsFromAt(text, 0, size, step, 0);
    assert ws[0] == text[0..|text|] == text;
    assert ws == [ws[0]];
  }

  /** A text longer than one stride gives at least two chunks, and the last one
      ends exactly at the end of the text. */
  lemma SplitLong(text: string, size: nat, overlap: int)
    requires 0 <= overlap < size
    requires |text| > size - overlap
    ensures var ws := Windows(text, size, overlap);
      |ws| > 1 && |ws[|ws| - 1]| <= |text| &&
      ws[|ws| - 1] == text[|text| - |ws[|ws| - 1]|..]
  {
    var step := size - overlap;
    var ws := Windows(text, size, overlap);
    WindowsFromLength(text, 0, size, step);
    CountBounds(|text|, step);
    var c := |ws|;
    if c <= 1 {
      assert false;
    }
    WindowsFromAt(text, 0, size, step, c - 1);
    OffsetIsProduct(0, step, c - 1);
    var first := (c - 1) * step;
    MulPred(c, step);
    assert first + size >= |text|;
    assert ws[c - 1] == text[first..|text|];
  }

  /** Every character of the text lies in some chunk: character `i` is at offset
      `i - j * step` of chunk `j = i / step` (when the overlap is not negative). */
  lemma Coverage(text: string, size: nat, overlap: int, i: nat)
    requires 0 <= overlap < size
    requires i < |text|
    ensures var step := size - overlap; var j := i / step;
      var ws := Windows(text, size, overlap);
      j < |ws| && j * step <= i < j * step + |ws[j]| && ws[j][i - j * step] == text[i]
  {
    var step := size - overlap;
    var j := i / step;
    var ws := Windows(text, size, overlap);
    var first := j * step;
    DivBounds(i, step);
    IndexBelowCount(|text|, step, j);
    WindowsFromLength(text, 0, size, step);
    WindowsFromAt(text, 0, size, step, j);
    OffsetIsProduct(0, step, j);
    assert ws[j] == text[first..Min(first + size, |text|)];
  }

  /** A window index whose start is below `n` is below `Count(n, step)`. */
  lemma {:induction false} IndexBelowCount(n: int, step: nat, j: nat)
    requires step > 0
    requires j * step < n
    ensures j < Count(n, step)
    decreases n
  {
    if j > 0 {
      StepShift(0, step, j);
      IndexBelowCount(n - step, step, j - 1);
    }
  }

  lemma DivBounds(i: nat, step: nat)
    requires step > 0
    ensures (i / step) * step <= i < (i / step) * step + step
  {
    assert i == (i / step) * step + i % step;
  }

  /** With the defaults 500/100, a text of 401 to 500 characters gives two chunks. */
  lemma DefaultsTwoChunks(text: string)
    requires 400 < |text| <= 500
    ensures |Windows(text, ChunkSize, ChunkOverlap)| == 2
  {
    WindowsFromLength(text, 0, 500, 400);
    assert Count(|text|, 400) == 1 + Count(|text| - 400, 400);
    assert Count(|text| - 400, 400) == 1 + Count(|text| - 800, 400);
  }

  /** `split_text`: a window starting at 0 and advancing by `size - overlap`.
      The source never checks that the stride is positive (the loop would not
      end), so it is a precondition here. */
  method SplitText(text: string, size: nat, overlap: int) returns (chunks: seq<string>)
    requires overlap < size
    ensures chunks == Windows(text, size, overlap)
  {
    chunks := [];
    var start: nat := 0;
    var step: nat := size - overlap;
    while start < |text|
      invariant chunks + WindowsFrom(text, start, size, step) == Windows(text, size, overlap)
      decreases |text| - start
    {
      var end := Min(start + size, |text|);
      chunks := chunks + [text[start..end]];
      start := start + step;
    }
  }

  /** The chunks of one document, tagged with its file name. */
  function Tagged(doc: Document): (r: seq<Chunk>)
    ensures |r| == |Windows(doc.content, ChunkSize, ChunkOverlap)|
  {
    var ws := Windows(doc.content, ChunkSize, ChunkOverlap);
    seq(|ws|, k requires 0 <= k < |ws| => Chunk(ws[k], doc.filename))
  }

  /** What `split_documents(docs)` returns: the tagged chunks of each document,
      in document order. */
  function AllChunks(docs: seq<Document>): seq<Chunk>
  {
    if |docs| == 0 then [] else AllChunks(docs[..|docs| - 1]) + Tagged(docs[|docs| - 1])
  }

  /** Chunking a list of documents is chunking each part and concatenating. */
  lemma {:induction false} AllChunksAppend(a: seq<Document>, b: seq<Document>)
    ensures AllChunks(a + b) == AllChunks(a) + AllChunks(b)
    decreases |b|
  {
    if |b| == 0 {
      assert a + b == a;
    } else {
      var b' := b[..|b| - 1];
      var last := b[|b| - 1];
      assert (a + b)[..|a + b| - 1] == a + b';
      assert (a + b)[|a + b| - 1] == last;
      assert AllChunks(a + b) == AllChunks(a + b') + Tagged(last);
      assert AllChunks(b) == AllChunks(b') + Tagged(last);
      AllChunksAppend(a, b');
    }
  }

  /** The chunks of a document list, cut around document `d`. */
  lemma AllChunksAround(docs: seq<Document>, d: nat)
    requires d < |docs|
    ensures AllChunks(docs) == AllChunks(docs[..d]) + (Tagged(docs[d]) + AllChunks(docs[d + 1..]))
  {
    var pre, mid, post := docs[..d], [docs[d]], docs[d + 1..];
    assert docs[d..] == mid + post by {
      assert docs[d..] == [docs[d..][0]] + docs[d..][1..];
    }
    assert docs == pre + docs[d..];
    AllChunksAppend(pre, mid + post);
    AllChunksAppend(mid, post);
    assert AllChunks(mid) == Tagged(docs[d]) by {
      assert mid[..0] == [];
    }
  }

  /** Nothing is reordered or dropped: chunk `k` of document `d` sits at position
      `|AllChunks(docs[..d])| + k`, holds window `k` of that document's text and
      carries that document's file name. */
  lemma ChunkOfDocument(docs: seq<Document>, d: nat, k: nat)
    requires d < |docs|
    requires k < |Windows(docs[d].content, ChunkSize, ChunkOverlap)|
    ensures var off := |AllChunks(docs[..d])|;
      off + k < |AllChunks(docs)| &&
      AllChunks(docs)[off + k] ==
        Chunk(Windows(docs[d].content, ChunkSize, ChunkOverlap)[k], docs[d].filename)
  {
    AllChunksAround(docs, d);
    var a, t, b := AllChunks(docs[..d]), Tagged(docs[d]), AllChunks(docs[d + 1..]);
    assert (a + (t + b))[|a| + k] == (t + b)[k] == t[k];
  }

  /** `split_documents`: nested loops appending the tagged chunks of every document. */
  method SplitDocuments(docs: seq<Document>) returns (all: seq<Chunk>)
    ensures all == AllChunks(docs)
  {
    all := [];
    for i := 0 to |docs|
      invariant all == AllChunks(docs[..i])
    {
      var chunks := SplitText(docs[i].content, ChunkSize, ChunkOverlap);
      ghost var before := all;
      for k := 0 to |chunks|
        invariant all == before + Tagged(docs[i])[..k]
      {
        all := all + [Chunk(chunks[k], docs[i].filename)];
      }
      assert docs[..i + 1][..i] == docs[..i];
    }
    assert docs[..|docs|] == docs;
  }
}
