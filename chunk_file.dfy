/** The persisted chunk-text file `chunks.txt`: written one chunk per line,
    read back line by line with `strip()`. */
module ChunkFile {
  import opened PyStr

  /** No line-break character Python's text-mode reader splits on. */
  predicate Clean(s: string) {
    '\n' !in s && '\r' !in s
  }

  /** A chunk that survives a write and a read unchanged. */
  predicate Storable(c: string) {
    Clean(c) && Stripped(c)
  }

  /** The content the write loop leaves in the file: every chunk followed by "\n".
      The file is empty exactly when there is no chunk, and otherwise ends in "\n". */
  function WriteChunks(chunks: seq<string>): (r: string)
    ensures |r| == 0 <==> |chunks| == 0
    ensures |r| > 0 ==> r[|r| - 1] == '\n'
  {
    if |chunks| == 0 then "" else chunks[0] + "\n" + WriteChunks(chunks[1..])
  }

  /** Universal-newline decoding of a text-mode read: "\r\n" and a lone "\r"
      both become "\n". */
  function Universal(s: string): (r: string)
    ensures '\r' !in r
    decreases |s|
  {
    if |s| == 0 then ""
    else if s[0] == '\r' then
      (if |s| > 1 && s[1] == '\n' then "\n" + Universal(s[2..]) else "\n" + Universal(s[1..]))
    else [s[0]] + Universal(s[1..])
  }

  lemma {:induction false} UniversalIdentity(s: string)
    requires '\r' !in s
    ensures Universal(s) == s
    decreases |s|
  {
    if |s| > 0 {
      UniversalIdentity(s[1..]);
      assert s == [s[0]] + s[1..];
    }
  }

  /** The lines `for line in f` yields from decoded text `s`, `cur` being the part
      of the current line already read: every line keeps its "\n", and a last line
      without one is yielded as it is. */
  function LinesFrom(s: string, cur: string): seq<string>
    decreases |s|
  {
    if |s| == 0 then (if |cur| == 0 then [] else [cur])
    else if s[0] == '\n' then [cur + "\n"] + LinesFrom(s[1..], "")
    else LinesFrom(s[1..], cur + [s[0]])
  }

  function Lines(s: string): seq<string> {
    LinesFrom(s, "")
  }

  /** `[line.strip() for line in f]` over a file whose content is `content`. */
  function ReadChunks(content: string): (r: seq<string>)
    ensures forall k :: 0 <= k < |r| ==> Storable(r[k])
  {
    var ls := Lines(Universal(content));
    LinesStorable(Universal(content));
    seq(|ls|, i requires 0 <= i < |ls| => Strip(ls[i]))
  }

  lemma CleanStrip(y: string)
    requires Clean(y)
    ensures Storable(Strip(y)) && Strip(y + "\n") == Strip(y)
  {
    StripDropsNewline(y);
  }

  /** A line as the reader yields it: clean text, with or without one final "\n". */
  predicate LineShape(l: string) {
    Clean(l) || (|l| > 0 && l[|l| - 1] == '\n' && Clean(l[..|l| - 1]))
  }

  lemma StripLine(l: string)
    requires LineShape(l)
    ensures Storable(Strip(l))
  {
    if !Clean(l) {
      assert l == l[..|l| - 1] + "\n";
      CleanStrip(l[..|l| - 1]);
    } else {
      CleanStrip(l);
    }
  }

  /** Every line of decoded text has the shape above. */
  lemma {:induction false} LinesShape(s: string, cur: string)
    requires '\r' !in s && Clean(cur)
    ensures forall k :: 0 <= k < |LinesFrom(s, cur)| ==> LineShape(LinesFrom(s, cur)[k])
    decreases |s|
  {
    if |s| == 0 {
    } else if s[0] == '\n' {
      LinesShape(s[1..], "");
      assert (cur + "\n")[..|cur|] == cur;
    } else {
      assert s[0] in s;
      LinesShape(s[1..], cur + [s[0]]);
    }
  }

  /** Every line of decoded text strips to a storable chunk. */
  lemma LinesStorable(s: string)
    requires '\r' !in s
    ensures forall k :: 0 <= k < |Lines(s)| ==> Storable(Strip(Lines(s)[k]))
  {
    LinesShape(s, "");
    forall k | 0 <= k < |Lines(s)| ensures Storable(Strip(Lines(s)[k])) {
      StripLine(Lines(s)[k]);
    }
  }

  /** Reading stops a line at the first "\n" of the rest. */
  lemma {:induction false} LinesFromLine(c: string, rest: string, cur: string)
    requires '\n' !in c
    ensures LinesFrom(c + "\n" + rest, cur) == [cur + c + "\n"] + LinesFrom(rest, "")
    decreases |c|
  {
    if |c| == 0 {
      assert c + "\n" + rest == "\n" + rest;
      assert ("\n" + rest)[1..] == rest;
      assert cur + c + "\n" == cur + "\n";
    } else {
      assert (c + "\n" + rest)[1..] == c[1..] + "\n" + rest;
      assert c[0] in c;
      LinesFromLine(c[1..], rest, cur + [c[0]]);
      assert cur + [c[0]] + c[1..] == cur + c;
    }
  }

  lemma {:induction false} WrittenLines(chunks: seq<string>)
    requires forall k :: 0 <= k < |chunks| ==> '\n' !in chunks[k]
    ensures Lines(WriteChunks(chunks)) == seq(|chunks|, i requires 0 <= i < |chunks| => chunks[i] + "\n")
    decreases |chunks|
  {
    if |chunks| > 0 {
      WrittenLines(chunks[1..]);
      LinesFromLine(chunks[0], WriteChunks(chunks[1..]), "");
      assert "" + chunks[0] == chunks[0];
    }
  }

  lemma {:induction false} WrittenHasNoCR(chunks: seq<string>)
    requires forall k :: 0 <= k < |chunks| ==> Clean(chunks[k])
    ensures '\r' !in WriteChunks(chunks)
    decreases |chunks|
  {
    if |chunks| > 0 { WrittenHasNoCR(chunks[1..]); }
  }

  /** Chunks free of line breaks come back from the file stripped: surrounding
      whitespace is lost, nothing else. */
  lemma ReadWrittenClean(chunks: seq<string>)
    requires forall k :: 0 <= k < |chunks| ==> Clean(chunks[k])
    ensures ReadChunks(WriteChunks(chunks)) ==
            seq(|chunks|, i requires 0 <= i < |chunks| => Strip(chunks[i]))
  {
    WrittenHasNoCR(chunks);
    UniversalIdentity(WriteChunks(chunks));
    WrittenLines(chunks);
    forall i | 0 <= i < |chunks| ensures Strip(chunks[i] + "\n") == Strip(chunks[i]) {
      StripDropsNewline(chunks[i]);
    }
  }

  /** Reading `chunks.txt` back gives exactly the written list if and only if no
      chunk holds a line break or surrounding whitespace. */
  lemma RoundTrip(chunks: seq<string>)
    ensures ReadChunks(WriteChunks(chunks)) == chunks <==>
            forall k :: 0 <= k < |chunks| ==> Storable(chunks[k])
  {
    if forall k :: 0 <= k < |chunks| ==> Storable(chunks[k]) {
      ReadWrittenClean(chunks);
      forall i | 0 <= i < |chunks| ensures Strip(chunks[i]) == chunks[i] {
        StripIdentity(chunks[i]);
      }
    }
  }

  /** A chunk with an inner newline comes back as two chunks, so the reloaded
      text list no longer lines up with the stored vectors. */
  lemma MultilineChunkSplits(x: string, y: string)
    requires Storable(x) && Storable(y)
    ensures ReadChunks(WriteChunks([x + "\n" + y])) == [x, y]
  {
    var parts := [x, y];
    assert forall k :: 0 <= k < |parts| ==> Storable(parts[k]);
    RoundTrip(parts);
    WriteInnerNewline(x, y);
  }

  /** Writing `x + "\n" + y` as one chunk writes the same file as `x` and `y`. */
  lemma WriteInnerNewline(x: string, y: string)
    ensures WriteChunks([x + "\n" + y]) == WriteChunks([x, y])
  {
    assert [x + "\n" + y][1..] == [] && [x, y][1..] == [y] && [y][1..] == [];
    assert WriteChunks([]) == "";
    assert WriteChunks([y]) == y + "\n";
  }

  /** A line-per-chunk format that keeps every chunk: backslash, line feed and
      carriage return are written as two-character escapes, so no escaped chunk
      holds a line break. */
  function Escape(c: string): (r: string)
    ensures Clean(r)
  {
    if |c| == 0 then ""
    else
      (if c[0] == '\\' then "\\\\" else if c[0] == '\n' then "\\n"
       else if c[0] == '\r' then "\\r" else [c[0]]) + Escape(c[1..])
  }

  function Unescape(e: string): string
  {
    if |e| == 0 then ""
    else if e[0] == '\\' && |e| > 1 then
      (if e[1] == 'n' then "\n" else if e[1] == 'r' then "\r" else [e[1]]) + Unescape(e[2..])
    else [e[0]] + Unescape(e[1..])
  }

  lemma {:induction false} UnescapeEscape(c: string)
    ensures Unescape(Escape(c)) == c
    decreases |c|
  {
    if |c| > 0 {
      UnescapeEscape(c[1..]);
      var rest := Escape(c[1..]);
      var e := Escape(c);
      if c[0] == '\\' || c[0] == '\n' || c[0] == '\r' {
        assert e[2..] == rest;
      } else {
        assert e[1..] == rest;
      }
      assert c == [c[0]] + c[1..];
    }
  }

  /** A line as the reader yields it, without its final "\n". */
  function DropNewline(l: string): string {
    if |l| > 0 && l[|l| - 1] == '\n' then l[..|l| - 1] else l
  }

  /** Writing with the escapes. */
  function WriteChunksFixed(chunks: seq<string>): string {
    WriteChunks(seq(|chunks|, i requires 0 <= i < |chunks| => Escape(chunks[i])))
  }

  /** Reading with the escapes: each line loses its "\n" and is unescaped; no
      `strip()`. */
  function ReadChunksFixed(content: string): seq<string> {
    var ls := Lines(Universal(content));
    seq(|ls|, i requires 0 <= i < |ls| => Unescape(DropNewline(ls[i])))
  }

  /** With the escapes, every list of chunks reads back unchanged, so line `i` of
      the file still belongs to vector `i`. */
  lemma FixedRoundTrip(chunks: seq<string>)
    ensures ReadChunksFixed(WriteChunksFixed(chunks)) == chunks
  {
    var es := seq(|chunks|, i requires 0 <= i < |chunks| => Escape(chunks[i]));
    var content := WriteChunks(es);
    assert forall k :: 0 <= k < |es| ==> Clean(es[k]);
    WrittenHasNoCR(es);
    UniversalIdentity(content);
    WrittenLines(es);
    var ls := Lines(content);
    var r := ReadChunksFixed(content);
    assert |r| == |chunks|;
    forall i | 0 <= i < |chunks| ensures r[i] == chunks[i] {
      assert ls[i] == es[i] + "\n";
      assert DropNewline(ls[i]) == es[i];
      UnescapeEscape(chunks[i]);
    }
  }
}
