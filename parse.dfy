/** The text chunker and the PDF ingestion entry point of
    `backend/parse/parse.py`.

    A window of `chunkSize` characters slides over the text with stride
    `step = chunkSize - chunkOverlap`; window number `k` starts at `k * step`,
    and windows are taken for every start below the text length. Each
    window is stripped of surrounding whitespace and kept only when
    something is left. */
module Parse {
  import opened Wrappers
  import opened PyStr

  /** The three `ValueError`s the chunker raises, in the order it checks them. */
  datatype ChunkError = ChunkSizeNotPositive | OverlapNegative | OverlapNotSmaller

  const DefaultChunkSize: int := 800
  const DefaultChunkOverlap: int := 100

  // ---------------------------------------------------------------- windows

  /** The start of window `k`: `k * step`, reached by adding the stride
      `k` times as `range(0, len, step)` does. */
  function Start(step: nat, k: nat): (s: nat)
  {
    if k == 0 then 0 else Start(step, k - 1) + step
  }

  lemma {:induction false} StartIsProduct(step: nat, k: nat)
    ensures Start(step, k) == k * step
  {
    if k > 0 {
      StartIsProduct(step, k - 1);
      assert (k - 1) * step + step == k * step;
    }
  }

  /** The number of window starts `0, step, 2*step, ...` below `len`. */
  function WindowCount(len: nat, step: nat): nat
    requires step > 0
  {
    if len == 0 then 0 else if len <= step then 1 else 1 + WindowCount(len - step, step)
  }

  /** Window `k` starts below the text length exactly when `k` is below
      the window count: the starts `range(0, len, step)` visits are those of
      windows `0 .. WindowCount(len, step) - 1`. */
  lemma {:induction false} WindowStartBelowLength(len: nat, step: nat, k: nat)
    requires step > 0
    ensures Start(step, k) < len <==> k < WindowCount(len, step)
  {
    if k > 0 && len > step {
      WindowStartBelowLength(len - step, step, k - 1);
      StartShift(step, k);
    } else if k > 0 {
      StartAtLeastStride(step, k);
    }
  }

  lemma {:induction false} StartShift(step: nat, k: nat)
    requires k > 0
    ensures Start(step, k) == step + Start(step, k - 1)
  {
  }

  lemma {:induction false} StartAtLeastStride(step: nat, k: nat)
    requires k > 0
    ensures Start(step, k) >= step
  {
  }

  /** `WindowCount(len, step)` is `ceil(len / step)`: the least `n` with
      `len <= n * step`. */
  lemma WindowCountIsCeiling(len: nat, step: nat)
    requires step > 0
    ensures len <= WindowCount(len, step) * step
    ensures WindowCount(len, step) > 0 ==> (WindowCount(len, step) - 1) * step < len
  {
    var n := WindowCount(len, step);
    WindowStartBelowLength(len, step, n);
    StartIsProduct(step, n);
    if n > 0 {
      WindowStartBelowLength(len, step, n - 1);
      StartIsProduct(step, n - 1);
    }
  }

  /** The raw window `text[k*step : k*step + size]`. */
  function Window(text: string, size: nat, step: nat, k: nat): string
  {
    Slice(text, Start(step, k), Start(step, k) + size)
  }

  /** The stripped windows `0 .. n - 1`, in order. */
  function Pieces(text: string, size: nat, step: nat, n: nat): (ps: seq<string>)
    ensures |ps| == n
  {
    if n == 0 then [] else Pieces(text, size, step, n - 1) + [Strip(Window(text, size, step, n - 1))]
  }

  lemma {:induction false} PiecesAt(text: string, size: nat, step: nat, n: nat, k: nat)
    requires k < n
    ensures Pieces(text, size, step, n)[k] == Strip(Window(text, size, step, k))
  {
    var init := Pieces(text, size, step, n - 1);
    assert Pieces(text, size, step, n) == init + [Strip(Window(text, size, step, n - 1))];
    if k < n - 1 {
      PiecesAt(text, size, step, n - 1, k);
      assert Pieces(text, size, step, n)[k] == init[k];
    }
  }

  /** The non-empty strings of `ps`, in order (the `if chunk:` filter). */
  function NonEmpty(ps: seq<string>): seq<string>
  {
    if ps == [] then []
    else NonEmpty(ps[..|ps| - 1]) + (if ps[|ps| - 1] == [] then [] else [ps[|ps| - 1]])
  }

  /** The positions of the non-empty strings of `ps`, in order. */
  function NonEmptyIndices(ps: seq<string>): seq<nat>
  {
    if ps == [] then []
    else NonEmptyIndices(ps[..|ps| - 1]) + (if ps[|ps| - 1] == [] then [] else [|ps| - 1])
  }

  /** The chunks produced by the first `n` windows: the stripped windows
      that are not empty, in window order. */
  function Chunks(text: string, size: nat, step: nat, n: nat): seq<string>
  {
    NonEmpty(Pieces(text, size, step, n))
  }

  /** `out` keeps exactly the non-empty strings of `ps`, in order, with
      `idx` telling where each came from: every element of `out` is a
      non-empty element of `ps`, positions increase, and no non-empty
      element of `ps` is skipped. */
  ghost predicate Selects(idx: seq<nat>, out: seq<string>, ps: seq<string>)
  {
    && |idx| == |out|
    && (forall i :: 0 <= i < |idx| ==> idx[i] < |ps| && out[i] != [] && out[i] == ps[idx[i]])
    && (forall i, j :: 0 <= i < j < |idx| ==> idx[i] < idx[j])
    && (forall k :: 0 <= k < |ps| && ps[k] != [] ==> k in idx)
  }

  /** The filter keeps exactly the non-empty strings, in order. */
  lemma {:induction false} NonEmptySelects(ps: seq<string>)
    ensures Selects(NonEmptyIndices(ps), NonEmpty(ps), ps)
  {
    if ps != [] {
      var init := ps[..|ps| - 1];
      NonEmptySelects(init);
      var idx, out := NonEmptyIndices(init), NonEmpty(init);
      var last := ps[|ps| - 1];
      if last != [] {
        var idx', out' := idx + [|ps| - 1], out + [last];
        forall k | 0 <= k < |ps| && ps[k] != [] ensures k in idx' {
          if k < |ps| - 1 { assert init[k] == ps[k]; assert k in idx; } else { assert idx'[|idx|] == k; }
        }
        assert Selects(idx', out', ps);
      } else {
        forall k | 0 <= k < |ps| && ps[k] != [] ensures k in idx {
          assert init[k] == ps[k];
        }
      }
    }
  }

  /** Conversely, whatever keeps exactly the non-empty strings in order is
      the filter's output. */
  lemma {:induction false} SelectionIsUnique(idx: seq<nat>, out: seq<string>, ps: seq<string>)
    requires Selects(idx, out, ps)
    ensures out == NonEmpty(ps) && idx == NonEmptyIndices(ps)
    decreases |ps|, 1
  {
    assert idx != [] ==> idx[0] < |ps|;
    if ps == [] {
    } else if ps[|ps| - 1] != [] {
      UniqueWhenLastKept(idx, out, ps);
    } else {
      UniqueWhenLastDropped(idx, out, ps);
    }
  }

  lemma {:induction false} UniqueWhenLastKept(idx: seq<nat>, out: seq<string>, ps: seq<string>)
    requires Selects(idx, out, ps) && ps != [] && ps[|ps| - 1] != []
    ensures out == NonEmpty(ps) && idx == NonEmptyIndices(ps)
    decreases |ps|, 0
  {
    var init, last := ps[..|ps| - 1], |idx| - 1;
    SelectsLastKept(idx, out, ps);
    SelectionIsUnique(idx[..last], out[..last], init);
    assert NonEmpty(ps) == NonEmpty(init) + [ps[|ps| - 1]];
    assert NonEmptyIndices(ps) == NonEmptyIndices(init) + [|ps| - 1];
    assert idx == idx[..last] + [|ps| - 1];
    assert out == out[..last] + [ps[|ps| - 1]];
  }

  lemma {:induction false} UniqueWhenLastDropped(idx: seq<nat>, out: seq<string>, ps: seq<string>)
    requires Selects(idx, out, ps) && ps != [] && ps[|ps| - 1] == []
    ensures out == NonEmpty(ps) && idx == NonEmptyIndices(ps)
    decreases |ps|, 0
  {
    var init := ps[..|ps| - 1];
    SelectsLastDropped(idx, out, ps);
    SelectionIsUnique(idx, out, init);
    assert NonEmpty(ps) == NonEmpty(init);
    assert NonEmptyIndices(ps) == NonEmptyIndices(init);
  }

  /** When the last string is non-empty, it is the last one selected, and
      the rest of the selection is a selection of the other strings. */
  lemma SelectsLastKept(idx: seq<nat>, out: seq<string>, ps: seq<string>)
    requires Selects(idx, out, ps) && ps != [] && ps[|ps| - 1] != []
    ensures |idx| > 0 && idx[|idx| - 1] == |ps| - 1 && out[|out| - 1] == ps[|ps| - 1]
    ensures Selects(idx[..|idx| - 1], out[..|out| - 1], ps[..|ps| - 1])
  {
    var n := |ps|;
    assert n - 1 in idx;
    var last := |idx| - 1;
    var j :| 0 <= j < |idx| && idx[j] == n - 1;
    assert j == last;
    forall i | 0 <= i < last ensures idx[i] < n - 1 {
      assert idx[i] < idx[last];
    }
    SelectsDropLast(idx, out, ps);
  }

  /** When the last string is empty, nothing selected comes from it. */
  lemma SelectsLastDropped(idx: seq<nat>, out: seq<string>, ps: seq<string>)
    requires Selects(idx, out, ps) && ps != [] && ps[|ps| - 1] == []
    ensures Selects(idx, out, ps[..|ps| - 1])
  {
    var n, init := |ps|, ps[..|ps| - 1];
    forall i | 0 <= i < |idx| ensures idx[i] < n - 1 {
      assert out[i] == ps[idx[i]] != [];
    }
    forall k | 0 <= k < n - 1 && init[k] != [] ensures k in idx {
      assert ps[k] == init[k];
    }
  }

  /** Dropping the last string of `ps` from a selection whose last element
      comes from it. */
  lemma SelectsDropLast(idx: seq<nat>, out: seq<string>, ps: seq<string>)
    requires Selects(idx, out, ps) && |idx| > 0 && idx[|idx| - 1] == |ps| - 1
    requires forall i :: 0 <= i < |idx| - 1 ==> idx[i] < |ps| - 1
    ensures Selects(idx[..|idx| - 1], out[..|out| - 1], ps[..|ps| - 1])
  {
    var last, init := |idx| - 1, ps[..|ps| - 1];
    forall k | 0 <= k < |init| && init[k] != [] ensures k in idx[..last] {
      assert ps[k] == init[k];
      assert k in idx;
      var j :| 0 <= j < |idx| && idx[j] == k;
      assert idx[..last][j] == k;
    }
  }

  /** The filter keeps at most as many strings as it is given. */
  lemma {:induction false} NonEmptyCount(ps: seq<string>)
    ensures |NonEmpty(ps)| <= |ps|
  {
    if ps != [] {
      NonEmptyCount(ps[..|ps| - 1]);
    }
  }

  /** A non-empty first string is kept first. */
  lemma {:induction false} NonEmptyFirst(ps: seq<string>)
    requires |ps| > 0 && ps[0] != []
    ensures |NonEmpty(ps)| >= 1 && NonEmpty(ps)[0] == ps[0]
  {
    if |ps| > 1 {
      NonEmptyFirst(ps[..|ps| - 1]);
    }
  }

  /** The chunks of `n` windows are exactly the windows that still hold
      something after stripping, each stripped, in increasing window
      order: `KeptWindows` lists those windows. */
  function KeptWindows(text: string, size: nat, step: nat, n: nat): seq<nat>
  {
    NonEmptyIndices(Pieces(text, size, step, n))
  }

  lemma ChunksAreKeptWindows(text: string, size: nat, step: nat, n: nat)
    ensures var idx, out := KeptWindows(text, size, step, n), Chunks(text, size, step, n);
            && |idx| == |out|
            && (forall i, j :: 0 <= i < j < |idx| ==> idx[i] < idx[j])
            && (forall i :: 0 <= i < |idx| ==>
                  idx[i] < n && out[i] != [] && out[i] == Strip(Window(text, size, step, idx[i])))
            && (forall k :: 0 <= k < n && Strip(Window(text, size, step, k)) != [] ==> k in idx)
  {
    var ps := Pieces(text, size, step, n);
    NonEmptySelects(ps);
    var idx := KeptWindows(text, size, step, n);
    forall i | 0 <= i < |idx| ensures ps[idx[i]] == Strip(Window(text, size, step, idx[i])) {
      PiecesAt(text, size, step, n, idx[i]);
    }
    forall k | 0 <= k < n && Strip(Window(text, size, step, k)) != [] ensures k in idx {
      PiecesAt(text, size, step, n, k);
    }
  }

  /** Conversely, any sequence that lists the non-empty stripped windows in
      increasing window order is the chunker's output. */
  lemma ChunksUnique(idx: seq<nat>, out: seq<string>, text: string, size: nat, step: nat, n: nat)
    requires |idx| == |out|
    requires forall i, j :: 0 <= i < j < |idx| ==> idx[i] < idx[j]
    requires forall i :: 0 <= i < |idx| ==>
               idx[i] < n && out[i] != [] && out[i] == Strip(Window(text, size, step, idx[i]))
    requires forall k :: 0 <= k < n && Strip(Window(text, size, step, k)) != [] ==> k in idx
    ensures out == Chunks(text, size, step, n)
  {
    var ps := Pieces(text, size, step, n);
    forall i | 0 <= i < |idx| ensures out[i] == ps[idx[i]] {
      PiecesAt(text, size, step, n, idx[i]);
    }
    forall k | 0 <= k < n && ps[k] != [] ensures k in idx {
      PiecesAt(text, size, step, n, k);
    }
    SelectionIsUnique(idx, out, ps);
  }

  /** Every chunk is non-empty, already stripped, no longer than `size`,
      and a contiguous piece of `text` lying inside its window. */
  lemma ChunkIsTrimmedSubstring(text: string, size: nat, step: nat, n: nat, i: nat)
    requires i < |Chunks(text, size, step, n)|
    ensures |KeptWindows(text, size, step, n)| == |Chunks(text, size, step, n)|
    ensures var c := Chunks(text, size, step, n)[i];
            var k := KeptWindows(text, size, step, n)[i];
            && c != [] && Strip(c) == c && |c| <= size
            && Start(step, k) < |text|
            && OccursAt(c, text, Start(step, k) + StripOffset(Window(text, size, step, k)))
  {
    ChunkAt(text, size, step, n, i);
    var k := KeptWindows(text, size, step, n)[i];
    StrippedWindow(text, Start(step, k), size, Window(text, size, step, k));
  }

  /** Stripping the window `w` of `size` characters at `lo` leaves something
      only when `lo` lies inside the text, and what it leaves is a stripped
      piece of the text, no longer than the window. */
  lemma StrippedWindow(text: string, lo: nat, size: nat, w: string)
    requires w == Slice(text, lo, lo + size) && Strip(w) != []
    ensures lo < |text| && Strip(Strip(w)) == Strip(w) && |Strip(w)| <= size
    ensures OccursAt(Strip(w), text, lo + StripOffset(w))
  {
    StripIdempotent(w);
    StripSpec(w);
    OccursWithin(Strip(w), w, text, StripOffset(w), lo);
  }

  /** Chunk `i` is the stripped window that `KeptWindows` names for it. */
  lemma ChunkAt(text: string, size: nat, step: nat, n: nat, i: nat)
    requires i < |Chunks(text, size, step, n)|
    ensures |KeptWindows(text, size, step, n)| == |Chunks(text, size, step, n)|
    ensures var k := KeptWindows(text, size, step, n)[i];
            && k < n && Chunks(text, size, step, n)[i] != []
            && Chunks(text, size, step, n)[i] == Strip(Window(text, size, step, k))
  {
    var ps := Pieces(text, size, step, n);
    NonEmptySelects(ps);
    PiecesAt(text, size, step, n, KeptWindows(text, size, step, n)[i]);
  }

  /** At most one chunk per window. */
  lemma ChunkCountBound(text: string, size: nat, step: nat, n: nat)
    ensures |Chunks(text, size, step, n)| <= n
  {
    NonEmptyCount(Pieces(text, size, step, n));
  }

  /** A text that starts with a non-whitespace character always yields a
      chunk, and the first chunk is the first window stripped. */
  lemma LeadingNonSpaceGivesChunk(text: string, size: nat, step: nat, n: nat)
    requires size > 0 && n >= 1 && |text| > 0 && !IsSpace(text[0])
    ensures |Chunks(text, size, step, n)| >= 1
    ensures Chunks(text, size, step, n)[0] == Strip(Window(text, size, step, 0))
  {
    var w := Window(text, size, step, 0);
    assert w[0] == text[0];
    StripSpec(w);
    PiecesAt(text, size, step, n, 0);
    NonEmptyFirst(Pieces(text, size, step, n));
  }

  /** Consecutive raw windows share `size - step` (the overlap) characters:
      when window `k` is full, its tail after the first stride is the head
      of window `k + 1`. */
  lemma RawWindowsOverlap(text: string, size: nat, step: nat, k: nat)
    requires 0 < step <= size && Start(step, k) + size <= |text|
    ensures |Window(text, size, step, k)| == size
    ensures |Window(text, size, step, k + 1)| >= size - step
    ensures Window(text, size, step, k)[step..] == Window(text, size, step, k + 1)[..size - step]
  {
    var s := Start(step, k);
    assert Start(step, k + 1) == s + step;
    var w0, w1 := Window(text, size, step, k), Window(text, size, step, k + 1);
    assert w0 == text[s..s + size];
    if step < size {
      var e := Min(s + step + size, |text|);
      assert s + step < |text| && s + size <= e;
      assert w1 == text[s + step..e];
      forall i | 0 <= i < size - step
        ensures w0[step..][i] == w1[..size - step][i]
      {
        assert w0[step + i] == text[s + step + i] == w1[i];
      }
    } else {
      assert w0[step..] == [];
    }
  }

  // ---------------------------------------------------------------- chunker

  /** What `_chunk_text(text, chunk_size, chunk_overlap)` returns or raises. */
  function Chunked(text: string, chunkSize: int, chunkOverlap: int): (r: Result<seq<string>, ChunkError>)
    ensures chunkSize <= 0 ==> r == Err(ChunkSizeNotPositive)
    ensures chunkSize > 0 && chunkOverlap < 0 ==> r == Err(OverlapNegative)
    ensures chunkSize > 0 && 0 <= chunkOverlap && chunkSize <= chunkOverlap ==> r == Err(OverlapNotSmaller)
    ensures r.Ok? <==> 0 <= chunkOverlap < chunkSize
    ensures r.Ok? && text == [] ==> r.value == []
  {
    if chunkSize <= 0 then Err(ChunkSizeNotPositive)
    else if chunkOverlap < 0 then Err(OverlapNegative)
    else if chunkOverlap >= chunkSize then Err(OverlapNotSmaller)
    else if text == [] then Ok([])
    else Ok(SlidingChunks(text, chunkSize, chunkSize - chunkOverlap))
  }

  /** The chunks of every window whose start lies below the text length. */
  function SlidingChunks(text: string, size: nat, step: nat): seq<string>
    requires step > 0
  {
    Chunks(text, size, step, WindowCount(|text|, step))
  }

  lemma ChunkedValid(text: string, chunkSize: nat, chunkOverlap: nat, step: nat)
    requires chunkOverlap < chunkSize && step == chunkSize - chunkOverlap && text != []
    ensures Chunked(text, chunkSize, chunkOverlap) == Ok(SlidingChunks(text, chunkSize, step))
  {
  }

  /** When the window start has passed the end of the text, the windows
      seen so far are all the windows. */
  lemma LoopExit(text: string, chunkSize: nat, chunkOverlap: nat, step: nat, k: nat, chunks: seq<string>)
    requires chunkOverlap < chunkSize && step == chunkSize - chunkOverlap && text != []
    requires |text| <= Start(step, k) && k <= WindowCount(|text|, step)
    requires chunks == Chunks(text, chunkSize, step, k)
    ensures Ok(chunks) == Chunked(text, chunkSize, chunkOverlap)
  {
    WindowStartBelowLength(|text|, step, k);
    assert k == WindowCount(|text|, step);
    assert chunks == SlidingChunks(text, chunkSize, step);
    ChunkedValid(text, chunkSize, chunkOverlap, step);
  }

  /** One turn of the chunker's loop: the window at `start` is window `k`,
      and the chunks of `k + 1` windows are those of `k` windows followed by
      the stripped window when it is not empty. */
  lemma ChunksStep(text: string, size: nat, step: nat, k: nat, start: nat, end: nat, chunk: string)
    requires start == Start(step, k) && end == start + size && chunk == Strip(Slice(text, start, end))
    ensures Chunks(text, size, step, k + 1) == Chunks(text, size, step, k) + (if chunk == [] then [] else [chunk])
    ensures start + step == Start(step, k + 1)
  {
    assert Window(text, size, step, k) == Slice(text, start, end);
    var ps := Pieces(text, size, step, k + 1);
    assert ps == Pieces(text, size, step, k) + [chunk];
    assert ps[..k] == Pieces(text, size, step, k);
  }

  /** `_chunk_text`: validates the parameters, then slides the window and
      appends every non-empty stripped window to `chunks`. */
  method ChunkText(text: string, chunkSize: int, chunkOverlap: int) returns (r: Result<seq<string>, ChunkError>)
    ensures r == Chunked(text, chunkSize, chunkOverlap)
  {
    if chunkSize <= 0 {
      return Err(ChunkSizeNotPositive);
    }
    if chunkOverlap < 0 {
      return Err(OverlapNegative);
    }
    if chunkOverlap >= chunkSize {
      return Err(OverlapNotSmaller);
    }
    if |text| == 0 {
      return Ok([]);
    }
    var step: nat := chunkSize - chunkOverlap;
    var chunks: seq<string> := [];
    var start: nat := 0;
    ghost var k: nat := 0;
    while start < |text|
      invariant start == Start(step, k)
      invariant k <= WindowCount(|text|, step)
      invariant chunks == Chunks(text, chunkSize, step, k)
    {
      WindowStartBelowLength(|text|, step, k);
      var end: nat := start + chunkSize;
      var chunk := Strip(Slice(text, start, end));
      ChunksStep(text, chunkSize, step, k, start, end, chunk);
      if chunk != [] {
        chunks := chunks + [chunk];
      }
      start := start + step;
      k := k + 1;
    }
    LoopExit(text, chunkSize, chunkOverlap, step, k, chunks);
    return Ok(chunks);
  }

  /** On valid parameters the chunker returns at most `ceil(len / step)`
      chunks, each non-empty, already stripped, at most `chunkSize` long,
      and a contiguous piece of the text. */
  lemma ChunkedOutput(text: string, chunkSize: int, chunkOverlap: int)
    requires Chunked(text, chunkSize, chunkOverlap).Ok?
    ensures var cs := Chunked(text, chunkSize, chunkOverlap).value;
            && |cs| <= WindowCount(|text|, chunkSize - chunkOverlap)
            && forall c :: c in cs ==>
                 c != [] && Strip(c) == c && |c| <= chunkSize && exists o: nat :: OccursAt(c, text, o)
  {
    var step := chunkSize - chunkOverlap;
    var n := WindowCount(|text|, step);
    var cs := Chunked(text, chunkSize, chunkOverlap).value;
    if text != [] {
      ChunkedValid(text, chunkSize, chunkOverlap, step);
      assert cs == Chunks(text, chunkSize, step, n);
      ChunkCountBound(text, chunkSize, step, n);
      forall c | c in cs
        ensures c != [] && Strip(c) == c && |c| <= chunkSize && exists o: nat :: OccursAt(c, text, o)
      {
        var i :| 0 <= i < |cs| && cs[i] == c;
        ChunkIsTrimmedSubstring(text, chunkSize, step, n, i);
      }
    }
  }

  // ------------------------------------------------------------- ingestion

  /** The only failure of `parse_pdf_bytes` the types leave open. */
  datatype ParseError = EmptyPdf

  /** The `metadata` entry of the parse result. */
  datatype ParserMetadata = ParserMetadata(parser: string, chunkSize: int, chunkOverlap: int)

  /** The dictionary `parse_pdf_bytes` returns. */
  datatype ParsedPdf = ParsedPdf(
    filename: string,
    byteSize: nat,
    pageCount: Option<nat>,
    chunks: seq<string>,
    metadata: ParserMetadata)

  const DefaultFilename: string := "uploaded.pdf"
  const PlaceholderPrefix: string := "Placeholder extracted content from "

  /** The stand-in for text extraction: a fixed sentence naming the file;
      the bytes themselves are never read. */
  function PlaceholderText(filename: Option<string>): (r: string)
    ensures |r| > |PlaceholderPrefix| && !IsSpace(r[0])
  {
    PlaceholderPrefix + OrDefault(filename, DefaultFilename)
  }

  /** `parse_pdf_bytes`: rejects empty input, chunks the extracted text
      with the default parameters and reports them in the metadata. */
  function ParsePdfBytes(pdfBytes: seq<byte>, filename: Option<string>): (r: Result<ParsedPdf, ParseError>)
    ensures r.Err? <==> |pdfBytes| == 0
    ensures r.Err? ==> r.error == EmptyPdf
    ensures r.Ok? ==>
      && r.value.byteSize == |pdfBytes|
      && r.value.pageCount == None
      && r.value.filename == OrDefault(filename, "uploaded.pdf")
      && r.value.metadata == ParserMetadata("placeholder", 800, 100)
      && Chunked(PlaceholderText(filename), r.value.metadata.chunkSize, r.value.metadata.chunkOverlap)
         == Ok(r.value.chunks)
  {
    if |pdfBytes| == 0 then Err(EmptyPdf)
    else
      var text := PlaceholderText(filename);
      var chunks := Chunked(text, DefaultChunkSize, DefaultChunkOverlap);
      Ok(ParsedPdf(
        OrDefault(filename, DefaultFilename),
        |pdfBytes|,
        None,
        chunks.value,
        ParserMetadata("placeholder", DefaultChunkSize, DefaultChunkOverlap)))
  }

  /** A successful parse always carries at least one chunk (the placeholder
      text starts with a letter), and every chunk is non-empty, stripped
      and at most 800 characters long. */
  lemma ParsedChunks(pdfBytes: seq<byte>, filename: Option<string>)
    requires |pdfBytes| > 0
    ensures var p := ParsePdfBytes(pdfBytes, filename).value;
            && |p.chunks| >= 1
            && forall c :: c in p.chunks ==> c != [] && Strip(c) == c && |c| <= 800
  {
    var text := PlaceholderText(filename);
    var step := DefaultChunkSize - DefaultChunkOverlap;
    var n := WindowCount(|text|, step);
    assert text[0] == 'P';
    WindowStartBelowLength(|text|, step, 0);
    LeadingNonSpaceGivesChunk(text, DefaultChunkSize, step, n);
    ChunkedOutput(text, DefaultChunkSize, DefaultChunkOverlap);
  }
}
