/** Splitting page text into overlapping chunks (`chunk_text`).
    The source is a generator whose loop, as written, ends only when the next
    start reaches the end of the text; with a positive overlap it never does.
    The generator is therefore modelled by the first `fuel` chunks it yields,
    together with whether it has finished by then. `FixedChunks` is the
    chunker with the evidently intended stop after the chunk that reaches the
    end of the text. */
module Chunking {

  function Min(a: int, b: int): (r: int) {
    if a <= b then a else b
  }

  /** A slice bound as Python normalises it: negative counts from the end,
      then clamped into [0, n]. */
  function PyIndex(i: int, n: nat): (k: nat)
    ensures k <= n
    ensures 0 <= i <= n ==> k == i
  {
    if i < 0 then (if n + i < 0 then 0 else n + i)
    else if i > n then n
    else i
  }

  /** Python's `s[i:j]`. */
  function PySlice(s: string, i: int, j: int): (r: string)
    ensures 0 <= i <= j <= |s| ==> r == s[i..j]
    ensures |r| <= |s|
  {
    var a := PyIndex(i, |s|);
    var b := PyIndex(j, |s|);
    if a < b then s[a..b] else []
  }

  /** The chunk the loop yields at `start`: `text[start:min(len, start + chunk_size)]`. */
  function ChunkAt(text: string, chunkSize: int, start: nat): (r: string) {
    PySlice(text, start, Min(|text|, start + chunkSize))
  }

  /** The start the loop moves to after the chunk at `start`: the chunk's end
      minus the overlap, clamped to 0. */
  function NextStart(text: string, chunkSize: int, overlap: int, start: nat): (r: nat) {
    var end := Min(|text|, start + chunkSize);
    if end - overlap < 0 then 0 else end - overlap
  }

  /** The first `fuel` chunks the generator yields from `start` on. */
  function Chunks(text: string, chunkSize: int, overlap: int, start: nat, fuel: nat): (r: seq<string>)
    decreases fuel
  {
    if fuel == 0 || start >= |text| then []
    else [ChunkAt(text, chunkSize, start)]
         + Chunks(text, chunkSize, overlap, NextStart(text, chunkSize, overlap, start), fuel - 1)
  }

  /** True iff the generator, resumed at `start`, returns after at most `fuel` more chunks. */
  predicate Finished(text: string, chunkSize: int, overlap: int, start: nat, fuel: nat)
    decreases fuel
  {
    start >= |text|
    || (fuel > 0 && Finished(text, chunkSize, overlap, NextStart(text, chunkSize, overlap, start), fuel - 1))
  }

  /** Where the loop stands after `i` iterations from `start`. */
  function StartAfter(text: string, chunkSize: int, overlap: int, start: nat, i: nat): (r: nat)
    decreases i
  {
    if i == 0 then start
    else StartAfter(text, chunkSize, overlap, NextStart(text, chunkSize, overlap, start), i - 1)
  }

  /** One iteration of the loop, as the recursive definitions see it. */
  lemma ChunksUnfold(text: string, chunkSize: int, overlap: int, start: nat, fuel: nat)
    requires start < |text| && 0 < fuel
    ensures Chunks(text, chunkSize, overlap, start, fuel)
            == [ChunkAt(text, chunkSize, start)]
               + Chunks(text, chunkSize, overlap, NextStart(text, chunkSize, overlap, start), fuel - 1)
    ensures Finished(text, chunkSize, overlap, start, fuel)
            == Finished(text, chunkSize, overlap, NextStart(text, chunkSize, overlap, start), fuel - 1)
  {
  }

  /** `chunk_text`, run until it has yielded `fuel` chunks or returned. */
  method ChunkText(text: string, chunkSize: int, overlap: int, fuel: nat)
    returns (chunks: seq<string>, finished: bool)
    ensures chunks == Chunks(text, chunkSize, overlap, 0, fuel)
    ensures finished == Finished(text, chunkSize, overlap, 0, fuel)
  {
    var start: nat := 0;
    var length := |text|;
    chunks := [];
    while start < length && |chunks| < fuel
      invariant |chunks| <= fuel
      invariant chunks + Chunks(text, chunkSize, overlap, start, fuel - |chunks|)
                == Chunks(text, chunkSize, overlap, 0, fuel)
      invariant Finished(text, chunkSize, overlap, start, fuel - |chunks|)
                == Finished(text, chunkSize, overlap, 0, fuel)
      decreases fuel - |chunks|
    {
      ChunksUnfold(text, chunkSize, overlap, start, fuel - |chunks|);
      ghost var rest := Chunks(text, chunkSize, overlap, NextStart(text, chunkSize, overlap, start),
                               fuel - |chunks| - 1);
      var end := Min(length, start + chunkSize);
      var chunk := PySlice(text, start, end);
      assert chunk == ChunkAt(text, chunkSize, start);
      assert chunks + [chunk] + rest == chunks + ([chunk] + rest);
      chunks := chunks + [chunk];
      var next := end - overlap;
      if next < 0 {
        next := 0;
      }
      assert next == NextStart(text, chunkSize, overlap, start);
      start := next;
    }
    finished := start >= length;
  }

  /** Stepping the loop once more from where it stands after `i` iterations. */
  lemma {:induction false} StartAfterStep(text: string, chunkSize: int, overlap: int,
                                          start: nat, i: nat)
    ensures StartAfter(text, chunkSize, overlap, start, i + 1)
            == NextStart(text, chunkSize, overlap, StartAfter(text, chunkSize, overlap, start, i))
    decreases i
  {
    if i > 0 {
      StartAfterStep(text, chunkSize, overlap, NextStart(text, chunkSize, overlap, start), i - 1);
    }
  }

  /** Chunk `i` is the contiguous slice at the loop's `i`-th start, cut at
      `min(len, start + chunk_size)`, so it is never longer than `chunk_size`. */
  lemma {:induction false} ChunkShape(text: string, chunkSize: int, overlap: int, start: nat,
                                      fuel: nat, i: nat)
    requires chunkSize > 0
    requires i < |Chunks(text, chunkSize, overlap, start, fuel)|
    ensures var s := StartAfter(text, chunkSize, overlap, start, i);
            && s < |text|
            && Chunks(text, chunkSize, overlap, start, fuel)[i] == text[s..Min(|text|, s + chunkSize)]
            && 0 < |Chunks(text, chunkSize, overlap, start, fuel)[i]| <= chunkSize
    decreases i
  {
    if i > 0 {
      ChunkShape(text, chunkSize, overlap, NextStart(text, chunkSize, overlap, start), fuel - 1, i - 1);
    }
  }

  /** Empty text yields nothing; otherwise the first chunk starts at index 0. */
  lemma FirstChunk(text: string, chunkSize: int, overlap: int, fuel: nat)
    ensures text == [] ==> Chunks(text, chunkSize, overlap, 0, fuel) == []
                           && Finished(text, chunkSize, overlap, 0, fuel)
    ensures text != [] && fuel > 0 && chunkSize > 0 ==>
              Chunks(text, chunkSize, overlap, 0, fuel)[0] == text[..Min(|text|, chunkSize)]
  {
  }

  /** The chunks joined in order. */
  function Concat(chunks: seq<string>): (r: string) {
    if chunks == [] then [] else chunks[0] + Concat(chunks[1..])
  }

  /** With no overlap the loop returns within `len - start` chunks, and the
      chunks joined in order give back the rest of the text. */
  lemma {:induction false} NoOverlapCovers(text: string, chunkSize: int, start: nat, fuel: nat)
    requires chunkSize > 0
    requires start <= |text| && |text| - start <= fuel
    ensures Finished(text, chunkSize, 0, start, fuel)
    ensures Concat(Chunks(text, chunkSize, 0, start, fuel)) == text[start..]
    decreases fuel
  {
    if start < |text| {
      var end := Min(|text|, start + chunkSize);
      var rest := Chunks(text, chunkSize, 0, end, fuel - 1);
      NoOverlapCovers(text, chunkSize, end, fuel - 1);
      assert Chunks(text, chunkSize, 0, start, fuel) == [text[start..end]] + rest;
      assert ([text[start..end]] + rest)[1..] == rest;
      assert text[start..] == text[start..end] + text[end..];
    }
  }

  /** With no overlap, `chunk_text` terminates and loses nothing. */
  lemma NoOverlapTerminates(text: string, chunkSize: int)
    requires chunkSize > 0
    ensures Finished(text, chunkSize, 0, 0, |text|)
    ensures Concat(Chunks(text, chunkSize, 0, 0, |text|)) == text
  {
    NoOverlapCovers(text, chunkSize, 0, |text|);
  }

  /** With a positive overlap the next start is always before the end, so the
      generator never returns on non-empty text: every budget is used up. */
  lemma {:induction false} OverlapNeverFinishes(text: string, chunkSize: int, overlap: int,
                                                start: nat, fuel: nat)
    requires overlap > 0 && start < |text|
    ensures !Finished(text, chunkSize, overlap, start, fuel)
    ensures |Chunks(text, chunkSize, overlap, start, fuel)| == fuel
    decreases fuel
  {
    if fuel > 0 {
      OverlapNeverFinishes(text, chunkSize, overlap, NextStart(text, chunkSize, overlap, start), fuel - 1);
    }
  }

  /** Once a chunk ends at the end of the text, the loop restarts at
      `len - overlap`, and from there it yields the same tail forever. */
  lemma {:induction false} TailRepeats(text: string, chunkSize: int, overlap: int, fuel: nat)
    requires 0 < overlap <= chunkSize && overlap <= |text|
    ensures Chunks(text, chunkSize, overlap, |text| - overlap, fuel)
            == seq(fuel, _ => text[|text| - overlap..])
    decreases fuel
  {
    var s := |text| - overlap;
    if fuel > 0 {
      var tail := text[s..];
      assert NextStart(text, chunkSize, overlap, s) == s;
      assert ChunkAt(text, chunkSize, s) == tail;
      TailRepeats(text, chunkSize, overlap, fuel - 1);
      assert [tail] + seq(fuel - 1, _ => tail) == seq(fuel, _ => tail);
    }
  }

  /** A chunk that reaches the end of the text sends the loop back to `len - overlap`. */
  lemma EndSendsBack(text: string, chunkSize: int, overlap: int, start: nat)
    requires start + chunkSize >= |text| && 0 <= overlap <= |text|
    ensures NextStart(text, chunkSize, overlap, start) == |text| - overlap
  {
  }

  /** An overlap of at least the chunk size keeps the start at 0: the first
      chunk is yielded again and again. */
  lemma {:induction false} StuckAtZero(text: string, chunkSize: int, overlap: int, fuel: nat)
    requires 0 < chunkSize <= overlap && chunkSize < |text|
    ensures Chunks(text, chunkSize, overlap, 0, fuel) == seq(fuel, _ => text[..chunkSize])
    decreases fuel
  {
    if fuel > 0 {
      var head := text[..chunkSize];
      assert NextStart(text, chunkSize, overlap, 0) == 0;
      assert ChunkAt(text, chunkSize, 0) == head;
      StuckAtZero(text, chunkSize, overlap, fuel - 1);
      assert [head] + seq(fuel - 1, _ => head) == seq(fuel, _ => head);
    }
  }

  /** The defaults (chunk size 800, overlap 200) on the text "abc": the
      generator yields "abc" again and again and has not returned after three. */
  lemma RepeatsOnShortText()
    ensures Chunks("abc", 800, 200, 0, 3) == ["abc", "abc", "abc"]
    ensures !Finished("abc", 800, 200, 0, 3)
  {
    assert NextStart("abc", 800, 200, 0) == 0;
    assert ChunkAt("abc", 800, 0) == "abc";
    OverlapNeverFinishes("abc", 800, 200, 0, 3);
  }

  // ---------------------------------------------------------------------------
  // The chunker with the intended stop

  /** The chunks from `start`, stopping after the chunk that reaches the end. */
  function FixedChunks(text: string, chunkSize: int, overlap: int, start: nat): (r: seq<string>)
    requires 0 <= overlap < chunkSize
    decreases |text| - start
  {
    if start >= |text| then []
    else if start + chunkSize >= |text| then [text[start..]]
    else [text[start..start + chunkSize]] + FixedChunks(text, chunkSize, overlap, start + chunkSize - overlap)
  }

  /** `chunk_text` with a `break` once a chunk reaches the end of the text. */
  method ChunkTextFixed(text: string, chunkSize: int, overlap: int) returns (chunks: seq<string>)
    requires 0 <= overlap < chunkSize
    ensures chunks == FixedChunks(text, chunkSize, overlap, 0)
  {
    var start: nat := 0;
    var length := |text|;
    chunks := [];
    while start < length
      invariant chunks + FixedChunks(text, chunkSize, overlap, start) == FixedChunks(text, chunkSize, overlap, 0)
      decreases length - start
    {
      ghost var old_chunks := chunks;
      var end := Min(length, start + chunkSize);
      var chunk := text[start..end];
      chunks := chunks + [chunk];
      if end == length {
        assert chunk == text[start..];
        break;
      }
      var next := end - overlap;
      if next < 0 {
        next := 0;
      }
      ghost var rest := FixedChunks(text, chunkSize, overlap, next);
      assert FixedChunks(text, chunkSize, overlap, start) == [chunk] + rest;
      assert chunks + rest == old_chunks + ([chunk] + rest);
      start := next;
    }
  }

  /** Drop the first `n` characters of a chunk (the part it shares with the previous one). */
  function DropPrefix(chunk: string, n: nat): (r: string) {
    if n <= |chunk| then chunk[n..] else []
  }

  function JoinTails(chunks: seq<string>, overlap: nat): (r: string) {
    if |chunks| == 0 then [] else DropPrefix(chunks[0], overlap) + JoinTails(chunks[1..], overlap)
  }

  /** Undo the chunking: the first chunk whole, then each later chunk without
      the `overlap` characters it repeats. */
  function Stitch(chunks: seq<string>, overlap: nat): (r: string) {
    if |chunks| == 0 then [] else chunks[0] + JoinTails(chunks[1..], overlap)
  }

  lemma JoinTailsCons(chunk: string, rest: seq<string>, overlap: nat)
    ensures JoinTails([chunk] + rest, overlap) == DropPrefix(chunk, overlap) + JoinTails(rest, overlap)
  {
    assert ([chunk] + rest)[1..] == rest;
  }

  /** The last chunk, minus the overlap, is the rest of the text. */
  lemma TailsCoverLast(text: string, chunkSize: int, overlap: int, start: nat)
    requires 0 <= overlap < chunkSize
    requires start + overlap < |text| <= start + chunkSize
    ensures JoinTails(FixedChunks(text, chunkSize, overlap, start), overlap) == text[start + overlap..]
  {
    var chunk := text[start..];
    assert FixedChunks(text, chunkSize, overlap, start) == [chunk] + [];
    JoinTailsCons(chunk, [], overlap);
    SliceOfSlice(text, start, |text|, overlap);
    assert text[start..|text|] == chunk;
  }

  /** A chunk before the last, minus the overlap, joins onto what follows it. */
  lemma TailsCoverStep(text: string, chunkSize: int, overlap: int, start: nat)
    requires 0 <= overlap < chunkSize
    requires start + chunkSize < |text|
    requires JoinTails(FixedChunks(text, chunkSize, overlap, start + chunkSize - overlap), overlap)
             == text[start + chunkSize..]
    ensures JoinTails(FixedChunks(text, chunkSize, overlap, start), overlap) == text[start + overlap..]
  {
    var end := start + chunkSize;
    var chunk := text[start..end];
    var rest := FixedChunks(text, chunkSize, overlap, end - overlap);
    assert FixedChunks(text, chunkSize, overlap, start) == [chunk] + rest;
    JoinTailsCons(chunk, rest, overlap);
    SliceOfSlice(text, start, end, overlap);
    SplitAt(text, start + overlap, end);
  }

  lemma {:induction false} TailsCover(text: string, chunkSize: int, overlap: int, start: nat)
    requires 0 <= overlap < chunkSize
    requires start + overlap < |text|
    ensures JoinTails(FixedChunks(text, chunkSize, overlap, start), overlap) == text[start + overlap..]
    decreases |text| - start
  {
    if start + chunkSize >= |text| {
      TailsCoverLast(text, chunkSize, overlap, start);
    } else {
      var next: nat := start + chunkSize - overlap;
      TailsCover(text, chunkSize, overlap, next);
      assert next + overlap == start + chunkSize;
      TailsCoverStep(text, chunkSize, overlap, start);
    }
  }

  lemma SliceOfSlice(s: string, i: nat, j: nat, k: nat)
    requires i <= j <= |s| && k <= j - i
    ensures s[i..j][k..] == s[i + k..j]
  {
  }

  lemma SplitAt(s: string, i: nat, j: nat)
    requires i <= j <= |s|
    ensures s[i..j] + s[j..] == s[i..]
  {
  }

  lemma StitchCons(head: string, rest: seq<string>, overlap: nat)
    ensures Stitch([head] + rest, overlap) == head + JoinTails(rest, overlap)
  {
    assert ([head] + rest)[1..] == rest;
  }

  /** Round trip: stitching the corrected chunks back together gives the text. */
  lemma FixedStitch(text: string, chunkSize: int, overlap: int)
    requires 0 <= overlap < chunkSize
    ensures Stitch(FixedChunks(text, chunkSize, overlap, 0), overlap) == text
  {
    if 0 < |text| <= chunkSize {
      assert FixedChunks(text, chunkSize, overlap, 0) == [text[0..]];
      assert text[0..] == text;
    } else if chunkSize < |text| {
      var head := text[..chunkSize];
      var rest := FixedChunks(text, chunkSize, overlap, chunkSize - overlap);
      assert FixedChunks(text, chunkSize, overlap, 0) == [head] + rest;
      StitchCons(head, rest, overlap);
      TailsCover(text, chunkSize, overlap, chunkSize - overlap);
      assert text == head + text[chunkSize..];
    }
  }

  /** The corrected chunker yields exactly what `chunk_text` yields up to and
      including the first chunk that reaches the end of the text. */
  lemma {:induction false} FixedIsPrefix(text: string, chunkSize: int, overlap: int, start: nat)
    requires 0 <= overlap < chunkSize
    ensures Chunks(text, chunkSize, overlap, start, |FixedChunks(text, chunkSize, overlap, start)|)
            == FixedChunks(text, chunkSize, overlap, start)
    decreases |text| - start
  {
    if start < |text| {
      if start + chunkSize >= |text| {
        assert ChunkAt(text, chunkSize, start) == text[start..];
      } else {
        assert ChunkAt(text, chunkSize, start) == text[start..start + chunkSize];
        FixedIsPrefix(text, chunkSize, overlap, start + chunkSize - overlap);
      }
    }
  }
}
