/**
 * `chunk_markdown`: cut a markdown text into chunks along blank-line paragraph boundaries,
 * accumulating paragraphs in a buffer until the next one would pass `chunk_size`, then
 * flushing the buffer and seeding the next one with a tail of the flushed paragraphs whose
 * lengths reach `overlap`.
 *
 * `ChunkMarkdown` is the loop as the script runs it; `Feed`/`ChunkGroups` state the same
 * process one paragraph at a time, and the lemmas below say what the chunks it produces are.
 */
module Chunking {
  import opened Strings

  /** The blank-line separator between paragraphs, both for splitting and for joining. */
  const ParagraphSep: string := "\n\n"

  // ---------------------------------------------------------------------------------------
  // The carried-over tail of a flushed buffer
  // ---------------------------------------------------------------------------------------

  /**
   * Where the backward scan over `buffer` stops when it has already taken `buffer[j..]`
   * without reaching `overlap`: it takes `buffer[j - 1]` next and stops as soon as the
   * taken paragraphs' lengths (separators excluded) reach `overlap`, or at the front.
   */
  function ScanBack(buffer: seq<string>, overlap: int, j: nat): (k: nat)
    requires j <= |buffer|
    ensures k <= j && (j > 0 ==> k < j)
  {
    if j == 0 then 0
    else if SumLen(buffer[j - 1..]) >= overlap then j - 1
    else ScanBack(buffer, overlap, j - 1)
  }

  /** The paragraphs the scan carries from a flushed buffer into the next one, in their order. */
  function OverlapTail(buffer: seq<string>, overlap: int): seq<string> {
    buffer[ScanBack(buffer, overlap, |buffer|)..]
  }

  /** What seeds the buffer after a flush: the overlap tail, or nothing when `overlap <= 0`. */
  function Carried(buffer: seq<string>, overlap: int): (r: seq<string>)
    ensures |r| <= |buffer| && r == buffer[|buffer| - |r|..]
    ensures overlap > 0 && buffer != [] ==> r != []
  {
    if overlap > 0 then OverlapTail(buffer, overlap) else []
  }

  /** No suffix of `buffer` that starts after index `k` has paragraph lengths reaching `overlap`. */
  ghost predicate ShortAfter(buffer: seq<string>, overlap: int, k: int) {
    forall m :: 0 <= m <= |buffer| && k < m ==> SumLen(buffer[m..]) < overlap
  }

  lemma {:induction false} ScanBackStops(buffer: seq<string>, overlap: int, j: nat)
    requires j <= |buffer|
    requires ShortAfter(buffer, overlap, j - 1)
    ensures var k := ScanBack(buffer, overlap, j);
      (k == 0 || SumLen(buffer[k..]) >= overlap) &&
      ShortAfter(buffer, overlap, k)
    decreases j
  {
    var k := ScanBack(buffer, overlap, j);
    if j == 0 {
      assert k == 0;
    } else if SumLen(buffer[j - 1..]) >= overlap {
      assert k == j - 1;
    } else {
      ScanBackStops(buffer, overlap, j - 1);
      assert k == ScanBack(buffer, overlap, j - 1);
    }
  }

  /**
   * The carried tail is the SHORTEST suffix of the flushed buffer whose paragraph lengths add
   * up to at least `overlap`, or the whole buffer when even that falls short; it is never
   * empty when the buffer is not.
   */
  lemma OverlapTailShortest(buffer: seq<string>, overlap: int)
    requires overlap > 0
    ensures var t := OverlapTail(buffer, overlap);
      t == buffer[|buffer| - |t|..] &&
      (buffer != [] ==> t != []) &&
      (SumLen(t) >= overlap || t == buffer) &&
      ShortAfter(buffer, overlap, |buffer| - |t|)
  {
    assert buffer[|buffer|..] == [];
    ScanBackStops(buffer, overlap, |buffer|);
  }

  // ---------------------------------------------------------------------------------------
  // The chunking process, one paragraph at a time
  // ---------------------------------------------------------------------------------------

  /** The loop state: chunks flushed so far (as paragraph lists), the buffer and `buffer_len`. */
  datatype ChunkState = ChunkState(groups: seq<seq<string>>, buffer: seq<string>, bufferLen: int)

  /** One turn of the loop for paragraph `p`. */
  function Step(st: ChunkState, p: string, chunkSize: int, overlap: int): ChunkState {
    var candidateLen := st.bufferLen + |p| + (if st.buffer != [] then 2 else 0);
    if candidateLen > chunkSize && st.buffer != [] then
      var seed := Carried(st.buffer, overlap);
      ChunkState(st.groups + [st.buffer], seed + [p], SumLen(seed) + |p| + 2)
    else
      ChunkState(st.groups, st.buffer + [p], st.bufferLen + |p| + 2)
  }

  /** The loop state after the paragraphs `ps`, starting from no chunks and an empty buffer. */
  function Feed(ps: seq<string>, chunkSize: int, overlap: int): ChunkState
    decreases |ps|
  {
    if ps == [] then ChunkState([], [], 0)
    else Step(Feed(ps[..|ps| - 1], chunkSize, overlap), ps[|ps| - 1], chunkSize, overlap)
  }

  /** The chunks of `ps` as paragraph lists: the flushed ones and then the final buffer, if any. */
  function ChunkGroups(ps: seq<string>, chunkSize: int, overlap: int): seq<seq<string>> {
    var st := Feed(ps, chunkSize, overlap);
    if st.buffer != [] then st.groups + [st.buffer] else st.groups
  }

  /** Each paragraph list joined with the blank-line separator. */
  function JoinAll(groups: seq<seq<string>>): (r: seq<string>)
    ensures |r| == |groups|
    ensures forall k :: 0 <= k < |groups| ==> r[k] == Join(groups[k], ParagraphSep)
  {
    if groups == [] then [] else JoinAll(groups[..|groups| - 1]) + [Join(groups[|groups| - 1], ParagraphSep)]
  }

  /** `Feed` one paragraph further. */
  lemma FeedStep(ps: seq<string>, i: nat, chunkSize: int, overlap: int)
    requires i < |ps|
    ensures Feed(ps[..i + 1], chunkSize, overlap) == Step(Feed(ps[..i], chunkSize, overlap), ps[i], chunkSize, overlap)
  {
    assert ps[..i + 1][..i] == ps[..i];
  }

  /** `JoinAll` one chunk further. */
  lemma JoinAllAppend(groups: seq<seq<string>>, g: seq<string>)
    ensures JoinAll(groups + [g]) == JoinAll(groups) + [Join(g, ParagraphSep)]
  {
    assert (groups + [g])[..|groups|] == groups;
  }

  // ---------------------------------------------------------------------------------------
  // The script's loop
  // ---------------------------------------------------------------------------------------

  /**
   * The backward scan of `chunk_markdown`: walk the flushed buffer from its end, putting each
   * paragraph in front of the ones already taken, until their lengths reach `overlap`.
   */
  method OverlapParagraphs(buffer: seq<string>, overlap: int) returns (overlapParagraphs: seq<string>)
    requires overlap > 0
    ensures overlapParagraphs == OverlapTail(buffer, overlap)
  {
    overlapParagraphs := [];
    var overlapLen := 0;
    var j := |buffer|;
    while j > 0
      invariant 0 <= j <= |buffer|
      invariant overlapParagraphs == buffer[j..]
      invariant overlapLen == SumLen(overlapParagraphs)
      invariant ScanBack(buffer, overlap, j) == ScanBack(buffer, overlap, |buffer|)
    {
      j := j - 1;
      overlapParagraphs := [buffer[j]] + overlapParagraphs;
      overlapLen := overlapLen + |buffer[j]|;
      if overlapLen >= overlap {
        break;
      }
    }
  }

  /**
   * One turn of the loop of `chunk_markdown` for paragraph `para`: flush the buffer when `para`
   * would pass `chunk_size` and seed it with the overlap tail, then append `para`.
   */
  method AddParagraph(chunks: seq<string>, ghost groups: seq<seq<string>>, buffer: seq<string>, bufferLen: int,
                      para: string, chunkSize: int, overlap: int)
    returns (chunks': seq<string>, buffer': seq<string>, bufferLen': int)
    requires chunks == JoinAll(groups)
    ensures var st := Step(ChunkState(groups, buffer, bufferLen), para, chunkSize, overlap);
      buffer' == st.buffer && bufferLen' == st.bufferLen && chunks' == JoinAll(st.groups)
  {
    ghost var st := Step(ChunkState(groups, buffer, bufferLen), para, chunkSize, overlap);
    chunks', buffer', bufferLen' := chunks, buffer, bufferLen;
    var candidateLen := bufferLen + |para| + (if buffer != [] then 2 else 0);
    if candidateLen > chunkSize && buffer != [] {
      ghost var seed := Carried(buffer, overlap);
      assert st == ChunkState(groups + [buffer], seed + [para], SumLen(seed) + |para| + 2);
      JoinAllAppend(groups, buffer);
      chunks' := chunks' + [Join(buffer, ParagraphSep)];
      if overlap > 0 {
        var overlapParagraphs := OverlapParagraphs(buffer, overlap);
        buffer' := overlapParagraphs;
        bufferLen' := SumLen(buffer');
        assert buffer' == seed;
      } else {
        buffer' := [];
        bufferLen' := 0;
        assert seed == [] && SumLen(seed) == 0;
      }
    } else {
      assert st == ChunkState(groups, buffer + [para], bufferLen + |para| + 2);
    }
    buffer' := buffer' + [para];
    bufferLen' := bufferLen' + |para| + 2;
  }

  /** `chunk_markdown(markdown_text, chunk_size, overlap)`. */
  method ChunkMarkdown(markdownText: string, chunkSize: int, overlap: int) returns (chunks: seq<string>)
    ensures chunks == JoinAll(ChunkGroups(Paragraphs(markdownText), chunkSize, overlap))
    ensures chunks == [] <==> AllSpace(markdownText)
  {
    var paragraphs := Paragraphs(markdownText);
    ParagraphsEmptyIffBlank(markdownText);
    if paragraphs == [] {
      return [];
    }

    chunks := [];
    var buffer: seq<string> := [];
    var bufferLen := 0;
    ghost var groups: seq<seq<string>> := [];

    for i := 0 to |paragraphs|
      invariant Feed(paragraphs[..i], chunkSize, overlap) == ChunkState(groups, buffer, bufferLen)
      invariant chunks == JoinAll(groups)
    {
      FeedStep(paragraphs, i, chunkSize, overlap);
      ghost var groups' := Step(ChunkState(groups, buffer, bufferLen), paragraphs[i], chunkSize, overlap).groups;
      chunks, buffer, bufferLen := AddParagraph(chunks, groups, buffer, bufferLen, paragraphs[i], chunkSize, overlap);
      groups := groups';
    }
    assert paragraphs[..|paragraphs|] == paragraphs;

    if buffer != [] {
      chunks := chunks + [Join(buffer, ParagraphSep)];
    }
    ChunkCount(paragraphs, chunkSize, overlap);
  }

  // ---------------------------------------------------------------------------------------
  // What the chunks are
  // ---------------------------------------------------------------------------------------

  /**
   * Every chunk is non-empty and every chunk after the first begins with what was carried
   * from the chunk before it, followed by at least one paragraph of its own.
   */
  ghost predicate Linked(groups: seq<seq<string>>, overlap: int)
    decreases |groups|
  {
    groups == [] ||
    (Linked(groups[..|groups| - 1], overlap) && groups[|groups| - 1] != [] &&
     (|groups| >= 2 ==> Continues(groups[|groups| - 2], groups[|groups| - 1], overlap)))
  }

  /** `next` begins with what is carried from `prev` and has at least one paragraph more. */
  ghost predicate Continues(prev: seq<string>, next: seq<string>, overlap: int) {
    var c := Carried(prev, overlap);
    |c| < |next| && next[..|c|] == c
  }

  /** `s` without its first `k` elements, or nothing when it has fewer. */
  function After(s: seq<string>, k: nat): seq<string> {
    if k <= |s| then s[k..] else []
  }

  /** The chunks' paragraphs with each non-first chunk's carried-over prefix dropped. */
  function Uncarried(groups: seq<seq<string>>, overlap: int): seq<string>
    decreases |groups|
  {
    if groups == [] then []
    else if |groups| == 1 then groups[0]
    else Uncarried(groups[..|groups| - 1], overlap) + After(groups[|groups| - 1], |Carried(groups[|groups| - 2], overlap)|)
  }

  /** What `Linked` says of chunk `j`: it is non-empty and continues the chunk before it. */
  lemma {:induction false} LinkedAt(groups: seq<seq<string>>, overlap: int, j: nat)
    requires Linked(groups, overlap) && j < |groups|
    ensures groups[j] != []
    ensures j >= 1 ==> groups[j - 1] != [] && Continues(groups[j - 1], groups[j], overlap)
    decreases |groups|
  {
    var init := groups[..|groups| - 1];
    if j < |groups| - 1 {
      LinkedAt(init, overlap, j);
      assert init[j] == groups[j];
      assert j >= 1 ==> init[j - 1] == groups[j - 1];
    } else if j >= 1 {
      LinkedAt(init, overlap, j - 1);
      assert init[j - 1] == groups[j - 1];
    }
  }

  /** `Uncarried` of two or more chunks, one step unfolded. */
  lemma UncarriedUnfold(gs: seq<seq<string>>, overlap: int)
    requires Linked(gs, overlap) && |gs| >= 2
    ensures Linked(gs[..|gs| - 1], overlap)
    ensures |Carried(gs[|gs| - 2], overlap)| < |gs[|gs| - 1]|
    ensures Uncarried(gs, overlap) ==
      Uncarried(gs[..|gs| - 1], overlap) + gs[|gs| - 1][|Carried(gs[|gs| - 2], overlap)|..]
  {
    var c := Carried(gs[|gs| - 2], overlap);
    assert Continues(gs[|gs| - 2], gs[|gs| - 1], overlap);
    assert After(gs[|gs| - 1], |c|) == gs[|gs| - 1][|c|..];
  }

  lemma LinkedExtendLast(groups: seq<seq<string>>, b: seq<string>, p: string, overlap: int)
    requires Linked(groups + [b], overlap)
    ensures Linked(groups + [b + [p]], overlap)
  {
    var gs, gs' := groups + [b], groups + [b + [p]];
    assert gs[..|gs| - 1] == groups == gs'[..|gs'| - 1];
    if groups != [] {
      assert gs[|gs| - 2] == groups[|groups| - 1] == gs'[|gs'| - 2];
      ContinuesExtend(groups[|groups| - 1], b, p, overlap);
    }
  }

  /** A chunk that continues `prev` still does with one more paragraph at its end. */
  lemma ContinuesExtend(prev: seq<string>, b: seq<string>, p: string, overlap: int)
    requires Continues(prev, b, overlap)
    ensures Continues(prev, b + [p], overlap)
  {
    var c := Carried(prev, overlap);
    assert (b + [p])[..|c|] == b[..|c|];
  }

  lemma UncarriedExtendLast(groups: seq<seq<string>>, b: seq<string>, p: string, overlap: int)
    requires Linked(groups + [b], overlap)
    ensures Linked(groups + [b + [p]], overlap)
    ensures Uncarried(groups + [b + [p]], overlap) == Uncarried(groups + [b], overlap) + [p]
  {
    LinkedExtendLast(groups, b, p, overlap);
    var gs, gs' := groups + [b], groups + [b + [p]];
    if groups != [] {
      UncarriedUnfold(gs, overlap);
      UncarriedUnfold(gs', overlap);
      assert gs'[..|gs'| - 1] == groups == gs[..|gs| - 1];
      var c := Carried(groups[|groups| - 1], overlap);
      assert gs'[|gs'| - 2] == groups[|groups| - 1] == gs[|gs| - 2];
      assert (b + [p])[|c|..] == b[|c|..] + [p];
    } else {
      assert gs == [b] && gs' == [b + [p]];
    }
  }

  lemma UncarriedFlush(groups: seq<seq<string>>, b: seq<string>, p: string, overlap: int)
    requires Linked(groups + [b], overlap)
    ensures Linked(groups + [b] + [Carried(b, overlap) + [p]], overlap)
    ensures Uncarried(groups + [b] + [Carried(b, overlap) + [p]], overlap) == Uncarried(groups + [b], overlap) + [p]
  {
    var prev, c := groups + [b], Carried(b, overlap);
    var gs := prev + [c + [p]];
    assert gs[..|gs| - 1] == prev;
    assert gs[|gs| - 2] == b;
    assert (c + [p])[..|c|] == c;
    assert Continues(b, c + [p], overlap);
    assert (c + [p])[|c|..] == [p];
    assert After(c + [p], |c|) == [p];
  }

  /**
   * What holds of the loop state `st` after the paragraphs `ps`: nothing before the first one;
   * afterwards a non-empty buffer, fewer chunks than paragraphs, and the chunks with the buffer
   * linked and covering `ps`.
   */
  ghost predicate FeedHolds(st: ChunkState, ps: seq<string>, overlap: int) {
    if ps == [] then st.groups == [] && st.buffer == []
    else
      st.buffer != [] && |st.groups| < |ps| &&
      Linked(st.groups + [st.buffer], overlap) && Uncarried(st.groups + [st.buffer], overlap) == ps
  }

  /** One turn of the loop keeps `FeedHolds`. */
  lemma StepHolds(st: ChunkState, ps: seq<string>, p: string, chunkSize: int, overlap: int)
    requires FeedHolds(st, ps, overlap)
    ensures FeedHolds(Step(st, p, chunkSize, overlap), ps + [p], overlap)
  {
    if ps == [] {
      FirstStepHolds(st, p, chunkSize, overlap);
    } else if st.bufferLen + |p| + 2 > chunkSize {
      FlushStepHolds(st, ps, p, chunkSize, overlap);
    } else {
      AppendStepHolds(st, ps, p, chunkSize, overlap);
    }
  }

  /** The first paragraph starts the buffer. */
  lemma FirstStepHolds(st: ChunkState, p: string, chunkSize: int, overlap: int)
    requires FeedHolds(st, [], overlap)
    ensures FeedHolds(Step(st, p, chunkSize, overlap), [p], overlap)
  {
    var st' := Step(st, p, chunkSize, overlap);
    assert st' == ChunkState([], [p], st.bufferLen + |p| + 2);
    assert [[p]][..0] == [];
    assert Linked([[p]], overlap);
    assert Uncarried([[p]], overlap) == [p];
  }

  /** A flush keeps `FeedHolds`. */
  lemma FlushStepHolds(st: ChunkState, ps: seq<string>, p: string, chunkSize: int, overlap: int)
    requires ps != [] && FeedHolds(st, ps, overlap) && st.bufferLen + |p| + 2 > chunkSize
    ensures FeedHolds(Step(st, p, chunkSize, overlap), ps + [p], overlap)
  {
    var st' := Step(st, p, chunkSize, overlap);
    var seed := Carried(st.buffer, overlap);
    assert st' == ChunkState(st.groups + [st.buffer], seed + [p], SumLen(seed) + |p| + 2);
    UncarriedFlush(st.groups, st.buffer, p, overlap);
    assert st'.groups + [st'.buffer] == st.groups + [st.buffer] + [seed + [p]];
  }

  /** Appending to the buffer keeps `FeedHolds`. */
  lemma AppendStepHolds(st: ChunkState, ps: seq<string>, p: string, chunkSize: int, overlap: int)
    requires ps != [] && FeedHolds(st, ps, overlap) && st.bufferLen + |p| + 2 <= chunkSize
    ensures FeedHolds(Step(st, p, chunkSize, overlap), ps + [p], overlap)
  {
    var st' := Step(st, p, chunkSize, overlap);
    assert st' == ChunkState(st.groups, st.buffer + [p], st.bufferLen + |p| + 2);
    UncarriedExtendLast(st.groups, st.buffer, p, overlap);
    assert st'.groups + [st'.buffer] == st.groups + [st.buffer + [p]];
  }

  /** `FeedHolds` after any prefix of the paragraphs. */
  lemma {:induction false} FeedInvariant(ps: seq<string>, chunkSize: int, overlap: int)
    ensures FeedHolds(Feed(ps, chunkSize, overlap), ps, overlap)
    decreases |ps|
  {
    if ps != [] {
      var prev, p := ps[..|ps| - 1], ps[|ps| - 1];
      assert ps == prev + [p];
      FeedInvariant(prev, chunkSize, overlap);
      StepHolds(Feed(prev, chunkSize, overlap), prev, p, chunkSize, overlap);
    }
  }

  /** There is no chunk exactly when there is no paragraph, and never more chunks than paragraphs. */
  lemma ChunkCount(ps: seq<string>, chunkSize: int, overlap: int)
    ensures var groups := ChunkGroups(ps, chunkSize, overlap);
      (groups == [] <==> ps == []) && |groups| <= |ps|
  {
    FeedInvariant(ps, chunkSize, overlap);
  }

  /**
   * Coverage and order: dropping each non-first chunk's carried-over prefix and concatenating
   * what is left gives back the paragraph list exactly, and every chunk is non-empty.
   */
  lemma Coverage(ps: seq<string>, chunkSize: int, overlap: int)
    ensures var groups := ChunkGroups(ps, chunkSize, overlap);
      Linked(groups, overlap) && Uncarried(groups, overlap) == ps
  {
    FeedInvariant(ps, chunkSize, overlap);
  }

  /**
   * With `overlap > 0`, every chunk after the first begins with the shortest suffix of the
   * previous chunk whose paragraph lengths reach `overlap` (the whole previous chunk if they
   * never do), in its original order, and then has at least one paragraph of its own.
   */
  lemma OverlapShape(ps: seq<string>, chunkSize: int, overlap: int, j: nat)
    requires overlap > 0
    requires 1 <= j < |ChunkGroups(ps, chunkSize, overlap)|
    ensures var groups := ChunkGroups(ps, chunkSize, overlap);
      var prev, t := groups[j - 1], OverlapTail(groups[j - 1], overlap);
      t != [] && t == prev[|prev| - |t|..] && (SumLen(t) >= overlap || t == prev) &&
      ShortAfter(prev, overlap, |prev| - |t|) &&
      |t| < |groups[j]| && groups[j][..|t|] == t
  {
    Coverage(ps, chunkSize, overlap);
    LinkedShape(ChunkGroups(ps, chunkSize, overlap), overlap, j);
  }

  /** `OverlapShape` for any linked chunks. */
  lemma LinkedShape(groups: seq<seq<string>>, overlap: int, j: nat)
    requires overlap > 0 && Linked(groups, overlap) && 1 <= j < |groups|
    ensures var prev, t := groups[j - 1], OverlapTail(groups[j - 1], overlap);
      t != [] && t == prev[|prev| - |t|..] && (SumLen(t) >= overlap || t == prev) &&
      ShortAfter(prev, overlap, |prev| - |t|) &&
      |t| < |groups[j]| && groups[j][..|t|] == t
  {
    LinkedAt(groups, overlap, j);
    ContinuesShape(groups[j - 1], groups[j], overlap);
  }

  /** A chunk that continues `prev` begins with the overlap tail of `prev`. */
  lemma ContinuesShape(prev: seq<string>, next: seq<string>, overlap: int)
    requires overlap > 0 && prev != [] && Continues(prev, next, overlap)
    ensures var t := OverlapTail(prev, overlap);
      t != [] && t == prev[|prev| - |t|..] && (SumLen(t) >= overlap || t == prev) &&
      ShortAfter(prev, overlap, |prev| - |t|) &&
      |t| < |next| && next[..|t|] == t
  {
    var t := OverlapTail(prev, overlap);
    assert Carried(prev, overlap) == t;
    assert |t| < |next| && next[..|t|] == t;
    OverlapTailShortest(prev, overlap);
  }

  /** Concatenation of paragraph lists. */
  function Concat(groups: seq<seq<string>>): seq<string> {
    if groups == [] then [] else Concat(groups[..|groups| - 1]) + groups[|groups| - 1]
  }

  lemma {:induction false} UncarriedNoOverlap(groups: seq<seq<string>>, overlap: int)
    requires overlap <= 0 && Linked(groups, overlap)
    ensures Uncarried(groups, overlap) == Concat(groups)
    decreases |groups|
  {
    if |groups| > 1 {
      var prefix := groups[..|groups| - 1];
      assert Linked(prefix, overlap);
      UncarriedNoOverlap(prefix, overlap);
      assert groups[|groups| - 1][0..] == groups[|groups| - 1];
    } else if |groups| == 1 {
      assert groups[..0] == [];
    }
  }

  /** With no overlap the chunks partition the paragraph list: concatenated, they are exactly it. */
  lemma NoOverlapPartition(ps: seq<string>, chunkSize: int, overlap: int)
    requires overlap <= 0
    ensures Concat(ChunkGroups(ps, chunkSize, overlap)) == ps
  {
    Coverage(ps, chunkSize, overlap);
    UncarriedNoOverlap(ChunkGroups(ps, chunkSize, overlap), overlap);
  }

  // ---------------------------------------------------------------------------------------
  // Each chunk is a run of consecutive paragraphs
  // ---------------------------------------------------------------------------------------

  /** How many paragraphs each chunk carries over from the chunk before it (none for the first). */
  function Skips(groups: seq<seq<string>>, overlap: int): (r: seq<nat>)
    ensures |r| == |groups|
  {
    seq(|groups|, j requires 0 <= j < |groups| => if j == 0 then 0 else |Carried(groups[j - 1], overlap)|)
  }

  /** The paragraphs the first `n` chunks cover, each chunk without its first `skips[j]`. */
  function Covered(groups: seq<seq<string>>, skips: seq<nat>, n: nat): seq<string>
    requires n <= |groups| && n <= |skips|
  {
    if n == 0 then [] else Covered(groups, skips, n - 1) + After(groups[n - 1], skips[n - 1])
  }

  /** One past the index of the last paragraph of chunk `j` among the covered paragraphs. */
  function RunEnd(groups: seq<seq<string>>, skips: seq<nat>, j: nat): nat
    requires j < |groups| && j < |skips|
  {
    |Covered(groups, skips, j + 1)|
  }

  /** One past the index of the last paragraph of chunk `j` in the paragraph list. */
  function GroupEnd(groups: seq<seq<string>>, overlap: int, j: nat): nat
    requires j < |groups|
  {
    RunEnd(groups, Skips(groups, overlap), j)
  }

  /** `g` is the run of paragraphs of `ps` that ends just before index `e`. */
  predicate RunEndingAt(ps: seq<string>, g: seq<string>, e: int) {
    |g| <= e <= |ps| && g == ps[e - |g|..e]
  }

  /** `a` is the first `|a|` paragraphs of `b`. */
  predicate IsPrefix(a: seq<string>, b: seq<string>) {
    |a| <= |b| && b[..|a|] == a
  }

  /** `g` is the last `|g|` paragraphs of `u`. */
  predicate EndsWith(u: seq<string>, g: seq<string>) {
    |g| <= |u| && u[|u| - |g|..] == g
  }

  /** Chunk `j` keeps a paragraph after its skipped ones, and the skipped ones end chunk `j - 1`. */
  predicate SkipFits(groups: seq<seq<string>>, skips: seq<nat>, j: nat)
    requires j < |groups| && j < |skips|
  {
    skips[j] < |groups[j]| && (if j == 0 then skips[j] == 0 else EndsWith(groups[j - 1], groups[j][..skips[j]]))
  }

  /** `SkipFits` at every chunk. */
  predicate SkipsFit(groups: seq<seq<string>>, skips: seq<nat>) {
    |skips| == |groups| && forall j :: 0 <= j < |groups| ==> SkipFits(groups, skips, j)
  }

  /** Linked chunks skip exactly what they carry. */
  lemma LinkedSkipsFit(groups: seq<seq<string>>, overlap: int)
    requires Linked(groups, overlap)
    ensures SkipsFit(groups, Skips(groups, overlap))
  {
    forall j | 0 <= j < |groups| ensures SkipFits(groups, Skips(groups, overlap), j) {
      LinkedSkipFits(groups, overlap, j);
    }
  }

  /** `LinkedSkipsFit` at chunk `j`. */
  lemma LinkedSkipFits(groups: seq<seq<string>>, overlap: int, j: nat)
    requires Linked(groups, overlap) && j < |groups|
    ensures SkipFits(groups, Skips(groups, overlap), j)
  {
    var skips := Skips(groups, overlap);
    LinkedAt(groups, overlap, j);
    if j > 0 {
      ContinuesFit(groups[j - 1], groups[j], overlap);
      assert skips[j] == |Carried(groups[j - 1], overlap)|;
    } else {
      assert skips[j] == 0;
    }
  }

  /** What `next` carries from `prev` ends `prev`, and `next` has a paragraph after it. */
  lemma ContinuesFit(prev: seq<string>, next: seq<string>, overlap: int)
    requires Continues(prev, next, overlap)
    ensures var k := |Carried(prev, overlap)|; k < |next| && EndsWith(prev, next[..k])
  {
  }

  /** `Covered` with the carried counts is `Uncarried` of a prefix. */
  lemma {:induction false} CoveredPrefix(groups: seq<seq<string>>, overlap: int, n: nat)
    requires n <= |groups|
    ensures Covered(groups, Skips(groups, overlap), n) == Uncarried(groups[..n], overlap)
  {
    if n >= 2 {
      CoveredPrefix(groups, overlap, n - 1);
      CoveredStep(groups, overlap, n);
      UncarriedStep(groups, overlap, n);
    } else if n == 1 {
      var skips := Skips(groups, overlap);
      assert groups[..1] == [groups[0]] && skips[0] == 0;
      assert Covered(groups, skips, 1) == [] + After(groups[0], 0);
      assert groups[0][0..] == groups[0];
    }
  }

  /** `Covered` with the carried counts, one chunk further. */
  lemma CoveredStep(groups: seq<seq<string>>, overlap: int, n: nat)
    requires 2 <= n <= |groups|
    ensures Covered(groups, Skips(groups, overlap), n) ==
      Covered(groups, Skips(groups, overlap), n - 1) + After(groups[n - 1], |Carried(groups[n - 2], overlap)|)
  {
    var skips := Skips(groups, overlap);
    assert skips[n - 1] == |Carried(groups[n - 2], overlap)|;
  }

  /** `Uncarried` of a prefix, one chunk further. */
  lemma UncarriedStep(groups: seq<seq<string>>, overlap: int, n: nat)
    requires 2 <= n <= |groups|
    ensures Uncarried(groups[..n], overlap) ==
      Uncarried(groups[..n - 1], overlap) + After(groups[n - 1], |Carried(groups[n - 2], overlap)|)
  {
    var gs := groups[..n];
    assert gs[..n - 1] == groups[..n - 1];
    assert gs[n - 2] == groups[n - 2] && gs[n - 1] == groups[n - 1];
  }

  /** If `c` ends `u`, then `c + rest` ends `u + rest`. */
  lemma SuffixExtend(u: seq<string>, c: seq<string>, rest: seq<string>)
    requires EndsWith(u, c)
    ensures EndsWith(u + rest, c + rest)
  {
    var v := u + rest;
    forall i | 0 <= i < |c + rest| ensures v[|v| - |c + rest| + i] == (c + rest)[i] {
      if i < |c| {
        assert v[|v| - |c + rest| + i] == u[|u| - |c| + i];
      }
    }
  }

  /** A suffix of a suffix is a suffix. */
  lemma SuffixTrans(u: seq<string>, e: seq<string>, c: seq<string>)
    requires EndsWith(u, e) && EndsWith(e, c)
    ensures EndsWith(u, c)
  {
    assert u[|u| - |c|..] == u[|u| - |e|..][|e| - |c|..];
  }

  /** Chunk `n - 1` is the last `|chunk|` paragraphs of what the first `n` chunks cover. */
  lemma {:induction false} GroupIsSuffix(groups: seq<seq<string>>, skips: seq<nat>, n: nat)
    requires SkipsFit(groups, skips) && 1 <= n <= |groups|
    ensures EndsWith(Covered(groups, skips, n), groups[n - 1])
  {
    var g, k := groups[n - 1], skips[n - 1];
    assert SkipFits(groups, skips, n - 1);
    var c, rest := g[..k], g[k..];
    assert g == c + rest;
    assert Covered(groups, skips, n) == Covered(groups, skips, n - 1) + rest;
    if n == 1 {
      assert Covered(groups, skips, n) == rest;
      assert g[0..] == g;
    } else {
      GroupIsSuffix(groups, skips, n - 1);
      var prev, e := Covered(groups, skips, n - 1), groups[n - 2];
      SuffixTrans(prev, e, c);
      SuffixExtend(prev, c, rest);
    }
  }

  /** What the first `k` chunks cover is a prefix of what the first `n` cover. */
  lemma {:induction false} CoveredGrows(groups: seq<seq<string>>, skips: seq<nat>, k: nat, n: nat)
    requires k <= n <= |groups| && n <= |skips|
    ensures IsPrefix(Covered(groups, skips, k), Covered(groups, skips, n))
  {
    var a := Covered(groups, skips, k);
    if k < n {
      CoveredGrows(groups, skips, k, n - 1);
      var b, rest := Covered(groups, skips, n - 1), After(groups[n - 1], skips[n - 1]);
      assert Covered(groups, skips, n) == b + rest;
      PrefixAppend(a, b, rest);
    } else {
      assert a[..|a|] == a;
    }
  }

  /** A prefix of `b` is a prefix of `b + rest`. */
  lemma PrefixAppend(a: seq<string>, b: seq<string>, rest: seq<string>)
    requires IsPrefix(a, b)
    ensures IsPrefix(a, b + rest)
  {
    assert (b + rest)[..|b|] == b;
  }

  /** A suffix of a prefix of `u` is a slice of `u` ending where the prefix ends. */
  lemma PrefixSuffix(u: seq<string>, w: seq<string>, g: seq<string>, e: nat)
    requires IsPrefix(w, u) && EndsWith(w, g) && e == |w|
    ensures RunEndingAt(u, g, e)
  {
    assert u[..e] == w;
    assert u[e - |g|..e] == w[e - |g|..];
  }

  /** Chunk `j` is the run of covered paragraphs that ends at `RunEnd(groups, skips, j)`. */
  lemma GroupRun(groups: seq<seq<string>>, skips: seq<nat>, j: nat)
    requires SkipsFit(groups, skips) && j < |groups|
    ensures RunEndingAt(Covered(groups, skips, |groups|), groups[j], RunEnd(groups, skips, j))
  {
    GroupIsSuffix(groups, skips, j + 1);
    CoveredGrows(groups, skips, j + 1, |groups|);
    var u, w := Covered(groups, skips, |groups|), Covered(groups, skips, j + 1);
    var e := RunEnd(groups, skips, j);
    PrefixSuffix(u, w, groups[j], e);
  }

  /**
   * Each chunk ends further along the covered paragraphs than the chunk before it, and starts
   * no later than where that chunk ends.
   */
  lemma RunEndIncreases(groups: seq<seq<string>>, skips: seq<nat>, j: nat)
    requires 1 <= j < |groups| && j < |skips| && skips[j] < |groups[j]|
    ensures RunEnd(groups, skips, j - 1) < RunEnd(groups, skips, j)
    ensures RunEnd(groups, skips, j) - |groups[j]| <= RunEnd(groups, skips, j - 1)
  {
    assert Covered(groups, skips, j + 1) == Covered(groups, skips, j) + After(groups[j], skips[j]);
  }

  /** The chunks skip exactly what they carry, and what they then cover is the paragraph list. */
  lemma ChunksCovered(ps: seq<string>, chunkSize: int, overlap: int)
    ensures var groups := ChunkGroups(ps, chunkSize, overlap);
      SkipsFit(groups, Skips(groups, overlap)) && Covered(groups, Skips(groups, overlap), |groups|) == ps
  {
    Coverage(ps, chunkSize, overlap);
    var groups := ChunkGroups(ps, chunkSize, overlap);
    LinkedSkipsFit(groups, overlap);
    CoveredPrefix(groups, overlap, |groups|);
    assert groups[..|groups|] == groups;
  }

  /**
   * Every chunk is a non-empty run of consecutive paragraphs `ps[GroupEnd - |chunk| .. GroupEnd]`;
   * the first run starts at the first paragraph, the last one ends at the last paragraph, the
   * runs' ends strictly increase and each run starts no later than the one before it ends, so
   * no paragraph is skipped or reordered. (`ChunkParagraphs` adds that none is split.)
   */
  lemma ChunksAreRuns(ps: seq<string>, chunkSize: int, overlap: int)
    ensures var groups := ChunkGroups(ps, chunkSize, overlap);
      (forall j :: 0 <= j < |groups| ==>
        groups[j] != [] && RunEndingAt(ps, groups[j], GroupEnd(groups, overlap, j))) &&
      (groups != [] ==>
        GroupEnd(groups, overlap, 0) == |groups[0]| && GroupEnd(groups, overlap, |groups| - 1) == |ps|) &&
      (forall j :: 1 <= j < |groups| ==>
        GroupEnd(groups, overlap, j - 1) < GroupEnd(groups, overlap, j) &&
        GroupEnd(groups, overlap, j) - |groups[j]| <= GroupEnd(groups, overlap, j - 1))
  {
    ChunksCovered(ps, chunkSize, overlap);
    var groups := ChunkGroups(ps, chunkSize, overlap);
    var skips := Skips(groups, overlap);
    RunsAll(groups, skips, ps);
    forall j | 0 <= j < |groups|
      ensures groups[j] != [] && RunEndingAt(ps, groups[j], GroupEnd(groups, overlap, j))
    {
    }
    forall j | 1 <= j < |groups|
      ensures GroupEnd(groups, overlap, j - 1) < GroupEnd(groups, overlap, j)
      ensures GroupEnd(groups, overlap, j) - |groups[j]| <= GroupEnd(groups, overlap, j - 1)
    {
    }
  }

  /** The three facts of `ChunksAreRuns`, for any skip counts that fit. */
  lemma RunsAll(groups: seq<seq<string>>, skips: seq<nat>, ps: seq<string>)
    requires SkipsFit(groups, skips) && Covered(groups, skips, |groups|) == ps
    ensures forall j :: 0 <= j < |groups| ==>
      groups[j] != [] && RunEndingAt(ps, groups[j], RunEnd(groups, skips, j))
    ensures groups != [] ==>
      RunEnd(groups, skips, 0) == |groups[0]| && RunEnd(groups, skips, |groups| - 1) == |ps|
    ensures forall j :: 1 <= j < |groups| ==>
      RunEnd(groups, skips, j - 1) < RunEnd(groups, skips, j) &&
      RunEnd(groups, skips, j) - |groups[j]| <= RunEnd(groups, skips, j - 1)
  {
    RunsCover(groups, skips, ps);
    RunsEnds(groups, skips, ps);
    EndsIncrease(groups, skips);
  }

  /** Every chunk is a non-empty run of the covered paragraphs ending at its `RunEnd`. */
  lemma RunsCover(groups: seq<seq<string>>, skips: seq<nat>, ps: seq<string>)
    requires SkipsFit(groups, skips) && Covered(groups, skips, |groups|) == ps
    ensures forall j :: 0 <= j < |groups| ==>
      groups[j] != [] && RunEndingAt(ps, groups[j], RunEnd(groups, skips, j))
  {
    forall j | 0 <= j < |groups|
      ensures groups[j] != [] && RunEndingAt(ps, groups[j], RunEnd(groups, skips, j))
    {
      assert SkipFits(groups, skips, j);
      GroupRun(groups, skips, j);
    }
  }

  /** The first run starts at the first paragraph and the last one ends at the last paragraph. */
  lemma RunsEnds(groups: seq<seq<string>>, skips: seq<nat>, ps: seq<string>)
    requires SkipsFit(groups, skips) && Covered(groups, skips, |groups|) == ps
    ensures groups != [] ==>
      RunEnd(groups, skips, 0) == |groups[0]| && RunEnd(groups, skips, |groups| - 1) == |ps|
  {
    if groups != [] {
      assert SkipFits(groups, skips, 0);
      assert Covered(groups, skips, 1) == [] + After(groups[0], 0);
      assert groups[0][0..] == groups[0];
    }
  }

  /** The runs' ends strictly increase, and each run starts no later than the one before ends. */
  lemma EndsIncrease(groups: seq<seq<string>>, skips: seq<nat>)
    requires SkipsFit(groups, skips)
    ensures forall j :: 1 <= j < |groups| ==>
      RunEnd(groups, skips, j - 1) < RunEnd(groups, skips, j) &&
      RunEnd(groups, skips, j) - |groups[j]| <= RunEnd(groups, skips, j - 1)
  {
    forall j | 1 <= j < |groups|
      ensures RunEnd(groups, skips, j - 1) < RunEnd(groups, skips, j)
      ensures RunEnd(groups, skips, j) - |groups[j]| <= RunEnd(groups, skips, j - 1)
    {
      assert SkipFits(groups, skips, j);
      RunEndIncreases(groups, skips, j);
    }
  }

  // ---------------------------------------------------------------------------------------
  // Sizes when nothing is carried over
  // ---------------------------------------------------------------------------------------

  /** Joined length of a chunk of paragraphs. */
  lemma JoinedLength(g: seq<string>)
    requires g != []
    ensures |Join(g, ParagraphSep)| == SumLen(g) + 2 * (|g| - 1)
  {
    JoinLength(g, ParagraphSep);
  }

  lemma {:induction false} FeedSizes(ps: seq<string>, chunkSize: int, overlap: int)
    requires overlap <= 0
    ensures var st := Feed(ps, chunkSize, overlap);
      st.bufferLen == SumLen(st.buffer) + 2 * |st.buffer| &&
      (|st.buffer| >= 2 ==> |Join(st.buffer, ParagraphSep)| + 2 <= chunkSize) &&
      forall k :: 0 <= k < |st.groups| && |st.groups[k]| >= 2 ==> |Join(st.groups[k], ParagraphSep)| + 2 <= chunkSize
    decreases |ps|
  {
    if ps != [] {
      var prev, p := ps[..|ps| - 1], ps[|ps| - 1];
      FeedSizes(prev, chunkSize, overlap);
      var st := Feed(prev, chunkSize, overlap);
      var st' := Feed(ps, chunkSize, overlap);
      assert ps[..|ps| - 1] == prev;
      assert st' == Step(st, p, chunkSize, overlap);
      SumLenAppend(st.buffer, p);
      var candidateLen := st.bufferLen + |p| + (if st.buffer != [] then 2 else 0);
      if candidateLen > chunkSize && st.buffer != [] {
        assert Carried(st.buffer, overlap) == [];
        assert st' == ChunkState(st.groups + [st.buffer], [p], |p| + 2);
        assert SumLen([p]) == |p| by { SumLenAppend([], p); }
      } else {
        assert st' == ChunkState(st.groups, st.buffer + [p], st.bufferLen + |p| + 2);
        if st.buffer != [] {
          JoinedLength(st.buffer + [p]);
        } else {
          assert st.buffer + [p] == [p];
        }
      }
    }
  }

  /**
   * With no overlap, every chunk of two or more paragraphs fits in `chunk_size` with two
   * characters to spare: the size test counts one separator more than the join writes.
   */
  lemma SizeBound(ps: seq<string>, chunkSize: int, overlap: int)
    requires overlap <= 0
    ensures var groups := ChunkGroups(ps, chunkSize, overlap);
      forall k :: 0 <= k < |groups| && |groups[k]| >= 2 ==> |Join(groups[k], ParagraphSep)| + 2 <= chunkSize
  {
    FeedSizes(ps, chunkSize, overlap);
  }

  /**
   * With no overlap, a paragraph longer than `chunk_size` is emitted whole as a chunk of its
   * own, and every chunk that holds it holds nothing else.
   */
  lemma OversizedParagraphAlone(ps: seq<string>, chunkSize: int, overlap: int, p: string)
    requires overlap <= 0 && p in ps && |p| > chunkSize
    ensures var groups := ChunkGroups(ps, chunkSize, overlap);
      [p] in groups && forall k :: 0 <= k < |groups| && p in groups[k] ==> groups[k] == [p]
  {
    var groups := ChunkGroups(ps, chunkSize, overlap);
    SizeBound(ps, chunkSize, overlap);
    forall k | 0 <= k < |groups| && p in groups[k]
      ensures groups[k] == [p]
    {
      AloneInGroup(groups[k], p, chunkSize);
    }
    NoOverlapPartition(ps, chunkSize, overlap);
    ConcatMember(groups, p);
  }

  /** A paragraph longer than `chunk_size` fits in no chunk of two or more paragraphs that keeps the bound. */
  lemma AloneInGroup(g: seq<string>, p: string, chunkSize: int)
    requires p in g && |p| > chunkSize
    requires |g| >= 2 ==> |Join(g, ParagraphSep)| + 2 <= chunkSize
    ensures g == [p]
  {
    var i :| 0 <= i < |g| && g[i] == p;
    SumLenMember(g, i);
    JoinedLength(g);
  }

  lemma {:induction false} ConcatMember(groups: seq<seq<string>>, x: string)
    requires x in Concat(groups)
    ensures exists k :: 0 <= k < |groups| && x in groups[k]
    decreases |groups|
  {
    var prefix := groups[..|groups| - 1];
    if x !in groups[|groups| - 1] {
      ConcatMember(prefix, x);
      var k :| 0 <= k < |prefix| && x in prefix[k];
      assert groups[k] == prefix[k];
    }
  }

  /**
   * The seed carried into a buffer is not re-checked against `chunk_size`: with overlap 1
   * and chunk size 5, the text "aaaa\n\nbbbb" gives the chunks "aaaa" and "aaaa\n\nbbbb",
   * the second 10 characters long.
   */
  lemma OverlapChunkCanExceedSize()
    ensures ChunkGroups(["aaaa", "bbbb"], 5, 1) == [["aaaa"], ["aaaa", "bbbb"]]
    ensures |Join(["aaaa", "bbbb"], ParagraphSep)| == 10
  {
    var ps := ["aaaa", "bbbb"];
    assert ps[..1] == ["aaaa"] && ps[..1][..0] == [];
    var st1 := Feed(["aaaa"], 5, 1);
    assert st1 == ChunkState([], ["aaaa"], 6);
    assert ScanBack(["aaaa"], 1, 1) == 0 by {
      assert ["aaaa"][0..] == ["aaaa"];
    }
    assert Carried(["aaaa"], 1) == ["aaaa"];
    assert Feed(ps, 5, 1) == Step(st1, "bbbb", 5, 1);
    assert Feed(ps, 5, 1) == ChunkState([["aaaa"]], ["aaaa", "bbbb"], 10);
    assert ["aaaa", "bbbb"][1..] == ["bbbb"];
    assert Join(["aaaa", "bbbb"], ParagraphSep) == "aaaa" + ParagraphSep + "bbbb";
  }
  /**
   * A chunk of `chunk_markdown` splits on the blank line back into its own paragraphs: the run
   * of the text's paragraphs that `ChunksAreRuns` names. So no paragraph is split across or
   * merged within a chunk.
   */
  lemma ChunkParagraphs(text: string, chunkSize: int, overlap: int)
    ensures var ps := Paragraphs(text);
      var groups := ChunkGroups(ps, chunkSize, overlap);
      var chunks := JoinAll(groups);
      forall j :: 0 <= j < |chunks| ==>
        Split(chunks[j], ParagraphSep) == groups[j] &&
        RunEndingAt(ps, Split(chunks[j], ParagraphSep), GroupEnd(groups, overlap, j))
  {
    var ps := Paragraphs(text);
    var groups := ChunkGroups(ps, chunkSize, overlap);
    var chunks := JoinAll(groups);
    ChunksAreRuns(ps, chunkSize, overlap);
    ParagraphsAreStripped(text);
    ParagraphsLackBlankLine(text);
    forall j | 0 <= j < |chunks|
      ensures Split(chunks[j], ParagraphSep) == groups[j]
    {
      RunSplitsBack(ps, groups[j], GroupEnd(groups, overlap, j));
    }
  }

  /** A non-empty run of stripped paragraphs without a blank line splits back into itself. */
  lemma RunSplitsBack(ps: seq<string>, g: seq<string>, e: int)
    requires g != [] && RunEndingAt(ps, g, e)
    requires forall p :: p in ps ==> IsStripped(p) && LacksSep(p, "\n\n")
    ensures Split(Join(g, ParagraphSep), ParagraphSep) == g
  {
    forall k | 0 <= k < |g|
      ensures IsStripped(g[k]) && LacksSep(g[k], "\n\n")
    {
      assert g[k] == ps[e - |g| + k];
    }
    GroupSplitsBack(g);
  }

  /** Stripped paragraphs without a blank line, joined with blank lines, split back apart. */
  lemma GroupSplitsBack(g: seq<string>)
    requires g != []
    requires forall k :: 0 <= k < |g| ==> IsStripped(g[k]) && LacksSep(g[k], "\n\n")
    ensures Split(Join(g, ParagraphSep), ParagraphSep) == g
  {
    assert IsSpace('\n');
    SplitJoin(g);
  }

  /**
   * With overlap, a paragraph longer than `chunk_size` need not be a chunk of its own: it is
   * appended to the carried tail. With overlap 1 and chunk size 5, "ab\n\ncdefgh" gives the
   * chunks "ab" and "ab\n\ncdefgh", so `OversizedParagraphAlone` needs `overlap <= 0`.
   */
  lemma OversizedParagraphShared()
    ensures |"cdefgh"| > 5
    ensures ChunkGroups(["ab", "cdefgh"], 5, 1) == [["ab"], ["ab", "cdefgh"]]
    ensures ["cdefgh"] !in ChunkGroups(["ab", "cdefgh"], 5, 1)
  {
    var ps := ["ab", "cdefgh"];
    assert ps[..1] == ["ab"] && ps[..1][..0] == [];
    var st1 := Feed(["ab"], 5, 1);
    assert st1 == ChunkState([], ["ab"], 4);
    assert ScanBack(["ab"], 1, 1) == 0 by {
      assert ["ab"][0..] == ["ab"];
    }
    assert Carried(["ab"], 1) == ["ab"];
    assert Feed(ps, 5, 1) == Step(st1, "cdefgh", 5, 1);
    assert Feed(ps, 5, 1) == ChunkState([["ab"]], ["ab", "cdefgh"], 10);
  }
}
