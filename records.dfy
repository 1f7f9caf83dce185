/**
 * `infer_section_title` and `records_from_chunks`: turning the chunks of one markdown file and
 * their embedding vectors into the rows written to the vector table, each tagged with the first
 * markdown heading found in its chunk.
 */
module Records {
  import opened Wrappers
  import opened Strings

  // ---------------------------------------------------------------------------------------
  // Section titles
  // ---------------------------------------------------------------------------------------

  /** A line is a heading when, stripped, it starts with `#`. */
  predicate IsHeading(line: string) {
    var stripped := Strip(line);
    stripped != [] && stripped[0] == '#'
  }

  /**
   * The title of a heading line: stripped, then its leading `#`s removed, then stripped again.
   * It is empty or stripped itself; it may still begin with `#` when the hashes were followed
   * by a space.
   */
  function HeadingTitle(line: string): (r: string)
    ensures r == [] || IsStripped(r)
  {
    Strip(LStripChars(Strip(line), "#"))
  }

  /**
   * The index of the first heading among `lines[i..]`, or `|lines|` when there is none: the
   * loop of `infer_section_title`, which returns at the first heading line.
   */
  function FirstHeadingFrom(lines: seq<string>, i: nat): (k: nat)
    requires i <= |lines|
    ensures i <= k <= |lines| && (k < |lines| ==> IsHeading(lines[k]))
    decreases |lines| - i
  {
    if i == |lines| || IsHeading(lines[i]) then i else FirstHeadingFrom(lines, i + 1)
  }

  /** No line that `FirstHeadingFrom` passes over is a heading. */
  lemma {:induction false} FirstHeadingFromSkips(lines: seq<string>, i: nat)
    requires i <= |lines|
    ensures forall m :: i <= m < FirstHeadingFrom(lines, i) ==> !IsHeading(lines[m])
    decreases |lines| - i
  {
    if i < |lines| && !IsHeading(lines[i]) {
      FirstHeadingFromSkips(lines, i + 1);
    }
  }

  /** The title of the first heading among `lines`, or `None`. */
  function FirstHeading(lines: seq<string>): Option<string> {
    var k := FirstHeadingFrom(lines, 0);
    if k < |lines| then Some(HeadingTitle(lines[k])) else None
  }

  /** None of the first `n` lines is a heading. */
  predicate NoHeadingBefore(lines: seq<string>, n: nat)
    requires n <= |lines|
  {
    forall m :: 0 <= m < n ==> !IsHeading(lines[m])
  }

  /** `t` is the title of a heading line that no heading line precedes. */
  ghost predicate FirstTitle(lines: seq<string>, t: string) {
    exists k :: 0 <= k < |lines| && IsHeading(lines[k]) && t == HeadingTitle(lines[k]) && NoHeadingBefore(lines, k)
  }

  /**
   * `FirstHeading` finds nothing exactly when no line is a heading; otherwise it gives the
   * title of a heading line that no heading line precedes.
   */
  lemma FirstHeadingSpec(lines: seq<string>)
    ensures FirstHeading(lines).None? <==> NoHeadingBefore(lines, |lines|)
    ensures FirstHeading(lines).Some? ==> FirstTitle(lines, FirstHeading(lines).value)
  {
    FirstHeadingFromSkips(lines, 0);
    var k := FirstHeadingFrom(lines, 0);
    if k < |lines| {
      assert NoHeadingBefore(lines, k);
      assert !NoHeadingBefore(lines, |lines|) by {
        assert IsHeading(lines[k]);
      }
    }
  }

  /** `infer_section_title`: the first heading title among the lines of a chunk, if any. */
  function InferSectionTitle(chunkText: string): (r: Option<string>)
    ensures r.None? <==> NoHeadingBefore(SplitLines(chunkText), |SplitLines(chunkText)|)
    ensures r.Some? ==> FirstTitle(SplitLines(chunkText), r.value)
  {
    var lines := SplitLines(chunkText);
    FirstHeadingSpec(lines);
    FirstHeading(lines)
  }

  // ---------------------------------------------------------------------------------------
  // Records
  // ---------------------------------------------------------------------------------------

  /** One table row: the dictionary `records_from_chunks` builds for a chunk. */
  datatype Record<V> = Record(
    id: string,
    sourcePath: string,
    chunkIndex: nat,
    content: string,
    section: Option<string>,
    vector: V)

  /** The message of the `ValueError` raised when the two lists differ in length. */
  const LengthMismatch: string := "Number of chunks and embeddings must match."

  /** The row id `f"{source_name}-{idx}"`. */
  function RecordId(sourceStem: string, idx: nat): string {
    sourceStem + "-" + NatToString(idx)
  }

  /** The record `records_from_chunks` builds for chunk `idx`. */
  function RecordFor<V>(sourceStem: string, sourcePath: string, idx: nat, chunkText: string, vector: V): Record<V> {
    Record(RecordId(sourceStem, idx), sourcePath, idx, chunkText, InferSectionTitle(chunkText), vector)
  }

  /** The records `records_from_chunks` builds for the first `n` chunks, in order. */
  function RecordsOf<V>(sourceStem: string, sourcePath: string, chunks: seq<string>, embeddings: seq<V>, n: nat): (r: seq<Record<V>>)
    requires n <= |chunks| && n <= |embeddings|
    ensures |r| == n
  {
    if n == 0 then []
    else RecordsOf(sourceStem, sourcePath, chunks, embeddings, n - 1) + [RecordFor(sourceStem, sourcePath, n - 1, chunks[n - 1], embeddings[n - 1])]
  }

  /** Record `i` is the one built from chunk `i`, its index and its vector. */
  lemma {:induction false} RecordsOfAt<V>(sourceStem: string, sourcePath: string, chunks: seq<string>, embeddings: seq<V>, n: nat, i: nat)
    requires n <= |chunks| && n <= |embeddings| && i < n
    ensures RecordsOf(sourceStem, sourcePath, chunks, embeddings, n)[i] == RecordFor(sourceStem, sourcePath, i, chunks[i], embeddings[i])
  {
    var prev := RecordsOf(sourceStem, sourcePath, chunks, embeddings, n - 1);
    var last := RecordFor(sourceStem, sourcePath, n - 1, chunks[n - 1], embeddings[n - 1]);
    assert RecordsOf(sourceStem, sourcePath, chunks, embeddings, n) == prev + [last];
    if i < n - 1 {
      RecordsOfAt(sourceStem, sourcePath, chunks, embeddings, n - 1, i);
      assert (prev + [last])[i] == prev[i];
    }
  }

  /**
   * `records_from_chunks`: fails with `LengthMismatch` when there are not as many embeddings
   * as chunks; otherwise gives one record per chunk, in order.
   */
  method RecordsFromChunks<V>(chunks: seq<string>, embeddings: seq<V>, sourceStem: string, sourcePath: string)
    returns (result: Result<seq<Record<V>>, string>)
    ensures result.Failure? <==> |chunks| != |embeddings|
    ensures result.Failure? ==> result.error == LengthMismatch
    ensures result.Success? ==> result.value == RecordsOf(sourceStem, sourcePath, chunks, embeddings, |chunks|)
  {
    if |chunks| != |embeddings| {
      return Failure(LengthMismatch);
    }
    var records: seq<Record<V>> := [];
    for idx := 0 to |chunks|
      invariant records == RecordsOf(sourceStem, sourcePath, chunks, embeddings, idx)
    {
      records := records + [RecordFor(sourceStem, sourcePath, idx, chunks[idx], embeddings[idx])];
    }
    return Success(records);
  }

  /** Reading the digits after `source_name + "-"` back gives the chunk index. */
  lemma RecordIdIndex(sourceStem: string, idx: nat)
    ensures var id := RecordId(sourceStem, idx);
      |id| > |sourceStem| + 1 && id[..|sourceStem| + 1] == sourceStem + "-" &&
      ParseNat(id[|sourceStem| + 1..]) == idx
  {
    var id := RecordId(sourceStem, idx);
    assert id[|sourceStem| + 1..] == NatToString(idx);
    ParseNatToString(idx);
  }

  /** The records of one source file have pairwise different ids. */
  lemma RecordIdsDistinct(sourceStem: string, i: nat, j: nat)
    requires i != j
    ensures RecordId(sourceStem, i) != RecordId(sourceStem, j)
  {
    RecordIdIndex(sourceStem, i);
    RecordIdIndex(sourceStem, j);
  }
}
