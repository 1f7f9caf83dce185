# Markdown chunking and PDF-to-markdown conversion, modelled in Dafny

This project models the text-processing core of a small retrieval pipeline. The pipeline turns
PDF documents into markdown, cuts markdown into overlapping chunks and stores those chunks, with
their embedding vectors, as rows of a vector table.

- `Chunking` (chunking.dfy) models `chunk_markdown`. It splits the text into blank-line
  paragraphs and strips them. It buffers paragraphs until the next one would pass `chunk_size`.
  It then flushes the buffer as one chunk and seeds the next buffer with the shortest tail of
  the flushed paragraphs whose lengths reach `overlap`.
  - `ChunkMarkdown` is the script's loop. It is proved equal to a one-paragraph-at-a-time
    specification, `Step`, `Feed` and `ChunkGroups`, with `JoinAll` joining each group.
  - `OverlapParagraphs` is the loop's inner backward scan. It is proved equal to the function
    `OverlapTail`, which `Step` uses to seed the next buffer.
  - The lemmas say what the chunks are: how many there are, that every paragraph is covered
    in order, the shape of the overlap, the size bound, and so on.
- `Records` (records.dfy) models `infer_section_title` and `records_from_chunks`. A record is
  the row built for one chunk: its id `"<stem>-<index>"`, the source path, the chunk index,
  the content, the first heading of the chunk and the vector.
- `PdfText` (pdf_text.dfy) models `PDFParser.extract_text`.
  - A horizontal rule goes before every non-blank page except page 0.
  - Each paragraph becomes either a `## ` heading (one line, under 100 characters, upper case)
    or a paragraph whose line breaks become spaces.
- `PdfTables` (pdf_tables.dfy) models `PDFParser.extract_tables` and
  `PDFParser.tables_to_markdown`.
  - Table rows are objects (`class Row`), because `tables_to_markdown` pads the caller's rows
    in place while it renders them.
  - The methods are proved against value-level specifications: `CleanedTables`, `Render` and
    `Padded`.
- `Strings` (strings.dfy) holds the Python string built-ins the scripts rely on: `split`,
  `join`, `strip`, `lstrip`, `splitlines`, `replace`, `isupper` and `str` of a natural number.
  Each is stated on `string` and carries lemmas such as `Join(Split(s, sep), sep) == s`.
- `Wrappers` (wrappers.dfy) holds `Option`, for Python's `None`, and `Result`, for a raised
  exception.

## Model

| member | source | states |
|---|---|---|
| Chunking.ChunkMarkdown | example/import_to_lancedb.py:32-74 | the chunks are the blank-line-joined groups of the paragraph process `ChunkGroups` over the stripped non-blank paragraphs; no chunks exactly when the text is all white space (the early return at 42-43) |
| Chunking.AddParagraph | example/import_to_lancedb.py:49-69 | one loop turn: the new buffer, `buffer_len` and chunk list are those of `Step`, i.e. flush when `buffer_len + len(para) + 2 > chunk_size` on a non-empty buffer, reseed with the overlap tail (or empty when `overlap <= 0`) and its unseparated length, then append `para` with `+ 2` |
| Chunking.OverlapParagraphs | example/import_to_lancedb.py:54-62 | the backward scan with `break` returns exactly `OverlapTail(buffer, overlap)` |
| Chunking.OverlapTailShortest | example/import_to_lancedb.py:57-61 | the carried tail is a suffix of the flushed buffer, non-empty when the buffer is, reaches `overlap` (or is the whole buffer), and no shorter suffix reaches `overlap` |
| Chunking.ScanBackStops | example/import_to_lancedb.py:57-61 | the scan stops at the front or where the taken paragraphs' lengths first reach `overlap` |
| Chunking.Carried | example/import_to_lancedb.py:54-66 | what is carried into the next buffer is a suffix of the flushed one, and is non-empty when `overlap > 0` and the buffer is non-empty |
| Chunking.JoinAll | example/import_to_lancedb.py:52 | one chunk per paragraph list, each the list joined with `"\n\n"` |
| Chunking.ChunkCount | example/import_to_lancedb.py:41-74 | there are no chunks exactly when there are no paragraphs, and never more chunks than paragraphs |
| Chunking.Coverage | example/import_to_lancedb.py:49-72 | every chunk is non-empty, each chunk after the first starts with the tail carried from the one before and adds at least one paragraph, and dropping the carried prefixes leaves exactly the paragraphs in order |
| Chunking.OverlapShape | example/import_to_lancedb.py:54-63 | with `overlap > 0`, chunk `j` begins with the overlap tail of chunk `j - 1`: a non-empty suffix of it that reaches `overlap` (or is all of it), the shortest such, followed by new paragraphs |
| Chunking.LinkedShape | example/import_to_lancedb.py:54-63 | the same shape for any linked chunk sequence, from which `OverlapShape` follows |
| Chunking.NoOverlapPartition | example/import_to_lancedb.py:64-66 | with `overlap <= 0` the chunks partition the paragraphs: their concatenation is the paragraph list |
| Chunking.ChunksAreRuns | example/import_to_lancedb.py:49-72 | every chunk is a contiguous run of the paragraph list; the first starts at paragraph 0, the last ends at the last paragraph and the runs' ends strictly increase, and each run starts no later than the one before it ends, so no paragraph is skipped |
| Chunking.SizeBound | example/import_to_lancedb.py:50-52 | with `overlap <= 0` every chunk of two or more paragraphs is at most `chunk_size - 2` characters long |
| Chunking.FeedSizes | example/import_to_lancedb.py:47-69 | with `overlap <= 0`, `buffer_len` is always the buffer's lengths plus 2 per paragraph, and every multi-paragraph buffer and flushed chunk stays within `chunk_size - 2` |
| Chunking.OversizedParagraphAlone | example/import_to_lancedb.py:50-52 | with `overlap <= 0`, a paragraph longer than `chunk_size` is a chunk of its own and shares no chunk with another paragraph |
| Chunking.OversizedParagraphShared | example/import_to_lancedb.py:50-69 | with overlap, a paragraph longer than `chunk_size` shares its chunk: `["ab", "cdefgh"]` with size 5 and overlap 1 gives the groups `["ab"]` and `["ab", "cdefgh"]`, and `["cdefgh"]` is not a group |
| Chunking.ChunkParagraphs | example/import_to_lancedb.py:41-74 | each chunk, split on the blank line, gives back exactly its own group, which is the run of the text's paragraphs ending where `ChunksAreRuns` says; no paragraph is split or merged |
| Chunking.OverlapChunkCanExceedSize | example/import_to_lancedb.py:62-69 | with overlap, a chunk can exceed `chunk_size`: `["aaaa", "bbbb"]` with size 5 and overlap 1 gives a second chunk of 10 characters |
| Chunking.JoinedLength | example/import_to_lancedb.py:52 | a joined chunk is its paragraphs' lengths plus 2 per separator |
| Records.InferSectionTitle | example/import_to_lancedb.py:77-83 | over the `splitlines()` of the chunk: `None` exactly when no line is a heading, otherwise the title of the first heading line |
| Records.FirstHeadingSpec | example/import_to_lancedb.py:79-83 | `None` exactly when no line is a heading (stripped, starts with `#`); otherwise the title of the first heading line, stripped, `#`s removed from the front, stripped again |
| Records.FirstHeadingFrom | example/import_to_lancedb.py:79-82 | the loop index where the search stops is a heading line or the end |
| Records.FirstHeadingFromSkips | example/import_to_lancedb.py:79-82 | every line the search passes over is not a heading |
| Records.HeadingTitle | example/import_to_lancedb.py:82 | a title is empty or has no white space at either end |
| Records.RecordsFromChunks | example/import_to_lancedb.py:103-122 | fails with the `ValueError` message exactly when the two lists differ in length; otherwise the records are `RecordsOf` all chunks |
| Records.RecordsOf | example/import_to_lancedb.py:107-120 | one record per chunk |
| Records.RecordsOfAt | example/import_to_lancedb.py:110-120 | record `i` has id `"<stem>-i"`, the source path, chunk index `i`, chunk `i` as content, that chunk's section title and vector `i` |
| Records.RecordIdIndex | example/import_to_lancedb.py:113 | an id is the stem, a dash and the decimal index, which reads back as the index |
| Records.RecordIdsDistinct | example/import_to_lancedb.py:113 | records of one source have pairwise different ids |
| PdfText.ExtractText | example/pdf_parser.py:44-71 | the loop over pages returns exactly `Markdown(pages)`, the concatenation of every page's parts |
| PdfText.PagePartsShape | example/pdf_parser.py:52-61 | a page contributes nothing exactly when it is blank; otherwise the rule (only when its index is not 0, even after blank pages) and one part per paragraph |
| PdfText.PagePartsNonEmpty | example/pdf_parser.py:55-69 | every part a page contributes is non-empty |
| PdfText.PartsUpToNonEmpty | example/pdf_parser.py:48-69 | every part of the document is non-empty |
| PdfText.PartsUpToEmptyIffBlank | example/pdf_parser.py:48-52 | the pages contribute no part exactly when all of them are blank |
| PdfText.MarkdownEmptyIffBlank | example/pdf_parser.py:44-71 | the markdown is empty exactly when every page is empty or white space |
| PdfText.FormatParagraph | example/pdf_parser.py:63-69 | a heading grows by `"## "` and `"\n"`, any other paragraph by `"\n\n"` |
| PdfText.FormatParagraphOneLine | example/pdf_parser.py:63-69 | each paragraph becomes one markdown line: no `"\n"` before its closing one (heading) or two (paragraph) |
| PdfText.HeadingHasNoBreak | example/pdf_parser.py:63-64 | a heading paragraph contains no `"\n"` |
| PdfText.FormatAllAt | example/pdf_parser.py:61-69 | part `k` of a page's paragraphs is paragraph `k` formatted |
| PdfText.FormatAllNonEmpty | example/pdf_parser.py:61-69 | every formatted paragraph is non-empty |
| PdfTables.ExtractTables | example/pdf_parser.py:73-95 | the entries built hold exactly `CleanedTables(pages)`; their rows are fresh and pairwise different objects |
| PdfTables.ExtractPage | example/pdf_parser.py:78-93 | the entries of one page hold exactly `PageTables` of that page, with fresh, pairwise different rows |
| PdfTables.ExtractOne | example/pdf_parser.py:81-93 | an empty table gives no entry; otherwise one entry numbered by 1-based page and position whose rows hold the cleaned table |
| PdfTables.CleanRows | example/pdf_parser.py:84-87 | one fresh row object per input row, holding that row's cleaned cells, all distinct |
| PdfTables.CleanCell | example/pdf_parser.py:86 | a cleaned cell is empty or stripped |
| PdfTables.CleanCellEmpty | example/pdf_parser.py:86 | a cell cleans to `""` exactly when it is `None` or white space |
| PdfTables.CleanRow | example/pdf_parser.py:86 | same length as the row, cell by cell cleaned |
| PdfTables.CleanTable | example/pdf_parser.py:84-87 | same number of rows, row by row cleaned |
| PdfTables.PageTablesExact | example/pdf_parser.py:81-93 | a page yields one entry per non-empty table, on that page, numbered 1.., in increasing table order, holding the cleaned table |
| PdfTables.TablesUpToEntries | example/pdf_parser.py:78-93 | the document yields one entry per non-empty table, each with a valid 1-based page and table number and the cleaned rows of exactly that table |
| PdfTables.TablesUpToOrdered | example/pdf_parser.py:78-93 | entries come in document order: by page, then by table number |
| PdfTables.TablesToMarkdown | example/pdf_parser.py:97-124 | returns `Render` of the tables as they were, and leaves every table padded as `PadTable` says |
| PdfTables.RenderTable | example/pdf_parser.py:101-122 | the parts of one table are `TableParts` of its value before padding, and afterwards its rows hold `PadTable` of that value |
| PdfTables.RenderRows | example/pdf_parser.py:109-120 | the header, rule and data lines are the lines of `Grid(rows)`, and every data row is padded in place to the header width |
| PdfTables.RenderDataRow | example/pdf_parser.py:114-120 | one data row: pads it in place and returns the line of the row fitted (padded, then truncated) to the header width; other rows are unchanged |
| PdfTables.PadInPlace | example/pdf_parser.py:116-117 | appends `""` to the row until it is as long as the header; a longer row is left as is |
| PdfTables.PadRow | example/pdf_parser.py:116-117 | a padded row has the larger of the two lengths, its own cells first and `""` after |
| PdfTables.FitRow | example/pdf_parser.py:116-119 | a fitted row has exactly the header width, its own cells first and `""` after |
| PdfTables.GridShape | example/pdf_parser.py:109-120 | the grid is the header, then `"---"` per header cell, then every data row fitted to the header width |
| PdfTables.GridStart | example/pdf_parser.py:110-111 | the first two lines are the header line and the rule line |
| PdfTables.RenderSkipsEmpty | example/pdf_parser.py:102-104 | tables without rows add nothing |
| PdfTables.RenderEmptyIffNoRows | example/pdf_parser.py:97-124 | the markdown is empty exactly when no table has rows |
| PdfTables.AllPartsFirst | example/pdf_parser.py:106 | a non-empty rendering starts with a non-empty part; there are no parts exactly when no table has rows |
| PdfTables.PadTable | example/pdf_parser.py:114-117 | padding keeps page, number, row count and header, and pads every data row to the header width |
| PdfTables.PadTableTwice | example/pdf_parser.py:116-117 | padding is idempotent |
| PdfTables.PadRowTwice | example/pdf_parser.py:116-119 | padding a row twice is padding it once, and fitting a padded row is fitting the row |
| PdfTables.TablePartsPadded | example/pdf_parser.py:114-120 | a padded table renders as the original |
| PdfTables.RenderPadded | example/pdf_parser.py:97-124 | rendering the tables after the in-place padding gives the same markdown as before it |
| PdfTables.OtherTablesApart | example/pdf_parser.py:101-117 | padding one table's rows touches no row of another table |
| Strings.JoinSplit | example/import_to_lancedb.py:41 | joining the pieces of a split with the separator gives back the text |
| Strings.SplitPiecesLackSep | example/import_to_lancedb.py:41 | no piece of a split contains the separator, and the first piece is a prefix of the text |
| Strings.SplitJoin | example/import_to_lancedb.py:41 | non-empty list of pieces, none holding the separator `"\n\n"` and none but the last ending in `\n`: splitting their join gives back the pieces |
| Strings.SplitLacking | example/import_to_lancedb.py:41 | a text without the separator splits into itself alone |
| Strings.SplitAfterPiece | example/import_to_lancedb.py:41 | when the separator first occurs right after `p`, the split is `p` followed by the split of the rest |
| Strings.ParagraphsLackBlankLine | example/import_to_lancedb.py:41 | no paragraph contains the blank-line separator |
| Strings.SplitSingle | example/pdf_parser.py:63-64 | splitting on one character gives one piece exactly when the character does not occur |
| Strings.JoinLength | example/import_to_lancedb.py:52 | a join is the parts' lengths plus one separator between each two |
| Strings.JoinMembers | example/import_to_lancedb.py:41 | a character of a join occurs in a part or in the separator, and every character of a part occurs in the join |
| Strings.Strip | example/import_to_lancedb.py:41 | the stripped text is a slice with no white space at either end |
| Strings.StripRemovesSpace | example/import_to_lancedb.py:41 | only white space is removed |
| Strings.StripEmptyIffBlank | example/import_to_lancedb.py:41 | a text strips to `""` exactly when it is all white space |
| Strings.StripIdempotent | example/import_to_lancedb.py:41 | stripping twice is stripping once |
| Strings.LStripChars | example/import_to_lancedb.py:82 | `lstrip("#")` leaves a suffix that does not start with `#` |
| Strings.LStripCharsRemoves | example/import_to_lancedb.py:82 | only `#`s are removed |
| Strings.ParagraphsAreStripped | example/import_to_lancedb.py:41 | every paragraph is stripped and non-empty |
| Strings.ParagraphsEmptyIffBlank | example/import_to_lancedb.py:41-43 | there are no paragraphs exactly when the text is all white space |
| Strings.StrippedNonBlankEmpty | example/import_to_lancedb.py:41 | the filter keeps nothing exactly when every piece is blank |
| Strings.SplitLinesNoBreaks | example/import_to_lancedb.py:79 | no line of `splitlines()` holds a line boundary, and a text without one is a single line (none if empty) |
| Strings.SplitLinesRoundTrip | example/import_to_lancedb.py:79 | `splitlines()` loses nothing: there is one boundary per line (`\r\n`, a single line-break character, or none after a last unterminated line), and each line followed by its boundary, concatenated, is the text |
| Strings.ReplaceChar | example/pdf_parser.py:68 | `replace('\n', ' ')` keeps the length and changes exactly the newlines |
| Strings.Repeat | example/pdf_parser.py:111 | `["---"] * n` is `n` copies |
| Strings.ParseNatToString | example/import_to_lancedb.py:113 | the decimal digits of `idx` read back as `idx` |
| Strings.NatToStringInjective | example/import_to_lancedb.py:113 | different indexes print differently |

## Left out

- The PDF and table libraries are not part of this model. The text of each page and the
  tables of each page (rows of optional string cells) are inputs. Images, file handling,
  embedding, the database, search, the command-line entry points and printing are left out too.
- Strings.IsUpper (and so PdfText.IsHeadingParagraph): `str.isupper()` is modelled for ASCII
  letters only: some letter `A`-`Z` and no letter `a`-`z`. Python also looks at the cased letters
  of other scripts, so the two differ in both directions. `"ABC é"` is upper case in the model
  but not in Python, because `é` is a lower-case letter. `"É"` is upper case in Python but not in
  the model, because it has no ASCII letter.
- Chunking.OversizedParagraphAlone: a paragraph longer than `chunk_size` is a chunk of its own
  only when `overlap <= 0`. With overlap it is appended to the carried tail, as
  `OversizedParagraphShared` shows.
- Strings.IsSpace and Strings.IsLineBreak list the code points Python treats as white space and
  as line boundaries. Strings are sequences of code points, and lone surrogates are not treated
  specially.
- Table cells are `None` or a string. A non-string cell, converted with `str(cell)`, is not
  modelled, and an empty-string cell is treated like `None`, which cleans to `""` in both.
- PdfTables.TablesToMarkdown requires the rows of all tables to be pairwise different objects.
  The script does not check this, but `extract_tables`, which produces its input, builds a new
  list for every row. Shared rows, where padding one table would change another, are not
  modelled.
- The default arguments `chunk_size=1200` and `overlap=200` are not modelled. Both are
  parameters of `ChunkMarkdown`, with any integer value.
- Records.RecordsFromChunks takes the file's stem and its path as two independent strings. How
  `Path.stem` and `str(path)` derive from one path is not modelled. Vectors are an arbitrary
  type `V`.
- Some loop bodies are separate methods so that each can be proved on its own:
  `AddParagraph`, `ExtractOne` and `RenderDataRow`. Page and table numbers are natural numbers.
