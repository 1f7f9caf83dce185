/**
 * The table half of the PDF parser: `extract_tables` cleans the cells of the tables the PDF
 * library finds and numbers them by page and position; `tables_to_markdown` renders them as
 * markdown tables, padding short data rows of the caller's tables in place.
 */
module PdfTables {
  import opened Wrappers
  import opened Strings

  // ---------------------------------------------------------------------------------------
  // Tables as the scripts hold them, and their values
  // ---------------------------------------------------------------------------------------

  /** A table row: a list of cell texts that `tables_to_markdown` may extend in place. */
  class Row {
    var cells: seq<string>

    constructor (cells: seq<string>)
      ensures this.cells == cells
    {
      this.cells := cells;
    }
  }

  /** One entry of the list `extract_tables` returns: `{'page', 'table_num', 'data'}`. */
  datatype TableInfo = TableInfo(page: nat, tableNum: nat, data: seq<Row>)

  /** The value of a table entry at one moment: its numbers and the cells of its rows. */
  datatype Table = Table(page: nat, tableNum: nat, rows: seq<seq<string>>)

  /** Every row object of every table. */
  function Footprint(tables: seq<TableInfo>): set<Row> {
    set t, k | 0 <= t < |tables| && 0 <= k < |tables[t].data| :: tables[t].data[k]
  }

  /** No row object occurs twice, within a table or across tables. */
  predicate RowsDistinct(tables: seq<TableInfo>) {
    forall t, k, t', k' ::
      0 <= t < |tables| && 0 <= k < |tables[t].data| &&
      0 <= t' < |tables| && 0 <= k' < |tables[t'].data| && (t != t' || k != k') ==>
        tables[t].data[k] != tables[t'].data[k']
  }

  /** The entry currently holds the value: the same numbers, and rows with the same cells. */
  ghost predicate HoldsTable(info: TableInfo, value: Table)
    reads info.data
  {
    info.page == value.page && info.tableNum == value.tableNum && |info.data| == |value.rows| &&
    forall k :: 0 <= k < |info.data| ==> info.data[k].cells == value.rows[k]
  }

  /** Each entry currently holds the value at the same position. */
  ghost predicate Holds(infos: seq<TableInfo>, values: seq<Table>)
    reads Footprint(infos)
  {
    |infos| == |values| &&
    forall t :: 0 <= t < |infos| ==> HoldsTable(infos[t], values[t])
  }

  /** Entries that hold their values, one list after another. */
  lemma HoldsConcat(a: seq<TableInfo>, va: seq<Table>, b: seq<TableInfo>, vb: seq<Table>)
    requires Holds(a, va) && Holds(b, vb)
    ensures Holds(a + b, va + vb)
  {
    var all := a + b;
    assert forall t :: 0 <= t < |a| ==> all[t] == a[t];
    assert forall t :: |a| <= t < |all| ==> all[t] == b[t - |a|];
  }

  /** The footprint of two lists of entries is the union of theirs. */
  lemma FootprintConcat(a: seq<TableInfo>, b: seq<TableInfo>)
    ensures Footprint(a + b) == Footprint(a) + Footprint(b)
  {
    var all := a + b;
    forall r | r in Footprint(all) ensures r in Footprint(a) || r in Footprint(b) {
      var t, k :| 0 <= t < |all| && 0 <= k < |all[t].data| && all[t].data[k] == r;
      if t < |a| {
        assert r == a[t].data[k];
      } else {
        assert r == b[t - |a|].data[k];
      }
    }
    forall r | r in Footprint(a) ensures r in Footprint(all) {
      var t, k :| 0 <= t < |a| && 0 <= k < |a[t].data| && a[t].data[k] == r;
      assert all[t].data[k] == r;
    }
    forall r | r in Footprint(b) ensures r in Footprint(all) {
      var t, k :| 0 <= t < |b| && 0 <= k < |b[t].data| && b[t].data[k] == r;
      assert all[|a| + t].data[k] == r;
    }
  }

  /** Two lists of entries that hold their values and share no row, one after the other. */
  lemma AppendEntries(a: seq<TableInfo>, va: seq<Table>, b: seq<TableInfo>, vb: seq<Table>)
    requires Holds(a, va) && Holds(b, vb) && RowsDistinct(a) && RowsDistinct(b)
    requires Footprint(a) !! Footprint(b)
    ensures Holds(a + b, va + vb) && RowsDistinct(a + b) && Footprint(a + b) == Footprint(a) + Footprint(b)
  {
    HoldsConcat(a, va, b, vb);
    DistinctConcat(a, b);
    FootprintConcat(a, b);
  }

  /** Two lists of entries with distinct rows and no row in common have distinct rows together. */
  lemma DistinctConcat(a: seq<TableInfo>, b: seq<TableInfo>)
    requires RowsDistinct(a) && RowsDistinct(b) && Footprint(a) !! Footprint(b)
    ensures RowsDistinct(a + b)
  {
    var all := a + b;
    forall t, k, t', k' |
      0 <= t < |all| && 0 <= k < |all[t].data| &&
      0 <= t' < |all| && 0 <= k' < |all[t'].data| && (t != t' || k != k')
      ensures all[t].data[k] != all[t'].data[k']
    {
      if t < |a| && t' < |a| {
        assert all[t].data[k] == a[t].data[k] && all[t'].data[k'] == a[t'].data[k'];
      } else if t >= |a| && t' >= |a| {
        assert all[t].data[k] == b[t - |a|].data[k] && all[t'].data[k'] == b[t' - |a|].data[k'];
      } else if t < |a| {
        assert all[t].data[k] in Footprint(a) && all[t'].data[k'] in Footprint(b) by {
          assert all[t'].data[k'] == b[t' - |a|].data[k'];
        }
      } else {
        assert all[t'].data[k'] in Footprint(a) && all[t].data[k] in Footprint(b) by {
          assert all[t].data[k] == b[t - |a|].data[k];
        }
      }
    }
  }

  // ---------------------------------------------------------------------------------------
  // extract_tables: cleaning and numbering
  // ---------------------------------------------------------------------------------------

  /** A cell is `None` or its text; a falsy cell becomes `""`, any other its stripped text. */
  function CleanCell(cell: Option<string>): (r: string)
    ensures r == [] || IsStripped(r)
  {
    match cell
    case None => ""
    case Some(text) => if text == [] then "" else Strip(text)
  }

  /** A cell that is missing, empty or all white space is cleaned to `""`, any other is not. */
  lemma CleanCellEmpty(cell: Option<string>)
    ensures CleanCell(cell) == [] <==> cell.None? || AllSpace(cell.value)
  {
    if cell.Some? {
      StripEmptyIffBlank(cell.value);
    }
  }

  /** The cleaned cells of one row, in order. */
  function CleanRow(row: seq<Option<string>>): (r: seq<string>)
    ensures |r| == |row| && forall c :: 0 <= c < |row| ==> r[c] == CleanCell(row[c])
  {
    seq(|row|, c requires 0 <= c < |row| => CleanCell(row[c]))
  }

  /** The cleaned rows of one table, in order. */
  function CleanTable(table: seq<seq<Option<string>>>): (r: seq<seq<string>>)
    ensures |r| == |table| && forall k :: 0 <= k < |table| ==> r[k] == CleanRow(table[k])
  {
    seq(|table|, k requires 0 <= k < |table| => CleanRow(table[k]))
  }

  /**
   * The entries made from the first `n` tables found on page `pageNum` (0-based): every
   * non-empty table, numbered by its 1-based page and its 1-based position on the page.
   */
  function PageTables(pageNum: nat, tables: seq<seq<seq<Option<string>>>>, n: nat): seq<Table>
    requires n <= |tables|
  {
    if n == 0 then []
    else
      PageTables(pageNum, tables, n - 1) +
      (if tables[n - 1] != [] then [Table(pageNum + 1, n, CleanTable(tables[n - 1]))] else [])
  }

  /** The entries made from the first `n` pages. */
  function TablesUpTo(pages: seq<seq<seq<seq<Option<string>>>>>, n: nat): seq<Table>
    requires n <= |pages|
  {
    if n == 0 then [] else TablesUpTo(pages, n - 1) + PageTables(n - 1, pages[n - 1], |pages[n - 1]|)
  }

  /** The entries made from a whole document, given the tables found on each of its pages. */
  function CleanedTables(pages: seq<seq<seq<seq<Option<string>>>>>): seq<Table> {
    TablesUpTo(pages, |pages|)
  }

  /** How many of the first `n` tables are non-empty. */
  function NonEmptyCount<T>(tables: seq<seq<T>>, n: nat): nat
    requires n <= |tables|
  {
    if n == 0 then 0 else NonEmptyCount(tables, n - 1) + (if tables[n - 1] != [] then 1 else 0)
  }

  /**
   * The entries of page `pageNum` from its first `n` tables: one per non-empty table, each
   * numbered by the table's 1-based position and holding its cleaned rows, in increasing
   * table number.
   */
  lemma {:induction false} PageTablesExact(pageNum: nat, tables: seq<seq<seq<Option<string>>>>, n: nat)
    requires n <= |tables|
    ensures var r := PageTables(pageNum, tables, n);
      |r| == NonEmptyCount(tables, n) &&
      (forall a :: 0 <= a < |r| ==>
        r[a].page == pageNum + 1 && 1 <= r[a].tableNum <= n && tables[r[a].tableNum - 1] != [] &&
        r[a].rows == CleanTable(tables[r[a].tableNum - 1])) &&
      (forall a, b :: 0 <= a < b < |r| ==> r[a].tableNum < r[b].tableNum)
  {
    if n > 0 {
      PageTablesExact(pageNum, tables, n - 1);
      var before := PageTables(pageNum, tables, n - 1);
      var r := PageTables(pageNum, tables, n);
      assert forall a :: 0 <= a < |before| ==> r[a] == before[a];
    }
  }

  /** How many non-empty tables the first `n` pages hold. */
  function NonEmptyTotal<T>(pages: seq<seq<seq<T>>>, n: nat): nat
    requires n <= |pages|
  {
    if n == 0 then 0 else NonEmptyTotal(pages, n - 1) + NonEmptyCount(pages[n - 1], |pages[n - 1]|)
  }

  /**
   * The entries of the first `n` pages: one per non-empty table found on them, each numbered
   * by its 1-based page and 1-based position on the page and holding its cleaned rows.
   */
  lemma {:induction false} TablesUpToEntries(pages: seq<seq<seq<seq<Option<string>>>>>, n: nat)
    requires n <= |pages|
    ensures var r := TablesUpTo(pages, n);
      |r| == NonEmptyTotal(pages, n) &&
      forall a :: 0 <= a < |r| ==>
        1 <= r[a].page <= n && 1 <= r[a].tableNum <= |pages[r[a].page - 1]| &&
        pages[r[a].page - 1][r[a].tableNum - 1] != [] &&
        r[a].rows == CleanTable(pages[r[a].page - 1][r[a].tableNum - 1])
  {
    if n > 0 {
      TablesUpToEntries(pages, n - 1);
      PageTablesExact(n - 1, pages[n - 1], |pages[n - 1]|);
      var before := TablesUpTo(pages, n - 1);
      var page := PageTables(n - 1, pages[n - 1], |pages[n - 1]|);
      var r := TablesUpTo(pages, n);
      assert r == before + page;
      assert forall a :: 0 <= a < |before| ==> r[a] == before[a];
      assert forall b :: |before| <= b < |r| ==> r[b] == page[b - |before|];
    }
  }

  /** The entries come in document order: by page, then by position on the page. */
  lemma {:induction false} TablesUpToOrdered(pages: seq<seq<seq<seq<Option<string>>>>>, n: nat)
    requires n <= |pages|
    ensures var r := TablesUpTo(pages, n);
      forall a, b :: 0 <= a < b < |r| ==>
        r[a].page < r[b].page || (r[a].page == r[b].page && r[a].tableNum < r[b].tableNum)
  {
    if n > 0 {
      TablesUpToOrdered(pages, n - 1);
      TablesUpToEntries(pages, n - 1);
      PageTablesExact(n - 1, pages[n - 1], |pages[n - 1]|);
      var before := TablesUpTo(pages, n - 1);
      var page := PageTables(n - 1, pages[n - 1], |pages[n - 1]|);
      var r := TablesUpTo(pages, n);
      assert r == before + page;
      assert forall a :: 0 <= a < |before| ==> r[a] == before[a] && r[a].page <= n - 1;
      assert forall b :: |before| <= b < |r| ==> r[b] == page[b - |before|] && r[b].page == n;
    }
  }

  /** A single entry whose rows hold the cells of a value and are pairwise different. */
  lemma SingleEntry(info: TableInfo, value: Table)
    requires info.page == value.page && info.tableNum == value.tableNum && |info.data| == |value.rows|
    requires forall k :: 0 <= k < |info.data| ==> info.data[k].cells == value.rows[k]
    requires forall j, j' :: 0 <= j < j' < |info.data| ==> info.data[j] != info.data[j']
    ensures Holds([info], [value]) && RowsDistinct([info])
    ensures forall r :: r in Footprint([info]) ==> r in info.data
  {
    forall r | r in Footprint([info]) ensures r in info.data {
      var t, k :| 0 <= t < 1 && 0 <= k < |[info][t].data| && [info][t].data[k] == r;
    }
  }

  /** The cleaning loop of one table: a fresh row object per input row, holding its cleaned cells. */
  method CleanRows(table: seq<seq<Option<string>>>) returns (rows: seq<Row>)
    ensures |rows| == |table| && forall k :: 0 <= k < |table| ==> rows[k].cells == CleanRow(table[k])
    ensures forall j, j' :: 0 <= j < j' < |rows| ==> rows[j] != rows[j']
    ensures forall r :: r in rows ==> fresh(r)
  {
    rows := [];
    for k := 0 to |table|
      invariant |rows| == k
      invariant forall j :: 0 <= j < k ==> rows[j].cells == CleanRow(table[j])
      invariant forall j, j' :: 0 <= j < j' < k ==> rows[j] != rows[j']
      invariant forall r :: r in rows ==> fresh(r)
    {
      var row := new Row(CleanRow(table[k]));
      rows := rows + [row];
    }
  }

  /** The loop over the tables of page `pageNum` (0-based): an entry per non-empty table. */
  method ExtractPage(pageNum: nat, tables: seq<seq<seq<Option<string>>>>) returns (infos: seq<TableInfo>)
    ensures Holds(infos, PageTables(pageNum, tables, |tables|))
    ensures RowsDistinct(infos)
    ensures fresh(Footprint(infos))
  {
    infos := [];
    for tableNum := 0 to |tables|
      invariant Holds(infos, PageTables(pageNum, tables, tableNum))
      invariant RowsDistinct(infos)
      invariant fresh(Footprint(infos))
    {
      ghost var values := PageTables(pageNum, tables, tableNum);
      var entry := ExtractOne(pageNum, tableNum, tables[tableNum]);
      assert Footprint(infos) !! Footprint(entry);
      AppendEntries(infos, values, entry, PageEntry(pageNum, tableNum, tables[tableNum]));
      infos := infos + entry;
      assert PageTables(pageNum, tables, tableNum + 1) == values + PageEntry(pageNum, tableNum, tables[tableNum]);
    }
  }

  /** The entry table `tableNum` (0-based) of page `pageNum` (0-based) gives: none when it is empty. */
  function PageEntry(pageNum: nat, tableNum: nat, table: seq<seq<Option<string>>>): seq<Table> {
    if table != [] then [Table(pageNum + 1, tableNum + 1, CleanTable(table))] else []
  }

  /** The body of the table loop: an entry of fresh cleaned rows for a non-empty table. */
  method ExtractOne(pageNum: nat, tableNum: nat, table: seq<seq<Option<string>>>) returns (entry: seq<TableInfo>)
    ensures Holds(entry, PageEntry(pageNum, tableNum, table))
    ensures RowsDistinct(entry)
    ensures fresh(Footprint(entry))
  {
    entry := [];
    if table != [] && |table| > 0 {
      var cleaned := CleanRows(table);
      var info := TableInfo(pageNum + 1, tableNum + 1, cleaned);
      SingleEntry(info, Table(pageNum + 1, tableNum + 1, CleanTable(table)));
      entry := [info];
    }
  }

  /**
   * `extract_tables`: for every page in order and every non-empty table on it, a new entry
   * holding fresh rows of cleaned cells; no row object is shared.
   */
  method ExtractTables(pages: seq<seq<seq<seq<Option<string>>>>>) returns (infos: seq<TableInfo>)
    ensures Holds(infos, CleanedTables(pages))
    ensures RowsDistinct(infos)
    ensures fresh(Footprint(infos))
  {
    infos := [];
    for pageNum := 0 to |pages|
      invariant Holds(infos, TablesUpTo(pages, pageNum))
      invariant RowsDistinct(infos)
      invariant fresh(Footprint(infos))
    {
      ghost var values := TablesUpTo(pages, pageNum);
      ghost var page := PageTables(pageNum, pages[pageNum], |pages[pageNum]|);
      var entries := ExtractPage(pageNum, pages[pageNum]);
      assert Footprint(infos) !! Footprint(entries);
      AppendEntries(infos, values, entries, page);
      infos := infos + entries;
      assert TablesUpTo(pages, pageNum + 1) == values + page;
    }
  }

  // ---------------------------------------------------------------------------------------
  // tables_to_markdown: rendering
  // ---------------------------------------------------------------------------------------

  /** A row padded with `""` cells up to width `w`; a row already that wide is left as it is. */
  function PadRow(cells: seq<string>, w: nat): (r: seq<string>)
    ensures |r| == if |cells| < w then w else |cells|
    ensures forall c :: 0 <= c < |r| ==> r[c] == if c < |cells| then cells[c] else ""
  {
    if |cells| < w then cells + Repeat("", w - |cells|) else cells
  }

  /** A row as rendered under a header of width `w`: padded, then cut to its first `w` cells. */
  function FitRow(cells: seq<string>, w: nat): (r: seq<string>)
    ensures |r| == w
    ensures forall c :: 0 <= c < w ==> r[c] == if c < |cells| then cells[c] else ""
  {
    PadRow(cells, w)[..w]
  }

  /** One markdown table line: `"| " + " | ".join(cells) + " |\n"`. */
  function RowLine(cells: seq<string>): string {
    "| " + Join(cells, " | ") + " |\n"
  }

  /** The heading put before table `tableNum` of page `page`. */
  function Title(tableNum: nat, page: nat): string {
    "\n### Table " + NatToString(tableNum) + " (Page " + NatToString(page) + ")\n\n"
  }

  /** The data rows `1 .. n - 1` of a table, each fitted to width `w`. */
  function FitAll(rows: seq<seq<string>>, w: nat, n: nat): (r: seq<seq<string>>)
    requires 1 <= n <= |rows|
    ensures |r| == n - 1
  {
    if n == 1 then [] else FitAll(rows, w, n - 1) + [FitRow(rows[n - 1], w)]
  }

  /** Row `k` of `FitAll` is data row `k + 1` fitted. */
  lemma {:induction false} FitAllAt(rows: seq<seq<string>>, w: nat, n: nat, k: nat)
    requires 1 <= n <= |rows| && k < n - 1
    ensures FitAll(rows, w, n)[k] == FitRow(rows[k + 1], w)
  {
    var prev := FitAll(rows, w, n - 1);
    assert FitAll(rows, w, n) == prev + [FitRow(rows[n - 1], w)];
    if k < n - 2 {
      FitAllAt(rows, w, n - 1, k);
      assert (prev + [FitRow(rows[n - 1], w)])[k] == prev[k];
    }
  }

  /** The cell lists a non-empty table is rendered from: the header, the separator, the fitted data rows. */
  function Grid(rows: seq<seq<string>>): seq<seq<string>>
    requires rows != []
  {
    [rows[0], Repeat("---", |rows[0]|)] + FitAll(rows, |rows[0]|, |rows|)
  }

  /** Line `j + 1` of the grid is data row `j` fitted to the header's width. */
  lemma GridAt(rows: seq<seq<string>>, j: nat)
    requires 1 <= j < |rows|
    ensures Grid(rows)[j + 1] == FitRow(rows[j], |rows[0]|)
  {
    var head := [rows[0], Repeat("---", |rows[0]|)];
    var fitted := FitAll(rows, |rows[0]|, |rows|);
    assert (head + fitted)[j + 1] == fitted[j - 1];
    FitAllAt(rows, |rows[0]|, |rows|, j - 1);
  }

  /** The first two lines of a table are its header and the separator. */
  lemma GridStart(rows: seq<seq<string>>)
    requires rows != []
    ensures Lines(Grid(rows), 2) == [RowLine(rows[0]), RowLine(Repeat("---", |rows[0]|))]
  {
    var g := Grid(rows);
    assert g[0] == rows[0] && g[1] == Repeat("---", |rows[0]|);
  }

  /**
   * Every rendered line of a table has exactly as many cells as its header: the header itself,
   * a separator of `---` cells, and each data row padded with `""` or cut, in the input order.
   */
  lemma GridShape(rows: seq<seq<string>>)
    requires rows != []
    ensures var g := Grid(rows); var w := |rows[0]|;
      |g| == |rows| + 1 && g[0] == rows[0] &&
      (forall c :: 0 <= c < w ==> g[1][c] == "---") &&
      (forall j :: 0 <= j < |g| ==> |g[j]| == w) &&
      (forall j, c :: 1 <= j < |rows| && 0 <= c < w ==> g[j + 1][c] == if c < |rows[j]| then rows[j][c] else "")
  {
    var g := Grid(rows);
    var w := |rows[0]|;
    forall j | 1 <= j < |rows| ensures g[j + 1] == FitRow(rows[j], w) {
      GridAt(rows, j);
    }
    forall j | 0 <= j < |g| ensures |g[j]| == w {
      if j >= 2 {
        assert g[j] == FitRow(rows[j - 1], w);
      }
    }
  }

  /** The markdown lines of the first `n` cell lists. */
  function Lines(grid: seq<seq<string>>, n: nat): (r: seq<string>)
    requires n <= |grid|
    ensures |r| == n
  {
    if n == 0 then [] else Lines(grid, n - 1) + [RowLine(grid[n - 1])]
  }

  /**
   * The parts one table contributes: nothing when it has no rows; otherwise its heading, its
   * lines and a closing `"\n"`.
   */
  function TableParts(value: Table): seq<string> {
    if value.rows == [] then []
    else [Title(value.tableNum, value.page)] + Lines(Grid(value.rows), |value.rows| + 1) + ["\n"]
  }

  /** The parts of a list of tables, table after table. */
  function AllParts(values: seq<Table>): seq<string> {
    if values == [] then [] else AllParts(values[..|values| - 1]) + TableParts(values[|values| - 1])
  }

  /** Rendering one more table of a list appends that table's parts. */
  lemma AllPartsStep(values: seq<Table>, i: nat)
    requires i < |values|
    ensures AllParts(values[..i + 1]) == AllParts(values[..i]) + TableParts(values[i])
  {
    assert values[..i + 1][..i] == values[..i];
  }

  /** The markdown of a list of tables. */
  function Render(values: seq<Table>): string {
    Join(AllParts(values), "")
  }

  /** The tables that have rows, in order. */
  function WithRows(values: seq<Table>): (r: seq<Table>)
    ensures |r| <= |values|
  {
    if values == [] then []
    else
      var last := values[|values| - 1];
      WithRows(values[..|values| - 1]) + (if last.rows != [] then [last] else [])
  }

  /** Tables without rows contribute nothing: rendering only the tables that have rows gives the same text. */
  lemma {:induction false} RenderSkipsEmpty(values: seq<Table>)
    ensures AllParts(WithRows(values)) == AllParts(values)
    ensures Render(WithRows(values)) == Render(values)
  {
    if values != [] {
      var init := values[..|values| - 1];
      var last := values[|values| - 1];
      RenderSkipsEmpty(init);
      var w := WithRows(init);
      if last.rows != [] {
        var wl := w + [last];
        assert wl[..|wl| - 1] == w;
        assert wl[|wl| - 1] == last;
        assert AllParts(wl) == AllParts(w) + TableParts(last);
      } else {
        assert TableParts(last) == [];
        assert WithRows(values) == w;
        assert AllParts(values) == AllParts(init);
      }
    }
  }

  /** The first part of a non-empty rendering is a table heading, which is never empty. */
  lemma {:induction false} AllPartsFirst(values: seq<Table>)
    ensures AllParts(values) != [] ==> AllParts(values)[0] != []
    ensures AllParts(values) == [] <==> forall t :: 0 <= t < |values| ==> values[t].rows == []
  {
    if values != [] {
      var init := values[..|values| - 1];
      AllPartsFirst(init);
      assert forall t :: 0 <= t < |init| ==> init[t] == values[t];
    }
  }

  /** The markdown is empty exactly when no table has a row, in particular for an empty list. */
  lemma RenderEmptyIffNoRows(values: seq<Table>)
    ensures Render(values) == [] <==> forall t :: 0 <= t < |values| ==> values[t].rows == []
  {
    var parts := AllParts(values);
    AllPartsFirst(values);
    if parts != [] {
      JoinLength(parts, "");
      SumLenMember(parts, 0);
    }
  }

  /** A table's rows after `tables_to_markdown`: the header as it was, each data row padded. */
  function PadTable(value: Table): (r: Table)
    ensures r.page == value.page && r.tableNum == value.tableNum && |r.rows| == |value.rows|
    ensures value.rows != [] ==> r.rows[0] == value.rows[0]
    ensures forall k :: 1 <= k < |value.rows| ==> r.rows[k] == PadRow(value.rows[k], |value.rows[0]|)
  {
    if value.rows == [] then value
    else value.(rows := seq(|value.rows|, k requires 0 <= k < |value.rows| =>
      if k == 0 then value.rows[0] else PadRow(value.rows[k], |value.rows[0]|)))
  }

  /** All tables after `tables_to_markdown`. */
  function Padded(values: seq<Table>): (r: seq<Table>)
    ensures |r| == |values| && forall t :: 0 <= t < |values| ==> r[t] == PadTable(values[t])
  {
    seq(|values|, t requires 0 <= t < |values| => PadTable(values[t]))
  }

  /** Padding a padded row again changes nothing, and a padded row renders as the row itself. */
  lemma PadRowTwice(cells: seq<string>, w: nat)
    ensures PadRow(PadRow(cells, w), w) == PadRow(cells, w)
    ensures FitRow(PadRow(cells, w), w) == FitRow(cells, w)
  {
    var p := PadRow(cells, w);
    assert forall c :: 0 <= c < w ==> FitRow(p, w)[c] == FitRow(cells, w)[c];
  }

  /** Rows that render alike give the same fitted data rows. */
  lemma {:induction false} FitAllSame(rows: seq<seq<string>>, rows': seq<seq<string>>, w: nat, n: nat)
    requires 1 <= n <= |rows| && n <= |rows'|
    requires forall k :: 1 <= k < n ==> FitRow(rows'[k], w) == FitRow(rows[k], w)
    ensures FitAll(rows', w, n) == FitAll(rows, w, n)
  {
    if n > 1 {
      FitAllSame(rows, rows', w, n - 1);
    }
  }

  /** Padding is idempotent: a second `tables_to_markdown` leaves the rows as the first left them. */
  lemma PadTableTwice(value: Table)
    ensures PadTable(PadTable(value)) == PadTable(value)
  {
    var p := PadTable(value);
    var q := PadTable(p);
    if value.rows != [] {
      var w := |value.rows[0]|;
      forall k | 1 <= k < |value.rows| ensures q.rows[k] == p.rows[k] {
        PadRowTwice(value.rows[k], w);
      }
    }
  }

  /** A padded table renders exactly as the table did before padding. */
  lemma TablePartsPadded(value: Table)
    ensures TableParts(PadTable(value)) == TableParts(value)
  {
    var p := PadTable(value);
    if value.rows != [] {
      var w := |value.rows[0]|;
      forall k | 1 <= k < |value.rows| ensures FitRow(p.rows[k], w) == FitRow(value.rows[k], w) {
        PadRowTwice(value.rows[k], w);
      }
      FitAllSame(value.rows, p.rows, w, |value.rows|);
      assert Grid(p.rows) == Grid(value.rows);
    }
  }

  /** The padded tables render to the same markdown, so a second call returns the same text. */
  lemma {:induction false} RenderPadded(values: seq<Table>)
    ensures AllParts(Padded(values)) == AllParts(values)
    ensures Render(Padded(values)) == Render(values)
  {
    if values != [] {
      var init := values[..|values| - 1];
      var last := values[|values| - 1];
      var padded := Padded(values);
      RenderPadded(init);
      assert padded[..|padded| - 1] == Padded(init);
      TablePartsPadded(last);
    }
  }

  /** The padding loop: appends `""` cells to a row until it is `w` cells wide. */
  method PadInPlace(row: Row, w: nat)
    modifies row
    ensures row.cells == PadRow(old(row.cells), w)
  {
    ghost var original := row.cells;
    while |row.cells| < w
      invariant |original| <= |row.cells| && (|row.cells| <= w || row.cells == original)
      invariant row.cells == original + Repeat("", |row.cells| - |original|)
      decreases w - |row.cells|
    {
      row.cells := row.cells + [""];
    }
  }

  /** The cells of row `j` of a table once its data rows before `k` have been padded to width `w`. */
  function PaddedBefore(rows: seq<seq<string>>, w: nat, k: nat, j: nat): seq<string>
    requires j < |rows|
  {
    if 1 <= j < k then PadRow(rows[j], w) else rows[j]
  }

  /** Once every data row has been padded, the rows are those of the padded table. */
  lemma PaddedAll(value: Table, j: nat)
    requires value.rows != [] && j < |value.rows|
    ensures PaddedBefore(value.rows, |value.rows[0]|, |value.rows|, j) == PadTable(value).rows[j]
  {
  }

  /** The lines of one more cell list. */
  lemma LinesStep(grid: seq<seq<string>>, n: nat)
    requires n < |grid|
    ensures Lines(grid, n + 1) == Lines(grid, n) + [RowLine(grid[n])]
  {
  }

  /**
   * One turn of the data-row loop of `tables_to_markdown`: pad row `k` in place to the header's
   * width `w`, cut it to `w` cells and render it; the other rows are left as they are.
   */
  method RenderDataRow(table: seq<Row>, k: nat, w: nat, ghost rows: seq<seq<string>>) returns (line: string)
    requires 1 <= k < |table| == |rows|
    requires forall j, j' :: 0 <= j < j' < |table| ==> table[j] != table[j']
    requires forall j :: 0 <= j < |table| ==> table[j].cells == PaddedBefore(rows, w, k, j)
    modifies table[k]
    ensures line == RowLine(FitRow(rows[k], w))
    ensures forall j :: 0 <= j < |table| ==> table[j].cells == PaddedBefore(rows, w, k + 1, j)
  {
    var row := table[k];
    assert row.cells == rows[k];
    PadInPlace(row, w);
    var cells := row.cells[..w];
    line := RowLine(cells);
    forall j | 0 <= j < |table| ensures table[j].cells == PaddedBefore(rows, w, k + 1, j) {
      if j != k {
        assert table[j] != row;
      }
    }
  }

  /**
   * The lines of one table with rows: its header line, separator line and one line per data
   * row, each short data row first padded in place to the header's width.
   */
  method RenderRows(table: seq<Row>, ghost rows: seq<seq<string>>) returns (lines: seq<string>)
    requires 1 <= |table| == |rows|
    requires forall j, j' :: 0 <= j < j' < |table| ==> table[j] != table[j']
    requires forall j :: 0 <= j < |table| ==> table[j].cells == rows[j]
    modifies table
    ensures lines == Lines(Grid(rows), |rows| + 1)
    ensures forall j :: 0 <= j < |table| ==> table[j].cells == PaddedBefore(rows, |rows[0]|, |rows|, j)
  {
    var header := table[0].cells;
    lines := [RowLine(header), RowLine(Repeat("---", |header|))];
    ghost var grid := Grid(rows);
    GridStart(rows);
    for k := 1 to |table|
      invariant lines == Lines(grid, k + 1)
      invariant forall j :: 0 <= j < |table| ==> table[j].cells == PaddedBefore(rows, |header|, k, j)
    {
      var line := RenderDataRow(table, k, |header|, rows);
      GridAt(rows, k);
      LinesStep(grid, k + 1);
      lines := lines + [line];
    }
  }

  /**
   * The rendering of one table: nothing for a table without rows; otherwise its heading, its
   * lines and a closing `"\n"`, with its short data rows padded in place.
   */
  method RenderTable(info: TableInfo, ghost value: Table) returns (parts: seq<string>)
    requires HoldsTable(info, value)
    requires forall j, j' :: 0 <= j < j' < |info.data| ==> info.data[j] != info.data[j']
    modifies info.data
    ensures parts == TableParts(value)
    ensures HoldsTable(info, PadTable(value))
  {
    var table := info.data;
    if |table| < 1 {
      return [];
    }
    var lines := RenderRows(table, value.rows);
    parts := [Title(info.tableNum, info.page)] + lines + ["\n"];
    forall j | 0 <= j < |table| ensures table[j].cells == PadTable(value).rows[j] {
      PaddedAll(value, j);
    }
  }

  /** The tables' values once the first `i` of them have been rendered. */
  function Progress(before: seq<Table>, i: nat): (r: seq<Table>)
    ensures |r| == |before| && forall t :: 0 <= t < |before| ==> r[t] == if t < i then PadTable(before[t]) else before[t]
  {
    seq(|before|, t requires 0 <= t < |before| => if t < i then PadTable(before[t]) else before[t])
  }

  /** With no row shared, the rows of any other table are not rows of table `i`. */
  lemma OtherTablesApart(tables: seq<TableInfo>, i: nat)
    requires RowsDistinct(tables) && i < |tables|
    ensures forall t, k :: 0 <= t < |tables| && t != i && 0 <= k < |tables[t].data| ==>
      tables[t].data[k] !in tables[i].data
  {
  }

  /**
   * `tables_to_markdown`: the tables' markdown, in order, skipping tables without rows; every
   * short data row of the caller's tables is padded in place, and nothing else changes.
   */
  method TablesToMarkdown(tables: seq<TableInfo>, ghost before: seq<Table>) returns (md: string)
    requires Holds(tables, before)
    requires RowsDistinct(tables)
    modifies Footprint(tables)
    ensures md == Render(before)
    ensures Holds(tables, Padded(before))
  {
    var parts: seq<string> := [];
    for i := 0 to |tables|
      invariant parts == AllParts(before[..i])
      invariant forall t, k :: 0 <= t < |tables| && 0 <= k < |tables[t].data| ==>
        tables[t].data[k].cells == Progress(before, i)[t].rows[k]
    {
      OtherTablesApart(tables, i);
      var tableParts := RenderTable(tables[i], before[i]);
      AllPartsStep(before, i);
      parts := parts + tableParts;
    }
    assert before[..|tables|] == before;
    md := Join(parts, "");
  }
}
