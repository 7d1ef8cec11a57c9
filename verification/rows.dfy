/** The per-table part of the extractor: which columns a table uses, which rows of it
    become achievements, and what each achievement record holds. Cheerio's view of a
    table is given as data: its rows in document order, each a sequence of cells with
    their kind (`th` or `td`), text, inner HTML and the `href` of their first link. */
module Rows {
  import opened Maybe
  import opened JsText
  import opened Links
  import opened Columns
  import opened Variants
  import opened Arrays

  datatype CellKind = HeaderCell | DataCell

  /** One `th` or `td`: its `text()`, its `html()`, and the `href` attribute of the
      first `a` inside it (None when there is no link or that link has no `href`). */
  datatype Cell = Cell(kind: CellKind, text: string, html: string, firstLinkHref: Option<string>)

  type Row = seq<Cell>
  type Table = seq<Row>

  /** One record of the API's `achievements` array. */
  datatype Achievement = Achievement(id: nat, name: string, unlockHtml: string, url: Option<string>)

  /** What happens to the chosen unlock fragment besides variant selection: the
      parser's view of fragments, and `finish`, which stands for the Cheerio link pass,
      serialisation and sanitize-html together (their effect on links is stated in
      module Anchors). */
  datatype Rendering = Rendering(reader: FragmentReader, finish: string -> string)

  /** The normalised texts of the `th` and `td` cells of the table's first row, the
      header row `findColumnIndexes` reads. */
  function HeaderTexts(table: Table): (hs: seq<string>)
    ensures table == [] ==> hs == []
    ensures table != [] ==> |hs| == |table[0]|
    ensures table != [] ==> forall i :: 0 <= i < |hs| ==> hs[i] == NormalizeHeader(table[0][i].text)
  {
    if table == [] then []
    else seq(|table[0]|, i requires 0 <= i < |table[0]| => NormalizeHeader(table[0][i].text))
  }

  /** `$(tr).find("td")`: the data cells of a row, in order; header cells are skipped,
      so a row's data indices can differ from its header indices. */
  function DataCells(row: Row): (tds: seq<Cell>)
    ensures |tds| <= |row|
    ensures forall i :: 0 <= i < |tds| ==> tds[i].kind == DataCell && tds[i] in row
    ensures forall i :: 0 <= i < |row| && row[i].kind == DataCell ==> row[i] in tds
  {
    if row == [] then []
    else
      assert row == [row[0]] + row[1..];
      (if row[0].kind == DataCell then [row[0]] else []) + DataCells(row[1..])
  }

  /** Data cells are picked out piece by piece, in document order; with the one-cell
      case below this fixes `DataCells` completely. */
  lemma {:induction false} DataCellsConcat(a: Row, b: Row)
    ensures DataCells(a + b) == DataCells(a) + DataCells(b)
  {
    if a == [] {
      assert a + b == b;
    } else {
      assert (a + b)[0] == a[0] && (a + b)[1..] == a[1..] + b;
      DataCellsConcat(a[1..], b);
    }
  }

  /** One cell: a `td` is kept, a `th` is skipped. */
  lemma DataCellsOne(c: Cell)
    ensures DataCells([c]) == if c.kind == DataCell then [c] else []
  {
    assert [c][1..] == [];
  }

  /** A header row spelled "Unlock", "ID", "Name" is normalised and mapped by role,
      not by position. */
  lemma RawHeadersExample()
    ensures FindColumnIndexes(HeaderTexts(SpelledHeaders())) == Some(ColumnIndexes(1, 2, 0))
  {
    SpelledHeaderTexts();
    ReorderedHeadersExample();
  }

  function SpelledHeaders(): Table {
    [[Cell(HeaderCell, "Unlock", "Unlock", None),
      Cell(HeaderCell, "ID", "ID", None),
      Cell(HeaderCell, "Name", "Name", None)]]
  }

  lemma SpelledHeaderTexts()
    ensures HeaderTexts(SpelledHeaders()) == ["unlock", "id", "name"]
  {
    var row := SpelledHeaders()[0];
    HeaderTextsOfThree(SpelledHeaders(), row[0].text, row[1].text, row[2].text);
    SpelledWords();
  }

  lemma HeaderTextsOfThree(table: Table, a: string, b: string, c: string)
    requires table != [] && |table[0]| == 3
    requires table[0][0].text == a && table[0][1].text == b && table[0][2].text == c
    ensures HeaderTexts(table) == [NormalizeHeader(a), NormalizeHeader(b), NormalizeHeader(c)]
  {
    var hs := HeaderTexts(table);
    ThreeItems(hs, NormalizeHeader(a), NormalizeHeader(b), NormalizeHeader(c));
  }

  lemma ThreeItems<T>(xs: seq<T>, x: T, y: T, z: T)
    requires |xs| == 3 && xs[0] == x && xs[1] == y && xs[2] == z
    ensures xs == [x, y, z]
  {
  }

  lemma SpelledWords()
    ensures NormalizeHeader("Unlock") == "unlock"
    ensures NormalizeHeader("ID") == "id"
    ensures NormalizeHeader("Name") == "name"
  {
    SpelledUnlock();
    SpelledId();
    SpelledName();
  }

  lemma SpelledUnlock()
    ensures NormalizeHeader("Unlock") == "unlock"
  {
    NormalizesTo("Unlock", "unlock");
  }

  lemma SpelledId()
    ensures NormalizeHeader("ID") == "id"
  {
    NormalizesTo("ID", "id");
  }

  lemma SpelledName()
    ensures NormalizeHeader("Name") == "name"
  {
    NormalizesTo("Name", "name");
  }

  /** A word without white space or punctuation normalises to its lower-case letters. */
  lemma NormalizesTo(text: string, expected: string)
    requires forall i :: 0 <= i < |text| ==> !IsSpace(text[i]) && !IsHeaderPunctuation(text[i])
    requires |expected| == |text| && forall i :: 0 <= i < |text| ==> LowerChar(text[i]) == expected[i]
    ensures NormalizeHeader(text) == expected
  {
    NormalizeWord(text);
  }

  /** `cells.eq(i).text()`: "" when there is no cell `i`. */
  function TextAt(tds: seq<Cell>, i: nat): string {
    if i < |tds| then tds[i].text else ""
  }

  /** `cells.eq(i).html() ?? ""`: "" when there is no cell `i`. */
  function HtmlAt(tds: seq<Cell>, i: nat): string {
    if i < |tds| then tds[i].html else ""
  }

  /** `cells.eq(i).find("a").first().attr("href") || ""`. */
  function LinkAt(tds: seq<Cell>, i: nat): string {
    if i < |tds| then tds[i].firstLinkHref.GetOr("") else ""
  }

  /** `parseInt(text.replace(/[^\d]/g, ""), 10)`, with NaN as None: every digit of the
      cell counts, wherever it stands. */
  function ParseId(text: string): (r: Option<nat>)
    ensures r.None? <==> forall i :: 0 <= i < |text| ==> !IsDigit(text[i])
    ensures r.Some? ==> r.value == DecimalValue(KeepDigits(text))
  {
    var digits := KeepDigits(text);
    if digits == [] then None else Some(DecimalValue(digits))
  }

  /** An id written out in decimal reads back as itself. */
  lemma ParseIdRoundTrip(n: nat)
    ensures ParseId(Decimal(n)) == Some(n)
  {
    DecimalRoundTrip(n);
  }

  /** Digits scattered through the cell are read together as one number. */
  lemma ParseIdExample()
    ensures ParseId("No. 4 (b5)") == Some(45)
  {
    ScatteredDigits();
    FortyFive();
  }

  lemma ScatteredDigits()
    ensures KeepDigits("No. 4 (b5)") == "45"
  {
    assert "No. 4 (b5)" == "No. 4" + " (b5)";
    KeepDigitsConcat("No. 4", " (b5)");
    DigitsOfFront();
    DigitsOfBack();
  }

  lemma FortyFive()
    ensures DecimalValue("45") == 45
  {
    assert "45"[..1] == "4";
  }

  lemma DigitsOfFront()
    ensures KeepDigits("No. 4") == "4"
  {
    KeepDigitsConcat("No. ", "4");
    assert KeepDigits("No. ") == [];
    KeepDigitsChar('4');
  }

  lemma DigitsOfBack()
    ensures KeepDigits(" (b5)") == "5"
  {
    KeepDigitsConcat(" (b", "5)");
    assert KeepDigits(" (b") == [];
    KeepDigitsConcat("5", ")");
    KeepDigitsChar('5');
    KeepDigitsChar(')');
  }

  /** The link of a name cell: absent when the cell has no link target, otherwise the
      resolved target (which is "" for a target of white space only). */
  function NameUrl(raw: string): (url: Option<string>)
    ensures url.None? <==> raw == []
    ensures url.Some? ==> (url.value == [] <==> AllSpace(raw))
    ensures url.Some? && url.value != [] ==> HasAbsoluteScheme(url.value)
    ensures url.Some? ==> url.value == ToAbsoluteHref(raw)
  {
    if raw == [] then None else Some(ToAbsoluteHref(raw))
  }

  /** The unlock fragment before variant selection: the cell's markup, or its trimmed
      text when the markup is empty. */
  function UnlockSource(tds: seq<Cell>, i: nat): (s: string)
    ensures HtmlAt(tds, i) != [] ==> s == HtmlAt(tds, i)
    ensures HtmlAt(tds, i) == [] ==> s == Trim(TextAt(tds, i))
  {
    var raw := HtmlAt(tds, i);
    if raw != [] then raw else Trim(TextAt(tds, i))
  }

  /** One body row of a table whose columns were found: an achievement, or None when
      the row is skipped. Its contract is stated by `ExtractRowSpec`. */
  function ExtractRow(row: Row, idx: ColumnIndexes, render: Rendering): Option<Achievement> {
    var tds := DataCells(row);
    if |tds| < 3 then None
    else
      match ParseId(TextAt(tds, idx.id))
      case None => None
      case Some(id) =>
        var name := Trim(TextAt(tds, idx.name));
        if name == [] then None
        else
          var latest := PickLatestVersionSnippet(UnlockSource(tds, idx.unlock), render.reader);
          Some(Achievement(id, name, render.finish(latest), NameUrl(LinkAt(tds, idx.name))))
  }

  /** A row yields a record exactly when it has at least three data cells, a digit in
      its id cell and a non-blank name; the record carries that id, the trimmed name,
      the resolved link of the name cell and the finished latest unlock variant. */
  lemma ExtractRowSpec(row: Row, idx: ColumnIndexes, render: Rendering)
    ensures var r := ExtractRow(row, idx, render);
      r.Some? <==>
      && |DataCells(row)| >= 3
      && (exists i :: 0 <= i < |TextAt(DataCells(row), idx.id)| && IsDigit(TextAt(DataCells(row), idx.id)[i]))
      && !AllSpace(TextAt(DataCells(row), idx.name))
    ensures var r := ExtractRow(row, idx, render);
      r.Some? ==>
      var tds := DataCells(row);
      && Some(r.value.id) == ParseId(TextAt(tds, idx.id))
      && r.value.name == Trim(TextAt(tds, idx.name))
      && r.value.name != [] && IsTrimmed(r.value.name)
      && r.value.url == NameUrl(LinkAt(tds, idx.name))
      && r.value.unlockHtml == render.finish(PickLatestVersionSnippet(UnlockSource(tds, idx.unlock), render.reader))
  {
  }

  /** The row loop's callback for a table whose columns are `idx`. */
  function RowStep(idx: ColumnIndexes, render: Rendering): Row -> Option<Achievement> {
    row => ExtractRow(row, idx, render)
  }

  /** The achievements of a run of body rows, in row order. */
  function RowRecords(rows: seq<Row>, idx: ColumnIndexes, render: Rendering): (r: seq<Achievement>)
    ensures |r| <= |rows|
  {
    FilterMap(rows, RowStep(idx, render))
  }

  /** The rows of one table: nothing when its header row does not name all three
      columns, otherwise what every row after the first yields. */
  function TableRecords(table: Table, render: Rendering): seq<Achievement> {
    match FindColumnIndexes(HeaderTexts(table))
    case None => []
    case Some(idx) => RowRecords(table[1..], idx, render)
  }

  /** The table loop's callback. */
  function TableStep(render: Rendering): Table -> seq<Achievement> {
    table => TableRecords(table, render)
  }

  /** The achievements of every table, in document order. */
  function DocumentRecords(tables: seq<Table>, render: Rendering): seq<Achievement> {
    FlatMap(tables, TableStep(render))
  }

  // ---------------------------------------------------------------------------
  // properties of the row loop

  /** Every row that yields a record contributes it, and every record comes from a row. */
  lemma RowRecordsMembers(rows: seq<Row>, idx: ColumnIndexes, render: Rendering, a: Achievement)
    ensures a in RowRecords(rows, idx, render) <==>
      exists k :: 0 <= k < |rows| && ExtractRow(rows[k], idx, render) == Some(a)
  {
    FilterMapMembers(rows, RowStep(idx, render), a);
  }

  /** A table contributes exactly the records of its rows after the first, and only
      when its header row names all three columns. */
  lemma TableRecordsMembers(table: Table, render: Rendering, a: Achievement)
    ensures a in TableRecords(table, render) <==>
      && FindColumnIndexes(HeaderTexts(table)).Some?
      && exists k :: 1 <= k < |table| && ExtractRow(table[k], FindColumnIndexes(HeaderTexts(table)).value, render) == Some(a)
  {
    var found := FindColumnIndexes(HeaderTexts(table));
    if found.Some? {
      FilterMapMembersFrom(table, 1, RowStep(found.value, render), a);
    }
  }

  /** The document contributes exactly the records of its tables. */
  lemma DocumentRecordsMembers(tables: seq<Table>, render: Rendering, a: Achievement)
    ensures a in DocumentRecords(tables, render) <==>
      exists k :: 0 <= k < |tables| && a in TableRecords(tables[k], render)
  {
    FlatMapMembers(tables, TableStep(render), a);
  }

  /** A skipped row has no influence: removing it from anywhere in the table leaves
      the extracted records exactly as they were. */
  lemma SkippedRowIsInvisible(before: seq<Row>, skipped: Row, after: seq<Row>, idx: ColumnIndexes, render: Rendering)
    requires ExtractRow(skipped, idx, render).None?
    ensures RowRecords(before + [skipped] + after, idx, render) == RowRecords(before + after, idx, render)
  {
    DropYieldingNothing(before, skipped, after, RowStep(idx, render));
  }

  /** A table whose header row misses one of the three columns contributes nothing,
      whatever its other rows hold. */
  lemma UnrecognisedTableIgnored(table: Table, render: Rendering)
    requires FindColumnIndexes(HeaderTexts(table)).None?
    ensures TableRecords(table, render) == []
  {
  }
}
