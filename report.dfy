/** The Excel report of `export_to_excel_advanced`: one worksheet per non-empty
    table, titled with the table's name cut to Excel's limit, then styled from
    its geometry (frozen header, header fill, a colour scale over the data, and
    an auto-filter over the used range). Worksheets are values here; the
    workbook file they are saved to is not modelled. */
module Report {
  import opened Wrappers
  import opened Text
  import opened Tables

  /** Excel's limit on the length of a sheet title. */
  const MAX_TITLE_LENGTH: nat := 31
  const FREEZE_CELL: string := "B2"

  datatype NamedTable = NamedTable(name: string, table: Table)

  /** `name[:31]`. */
  function SheetTitle(name: string): (title: string)
    ensures |title| == if |name| <= MAX_TITLE_LENGTH then |name| else MAX_TITLE_LENGTH
    ensures title == name[..|title|]
  {
    if |name| <= MAX_TITLE_LENGTH then name else name[..MAX_TITLE_LENGTH]
  }

  /** A name that fits is kept whole. */
  lemma SheetTitleOfShortName(name: string)
    requires |name| <= MAX_TITLE_LENGTH
    ensures SheetTitle(name) == name
  {
    assert name[..|name|] == name;
  }

  /** The positions of the tables that get a sheet: the non-empty ones, in the
      order given. */
  function Selected(sheets: seq<NamedTable>): (r: seq<nat>)
    ensures forall k :: 0 <= k < |r| ==> r[k] < |sheets| && !IsEmpty(sheets[r[k]].table)
    ensures forall k, l :: 0 <= k < l < |r| ==> r[k] < r[l]
    ensures forall i :: 0 <= i < |sheets| && !IsEmpty(sheets[i].table) ==> i in r
  {
    if sheets == [] then []
    else
      var n := |sheets| - 1;
      var init := sheets[..n];
      var r0 := Selected(init);
      assert forall k :: 0 <= k < |r0| ==> init[r0[k]] == sheets[r0[k]];
      assert forall i :: 0 <= i < n ==> init[i] == sheets[i];
      r0 + (if IsEmpty(sheets[n].table) then [] else [n])
  }

  // ------------------------------------------------------------ column letters

  /** openpyxl's `get_column_letter`: bijective base 26 with digits A..Z. */
  function ColumnLetter(n: nat): (s: string)
    requires n >= 1
    ensures s != [] && forall i :: 0 <= i < |s| ==> 'A' <= s[i] <= 'Z'
  {
    var q := (n - 1) / 26;
    var c := ('A' as int + (n - 1) % 26) as char;
    if q == 0 then [c] else ColumnLetter(q) + [c]
  }

  /** The column number a string of letters A..Z names. */
  function ColumnNumber(s: string): nat
    requires forall i :: 0 <= i < |s| ==> 'A' <= s[i] <= 'Z'
  {
    if s == [] then 0
    else 26 * ColumnNumber(s[..|s| - 1]) + (s[|s| - 1] as int - 'A' as int + 1)
  }

  lemma {:induction false} ColumnNumberOfLetter(n: nat)
    requires n >= 1
    ensures ColumnNumber(ColumnLetter(n)) == n
  {
    var q := (n - 1) / 26;
    var s := ColumnLetter(n);
    var prefix := s[..|s| - 1];
    if q == 0 {
      assert prefix == [];
    } else {
      ColumnNumberOfLetter(q);
      assert prefix == ColumnLetter(q);
    }
  }

  lemma {:induction false} ColumnNumberPositive(s: string)
    requires s != [] && forall i :: 0 <= i < |s| ==> 'A' <= s[i] <= 'Z'
    ensures ColumnNumber(s) >= 1
  {
    if |s| > 1 {
      ColumnNumberPositive(s[..|s| - 1]);
    }
  }

  /** Division by 26 recovers the quotient and the digit. */
  lemma BaseDigit(m: nat, d: nat)
    requires d < 26
    ensures (26 * m + d) / 26 == m && (26 * m + d) % 26 == d
  {
  }

  lemma {:induction false} ColumnLetterOfNumber(s: string)
    requires s != [] && forall i :: 0 <= i < |s| ==> 'A' <= s[i] <= 'Z'
    ensures ColumnNumber(s) >= 1 && ColumnLetter(ColumnNumber(s)) == s
  {
    ColumnNumberPositive(s);
    var prefix := s[..|s| - 1];
    var m := ColumnNumber(prefix);
    var d := s[|s| - 1] as int - 'A' as int;
    var n := ColumnNumber(s);
    assert n - 1 == 26 * m + d;
    BaseDigit(m, d);
    assert ('A' as int + d) as char == s[|s| - 1];
    if prefix != [] {
      ColumnLetterOfNumber(prefix);
      assert s == prefix + [s[|s| - 1]];
    }
  }

  lemma ColumnLetterExamples()
    ensures ColumnLetter(1) == "A" && ColumnLetter(26) == "Z" && ColumnLetter(27) == "AA"
  {
    assert ColumnLetter(1) == ['A'];
    assert ColumnLetter(26) == ['Z'];
    assert ColumnLetter(27) == ColumnLetter(1) + ['A'];
  }

  // ------------------------------------------------------------ worksheets

  datatype CellStyle = CellStyle(fill: string, bold: bool, horizontal: string)

  /** Header cells: solid light-blue fill, bold, centred. */
  const HEADER_STYLE: CellStyle := CellStyle("DDEBF7", true, "center")

  datatype ColorScale = ColorScale(
    startType: string, startColor: string,
    midType: string, midValue: nat, midColor: string,
    endType: string, endColor: string)

  /** Green at the minimum, yellow at the median, red at the maximum. */
  const GRADIENT: ColorScale := ColorScale("min", "63BE7B", "percentile", 50, "FFDD71", "max", "F8696B")

  datatype FormattingRule = FormattingRule(range: string, scale: ColorScale)

  /** The parts of a worksheet the report touches: its title, the table written
      into it, and the styling applied afterwards. */
  datatype Worksheet = Worksheet(
    title: string,
    table: Table,
    freezePanes: Option<string>,
    headerStyles: map<nat, CellStyle>,
    rules: seq<FormattingRule>,
    autoFilter: Option<string>)

  /** `df.to_excel(..., index=False)` into a new sheet: the header in row 1 and
      the records below it, nothing styled yet. */
  function Written(s: NamedTable): (ws: Worksheet)
    ensures |ws.title| <= MAX_TITLE_LENGTH && |ws.title| <= |s.name| && ws.title == s.name[..|ws.title|]
    ensures |s.name| <= MAX_TITLE_LENGTH ==> ws.title == s.name
    ensures ws.table == s.table
    ensures ws.freezePanes == None && ws.headerStyles == map[] && ws.rules == [] && ws.autoFilter == None
  {
    Worksheet(SheetTitle(s.name), s.table, None, map[], [], None)
  }

  /** `ws.max_row`: the header row and one row per record; an empty sheet
      counts as one row. */
  function MaxRow(ws: Worksheet): (n: nat)
    ensures n >= 1
    ensures ws.table.columns != [] ==> n == |ws.table.rows| + 1
    ensures n >= 2 <==> !IsEmpty(ws.table)
  {
    if |ws.table.columns| == 0 then 1 else |ws.table.rows| + 1
  }

  /** `ws.max_column`: one column per table column; an empty sheet counts as
      one column. */
  function MaxColumn(ws: Worksheet): (n: nat)
    ensures n >= 1
    ensures ws.table.columns != [] ==> n == |ws.table.columns|
  {
    if |ws.table.columns| == 0 then 1 else |ws.table.columns|
  }

  predicate Letters(s: string) {
    forall i :: 0 <= i < |s| ==> 'A' <= s[i] <= 'Z'
  }

  predicate Digits(s: string) {
    forall i :: 0 <= i < |s| ==> '0' <= s[i] <= '9'
  }

  /** `s` is an A1-style cell name: letters naming `column`, then digits naming `row`. */
  predicate NamesCell(s: string, column: nat, row: nat) {
    exists k :: 0 < k < |s| && Letters(s[..k]) && Digits(s[k..]) &&
      ColumnNumber(s[..k]) == column && DecimalValue(s[k..]) == row
  }

  /** The A1-style name of a cell. */
  function CellName(column: nat, row: nat): string
    requires column >= 1
  {
    ColumnLetter(column) + Decimal(row)
  }

  /** A cell's name reads back as that cell. */
  lemma CellNameReadsBack(column: nat, row: nat)
    requires column >= 1
    ensures NamesCell(CellName(column, row), column, row)
  {
    var letters, digits := ColumnLetter(column), Decimal(row);
    var s := letters + digits;
    ColumnNumberOfLetter(column);
    DecimalRoundTrip(row);
    assert s[..|letters|] == letters && s[|letters|..] == digits;
  }

  /** `ws.dimensions`: the used range, from A1 to the cell in the last column
      of the last row. */
  function Dimensions(ws: Worksheet): (range: string)
    ensures "A1:" <= range
  {
    "A1:" + CellName(MaxColumn(ws), MaxRow(ws))
  }

  /** The colour-scale range: every data row, from A2 to the cell in the last
      column of the last row. */
  function DataRange(ws: Worksheet): (range: string)
    ensures "A2:" <= range
  {
    "A2:" + CellName(MaxColumn(ws), MaxRow(ws))
  }

  /** Both ranges end at the cell of the last column and the last row. */
  lemma RangesReadBack(ws: Worksheet)
    ensures |Dimensions(ws)| > 3 && NamesCell(Dimensions(ws)[3..], MaxColumn(ws), MaxRow(ws))
    ensures |DataRange(ws)| > 3 && NamesCell(DataRange(ws)[3..], MaxColumn(ws), MaxRow(ws))
  {
    var last := CellName(MaxColumn(ws), MaxRow(ws));
    CellNameReadsBack(MaxColumn(ws), MaxRow(ws));
    assert Dimensions(ws)[3..] == last;
    assert DataRange(ws)[3..] == last;
  }

  /** The styling every sheet ends with: the header row frozen, exactly the
      header cells of columns 1..max_column styled, a colour scale over the data
      exactly when there is a data row, and the auto-filter over the used
      range; title and contents as written. */
  ghost predicate Styled(ws: Worksheet, written: Worksheet) {
    && ws.title == written.title && ws.table == written.table
    && ws.freezePanes == Some(FREEZE_CELL)
    && (forall c :: c in ws.headerStyles <==> c in written.headerStyles || 1 <= c <= MaxColumn(ws))
    && (forall c :: 1 <= c <= MaxColumn(ws) ==> ws.headerStyles[c] == HEADER_STYLE)
    && (forall c :: c in written.headerStyles && !(1 <= c <= MaxColumn(ws)) ==>
          ws.headerStyles[c] == written.headerStyles[c])
    && ws.rules == written.rules + (if MaxRow(ws) >= 2 then [FormattingRule(DataRange(ws), GRADIENT)] else [])
    && ws.autoFilter == Some(Dimensions(ws))
  }

  /** The header loop: style the cells of columns 1..`lastColumn` of row 1,
      leaving every other cell's style as it was. */
  method StyleHeader(styles: map<nat, CellStyle>, lastColumn: nat) returns (r: map<nat, CellStyle>)
    ensures forall c :: c in r <==> c in styles || 1 <= c <= lastColumn
    ensures forall c :: 1 <= c <= lastColumn ==> r[c] == HEADER_STYLE
    ensures forall c :: c in styles && !(1 <= c <= lastColumn) ==> r[c] == styles[c]
  {
    r := styles;
    for col := 1 to lastColumn + 1
      invariant forall c :: c in r <==> c in styles || 1 <= c < col
      invariant forall c :: 1 <= c < col ==> r[c] == HEADER_STYLE
      invariant forall c :: c in styles && !(1 <= c < col) ==> r[c] == styles[c]
    {
      r := r[col := HEADER_STYLE];
    }
  }

  /** Style one written sheet, as the second loop of the export does. */
  method StyleSheet(written: Worksheet) returns (ws: Worksheet)
    ensures Styled(ws, written)
  {
    ws := written;
    ws := ws.(freezePanes := Some(FREEZE_CELL));
    var lastColumn := MaxColumn(ws);
    var styles := StyleHeader(ws.headerStyles, lastColumn);
    ws := ws.(headerStyles := styles);
    var lastRow := MaxRow(ws);
    assert lastColumn == MaxColumn(ws);
    if lastRow >= 2 && lastColumn >= 1 {
      ws := ws.(rules := ws.rules + [FormattingRule(DataRange(ws), GRADIENT)]);
    }
    ws := ws.(autoFilter := Some(Dimensions(ws)));
  }

  /** The first loop of the export: a freshly written sheet for each non-empty
      table, in order. */
  method WriteSheets(sheets: seq<NamedTable>) returns (written: seq<Worksheet>)
    ensures |written| == |Selected(sheets)|
    ensures forall k :: 0 <= k < |written| ==> written[k] == Written(sheets[Selected(sheets)[k]])
  {
    written := [];
    for i := 0 to |sheets|
      invariant written == WrittenSheets(sheets[..i])
    {
      WrittenSheetsStep(sheets, i);
      if !IsEmpty(sheets[i].table) {
        written := written + [Written(sheets[i])];
      }
    }
    assert sheets[..|sheets|] == sheets;
    WrittenSheetsSelected(sheets);
  }

  /** The sheets the first loop of the export creates, one per selected table. */
  function WrittenSheets(sheets: seq<NamedTable>): seq<Worksheet> {
    if sheets == [] then []
    else
      var n := |sheets| - 1;
      WrittenSheets(sheets[..n]) + (if IsEmpty(sheets[n].table) then [] else [Written(sheets[n])])
  }

  lemma WrittenSheetsStep(sheets: seq<NamedTable>, i: nat)
    requires i < |sheets|
    ensures WrittenSheets(sheets[..i + 1]) ==
      WrittenSheets(sheets[..i]) + (if IsEmpty(sheets[i].table) then [] else [Written(sheets[i])])
  {
    assert sheets[..i + 1][..i] == sheets[..i];
  }

  /** The `k`-th written sheet is the one for the `k`-th selected table. */
  lemma {:induction false} WrittenSheetsSelected(sheets: seq<NamedTable>)
    ensures |WrittenSheets(sheets)| == |Selected(sheets)|
    ensures forall k :: 0 <= k < |WrittenSheets(sheets)| ==>
      WrittenSheets(sheets)[k] == Written(sheets[Selected(sheets)[k]])
  {
    if sheets != [] {
      var n := |sheets| - 1;
      var init := sheets[..n];
      WrittenSheetsSelected(init);
      var w0, r0 := WrittenSheets(init), Selected(init);
      var w, r := WrittenSheets(sheets), Selected(sheets);
      forall k | 0 <= k < |w| ensures w[k] == Written(sheets[r[k]]) {
        if k < |w0| {
          assert w[k] == w0[k] && r[k] == r0[k];
          assert init[r0[k]] == sheets[r0[k]];
        }
      }
    }
  }

  /** A sheet written from a non-empty table gets exactly one colour scale. */
  lemma OneColorScale(ws: Worksheet, s: NamedTable)
    requires !IsEmpty(s.table) && Styled(ws, Written(s))
    ensures |ws.rules| == 1
  {
    assert MaxRow(ws) >= 2;
  }

  /** Each sheet of `book` is the styled form of the sheet at the same place in `written`. */
  ghost predicate StyledAll(book: seq<Worksheet>, written: seq<Worksheet>) {
    |book| == |written| && forall j :: 0 <= j < |book| ==> Styled(book[j], written[j])
  }

  lemma StyledAllSnoc(book: seq<Worksheet>, written: seq<Worksheet>, ws: Worksheet, w: Worksheet)
    requires StyledAll(book, written) && Styled(ws, w)
    ensures StyledAll(book + [ws], written + [w])
  {
    var b, v := book + [ws], written + [w];
    forall j | 0 <= j < |b| ensures Styled(b[j], v[j]) {
      if j < |book| {
        assert b[j] == book[j] && v[j] == written[j];
      }
    }
  }

  lemma TakeSnoc(s: seq<Worksheet>, k: nat)
    requires k < |s|
    ensures s[..k + 1] == s[..k] + [s[k]]
  {
  }

  /** What the styling loop leaves, read through the selection. */
  lemma StyledSelected(sheets: seq<NamedTable>, written: seq<Worksheet>, book: seq<Worksheet>)
    requires |written| == |Selected(sheets)|
    requires forall k :: 0 <= k < |written| ==> written[k] == Written(sheets[Selected(sheets)[k]])
    requires StyledAll(book, written)
    ensures |book| == |Selected(sheets)|
    ensures forall k :: 0 <= k < |book| ==>
      var source := sheets[Selected(sheets)[k]];
      && book[k].title == SheetTitle(source.name)
      && book[k].table == source.table
      && Styled(book[k], Written(source))
      && |book[k].rules| == 1
  {
    forall k | 0 <= k < |book| ensures |book[k].rules| == 1 {
      OneColorScale(book[k], sheets[Selected(sheets)[k]]);
    }
  }

  /** `export_to_excel_advanced`: write a sheet for each non-empty table, in
      order, titled with its name cut to 31 characters, then style every sheet.
      Every sheet has a data row, so each carries exactly one colour scale. */
  method ExportToExcelAdvanced(sheets: seq<NamedTable>) returns (book: seq<Worksheet>)
    ensures |book| == |Selected(sheets)|
    ensures forall k :: 0 <= k < |book| ==>
      var source := sheets[Selected(sheets)[k]];
      && book[k].title == SheetTitle(source.name)
      && book[k].table == source.table
      && Styled(book[k], Written(source))
      && |book[k].rules| == 1
  {
    var written := WriteSheets(sheets);
    book := [];
    for k := 0 to |written|
      invariant StyledAll(book, written[..k])
    {
      var ws := StyleSheet(written[k]);
      StyledAllSnoc(book, written[..k], ws, written[k]);
      TakeSnoc(written, k);
      book := book + [ws];
    }
    assert written[..|written|] == written;
    StyledSelected(sheets, written, book);
  }
}
