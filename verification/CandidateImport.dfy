/** Candidates from a delimited export: the column mapping and row mapping of `parseBulkImportCsv` in
    apps/web/lib/csv-import.ts. `norm` stands for `normalizeImportHeader`. */
module CandidateImport {
  import opened DelimitedLine
  import opened DelimitedTable
  import opened Experience
  import opened Keyed
  import opened Options
  import opened PlainTable
  import opened Text

  datatype Candidate = Candidate(fullName: string, phone: Option<string>, email: Option<string>,
                                 locationText: Option<string>, yearsOfExperience: Option<nat>,
                                 externalRef: Option<string>)

  /** The six alias lists of `COLUMN_ALIASES`. */
  datatype Aliases = Aliases(fullName: seq<string>, phone: seq<string>, email: seq<string>, locationText: seq<string>,
                             yearsOfExperience: seq<string>, externalRef: seq<string>)

  predicate Matches(norm: string -> string, header: string, aliases: seq<string>) {
    exists i :: 0 <= i < |aliases| && norm(aliases[i]) == norm(header)
  }

  /** The first header that matches an alias; `None` is the index -1. */
  function FindColumn(norm: string -> string, headers: seq<string>, aliases: seq<string>): (c: Option<nat>)
    ensures c.Some? ==> c.value < |headers| && Matches(norm, headers[c.value], aliases)
                        && forall j :: 0 <= j < c.value ==> !Matches(norm, headers[j], aliases)
    ensures c.None? ==> forall j :: 0 <= j < |headers| ==> !Matches(norm, headers[j], aliases)
  {
    if headers == [] then None
    else if Matches(norm, headers[0], aliases) then Some(0)
    else match FindColumn(norm, headers[1..], aliases)
      case None => None
      case Some(c) => Some(c + 1)
  }

  function ReadOptional(values: seq<string>, column: Option<nat>): Option<string> {
    if column.None? || column.value >= |values| || Trim(values[column.value]) == "" then None
    else Some(Trim(values[column.value]))
  }

  datatype Columns = Columns(fullName: nat, phone: Option<nat>, email: Option<nat>, locationText: Option<nat>,
                             yearsOfExperience: Option<nat>, externalRef: Option<nat>)

  function CandidateOf(values: seq<string>, c: Columns): Candidate {
    var name := ReadOptional(values, Some(c.fullName));
    var years := ReadOptional(values, c.yearsOfExperience);
    Candidate(if name.Some? then name.value else "", ReadOptional(values, c.phone), ReadOptional(values, c.email),
              ReadOptional(values, c.locationText), if years.Some? then ParseExperience(years.value) else None,
              ReadOptional(values, c.externalRef))
  }

  predicate HasName(candidate: Candidate) {
    Utf16Length(candidate.fullName) >= 2
  }

  function Images(rows: seq<seq<string>>, c: Columns): (images: seq<Candidate>)
    ensures |images| == |rows| && forall r :: 0 <= r < |rows| ==> images[r] == CandidateOf(rows[r], c)
  {
    seq(|rows|, r requires 0 <= r < |rows| => CandidateOf(rows[r], c))
  }

  /** `rows.map(...).filter(...)`. */
  function CandidatesOf(rows: seq<seq<string>>, c: Columns): seq<Candidate> {
    Keyed.Kept(Images(rows, c), HasName)
  }

  function ColumnsOf(norm: string -> string, headers: seq<string>, aliases: Aliases): Option<Columns> {
    match FindColumn(norm, headers, aliases.fullName)
    case None => None
    case Some(name) =>
      Some(Columns(name, FindColumn(norm, headers, aliases.phone), FindColumn(norm, headers, aliases.email),
                   FindColumn(norm, headers, aliases.locationText),
                   FindColumn(norm, headers, aliases.yearsOfExperience),
                   FindColumn(norm, headers, aliases.externalRef)))
  }

  /** The candidates of `parseBulkImportCsv`: none without a table or without a name column. */
  function ParseBulkImport(norm: string -> string, aliases: Aliases, text: string): seq<Candidate> {
    match ParseDelimitedTable(text)
    case None => []
    case Some(table) =>
      match ColumnsOf(norm, table.headers, aliases)
      case None => []
      case Some(columns) => CandidatesOf(table.rows, columns)
  }

  /** The first header that an alias of the list matches, or none when no header does. */
  ghost predicate IsFirstMatch(norm: string -> string, headers: seq<string>, aliases: seq<string>,
                               column: Option<nat>) {
    match column
    case None => forall h, a :: h in headers && a in aliases ==> norm(h) != norm(a)
    case Some(c) =>
      && c < |headers| && (exists a :: a in aliases && norm(headers[c]) == norm(a))
      && forall h, a :: h in headers[..c] && a in aliases ==> norm(h) != norm(a)
  }

  /** Each of the six columns is the first header that matches its own alias list. */
  ghost predicate AreColumns(norm: string -> string, headers: seq<string>, aliases: Aliases, c: Columns) {
    && IsFirstMatch(norm, headers, aliases.fullName, Some(c.fullName))
    && IsFirstMatch(norm, headers, aliases.phone, c.phone)
    && IsFirstMatch(norm, headers, aliases.email, c.email)
    && IsFirstMatch(norm, headers, aliases.locationText, c.locationText)
    && IsFirstMatch(norm, headers, aliases.yearsOfExperience, c.yearsOfExperience)
    && IsFirstMatch(norm, headers, aliases.externalRef, c.externalRef)
  }

  lemma FoundIsFirst(norm: string -> string, headers: seq<string>, aliases: seq<string>, column: Option<nat>)
    ensures IsFirstMatch(norm, headers, aliases, column) <==> column == FindColumn(norm, headers, aliases)
  {
  }

  lemma ColumnsFound(norm: string -> string, headers: seq<string>, aliases: Aliases)
    ensures ColumnsOf(norm, headers, aliases).None? <==> IsFirstMatch(norm, headers, aliases.fullName, None)
    ensures forall c :: AreColumns(norm, headers, aliases, c) <==> ColumnsOf(norm, headers, aliases) == Some(c)
  {
    hide FindColumn, IsFirstMatch;
    forall list, column
      ensures IsFirstMatch(norm, headers, list, column) <==> column == FindColumn(norm, headers, list)
    {
      FoundIsFirst(norm, headers, list, column);
    }
  }

  /** Import reads the columns that the headers give each field, and nothing without a header for the name. */
  lemma ColumnsAreFirstMatches(norm: string -> string, aliases: Aliases, text: string, table: Table)
    requires ParseDelimitedTable(text) == Some(table)
    ensures IsFirstMatch(norm, table.headers, aliases.fullName, None) ==> ParseBulkImport(norm, aliases, text) == []
    ensures forall c :: AreColumns(norm, table.headers, aliases, c) ==>
                          ParseBulkImport(norm, aliases, text) == CandidatesOf(table.rows, c)
    ensures IsFirstMatch(norm, table.headers, aliases.fullName, None)
            || exists c :: AreColumns(norm, table.headers, aliases, c)
  {
    hide ParseDelimitedTable, ColumnsOf, IsFirstMatch, AreColumns, CandidatesOf;
    ColumnsFound(norm, table.headers, aliases);
    if columns :| ColumnsOf(norm, table.headers, aliases) == Some(columns) {
      assert AreColumns(norm, table.headers, aliases, columns);
    }
  }

  /** The candidates are the images, in order, of exactly the rows whose name has two or more UTF-16
      units. */
  lemma CandidatesAreNamedRows(rows: seq<seq<string>>, c: Columns) returns (index: seq<nat>)
    ensures |index| == |CandidatesOf(rows, c)| && Increasing(index, |rows|)
    ensures forall i :: 0 <= i < |index| ==> CandidatesOf(rows, c)[i] == CandidateOf(rows[index[i]], c)
    ensures forall r :: 0 <= r < |rows| ==> (r in index <==> HasTwoUnits(CandidateOf(rows[r], c).fullName))
  {
    hide CandidateOf, HasTwoUnits, Keyed.Kept;
    index := KeptInOrder(Images(rows, c), HasName);
    forall r | 0 <= r < |rows|
      ensures HasName(CandidateOf(rows[r], c)) <==> HasTwoUnits(CandidateOf(rows[r], c).fullName)
    {
      TwoUnitsExactly(CandidateOf(rows[r], c).fullName);
    }
  }

  /** The text is the row's cell in the column without the white space around it; it is absent exactly when there is
      no such column, the row is too short, or the cell is blank. */
  ghost predicate IsCell(text: Option<string>, values: seq<string>, column: Option<nat>) {
    if column.None? || column.value >= |values| || Blank(values[column.value]) then text.None?
    else text == Some(Trim(values[column.value])) && text.value != "" && Trimmed(text.value)
  }

  lemma ReadsCell(values: seq<string>, column: Option<nat>)
    ensures IsCell(ReadOptional(values, column), values, column)
  {
    hide Trim;
    if column.Some? && column.value < |values| {
      var _, _ := TrimWindow(values[column.value]);
    }
  }

  /** Every text of a candidate is the trimmed cell of its own column, absent rather than empty; the years are the
      number its cell holds. */
  lemma FieldsAreCells(values: seq<string>, c: Columns)
    ensures var k := CandidateOf(values, c);
            && IsCell(if k.fullName == "" then None else Some(k.fullName), values, Some(c.fullName))
            && IsCell(k.phone, values, c.phone) && IsCell(k.email, values, c.email)
            && IsCell(k.locationText, values, c.locationText) && IsCell(k.externalRef, values, c.externalRef)
            && exists years :: IsCell(years, values, c.yearsOfExperience)
                 && k.yearsOfExperience == (if years.Some? then ParseExperience(years.value) else None)
  {
    hide ReadOptional, ParseExperience, IsCell;
    ReadsCell(values, Some(c.fullName));
    ReadsCell(values, c.phone);
    ReadsCell(values, c.email);
    ReadsCell(values, c.locationText);
    ReadsCell(values, c.yearsOfExperience);
    ReadsCell(values, c.externalRef);
    NameNotEmpty(values, c.fullName);
  }

  lemma NameNotEmpty(values: seq<string>, column: nat)
    ensures ReadOptional(values, Some(column)) != Some("")
  {
  }

  // ---- Export and import ----

  function Cell(value: Option<string>): string {
    if value.Some? then value.value else ""
  }

  /** The row shows a text in a column; an absent one is an empty cell, a missing cell or a missing column. */
  predicate Shows(row: seq<string>, column: Option<nat>, value: Option<string>) {
    if column.Some? && column.value < |row| then row[column.value] == Cell(value) && (value.Some? ==> value.value != "")
    else value.None?
  }

  function Printed(years: Option<nat>): Option<string> {
    if years.Some? then Some(Decimal(years.value)) else None
  }

  /** The row shows a candidate whose name is long enough, years in decimal; its other cells hold anything. */
  predicate RowShows(row: seq<string>, c: Candidate, columns: Columns) {
    && HasName(c) && Shows(row, Some(columns.fullName), Some(c.fullName)) && Shows(row, columns.phone, c.phone)
    && Shows(row, columns.email, c.email) && Shows(row, columns.locationText, c.locationText)
    && Shows(row, columns.yearsOfExperience, Printed(c.yearsOfExperience))
    && Shows(row, columns.externalRef, c.externalRef)
  }

  lemma DecimalRead(years: Option<nat>)
    ensures Printed(years).Some? ==> ParseExperience(Printed(years).value) == years
  {
    hide Decimal, ParseExperience;
    if years.Some? {
      PrintedNumberFound("", years.value, "");
      assert "" + Decimal(years.value) + "" == Decimal(years.value);
    }
  }

  lemma ReadShown(row: seq<string>, column: Option<nat>, value: Option<string>)
    requires AllTrimmed(row) && Shows(row, column, value)
    ensures ReadOptional(row, column) == value
  {
    if column.Some? && column.value < |row| {
      TrimTrimmed(row[column.value]);
    }
  }

  lemma RowReadBack(row: seq<string>, c: Candidate, columns: Columns)
    requires AllTrimmed(row) && RowShows(row, c, columns)
    ensures CandidateOf(row, columns) == c
  {
    hide ParseExperience, Decimal, ReadOptional, Shows;
    ReadShown(row, Some(columns.fullName), Some(c.fullName));
    ReadShown(row, columns.phone, c.phone);
    ReadShown(row, columns.email, c.email);
    ReadShown(row, columns.locationText, c.locationText);
    ReadShown(row, columns.yearsOfExperience, Printed(c.yearsOfExperience));
    ReadShown(row, columns.externalRef, c.externalRef);
    DecimalRead(c.yearsOfExperience);
  }

  lemma RowsReadBack(rows: seq<seq<string>>, candidates: seq<Candidate>, columns: Columns)
    requires |rows| == |candidates|
    requires forall i :: 0 <= i < |rows| ==> AllTrimmed(rows[i]) && RowShows(rows[i], candidates[i], columns)
    ensures CandidatesOf(rows, columns) == candidates
  {
    hide CandidateOf, Keyed.Kept, HasName, AllTrimmed;
    forall i | 0 <= i < |rows| ensures Images(rows, columns)[i] == candidates[i] && HasName(candidates[i]) {
      RowReadBack(rows[i], candidates[i], columns);
    }
    assert Images(rows, columns) == candidates;
    KeptAll(candidates, HasName);
  }

  /** Whatever text reads as the table, its rows are read back as the candidates they show, in order. */
  lemma RowsAreImported(norm: string -> string, aliases: Aliases, text: string, table: Table, columns: Columns,
                        candidates: seq<Candidate>)
    requires ParseDelimitedTable(text) == Some(table) && AreColumns(norm, table.headers, aliases, columns)
    requires |table.rows| == |candidates|
    requires forall i :: 0 <= i < |candidates| ==>
               AllTrimmed(table.rows[i]) && RowShows(table.rows[i], candidates[i], columns)
    ensures ParseBulkImport(norm, aliases, text) == candidates
  {
    hide ParseDelimitedTable, AreColumns, RowShows, AllTrimmed, CandidatesOf, ParseBulkImport;
    ColumnsAreFirstMatches(norm, aliases, text, table);
    RowsReadBack(table.rows, candidates, columns);
  }

  /** Import inverts export: rows that show candidates, under headers in any order and with any further columns as
      long as they are recognised, printed with any of the three delimiters and any file layout, are read back
      as those candidates, in order. The table must be trimmed, free of line feeds and, unless printed with tabs,
      show its delimiter in the first three lines. */
  lemma ImportInvertsExport(norm: string -> string, aliases: Aliases, headers: seq<string>, rows: seq<seq<string>>,
                            columns: Columns, candidates: seq<Candidate>, d: Delimiter, layout: Layout)
    requires Exportable([headers] + rows) && AllTrimmed(headers)
    requires d.Tab? || ShowsDelimiter([headers] + rows)
    requires AreColumns(norm, headers, aliases, columns) && |rows| == |candidates|
    requires forall i :: 0 <= i < |rows| ==> AllTrimmed(rows[i]) && RowShows(rows[i], candidates[i], columns)
    ensures ParseBulkImport(norm, aliases, PrintTable([headers] + rows, d, layout)) == candidates
  {
    hide ParseDelimitedTable, PrintTable, AreColumns, RowShows, AllTrimmed, SingleLines, ShowsDelimiter;
    hide ParseBulkImport;
    var all := [headers] + rows;
    TrimmedTableRoundTrip(all, d, layout);
    assert all[0] == headers && all[1..] == rows;
    RowsAreImported(norm, aliases, PrintTable(all, d, layout), Table(headers, rows, d), columns, candidates);
  }

  /** So does import of a table printed without quotes. */
  lemma ImportInvertsPlainExport(norm: string -> string, aliases: Aliases, headers: seq<string>,
                                 rows: seq<seq<string>>, columns: Columns, candidates: seq<Candidate>, d: Delimiter,
                                 layout: Layout)
    requires IsPlainTable([headers] + rows, d) && Readable([headers] + rows, d) && Prevails([headers] + rows, d)
    requires AreColumns(norm, headers, aliases, columns) && |rows| == |candidates|
    requires forall i :: 0 <= i < |rows| ==> RowShows(rows[i], candidates[i], columns)
    ensures ParseBulkImport(norm, aliases, PrintPlain([headers] + rows, d, layout)) == candidates
  {
    hide ParseDelimitedTable, PrintPlain, AreColumns, RowShows, AllTrimmed, IsPlain, Survives, Prevails;
    hide ParseBulkImport;
    var all := [headers] + rows;
    PlainRoundTrip(all, d, layout);
    assert all[0] == headers && all[1..] == rows;
    forall i | 0 <= i < |rows| ensures AllTrimmed(rows[i]) {
      assert all[i + 1] == rows[i];
    }
    RowsAreImported(norm, aliases, PrintPlain(all, d, layout), Table(headers, rows, d), columns, candidates);
  }
}
