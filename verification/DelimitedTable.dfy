/** A whole delimited export: line splitting, delimiter detection and the table parser of
    apps/web/lib/csv-import.ts, and the round trip through all three together. */
module DelimitedTable {
  import opened DelimitedLine
  import opened Options
  import opened StableSort
  import opened Text

  datatype Table = Table(headers: seq<string>, rows: seq<seq<string>>, delimiter: Delimiter)

  function DropCarriageReturn(line: string): string {
    if line != "" && line[|line| - 1] == '\r' then line[..|line| - 1] else line
  }

  /** `text.split(/\r?\n/)`. */
  function Lines(text: string): (lines: seq<string>)
    ensures lines != []
  {
    var i := IndexOf(text, '\n');
    if i == |text| then [text] else [DropCarriageReturn(text[..i])] + Lines(text[i + 1..])
  }

  /** The non-blank lines, white space at the end removed: what the parser reads. */
  function ContentLines(lines: seq<string>): seq<string> {
    if lines == [] then []
    else (if Trim(TrimEnd(lines[0])) != "" then [TrimEnd(lines[0])] else []) + ContentLines(lines[1..])
  }

  /** The non-blank lines trimmed on both sides: what detection looks at. */
  function TrimmedLines(lines: seq<string>): seq<string> {
    if lines == [] then [] else (if Trim(lines[0]) != "" then [Trim(lines[0])] else []) + TrimmedLines(lines[1..])
  }

  function Sample(text: string): (sample: seq<string>)
    ensures |sample| <= 3
  {
    var lines := TrimmedLines(Lines(StripBom(text)));
    if |lines| <= 3 then lines else lines[..3]
  }

  // ---- Delimiter detection ----

  function Score(sample: seq<string>, d: Delimiter): nat {
    if sample == [] then 0
    else Score(sample[..|sample| - 1], d) + |SplitLine(sample[|sample| - 1], d)| - 1
  }

  datatype Entry = Entry(delimiter: Delimiter, score: int)

  function Entries(sample: seq<string>): (entries: seq<Entry>)
    ensures |entries| == 3
  {
    [Entry(Tab, Score(sample, Tab)), Entry(Semicolon, Score(sample, Semicolon)), Entry(Comma, Score(sample, Comma))]
  }

  /** The comparator `right.score - left.score`. */
  function HigherScore(): (Entry, Entry) -> bool {
    (left: Entry, right: Entry) => right.score < left.score
  }

  /** The first entry of the sorted scores; the fall-back for an empty list is the comma. */
  function Detected(sample: seq<string>): Delimiter {
    var sorted := Sort(Entries(sample), HigherScore());
    if sorted == [] then Comma else sorted[0].delimiter
  }

  predicate Precedes(d: Delimiter, e: Delimiter) {
    (d.Tab? && !e.Tab?) || (d.Semicolon? && e.Comma?)
  }

  lemma DetectedIsBest(sample: seq<string>)
    ensures Sort(Entries(sample), HigherScore()) != []
    ensures forall d :: Score(sample, d) <= Score(sample, Detected(sample))
    ensures forall d :: Precedes(d, Detected(sample)) ==> Score(sample, d) < Score(sample, Detected(sample))
  {
    var entries := Entries(sample);
    var i := HeadIsFirstBest(entries, HigherScore());
    var best := entries[i];
    forall d ensures Score(sample, d) <= best.score {
      var j := match d case Tab => 0 case Semicolon => 1 case Comma => 2;
      assert entries[j] == Entry(d, Score(sample, d));
      assert !HigherScore()(entries[j], best);
    }
    forall d | Precedes(d, best.delimiter) ensures Score(sample, d) < best.score {
      var j := if d.Tab? then 0 else 1;
      assert entries[j] == Entry(d, Score(sample, d));
      assert HigherScore()(best, entries[j]);
    }
  }

  ghost function Pairs(i: nat, places: set<nat>): set<(nat, nat)> {
    set k | k in places :: (i, k)
  }

  /** Where a delimiter stands outside quotes in the sample: line and position. */
  ghost function SamplePlaces(sample: seq<string>, d: Delimiter): set<(nat, nat)> {
    set i: nat, k: nat | i < |sample| && k in Places(sample[i], d) :: (i, k)
  }

  lemma {:induction false} PairsCount(i: nat, places: set<nat>)
    ensures |Pairs(i, places)| == |places|
  {
    if k :| k in places {
      PairsCount(i, places - {k});
      assert Pairs(i, places) == Pairs(i, places - {k}) + {(i, k)};
    }
  }

  lemma SamplePlacesSnoc(sample: seq<string>, line: string, d: Delimiter)
    ensures SamplePlaces(sample + [line], d) == SamplePlaces(sample, d) + Pairs(|sample|, Places(line, d))
    ensures SamplePlaces(sample, d) !! Pairs(|sample|, Places(line, d))
  {
    hide Places;
  }

  lemma {:induction false} ScoreCounts(sample: seq<string>, d: Delimiter)
    ensures Score(sample, d) == |SamplePlaces(sample, d)|
  {
    hide Places, SamplePlaces, SplitLine, Pairs;
    if sample == [] {
      NoPlaces(d);
    } else {
      var front, last := sample[..|sample| - 1], sample[|sample| - 1];
      assert sample == front + [last];
      ScoreCounts(front, d);
      FieldCount(last, d);
      PairsCount(|front|, Places(last, d));
      SamplePlacesSnoc(front, last, d);
    }
  }

  lemma NoPlaces(d: Delimiter)
    ensures SamplePlaces([], d) == {}
  {
  }

  /** The delimiter that stands outside quotes most often; ties go to tab, then semicolon, then comma. */
  ghost predicate Wins(sample: seq<string>, d: Delimiter) {
    forall e: Delimiter ::
      && |SamplePlaces(sample, e)| <= |SamplePlaces(sample, d)|
      && ((e.Tab? && !d.Tab?) || (e.Semicolon? && d.Comma?) ==> |SamplePlaces(sample, e)| < |SamplePlaces(sample, d)|)
  }

  /** Detection chooses exactly that one, and the fall-back never decides. */
  lemma DetectedIsArgmax(sample: seq<string>)
    ensures Sort(Entries(sample), HigherScore()) != []
    ensures forall d :: Wins(sample, d) <==> d == Detected(sample)
  {
    hide Score, Sort, SamplePlaces, Detected, Entries;
    DetectedIsBest(sample);
    forall e: Delimiter ensures Score(sample, e) == |SamplePlaces(sample, e)| {
      ScoreCounts(sample, e);
    }
    assert Wins(sample, Detected(sample));
  }

  function WithLine(entry: Entry, line: string): Entry {
    entry.(score := entry.score + |SplitLine(line, entry.delimiter)| - 1)
  }

  function WithLineAll(entries: seq<Entry>, line: string): (r: seq<Entry>)
    ensures |r| == |entries| && forall e :: 0 <= e < |r| ==> r[e] == WithLine(entries[e], line)
  {
    seq(|entries|, e requires 0 <= e < |entries| => WithLine(entries[e], line))
  }

  lemma ScoreNextLine(sample: seq<string>, n: nat)
    requires n < |sample|
    ensures WithLineAll(Entries(sample[..n]), sample[n]) == Entries(sample[..n + 1])
  {
    assert sample[..n + 1][..n] == sample[..n];
  }

  /** The scoring loop of `detectImportDelimiter`. */
  method DetectImportDelimiter(text: string) returns (d: Delimiter)
    ensures d == Detected(Sample(text))
  {
    hide SplitLine;
    hide Sort;
    var sample := Sample(text);
    var scores := new Entry[3] [Entry(Tab, 0), Entry(Semicolon, 0), Entry(Comma, 0)];
    assert scores[..] == Entries(sample[..0]);
    for n := 0 to |sample|
      invariant scores[..] == Entries(sample[..n])
    {
      ScoreNextLine(sample, n);
      AddLineScores(scores, sample[n]);
    }
    assert sample[..|sample|] == sample;
    var entries := scores[..];
    var sorted := Sort(entries, HigherScore());
    d := if sorted == [] then Comma else sorted[0].delimiter;
  }

  /** The inner loop: every entry's score is updated in place. */
  method AddLineScores(scores: array<Entry>, line: string)
    modifies scores
    ensures scores[..] == WithLineAll(old(scores[..]), line)
  {
    for e := 0 to scores.Length
      invariant forall k :: 0 <= k < e ==> scores[k] == WithLine(old(scores[k]), line)
      invariant forall k :: e <= k < scores.Length ==> scores[k] == old(scores[k])
    {
      var values := SplitDelimitedLine(line, scores[e].delimiter);
      scores[e] := scores[e].(score := scores[e].score + |values| - 1);
    }
  }

  // ---- The table parser ----

  function SplitAll(lines: seq<string>, d: Delimiter): (rows: seq<seq<string>>)
    ensures |rows| == |lines| && forall i :: 0 <= i < |lines| ==> rows[i] == SplitLine(lines[i], d)
  {
    seq(|lines|, i requires 0 <= i < |lines| => SplitLine(lines[i], d))
  }

  /** `parseDelimitedTable` without the source hint. */
  function ParseDelimitedTable(text: string): Option<Table> {
    var normalized := StripBom(text);
    var lines := ContentLines(Lines(normalized));
    if |lines| < 2 then None
    else
      var d := Detected(Sample(normalized));
      var headers, rows := Trims(SplitLine(lines[0], d)), SplitAll(lines[1..], d);
      if |headers| == 0 || |rows| == 0 then None else Some(Table(headers, rows, d))
  }

  // ---- Printing a table and reading it back ----

  function PrintLines(rows: seq<seq<string>>, d: Delimiter): (lines: seq<string>)
    ensures |lines| == |rows| && forall i :: 0 <= i < |rows| ==> lines[i] == PrintLine(rows[i], d)
  {
    seq(|rows|, i requires 0 <= i < |rows| => PrintLine(rows[i], d))
  }

  /** How an exporter lays out the file: line ends, a byte order mark, a final line end. */
  datatype Layout = Layout(crlf: bool, bom: bool, finalNewline: bool) {
    function LineEnd(): string { if crlf then "\r\n" else "\n" }
    function Tail(): string { if finalNewline then LineEnd() else "" }
    function TailLines(): seq<string> { if finalNewline then [""] else [] }
  }

  function PrintBody(rows: seq<seq<string>>, d: Delimiter, layout: Layout): string {
    Join(PrintLines(rows, d), layout.LineEnd()) + layout.Tail()
  }

  function PrintTable(rows: seq<seq<string>>, d: Delimiter, layout: Layout): string {
    (if layout.bom then [BYTE_ORDER_MARK] else "") + PrintBody(rows, d, layout)
  }

  predicate SingleLine(cells: seq<string>) {
    forall i :: 0 <= i < |cells| ==> Free(cells[i], '\n')
  }

  /** A header and at least one row; no row is without cells. */
  predicate IsTable(rows: seq<seq<string>>) {
    |rows| >= 2 && forall i :: 0 <= i < |rows| ==> rows[i] != []
  }

  /** No cell holds a line feed. */
  predicate SingleLines(rows: seq<seq<string>>) {
    forall i :: 0 <= i < |rows| ==> SingleLine(rows[i])
  }

  predicate Exportable(rows: seq<seq<string>>) {
    IsTable(rows) && SingleLines(rows)
  }

  predicate StartsAndEndsQuoted(line: string) {
    |line| >= 2 && line[0] == QUOTE && line[|line| - 1] == QUOTE && Free(line, '\n')
  }

  lemma {:induction false} DoubledFree(cell: string)
    requires Free(cell, '\n')
    ensures Free(Doubled(cell), '\n')
  {
    if cell != "" {
      DoubledFree(cell[..|cell| - 1]);
    }
  }

  lemma {:induction false} PrintedLineShape(parts: seq<string>, d: Delimiter)
    requires parts != [] && forall i :: 0 <= i < |parts| ==> StartsAndEndsQuoted(parts[i])
    ensures StartsAndEndsQuoted(Join(parts, [d.Char()]))
    decreases |parts|
  {
    if |parts| > 1 {
      PrintedLineShape(parts[1..], d);
    }
  }

  lemma PrintLineShape(cells: seq<string>, d: Delimiter)
    requires cells != [] && SingleLine(cells)
    ensures StartsAndEndsQuoted(PrintLine(cells, d))
  {
    forall i | 0 <= i < |cells| ensures StartsAndEndsQuoted(PrintCells(cells)[i]) {
      DoubledFree(cells[i]);
    }
    PrintedLineShape(PrintCells(cells), d);
  }

  lemma QuotedLineIsContent(line: string)
    requires StartsAndEndsQuoted(line)
    ensures Trim(line) == line && TrimEnd(line) == line
  {
  }

  predicate IsLineEnd(end: string) {
    end == "\n" || end == "\r\n"
  }

  lemma LinesCut(head: string, rest: string)
    requires Free(head, '\n')
    ensures Lines(head + "\n" + rest) == [DropCarriageReturn(head)] + Lines(rest)
  {
    hide IndexOf;
    var text := head + "\n" + rest;
    assert text[..|head|] == head && text[|head| + 1..] == rest && text[|head|] == '\n';
    IndexOfUnique(text, '\n', |head|);
  }

  /** A text that line splitting leaves alone. */
  predicate IsLine(line: string) {
    Free(line, '\n') && (line != "" ==> line[|line| - 1] != '\r')
  }

  lemma FirstLine(line: string, end: string, rest: string)
    requires IsLine(line) && IsLineEnd(end)
    ensures Lines(line + end + rest) == [line] + Lines(rest)
  {
    hide Lines;
    if end == "\n" {
      LinesCut(line, rest);
    } else {
      LinesCut(line + "\r", rest);
      assert line + end + rest == line + "\r" + "\n" + rest;
      assert DropCarriageReturn(line + "\r") == line;
    }
  }

  lemma OnlyLine(line: string)
    requires Free(line, '\n')
    ensures Lines(line) == [line]
  {
  }

  lemma LastLine(line: string, end: string)
    requires IsLine(line) && IsLineEnd(end)
    ensures Lines(line) == [line] && Lines(line + end) == [line] + [""]
  {
    OnlyLine(line);
    OnlyLine("");
    FirstLine(line, end, "");
    assert line + end + "" == line + end;
  }

  /** `lines` followed by what `Lines` makes of `tail`. */
  lemma {:induction false} PrintedLines(lines: seq<string>, end: string, tail: string, tailLines: seq<string>)
    requires lines != [] && forall i :: 0 <= i < |lines| ==> IsLine(lines[i])
    requires IsLineEnd(end) && Lines(lines[|lines| - 1] + tail) == [lines[|lines| - 1]] + tailLines
    ensures Lines(Join(lines, end) + tail) == lines + tailLines
    decreases |lines|
  {
    hide Lines, IsLine, IsLineEnd;
    var first := lines[0];
    if |lines| == 1 {
      assert lines == [first];
    } else {
      var others := lines[1..];
      var rest := Join(others, end) + tail;
      PrintedLines(others, end, tail, tailLines);
      FirstLine(first, end, rest);
      assert Join(lines, end) + tail == first + end + rest;
      assert [first] + (others + tailLines) == lines + tailLines;
    }
  }

  lemma {:induction false} QuotedLinesAreContent(lines: seq<string>, tail: seq<string>)
    requires forall i :: 0 <= i < |lines| ==> StartsAndEndsQuoted(lines[i])
    requires tail == [] || tail == [""]
    ensures ContentLines(lines + tail) == lines && TrimmedLines(lines + tail) == lines
    decreases |lines|
  {
    if lines == [] {
      assert lines + tail == tail;
      assert tail == [""] ==> tail[1..] == [];
    } else {
      QuotedLineIsContent(lines[0]);
      QuotedLinesAreContent(lines[1..], tail);
      assert (lines + tail)[1..] == lines[1..] + tail;
    }
  }

  lemma PrintedBodyStarts(rows: seq<seq<string>>, d: Delimiter, layout: Layout)
    requires IsTable(rows)
    ensures PrintBody(rows, d, layout) != "" && PrintBody(rows, d, layout)[0] == QUOTE
    ensures StripBom(PrintTable(rows, d, layout)) == PrintBody(rows, d, layout) == StripBom(PrintBody(rows, d, layout))
  {
  }

  /** The rows that detection looks at. */
  function Sampled<T>(rows: seq<T>): seq<T> {
    if |rows| <= 3 then rows else rows[..3]
  }

  /** Both the parser and detection see exactly the printed lines. */
  lemma PrintedTableLines(rows: seq<seq<string>>, d: Delimiter, layout: Layout)
    requires Exportable(rows)
    ensures ContentLines(Lines(StripBom(PrintTable(rows, d, layout)))) == PrintLines(rows, d)
    ensures Sample(StripBom(PrintTable(rows, d, layout))) == PrintLines(Sampled(rows), d)
  {
    hide Lines;
    hide ContentLines;
    hide TrimmedLines;
    hide Join;
    var lines := PrintLines(rows, d);
    forall i | 0 <= i < |rows| ensures StartsAndEndsQuoted(lines[i]) {
      PrintLineShape(rows[i], d);
    }
    PrintedBodyStarts(rows, d, layout);
    LastLine(lines[|lines| - 1], layout.LineEnd());
    assert lines[|lines| - 1] + "" == lines[|lines| - 1];
    PrintedLines(lines, layout.LineEnd(), layout.Tail(), layout.TailLines());
    QuotedLinesAreContent(lines, layout.TailLines());
    assert Sampled(lines) == PrintLines(Sampled(rows), d);
  }

  /** Some row of the sample has two or more cells, so the printed sample shows a delimiter. */
  predicate ShowsDelimiter(rows: seq<seq<string>>) {
    exists i :: 0 <= i < |rows| && i < 3 && |rows[i]| >= 2
  }

  lemma {:induction false} PrintedScores(rows: seq<seq<string>>, d: Delimiter)
    requires forall i :: 0 <= i < |rows| ==> rows[i] != []
    ensures forall other :: other != d ==> Score(PrintLines(rows, d), other) == 0
    ensures Score(PrintLines(rows, d), d) > 0 <==> exists i :: 0 <= i < |rows| && |rows[i]| >= 2
  {
    hide PrintLine;
    hide SplitLine;
    if rows != [] {
      var front, last := rows[..|rows| - 1], rows[|rows| - 1];
      PrintedScores(front, d);
      var lines := PrintLines(rows, d);
      assert lines[..|lines| - 1] == PrintLines(front, d);
      LineRoundTrip(last, d);
      forall other | other != d ensures Score(lines, other) == 0 {
        HiddenDelimitersScoreZero(last, d, other);
      }
      assert forall i :: 0 <= i < |front| ==> front[i] == rows[i];
    }
  }

  lemma PrintedDetection(rows: seq<seq<string>>, d: Delimiter)
    requires |rows| <= 3 && forall i :: 0 <= i < |rows| ==> rows[i] != []
    ensures Detected(PrintLines(rows, d)) == d <==> d.Tab? || ShowsDelimiter(rows)
  {
    var sample := PrintLines(rows, d);
    PrintedScores(rows, d);
    DetectedIsBest(sample);
    var found := Detected(sample);
    if found != d {
      assert Score(sample, found) == 0;
    } else if !d.Tab? {
      assert Precedes(Tab, d);
    }
  }

  function TrimRows(rows: seq<seq<string>>): (r: seq<seq<string>>)
    ensures |r| == |rows| && forall i :: 0 <= i < |rows| ==> r[i] == Trims(rows[i])
  {
    seq(|rows|, i requires 0 <= i < |rows| => Trims(rows[i]))
  }

  lemma ReadRow(cells: seq<string>, d: Delimiter)
    requires cells != []
    ensures SplitLine(PrintLine(cells, d), d) == Trims(cells) && Trims(Trims(cells)) == Trims(cells)
  {
    LineRoundTrip(cells, d);
    forall i | 0 <= i < |cells| ensures Trim(Trim(cells[i])) == Trim(cells[i]) {
      TrimIdempotent(cells[i]);
    }
  }

  lemma ReadRows(rows: seq<seq<string>>, d: Delimiter)
    requires forall i :: 0 <= i < |rows| ==> rows[i] != []
    ensures SplitAll(PrintLines(rows, d), d) == TrimRows(rows)
  {
    forall i | 0 <= i < |rows| ensures SplitLine(PrintLine(rows[i], d), d) == Trims(rows[i]) {
      ReadRow(rows[i], d);
    }
  }

  lemma SingleLinesRoundTrip(rows: seq<seq<string>>, d: Delimiter, layout: Layout)
    requires Exportable(rows)
    ensures ParseDelimitedTable(PrintTable(rows, d, layout))
            == Some(Table(Trims(rows[0]), TrimRows(rows[1..]), d))
            <==> d.Tab? || ShowsDelimiter(rows)
  {
    hide ContentLines, Lines, Sample, Detected, PrintTable, PrintLine, SplitLine, StripBom, SingleLines;
    PrintedTableLines(rows, d, layout);
    PrintedDetection(Sampled(rows), d);
    assert ShowsDelimiter(Sampled(rows)) <==> ShowsDelimiter(rows) by {
      assert forall i :: 0 <= i < |Sampled(rows)| ==> Sampled(rows)[i] == rows[i];
    }
    ReadRow(rows[0], d);
    ReadRows(rows[1..], d);
    assert PrintLines(rows, d)[1..] == PrintLines(rows[1..], d);
  }

  // ---- Line feeds inside cells ----

  function ContentCount(text: string): nat {
    |ContentLines(Lines(text))|
  }

  lemma BlankParts(s: string, n: nat)
    requires n <= |s| && Blank(s[..n]) && Blank(s[n..])
    ensures Blank(s)
  {
    assert forall i :: 0 <= i < |s| ==> s[i] == if i < n then s[..n][i] else s[n..][i - n];
  }

  lemma NotBlankIsContent(line: string, k: nat)
    requires k < |line| && line[k] == QUOTE
    ensures Trim(TrimEnd(line)) != ""
  {
    hide Trim, TrimEnd;
    var hi := TrimEndWindow(line);
    var _, _ := TrimWindow(TrimEnd(line));
    if Trim(TrimEnd(line)) == "" {
      BlankParts(line, hi);
      assert false;
    }
  }

  /** One line more, when it holds a quote: one content line more. */
  lemma CutCounts(head: string, rest: string, k: nat)
    requires Free(head, '\n') && k < |head| && head[k] == QUOTE
    ensures ContentCount(head + "\n" + rest) == 1 + ContentCount(rest)
  {
    hide Trim, TrimEnd, Lines;
    LinesCut(head, rest);
    NotBlankIsContent(DropCarriageReturn(head), k);
    assert ([DropCarriageReturn(head)] + Lines(rest))[1..] == Lines(rest);
  }

  lemma FirstCut(text: string, more: string)
    requires !Free(text, '\n')
    ensures var i := IndexOf(text, '\n');
            i < |text| && Free(text[..i], '\n') && text + more == text[..i] + "\n" + (text[i + 1..] + more)
  {
    hide IndexOf, Free;
    var i := IndexOf(text, '\n');
    IndexOfHolds(text, '\n');
    assert text == text[..i] + "\n" + text[i + 1..];
    assert text[..i] + "\n" + (text[i + 1..] + more) == (text[..i] + "\n" + text[i + 1..]) + more;
  }

  /** A text that ends with a quote, and its line end: at least one content line. */
  lemma {:induction false} EndCounts(text: string, end: string, rest: string)
    requires text != "" && text[|text| - 1] == QUOTE && IsLineEnd(end)
    ensures ContentCount(text + end + rest) >= 1 + ContentCount(rest)
    decreases |text|
  {
    hide ContentCount, IndexOf;
    if Free(text, '\n') {
      var head := if end == "\n" then text else text + "\r";
      assert text + end + rest == head + "\n" + rest;
      CutCounts(head, rest, |text| - 1);
    } else {
      var i := IndexOf(text, '\n');
      FirstCut(text, end + rest);
      assert text + end + rest == text + (end + rest);
      var tail := text[i + 1..];
      assert text[i..][0] == '\n';
      assert tail + (end + rest) == tail + end + rest;
      EndCounts(tail, end, rest);
      CountsMore(text[..i], tail + end + rest);
    }
  }

  lemma CountsMore(head: string, rest: string)
    requires Free(head, '\n')
    ensures ContentCount(head + "\n" + rest) >= ContentCount(rest)
  {
    hide Trim, TrimEnd, Lines;
    LinesCut(head, rest);
    assert ([DropCarriageReturn(head)] + Lines(rest))[1..] == Lines(rest);
  }

  lemma {:induction false} LastCounts(text: string)
    requires text != "" && text[|text| - 1] == QUOTE
    ensures ContentCount(text) >= 1
    decreases |text|
  {
    hide ContentCount, IndexOf;
    if Free(text, '\n') {
      OnlyCounts(text);
    } else {
      var i := IndexOf(text, '\n');
      FirstCut(text, "");
      var tail := text[i + 1..];
      assert text[i..][0] == '\n';
      assert text + "" == text && tail + "" == tail;
      LastCounts(tail);
      CountsMore(text[..i], tail);
    }
  }

  lemma OnlyCounts(text: string)
    requires Free(text, '\n') && text != "" && text[|text| - 1] == QUOTE
    ensures ContentCount(text) == 1
  {
    hide Trim, TrimEnd, Lines;
    OnlyLine(text);
    NotBlankIsContent(text, |text| - 1);
    assert ContentLines([text]) == [TrimEnd(text)] + ContentLines([text][1..]) && [text][1..] == [];
  }

  predicate Quoted(line: string) {
    |line| >= 2 && line[0] == QUOTE && line[|line| - 1] == QUOTE
  }

  /** How many content lines a printed line makes at least. */
  function Weight(line: string): nat {
    if Free(line, '\n') then 1 else 2
  }

  /** A printed line that holds a line feed falls into two or more content lines: every fragment at its ends keeps
      a quote. */
  lemma LineCounts(line: string, end: string, rest: string)
    requires Quoted(line) && IsLineEnd(end)
    ensures ContentCount(line + end + rest) >= Weight(line) + ContentCount(rest)
    ensures ContentCount(line) >= Weight(line)
  {
    hide ContentCount, IndexOf;
    if Free(line, '\n') {
      EndCounts(line, end, rest);
      LastCounts(line);
    } else {
      var i := IndexOf(line, '\n');
      FirstCut(line, end + rest);
      FirstCut(line, "");
      var tail := line[i + 1..];
      assert line[i..][0] == '\n';
      assert line + end + rest == line + (end + rest) && line + "" == line;
      assert tail + (end + rest) == tail + end + rest && tail + "" == tail;
      CutCounts(line[..i], tail + end + rest, 0);
      CutCounts(line[..i], tail, 0);
      EndCounts(tail, end, rest);
      LastCounts(tail);
    }
  }

  function Weights(lines: seq<string>): (n: nat) {
    if lines == [] then 0 else Weight(lines[0]) + Weights(lines[1..])
  }

  lemma {:induction false} WeightsExceed(lines: seq<string>)
    ensures Weights(lines) >= |lines|
    ensures (exists i :: 0 <= i < |lines| && !Free(lines[i], '\n')) ==> Weights(lines) > |lines|
  {
    if lines != [] {
      WeightsExceed(lines[1..]);
      if i :| 0 <= i < |lines| && !Free(lines[i], '\n') {
        assert i > 0 ==> lines[1..][i - 1] == lines[i];
      }
    }
  }

  lemma {:induction false} BodyCounts(lines: seq<string>, end: string, tail: string)
    requires lines != [] && IsLineEnd(end) && (tail == "" || tail == end)
    requires forall i :: 0 <= i < |lines| ==> Quoted(lines[i])
    ensures ContentCount(Join(lines, end) + tail) >= Weights(lines)
    decreases |lines|
  {
    hide ContentCount, Weight, Quoted;
    var first, others := lines[0], lines[1..];
    LineCounts(first, end, "");
    if others == [] {
      assert Join(lines, end) + "" == first && first + end + "" == first + end;
    } else {
      BodyCounts(others, end, tail);
      var rest := Join(others, end) + tail;
      LineCounts(first, end, rest);
      assert Join(lines, end) + tail == first + end + rest;
    }
  }

  lemma {:induction false} QuotedJoin(parts: seq<string>, sep: string, i: nat)
    requires i < |parts| && forall k :: 0 <= k < |parts| ==> Quoted(parts[k])
    ensures Quoted(Join(parts, sep))
    ensures !Free(parts[i], '\n') ==> !Free(Join(parts, sep), '\n')
    decreases |parts|
  {
    hide Free;
    if |parts| > 1 {
      var rest := Join(parts[1..], sep);
      QuotedJoin(parts[1..], sep, if i > 0 then i - 1 else 0);
      HoldsPart("", parts[0], sep + rest);
      HoldsPart(parts[0] + sep, rest, "");
      assert Join(parts, sep) == "" + parts[0] + (sep + rest) == parts[0] + sep + rest + "";
    }
  }

  lemma HoldsPart(a: string, part: string, b: string)
    ensures !Free(part, '\n') ==> !Free(a + part + b, '\n')
  {
    if !Free(part, '\n') {
      var k :| 0 <= k < |part| && part[k] == '\n';
      assert (a + part + b)[|a| + k] == '\n';
    }
  }

  lemma FreeSnoc(s: string, c: char)
    requires s != ""
    ensures Free(s, c) <==> Free(s[..|s| - 1], c) && s[|s| - 1] != c
  {
  }

  lemma {:induction false} DoubledHolds(cell: string)
    ensures !Free(cell, '\n') ==> !Free(Doubled(cell), '\n')
  {
    if cell != "" {
      var n := |cell| - 1;
      DoubledHolds(cell[..n]);
      var front, last := Doubled(cell[..n]), if cell[n] == QUOTE then [QUOTE, QUOTE] else [cell[n]];
      assert Doubled(cell) == "" + front + last == front + last + "";
      HoldsPart("", front, last);
      HoldsPart(front, last, "");
      FreeSnoc(cell, '\n');
      assert cell[n] == '\n' ==> last[0] == '\n';
    }
  }

  lemma PrintLineCounts(cells: seq<string>, d: Delimiter)
    requires cells != []
    ensures Quoted(PrintLine(cells, d)) && (!SingleLine(cells) ==> !Free(PrintLine(cells, d), '\n'))
  {
    hide Free, Doubled, Join;
    QuotedJoin(PrintCells(cells), [d.Char()], 0);
    if i :| 0 <= i < |cells| && !Free(cells[i], '\n') {
      DoubledHolds(cells[i]);
      HoldsPart([QUOTE], Doubled(cells[i]), [QUOTE]);
      QuotedJoin(PrintCells(cells), [d.Char()], i);
    }
  }

  /** With a line feed in some cell more rows are read than were printed. */
  lemma LineFeedsAddRows(rows: seq<seq<string>>, d: Delimiter, layout: Layout)
    requires IsTable(rows) && !SingleLines(rows)
    ensures var read := ParseDelimitedTable(PrintTable(rows, d, layout)); read.Some? && |read.value.rows| >= |rows|
  {
    hide Detected, Sample, SplitLine, PrintLine, SingleLine, Lines, ContentLines, StripBom, PrintTable;
    var lines := PrintLines(rows, d);
    forall i | 0 <= i < |rows| ensures Quoted(lines[i]) && (!SingleLine(rows[i]) ==> !Free(lines[i], '\n')) {
      PrintLineCounts(rows[i], d);
    }
    var i :| 0 <= i < |rows| && !SingleLine(rows[i]);
    assert !Free(lines[i], '\n');
    WeightsExceed(lines);
    BodyCounts(lines, layout.LineEnd(), layout.Tail());
    PrintedBodyStarts(rows, d, layout);
  }

  /** The whole importer round trip. A printed table, with ragged rows and any quotes or delimiters inside the
      cells, is read back with every cell trimmed and with the delimiter it was printed with, exactly when no cell
      holds a line feed and that delimiter is the tab or one of the first three lines shows it. */
  lemma TableRoundTrip(rows: seq<seq<string>>, d: Delimiter, layout: Layout)
    requires IsTable(rows)
    ensures ParseDelimitedTable(PrintTable(rows, d, layout))
            == Some(Table(Trims(rows[0]), TrimRows(rows[1..]), d))
            <==> SingleLines(rows) && (d.Tab? || ShowsDelimiter(rows))
  {
    hide ParseDelimitedTable, PrintTable, SingleLines, ShowsDelimiter;
    if SingleLines(rows) {
      SingleLinesRoundTrip(rows, d, layout);
    } else {
      LineFeedsAddRows(rows, d, layout);
    }
  }

  /** With cells already trimmed the table itself comes back. */
  lemma TrimmedTableRoundTrip(rows: seq<seq<string>>, d: Delimiter, layout: Layout)
    requires IsTable(rows) && forall i :: 0 <= i < |rows| ==> AllTrimmed(rows[i])
    ensures ParseDelimitedTable(PrintTable(rows, d, layout)) == Some(Table(rows[0], rows[1..], d))
            <==> SingleLines(rows) && (d.Tab? || ShowsDelimiter(rows))
  {
    hide ParseDelimitedTable, PrintTable, SingleLines, ShowsDelimiter;
    TableRoundTrip(rows, d, layout);
    forall i | 0 <= i < |rows| ensures Trims(rows[i]) == rows[i] {
      TrimmedRow(rows[i]);
    }
    assert TrimRows(rows[1..]) == rows[1..];
  }

  lemma TrimmedRow(cells: seq<string>)
    requires AllTrimmed(cells)
    ensures Trims(cells) == cells
  {
    forall j | 0 <= j < |cells| ensures Trim(cells[j]) == cells[j] {
      TrimTrimmed(cells[j]);
    }
  }

  /** A table of one column printed with commas is taken for one with tabs. */
  lemma SingleColumnMisread(layout: Layout)
    ensures var rows := [["a"], ["b"]];
            ParseDelimitedTable(PrintTable(rows, Comma, layout)) != Some(Table(rows[0], rows[1..], Comma))
  {
    hide ParseDelimitedTable, PrintTable;
    TrimmedTableRoundTrip([["a"], ["b"]], Comma, layout);
  }
}
