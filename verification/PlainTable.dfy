/** A table printed without quotes, as spreadsheets do when no cell needs them, and when it is read back. */
module PlainTable {
  import opened DelimitedLine
  import opened DelimitedTable
  import opened Options
  import opened TableText
  import opened Text

  /** No cell holds a quote, a line feed or the delimiter. */
  predicate IsPlain(cells: seq<string>, d: Delimiter) {
    forall i :: 0 <= i < |cells| ==> Free(cells[i], '"') && Free(cells[i], '\n') && Free(cells[i], d.Char())
  }

  predicate IsPlainTable(rows: seq<seq<string>>, d: Delimiter) {
    IsTable(rows) && forall i :: 0 <= i < |rows| ==> IsPlain(rows[i], d)
  }

  function PlainLine(cells: seq<string>, d: Delimiter): string {
    Join(cells, [d.Char()])
  }

  function PlainLines(rows: seq<seq<string>>, d: Delimiter): (lines: seq<string>)
    ensures |lines| == |rows| && forall i :: 0 <= i < |rows| ==> lines[i] == PlainLine(rows[i], d)
  {
    seq(|rows|, i requires 0 <= i < |rows| => PlainLine(rows[i], d))
  }

  function PrintPlain(rows: seq<seq<string>>, d: Delimiter, layout: Layout): string {
    (if layout.bom then [BYTE_ORDER_MARK] else "") + (Join(PlainLines(rows, d), layout.LineEnd()) + layout.Tail())
  }

  lemma {:induction false} QuoteFree(s: string)
    requires Free(s, '"')
    ensures !Odd(s) && Unescape(s) == s
  {
    if s != "" {
      assert s == s[..|s| - 1] + [s[|s| - 1]];
      QuoteFree(s[..|s| - 1]);
    }
  }

  /** A line printed without quotes is cut into its cells. */
  lemma PlainLineSplit(cells: seq<string>, d: Delimiter)
    requires cells != [] && IsPlain(cells, d)
    ensures SplitLine(PlainLine(cells, d), d) == Trims(cells)
  {
    hide Odd, Unescape, Join, Segments;
    forall i | 0 <= i < |cells| ensures !Odd(cells[i]) && CutFree(cells[i], d) && Value(cells[i]) == Trim(cells[i]) {
      QuoteFree(cells[i]);
    }
    ParityCutUnique(cells, PlainLine(cells, d), d);
  }

  /** A line that keeps its last cell: behind a tab, which is white space, an empty last cell is lost, and so is a
      line without any text. */
  predicate Survives(cells: seq<string>, d: Delimiter)
    requires cells != []
  {
    if d.Tab? then cells[|cells| - 1] != "" else |cells| >= 2 || cells[0] != ""
  }

  predicate EndsInText(line: string) {
    line != "" && !IsSpace(line[|line| - 1])
  }

  lemma PlainLineEnd(cells: seq<string>, d: Delimiter)
    requires cells != [] && AllTrimmed(cells)
    ensures EndsInText(PlainLine(cells, d)) <==> Survives(cells, d)
    ensures var line := PlainLine(cells, d); line != "" ==> line[|line| - 1] == d.Char() || !IsSpace(line[|line| - 1])
  {
    hide Join;
    var front, last := cells[..|cells| - 1], cells[|cells| - 1];
    if front == [] {
      assert cells == [last];
      JoinSingle(last, [d.Char()]);
    } else {
      assert cells == front + [last];
      JoinSnoc(front, last, [d.Char()]);
    }
  }

  lemma {:induction false} PlainLineFree(cells: seq<string>, d: Delimiter, c: char)
    requires c != d.Char() && forall i :: 0 <= i < |cells| ==> Free(cells[i], c)
    ensures Free(PlainLine(cells, d), c)
    decreases |cells|
  {
    if |cells| > 1 {
      PlainLineFree(cells[1..], d, c);
    }
  }

  lemma PlainLineIsLine(cells: seq<string>, d: Delimiter)
    requires cells != [] && AllTrimmed(cells) && IsPlain(cells, d)
    ensures IsLine(PlainLine(cells, d)) && Free(PlainLine(cells, d), '"')
    ensures PlainLine(cells, d) != "" ==> PlainLine(cells, d)[0] != BYTE_ORDER_MARK
  {
    PlainLineFree(cells, d, '\n');
    PlainLineFree(cells, d, '"');
    PlainLineEnd(cells, d);
    assert Trimmed(cells[0]);
  }

  /** The printed text falls into the printed lines, and an empty one behind a final line end. */
  lemma PlainTextLines(rows: seq<seq<string>>, d: Delimiter, layout: Layout)
    requires IsPlainTable(rows, d) && forall i :: 0 <= i < |rows| ==> AllTrimmed(rows[i])
    ensures Lines(StripBom(PrintPlain(rows, d, layout))) == PlainLines(rows, d) + layout.TailLines()
  {
    hide Lines, Join, PlainLine, AllTrimmed, IsPlain;
    var lines := PlainLines(rows, d);
    forall i | 0 <= i < |rows|
      ensures IsLine(lines[i]) && (lines[i] != "" ==> lines[i][0] != BYTE_ORDER_MARK)
    {
      PlainLineIsLine(rows[i], d);
    }
    LastLine(lines[|lines| - 1], layout.LineEnd());
    assert lines[|lines| - 1] + "" == lines[|lines| - 1];
    PrintedLines(lines, layout.LineEnd(), layout.Tail(), layout.TailLines());
    NoMarkInFront(lines, layout);
    StripPrinted(Join(lines, layout.LineEnd()) + layout.Tail(), layout.bom);
  }

  lemma StripPrinted(body: string, bom: bool)
    requires body != "" && body[0] != BYTE_ORDER_MARK
    ensures StripBom((if bom then [BYTE_ORDER_MARK] else "") + body) == body
  {
  }

  lemma NoMarkInFront(lines: seq<string>, layout: Layout)
    requires |lines| >= 2 && (lines[0] != "" ==> lines[0][0] != BYTE_ORDER_MARK)
    ensures var body := Join(lines, layout.LineEnd()) + layout.Tail(); body != "" && body[0] != BYTE_ORDER_MARK
  {
  }

  lemma EndsInTextContent(line: string)
    ensures EndsInText(line) <==> TrimEnd(line) == line && line != ""
    ensures EndsInText(line) ==> !Blank(line)
  {
    if line != "" {
      var hi := TrimEndWindow(line[..|line| - 1]);
    }
  }

  lemma {:induction false} FullContent(lines: seq<string>)
    ensures |ContentLines(lines)| <= |lines|
    ensures |ContentLines(lines)| == |lines| ==>
              forall i :: 0 <= i < |lines| ==> !Blank(lines[i]) && ContentLines(lines)[i] == TrimEnd(lines[i])
  {
    hide Trim, TrimEnd;
    if lines != [] {
      LineContent(lines[0]);
      FullContent(lines[1..]);
    }
  }

  lemma {:induction false} TextLinesAreContent(lines: seq<string>)
    requires forall i :: 0 <= i < |lines| ==> EndsInText(lines[i])
    ensures ContentLines(lines) == lines
  {
    hide Trim, TrimEnd, EndsInText;
    if lines != [] {
      EndsInTextContent(lines[0]);
      LineContent(lines[0]);
      TextLinesAreContent(lines[1..]);
    }
  }

  lemma TailIsNoContent(lines: seq<string>, layout: Layout)
    ensures ContentLines(lines + layout.TailLines()) == ContentLines(lines)
  {
    hide ContentLines, Trim, TrimEnd;
    if layout.finalNewline {
      ContentConcat(lines, [""]);
      OneLine("");
    } else {
      assert lines + [] == lines;
    }
  }

  // ---- Which delimiter is found ----

  lemma {:induction false} PlainPlaces(s: string, d: Delimiter)
    requires Free(s, '"')
    ensures |Places(s, d)| == multiset(s)[d.Char()]
  {
    if s != "" {
      var front, c := s[..|s| - 1], s[|s| - 1];
      assert s == front + [c];
      PlainPlaces(front, d);
      QuoteFree(front);
      PlacesSnoc(front, c, d);
      assert |front| !in Places(front, d);
    }
  }

  /** How often a character occurs in the lines. */
  ghost function Occurrences(lines: seq<string>, c: char): nat {
    multiset(Join(lines, ""))[c]
  }

  lemma OccurrencesSnoc(front: seq<string>, last: string, c: char)
    ensures Occurrences(front + [last], c) == Occurrences(front, c) + multiset(last)[c]
  {
    hide Join;
    if front == [] {
      assert front + [last] == [last];
      JoinSingle(last, "");
      JoinNothing();
    } else {
      JoinSnoc(front, last, "");
      assert Join(front, "") + "" + last == Join(front, "") + last;
    }
  }

  lemma JoinNothing()
    ensures Join([], "") == ""
  {
  }

  lemma {:induction false} PlainScore(sample: seq<string>, d: Delimiter)
    requires forall i :: 0 <= i < |sample| ==> Free(sample[i], '"')
    ensures Score(sample, d) == Occurrences(sample, d.Char())
  {
    hide Free, SplitLine, Occurrences;
    if sample == [] {
      NoOccurrences(d.Char());
    } else {
      var front, last := sample[..|sample| - 1], sample[|sample| - 1];
      assert sample == front + [last];
      PlainScore(front, d);
      FieldCount(last, d);
      PlainPlaces(last, d);
      OccurrencesSnoc(front, last, d.Char());
    }
  }

  lemma NoOccurrences(c: char)
    ensures Occurrences([], c) == 0
  {
  }

  /** In the first three lines, trimmed, no delimiter occurs more often; none that is preferred occurs as often. */
  ghost predicate Prevails(rows: seq<seq<string>>, d: Delimiter) {
    var seen := Trims(PlainLines(Sampled(rows), d));
    forall e: Delimiter ::
      && Occurrences(seen, e.Char()) <= Occurrences(seen, d.Char())
      && ((e.Tab? && !d.Tab?) || (e.Semicolon? && d.Comma?) ==>
            Occurrences(seen, e.Char()) < Occurrences(seen, d.Char()))
  }

  lemma TrimFree(s: string, c: char)
    requires Free(s, c)
    ensures Free(Trim(s), c)
  {
    hide Trim;
    var lo, hi := TrimWindow(s);
  }

  lemma PlainDetection(rows: seq<seq<string>>, d: Delimiter)
    requires IsPlainTable(rows, d)
    ensures Detected(Trims(PlainLines(Sampled(rows), d))) == d <==> Prevails(rows, d)
  {
    hide Detected, Score, Occurrences, Trim, Free, PlainLine;
    var seen := Trims(PlainLines(Sampled(rows), d));
    forall i | 0 <= i < |seen| ensures Free(seen[i], '"') {
      PlainLineFree(rows[i], d, '"');
      TrimFree(PlainLine(rows[i], d), '"');
    }
    forall e: Delimiter ensures Score(seen, e) == Occurrences(seen, e.Char()) {
      PlainScore(seen, e);
    }
    DetectedIsBest(seen);
  }

  // ---- The round trip ----

  ghost predicate Readable(rows: seq<seq<string>>, d: Delimiter)
    requires IsPlainTable(rows, d)
  {
    forall i :: 0 <= i < |rows| ==> AllTrimmed(rows[i]) && Survives(rows[i], d)
  }

  lemma ReadableRoundTrip(rows: seq<seq<string>>, d: Delimiter, layout: Layout)
    requires IsPlainTable(rows, d) && Readable(rows, d)
    ensures ParseDelimitedTable(PrintPlain(rows, d, layout)) == Some(Table(rows[0], rows[1..], d))
            <==> Prevails(rows, d)
  {
    hide Lines, ContentLines, TrimmedLines, SplitLine, Detected, Prevails, PlainLine, PrintPlain, AllTrimmed, Survives;
    hide IsPlain, StripBom;
    var text, lines := PrintPlain(rows, d, layout), PlainLines(rows, d);
    PlainTextLines(rows, d, layout);
    TailIsNoContent(lines, layout);
    forall i | 0 <= i < |rows| ensures EndsInText(lines[i]) && SplitLine(lines[i], d) == rows[i] {
      PlainLineEnd(rows[i], d);
      PlainLineSplit(rows[i], d);
      TrimmedRow(rows[i]);
    }
    TextLinesAreContent(lines);
    TrimmedAreTrims(lines + layout.TailLines());
    StripAgain(StripBom(text));
    assert Sample(StripBom(text)) == Trims(PlainLines(Sampled(rows), d));
    PlainDetection(rows, d);
    assert SplitAll(lines[1..], d) == rows[1..];
    TrimmedRow(rows[0]);
  }

  /** Whatever is read is trimmed. */
  lemma ReadIsTrimmed(line: string, d: Delimiter)
    ensures AllTrimmed(SplitLine(line, d)) && AllTrimmed(Trims(SplitLine(line, d)))
  {
    hide Trim, Segments, Unescape;
    var values := SplitLine(line, d);
    forall i | 0 <= i < |values| ensures Trimmed(values[i]) && Trimmed(Trim(values[i])) {
      var _, _ := TrimWindow(Unescape(Segments(line, d)[i]));
      var _, _ := TrimWindow(values[i]);
    }
  }

  lemma TableIsTrimmed(text: string)
    ensures var read := ParseDelimitedTable(text);
            read.Some? ==> AllTrimmed(read.value.headers)
                           && forall r :: 0 <= r < |read.value.rows| ==> AllTrimmed(read.value.rows[r])
  {
    hide SplitLine, AllTrimmed, Detected, Sample, ContentLines, Lines, StripBom;
    forall line, d ensures AllTrimmed(SplitLine(line, d)) && AllTrimmed(Trims(SplitLine(line, d))) {
      ReadIsTrimmed(line, d);
    }
  }

  lemma PrefixHasFewer(line: string, n: nat, c: char)
    requires n < |line| && line[|line| - 1] == c
    ensures multiset(line[..n])[c] < multiset(line)[c]
  {
    assert line == line[..n] + line[n..|line| - 1] + [c];
  }

  /** A line of tabbed cells whose last cell is lost has fewer fields. */
  lemma LostCell(line: string)
    requires Free(line, '"') && line != "" && line[|line| - 1] == '\t'
    ensures |SplitLine(TrimEnd(line), Tab)| < |SplitLine(line, Tab)|
  {
    hide Places, SplitLine;
    var n := |line| - 1;
    var hi := TrimEndWindow(line[..n]);
    var kept := line[..hi];
    assert line[..n][..hi] == kept;
    FieldCount(line, Tab);
    FieldCount(kept, Tab);
    PlainPlaces(line, Tab);
    PlainPlaces(kept, Tab);
    PrefixHasFewer(line, hi, '\t');
  }

  lemma LostRow(rows: seq<seq<string>>, d: Delimiter, layout: Layout, i: nat)
    requires IsPlainTable(rows, d) && forall k :: 0 <= k < |rows| ==> AllTrimmed(rows[k])
    requires i < |rows| && !Survives(rows[i], d)
    ensures ParseDelimitedTable(PrintPlain(rows, d, layout)) != Some(Table(rows[0], rows[1..], d))
  {
    hide Lines, ContentLines, SplitLine, Detected, Sample, PlainLine, PrintPlain, AllTrimmed, Survives, IsPlain;
    hide StripBom, TrimEnd, EndsInText;
    var lines := PlainLines(rows, d);
    PlainTextLines(rows, d, layout);
    TailIsNoContent(lines, layout);
    FullContent(lines);
    LostLine(rows[i], d);
  }

  /** A line that does not survive is dropped, or is read with fewer cells. */
  lemma LostLine(cells: seq<string>, d: Delimiter)
    requires cells != [] && AllTrimmed(cells) && IsPlain(cells, d) && !Survives(cells, d)
    ensures var line := PlainLine(cells, d);
            Blank(line) || |SplitLine(TrimEnd(line), d)| < |cells|
  {
    hide SplitLine, PlainLine, TrimEnd, AllTrimmed, IsPlain;
    var line := PlainLine(cells, d);
    PlainLineEnd(cells, d);
    if line != "" {
      PlainLineIsLine(cells, d);
      PlainLineSplit(cells, d);
      LostCell(line);
    }
  }

  /** The round trip of a table printed without quotes, empty leading cells and ragged rows included: it is read back
      exactly when every cell is trimmed, every line keeps its last cell, and its delimiter prevails in the first
      three lines. */
  lemma PlainRoundTrip(rows: seq<seq<string>>, d: Delimiter, layout: Layout)
    requires IsPlainTable(rows, d)
    ensures ParseDelimitedTable(PrintPlain(rows, d, layout)) == Some(Table(rows[0], rows[1..], d))
            <==> Readable(rows, d) && Prevails(rows, d)
  {
    hide ParseDelimitedTable, PrintPlain, Prevails, AllTrimmed, Survives, IsPlain;
    TableIsTrimmed(PrintPlain(rows, d, layout));
    if Readable(rows, d) {
      ReadableRoundTrip(rows, d, layout);
    } else if forall k :: 0 <= k < |rows| ==> AllTrimmed(rows[k]) {
      var i :| 0 <= i < |rows| && !Survives(rows[i], d);
      LostRow(rows, d, layout, i);
    } else {
      var k :| 0 <= k < |rows| && !AllTrimmed(rows[k]);
      assert k > 0 ==> rows[1..][k - 1] == rows[k];
    }
  }

  /** An empty last cell behind a tab does not come back. */
  lemma LastCellLost(layout: Layout)
    ensures var rows := [["a", "b"], ["1", ""]];
            && IsPlainTable(rows, Tab)
            && ParseDelimitedTable(PrintPlain(rows, Tab, layout)) != Some(Table(rows[0], rows[1..], Tab))
  {
    hide ParseDelimitedTable, PrintPlain, Prevails;
    var rows := [["a", "b"], ["1", ""]];
    PlainRoundTrip(rows, Tab, layout);
    assert !Survives(rows[1], Tab);
  }
}
