/** One line of a delimited export: the quote automaton of `splitDelimitedLine`
    (apps/web/lib/csv-import.ts) against a specification by quote parity. The quoting discipline is
    that of section 2 of RFC 4180, rules 5 and 7. */
module DelimitedLine {
  import Keyed
  import opened Text

  datatype Delimiter = Tab | Semicolon | Comma {
    function Char(): (c: char)
      ensures c != QUOTE && c != '\n' && c != '\r'
    {
      match this case Tab => '\t' case Semicolon => ';' case Comma => ','
    }
  }

  const QUOTE: char := '"'

  // ---- Parity specification ----

  /** The text holds an odd number of quote characters, so what follows it is inside quotes. */
  predicate Odd(s: string) {
    s != "" && (Odd(s[..|s| - 1]) <==> s[|s| - 1] != QUOTE)
  }

  lemma {:induction false} OddIsCounted(s: string)
    ensures Odd(s) <==> multiset(s)['"'] % 2 == 1
  {
    if s != "" {
      OddIsCounted(s[..|s| - 1]);
      assert s == s[..|s| - 1] + [s[|s| - 1]];
    }
  }

  /** A position where the line is cut: a delimiter with evenly many quotes before it. */
  predicate IsCut(s: string, k: nat, d: Delimiter)
    requires k < |s|
  {
    s[k] == d.Char() && !Odd(s[..k])
  }

  function Grow(parts: seq<string>, cut: bool, c: char): (grown: seq<string>)
    requires parts != []
    ensures |grown| == |parts| + if cut then 1 else 0
  {
    if cut then parts + [""] else parts[..|parts| - 1] + [parts[|parts| - 1] + [c]]
  }

  /** The raw pieces between cuts, quotes still in place. */
  function Segments(s: string, d: Delimiter): (parts: seq<string>)
    ensures parts != []
  {
    if s == "" then [""]
    else Grow(Segments(s[..|s| - 1], d), IsCut(s, |s| - 1, d), s[|s| - 1])
  }

  /** A character of a segment is part of the value unless it is a quote; a quote is kept exactly when
      it directly follows a quote and an even number of quotes precede it (rule 7 of the RFC). */
  predicate Kept(s: string, k: nat)
    requires k < |s|
  {
    s[k] != QUOTE || (k > 0 && s[k - 1] == QUOTE && !Odd(s[..k]))
  }

  function Unescape(s: string): string {
    if s == "" then ""
    else Unescape(s[..|s| - 1]) + (if Kept(s, |s| - 1) then [s[|s| - 1]] else "")
  }

  function Value(segment: string): string {
    Trim(Unescape(segment))
  }

  function Values(parts: seq<string>): (values: seq<string>)
    ensures |values| == |parts|
    ensures forall i :: 0 <= i < |parts| ==> values[i] == Value(parts[i])
  {
    seq(|parts|, i requires 0 <= i < |parts| => Value(parts[i]))
  }

  function SplitLine(line: string, d: Delimiter): (values: seq<string>)
    ensures |values| == |Segments(line, d)|
  {
    Values(Segments(line, d))
  }

  // ---- One character more ----

  lemma OddSnoc(s: string, c: char)
    ensures Odd(s + [c]) <==> (Odd(s) <==> c != QUOTE)
  {
    assert (s + [c])[..|s|] == s;
  }

  lemma SegmentsSnoc(s: string, c: char, d: Delimiter)
    ensures Segments(s + [c], d) == Grow(Segments(s, d), c == d.Char() && !Odd(s), c)
  {
    assert (s + [c])[..|s|] == s;
  }

  lemma UnescapeSnoc(s: string, c: char)
    ensures Unescape(s + [c]) == Unescape(s) +
            if c != QUOTE || (s != "" && s[|s| - 1] == QUOTE && !Odd(s)) then [c] else ""
  {
    assert (s + [c])[..|s|] == s;
  }

  // ---- What the specification means ----

  lemma {:induction false} OddConcat(a: string, b: string)
    ensures Odd(a + b) <==> (Odd(a) <==> !Odd(b))
  {
    if b == "" {
      assert a + b == a;
    } else {
      var b', c := b[..|b| - 1], b[|b| - 1];
      assert a + b == (a + b') + [c];
      OddConcat(a, b');
      OddSnoc(a + b', c);
    }
  }

  predicate CutFree(s: string, d: Delimiter) {
    forall k :: 0 <= k < |s| ==> !IsCut(s, k, d)
  }

  /** `parts` is what a reader who only counts quotes would call the fields of `s`. */
  ghost predicate IsParityCut(parts: seq<string>, s: string, d: Delimiter) {
    && parts != []
    && Join(parts, [d.Char()]) == s
    && (forall i :: 0 <= i < |parts| ==> CutFree(parts[i], d))
    && (forall i :: 0 <= i < |parts| - 1 ==> !Odd(parts[i]))
  }

  lemma EmptyPiece(d: Delimiter)
    ensures !Odd("") && CutFree("", d) && IsParityCut([""], "", d) && Segments("", d) == [""]
  {
    JoinSingle("", [d.Char()]);
  }

  lemma GrowConcat(a: seq<string>, b: seq<string>, cut: bool, c: char)
    requires b != []
    ensures Grow(a + b, cut, c) == a + Grow(b, cut, c)
  {
  }

  /** Prefixing text with evenly many quotes and a delimiter only adds fields in front. */
  lemma {:induction false} SegmentsConcat(a: string, b: string, d: Delimiter)
    requires !Odd(a)
    ensures Segments(a + [d.Char()] + b, d) == Segments(a, d) + Segments(b, d)
  {
    EmptyPiece(d);
    hide Odd, Segments, CutFree, IsParityCut;
    var p := a + [d.Char()];
    if b == "" {
      assert p + b == p;
      SegmentsSnoc(a, d.Char(), d);
    } else {
      var b', c := b[..|b| - 1], b[|b| - 1];
      SegmentsConcat(a, b', d);
      OddSnoc(a, d.Char());
      OddConcat(p, b');
      assert p + b == (p + b') + [c] && b == b' + [c];
      SegmentsSnoc(p + b', c, d);
      SegmentsSnoc(b', c, d);
      GrowConcat(Segments(a, d), Segments(b', d), c == d.Char() && !Odd(b'), c);
    }
  }

  lemma CutFreeSnoc(s: string, c: char, d: Delimiter)
    ensures CutFree(s + [c], d) <==> CutFree(s, d) && !(c == d.Char() && !Odd(s))
  {
    var t := s + [c];
    assert t[..|s|] == s;
    assert forall k :: 0 <= k < |s| ==> t[..k] == s[..k];
    assert forall k :: 0 <= k < |s| ==> (IsCut(t, k, d) <==> IsCut(s, k, d));
    assert IsCut(t, |s|, d) <==> (c == d.Char() && !Odd(s));
  }

  lemma {:induction false} CutFreeIsOneSegment(s: string, d: Delimiter)
    requires CutFree(s, d)
    ensures Segments(s, d) == [s]
  {
    if s != "" {
      var s', c := s[..|s| - 1], s[|s| - 1];
      assert s == s' + [c];
      CutFreeSnoc(s', c, d);
      CutFreeIsOneSegment(s', d);
      SegmentsSnoc(s', c, d);
    }
  }

  lemma JoinGrow(parts: seq<string>, cut: bool, c: char, sep: string)
    requires parts != [] && (cut ==> sep == [c])
    ensures Join(Grow(parts, cut, c), sep) == Join(parts, sep) + [c]
  {
    hide Join;
    var lead, last := parts[..|parts| - 1], parts[|parts| - 1];
    assert parts == lead + [last];
    if cut {
      JoinSnoc(parts, "", sep);
      assert Join(parts, sep) + sep + "" == Join(parts, sep) + [c];
    } else {
      JoinExtend(lead, last, [c], sep);
    }
  }

  /** One more character keeps a parity cut one. */
  lemma GrowKeepsParity(parts: seq<string>, s: string, c: char, d: Delimiter)
    requires IsParityCut(parts, s, d) && (Odd(s) <==> Odd(parts[|parts| - 1]))
    ensures var grown := Grow(parts, c == d.Char() && !Odd(s), c);
            IsParityCut(grown, s + [c], d) && (Odd(s + [c]) <==> Odd(grown[|grown| - 1]))
  {
    EmptyPiece(d);
    hide Odd, CutFree, Join, IsCut;
    var last := parts[|parts| - 1];
    JoinGrow(parts, c == d.Char() && !Odd(s), c, [d.Char()]);
    OddSnoc(s, c);
    OddSnoc(last, c);
    CutFreeSnoc(last, c, d);
  }

  /** The pieces are a parity cut of the line: joining them gives the line back, none contains an
      unquoted delimiter, and every piece before the last holds evenly many quotes. */
  lemma {:induction false} SegmentsIsParityCut(s: string, d: Delimiter)
    ensures IsParityCut(Segments(s, d), s, d)
    ensures Odd(s) <==> Odd(Segments(s, d)[|Segments(s, d)| - 1])
  {
    EmptyPiece(d);
    hide IsParityCut, Odd;
    if s != "" {
      var s', c := s[..|s| - 1], s[|s| - 1];
      assert s == s' + [c];
      SegmentsIsParityCut(s', d);
      SegmentsSnoc(s', c, d);
      hide Segments, Grow;
      GrowKeepsParity(Segments(s', d), s', c, d);
    }
  }

  /** There is only one parity cut, so the pieces are determined by counting quotes alone. */
  lemma {:induction false} ParityCutUnique(parts: seq<string>, s: string, d: Delimiter)
    requires IsParityCut(parts, s, d)
    ensures parts == Segments(s, d)
    decreases |parts|
  {
    CutFreeIsOneSegment(parts[0], d);
    if |parts| > 1 {
      var rest := parts[1..];
      ParityCutUnique(rest, Join(rest, [d.Char()]), d);
      SegmentsConcat(parts[0], Join(rest, [d.Char()]), d);
    }
  }

  /** Where a delimiter stands with an even number of quotes before it. */
  ghost function Places(s: string, d: Delimiter): set<nat> {
    set k: nat | k < |s| && s[k] == d.Char() && multiset(s[..k])['"'] % 2 == 0
  }

  lemma PlacesSnoc(s: string, c: char, d: Delimiter)
    ensures Places(s + [c], d) == Places(s, d) + (if c == d.Char() && !Odd(s) then {|s|} else {})
  {
    OddIsCounted(s);
    hide Odd;
    var t := s + [c];
    assert forall k :: 0 <= k <= |s| ==> t[..k] == s[..k];
    assert s[..|s|] == s;
  }

  /** The number of fields is one more than the number of delimiters outside quotes. */
  lemma {:induction false} FieldCount(s: string, d: Delimiter)
    ensures |SplitLine(s, d)| == 1 + |Places(s, d)|
  {
    if s != "" {
      var front, c := s[..|s| - 1], s[|s| - 1];
      assert s == front + [c];
      FieldCount(front, d);
      PlacesSnoc(front, c, d);
      SegmentsSnoc(front, c, d);
      assert |front| !in Places(front, d);
    }
  }

  /** A character of a piece that is part of its value: any but a quote, or a quote that directly follows a quote
      with an even number of quotes before it. */
  ghost predicate IsContent(s: string, k: nat)
    requires k < |s|
  {
    s[k] != '"' || (k > 0 && s[k - 1] == '"' && multiset(s[..k])['"'] % 2 == 0)
  }

  lemma ContentPrefix(s: string, n: nat, k: nat)
    requires k < n <= |s|
    ensures IsContent(s, k) <==> IsContent(s[..n], k)
  {
    assert s[..n][..k] == s[..k];
  }

  lemma KeptIsContent(s: string, k: nat)
    requires k < |s|
    ensures Kept(s, k) <==> IsContent(s, k)
  {
    OddIsCounted(s[..k]);
  }

  /** The value of a piece, before trimming, is exactly its content, in order. */
  lemma {:induction false} UnescapeExact(s: string) returns (index: seq<nat>)
    ensures |index| == |Unescape(s)| && Keyed.Increasing(index, |s|)
    ensures forall i :: 0 <= i < |index| ==> Unescape(s)[i] == s[index[i]]
    ensures forall r :: 0 <= r < |s| ==> (r in index <==> IsContent(s, r))
  {
    hide IsContent, Kept;
    index := [];
    if s != "" {
      var n := |s| - 1;
      index := UnescapeExact(s[..n]);
      forall r | 0 <= r < n ensures r in index <==> IsContent(s, r) {
        ContentPrefix(s, n, r);
      }
      KeptIsContent(s, n);
      if Kept(s, n) {
        index := index + [n];
      }
    }
  }

  /** Splitting is compositional at every delimiter with an even number of quotes before it. */
  lemma SplitConcat(a: string, b: string, d: Delimiter)
    requires multiset(a)['"'] % 2 == 0
    ensures var mark := match d case Tab => "\t" case Semicolon => ";" case Comma => ",";
            SplitLine(a + mark + b, d) == SplitLine(a, d) + SplitLine(b, d)
  {
    OddIsCounted(a);
    SegmentsConcat(a, b, d);
  }

  // ---- The automaton ----

  /** What is left to do when the scan stands at `index`: one step of the scan per call. */
  function Scan(line: string, index: nat, current: string, inQuotes: bool, d: Delimiter): seq<string>
    requires index <= |line|
    decreases |line| - index
  {
    if index == |line| then [Trim(current)]
    else if line[index] == QUOTE then
      if inQuotes && index + 1 < |line| && line[index + 1] == QUOTE then
        Scan(line, index + 2, current + [QUOTE], inQuotes, d)
      else Scan(line, index + 1, current, !inQuotes, d)
    else if !inQuotes && line[index] == d.Char() then [Trim(current)] + Scan(line, index + 1, "", inQuotes, d)
    else Scan(line, index + 1, current + [line[index]], inQuotes, d)
  }

  /** The loop of `splitDelimitedLine`, with its one-character look-ahead. */
  method SplitDelimitedLine(line: string, d: Delimiter) returns (values: seq<string>)
    ensures values == SplitLine(line, d)
  {
    values := [];
    var current := "";
    var inQuotes := false;
    var index := 0;
    while index < |line|
      invariant 0 <= index <= |line|
      invariant values + Scan(line, index, current, inQuotes, d) == Scan(line, 0, "", false, d)
    {
      var c := line[index];
      if c == QUOTE {
        if inQuotes && index + 1 < |line| && line[index + 1] == QUOTE {
          current := current + [QUOTE];
          index := index + 2;
          continue;
        }
        inQuotes := !inQuotes;
        index := index + 1;
        continue;
      }
      if !inQuotes && c == d.Char() {
        values := values + [Trim(current)];
        current := "";
        index := index + 1;
        continue;
      }
      current := current + [c];
      index := index + 1;
    }
    values := values + [Trim(current)];
    ScanMeetsParity(line, d);
  }

  /** The pieces of the text read so far are `done` and the piece being read, and the scan is inside
      quotes exactly when that piece holds an odd number of them. */
  ghost predicate ReadSoFar(read: string, done: seq<string>, segment: string, d: Delimiter) {
    && Segments(read, d) == done + [segment]
    && (Odd(read) <==> Odd(segment))
    && (segment != "" ==> read != "" && segment[|segment| - 1] == read[|read| - 1])
  }

  lemma ReadCharacter(read: string, done: seq<string>, segment: string, c: char, d: Delimiter)
    requires ReadSoFar(read, done, segment, d)
    ensures if c == d.Char() && !Odd(segment) then ReadSoFar(read + [c], done + [segment], "", d)
            else ReadSoFar(read + [c], done, segment + [c], d)
    ensures Odd(segment + [c]) <==> (Odd(segment) <==> c != QUOTE)
  {
  }

  lemma ValuesSplit(done: seq<string>, segment: string, rest: seq<string>)
    ensures Values(done) + ([Value(segment)] + rest) == Values(done + [segment]) + rest
  {
  }

  /** Outside quotes the scan never stands on the second of two adjacent quotes of one piece. */
  ghost predicate NotBetweenQuotes(line: string, index: nat, segment: string)
    requires index <= |line|
  {
    !Odd(segment) && segment != "" && index < |line| ==> segment[|segment| - 1] != QUOTE || line[index] != QUOTE
  }

  lemma NothingRead(d: Delimiter)
    ensures ReadSoFar("", [], "", d) && !Odd("") && Unescape("") == ""
  {
  }

  lemma {:induction false} ScanRest(line: string, index: nat, done: seq<string>, segment: string, d: Delimiter)
    requires index <= |line| && ReadSoFar(line[..index], done, segment, d)
    requires NotBetweenQuotes(line, index, segment)
    ensures Values(done) + Scan(line, index, Unescape(segment), Odd(segment), d) == SplitLine(line, d)
    decreases |line| - index
  {
    NothingRead(d);
    hide Odd;
    hide Segments;
    hide Unescape;
    hide Values;
    if index == |line| {
      assert line[..index] == line;
      ValuesSplit(done, segment, []);
    } else {
      var c := line[index];
      assert line[..index + 1] == line[..index] + [c];
      ReadCharacter(line[..index], done, segment, c, d);
      UnescapeSnoc(segment, c);
      if c == QUOTE && Odd(segment) && index + 1 < |line| && line[index + 1] == QUOTE {
        var open := segment + [c];
        assert line[..index + 2] == line[..index + 1] + [c];
        ReadCharacter(line[..index + 1], done, open, c, d);
        UnescapeSnoc(open, c);
        assert Unescape(open + [c]) == Unescape(segment) + [c];
        ScanRest(line, index + 2, done, open + [c], d);
      } else if c == d.Char() && !Odd(segment) {
        ScanRest(line, index + 1, done + [segment], "", d);
        ValuesSplit(done, segment, Scan(line, index + 1, "", false, d));
      } else if c == QUOTE {
        assert Unescape(segment + [c]) == Unescape(segment);
        ScanRest(line, index + 1, done, segment + [c], d);
      } else {
        assert Unescape(segment + [c]) == Unescape(segment) + [c];
        ScanRest(line, index + 1, done, segment + [c], d);
      }
    }
  }

  /** The automaton cuts and unescapes exactly as the parity specification says. */
  lemma ScanMeetsParity(line: string, d: Delimiter)
    ensures Scan(line, 0, "", false, d) == SplitLine(line, d)
  {
    assert line[..0] == "";
    NothingRead(d);
    ScanRest(line, 0, [], "", d);
  }

  // ---- Printing ----

  function Doubled(cell: string): string {
    if cell == "" then ""
    else Doubled(cell[..|cell| - 1]) + (if cell[|cell| - 1] == QUOTE then [QUOTE, QUOTE] else [cell[|cell| - 1]])
  }

  /** A cell as an exporter writes it: always quoted, inner quotes doubled. */
  function PrintCell(cell: string): (s: string)
    ensures |s| >= 2 && s[0] == QUOTE && s[|s| - 1] == QUOTE
  {
    [QUOTE] + Doubled(cell) + [QUOTE]
  }

  function PrintCells(cells: seq<string>): (parts: seq<string>)
    ensures |parts| == |cells| && forall i :: 0 <= i < |cells| ==> parts[i] == PrintCell(cells[i])
  {
    seq(|cells|, i requires 0 <= i < |cells| => PrintCell(cells[i]))
  }

  function PrintLine(cells: seq<string>, d: Delimiter): string {
    Join(PrintCells(cells), [d.Char()])
  }

  /** What an open cell keeps while its next character is written. */
  lemma WriteCharacter(p: string, c: char, d: Delimiter)
    requires Odd(p) && CutFree(p, d)
    ensures var q := if c == QUOTE then p + [QUOTE, QUOTE] else p + [c];
            Odd(q) && CutFree(q, d) && Unescape(q) == Unescape(p) + [c]
  {
    OddSnoc(p, c);
    UnescapeSnoc(p, c);
    CutFreeSnoc(p, c, d);
    if c == QUOTE {
      assert p + [QUOTE, QUOTE] == (p + [c]) + [c];
      OddSnoc(p + [c], c);
      UnescapeSnoc(p + [c], c);
      CutFreeSnoc(p + [c], c, d);
    }
  }

  predicate OpenFor(p: string, cell: string, d: Delimiter) {
    Odd(p) && CutFree(p, d) && Unescape(p) == cell
  }

  lemma OpeningQuote(d: Delimiter)
    ensures OpenFor([QUOTE], "", d)
  {
  }

  lemma {:induction false} OpenCell(cell: string, d: Delimiter)
    ensures OpenFor([QUOTE] + Doubled(cell), cell, d)
  {
    if cell == "" {
      OpeningQuote(d);
      assert [QUOTE] + Doubled(cell) == [QUOTE];
    } else {
      var front, c := cell[..|cell| - 1], cell[|cell| - 1];
      var p := [QUOTE] + Doubled(front);
      OpenCell(front, d);
      WriteCharacter(p, c, d);
      var q := if c == QUOTE then p + [QUOTE, QUOTE] else p + [c];
      assert [QUOTE] + Doubled(cell) == q;
      assert cell == front + [c];
      assert OpenFor(q, cell, d);
    }
  }

  /** A printed cell is one balanced segment for every delimiter and unescapes to the cell. */
  lemma PrintedCell(cell: string, d: Delimiter)
    ensures !Odd(PrintCell(cell)) && CutFree(PrintCell(cell), d) && Unescape(PrintCell(cell)) == cell
  {
    var p := [QUOTE] + Doubled(cell);
    OpenCell(cell, d);
    OddSnoc(p, QUOTE);
    UnescapeSnoc(p, QUOTE);
    CutFreeSnoc(p, QUOTE, d);
  }

  lemma PrintedLineSegments(cells: seq<string>, d: Delimiter)
    requires cells != []
    ensures Segments(PrintLine(cells, d), d) == PrintCells(cells)
  {
    forall i | 0 <= i < |cells| ensures !Odd(PrintCells(cells)[i]) && CutFree(PrintCells(cells)[i], d) {
      PrintedCell(cells[i], d);
    }
    ParityCutUnique(PrintCells(cells), PrintLine(cells, d), d);
  }

  predicate AllTrimmed(cells: seq<string>) {
    forall i :: 0 <= i < |cells| ==> Trimmed(cells[i])
  }

  /** Reading back a printed line gives every cell trimmed, so it gives the cells themselves exactly
      when they were trimmed, whatever quotes, delimiters or inner spaces they hold. */
  lemma LineRoundTrip(cells: seq<string>, d: Delimiter)
    requires cells != []
    ensures var read := SplitLine(PrintLine(cells, d), d);
            |read| == |cells| && (forall i :: 0 <= i < |cells| ==> read[i] == Trim(cells[i]))
    ensures SplitLine(PrintLine(cells, d), d) == cells <==> AllTrimmed(cells)
  {
    PrintedLineSegments(cells, d);
    var read := SplitLine(PrintLine(cells, d), d);
    forall i | 0 <= i < |cells| ensures read[i] == Trim(cells[i]) {
      PrintedCell(cells[i], d);
      assert Values(PrintCells(cells))[i] == Value(PrintCells(cells)[i]);
    }
    if read == cells {
      forall i | 0 <= i < |cells| ensures Trimmed(cells[i]) {
        assert read[i] == Trim(cells[i]);
        var _, _ := TrimWindow(cells[i]);
      }
    } else if AllTrimmed(cells) {
      var i :| 0 <= i < |cells| && read[i] != cells[i];
      TrimTrimmed(cells[i]);
      assert false;
    }
  }

  lemma {:induction false} CutFreeConcat(p: string, t: string, d: Delimiter)
    requires CutFree(p, d) && !Odd(p) && CutFree(t, d)
    ensures CutFree(p + t, d)
  {
    if t == "" {
      assert p + t == p;
    } else {
      var t', c := t[..|t| - 1], t[|t| - 1];
      assert t == t' + [c] && p + t == (p + t') + [c];
      CutFreeSnoc(t', c, d);
      CutFreeConcat(p, t', d);
      OddConcat(p, t');
      CutFreeSnoc(p + t', c, d);
    }
  }

  lemma {:induction false} PrintedCutFree(parts: seq<string>, d: Delimiter, other: Delimiter)
    requires parts != [] && other != d
    requires forall i :: 0 <= i < |parts| ==> !Odd(parts[i]) && CutFree(parts[i], other)
    ensures CutFree(Join(parts, [d.Char()]), other)
    decreases |parts|
  {
    if |parts| > 1 {
      var rest := Join(parts[1..], [d.Char()]);
      PrintedCutFree(parts[1..], d, other);
      CutFreeSnoc(parts[0], d.Char(), other);
      OddSnoc(parts[0], d.Char());
      CutFreeConcat(parts[0] + [d.Char()], rest, other);
    }
  }

  /** Any other delimiter sees a printed line as a single field: delimiters hidden in quotes do not count. */
  lemma HiddenDelimitersScoreZero(cells: seq<string>, d: Delimiter, other: Delimiter)
    requires cells != [] && other != d
    ensures |SplitLine(PrintLine(cells, d), other)| == 1
  {
    forall i | 0 <= i < |cells| ensures !Odd(PrintCells(cells)[i]) && CutFree(PrintCells(cells)[i], other) {
      PrintedCell(cells[i], other);
    }
    PrintedCutFree(PrintCells(cells), d, other);
    CutFreeIsOneSegment(PrintLine(cells, d), other);
  }
}
