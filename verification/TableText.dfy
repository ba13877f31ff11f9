/** What the table parser of apps/web/lib/csv-import.ts makes of any text, quoted or not, said without its
    functions for lines: how the text is cut, which lines count, what is left of them and which delimiter cuts them. */
module TableText {
  import opened DelimitedLine
  import opened DelimitedTable
  import opened Keyed
  import opened Options
  import opened Text

  /** The lines are the text cut at every line feed, the carriage return right before it included. */
  predicate IsCutAtLineEnds(lines: seq<string>, ends: seq<string>, text: string) {
    && |lines| == |ends| + 1 && Woven(lines, ends) == text
    && (forall i :: 0 <= i < |lines| ==> Free(lines[i], '\n'))
    && (forall i :: 0 <= i < |ends| ==>
          ends[i] == "\r\n" || (ends[i] == "\n" && (lines[i] != "" ==> lines[i][|lines[i]| - 1] != '\r')))
  }

  lemma CutFirst(head: string, lines: seq<string>, ends: seq<string>, rest: string) returns (end: string)
    requires Free(head, '\n') && IsCutAtLineEnds(lines, ends, rest)
    ensures IsCutAtLineEnds([DropCarriageReturn(head)] + lines, [end] + ends, head + "\n" + rest)
  {
    hide Woven;
    var line := DropCarriageReturn(head);
    end := if line == head then "\n" else "\r\n";
    assert line + end == head + "\n";
    WovenFirst(line, end, lines, ends);
    assert head + "\n" + rest == line + end + rest;
  }

  lemma WovenFirst(piece: string, separator: string, pieces: seq<string>, separators: seq<string>)
    requires |pieces| == |separators| + 1
    ensures Woven([piece] + pieces, [separator] + separators) == piece + separator + Woven(pieces, separators)
  {
    assert ([piece] + pieces)[1..] == pieces && ([separator] + separators)[1..] == separators;
  }

  lemma {:induction false} LinesCutText(text: string) returns (ends: seq<string>)
    ensures IsCutAtLineEnds(Lines(text), ends, text)
  {
    hide IndexOf, IsCutAtLineEnds, DropCarriageReturn;
    var i := IndexOf(text, '\n');
    if i == |text| {
      ends := [];
      OnlyCut(text);
      assert text[..i] == text;
    } else {
      var more := LinesCutText(text[i + 1..]);
      var end := CutFirst(text[..i], Lines(text[i + 1..]), more, text[i + 1..]);
      ends := [end] + more;
      assert text == text[..i] + "\n" + text[i + 1..];
    }
  }

  lemma OnlyCut(text: string)
    requires Free(text, '\n')
    ensures IsCutAtLineEnds([text], [], text)
  {
  }

  /** The text of a line without the white space at its end. */
  predicate IsContentOf(content: string, line: string) {
    content != "" && !IsSpace(content[|content| - 1]) && content <= line && Blank(line[|content|..])
  }

  /** The contents are those of the lines at `index`, in order, and these are exactly the lines that are not
      blank. */
  ghost predicate AreContents(contents: seq<string>, lines: seq<string>, index: seq<nat>) {
    && |index| == |contents| && Increasing(index, |lines|)
    && (forall i :: 0 <= i < |index| ==> IsContentOf(contents[i], lines[index[i]]))
    && (forall r :: 0 <= r < |lines| ==> (r in index <==> !Blank(lines[r])))
  }

  lemma LineContent(line: string)
    ensures Trim(TrimEnd(line)) != "" <==> !Blank(line)
    ensures !Blank(line) ==> IsContentOf(TrimEnd(line), line)
  {
    hide Trim, TrimEnd;
    var hi := TrimEndWindow(line);
    var _, _ := TrimWindow(TrimEnd(line));
    if !Blank(line) && Blank(line[..hi]) {
      BlankParts(line, hi);
      assert false;
    }
  }

  /** What lies between white space is what trimming leaves. */
  lemma TrimUnique(s: string, lo: nat, hi: nat)
    requires lo < hi <= |s| && Blank(s[..lo]) && Blank(s[hi..]) && !IsSpace(s[lo]) && !IsSpace(s[hi - 1])
    ensures Trim(s) == s[lo..hi]
  {
    hide Trim, IsSpace;
    var a, b := TrimWindow(s);
    assert !Blank(s);
    assert forall k :: 0 <= k < lo ==> s[..lo][k] == s[k];
    assert forall k :: hi <= k < |s| ==> s[hi..][k - hi] == s[k];
    assert forall k :: 0 <= k < a ==> s[..a][k] == s[k];
    assert forall k :: b <= k < |s| ==> s[b..][k - b] == s[k];
    assert Trim(s)[0] == s[a] && Trim(s)[b - a - 1] == s[b - 1];
  }

  lemma TrimOfContent(line: string)
    requires !Blank(line)
    ensures Trim(TrimEnd(line)) == Trim(line)
  {
    hide Trim, TrimEnd, IsSpace;
    LineContent(line);
    var hi := TrimEndWindow(line);
    var content := line[..hi];
    var a, b := TrimWindow(content);
    assert content[b..] == line[b..hi];
    assert Trim(content)[0] == line[a] && Trim(content)[b - a - 1] == line[b - 1];
    assert content[..a] == line[..a];
    BlankTail(line, b, hi);
    TrimUnique(line, a, b);
    assert content[a..b] == line[a..b];
  }

  lemma BlankTail(s: string, n: nat, m: nat)
    requires n <= m <= |s| && Blank(s[n..m]) && Blank(s[m..])
    ensures Blank(s[n..])
  {
    assert s[n..][..m - n] == s[n..m] && s[n..][m - n..] == s[m..];
    BlankParts(s[n..], m - n);
  }

  lemma {:induction false} ContentConcat(a: seq<string>, b: seq<string>)
    ensures ContentLines(a + b) == ContentLines(a) + ContentLines(b)
  {
    hide Trim, TrimEnd;
    if a == [] {
      assert a + b == b;
    } else {
      assert (a + b)[1..] == a[1..] + b;
      ContentConcat(a[1..], b);
    }
  }

  /** Detection looks at the parser's lines, trimmed. */
  lemma {:induction false} TrimmedAreTrims(lines: seq<string>)
    ensures TrimmedLines(lines) == Trims(ContentLines(lines))
  {
    hide Trim, TrimEnd;
    if lines != [] {
      var _, _ := TrimWindow(lines[0]);
      LineContent(lines[0]);
      if !Blank(lines[0]) {
        TrimOfContent(lines[0]);
      }
      TrimmedAreTrims(lines[1..]);
    }
  }

  lemma OneLine(line: string)
    ensures ContentLines([line]) == if Blank(line) then [] else [TrimEnd(line)]
  {
    hide Trim, TrimEnd;
    LineContent(line);
    assert [line][1..] == [];
  }

  /** The parser's lines are the contents of the lines that are not blank. */
  lemma {:induction false} ContentExact(lines: seq<string>) returns (index: seq<nat>)
    ensures AreContents(ContentLines(lines), lines, index)
  {
    hide Trim, TrimEnd, IsContentOf, ContentLines;
    if lines == [] {
      index := [];
      NoContent();
    } else {
      var front, last := lines[..|lines| - 1], lines[|lines| - 1];
      index := ContentExact(front);
      ContentConcat(front, [last]);
      assert lines == front + [last];
      OneLine(last);
      if !Blank(last) {
        index := index + [|front|];
        LineContent(last);
      }
    }
  }

  lemma NoContent()
    ensures ContentLines([]) == []
  {
  }

  /** A second byte order mark does not change what detection looks at. */
  lemma StripAgain(text: string)
    ensures TrimmedLines(Lines(StripBom(text))) == TrimmedLines(Lines(text))
  {
    hide TrimmedLines, Trim, Lines;
    if text != "" && text[0] == BYTE_ORDER_MARK {
      var rest := text[1..];
      FirstLineLonger(text);
      var line := Lines(rest)[0];
      TrimMark(line);
      TrimmedFirst([BYTE_ORDER_MARK] + line, Lines(rest)[1..]);
      TrimmedFirst(line, Lines(rest)[1..]);
      assert Lines(rest) == [line] + Lines(rest)[1..];
    }
  }

  lemma TrimMark(line: string)
    ensures Trim([BYTE_ORDER_MARK] + line) == Trim(line)
  {
    assert ([BYTE_ORDER_MARK] + line)[1..] == line;
  }

  lemma TrimmedFirst(line: string, rest: seq<string>)
    ensures TrimmedLines([line] + rest) == (if Trim(line) != "" then [Trim(line)] else []) + TrimmedLines(rest)
  {
    hide Trim;
    assert ([line] + rest)[1..] == rest;
  }

  lemma FirstLineLonger(text: string)
    requires text != "" && text[0] == BYTE_ORDER_MARK
    ensures Lines(text) == [[BYTE_ORDER_MARK] + Lines(text[1..])[0]] + Lines(text[1..])[1..]
  {
    hide IndexOf;
    var rest := text[1..];
    var i := IndexOf(rest, '\n');
    assert text == [BYTE_ORDER_MARK] + rest;
    assert text[..i + 1] == [BYTE_ORDER_MARK] + rest[..i];
    IndexOfUnique(text, '\n', i + 1);
    if i < |rest| {
      assert text[i + 2..] == rest[i + 1..];
      assert DropCarriageReturn(text[..i + 1]) == [BYTE_ORDER_MARK] + DropCarriageReturn(rest[..i]);
    }
  }

  /** The header cells and rows are the fields of the contents under the delimiter that wins in the first three. */
  ghost predicate IsTableOf(table: Table, contents: seq<string>)
    requires |contents| >= 2
  {
    && Wins(Trims(Sampled(contents)), table.delimiter)
    && table.headers == Trims(SplitLine(contents[0], table.delimiter))
    && |table.rows| == |contents| - 1
    && forall r :: 0 <= r < |table.rows| ==> table.rows[r] == SplitLine(contents[r + 1], table.delimiter)
  }

  /** The table of any text. One byte order mark is dropped, the text is cut at its line ends, the lines that are not
      blank are the header and the rows without the white space at their ends, and there is no table exactly when
      there are fewer than two of them. */
  lemma TableOfText(text: string)
    returns (body: string, lines: seq<string>, ends: seq<string>, contents: seq<string>, index: seq<nat>)
    ensures text == (if text != "" && text[0] == '\U{FEFF}' then "\U{FEFF}" else "") + body
    ensures IsCutAtLineEnds(lines, ends, body) && AreContents(contents, lines, index)
    ensures ParseDelimitedTable(text).None? <==> |contents| < 2
    ensures |contents| >= 2 ==> IsTableOf(ParseDelimitedTable(text).value, contents)
  {
    hide Lines, ContentLines, TrimmedLines, SplitLine, Detected, Wins, IsCutAtLineEnds, AreContents;
    body := StripBom(text);
    lines := Lines(body);
    ends := LinesCutText(body);
    contents := ContentLines(lines);
    index := ContentExact(lines);
    TrimmedAreTrims(lines);
    StripAgain(body);
    DetectedIsArgmax(Sample(body));
    assert Sample(body) == Trims(Sampled(contents));
  }
}
