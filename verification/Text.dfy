/** Strings as the program's runtime sees them: which characters count as white space, trimming,
    joining, and printing natural numbers in decimal. */
module Text {

  /** The white space and line terminators that `String.prototype.trim` removes
      (ECMA-262, section 22.1.3.32). */
  predicate IsSpace(c: char) {
    var u := c as int;
    || 9 <= u <= 13 || u == 0x20 || u == 0xA0 || u == 0x1680 || 0x2000 <= u <= 0x200A
    || u == 0x2028 || u == 0x2029 || u == 0x202F || u == 0x205F || u == 0x3000 || u == 0xFEFF
  }

  /** They are, one by one: tab, line feed, two more and carriage return; space; and those outside ASCII. */
  lemma SpacesAre(c: char)
    ensures IsSpace(c) <==> c in "\t\n\U{000B}\U{000C}\r \U{00A0}\U{1680}\U{2000}\U{2001}\U{2002}\U{2003}"
                            || c in "\U{2004}\U{2005}\U{2006}\U{2007}\U{2008}\U{2009}\U{200A}\U{2028}\U{2029}"
                            || c in "\U{202F}\U{205F}\U{3000}\U{FEFF}"
  {
  }

  predicate Blank(s: string) {
    forall i :: 0 <= i < |s| ==> IsSpace(s[i])
  }

  predicate Trimmed(s: string) {
    s != "" ==> !IsSpace(s[0]) && !IsSpace(s[|s| - 1])
  }

  function TrimStart(s: string): (r: string) {
    if s != "" && IsSpace(s[0]) then TrimStart(s[1..]) else s
  }

  function TrimEnd(s: string): (r: string) {
    if s != "" && IsSpace(s[|s| - 1]) then TrimEnd(s[..|s| - 1]) else s
  }

  function Trim(s: string): (r: string) {
    TrimEnd(TrimStart(s))
  }

  /** The window that `TrimStart` and `TrimEnd` keep, found by the same scan. */
  lemma {:induction false} TrimStartWindow(s: string) returns (lo: nat)
    ensures lo <= |s| && TrimStart(s) == s[lo..] && Blank(s[..lo])
    ensures lo < |s| ==> !IsSpace(s[lo])
  {
    if s != "" && IsSpace(s[0]) {
      var rest := TrimStartWindow(s[1..]);
      lo := rest + 1;
      assert s[..lo] == [s[0]] + s[1..][..rest];
    } else {
      lo := 0;
    }
  }

  lemma {:induction false} TrimEndWindow(s: string) returns (hi: nat)
    ensures hi <= |s| && TrimEnd(s) == s[..hi] && Blank(s[hi..])
    ensures 0 < hi ==> !IsSpace(s[hi - 1])
  {
    if s != "" && IsSpace(s[|s| - 1]) {
      hi := TrimEndWindow(s[..|s| - 1]);
      assert s[hi..] == s[..|s| - 1][hi..] + [s[|s| - 1]];
    } else {
      hi := |s|;
    }
  }

  /** Trimming keeps one window of the text, drops only white space on either side, and leaves
      nothing to trim. */
  lemma TrimWindow(s: string) returns (lo: nat, hi: nat)
    ensures lo <= hi <= |s| && Trim(s) == s[lo..hi] && Blank(s[..lo]) && Blank(s[hi..])
    ensures Trimmed(Trim(s))
    ensures Trim(s) == "" <==> Blank(s)
  {
    lo := TrimStartWindow(s);
    var t := s[lo..];
    var n := TrimEndWindow(t);
    hi := lo + n;
    assert s[hi..] == t[n..];
    assert t != "" ==> t[0] == s[lo];
    assert Blank(s) ==> Blank(t);
    assert n > 0 ==> !IsSpace(t[n - 1]) && t[..n][0] == s[lo];
  }

  lemma TrimTrimmed(s: string)
    requires Trimmed(s)
    ensures Trim(s) == s
  {
  }

  lemma TrimIdempotent(s: string)
    ensures Trim(Trim(s)) == Trim(s)
  {
    var _, _ := TrimWindow(s);
    TrimTrimmed(Trim(s));
  }

  function Trims(values: seq<string>): (r: seq<string>)
    ensures |r| == |values| && forall i :: 0 <= i < |r| ==> r[i] == Trim(values[i])
  {
    seq(|values|, i requires 0 <= i < |values| => Trim(values[i]))
  }

  predicate NotEmpty(s: string) {
    s != ""
  }

  predicate Free(s: string, c: char) {
    forall i :: 0 <= i < |s| ==> s[i] != c
  }

  function Join(parts: seq<string>, sep: string): string {
    if |parts| == 0 then "" else if |parts| == 1 then parts[0]
    else parts[0] + sep + Join(parts[1..], sep)
  }

  lemma {:induction false} JoinSnoc(parts: seq<string>, last: string, sep: string)
    requires parts != []
    ensures Join(parts + [last], sep) == Join(parts, sep) + sep + last
  {
    var all := parts + [last];
    assert all[1..] == parts[1..] + [last];
    if |parts| == 1 {
      assert Join(all[1..], sep) == last;
    } else {
      JoinSnoc(parts[1..], last, sep);
      assert parts[0] + sep + (Join(parts[1..], sep) + sep + last)
        == (parts[0] + sep + Join(parts[1..], sep)) + sep + last;
    }
  }

  lemma JoinSingle(part: string, sep: string)
    ensures Join([part], sep) == part
  {
  }

  /** Extending the last part extends the joined text. */
  lemma JoinExtend(lead: seq<string>, last: string, more: string, sep: string)
    ensures Join(lead + [last + more], sep) == Join(lead + [last], sep) + more
  {
    hide Join;
    if lead == [] {
      assert lead + [last + more] == [last + more] && lead + [last] == [last];
      JoinSingle(last, sep);
      JoinSingle(last + more, sep);
    } else {
      JoinSnoc(lead, last, sep);
      JoinSnoc(lead, last + more, sep);
      assert Join(lead, sep) + sep + (last + more) == (Join(lead, sep) + sep + last) + more;
    }
  }

  /** The pieces alternating with the separators. */
  function Woven(pieces: seq<string>, separators: seq<string>): string
    requires |pieces| == |separators| + 1
  {
    if separators == [] then pieces[0] else pieces[0] + separators[0] + Woven(pieces[1..], separators[1..])
  }

  lemma {:induction false} WovenSnoc(pieces: seq<string>, separators: seq<string>, separator: string, piece: string)
    requires |pieces| == |separators| + 1
    ensures Woven(pieces + [piece], separators + [separator]) == Woven(pieces, separators) + separator + piece
    decreases |pieces|
  {
    var more, others := pieces + [piece], separators + [separator];
    if separators == [] {
      assert more[1..] == [piece] && others[1..] == [];
    } else {
      WovenSnoc(pieces[1..], separators[1..], separator, piece);
      assert more[1..] == pieces[1..] + [piece] && others[1..] == separators[1..] + [separator];
    }
  }

  lemma {:induction false} WovenExtend(pieces: seq<string>, separators: seq<string>, tail: string)
    requires |pieces| == |separators| + 1
    ensures var n := |separators|;
            Woven(pieces[..n] + [pieces[n] + tail], separators) == Woven(pieces, separators) + tail
  {
    hide Woven;
    var n := |separators|;
    if n == 0 {
      WovenSingle(pieces[0]);
      WovenSingle(pieces[0] + tail);
      assert separators == [] && pieces == [pieces[0]] && pieces[..0] + [pieces[0] + tail] == [pieces[0] + tail];
    } else {
      var lead, before, last := pieces[..n], separators[..n - 1], separators[n - 1];
      WovenSnoc(lead, before, last, pieces[n]);
      WovenSnoc(lead, before, last, pieces[n] + tail);
      assert pieces == lead + [pieces[n]] && separators == before + [last];
      assert Woven(lead, before) + last + (pieces[n] + tail) == (Woven(lead, before) + last + pieces[n]) + tail;
    }
  }

  lemma WovenSingle(piece: string)
    ensures Woven([piece], []) == piece
  {
  }

  /** Length in UTF-16 code units, which is what `.length` counts. */
  function Utf16Length(s: string): (n: nat)
    ensures |s| <= n <= 2 * |s|
  {
    if s == "" then 0 else Utf16Length(s[1..]) + (if s[0] as int >= 0x1_0000 then 2 else 1)
  }

  /** Two characters, or one that takes a surrogate pair. */
  predicate HasTwoUnits(s: string) {
    |s| >= 2 || (|s| == 1 && s[0] as int >= 0x1_0000)
  }

  lemma TwoUnitsExactly(s: string)
    ensures Utf16Length(s) >= 2 <==> HasTwoUnits(s)
  {
    if |s| == 1 {
      assert s[1..] == "";
    }
  }

  predicate IsDigit(c: char) {
    '0' <= c <= '9'
  }

  function DigitChar(d: nat): (c: char)
    requires d < 10
    ensures IsDigit(c) && DigitValue(c) == d
  {
    ('0' as int + d) as char
  }

  function DigitValue(c: char): (d: nat)
    requires IsDigit(c)
    ensures d < 10
  {
    c as int - '0' as int
  }

  predicate AllDigits(s: string) {
    forall i :: 0 <= i < |s| ==> IsDigit(s[i])
  }

  function Decimal(n: nat): (s: string)
    ensures s != "" && AllDigits(s) && DecimalValue(s) == n
  {
    if n < 10 then
      var s := [DigitChar(n)];
      assert s[..0] == "";
      s
    else
      var front := Decimal(n / 10);
      var s := front + [DigitChar(n % 10)];
      assert s[..|s| - 1] == front;
      s
  }

  function DecimalValue(s: string): nat
    requires AllDigits(s)
  {
    if s == "" then 0 else 10 * DecimalValue(s[..|s| - 1]) + DigitValue(s[|s| - 1])
  }

  lemma DecimalInjective(m: nat, n: nat)
    requires Decimal(m) == Decimal(n)
    ensures m == n
  {
  }

  function IndexOf(s: string, c: char): (i: nat)
    ensures i <= |s| && Free(s[..i], c) && (i < |s| ==> s[i] == c)
  {
    if s == "" || s[0] == c then 0
    else
      var i := 1 + IndexOf(s[1..], c);
      assert s[..i] == [s[0]] + s[1..][..i - 1];
      i
  }

  lemma IndexOfUnique(s: string, c: char, n: nat)
    requires n <= |s| && Free(s[..n], c) && (n < |s| ==> s[n] == c)
    ensures IndexOf(s, c) == n
  {
  }

  lemma {:induction false} IndexOfHolds(s: string, c: char)
    requires !Free(s, c)
    ensures IndexOf(s, c) < |s|
  {
    var k :| 0 <= k < |s| && s[k] == c;
    if s[0] != c {
      assert s[1..][k - 1] == c;
      IndexOfHolds(s[1..], c);
    }
  }

  const BYTE_ORDER_MARK: char := '\U{FEFF}'

  function StripBom(text: string): string {
    if text != "" && text[0] == BYTE_ORDER_MARK then text[1..] else text
  }
}
