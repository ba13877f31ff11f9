/** Base64 over the standard alphabet (RFC 4648, sections 3.2, 4 and 5) as the runtime's `btoa` and
    `atob` compute it; `atob` is the forgiving-base64 decode of the WHATWG Infra Standard. */
module Base64 {
  import opened Options
  import opened Utf8

  type Sextet = x: int | 0 <= x < 64

  function Index(c: char): Option<Sextet> {
    if 'A' <= c <= 'Z' then Some(c as int - 65)
    else if 'a' <= c <= 'z' then Some(c as int - 71)
    else if '0' <= c <= '9' then Some(c as int + 4)
    else if c == '+' then Some(62)
    else if c == '/' then Some(63)
    else None
  }

  function Letter(i: Sextet): (c: char)
    ensures Index(c) == Some(i)
  {
    if i < 26 then (i + 65) as char
    else if i < 52 then (i + 71) as char
    else if i < 62 then (i - 4) as char
    else if i == 62 then '+' else '/'
  }

  /** Groups of three bytes become four sextets; a last group of one or two becomes two or three. */
  function Sextets(b: seq<Byte>): (s: seq<Sextet>)
    ensures |s| == (4 * |b| + 2) / 3
  {
    if b == [] then []
    else if |b| == 1 then [b[0] / 4, b[0] % 4 * 16]
    else if |b| == 2 then [b[0] / 4, b[0] % 4 * 16 + b[1] / 16, b[1] % 16 * 4]
    else [b[0] / 4, b[0] % 4 * 16 + b[1] / 16, b[1] % 16 * 4 + b[2] / 64, b[2] % 64] + Sextets(b[3..])
  }

  /** The alphabet of section 4 of RFC 4648: `A` to `Z`, `a` to `z`, `0` to `9`, `+` and `/`. */
  lemma AlphabetExactly()
    ensures Letter(0) == 'A' && Letter(25) == 'Z' && Letter(26) == 'a' && Letter(51) == 'z'
    ensures Letter(52) == '0' && Letter(61) == '9' && Letter(62) == '+' && Letter(63) == '/'
    ensures forall i :: 0 <= i < 61 && i != 25 && i != 51 ==> Letter(i + 1) as int == Letter(i) as int + 1
  {
  }

  /** The digit at a position; past the end it is zero. */
  function At(digits: seq<int>, i: nat): int {
    if i < |digits| then digits[i] else 0
  }

  /** Three digits of `b` and four of `s` from the given positions on are the same number. */
  ghost predicate SameNumber(b: seq<int>, i: nat, s: seq<int>, j: nat) {
    At(b, i) * 0x1_0000 + At(b, i + 1) * 0x100 + At(b, i + 2)
    == At(s, j) * 0x4_0000 + At(s, j + 1) * 0x1000 + At(s, j + 2) * 0x40 + At(s, j + 3)
  }

  lemma FirstGroup(b: seq<Byte>)
    requires b != []
    ensures SameNumber(b, 0, Sextets(b), 0)
  {
    GroupNumber(b[0], At(b, 1), At(b, 2));
  }

  lemma LaterGroup(b: seq<int>, i: nat, s: seq<int>, j: nat)
    requires i >= 3 && j >= 4 && |b| >= 3 && |s| >= 4 && SameNumber(b[3..], i - 3, s[4..], j - 4)
    ensures SameNumber(b, i, s, j)
  {
    assert forall k :: 0 <= k < |b| - 3 ==> b[3..][k] == b[k + 3];
    assert forall k :: 0 <= k < |s| - 4 ==> s[4..][k] == s[k + 4];
  }

  lemma PastEnd(b: seq<int>, i: nat, s: seq<int>, j: nat)
    requires |b| <= i && |s| <= j
    ensures SameNumber(b, i, s, j)
  {
  }

  /** Each group of three bytes is the same number as its four sextets, missing ones at the end taken as zero. */
  lemma {:induction false} GroupsExactly(b: seq<Byte>, g: nat)
    ensures SameNumber(b, 3 * g, Sextets(b), 4 * g)
  {
    hide SameNumber;
    if b != [] && g == 0 {
      FirstGroup(b);
    } else if |b| >= 3 {
      GroupsExactly(b[3..], g - 1);
      assert Sextets(b)[4..] == Sextets(b[3..]);
      LaterGroup(b, 3 * g, Sextets(b), 4 * g);
    } else {
      PastEnd(b, 3 * g, Sextets(b), 4 * g);
    }
  }

  lemma GroupNumber(x: int, y: int, z: int)
    ensures x * 0x1_0000 + y * 0x100 + z
            == x / 4 * 0x4_0000 + (x % 4 * 16 + y / 16) * 0x1000 + (y % 16 * 4 + z / 64) * 0x40 + z % 64
  {
  }

  predicate InRange(s: int, t: int) {
    0 <= s < 64 && 0 <= t < 64
  }

  function HighByte(s: int, t: int): (r: int)
    requires InRange(s, t)
    ensures 0 <= r < 256
  {
    s * 4 + t / 16
  }

  function MiddleByte(t: int, u: int): (r: int)
    requires InRange(t, u)
    ensures 0 <= r < 256
  {
    t % 16 * 16 + u / 4
  }

  function LowByte(u: int, v: int): (r: int)
    requires InRange(u, v)
    ensures 0 <= r < 256
  {
    u % 4 * 64 + v
  }

  /** The inverse grouping; bits left over in a short last group are dropped. */
  function Bytes(s: seq<Sextet>): seq<Byte> {
    if |s| < 2 then []
    else if |s| == 2 then [HighByte(s[0], s[1])]
    else if |s| == 3 then [HighByte(s[0], s[1]), MiddleByte(s[1], s[2])]
    else [HighByte(s[0], s[1]), MiddleByte(s[1], s[2]), LowByte(s[2], s[3])] + Bytes(s[4..])
  }

  /** The three bytes of a group come back from its four sextets. */
  lemma GroupBack(x: Byte, y: Byte, z: Byte)
    ensures HighByte(x / 4, x % 4 * 16 + y / 16) == x
    ensures MiddleByte(x % 4 * 16 + y / 16, y % 16 * 4 + z / 64) == y
    ensures LowByte(y % 16 * 4 + z / 64, z % 64) == z
  {
  }

  lemma {:induction false} BytesSextets(b: seq<Byte>)
    ensures |Sextets(b)| % 4 != 1 && Bytes(Sextets(b)) == b
  {
    hide HighByte, MiddleByte, LowByte;
    if |b| >= 3 {
      GroupBack(b[0], b[1], b[2]);
      BytesSextets(b[3..]);
      var s := Sextets(b);
      assert s[4..] == Sextets(b[3..]);
      assert b == [b[0], b[1], b[2]] + b[3..];
    } else if b != [] {
      GroupBack(b[0], if |b| == 2 then b[1] else 0, 0);
    }
  }

  function Letters(s: seq<Sextet>): (r: string)
    ensures |r| == |s| && forall i :: 0 <= i < |s| ==> r[i] == Letter(s[i])
  {
    seq(|s|, i requires 0 <= i < |s| => Letter(s[i]))
  }

  function Padding(n: nat): (p: string)
    ensures |p| == n && forall i :: 0 <= i < n ==> p[i] == '='
  {
    seq(n, _ => '=')
  }

  /** How many pad characters bring `n` letters to a multiple of four. */
  function Missing(n: nat): (m: nat)
    ensures (n + m) % 4 == 0 && m < 4
  {
    (4 - n % 4) % 4
  }

  function Btoa(b: seq<Byte>): string {
    var letters := Letters(Sextets(b));
    letters + Padding(Missing(|letters|))
  }

  // ---- Decoding ----

  predicate IsAsciiSpace(c: char) {
    c == '\t' || c == '\n' || c == '\U{000C}' || c == '\r' || c == ' '
  }

  function WithoutSpaces(s: string): string {
    if s == "" then "" else (if IsAsciiSpace(s[0]) then "" else [s[0]]) + WithoutSpaces(s[1..])
  }

  /** One or two pad characters are removed, and only from text whose length is a multiple of four. */
  function WithoutPadding(s: string): string {
    var n := |s|;
    if n % 4 != 0 || n == 0 || s[n - 1] != '=' then s
    else if n >= 2 && s[n - 2] == '=' then s[..n - 2]
    else s[..n - 1]
  }

  function Indices(s: string): Option<seq<Sextet>> {
    if s == "" then Some([])
    else match Index(s[0])
      case None => None
      case Some(i) => match Indices(s[1..])
        case None => None
        case Some(rest) => Some([i] + rest)
  }

  /** `atob`; `None` is the exception it throws. */
  function Atob(s: string): Option<seq<Byte>> {
    var letters := WithoutPadding(WithoutSpaces(s));
    match Indices(letters)
    case None => None
    case Some(indices) => if |indices| % 4 == 1 then None else Some(Bytes(indices))
  }

  predicate IsLetter(c: char) {
    Index(c).Some?
  }

  lemma {:induction false} SpaceFree(s: string)
    requires forall i :: 0 <= i < |s| ==> !IsAsciiSpace(s[i])
    ensures WithoutSpaces(s) == s
  {
    if s != "" {
      SpaceFree(s[1..]);
    }
  }

  lemma {:induction false} IndicesLetters(s: seq<Sextet>)
    ensures Indices(Letters(s)) == Some(s)
  {
    if s != [] {
      IndicesLetters(s[1..]);
      assert Letters(s)[1..] == Letters(s[1..]);
      assert s == [s[0]] + s[1..];
    }
  }

  lemma {:induction false} IndicesDefined(s: string)
    ensures Indices(s).Some? <==> forall i :: 0 <= i < |s| ==> IsLetter(s[i])
    ensures Indices(s).Some? ==> |Indices(s).value| == |s|
  {
    if s != "" {
      IndicesDefined(s[1..]);
      assert forall i :: 0 < i < |s| ==> s[i] == s[1..][i - 1];
    }
  }

  lemma PaddingRemoved(letters: string)
    requires |letters| % 4 != 1 && forall i :: 0 <= i < |letters| ==> letters[i] != '='
    ensures WithoutPadding(letters + Padding(Missing(|letters|))) == letters
  {
  }

  /** Letters padded to a multiple of four decode exactly when there are not one too many. */
  lemma AtobPadded(s: string)
    requires forall i :: 0 <= i < |s| ==> !IsAsciiSpace(s[i]) && s[i] != '='
    ensures Atob(s + Padding(Missing(|s|))).Some? <==> |s| % 4 != 1 && forall i :: 0 <= i < |s| ==> IsLetter(s[i])
  {
    hide Bytes, Indices, Index, WithoutSpaces;
    var padded := s + Padding(Missing(|s|));
    SpaceFree(padded);
    IndicesDefined(s);
    if |s| % 4 == 1 {
      var rest := WithoutPadding(padded);
      IndicesDefined(rest);
      assert Missing(|s|) == 3 && rest == padded[..|s| + 1] && rest[|s|] == '=';
      NoLetter();
    } else {
      PaddingRemoved(s);
    }
  }

  lemma NoLetter()
    ensures !IsLetter('=')
  {
  }

  /** Letters padded to a multiple of four decode to the bytes they encode. */
  lemma AtobBtoa(b: seq<Byte>)
    ensures Atob(Btoa(b)) == Some(b)
  {
    hide Bytes;
    hide Sextets;
    var letters := Letters(Sextets(b));
    BytesSextets(b);
    assert forall i :: 0 <= i < |letters| ==> IsLetter(letters[i]) && letters[i] != '=';
    SpaceFree(Btoa(b));
    PaddingRemoved(letters);
    IndicesLetters(Sextets(b));
  }
}
