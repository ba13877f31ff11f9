/** UTF-8 as `TextEncoder` and `TextDecoder` do it (WHATWG Encoding Standard, sections 8.1.1 and
    8.1.2): malformed input becomes U+FFFD, one for each maximal ill-formed prefix. */
module Utf8 {

  type Byte = x: int | 0 <= x < 256

  const REPLACEMENT: char := '\U{FFFD}'

  function EncodeChar(c: char): (b: seq<Byte>)
    ensures 1 <= |b| <= 4
  {
    var u := c as int;
    if u < 0x80 then [u]
    else if u < 0x800 then [0xC0 + u / 64, 0x80 + u % 64]
    else if u < 0x1_0000 then [0xE0 + u / 4096, 0x80 + u / 64 % 64, 0x80 + u % 64]
    else [0xF0 + u / 262144, 0x80 + u / 4096 % 64, 0x80 + u / 64 % 64, 0x80 + u % 64]
  }

  /** The table of section 3 of RFC 3629: the shortest form, marked lead and continuation bytes, and payload bits
      that spell the code point. */
  lemma EncodeCharExactly(c: char)
    ensures var b, u: int := EncodeChar(c), c as int;
            && |b| == (if u < 0x80 then 1 else if u < 0x800 then 2 else if u < 0x1_0000 then 3 else 4)
            && (forall i :: 0 < i < |b| ==> 0x80 <= b[i] < 0xC0)
            && (|b| == 1 ==> u == b[0])
            && (|b| == 2 ==> 0xC0 <= b[0] < 0xE0 && u == (b[0] as int - 0xC0) * 64 + (b[1] as int - 0x80))
            && (|b| == 3 ==>
                  && 0xE0 <= b[0] < 0xF0
                  && u == (b[0] as int - 0xE0) * 4096 + (b[1] as int - 0x80) * 64 + (b[2] as int - 0x80))
            && (|b| == 4 ==>
                  && 0xF0 <= b[0] < 0xF8
                  && u == (b[0] as int - 0xF0) * 262144 + (b[1] as int - 0x80) * 4096 + (b[2] as int - 0x80) * 64
                          + (b[3] as int - 0x80))
  {
    var u := c as int;
    if u >= 0x1_0000 {
      FourDigits(u);
    } else if u >= 0x800 {
      ThreeDigits(u);
    }
  }

  lemma ThreeDigits(u: int)
    requires 0x800 <= u < 0x1_0000
    ensures u == u / 4096 * 4096 + u / 64 % 64 * 64 + u % 64 && 0 <= u / 4096 < 16
  {
  }

  function Encode(s: string): (b: seq<Byte>)
    ensures |b| >= |s|
  {
    if s == "" then [] else EncodeChar(s[0]) + Encode(s[1..])
  }

  datatype Step = Step(used: nat, scalar: char)

  predicate Continues(b: seq<Byte>, i: nat, lo: int, hi: int) {
    i < |b| && lo <= b[i] <= hi
  }

  /** The payload of a byte under its marker bits. */
  function Bits(b: int, marker: int): int {
    b - marker
  }

  /** The first character of the output and how many bytes it takes. */
  function DecodeStep(b: seq<Byte>): (r: Step)
    requires b != []
    ensures 1 <= r.used <= |b|
  {
    if b[0] < 0x80 then Step(1, b[0] as char)
    else if 0xC2 <= b[0] <= 0xDF then
      if !Continues(b, 1, 0x80, 0xBF) then Step(1, REPLACEMENT)
      else Step(2, (Bits(b[0], 0xC0) * 64 + Bits(b[1], 0x80)) as char)
    else if 0xE0 <= b[0] <= 0xEF then
      if !Continues(b, 1, if b[0] == 0xE0 then 0xA0 else 0x80, if b[0] == 0xED then 0x9F else 0xBF)
        then Step(1, REPLACEMENT)
      else if !Continues(b, 2, 0x80, 0xBF) then Step(2, REPLACEMENT)
      else Step(3, (Bits(b[0], 0xE0) * 4096 + Bits(b[1], 0x80) * 64 + Bits(b[2], 0x80)) as char)
    else if 0xF0 <= b[0] <= 0xF4 then
      if !Continues(b, 1, if b[0] == 0xF0 then 0x90 else 0x80, if b[0] == 0xF4 then 0x8F else 0xBF)
        then Step(1, REPLACEMENT)
      else if !Continues(b, 2, 0x80, 0xBF) then Step(2, REPLACEMENT)
      else if !Continues(b, 3, 0x80, 0xBF) then Step(3, REPLACEMENT)
      else
        var high := Bits(b[0], 0xF0) * 262144 + Bits(b[1], 0x80) * 4096;
        Step(4, (high + Bits(b[2], 0x80) * 64 + Bits(b[3], 0x80)) as char)
    else Step(1, REPLACEMENT)
  }

  function Decode(b: seq<Byte>): string {
    if b == [] then "" else
    var step := DecodeStep(b);
    [step.scalar] + Decode(b[step.used..])
  }

  lemma ThreeByteChar(u: int, b: seq<Byte>)
    requires 0x800 <= u < 0x1_0000 && !(0xD800 <= u < 0xE000)
    requires |b| >= 3 && b[0] == 0xE0 + u / 4096 && b[1] == 0x80 + u / 64 % 64 && b[2] == 0x80 + u % 64
    ensures DecodeStep(b) == Step(3, u as char)
  {
  }

  /** The digits of a number to the base 64, and what the first of four says about the second. */
  lemma FourDigits(u: int)
    requires 0x1_0000 <= u < 0x11_0000
    ensures u == u / 262144 * 262144 + u / 4096 % 64 * 4096 + u / 64 % 64 * 64 + u % 64
    ensures 0 <= u / 262144 <= 4
    ensures (u / 262144 == 0 ==> u / 4096 % 64 >= 16) && (u / 262144 == 4 ==> u / 4096 % 64 < 16)
  {
    FourLowDigits(u);
  }

  lemma FourLowDigits(u: int)
    requires 0 <= u
    ensures u / 64 == u / 4096 * 64 + u / 64 % 64 && u / 4096 == u / 262144 * 64 + u / 4096 % 64
  {
  }

  lemma FourByteChar(u: int, b: seq<Byte>)
    requires 0x1_0000 <= u < 0x11_0000 && |b| >= 4 && b[0] == 0xF0 + u / 262144
    requires b[1] == 0x80 + u / 4096 % 64 && b[2] == 0x80 + u / 64 % 64 && b[3] == 0x80 + u % 64
    ensures DecodeStep(b) == Step(4, u as char)
  {
    FourDigits(u);
  }

  lemma EncodedCharDecodes(c: char, rest: seq<Byte>)
    ensures DecodeStep(EncodeChar(c) + rest) == Step(|EncodeChar(c)|, c)
  {
    var u := c as int;
    var b := EncodeChar(c) + rest;
    if 0x800 <= u < 0x1_0000 {
      ThreeByteChar(u, b);
    } else if u >= 0x1_0000 {
      FourByteChar(u, b);
    }
  }

  /** Encoding then decoding gives the text back. */
  lemma {:induction false} DecodeEncode(s: string)
    ensures Decode(Encode(s)) == s
  {
    if s != "" {
      var first, rest := EncodeChar(s[0]), Encode(s[1..]);
      EncodedCharDecodes(s[0], rest);
      DecodeEncode(s[1..]);
      assert (first + rest)[|first|..] == rest;
    }
  }

  lemma EncodeInjective(s: string, t: string)
    requires Encode(s) == Encode(t)
    ensures s == t
  {
    DecodeEncode(s);
    DecodeEncode(t);
  }
}
