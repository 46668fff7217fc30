/** UTF-8 (RFC 3629): texts are sequences of characters here and bytes on the wire. */
module Utf8 {

  /** A byte string: characters below 256. */
  predicate AllBytes(s: string) {
    forall i | 0 <= i < |s| :: s[i] as int < 256
  }

  const REPLACEMENT := '\U{FFFD}'

  function Byte(n: int): char
    requires 0 <= n < 256
  {
    n as char
  }

  /** The bytes of one character. */
  function CharBytes(c: char): (b: string)
    ensures b != "" && AllBytes(b)
  {
    var n := c as int;
    if n < 0x80 then [c]
    else if n < 0x800 then [Byte(0xC0 + n / 0x40), Byte(0x80 + n % 0x40)]
    else if n < 0x1_0000 then [Byte(0xE0 + n / 0x1000), Byte(0x80 + n / 0x40 % 0x40), Byte(0x80 + n % 0x40)]
    else [Byte(0xF0 + n / 0x4_0000), Byte(0x80 + n / 0x1000 % 0x40), Byte(0x80 + n / 0x40 % 0x40),
        Byte(0x80 + n % 0x40)]
  }

  function Bytes(s: string): (b: string)
    ensures AllBytes(b)
  {
    if s == "" then "" else CharBytes(s[0]) + Bytes(s[1..])
  }

  /** An encoding of each length, as sections 3 and 7 of RFC 3629 give it. */
  lemma EncodingSamples()
    ensures CharBytes('A') == [Byte(0x41)] && CharBytes('\U{0391}') == [Byte(0xCE), Byte(0x91)]
    ensures CharBytes('\U{2262}') == [Byte(0xE2), Byte(0x89), Byte(0xA2)]
    ensures CharBytes('\U{233B4}') == [Byte(0xF0), Byte(0xA3), Byte(0x8E), Byte(0xB4)]
  {}

  /** A continuation byte at position i. */
  predicate Continues(b: string, i: nat) {
    i < |b| && 0x80 <= b[i] as int < 0xC0
  }

  function Low(b: string, i: nat): int
    requires Continues(b, i)
  {
    b[i] as int - 0x80
  }

  /** The code point the first bytes spell, and how many they are: none for a malformed start. */
  function First(b: string): (r: (int, nat))
    requires b != ""
    ensures r.1 <= |b|
  {
    var n := b[0] as int;
    if n < 0x80 then (n, 1)
    else if 0xC2 <= n < 0xE0 && Continues(b, 1) then ((n - 0xC0) * 0x40 + Low(b, 1), 2)
    else if 0xE0 <= n < 0xF0 && Continues(b, 1) && Continues(b, 2) then
      ((n - 0xE0) * 0x1000 + Low(b, 1) * 0x40 + Low(b, 2), 3)
    else if 0xF0 <= n < 0xF5 && Continues(b, 1) && Continues(b, 2) && Continues(b, 3) then
      ((n - 0xF0) * 0x4_0000 + Low(b, 1) * 0x1000 + Low(b, 2) * 0x40 + Low(b, 3), 4)
    else (0, 0)
  }

  /** The least code point that needs so many bytes. */
  function Least(width: nat): int {
    if width <= 1 then 0 else if width == 2 then 0x80 else if width == 3 then 0x800 else 0x1_0000
  }

  /** A scalar value in its shortest spelling. */
  predicate WellFormed(n: int, width: nat) {
    width > 0 && Least(width) <= n < 0x11_0000 && !(0xD800 <= n < 0xE000)
  }

  /** Decoding, each malformed byte read as the replacement character. */
  function Text(b: string): string {
    if b == "" then ""
    else
      var (n, width) := First(b);
      if WellFormed(n, width) then [n as char] + Text(b[width..]) else [REPLACEMENT] + Text(b[1..])
  }

  lemma CharDecodes(c: char, rest: string)
    ensures var b := CharBytes(c) + rest; First(b) == (c as int, |CharBytes(c)|) && WellFormed(c as int, |CharBytes(c)|)
  {
    var n := c as int;
    Digits(n);
    var b := CharBytes(c) + rest;
    assert forall i | 0 <= i < |CharBytes(c)| :: b[i] == CharBytes(c)[i];
  }

  /** A code point is its base-64 digits. */
  lemma Digits(n: int)
    requires 0 <= n < 0x11_0000
    ensures n / 0x40 * 0x40 + n % 0x40 == n
    ensures n / 0x1000 * 0x1000 + n / 0x40 % 0x40 * 0x40 + n % 0x40 == n
    ensures n / 0x4_0000 * 0x4_0000 + n / 0x1000 % 0x40 * 0x1000 + n / 0x40 % 0x40 * 0x40 + n % 0x40 == n
  {
    assert n / 0x1000 == n / 0x40 / 0x40;
    assert n / 0x4_0000 == n / 0x1000 / 0x40;
  }

  /** Decoding undoes encoding. */
  lemma {:induction false} RoundTrip(s: string)
    ensures Text(Bytes(s)) == s
  {
    if s != "" {
      RoundTrip(s[1..]);
      CharDecodes(s[0], Bytes(s[1..]));
      assert (CharBytes(s[0]) + Bytes(s[1..]))[|CharBytes(s[0])|..] == Bytes(s[1..]);
    }
  }
}
