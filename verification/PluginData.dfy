/** ACME plugin credentials (pve/certs.go): the payload comes back as base64 (section 4 of RFC 4648, padded or
    not) or already decoded, and is compared as a map, never as text. */
module PluginData {
  import opened Common
  import opened Text
  import U = Utf8

  // ----- base64

  /** The character of one 6-bit group. */
  function Digit(n: nat): char
    requires n < 64
  {
    if n < 26 then 'A' + n as char
    else if n < 52 then 'a' + (n - 26) as char
    else if n < 62 then '0' + (n - 52) as char
    else if n == 62 then '+' else '/'
  }

  predicate IsDigit(c: char) {
    ('A' <= c <= 'Z') || ('a' <= c <= 'z') || ('0' <= c <= '9') || c == '+' || c == '/'
  }

  function ValueOf(c: char): (n: nat)
    requires IsDigit(c)
    ensures n < 64 && Digit(n) == c
  {
    var i := c as int;
    if 'A' <= c <= 'Z' then i - 65 else if 'a' <= c <= 'z' then i - 71 else if '0' <= c <= '9' then i + 4
    else if c == '+' then 62 else 63
  }

  lemma ValueOfDigit(n: nat)
    requires n < 64
    ensures IsDigit(Digit(n)) && ValueOf(Digit(n)) == n
  {}

  /** Three bytes as four digits. */
  function Group(a: nat, b: nat, c: nat): (g: string)
    requires a < 256 && b < 256 && c < 256
    ensures |g| == 4
  {
    [Digit(a / 4), Digit(a % 4 * 16 + b / 16), Digit(b % 16 * 4 + c / 64), Digit(c % 64)]
  }

  function Encode(s: string, padded: bool): string
    requires U.AllBytes(s)
  {
    if s == "" then ""
    else if |s| == 1 then Group(s[0] as int, 0, 0)[..2] + if padded then "==" else ""
    else if |s| == 2 then Group(s[0] as int, s[1] as int, 0)[..3] + if padded then "=" else ""
    else Group(s[0] as int, s[1] as int, s[2] as int) + Encode(s[3..], padded)
  }

  const UPPER := "ABCDEFGHIJKLMNOPQRSTUVWXYZ"
  const LOWER := "abcdefghijklmnopqrstuvwxyz"
  const REST := "0123456789+/"

  /** The base64 alphabet, table 1 of RFC 4648. */
  lemma Alphabet(n: nat)
    requires n < 64
    ensures |UPPER| == |LOWER| == 26 && |REST| == 12
    ensures Digit(n) == if n < 26 then UPPER[n] else if n < 52 then LOWER[n - 26] else REST[n - 52]
  {
    if n < 26 { UpperInOrder(n); } else if n < 52 { LowerInOrder(n - 26); } else { RestInOrder(n - 52); }
  }

  lemma UpperInOrder(n: nat)
    requires n < 26
    ensures UPPER[n] == 'A' + n as char
  {}

  lemma LowerInOrder(n: nat)
    requires n < 26
    ensures LOWER[n] == 'a' + n as char
  {}

  lemma RestInOrder(n: nat)
    requires n < 12
    ensures REST[n] == if n < 10 then '0' + n as char else if n == 10 then '+' else '/'
  {}

  /** The alphabet and the padding are those of section 4 of RFC 4648, as its section 10 shows them. */
  lemma Base64Samples()
    ensures U.AllBytes("f") && U.AllBytes("fo") && U.AllBytes("foobar")
    ensures Encode("f", true) == "Zg==" && Encode("f", false) == "Zg"
    ensures Encode("fo", true) == "Zm8=" && Encode("fo", false) == "Zm8"
    ensures Encode("foobar", true) == "Zm9vYmFy"
  {
    assert "foobar"[3..] == "bar" && "bar"[3..] == "";
  }

  /** Four digits as three bytes. */
  function Ungroup(w: nat, x: nat, y: nat, z: nat): string
    requires w < 64 && x < 64 && y < 64 && z < 64
  {
    [(w * 4 + x / 16) as char, (x % 16 * 16 + y / 4) as char, (y % 4 * 64 + z) as char]
  }

  lemma GroupBits(a: nat, b: nat, c: nat)
    requires a < 256 && b < 256 && c < 256
    ensures a / 4 * 4 + (a % 4 * 16 + b / 16) / 16 == a
    ensures (a % 4 * 16 + b / 16) % 16 * 16 + (b % 16 * 4 + c / 64) / 4 == b
    ensures (b % 16 * 4 + c / 64) % 4 * 64 + c % 64 == c
  {
    assert (a % 4 * 16 + b / 16) / 16 == a % 4 && (a % 4 * 16 + b / 16) % 16 == b / 16;
    assert (b % 16 * 4 + c / 64) / 4 == b % 16 && (b % 16 * 4 + c / 64) % 4 == c / 64;
  }

  lemma UngroupGroup(a: nat, b: nat, c: nat)
    requires a < 256 && b < 256 && c < 256
    ensures var g := Group(a, b, c);
            && (forall i | 0 <= i < 4 :: IsDigit(g[i]))
            && Ungroup(ValueOf(g[0]), ValueOf(g[1]), ValueOf(g[2]), ValueOf(g[3])) == [a as char, b as char, c as char]
  {
    hide Digit, IsDigit;
    ValueOfDigit(a / 4);
    ValueOfDigit(a % 4 * 16 + b / 16);
    ValueOfDigit(b % 16 * 4 + c / 64);
    ValueOfDigit(c % 64);
    GroupBits(a, b, c);
  }

  /** Decoding of a text without line breaks. Trailing bits are ignored. */
  function DecodeGroups(s: string, padded: bool): Option<string> {
    if s == "" then Some("")
    else if |s| >= 4 && IsDigit(s[0]) && IsDigit(s[1]) && IsDigit(s[2]) && IsDigit(s[3]) then
      match DecodeGroups(s[4..], padded)
      case None => None
      case Some(rest) => Some(Ungroup(ValueOf(s[0]), ValueOf(s[1]), ValueOf(s[2]), ValueOf(s[3])) + rest)
    else if padded then
      if |s| != 4 || s[3] != '=' || !IsDigit(s[0]) || !IsDigit(s[1]) then None
      else if s[2] == '=' then Some(Ungroup(ValueOf(s[0]), ValueOf(s[1]), 0, 0)[..1])
      else if IsDigit(s[2]) then Some(Ungroup(ValueOf(s[0]), ValueOf(s[1]), ValueOf(s[2]), 0)[..2])
      else None
    else if |s| == 2 && IsDigit(s[0]) && IsDigit(s[1]) then Some(Ungroup(ValueOf(s[0]), ValueOf(s[1]), 0, 0)[..1])
    else if |s| == 3 && IsDigit(s[0]) && IsDigit(s[1]) && IsDigit(s[2]) then
      Some(Ungroup(ValueOf(s[0]), ValueOf(s[1]), ValueOf(s[2]), 0)[..2])
    else None
  }

  /** The decoders skip line breaks anywhere. */
  function Strip(s: string): string {
    if s == "" then ""
    else if s[0] == '\n' || s[0] == '\r' then Strip(s[1..])
    else [s[0]] + Strip(s[1..])
  }

  lemma GroupDigits(a: nat, b: nat, c: nat)
    requires a < 256 && b < 256 && c < 256
    ensures forall i | 0 <= i < 4 :: IsDigit(Group(a, b, c)[i])
  {
    UngroupGroup(a, b, c);
  }

  lemma {:induction false} EncodeHasNoBreaks(s: string, padded: bool)
    requires U.AllBytes(s)
    ensures forall c | c in Encode(s, padded) :: c != '\n' && c != '\r'
  {
    hide Group, Digit;
    if |s| == 1 {
      GroupDigits(s[0] as int, 0, 0);
    } else if |s| == 2 {
      GroupDigits(s[0] as int, s[1] as int, 0);
    } else if |s| > 2 {
      GroupDigits(s[0] as int, s[1] as int, s[2] as int);
      EncodeHasNoBreaks(s[3..], padded);
    }
  }

  lemma {:induction false} StripKeeps(s: string)
    requires forall c | c in s :: c != '\n' && c != '\r'
    ensures Strip(s) == s
  {
    if s != "" {
      assert s[0] in s && forall c | c in s[1..] :: c in s;
      StripKeeps(s[1..]);
    }
  }

  /** A whole group decodes to its bytes, ahead of whatever the rest decodes to. */
  lemma GroupDecodes(a: nat, b: nat, c: nat, rest: string, padded: bool)
    requires a < 256 && b < 256 && c < 256
    ensures DecodeGroups(Group(a, b, c) + rest, padded) ==
              match DecodeGroups(rest, padded)
              case None => None
              case Some(t) => Some([a as char, b as char, c as char] + t)
  {
    hide Digit, IsDigit, Ungroup;
    UngroupGroup(a, b, c);
    var g := Group(a, b, c);
    assert (g + rest)[4..] == rest;
    assert forall i | 0 <= i < 4 :: (g + rest)[i] == g[i];
  }

  /** A final group of one or two bytes: with its padding the padded decoder takes it, without it only the
      unpadded one does. */
  lemma OneByteDecodes(a: nat)
    requires a < 256
    ensures var two := Group(a, 0, 0)[..2];
            && DecodeGroups(two + "==", true) == Some([a as char])
            && DecodeGroups(two, false) == Some([a as char]) && DecodeGroups(two, true) == None
  {
    hide Digit, Ungroup;
    var g := Group(a, 0, 0);
    UngroupGroup(a, 0, 0);
    FirstByte(ValueOf(g[0]), ValueOf(g[1]), ValueOf(g[2]), ValueOf(g[3]));
    assert !IsDigit('=');
  }

  lemma TwoBytesDecode(a: nat, b: nat)
    requires a < 256 && b < 256
    ensures var three := Group(a, b, 0)[..3];
            && DecodeGroups(three + "=", true) == Some([a as char, b as char])
            && DecodeGroups(three, false) == Some([a as char, b as char]) && DecodeGroups(three, true) == None
  {
    hide Digit, Ungroup;
    var g := Group(a, b, 0);
    UngroupGroup(a, b, 0);
    FirstByte(ValueOf(g[0]), ValueOf(g[1]), ValueOf(g[2]), ValueOf(g[3]));
    assert !IsDigit('=');
  }

  /** The first bytes of a group depend on its first digits only. */
  lemma FirstByte(w: nat, x: nat, y: nat, z: nat)
    requires w < 64 && x < 64 && y < 64 && z < 64
    ensures Ungroup(w, x, 0, 0)[..1] == [Ungroup(w, x, y, z)[0]]
    ensures Ungroup(w, x, y, 0)[..2] == [Ungroup(w, x, y, z)[0], Ungroup(w, x, y, z)[1]]
  {}

  lemma EncodeStep(s: string, padded: bool)
    requires U.AllBytes(s) && |s| > 2
    ensures U.AllBytes(s[3..]) && s[0] as int < 256 && s[1] as int < 256 && s[2] as int < 256
    ensures Encode(s, padded) == Group(s[0] as int, s[1] as int, s[2] as int) + Encode(s[3..], padded)
    ensures [s[0] as int as char, s[1] as int as char, s[2] as int as char] + s[3..] == s
  {}

  lemma TailDecodes(s: string, padded: bool)
    requires U.AllBytes(s) && |s| <= 2
    ensures DecodeGroups(Encode(s, padded), padded) == Some(s)
    ensures DecodeGroups(Encode(s, false), true) == if |s| == 0 then Some(s) else None
  {
    hide Group;
    if |s| == 1 {
      hide DecodeGroups;
      OneByteDecodes(s[0] as int);
      var two := Group(s[0] as int, 0, 0)[..2];
      assert s == [s[0]] && two + "" == two;
    } else if |s| == 2 {
      hide DecodeGroups;
      TwoBytesDecode(s[0] as int, s[1] as int);
      var three := Group(s[0] as int, s[1] as int, 0)[..3];
      assert s == [s[0], s[1]] && three + "" == three;
    }
  }

  /** Decoding with the padding it was encoded with gives the bytes back; the padded decoder refuses an
      unpadded text whose length calls for padding. */
  lemma {:induction false} Base64RoundTrip(s: string, padded: bool)
    requires U.AllBytes(s)
    ensures DecodeGroups(Encode(s, padded), padded) == Some(s)
    ensures DecodeGroups(Encode(s, false), true) == if |s| % 3 == 0 then Some(s) else None
  {
    hide Group, DecodeGroups, Encode;
    if |s| <= 2 {
      TailDecodes(s, padded);
    } else {
      EncodeStep(s, padded);
      EncodeStep(s, false);
      Base64RoundTrip(s[3..], padded);
      GroupDecodes(s[0] as int, s[1] as int, s[2] as int, Encode(s[3..], padded), padded);
      GroupDecodes(s[0] as int, s[1] as int, s[2] as int, Encode(s[3..], false), true);
    }
  }

  /** What either decoder accepts: digits, then padding. */
  predicate Shaped(s: string) {
    s == "" || (IsDigit(s[0]) && Shaped(s[1..])) || forall c | c in s :: c == '='
  }

  lemma ShapedCons(c: char, s: string)
    requires IsDigit(c) && Shaped(s)
    ensures Shaped([c] + s)
  {
    assert ([c] + s)[1..] == s;
  }

  lemma {:induction false} DecodedIsShaped(s: string, padded: bool)
    requires DecodeGroups(s, padded).Some?
    ensures Shaped(s)
  {
    if s != "" {
      var tail := if |s| < 4 then "" else if IsDigit(s[3]) then s[4..] else if IsDigit(s[2]) then "=" else "==";
      assert Shaped("") && Shaped("=") && Shaped("==");
      if |s| >= 4 && IsDigit(s[3]) { DecodedIsShaped(s[4..], padded); }
      DigitsShaped(s[..|s| - |tail|], tail);
      assert s == s[..|s| - |tail|] + tail;
    }
  }

  lemma {:induction false} DigitsShaped(digits: string, tail: string)
    requires (forall i | 0 <= i < |digits| :: IsDigit(digits[i])) && Shaped(tail)
    ensures Shaped(digits + tail)
  {
    if digits == "" {
      assert digits + tail == tail;
    } else {
      DigitsShaped(digits[1..], tail);
      ShapedCons(digits[0], digits[1..] + tail);
      assert digits + tail == [digits[0]] + (digits[1..] + tail);
    }
  }

  predicate IsBreak(c: char) { c == '\n' || c == '\r' }

  lemma {:induction false} StripChars(s: string)
    ensures forall c | c in s && !IsBreak(c) :: c in Strip(s)
  {
    if s != "" {
      StripChars(s[1..]);
      assert forall c | c in s :: c == s[0] || c in s[1..];
    }
  }

  lemma {:induction false} ShapedChars(s: string)
    requires Shaped(s)
    ensures forall c | c in s :: IsDigit(c) || c == '='
  {
    if s != "" && IsDigit(s[0]) && Shaped(s[1..]) {
      ShapedChars(s[1..]);
      assert forall c | c in s :: c == s[0] || c in s[1..];
    }
  }

  /** A text holding a character outside the alphabet - '_' in a key, say - is not base64. */
  lemma ForeignCharIsPlain(s: string, c: char)
    requires c in s && !IsDigit(c) && c != '=' && !IsBreak(c)
    ensures !Shaped(Strip(s))
  {
    StripChars(s);
    if Shaped(Strip(s)) { ShapedChars(Strip(s)); }
  }

  /** Nor is one where something other than padding follows an '='. */
  lemma {:induction false} InnerEqualsIsPlain(s: string, i: nat, j: nat)
    requires i < j < |s| && s[i] == '=' && s[j] != '=' && !IsBreak(s[j])
    ensures !Shaped(Strip(s))
  {
    if i > 0 {
      InnerEqualsIsPlain(s[1..], i - 1, j - 1);
      if !IsBreak(s[0]) {
        var t := Strip(s);
        assert t[1..] == Strip(s[1..]);
        assert forall c | c in t[1..] :: c in t;
      }
    } else {
      StripChars(s);
      assert s[j] in Strip(s);
      assert Strip(s)[0] == '=';
    }
  }

  // ----- decodePluginData

  /** The text of the payload: of the decoded bytes if it is base64 in either padding, else as it stands. */
  function RawPayload(payload: string): string {
    match DecodeGroups(Strip(payload), true)
    case Some(raw) => U.Text(raw)
    case None =>
      match DecodeGroups(Strip(payload), false)
      case Some(raw) => U.Text(raw)
      case None => payload
  }

  function WithLine(m: map<string, string>, line: string): map<string, string> {
    var text := TrimSpace(line);
    if text == "" then m else var (k, v, _) := Cut(text, '='); m[k := v]
  }

  function ParseLines(lines: seq<string>): map<string, string> {
    if lines == [] then map[] else WithLine(ParseLines(lines[..|lines| - 1]), lines[|lines| - 1])
  }

  method DecodePluginData(payload: string) returns (out: map<string, string>)
    ensures out == ParseLines(Split(RawPayload(payload), '\n'))
  {
    var lines := Split(RawPayload(payload), '\n');
    out := map[];
    for i := 0 to |lines|
      invariant out == ParseLines(lines[..i])
    {
      assert lines[..i + 1][..i] == lines[..i];
      var line := TrimSpace(lines[i]);
      if line == "" {
        continue;
      }
      var (k, v, _) := Cut(line, '=');
      out := out[k := v];
    }
    assert lines[..|lines|] == lines;
  }

  /** One line of a rendering: blank, or a credential between white space (a carriage return, say). */
  datatype Row = Blank(pad: string) | Entry(before: string, key: string, value: string, after: string)

  predicate Pad(s: string) { AllSpace(s) && '\n' !in s }

  predicate RowOk(r: Row) {
    match r
    case Blank(pad) => Pad(pad)
    case Entry(before, key, value, after) =>
      && Pad(before) && Pad(after)
      && key != "" && !IsSpace(key[0]) && '=' !in key && '\n' !in key
      && '\n' !in value && (value != "" ==> !IsSpace(value[|value| - 1]))
  }

  function RowText(r: Row): string {
    match r
    case Blank(pad) => pad
    case Entry(before, key, value, after) => before + (key + ['='] + value) + after
  }

  function RowTexts(rows: seq<Row>): seq<string> {
    seq(|rows|, i requires 0 <= i < |rows| => RowText(rows[i]))
  }

  function Rendering(rows: seq<Row>): string {
    Join(RowTexts(rows), "\n")
  }

  /** The rows hold exactly the credentials of m, in any order. */
  ghost predicate Renders(rows: seq<Row>, m: map<string, string>) {
    && (forall r | r in rows :: RowOk(r))
    && (forall r | r in rows && r.Entry? :: r.key in m && m[r.key] == r.value)
    && (forall k | k in m :: exists r | r in rows :: r.Entry? && r.key == k)
  }

  lemma RowParses(r: Row, m: map<string, string>)
    requires RowOk(r)
    ensures WithLine(m, RowText(r)) == if r.Blank? then m else m[r.key := r.value]
    ensures '\n' !in RowText(r)
  {
    match r
    case Blank(pad) =>
      TrimPadded(pad, "", "");
      assert pad + "" + "" == pad;
    case Entry(before, key, value, after) =>
      var text := key + ['='] + value;
      assert text[0] == key[0] && text[|text| - 1] == if value != "" then value[|value| - 1] else '=';
      TrimPadded(before, text, after);
      CutAt(key, value, '=');
  }

  lemma {:induction false} RowsParse(rows: seq<Row>, m: map<string, string>)
    requires forall r | r in rows :: RowOk(r)
    requires forall r | r in rows && r.Entry? :: r.key in m && m[r.key] == r.value
    ensures var out := ParseLines(RowTexts(rows));
            && (forall k | k in out :: k in m && out[k] == m[k])
            && (forall r | r in rows && r.Entry? :: r.key in out)
  {
    if rows != [] {
      var n := |rows| - 1;
      RowsParse(rows[..n], m);
      assert RowTexts(rows)[..n] == RowTexts(rows[..n]);
      hide WithLine, RowOk, RowText;
      assert rows[n] in rows;
      RowParses(rows[n], ParseLines(RowTexts(rows[..n])));
      assert rows == rows[..n] + [rows[n]];
    }
  }

  lemma NoRowsParse()
    ensures ParseLines(Split(Join([], "\n"), '\n')) == map[]
  {
    assert Split("", '\n') == [""] && [""][..0] == [];
    TrimPadded("", "", "");
    assert ParseLines([""]) == WithLine(ParseLines([]), "");
  }

  /** Lines in any order, blank lines, carriage returns: the parse is the credential map. */
  lemma RenderingParses(rows: seq<Row>, m: map<string, string>)
    requires Renders(rows, m)
    ensures ParseLines(Split(Rendering(rows), '\n')) == m
  {
    if rows == [] {
      NoRowsParse();
      assert RowTexts(rows) == [] && m == map[];
      return;
    }
    forall t | t in RowTexts(rows) ensures '\n' !in t {
      var i :| 0 <= i < |rows| && t == RowText(rows[i]);
      RowParses(rows[i], map[]);
    }
    SplitJoin(RowTexts(rows), '\n');
    RowsParse(rows, m);
  }

  /** Every shape the servers answer with decodes to the stored credentials. */
  lemma PayloadDecodes(payload: string, rows: seq<Row>, m: map<string, string>, padded: bool)
    requires Renders(rows, m)
    requires Strip(payload) == Encode(U.Bytes(Rendering(rows)), padded)
             || (payload == Rendering(rows) && !Shaped(Strip(payload)))
    ensures ParseLines(Split(RawPayload(payload), '\n')) == m
  {
    var text := Rendering(rows);
    RenderingParses(rows, m);
    if Strip(payload) == Encode(U.Bytes(text), padded) {
      Base64RoundTrip(U.Bytes(text), padded);
      U.RoundTrip(text);
    } else {
      if DecodeGroups(Strip(payload), true).Some? { DecodedIsShaped(Strip(payload), true); }
      if DecodeGroups(Strip(payload), false).Some? { DecodedIsShaped(Strip(payload), false); }
    }
  }

  /** In particular a decoded rendering with a key like CF_Token is read as it is. */
  lemma DecodedRenderingWithForeignKey(rows: seq<Row>, m: map<string, string>, r: Row, c: char)
    requires Renders(rows, m) && r in rows && r.Entry? && c in r.key
    requires !IsDigit(c) && c != '=' && !IsBreak(c)
    ensures ParseLines(Split(RawPayload(Rendering(rows)), '\n')) == m
  {
    var i :| 0 <= i < |rows| && rows[i] == r;
    assert c in RowText(r);
    JoinKeeps(RowTexts(rows), "\n", i, c);
    ForeignCharIsPlain(Rendering(rows), c);
    PayloadDecodes(Rendering(rows), rows, m, true);
  }

  lemma {:induction false} JoinKeeps(parts: seq<string>, sep: string, i: nat, c: char)
    requires i < |parts| && c in parts[i]
    ensures c in Join(parts, sep)
  {
    if |parts| > 1 && i > 0 { JoinKeeps(parts[1..], sep, i - 1, c); }
  }
}
