/** The string operations of Go's strings and bytes packages that the modelled code relies on,
    with the laws the proofs use. Strings are sequences of characters, ordered by code point. */
module Text {

  // ----- lexicographic order (strings.Compare)

  predicate LexLe(a: string, b: string) {
    a == [] || (b != [] && (a[0] < b[0] || (a[0] == b[0] && LexLe(a[1..], b[1..]))))
  }

  predicate LexLt(a: string, b: string) {
    LexLe(a, b) && a != b
  }

  lemma LexTotal(a: string, b: string)
    ensures LexLe(a, b) || LexLe(b, a)
  {}

  lemma {:induction false} LexAntisymmetric(a: string, b: string)
    requires LexLe(a, b) && LexLe(b, a)
    ensures a == b
  {
    if a != [] && b != [] {
      LexAntisymmetric(a[1..], b[1..]);
      assert a == [a[0]] + a[1..] && b == [b[0]] + b[1..];
    }
  }

  lemma LexTransitive(a: string, b: string, c: string)
    requires LexLe(a, b) && LexLe(b, c)
    ensures LexLe(a, c)
  {}

  /** The order is decided at the first difference: there a ends, or holds the smaller character. */
  lemma {:induction false} LexAtFirstDifference(a: string, b: string)
    ensures LexLe(a, b) <==> exists k | 0 <= k <= |a| && k <= |b| ::
              a[..k] == b[..k] && (k == |a| || (k < |b| && a[k] < b[k]))
  {
    if a == [] {
      assert a[..0] == b[..0];
    } else if b != [] && a[0] == b[0] {
      var x, y := a[1..], b[1..];
      LexAtFirstDifference(x, y);
      if LexLe(x, y) {
        var k :| 0 <= k <= |x| && k <= |y| && x[..k] == y[..k] && (k == |x| || (k < |y| && x[k] < y[k]));
        assert a[..k + 1] == [a[0]] + x[..k] && b[..k + 1] == [b[0]] + y[..k];
      }
      if k :| 0 <= k <= |a| && k <= |b| && a[..k] == b[..k] && (k == |a| || (k < |b| && a[k] < b[k])) {
        assert k > 0 && x[..k - 1] == a[..k][1..] && y[..k - 1] == b[..k][1..];
      }
    } else if b != [] {
      assert a[..0] == b[..0];
      forall k | 0 < k <= |a| && k <= |b| ensures a[..k] != b[..k] {
        assert a[..k][0] != b[..k][0];
      }
    }
  }

  // ----- splitting and joining

  /** strings.Join */
  function Join(parts: seq<string>, sep: string): string {
    if parts == [] then ""
    else if |parts| == 1 then parts[0]
    else parts[0] + sep + Join(parts[1..], sep)
  }

  /** strings.Split with a one-character separator; never empty. */
  function Split(s: string, c: char): (r: seq<string>)
    ensures |r| > 0
  {
    if s == "" then [""]
    else if s[0] == c then [""] + Split(s[1..], c)
    else var rest := Split(s[1..], c); [[s[0]] + rest[0]] + rest[1..]
  }

  lemma {:induction false} SplitPrefix(a: string, s: string, c: char)
    requires c !in a
    ensures Split(a + s, c) == [a + Split(s, c)[0]] + Split(s, c)[1..]
  {
    if a == "" {
      assert a + s == s;
      assert a + Split(s, c)[0] == Split(s, c)[0];
    } else {
      SplitPrefix(a[1..], s, c);
      assert a[0] in a && a[0] != c && (a + s)[0] == a[0];
      assert (a + s)[1..] == a[1..] + s;
      assert [a[0]] + (a[1..] + Split(s, c)[0]) == a + Split(s, c)[0];
    }
  }

  lemma {:induction false} SplitJoin(parts: seq<string>, c: char)
    requires parts != [] && forall p | p in parts :: c !in p
    ensures Split(Join(parts, [c]), c) == parts
  {
    if |parts| == 1 {
      SplitPrefix(parts[0], "", c);
      assert parts[0] + "" == parts[0];
    } else {
      var tail := Join(parts[1..], [c]);
      SplitJoin(parts[1..], c);
      SplitPrefix(parts[0], [c] + tail, c);
      assert parts[0] + [c] + tail == parts[0] + ([c] + tail);
      assert ([c] + tail)[1..] == tail;
      assert parts[0] + "" == parts[0];
    }
  }

  lemma {:induction false} SplitPiecesFree(s: string, c: char)
    ensures forall p | p in Split(s, c) :: c !in p
  {
    if s != "" { SplitPiecesFree(s[1..], c); }
  }

  /** Joining the pieces gives the text back: splitting loses nothing. */
  lemma {:induction false} JoinSplit(s: string, c: char)
    ensures Join(Split(s, c), [c]) == s
  {
    if s != "" {
      JoinSplit(s[1..], c);
      var rest := Split(s[1..], c);
      if s[0] == c {
        assert ([""] + rest)[1..] == rest;
        assert s == "" + [c] + s[1..];
      } else {
        JoinHead(s[0], rest, c);
      }
    }
  }

  lemma JoinHead(x: char, parts: seq<string>, c: char)
    requires parts != []
    ensures Join([[x] + parts[0]] + parts[1..], [c]) == [x] + Join(parts, [c])
  {
    var longer := [[x] + parts[0]] + parts[1..];
    assert longer[1..] == parts[1..];
    if |parts| > 1 {
      assert [x] + parts[0] + [c] + Join(parts[1..], [c]) == [x] + (parts[0] + [c] + Join(parts[1..], [c]));
    }
  }

  /** Joining is injective on non-empty lists whose items do not contain the separator. */
  lemma JoinInjective(a: seq<string>, b: seq<string>, c: char)
    requires a != [] && b != []
    requires (forall p | p in a :: c !in p) && (forall p | p in b :: c !in p)
    requires Join(a, [c]) == Join(b, [c])
    ensures a == b
  {
    SplitJoin(a, c);
    SplitJoin(b, c);
  }

  /** strings.Cut at the first occurrence of one character. */
  function Cut(s: string, c: char): (r: (string, string, bool))
    ensures c !in r.0
    ensures r.2 ==> s == r.0 + [c] + r.1
    ensures !r.2 ==> s == r.0 && r.1 == "" && c !in s
  {
    if s == "" then ("", "", false)
    else if s[0] == c then assert s == "" + [c] + s[1..]; ("", s[1..], true)
    else
      var (before, after, found) := Cut(s[1..], c);
      assert s == [s[0]] + s[1..];
      ([s[0]] + before, after, found)
  }

  lemma {:induction false} CutAt(a: string, b: string, c: char)
    requires c !in a
    ensures Cut(a + [c] + b, c) == (a, b, true)
  {
    var s := a + [c] + b;
    if a == "" {
      assert s[0] == c && s[1..] == b;
    } else {
      CutAt(a[1..], b, c);
      assert a[0] in a && s[0] == a[0] != c;
      assert s[1..] == a[1..] + [c] + b;
      assert [a[0]] + a[1..] == a;
    }
  }

  // ----- trimming

  /** The white space strings.TrimSpace removes: Unicode's White_Space property. */
  predicate IsSpace(c: char) {
    || c == ' ' || ('\t' <= c <= '\r') || c == '\U{0085}' || c == '\U{00A0}' || c == '\U{1680}'
    || ('\U{2000}' <= c <= '\U{200A}') || c == '\U{2028}' || c == '\U{2029}' || c == '\U{202F}'
    || c == '\U{205F}' || c == '\U{3000}'
  }

  predicate AllSpace(s: string) {
    forall c | c in s :: IsSpace(c)
  }

  function TrimLeft(s: string): string {
    if s != "" && IsSpace(s[0]) then TrimLeft(s[1..]) else s
  }

  function TrimRight(s: string): string {
    if s != "" && IsSpace(s[|s| - 1]) then TrimRight(s[..|s| - 1]) else s
  }

  function TrimSpace(s: string): string {
    TrimRight(TrimLeft(s))
  }

  predicate Trimmed(s: string) {
    s != "" ==> !IsSpace(s[0]) && !IsSpace(s[|s| - 1])
  }

  lemma {:induction false} TrimLeftPadded(pad: string, s: string)
    requires AllSpace(pad)
    ensures TrimLeft(pad + s) == TrimLeft(s)
  {
    if pad == "" {
      assert pad + s == s;
    } else {
      TrimLeftPadded(pad[1..], s);
      assert (pad + s)[1..] == pad[1..] + s;
    }
  }

  lemma {:induction false} TrimRightPadded(s: string, pad: string)
    requires AllSpace(pad)
    ensures TrimRight(s + pad) == TrimRight(s)
  {
    if pad == "" {
      assert s + pad == s;
    } else {
      TrimRightPadded(s, pad[..|pad| - 1]);
      assert (s + pad)[..|s + pad| - 1] == s + pad[..|pad| - 1];
    }
  }

  /** White space around a trimmed text is exactly what trimming removes. */
  lemma TrimPadded(before: string, s: string, after: string)
    requires AllSpace(before) && AllSpace(after) && Trimmed(s)
    ensures TrimSpace(before + s + after) == s
  {
    assert before + s + after == before + (s + after);
    TrimLeftPadded(before, s + after);
    if s == "" {
      assert s + after == after + "";
      TrimLeftPadded(after, "");
    } else {
      TrimRightPadded(s, after);
    }
  }

  lemma {:induction false} TrimIsTrimmed(s: string)
    ensures Trimmed(TrimSpace(s))
    ensures forall c | c in TrimSpace(s) :: c in s
  {
    TrimLeftHead(s);
    TrimRightLast(TrimLeft(s));
  }

  lemma TrimLeftHead(s: string)
    ensures TrimLeft(s) != "" ==> !IsSpace(TrimLeft(s)[0])
    ensures forall c | c in TrimLeft(s) :: c in s
  {}

  lemma TrimRightLast(s: string)
    ensures var t := TrimRight(s);
            t <= s && (t != "" ==> !IsSpace(t[|t| - 1]) && t[0] == s[0])
  {}

  // ----- searching and replacing (bytes.Contains, bytes.ReplaceAll)

  predicate OccursAt(t: string, v: string, p: nat) {
    p + |v| <= |t| && t[p..p + |v|] == v
  }

  predicate Contains(t: string, v: string) {
    exists p | 0 <= p <= |t| :: OccursAt(t, v, p)
  }

  /** Every non-overlapping occurrence of v, leftmost first, replaced by n. */
  function ReplaceAll(t: string, v: string, n: string): string
    requires v != ""
    decreases |t|
  {
    if t == "" then ""
    else if v <= t then n + ReplaceAll(t[|v|..], v, n)
    else [t[0]] + ReplaceAll(t[1..], v, n)
  }

  predicate HasSuffix(s: string, suffix: string) {
    |suffix| <= |s| && s[|s| - |suffix|..] == suffix
  }

  /** strings.TrimSuffix */
  function TrimSuffix(s: string, suffix: string): string {
    if HasSuffix(s, suffix) then s[..|s| - |suffix|] else s
  }
}
