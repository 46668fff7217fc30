/** The machine-config differ (talos/normalize.go): the LCS edit script, the windowed printer,
    and the per-document diff built from them. */
module Diff {
  import opened Common
  import opened Text
  import opened Sorting

  // ----- edit scripts

  /** A step of a script: ' ' keeps the line, '-' drops a line of the old text, '+' adds one of the new. */
  datatype Op = Op(mark: char, line: string)

  ghost predicate IsScript(ops: seq<Op>) {
    forall o | o in ops :: o.mark == ' ' || o.mark == '-' || o.mark == '+'
  }

  function OldPart(o: Op): seq<string> { if o.mark != '+' then [o.line] else [] }

  function NewPart(o: Op): seq<string> { if o.mark != '-' then [o.line] else [] }

  function ChangePart(o: Op): seq<Op> { if o.mark != ' ' then [o] else [] }

  /** The kept and removed lines: what the script was applied to. */
  function OldSide(ops: seq<Op>): seq<string> {
    if ops == [] then [] else OldPart(ops[0]) + OldSide(ops[1..])
  }

  /** The kept and added lines: what the script produces. */
  function NewSide(ops: seq<Op>): seq<string> {
    if ops == [] then [] else NewPart(ops[0]) + NewSide(ops[1..])
  }

  /** The '-' and '+' lines, in order. */
  function Changes(ops: seq<Op>): seq<Op> {
    if ops == [] then [] else ChangePart(ops[0]) + Changes(ops[1..])
  }

  // ----- common subsequences, independently of the table

  /** at lists, in increasing order, positions of t that spell s. */
  ghost predicate Embeds(s: seq<string>, t: seq<string>, at: seq<nat>) {
    && |at| == |s|
    && (forall i | 0 <= i < |at| :: at[i] < |t| && t[at[i]] == s[i])
    && (forall i, j | 0 <= i < j < |at| :: at[i] < at[j])
  }

  ghost predicate CommonSubsequence(s: seq<string>, x: seq<string>, y: seq<string>) {
    exists f, g :: Embeds(s, x, f) && Embeds(s, y, g)
  }

  /** The recurrence the table is filled by. */
  function LcsLen(x: seq<string>, y: seq<string>): nat
    decreases |x| + |y|
  {
    if x == [] || y == [] then 0
    else if x[0] == y[0] then LcsLen(x[1..], y[1..]) + 1
    else var a, b := LcsLen(x[1..], y), LcsLen(x, y[1..]); if a >= b then a else b
  }

  lemma EmbedsTail(s: seq<string>, t: seq<string>, at: seq<nat>) returns (rest: seq<nat>)
    requires Embeds(s, t, at) && t != [] && (s == [] || at[0] != 0)
    ensures Embeds(s, t[1..], rest)
  {
    rest := seq(|at|, i requires 0 <= i < |at| => if at[i] > 0 then at[i] - 1 else 0);
  }

  lemma EmbedsRest(s: seq<string>, t: seq<string>, at: seq<nat>) returns (rest: seq<nat>)
    requires Embeds(s, t, at) && s != []
    ensures t != [] && Embeds(s[1..], t[1..], rest)
  {
    rest := seq(|at| - 1, i requires 0 <= i < |at| - 1 => if at[i + 1] > 0 then at[i + 1] - 1 else 0);
    assert forall i | 1 <= i < |at| :: at[0] < at[i];
  }

  lemma EmbedsShift(s: seq<string>, t: seq<string>, at: seq<nat>) returns (up: seq<nat>)
    requires t != [] && Embeds(s, t[1..], at)
    ensures Embeds(s, t, up) && (forall i | 0 <= i < |up| :: up[i] > 0)
  {
    up := seq(|at|, i requires 0 <= i < |at| => at[i] + 1);
  }

  lemma {:induction false} LcsBound(s: seq<string>, x: seq<string>, f: seq<nat>, y: seq<string>, g: seq<nat>)
    requires Embeds(s, x, f) && Embeds(s, y, g)
    ensures |s| <= LcsLen(x, y)
    decreases |x| + |y|
  {
    if s != [] {
      assert f[0] < |x| && g[0] < |y|;
      if x[0] == y[0] {
        var f' := EmbedsRest(s, x, f);
        var g' := EmbedsRest(s, y, g);
        LcsBound(s[1..], x[1..], f', y[1..], g');
      } else if f[0] != 0 {
        var f' := EmbedsTail(s, x, f);
        LcsBound(s, x[1..], f', y, g);
      } else {
        var g' := EmbedsTail(s, y, g);
        LcsBound(s, x, f, y[1..], g');
      }
    }
  }

  lemma EmbedsHead(s: seq<string>, t: seq<string>, at: seq<nat>) returns (all: seq<nat>)
    requires t != [] && Embeds(s, t[1..], at)
    ensures Embeds([t[0]] + s, t, all)
  {
    all := EmbedsShift(s, t, at);
    all := [0] + all;
  }

  lemma {:induction false} LcsWitness(x: seq<string>, y: seq<string>) returns (s: seq<string>, f: seq<nat>, g: seq<nat>)
    ensures Embeds(s, x, f) && Embeds(s, y, g) && |s| == LcsLen(x, y)
    decreases |x| + |y|
  {
    if x == [] || y == [] {
      s, f, g := [], [], [];
      return;
    }
    hide Embeds;
    if x[0] == y[0] {
      s, f, g := LcsWitness(x[1..], y[1..]);
      f := EmbedsHead(s, x, f);
      g := EmbedsHead(s, y, g);
      s := [x[0]] + s;
    } else if LcsLen(x[1..], y) >= LcsLen(x, y[1..]) {
      s, f, g := LcsWitness(x[1..], y);
      f := EmbedsShift(s, x, f);
    } else {
      s, f, g := LcsWitness(x, y[1..]);
      g := EmbedsShift(s, y, g);
    }
  }

  /** The recurrence computes the maximum length over all common subsequences. */
  lemma LcsIsMaximum(x: seq<string>, y: seq<string>)
    ensures exists s :: CommonSubsequence(s, x, y) && |s| == LcsLen(x, y)
    ensures forall s :: CommonSubsequence(s, x, y) ==> |s| <= LcsLen(x, y)
  {
    var s, f, g := LcsWitness(x, y);
    assert CommonSubsequence(s, x, y);
    forall s | CommonSubsequence(s, x, y) ensures |s| <= LcsLen(x, y) {
      var f, g :| Embeds(s, x, f) && Embeds(s, y, g);
      LcsBound(s, x, f, y, g);
    }
  }

  lemma LcsTail(x: seq<string>, y: seq<string>)
    requires y != []
    ensures LcsLen(x, y[1..]) <= LcsLen(x, y)
  {
    var s, f, g := LcsWitness(x, y[1..]);
    g := EmbedsShift(s, y, g);
    LcsBound(s, x, f, y, g);
  }

  // ----- editScript

  /** The script editScript walks to, stated on the inputs alone. */
  function Script(x: seq<string>, y: seq<string>): seq<Op>
    decreases |x| + |y|
  {
    if x == [] && y == [] then []
    else if x != [] && y != [] && x[0] == y[0] then [Op(' ', x[0])] + Script(x[1..], y[1..])
    else if x != [] && (y == [] || LcsLen(x[1..], y) >= LcsLen(x, y[1..])) then [Op('-', x[0])] + Script(x[1..], y)
    else [Op('+', y[0])] + Script(x, y[1..])
  }

  /** Every cell holds what the recurrence gives for the two suffixes starting there. */
  ghost predicate IsTable(lcs: array2<int>, x: seq<string>, y: seq<string>)
    reads lcs
  {
    && lcs.Length0 == |x| + 1 && lcs.Length1 == |y| + 1
    && forall i, j {:trigger lcs[i, j]} | 0 <= i <= |x| && 0 <= j <= |y| :: lcs[i, j] == LcsLen(x[i..], y[j..])
  }

  method LcsTable(x: seq<string>, y: seq<string>) returns (lcs: array2<int>)
    ensures fresh(lcs) && IsTable(lcs, x, y)
  {
    lcs := new int[|x| + 1, |y| + 1]((i, j) => 0);
    var i := |x| - 1;
    while i >= 0
      invariant -1 <= i < |x|
      invariant forall p, q | 0 <= p <= |x| && 0 <= q <= |y| ::
                  lcs[p, q] == if p > i then LcsLen(x[p..], y[q..]) else 0
    {
      var j := |y| - 1;
      while j >= 0
        invariant -1 <= j < |y|
        invariant forall p, q | 0 <= p <= |x| && 0 <= q <= |y| ::
                    lcs[p, q] == if p > i || (p == i && q > j) then LcsLen(x[p..], y[q..]) else 0
      {
        assert x[i..][0] == x[i] && x[i..][1..] == x[i + 1..];
        assert y[j..][0] == y[j] && y[j..][1..] == y[j + 1..];
        if x[i] == y[j] {
          lcs[i, j] := lcs[i + 1, j + 1] + 1;
        } else {
          lcs[i, j] := if lcs[i + 1, j] >= lcs[i, j + 1] then lcs[i + 1, j] else lcs[i, j + 1];
        }
        j := j - 1;
      }
      i := i - 1;
    }
  }

  /** The script of the unread suffixes, as one step followed by the rest. */
  lemma ScriptAt(x: seq<string>, y: seq<string>, i: nat, j: nat, ops: seq<Op>, whole: seq<Op>)
    requires i <= |x| && j <= |y| && ops + Script(x[i..], y[j..]) == whole
    ensures i < |x| && j < |y| && x[i] == y[j] ==>
              ops + [Op(' ', x[i])] + Script(x[i + 1..], y[j + 1..]) == whole
    ensures i < |x| && (j == |y| || (x[i] != y[j] && LcsLen(x[i + 1..], y[j..]) >= LcsLen(x[i..], y[j + 1..]))) ==>
              ops + [Op('-', x[i])] + Script(x[i + 1..], y[j..]) == whole
    ensures j < |y| && (i == |x| || (x[i] != y[j] && LcsLen(x[i + 1..], y[j..]) < LcsLen(x[i..], y[j + 1..]))) ==>
              ops + [Op('+', y[j])] + Script(x[i..], y[j + 1..]) == whole
    ensures i == |x| && j == |y| ==> ops == whole
  {
    if i < |x| { assert x[i..][0] == x[i] && x[i..][1..] == x[i + 1..]; }
    if j < |y| { assert y[j..][0] == y[j] && y[j..][1..] == y[j + 1..]; }
  }

  method EditScript(x: seq<string>, y: seq<string>) returns (ops: seq<Op>)
    ensures ops == Script(x, y)
  {
    var lcs := LcsTable(x, y);
    ops := [];
    var i, j := 0, 0;
    ghost var whole := Script(x, y);
    assert ops + Script(x[i..], y[j..]) == whole by { assert x[0..] == x && y[0..] == y; }
    ScriptAt(x, y, i, j, ops, whole);
    while i < |x| || j < |y|
      invariant 0 <= i <= |x| && 0 <= j <= |y|
      invariant IsTable(lcs, x, y)
      invariant ops + Script(x[i..], y[j..]) == whole
      invariant i == |x| && j == |y| ==> ops == whole
      decreases |x| - i + |y| - j
    {
      ScriptAt(x, y, i, j, ops, whole);
      if i < |x| && j < |y| && x[i] == y[j] {
        ops := ops + [Op(' ', x[i])];
        i, j := i + 1, j + 1;
      } else if i < |x| && (j == |y| || lcs[i + 1, j] >= lcs[i, j + 1]) {
        ops := ops + [Op('-', x[i])];
        i := i + 1;
      } else {
        ops := ops + [Op('+', y[j])];
        j := j + 1;
      }
      ScriptAt(x, y, i, j, ops, whole);
    }
  }

  lemma SidesOfCons(o: Op, ops: seq<Op>)
    ensures OldSide([o] + ops) == if o.mark != '+' then [o.line] + OldSide(ops) else OldSide(ops)
    ensures NewSide([o] + ops) == if o.mark != '-' then [o.line] + NewSide(ops) else NewSide(ops)
    ensures IsScript(ops) && (o.mark == ' ' || o.mark == '-' || o.mark == '+') ==> IsScript([o] + ops)
  {
    assert ([o] + ops)[1..] == ops;
  }

  /** The script replays exactly: it takes x to y. */
  lemma {:induction false} ScriptReplays(x: seq<string>, y: seq<string>)
    ensures IsScript(Script(x, y)) && OldSide(Script(x, y)) == x && NewSide(Script(x, y)) == y
    decreases |x| + |y|
  {
    hide LcsLen, IsScript, OldSide, NewSide, OldPart, NewPart;
    assert x != [] ==> x == [x[0]] + x[1..];
    assert y != [] ==> y == [y[0]] + y[1..];
    if x != [] && y != [] && x[0] == y[0] {
      ScriptReplays(x[1..], y[1..]);
      SidesOfCons(Op(' ', x[0]), Script(x[1..], y[1..]));
    } else if x != [] && (y == [] || LcsLen(x[1..], y) >= LcsLen(x, y[1..])) {
      ScriptReplays(x[1..], y);
      SidesOfCons(Op('-', x[0]), Script(x[1..], y));
    } else if y != [] {
      ScriptReplays(x, y[1..]);
      SidesOfCons(Op('+', y[0]), Script(x, y[1..]));
    } else {
      EmptyScript();
    }
  }

  lemma EmptyScript()
    ensures IsScript([]) && OldSide([]) == [] && NewSide([]) == []
  {}

  lemma {:induction false} ScriptCost(x: seq<string>, y: seq<string>)
    ensures |Changes(Script(x, y))| == |x| + |y| - 2 * LcsLen(x, y)
    decreases |x| + |y|
  {
    if x != [] && y != [] && x[0] == y[0] {
      ScriptCost(x[1..], y[1..]);
    } else if x != [] && (y == [] || LcsLen(x[1..], y) >= LcsLen(x, y[1..])) {
      ScriptCost(x[1..], y);
    } else if y != [] {
      ScriptCost(x, y[1..]);
    }
  }

  /** The kept lines of any script are a common subsequence of its two sides. */
  lemma {:induction false} KeptIsCommon(ops: seq<Op>) returns (s: seq<string>, f: seq<nat>, g: seq<nat>)
    requires IsScript(ops)
    ensures Embeds(s, OldSide(ops), f) && Embeds(s, NewSide(ops), g)
    ensures |OldSide(ops)| + |NewSide(ops)| == 2 * |s| + |Changes(ops)|
  {
    if ops == [] {
      s, f, g := [], [], [];
    } else {
      var s', f', g' := KeptIsCommon(ops[1..]);
      s, f, g := KeptExtends(ops[0], s', OldSide(ops[1..]), f', NewSide(ops[1..]), g');
    }
  }

  lemma KeptExtends(o: Op, s: seq<string>, x: seq<string>, f: seq<nat>, y: seq<string>, g: seq<nat>)
    returns (s': seq<string>, f': seq<nat>, g': seq<nat>)
    requires Embeds(s, x, f) && Embeds(s, y, g) && (o.mark == ' ' || o.mark == '-' || o.mark == '+')
    ensures Embeds(s', OldPart(o) + x, f') && Embeds(s', NewPart(o) + y, g')
    ensures |s'| == |s| + if o.mark == ' ' then 1 else 0
  {
    hide Embeds;
    assert o.mark != '+' ==> OldPart(o) + x != [] && (OldPart(o) + x)[1..] == x;
    assert o.mark != '-' ==> NewPart(o) + y != [] && (NewPart(o) + y)[1..] == y;
    s', f', g' := s, f, g;
    if o.mark == ' ' {
      s' := [o.line] + s;
      f' := EmbedsHead(s, OldPart(o) + x, f);
      g' := EmbedsHead(s, NewPart(o) + y, g);
    } else if o.mark == '-' {
      f' := EmbedsShift(s, OldPart(o) + x, f);
      assert NewPart(o) + y == y;
    } else {
      g' := EmbedsShift(s, NewPart(o) + y, g);
      assert OldPart(o) + x == x;
    }
  }

  /** No script turning x into y has fewer changed lines. */
  lemma ScriptIsMinimal(x: seq<string>, y: seq<string>, ops: seq<Op>)
    requires IsScript(ops) && OldSide(ops) == x && NewSide(ops) == y
    ensures |Changes(Script(x, y))| <= |Changes(ops)|
  {
    var s, f, g := KeptIsCommon(ops);
    LcsBound(s, x, f, y, g);
    ScriptCost(x, y);
  }

  ghost predicate NoRemovalAfterAddition(ops: seq<Op>) {
    forall k | 0 <= k < |ops| - 1 && ops[k].mark == '+' :: ops[k + 1].mark != '-'
  }

  /** Ties go to '-': inside a hunk every removal precedes every addition. */
  lemma {:induction false} RemovalsComeFirst(x: seq<string>, y: seq<string>)
    ensures NoRemovalAfterAddition(Script(x, y))
    decreases |x| + |y|
  {
    if x != [] && y != [] && x[0] == y[0] {
      RemovalsComeFirst(x[1..], y[1..]);
      ShiftedPairs(Op(' ', x[0]), Script(x[1..], y[1..]));
    } else if x != [] && (y == [] || LcsLen(x[1..], y) >= LcsLen(x, y[1..])) {
      RemovalsComeFirst(x[1..], y);
      ShiftedPairs(Op('-', x[0]), Script(x[1..], y));
    } else if y != [] {
      RemovalsComeFirst(x, y[1..]);
      AfterAddition(x, y);
      ShiftedPairs(Op('+', y[0]), Script(x, y[1..]));
    }
  }

  lemma ShiftedPairs(o: Op, rest: seq<Op>)
    requires NoRemovalAfterAddition(rest)
    requires o.mark == '+' && rest != [] ==> rest[0].mark != '-'
    ensures NoRemovalAfterAddition([o] + rest)
  {
    var ops := [o] + rest;
    forall k | 0 <= k < |ops| - 1 && ops[k].mark == '+' ensures ops[k + 1].mark != '-' {
      assert ops[k + 1] == rest[k];
      if k > 0 { assert ops[k] == rest[k - 1]; }
    }
  }

  lemma AfterAddition(x: seq<string>, y: seq<string>)
    requires y != [] && (x == [] || (x[0] != y[0] && LcsLen(x[1..], y) < LcsLen(x, y[1..])))
    ensures var rest := Script(x, y[1..]); rest != [] ==> rest[0].mark != '-'
  {
    if x != [] && y[1..] != [] && x[0] != y[1] {
      LcsTail(x[1..], y);
      assert LcsLen(x, y[1..]) == LcsLen(x, y[1..][1..]);
    }
  }

  // ----- formatOps

  const GAP := "  \U{2026}"

  /** Within two positions of a changed line. */
  ghost predicate Shown(ops: seq<Op>, k: int) {
    exists d | 0 <= d < |ops| :: k - 2 <= d <= k + 2 && ops[d].mark != ' '
  }

  function LineText(o: Op): string {
    [o.mark] + " " + o.line
  }

  /** What position k contributes: its line when shown, one gap mark when it opens a dropped run. */
  ghost function Piece(ops: seq<Op>, k: nat): seq<string>
    requires k < |ops|
  {
    if Shown(ops, k) then [LineText(ops[k])]
    else if k == 0 || Shown(ops, k - 1) then [GAP]
    else []
  }

  ghost function PrintedLines(ops: seq<Op>, n: nat): seq<string>
    requires n <= |ops|
  {
    if n == 0 then [] else PrintedLines(ops, n - 1) + Piece(ops, n - 1)
  }

  /** Newline-terminated lines. */
  function Unlines(ls: seq<string>): string {
    if ls == [] then "" else Terminated(ls[0]) + Unlines(ls[1..])
  }

  function Terminated(l: string): string { l + "\n" }

  lemma {:induction false} UnlinesConcat(a: seq<string>, b: seq<string>)
    ensures Unlines(a + b) == Unlines(a) + Unlines(b)
  {
    hide Terminated;
    if a == [] {
      assert a + b == b;
    } else {
      var head, rest := Terminated(a[0]), Unlines(a[1..]);
      UnlinesConcat(a[1..], b);
      ConsConcat(a, b);
      assert head + (rest + Unlines(b)) == head + rest + Unlines(b);
    }
  }

  method Changed(ops: seq<Op>, k: nat) returns (yes: bool)
    requires k < |ops|
    ensures yes == Shown(ops, k)
  {
    var d := if k - 2 > 0 then k - 2 else 0;
    var last := if |ops| - 1 < k + 2 then |ops| - 1 else k + 2;
    while d <= last
      invariant 0 <= d
      invariant forall e | 0 <= e < d && k - 2 <= e < |ops| :: ops[e].mark == ' '
      decreases last - d
    {
      if ops[d].mark != ' ' {
        return true;
      }
      d := d + 1;
    }
    yes := false;
  }

  ghost function Printed(ops: seq<Op>, n: nat): string
    requires n <= |ops|
  {
    Unlines(PrintedLines(ops, n))
  }

  lemma PrintedStep(ops: seq<Op>, k: nat)
    requires k < |ops|
    ensures Printed(ops, k + 1) == Printed(ops, k) +
              if Shown(ops, k) then [ops[k].mark] + " " + ops[k].line + "\n"
              else if k == 0 || Shown(ops, k - 1) then "  \U{2026}\n"
              else ""
  {
    hide Shown;
    UnlinesConcat(PrintedLines(ops, k), Piece(ops, k));
    if Piece(ops, k) != [] { assert Piece(ops, k)[1..] == []; }
  }

  method FormatOps(ops: seq<Op>) returns (b: string)
    ensures b == Printed(ops, |ops|)
  {
    hide Printed, Shown;
    assert Printed(ops, 0) == "" by { PrintedNothing(ops); }
    b := "";
    var gap := false;
    for k := 0 to |ops|
      invariant b == Printed(ops, k)
      invariant gap == (k > 0 && !Shown(ops, k - 1))
    {
      PrintedStep(ops, k);
      var shown := Changed(ops, k);
      if !shown {
        if !gap {
          b := b + "  \U{2026}\n";
          gap := true;
        }
        continue;
      }
      gap := false;
      b := b + ([ops[k].mark] + " " + ops[k].line + "\n");
    }
  }

  lemma PrintedNothing(ops: seq<Op>)
    ensures Printed(ops, 0) == ""
  {}

  /** A maximal run of dropped lines prints one gap mark and nothing else. */
  lemma {:induction false} OneGapPerRun(ops: seq<Op>, from: nat, to: nat)
    requires from < to <= |ops|
    requires from == 0 || Shown(ops, from - 1)
    requires forall k | from <= k < to :: !Shown(ops, k)
    ensures PrintedLines(ops, to) == PrintedLines(ops, from) + [GAP]
  {
    if to > from + 1 {
      OneGapPerRun(ops, from, to - 1);
    }
  }

  /** A maximal run of shown lines prints each of them, in order. */
  lemma {:induction false} ShownRunPrints(ops: seq<Op>, from: nat, to: nat)
    requires from <= to <= |ops|
    requires forall k | from <= k < to :: Shown(ops, k)
    ensures PrintedLines(ops, to) == PrintedLines(ops, from)
            + seq(to - from, i requires 0 <= i < to - from => LineText(ops[from + i]))
  {
    if from < to {
      ShownRunPrints(ops, from, to - 1);
    }
  }

  /** Of a run of kept lines between two changes exactly the first two and the last two are shown; at an end of the
      script, only those next to its one change. */
  lemma ContextIsTwoLines(ops: seq<Op>, from: nat, to: nat, k: nat)
    requires from <= k < to <= |ops| && forall i | from <= i < to :: ops[i].mark == ' '
    requires (from > 0 ==> ops[from - 1].mark != ' ') && (to < |ops| ==> ops[to].mark != ' ')
    ensures Shown(ops, k) <==> (from > 0 && k < from + 2) || (to < |ops| && k >= to - 2)
  {
    if from > 0 && k < from + 2 { assert k - 2 <= from - 1 && ops[from - 1].mark != ' '; }
    if to < |ops| && k >= to - 2 { assert to <= k + 2 && ops[to].mark != ' '; }
  }

  /** Reads the changed lines back out of a printed diff. */
  function ReadChanges(text: string): seq<Op> {
    ReadLines(Split(text, '\n'))
  }

  function ReadLine(l: string): seq<Op> {
    if |l| >= 2 && (l[0] == '-' || l[0] == '+') then [Op(l[0], l[2..])] else []
  }

  function ReadLines(ls: seq<string>): seq<Op> {
    if ls == [] then [] else ReadLine(ls[0]) + ReadLines(ls[1..])
  }

  lemma {:induction false} ReadLinesConcat(a: seq<string>, b: seq<string>)
    ensures ReadLines(a + b) == ReadLines(a) + ReadLines(b)
  {
    hide ReadLine;
    if a == [] {
      assert a + b == b;
    } else {
      var head, rest := ReadLine(a[0]), ReadLines(a[1..]);
      ReadLinesConcat(a[1..], b);
      ConsConcat(a, b);
      assert head + (rest + ReadLines(b)) == head + rest + ReadLines(b);
    }
  }

  lemma {:induction false} ChangesConcat(a: seq<Op>, b: seq<Op>)
    ensures Changes(a + b) == Changes(a) + Changes(b)
  {
    hide ChangePart;
    if a == [] {
      assert a + b == b;
    } else {
      var head, rest := ChangePart(a[0]), Changes(a[1..]);
      ChangesConcat(a[1..], b);
      ConsConcat(a, b);
      assert head + (rest + Changes(b)) == head + rest + Changes(b);
    }
  }

  lemma {:induction false} SplitUnlines(ls: seq<string>)
    requires forall l | l in ls :: '\n' !in l
    ensures Split(Unlines(ls), '\n') == ls + [""]
  {
    if ls != [] {
      SplitUnlines(ls[1..]);
      SplitPrefix(ls[0], "\n" + Unlines(ls[1..]), '\n');
      assert ls[0] + "\n" + Unlines(ls[1..]) == ls[0] + ("\n" + Unlines(ls[1..]));
      assert ("\n" + Unlines(ls[1..]))[1..] == Unlines(ls[1..]);
      assert ls[0] + "" == ls[0];
    }
  }

  /** Of each position, the printed piece reads back as the change there, if any. */
  lemma PieceReadsBack(ops: seq<Op>, k: nat)
    requires k < |ops| && IsScript(ops) && '\n' !in ops[k].line
    ensures forall l | l in Piece(ops, k) :: '\n' !in l
    ensures ReadLines(Piece(ops, k)) == ChangePart(ops[k])
  {
    var o := ops[k];
    assert o in ops && LineText(o)[2..] == o.line;
    if o.mark != ' ' { assert Shown(ops, k); }
  }

  lemma {:induction false} PrintedReadsBack(ops: seq<Op>, n: nat)
    requires n <= |ops| && IsScript(ops) && forall o | o in ops :: '\n' !in o.line
    ensures forall l | l in PrintedLines(ops, n) :: '\n' !in l
    ensures ReadLines(PrintedLines(ops, n)) == Changes(ops[..n])
  {
    hide Piece, ReadLine, ChangePart;
    if n > 0 {
      PrintedReadsBack(ops, n - 1);
      PieceReadsBack(ops, n - 1);
      ReadLinesConcat(PrintedLines(ops, n - 1), Piece(ops, n - 1));
      ChangesConcat(ops[..n - 1], [ops[n - 1]]);
      assert ops[..n - 1] + [ops[n - 1]] == ops[..n];
      assert [ops[n - 1]][1..] == [];
    }
  }

  /** The window never hides a change: the changed lines of a script can be read back, in order,
      from what formatOps prints. */
  lemma FormatKeepsEveryChange(ops: seq<Op>)
    requires IsScript(ops) && forall o | o in ops :: '\n' !in o.line
    ensures ReadChanges(Printed(ops, |ops|)) == Changes(ops)
  {
    hide Piece, ChangePart;
    PrintedReadsBack(ops, |ops|);
    SplitUnlines(PrintedLines(ops, |ops|));
    ReadLinesConcat(PrintedLines(ops, |ops|), [""]);
    assert ops[..|ops|] == ops;
  }

  // ----- lineDiff

  function SplitLines(s: string): seq<string> {
    if s == "" then [] else Split(TrimSuffix(s, "\n"), '\n')
  }

  ghost function LineDiff(live: string, rendered: string): string {
    var ops := Script(SplitLines(live), SplitLines(rendered));
    Printed(ops, |ops|)
  }

  lemma {:induction false} SidesCover(ops: seq<Op>, o: Op)
    requires IsScript(ops) && o in ops
    ensures o.line in OldSide(ops) || o.line in NewSide(ops)
  {
    if o != ops[0] {
      SidesCover(ops[1..], o);
    }
  }

  /** The text with its last line terminated. */
  function Ended(text: string): string {
    if text == "" || text[|text| - 1] == '\n' then text else text + "\n"
  }

  ghost predicate NoBreaks(lines: seq<string>) {
    forall l | l in lines :: '\n' !in l
  }

  lemma {:induction false} UnlinesJoin(lines: seq<string>)
    requires lines != []
    ensures Unlines(lines) == Join(lines, "\n") + "\n"
  {
    if |lines| == 1 {
      assert lines[1..] == [] && lines[0] + "\n" + "" == lines[0] + "\n";
    } else {
      UnlinesJoin(lines[1..]);
      var rest := Join(lines[1..], "\n");
      assert lines[0] + "\n" + (rest + "\n") == lines[0] + "\n" + rest + "\n";
    }
  }

  /** The lines of a text, each terminated, spell it; and no other lines without a break do. */
  lemma SplitLinesSpell(text: string, lines: seq<string>)
    ensures NoBreaks(SplitLines(text)) && Unlines(SplitLines(text)) == Ended(text)
    ensures NoBreaks(lines) && Unlines(lines) == Ended(text) ==> lines == SplitLines(text)
  {
    var own := SplitLines(text);
    if text != "" {
      var body := TrimSuffix(text, "\n");
      SplitPiecesFree(body, '\n');
      JoinSplit(body, '\n');
      UnlinesJoin(own);
      assert text[|text| - 1..] == [text[|text| - 1]];
      assert body + "\n" == Ended(text);
    }
    if NoBreaks(lines) && Unlines(lines) == Ended(text) {
      SplitUnlines(lines);
      SplitUnlines(own);
      assert lines == (lines + [""])[..|lines|] && own == (own + [""])[..|own|];
    }
  }

  /** A script from the lines of one text to the lines of another. */
  ghost predicate Rewrites(ops: seq<Op>, live: string, rendered: string) {
    && IsScript(ops) && NoBreaks(OldSide(ops)) && NoBreaks(NewSide(ops))
    && Unlines(OldSide(ops)) == Ended(live) && Unlines(NewSide(ops)) == Ended(rendered)
  }

  /** The body is the printed form of a script between the two texts that no other beats, and every changed line of
      that script reads back from it. */
  ghost predicate ShowsChange(body: string, live: string, rendered: string) {
    exists ops ::
      && Rewrites(ops, live, rendered) && body == Printed(ops, |ops|) && ReadChanges(body) == Changes(ops)
      && forall other | Rewrites(other, live, rendered) :: |Changes(ops)| <= |Changes(other)|
  }

  /** What a printed line diff shows is exactly the change lines of a minimal script between the two texts. */
  lemma LineDiffShowsMinimalChange(live: string, rendered: string)
    ensures ShowsChange(LineDiff(live, rendered), live, rendered)
  {
    hide OldSide, NewSide, Changes, Unlines, SplitLines, Ended, ReadChanges, Printed, Script, IsScript, NoBreaks;
    var x, y := SplitLines(live), SplitLines(rendered);
    var ops := Script(x, y);
    ScriptReplays(x, y);
    SplitLinesSpell(live, x);
    SplitLinesSpell(rendered, y);
    ScriptLinesUnbroken(ops);
    FormatKeepsEveryChange(ops);
    forall other | Rewrites(other, live, rendered) ensures |Changes(ops)| <= |Changes(other)| {
      SplitLinesSpell(live, OldSide(other));
      SplitLinesSpell(rendered, NewSide(other));
      ScriptIsMinimal(x, y, other);
    }
    assert Rewrites(ops, live, rendered);
  }

  lemma ScriptLinesUnbroken(ops: seq<Op>)
    requires IsScript(ops) && NoBreaks(OldSide(ops)) && NoBreaks(NewSide(ops))
    ensures forall o | o in ops :: '\n' !in o.line
  {
    hide OldSide, NewSide, IsScript;
    forall o | o in ops ensures '\n' !in o.line {
      SidesCover(ops, o);
    }
  }

  /** It shows no changed line exactly when the texts differ at most in the newline at the end. */
  lemma NoChangeShownIff(live: string, rendered: string)
    ensures ReadChanges(LineDiff(live, rendered)) == [] <==> Ended(live) == Ended(rendered)
  {
    hide OldSide, NewSide, Unlines, SplitLines, Ended, ReadChanges, Printed, Script, LineDiff, NoBreaks, Changes;
    LineDiffShowsMinimalChange(live, rendered);
    var ops :| Rewrites(ops, live, rendered) && ReadChanges(LineDiff(live, rendered)) == Changes(ops)
        && forall other | Rewrites(other, live, rendered) :: |Changes(ops)| <= |Changes(other)|;
    if Changes(ops) == [] {
      UnchangedSides(ops);
    }
    if Ended(live) == Ended(rendered) {
      var kept := AllKept(SplitLines(live));
      SplitLinesSpell(live, []);
      KeptSides(SplitLines(live));
      assert Rewrites(kept, live, rendered);
    }
  }

  function AllKept(lines: seq<string>): seq<Op> {
    if lines == [] then [] else [Op(' ', lines[0])] + AllKept(lines[1..])
  }

  lemma {:induction false} KeptSides(lines: seq<string>)
    ensures var ops := AllKept(lines); IsScript(ops) && OldSide(ops) == lines == NewSide(ops) && Changes(ops) == []
  {
    if lines != [] { KeptSides(lines[1..]); }
  }

  lemma {:induction false} UnchangedSides(ops: seq<Op>)
    requires IsScript(ops) && Changes(ops) == []
    ensures OldSide(ops) == NewSide(ops)
  {
    if ops != [] { UnchangedSides(ops[1..]); }
  }

  // ----- documents

  /** One document in normal form. */
  datatype ConfigDoc = ConfigDoc(key: string, yaml: string)

  function Keys(docs: seq<ConfigDoc>): seq<string> {
    seq(|docs|, i requires 0 <= i < |docs| => docs[i].key)
  }

  ghost predicate SortedByKey(docs: seq<ConfigDoc>) {
    forall i, j | 0 <= i < j < |docs| :: LexLe(docs[i].key, docs[j].key)
  }

  /** byKey: a later document with the same key wins. */
  function ByKey(docs: seq<ConfigDoc>): map<string, string> {
    if docs == [] then map[]
    else ByKey(docs[..|docs| - 1])[docs[|docs| - 1].key := docs[|docs| - 1].yaml]
  }

  /** A Go map read: a missing key reads as the empty string. */
  function Read(m: map<string, string>, k: string): string {
    if k in m then m[k] else ""
  }

  ghost function DiffText(keys: seq<string>, l: map<string, string>, r: map<string, string>): string {
    if keys == [] then ""
    else
      var k := keys[|keys| - 1];
      DiffText(keys[..|keys| - 1], l, r) +
      if Read(l, k) == Read(r, k) then "" else "@@ " + k + "\n" + LineDiff(Read(l, k), Read(r, k))
  }

  /** What one key adds to the diff: nothing when both sides read alike, else its header and the change from the live
      text to the rendered one. */
  ghost predicate Section(text: string, key: string, live: string, rendered: string) {
    if live == rendered then text == ""
    else exists body :: text == "@@ " + key + "\n" + body && ShowsChange(body, live, rendered)
  }

  ghost predicate Sections(parts: seq<string>, keys: seq<string>, l: map<string, string>, r: map<string, string>) {
    |parts| == |keys| && forall i | 0 <= i < |keys| :: Section(parts[i], keys[i], Read(l, keys[i]), Read(r, keys[i]))
  }

  function Concat(parts: seq<string>): string {
    if parts == [] then "" else Concat(parts[..|parts| - 1]) + parts[|parts| - 1]
  }

  lemma {:induction false} DiffTextSections(keys: seq<string>, l: map<string, string>, r: map<string, string>)
    returns (parts: seq<string>)
    ensures Sections(parts, keys, l, r) && DiffText(keys, l, r) == Concat(parts)
  {
    hide LineDiff, ShowsChange;
    if keys == [] {
      parts := [];
    } else {
      var n := |keys| - 1;
      var k := keys[n];
      var before := DiffTextSections(keys[..n], l, r);
      var last := if Read(l, k) == Read(r, k) then "" else "@@ " + k + "\n" + LineDiff(Read(l, k), Read(r, k));
      LineDiffShowsMinimalChange(Read(l, k), Read(r, k));
      parts := before + [last];
      assert parts[..n] == before;
      forall i | 0 <= i < |keys| ensures Section(parts[i], keys[i], Read(l, keys[i]), Read(r, keys[i])) {
        if i < n { assert keys[..n][i] == keys[i] && parts[i] == before[i]; }
      }
    }
  }

  /** The keys of either side, each once. */
  method UnionKeys(l: map<string, string>, r: map<string, string>) returns (keys: seq<string>)
    ensures Distinct(keys) && Elems(keys) == l.Keys + r.Keys
  {
    keys := [];
    var todo := l.Keys;
    while todo != {}
      invariant todo <= l.Keys && Elems(keys) == l.Keys - todo && Distinct(keys)
      decreases todo
    {
      var k :| k in todo;
      KeyAppended(keys, k);
      keys, todo := keys + [k], todo - {k};
    }
    todo := r.Keys;
    while todo != {}
      invariant todo <= r.Keys && Elems(keys) == l.Keys + (r.Keys - todo) && Distinct(keys)
      decreases todo
    {
      var k :| k in todo;
      if k !in l {
        KeyAppended(keys, k);
        keys := keys + [k];
      }
      todo := todo - {k};
    }
  }

  /** configDiff on the two redacted, normalized document lists. */
  method ConfigDiff(live: seq<ConfigDoc>, rendered: seq<ConfigDoc>) returns (text: string)
    ensures text == DiffText(SortedSet(ByKey(live).Keys + ByKey(rendered).Keys), ByKey(live), ByKey(rendered))
    ensures exists keys, parts ::
              && StrictlySorted(keys) && Elems(keys) == Elems(Keys(live)) + Elems(Keys(rendered))
              && Sections(parts, keys, ByKey(live), ByKey(rendered)) && text == Concat(parts)
  {
    hide LineDiff, Sections, Concat;
    var l, r := ByKey(live), ByKey(rendered);
    var keys := UnionKeys(l, r);
    SortedOnce(keys);
    keys := Sort(keys);
    text := "";
    for n := 0 to |keys|
      invariant text == DiffText(keys[..n], l, r)
    {
      var k := keys[n];
      DiffTextStep(keys, n, l, r);
      if Read(l, k) == Read(r, k) {
        continue;
      }
      text := text + "@@ " + k + "\n";
      var body := PrintLineDiff(Read(l, k), Read(r, k));
      text := text + body;
    }
    assert keys[..|keys|] == keys;
    ByKeyRedacted(live, y => y);
    ByKeyRedacted(rendered, y => y);
    ghost var parts := DiffTextSections(keys, l, r);
  }

  method PrintLineDiff(live: string, rendered: string) returns (text: string)
    ensures text == LineDiff(live, rendered)
  {
    var ops := EditScript(SplitLines(live), SplitLines(rendered));
    text := FormatOps(ops);
  }

  lemma DiffTextStep(keys: seq<string>, n: nat, l: map<string, string>, r: map<string, string>)
    requires n < |keys|
    ensures var k, before, after := keys[n], DiffText(keys[..n], l, r), DiffText(keys[..n + 1], l, r);
            if Read(l, k) == Read(r, k) then after == before
            else after == before + "@@ " + k + "\n" + LineDiff(Read(l, k), Read(r, k))
  {
    hide LineDiff;
    assert keys[..n + 1][..n] == keys[..n];
    var k, before := keys[n], DiffText(keys[..n], l, r);
    if Read(l, k) == Read(r, k) {
      assert before + "" == before;
    } else {
      var body := LineDiff(Read(l, k), Read(r, k));
      assert before + ("@@ " + k + "\n" + body) == before + "@@ " + k + "\n" + body;
    }
  }

  lemma {:induction false} DiffTextEmpty(keys: seq<string>, l: map<string, string>, r: map<string, string>)
    ensures DiffText(keys, l, r) == "" <==> forall k | k in keys :: Read(l, k) == Read(r, k)
  {
    if keys != [] {
      DiffTextEmpty(keys[..|keys| - 1], l, r);
      assert keys == keys[..|keys| - 1] + [keys[|keys| - 1]];
    }
  }

  /** The diff is empty exactly when no document reads differently, a missing one reading as empty. */
  lemma DiffEmptyIff(live: seq<ConfigDoc>, rendered: seq<ConfigDoc>)
    ensures var l, r := ByKey(live), ByKey(rendered);
            DiffText(SortedSet(l.Keys + r.Keys), l, r) == "" <==> forall k :: Read(l, k) == Read(r, k)
  {
    var l, r := ByKey(live), ByKey(rendered);
    var keys := SortedSet(l.Keys + r.Keys);
    DiffTextEmpty(keys, l, r);
    forall k ensures k in keys <==> k in l || k in r {
      assert k in Elems(keys) <==> k in l.Keys + r.Keys;
    }
  }

  /** The printed form: every document with its secrets replaced. */
  function Redacted(docs: seq<ConfigDoc>, redact: string -> string): seq<ConfigDoc> {
    seq(|docs|, i requires 0 <= i < |docs| => ConfigDoc(docs[i].key, redact(docs[i].yaml)))
  }

  lemma {:induction false} ByKeyRedacted(docs: seq<ConfigDoc>, redact: string -> string)
    ensures ByKey(Redacted(docs, redact)).Keys == ByKey(docs).Keys == Elems(Keys(docs))
    ensures forall k | k in ByKey(docs) :: ByKey(Redacted(docs, redact))[k] == redact(ByKey(docs)[k])
  {
    if docs != [] {
      var n := |docs| - 1;
      ByKeyRedacted(docs[..n], redact);
      assert Redacted(docs, redact)[..n] == Redacted(docs[..n], redact);
      assert Keys(docs) == Keys(docs[..n]) + [docs[n].key];
      ElemsConcat(Keys(docs[..n]), [docs[n].key]);
    }
  }

  lemma {:induction false} ByKeyReads(docs: seq<ConfigDoc>, i: nat)
    requires i < |docs| && Distinct(Keys(docs))
    ensures docs[i].key in ByKey(docs) && ByKey(docs)[docs[i].key] == docs[i].yaml
  {
    var n := |docs| - 1;
    if i < n {
      assert Keys(docs[..n]) == Keys(docs)[..n];
      ByKeyReads(docs[..n], i);
      assert Keys(docs)[i] != Keys(docs)[n];
    }
  }

  /** Normal forms with unique keys are equal lists exactly when they are equal as key-to-text maps:
      document order never counts. */
  lemma NormalFormsEqualIff(a: seq<ConfigDoc>, b: seq<ConfigDoc>)
    requires SortedByKey(a) && SortedByKey(b) && Distinct(Keys(a)) && Distinct(Keys(b))
    ensures a == b <==> ByKey(a) == ByKey(b)
  {
    ByKeyRedacted(a, y => y);
    ByKeyRedacted(b, y => y);
    if ByKey(a) == ByKey(b) {
      assert forall i, j | 0 <= i < j < |a| :: Keys(a)[i] != Keys(a)[j];
      assert forall i, j | 0 <= i < j < |b| :: Keys(b)[i] != Keys(b)[j];
      StrictlySortedUnique(Keys(a), Keys(b));
      assert |a| == |Keys(a)| == |b|;
      forall i | 0 <= i < |a| ensures a[i] == b[i] {
        assert Keys(a)[i] == Keys(b)[i];
        ByKeyReads(a, i);
        ByKeyReads(b, i);
      }
    }
  }

  /** Sorted by key, and no key twice. */
  ghost predicate NormalForm(docs: seq<ConfigDoc>) {
    SortedByKey(docs) && Distinct(Keys(docs))
  }

  /** What configDiff prints for two normal forms. */
  ghost function PrintedDiff(a: seq<ConfigDoc>, b: seq<ConfigDoc>, redact: string -> string): string {
    var l, r := ByKey(Redacted(a, redact)), ByKey(Redacted(b, redact));
    DiffText(SortedSet(l.Keys + r.Keys), l, r)
  }

  lemma PrintsNothingIff(a: seq<ConfigDoc>, b: seq<ConfigDoc>, redact: string -> string)
    ensures PrintedDiff(a, b, redact) == "" <==>
              forall k :: Read(ByKey(Redacted(a, redact)), k) == Read(ByKey(Redacted(b, redact)), k)
  {
    DiffEmptyIff(Redacted(a, redact), Redacted(b, redact));
  }

  ghost predicate TextsIn(docs: seq<ConfigDoc>, texts: iset<string>) {
    forall d | d in docs :: d.yaml in texts
  }

  /** Redaction keeps the texts apart and leaves none empty. */
  ghost predicate Distinguishes(redact: string -> string, texts: iset<string>) {
    && (forall s, t | s in texts && t in texts && redact(s) == redact(t) :: s == t)
    && forall s | s in texts :: redact(s) != ""
  }

  lemma NoDriftIsEqual(a: seq<ConfigDoc>, b: seq<ConfigDoc>, redact: string -> string, texts: iset<string>)
    requires NormalForm(a) && NormalForm(b) && TextsIn(a, texts) && TextsIn(b, texts) && Distinguishes(redact, texts)
    requires PrintedDiff(a, b, redact) == ""
    ensures a == b
  {
    hide DiffText, LineDiff, SortedByKey, Distinct, PrintedDiff;
    PrintsNothingIff(a, b, redact);
    ByKeyRedacted(a, redact);
    ByKeyRedacted(b, redact);
    var l, r := ByKey(Redacted(a, redact)), ByKey(Redacted(b, redact));
    forall k ensures k in ByKey(a) <==> k in ByKey(b)
             ensures k in ByKey(a) && k in ByKey(b) ==> ByKey(a)[k] == ByKey(b)[k] {
      assert Read(l, k) == Read(r, k);
      if k in ByKey(a) { KeyHasDoc(a, k); }
      if k in ByKey(b) { KeyHasDoc(b, k); }
    }
    NormalFormsEqualIff(a, b);
  }

  /** An empty diff means equal configs, for all configs over a set of document texts, exactly when redaction
      keeps those texts apart and leaves none of them empty; equal configs always print an empty diff. */
  lemma EmptyDiffMeansEqual(redact: string -> string, texts: iset<string>)
    ensures Distinguishes(redact, texts) <==>
              forall a, b | NormalForm(a) && NormalForm(b) && TextsIn(a, texts) && TextsIn(b, texts) ::
                PrintedDiff(a, b, redact) == "" ==> a == b
    ensures forall a :: PrintedDiff(a, a, redact) == ""
  {
    hide PrintedDiff, NormalForm, TextsIn;
    if Distinguishes(redact, texts) {
      forall a, b | NormalForm(a) && NormalForm(b) && TextsIn(a, texts) && TextsIn(b, texts)
          && PrintedDiff(a, b, redact) == ""
        ensures a == b
      {
        NoDriftIsEqual(a, b, redact, texts);
      }
    } else if s, t :| s in texts && t in texts && redact(s) == redact(t) && s != t {
      AlikeOnceRedacted(s, t, redact, texts);
    } else {
      var s :| s in texts && redact(s) == "";
      EmptyOnceRedacted(s, redact, texts);
    }
    forall a ensures PrintedDiff(a, a, redact) == "" { PrintsNothingIff(a, a, redact); }
  }

  lemma AlikeOnceRedacted(s: string, t: string, redact: string -> string, texts: iset<string>)
    requires s in texts && t in texts && redact(s) == redact(t) && s != t
    ensures exists a, b :: NormalForm(a) && NormalForm(b) && TextsIn(a, texts) && TextsIn(b, texts)
              && PrintedDiff(a, b, redact) == "" && a != b
  {
    var a, b := [ConfigDoc("v1alpha1", s)], [ConfigDoc("v1alpha1", t)];
    assert Redacted(a, redact) == Redacted(b, redact);
    PrintsNothingIff(a, b, redact);
    assert a[0] != b[0] && NormalForm(a) && NormalForm(b) && TextsIn(a, texts) && TextsIn(b, texts);
  }

  lemma OneDocReads(d: ConfigDoc, redact: string -> string)
    ensures ByKey(Redacted([d], redact)) == map[d.key := redact(d.yaml)] && ByKey(Redacted([], redact)) == map[]
  {
    assert Redacted([d], redact) == [ConfigDoc(d.key, redact(d.yaml))];
    assert [ConfigDoc(d.key, redact(d.yaml))][..0] == [];
  }

  lemma EmptyOnceRedacted(s: string, redact: string -> string, texts: iset<string>)
    requires s in texts && redact(s) == ""
    ensures exists a, b :: NormalForm(a) && NormalForm(b) && TextsIn(a, texts) && TextsIn(b, texts)
              && PrintedDiff(a, b, redact) == "" && a != b
  {
    hide PrintedDiff, Redacted, ByKey;
    var a, b: seq<ConfigDoc> := [ConfigDoc("v1alpha1", s)], [];
    OneDocReads(a[0], redact);
    PrintsNothingIff(a, b, redact);
    assert NormalForm(a) && NormalForm(b) && TextsIn(a, texts) && TextsIn(b, texts);
  }

  /** A key reads as the last document that has it. */
  lemma {:induction false} KeyHasDoc(docs: seq<ConfigDoc>, k: string)
    requires k in ByKey(docs)
    ensures exists i | 0 <= i < |docs| ::
              docs[i] == ConfigDoc(k, ByKey(docs)[k]) && forall j | i < j < |docs| :: docs[j].key != k
  {
    var n := |docs| - 1;
    if docs[n].key != k {
      KeyHasDoc(docs[..n], k);
      var i :| 0 <= i < n && docs[..n][i] == ConfigDoc(k, ByKey(docs[..n])[k])
          && forall j | i < j < n :: docs[..n][j].key != k;
      assert docs[i] == docs[..n][i];
      forall j | i < j < |docs| ensures docs[j].key != k {
        if j < n { assert docs[..n][j] == docs[j]; }
      }
    }
  }

  // ----- a changed secret

  const SECRET_FIELD := "token: "
  const REDACTED := "******"

  /** One line with the value of its secret field replaced. */
  function RedactLine(l: string): string {
    if SECRET_FIELD <= l then SECRET_FIELD + REDACTED else l
  }

  function RedactLines(ls: seq<string>): seq<string> {
    seq(|ls|, i requires 0 <= i < |ls| => RedactLine(ls[i]))
  }

  function RedactSecrets(text: string): string {
    Join(RedactLines(Split(text, '\n')), "\n")
  }

  function WithToken(token: string, rest: string): string {
    SECRET_FIELD + token + "\n" + rest
  }

  lemma TokenRedacted(token: string, rest: string)
    requires '\n' !in token
    ensures RedactSecrets(WithToken(token, rest)) == SECRET_FIELD + REDACTED + "\n" + RedactSecrets(rest)
  {
    var first, lines := SECRET_FIELD + token, Split(rest, '\n');
    SplitPrefix(first, "\n" + rest, '\n');
    assert WithToken(token, rest) == first + ("\n" + rest);
    assert ("\n" + rest)[1..] == rest;
    assert Split("\n" + rest, '\n') == [""] + lines;
    assert first + "" == first;
    assert Split(WithToken(token, rest), '\n') == [first] + lines;
    assert first[..|SECRET_FIELD|] == SECRET_FIELD;
    assert RedactLines([first] + lines) == [SECRET_FIELD + REDACTED] + RedactLines(lines);
    assert ([SECRET_FIELD + REDACTED] + RedactLines(lines))[1..] == RedactLines(lines);
  }

  /** Two configs that differ in a secret field only are drift that prints an empty diff. */
  lemma SecretDriftPrintsNothing(key: string, x: string, y: string, rest: string)
    requires x != y && '\n' !in x && '\n' !in y
    ensures var a, b := [ConfigDoc(key, WithToken(x, rest))], [ConfigDoc(key, WithToken(y, rest))];
            a != b && PrintedDiff(a, b, RedactSecrets) == ""
  {
    hide RedactSecrets;
    TokenRedacted(x, rest);
    TokenRedacted(y, rest);
    var a, b := [ConfigDoc(key, WithToken(x, rest))], [ConfigDoc(key, WithToken(y, rest))];
    assert Redacted(a, RedactSecrets) == Redacted(b, RedactSecrets);
    PrintsNothingIff(a, b, RedactSecrets);
    if WithToken(x, rest) == WithToken(y, rest) { TokensApart(x, y, rest); }
    assert a[0] != b[0];
  }

  lemma TokensApart(x: string, y: string, rest: string)
    requires WithToken(x, rest) == WithToken(y, rest)
    ensures x == y
  {
    var s, t := WithToken(x, rest), WithToken(y, rest);
    assert s[|SECRET_FIELD|..|s| - 1 - |rest|] == x && t[|SECRET_FIELD|..|t| - 1 - |rest|] == y;
  }
}
