/** From a generated machine config to a template and back (talos/machineconfig.go's templatize,
    emit/nodeconfig.go's renderMachineConfig): sequential substitution, undone by template execution. */
module Templating {
  import opened Common
  import opened Text

  // ----- placeholders and var keys

  const HOSTNAME_PLACEHOLDER := "bootstrap-hostname-placeholder"
  const HOSTNAME_KEY := "hostname"
  const ROLE_KEY := "role"
  const INSTALL_IMAGE_KEY := "install_image"
  /** The default schematic's identifier, in groups of sixteen digits. */
  const VANILLA_SCHEMATIC := "376567988ad37013" + "8ad8b2698212367b" + "8edcb69b5fd68c80" + "be1f2ec7d603b4ba"

  function MACVarKey(slot: string): string { slot + "_mac" }

  function AddressVarKey(slot: string): string { slot + "_address" }

  const ACTION_OPEN := "{{ index .Vars \""
  const ACTION_CLOSE := "\" }}"

  function VarExpr(key: string): string { ACTION_OPEN + key + ACTION_CLOSE }

  function Itoa(n: nat): string {
    if n < 10 then ['0' + n as char] else Itoa(n / 10) + ['0' + (n % 10) as char]
  }

  function MACPlaceholder(slot: string): string { "bootstrap-" + slot + "-mac-placeholder" }

  function AddressPlaceholder(i: nat): string { "203.0.113." + Itoa(i) + "/32" }

  function ResolveSchematicID(id: string): string {
    if id != "" then id else VANILLA_SCHEMATIC
  }

  function InstallImage(schematic: string, version: string): string {
    "factory.talos.dev/installer/" + ResolveSchematicID(schematic) + ":" + version
  }

  /** What a class's config fixes about one slot; its MAC and address vary per node. */
  datatype SlotShape = SlotShape(slot: string, dhcp: bool, mtu: int)

  /** One substitution: a value baked into the config, and the var whose expression replaces it. */
  datatype Swap = Swap(value: string, key: string)

  function SlotSwaps(shape: seq<SlotShape>, n: nat): seq<Swap>
    requires n <= |shape|
  {
    if n == 0 then []
    else
      var s := shape[n - 1];
      SlotSwaps(shape, n - 1) + [Swap(MACPlaceholder(s.slot), MACVarKey(s.slot))]
      + if s.dhcp then [] else [Swap(AddressPlaceholder(n - 1), AddressVarKey(s.slot))]
  }

  function Swaps(image: string, shape: seq<SlotShape>): seq<Swap> {
    [Swap(HOSTNAME_PLACEHOLDER, HOSTNAME_KEY), Swap(image, INSTALL_IMAGE_KEY)]
    + if |shape| > 1 then SlotSwaps(shape, |shape|) else []
  }

  // ----- templatize

  /** The substitutions in order; the error names the first value that is missing. */
  function SwapAll(data: string, swaps: seq<Swap>): Result<string, string>
    requires forall s | s in swaps :: s.value != ""
    decreases |swaps|
  {
    if swaps == [] then Ok(data)
    else if !Contains(data, swaps[0].value) then Err(swaps[0].value)
    else SwapAll(ReplaceAll(data, swaps[0].value, VarExpr(swaps[0].key)), swaps[1..])
  }

  lemma SwapValuesNonEmpty(image: string, shape: seq<SlotShape>)
    requires image != ""
    ensures forall s | s in Swaps(image, shape) :: s.value != ""
  {
    SlotSwapValues(shape, |shape|);
  }

  lemma {:induction false} SlotSwapValues(shape: seq<SlotShape>, n: nat)
    requires n <= |shape|
    ensures forall s | s in SlotSwaps(shape, n) :: '-' in s.value || '/' in s.value
  {
    if n > 0 {
      SlotSwapValues(shape, n - 1);
      assert MACPlaceholder(shape[n - 1].slot)[9] == '-';
      var a := AddressPlaceholder(n - 1);
      assert a[|a| - 3] == '/';
    }
  }

  method SwapList(image: string, shape: seq<SlotShape>) returns (swaps: seq<Swap>)
    ensures swaps == Swaps(image, shape)
  {
    hide MACPlaceholder, AddressPlaceholder, MACVarKey, AddressVarKey;
    swaps := [Swap(HOSTNAME_PLACEHOLDER, HOSTNAME_KEY), Swap(image, INSTALL_IMAGE_KEY)];
    if |shape| > 1 {
      ghost var fixed := swaps;
      for i := 0 to |shape|
        invariant swaps == fixed + SlotSwaps(shape, i)
      {
        var s := shape[i];
        swaps := swaps + [Swap(MACPlaceholder(s.slot), MACVarKey(s.slot))];
        if !s.dhcp {
          swaps := swaps + [Swap(AddressPlaceholder(i), AddressVarKey(s.slot))];
        }
      }
    }
  }

  method Templatize(data: string, image: string, shape: seq<SlotShape>) returns (r: Result<string, string>)
    requires image != ""
    ensures (forall s | s in Swaps(image, shape) :: s.value != "") && r == SwapAll(data, Swaps(image, shape))
  {
    hide Contains, ReplaceAll, VarExpr, MACPlaceholder, AddressPlaceholder, MACVarKey, AddressVarKey, Swaps;
    SwapValuesNonEmpty(image, shape);
    var swaps := SwapList(image, shape);
    var text := data;
    for i := 0 to |swaps|
      invariant SwapAll(text, swaps[i..]) == SwapAll(data, swaps)
    {
      SwapAllStep(text, swaps, i);
      if !Contains(text, swaps[i].value) {
        return Err(swaps[i].value);
      }
      text := ReplaceAll(text, swaps[i].value, VarExpr(swaps[i].key));
    }
    assert swaps[|swaps|..] == [];
    r := Ok(text);
  }

  // ----- text as literals and holes

  datatype Seg = Lit(c: char) | Hole(k: nat)

  /** The text with hole k filled by sub[k]. */
  function Fill(segs: seq<Seg>, sub: seq<string>): string {
    if segs == [] then ""
    else SegText(segs[0], sub) + Fill(segs[1..], sub)
  }

  function SegText(s: Seg, sub: seq<string>): string {
    match s
    case Lit(c) => [c]
    case Hole(k) => if k < |sub| then sub[k] else ""
  }

  function Lits(s: string): seq<Seg> {
    seq(|s|, i requires 0 <= i < |s| => Lit(s[i]))
  }

  predicate Spells(segs: seq<Seg>, v: string) {
    |v| <= |segs| && segs[..|v|] == Lits(v)
  }

  /** Turns each leftmost literal occurrence of v into hole k. */
  function Mark(segs: seq<Seg>, v: string, k: nat): seq<Seg>
    requires v != ""
  {
    if segs == [] then []
    else if Spells(segs, v) then [Hole(k)] + Mark(segs[|v|..], v, k)
    else [segs[0]] + Mark(segs[1..], v, k)
  }

  lemma {:induction false} FillConcat(a: seq<Seg>, b: seq<Seg>, sub: seq<string>)
    ensures Fill(a + b, sub) == Fill(a, sub) + Fill(b, sub)
  {
    hide SegText;
    if a == [] {
      assert a + b == b;
    } else {
      var head, rest := SegText(a[0], sub), Fill(a[1..], sub);
      FillConcat(a[1..], b, sub);
      ConsConcat(a, b);
      assert head + (rest + Fill(b, sub)) == head + rest + Fill(b, sub);
    }
  }

  lemma {:induction false} FillLits(s: string, sub: seq<string>)
    ensures Fill(Lits(s), sub) == s
  {
    if s != "" {
      FillLits(s[1..], sub);
      assert Lits(s)[1..] == Lits(s[1..]);
    }
  }

  lemma FillSpelled(segs: seq<Seg>, v: string, sub: seq<string>)
    requires Spells(segs, v)
    ensures Fill(segs, sub) == v + Fill(segs[|v|..], sub)
  {
    assert segs == Lits(v) + segs[|v|..];
    FillConcat(Lits(v), segs[|v|..], sub);
    FillLits(v, sub);
  }

  /** A var expression: opens and closes with braces and does not contain v. */
  predicate Blocks(e: string, v: string) {
    |e| >= 2 && e[0] == '{' && e[|e| - 1] == '}' && !Contains(e, v)
  }

  predicate BraceFree(v: string) {
    '{' !in v && '}' !in v
  }

  /** Every hole is filled by an expression that keeps v out. */
  ghost predicate HolesBlock(segs: seq<Seg>, sub: seq<string>, v: string) {
    forall s | s in segs && s.Hole? :: s.k < |sub| && Blocks(sub[s.k], v)
  }

  lemma {:induction false} PrefixIsSpelled(segs: seq<Seg>, sub: seq<string>, v: string, whole: string)
    requires BraceFree(v) && HolesBlock(segs, sub, whole)
    requires v <= Fill(segs, sub)
    ensures Spells(segs, v)
  {
    if v != "" {
      var s := segs[0];
      assert v[0] == Fill(segs, sub)[0];
      if s.Hole? {
        assert false;
      } else {
        TailIsPrefix(v, s.c, Fill(segs[1..], sub));
        PrefixIsSpelled(segs[1..], sub, v[1..], whole);
        assert segs[..|v|] == [s] + segs[1..][..|v| - 1];
        assert Lits(v) == [Lit(v[0])] + Lits(v[1..]);
      }
    }
  }

  lemma TailIsPrefix(v: string, c: char, t: string)
    requires v != "" && v <= [c] + t
    ensures v[0] == c && v[1..] <= t
  {
    assert forall i | 0 <= i < |v[1..]| :: v[1..][i] == ([c] + t)[i + 1] == t[i];
  }

  lemma StartsInside(e: string, t: string, v: string, o: nat)
    requires o + |v| <= |e| && v <= (e + t)[o..]
    ensures Contains(e, v)
  {
    var u := (e + t)[o..];
    assert forall i | 0 <= i < |v| :: v[i] == u[i] == e[o + i];
    assert OccursAt(e, v, o);
  }

  lemma StartStraddles(e: string, t: string, v: string, o: nat)
    requires o < |e| < o + |v| && v <= (e + t)[o..]
    ensures e[|e| - 1] in v
  {
    var i := |e| - 1 - o;
    assert v[i] == (e + t)[o..][i];
  }

  lemma NoStartInside(e: string, t: string, v: string, o: nat)
    requires Blocks(e, v) && BraceFree(v) && v != "" && o < |e|
    ensures !(v <= (e + t)[o..])
  {
    if v <= (e + t)[o..] {
      if o + |v| <= |e| { StartsInside(e, t, v, o); } else { StartStraddles(e, t, v, o); }
    }
  }

  lemma {:induction false} ReplaceSkips(e: string, t: string, v: string, n: string)
    requires v != "" && forall o | 0 <= o < |e| :: !(v <= (e + t)[o..])
    ensures ReplaceAll(e + t, v, n) == e + ReplaceAll(t, v, n)
  {
    if e == "" {
      assert e + t == t;
    } else {
      assert (e + t)[0..] == e + t;
      assert !(v <= (e + t)[0..]);
      SkipRest(e, t, v);
      ReplaceSkips(e[1..], t, v, n);
      ReplaceHead(e, t, v, n);
      assert [e[0]] + (e[1..] + ReplaceAll(t, v, n)) == e + ReplaceAll(t, v, n);
    }
  }

  lemma SkipRest(e: string, t: string, v: string)
    requires e != "" && forall o | 0 <= o < |e| :: !(v <= (e + t)[o..])
    ensures forall o | 0 <= o < |e[1..]| :: !(v <= (e[1..] + t)[o..])
  {
    forall o | 0 <= o < |e[1..]| ensures !(v <= (e[1..] + t)[o..]) {
      assert (e[1..] + t)[o..] == (e + t)[o + 1..];
      assert !(v <= (e + t)[o + 1..]);
    }
  }

  lemma ReplaceHead(e: string, t: string, v: string, n: string)
    requires v != "" && e != "" && !(v <= e + t)
    ensures ReplaceAll(e + t, v, n) == [e[0]] + ReplaceAll(e[1..] + t, v, n)
  {
    assert (e + t)[1..] == e[1..] + t;
  }

  /** Replacing v in the text is marking v in the segments. */
  lemma {:induction false} ReplaceIsMark(segs: seq<Seg>, v: string, k: nat, sub: seq<string>)
    requires v != "" && BraceFree(v) && HolesBlock(segs, sub, v) && k < |sub|
    ensures ReplaceAll(Fill(segs, sub), v, sub[k]) == Fill(Mark(segs, v, k), sub)
    decreases |segs|
  {
    if segs != [] {
      var t, s := Fill(segs, sub), segs[0];
      if Spells(segs, v) {
        FillSpelled(segs, v, sub);
        ReplaceIsMark(segs[|v|..], v, k, sub);
        assert t[|v|..] == Fill(segs[|v|..], sub);
      } else {
        ReplaceIsMark(segs[1..], v, k, sub);
        if v <= t { PrefixIsSpelled(segs, sub, v, v); }
        if s.Hole? {
          assert s in segs;
          var e := sub[s.k];
          forall o | 0 <= o < |e| ensures !(v <= (e + Fill(segs[1..], sub))[o..]) {
            NoStartInside(e, Fill(segs[1..], sub), v, o);
          }
          ReplaceSkips(e, Fill(segs[1..], sub), v, sub[k]);
        } else {
          assert t[1..] == Fill(segs[1..], sub);
        }
      }
    }
  }

  /** Filling a marked hole with the marked text gives the text back. */
  lemma {:induction false} MarkKeepsText(segs: seq<Seg>, v: string, k: nat, sub: seq<string>)
    requires v != "" && k < |sub| && sub[k] == v
    ensures Fill(Mark(segs, v, k), sub) == Fill(segs, sub)
    decreases |segs|
  {
    if segs != [] {
      if Spells(segs, v) {
        FillSpelled(segs, v, sub);
        MarkKeepsText(segs[|v|..], v, k, sub);
      } else {
        MarkKeepsText(segs[1..], v, k, sub);
      }
    }
  }

  lemma {:induction false} MarkHoles(segs: seq<Seg>, v: string, k: nat)
    requires v != ""
    ensures forall s | s in Mark(segs, v, k) && s.Hole? :: s.k == k || s in segs
    decreases |segs|
  {
    if segs != [] {
      if Spells(segs, v) {
        MarkHoles(segs[|v|..], v, k);
      } else {
        MarkHoles(segs[1..], v, k);
      }
    }
  }

  function Values(swaps: seq<Swap>): seq<string> {
    seq(|swaps|, i requires 0 <= i < |swaps| => swaps[i].value)
  }

  function Exprs(swaps: seq<Swap>): seq<string> {
    seq(|swaps|, i requires 0 <= i < |swaps| => VarExpr(swaps[i].key))
  }

  /** No value can be confused with an expression: what makes sequential replacement safe. */
  ghost predicate Safe(swaps: seq<Swap>) {
    forall i | 0 <= i < |swaps| ::
      && swaps[i].value != "" && BraceFree(swaps[i].value) && '"' !in swaps[i].key
      && forall j | 0 <= j < |swaps| :: !Contains(VarExpr(swaps[j].key), swaps[i].value)
  }

  /** The segments after swaps k.. have been marked. */
  function MarkAll(segs: seq<Seg>, swaps: seq<Swap>, k: nat): seq<Seg>
    requires k <= |swaps| && forall s | s in swaps :: s.value != ""
    decreases |swaps| - k
  {
    if k == |swaps| then segs else MarkAll(Mark(segs, swaps[k].value, k), swaps, k + 1)
  }

  ghost predicate HolesBelow(segs: seq<Seg>, k: nat) {
    forall s | s in segs && s.Hole? :: s.k < k
  }

  lemma {:induction false} MarkKeepsHoles(segs: seq<Seg>, v: string, k: nat, h: nat)
    requires v != "" && Hole(h) in segs
    ensures Hole(h) in Mark(segs, v, k)
    decreases |segs|
  {
    if Spells(segs, v) {
      assert Hole(h) in segs[|v|..] by {
        var i :| 0 <= i < |segs| && segs[i] == Hole(h);
        assert segs[|v|..][i - |v|] == Hole(h);
      }
      MarkKeepsHoles(segs[|v|..], v, k, h);
    } else if segs[0] != Hole(h) {
      MarkKeepsHoles(segs[1..], v, k, h);
    }
  }

  /** A hole marked below k is one of the end result exactly when it was one before. */
  lemma {:induction false} MarkAllKeepsHoles(segs: seq<Seg>, swaps: seq<Swap>, k: nat, h: nat)
    requires h < k <= |swaps| && forall s | s in swaps :: s.value != ""
    ensures Hole(h) in MarkAll(segs, swaps, k) <==> Hole(h) in segs
    decreases |swaps| - k
  {
    if k < |swaps| {
      MarkAllKeepsHoles(Mark(segs, swaps[k].value, k), swaps, k + 1, h);
      MarkHoles(segs, swaps[k].value, k);
      if Hole(h) in segs { MarkKeepsHoles(segs, swaps[k].value, k, h); }
    }
  }

  /** The sequential swaps succeed exactly when every value from k on finds a place to mark, and then yield the
      marked text with the expressions at its holes. */
  lemma {:induction false} SwapAllIsMarkAll(segs: seq<Seg>, swaps: seq<Swap>, k: nat)
    requires Safe(swaps) && k <= |swaps| && HolesBelow(segs, k)
    ensures forall s | s in swaps :: s.value != ""
    ensures HolesBelow(MarkAll(segs, swaps, k), |swaps|)
    ensures Fill(MarkAll(segs, swaps, k), Values(swaps)) == Fill(segs, Values(swaps))
    ensures var r := SwapAll(Fill(segs, Exprs(swaps)), swaps[k..]);
            && (r.Ok? <==> forall j | k <= j < |swaps| :: Hole(j) in MarkAll(segs, swaps, k))
            && (r.Ok? ==> r.value == Fill(MarkAll(segs, swaps, k), Exprs(swaps)))
            && (r.Err? ==> exists j | k <= j < |swaps| ::
                  && r.error == swaps[j].value && Hole(j) !in MarkAll(segs, swaps, k)
                  && forall i | k <= i < j :: Hole(i) in MarkAll(segs, swaps, k))
    decreases |swaps| - k
  {
    if k < |swaps| {
      var v, next := swaps[k].value, Mark(segs, swaps[k].value, k);
      forall s | s in segs && s.Hole? ensures s.k < |swaps| && Blocks(Exprs(swaps)[s.k], v) {
        assert !Contains(VarExpr(swaps[s.k].key), v);
      }
      ReplaceIsMark(segs, v, k, Exprs(swaps));
      ContainsIffMarked(segs, v, k, Exprs(swaps));
      MarkKeepsText(segs, v, k, Values(swaps));
      MarkHoles(segs, v, k);
      MarkAllKeepsHoles(next, swaps, k + 1, k);
      SwapAllIsMarkAll(next, swaps, k + 1);
      assert swaps[k..][0] == swaps[k] && swaps[k..][1..] == swaps[k + 1..];
    } else {
      assert swaps[k..] == [];
    }
  }

  // ----- template execution

  datatype ExecError = MalformedAction

  /** Recognises one action at the head of the text: its key and what follows. */
  function ParseAction(t: string): (r: Option<(string, string)>)
    ensures r.Some? ==> |r.value.1| < |t|
  {
    if !(ACTION_OPEN <= t) then None
    else
      var (key, rest, found) := Cut(t[|ACTION_OPEN|..], '"');
      if found && " }}" <= rest then Some((key, rest[3..])) else None
  }

  /** The index function of text/template on a map of strings: a missing key reads as the zero value,
      whatever the missingkey option says. */
  function Lookup(vars: map<string, string>, key: string): string {
    if key in vars then vars[key] else ""
  }

  /** Execution of a template whose only actions are `index .Vars "key"`. */
  function Exec(t: string, vars: map<string, string>): Result<string, ExecError>
    decreases |t|
  {
    if t == "" then Ok("")
    else if "{{" <= t then
      match ParseAction(t)
      case None => Err(MalformedAction)
      case Some(action) => Prepend(Lookup(vars, action.0), Exec(action.1, vars))
    else Prepend([t[0]], Exec(t[1..], vars))
  }

  function Prepend(s: string, r: Result<string, ExecError>): Result<string, ExecError> {
    match r
    case Ok(t) => Ok(s + t)
    case Err(e) => Err(e)
  }

  /** No literal '{' stands where it could open, or join, an action. */
  ghost predicate Clean(segs: seq<Seg>) {
    forall i | 0 <= i < |segs| - 1 && segs[i] == Lit('{') :: segs[i + 1].Lit? && segs[i + 1].c != '{'
  }

  function Looked(swaps: seq<Swap>, vars: map<string, string>): seq<string> {
    seq(|swaps|, i requires 0 <= i < |swaps| => Lookup(vars, swaps[i].key))
  }

  lemma ExecAction(key: string, t: string, vars: map<string, string>)
    requires '"' !in key
    ensures Exec(VarExpr(key) + t, vars) == Prepend(Lookup(vars, key), Exec(t, vars))
  {
    var u := VarExpr(key) + t;
    assert u == ACTION_OPEN + (key + ['"'] + (" }}" + t));
    assert u[|ACTION_OPEN|..] == key + ['"'] + (" }}" + t);
    CutAt(key, " }}" + t, '"');
    assert (" }}" + t)[3..] == t;
  }

  lemma ExecLiteral(c: char, t: string, vars: map<string, string>)
    requires c == '{' && t != "" ==> t[0] != '{'
    ensures Exec([c] + t, vars) == Prepend([c], Exec(t, vars))
  {
    var u := [c] + t;
    assert u[1..] == t;
    assert t != "" ==> u[1] == t[0];
  }

  lemma CleanRest(segs: seq<Seg>)
    requires Clean(segs) && segs != []
    ensures Clean(segs[1..])
    ensures segs[0] == Lit('{') && |segs| > 1 ==> segs[1..][0].Lit? && segs[1..][0].c != '{'
  {
    var rest := segs[1..];
    forall i | 0 <= i < |rest| - 1 && rest[i] == Lit('{') ensures rest[i + 1].Lit? && rest[i + 1].c != '{' {
      assert segs[i + 1] == rest[i] && segs[i + 2] == rest[i + 1];
    }
  }

  lemma {:induction false} ExecFills(segs: seq<Seg>, swaps: seq<Swap>, vars: map<string, string>)
    requires Clean(segs) && HolesBelow(segs, |swaps|) && forall s | s in swaps :: '"' !in s.key
    ensures Exec(Fill(segs, Exprs(swaps)), vars) == Ok(Fill(segs, Looked(swaps, vars)))
  {
    if segs != [] {
      hide Exec, VarExpr, Lookup, Clean;
      var rest := segs[1..];
      var t := Fill(rest, Exprs(swaps));
      CleanRest(segs);
      ExecFills(rest, swaps, vars);
      match segs[0]
      case Hole(k) =>
        assert segs[0] in segs && swaps[k] in swaps;
        assert SegText(segs[0], Exprs(swaps)) == VarExpr(swaps[k].key);
        ExecAction(swaps[k].key, t, vars);
      case Lit(c) =>
        assert rest != [] && c == '{' ==> t[0] == rest[0].c;
        ExecLiteral(c, t, vars);
    } else {
      assert Exec("", vars) == Ok("");
    }
  }

  // ----- the round trip

  /** The generated config: no "{{", and no '{' right before a placeholder. */
  ghost predicate RawOk(raw: string, swaps: seq<Swap>) {
    && !Contains(raw, "{{")
    && forall i | 0 <= i < |swaps| :: !Contains(raw, "{" + swaps[i].value)
  }

  lemma {:induction false} FillOne(s: Seg, sub: seq<string>)
    ensures Fill([s], sub) == SegText(s, sub)
  {
    hide SegText;
    assert [s][1..] == [];
    assert SegText(s, sub) + "" == SegText(s, sub);
  }

  lemma MiddleOccurs(a: string, v: string, b: string)
    ensures OccursAt(a + (v + b), v, |a|) && Contains(a + (v + b), v)
  {
    assert (a + (v + b))[|a|..|a| + |v|] == v;
    assert OccursAt(a + (v + b), v, |a|);
  }

  lemma FillContainsPair(segs: seq<Seg>, sub: seq<string>, i: nat)
    requires i + 1 < |segs|
    ensures Contains(Fill(segs, sub), SegText(segs[i], sub) + SegText(segs[i + 1], sub))
  {
    hide SegText, Contains, Fill;
    var a, x, y, b := segs[..i], segs[i], segs[i + 1], segs[i + 2..];
    assert segs == a + (([x] + [y]) + b);
    FillConcat(a, ([x] + [y]) + b, sub);
    FillConcat([x] + [y], b, sub);
    FillConcat([x], [y], sub);
    FillOne(x, sub);
    FillOne(y, sub);
    MiddleOccurs(Fill(a, sub), SegText(x, sub) + SegText(y, sub), Fill(b, sub));
  }

  lemma BraceBeforeHole(segs: seq<Seg>, swaps: seq<Swap>, i: nat)
    requires i + 1 < |segs| && segs[i] == Lit('{') && segs[i + 1].Hole? && segs[i + 1].k < |swaps|
    ensures Contains(Fill(segs, Values(swaps)), "{" + swaps[segs[i + 1].k].value)
  {
    FillContainsPair(segs, Values(swaps), i);
  }

  lemma BraceBeforeBrace(segs: seq<Seg>, sub: seq<string>, i: nat)
    requires i + 1 < |segs| && segs[i] == Lit('{') && segs[i + 1] == Lit('{')
    ensures Contains(Fill(segs, sub), "{{")
  {
    FillContainsPair(segs, sub, i);
    assert "{" + "{" == "{{";
  }

  lemma RawIsClean(raw: string, segs: seq<Seg>, swaps: seq<Swap>)
    requires RawOk(raw, swaps) && HolesBelow(segs, |swaps|) && Fill(segs, Values(swaps)) == raw
    ensures Clean(segs)
  {
    forall i | 0 <= i < |segs| - 1 && segs[i] == Lit('{')
      ensures segs[i + 1].Lit? && segs[i + 1].c != '{'
    {
      if segs[i + 1].Hole? {
        BraceBeforeHole(segs, swaps, i);
      } else if segs[i + 1].c == '{' {
        BraceBeforeBrace(segs, Values(swaps), i);
      }
    }
  }

  /** Whatever the raw text, a template that templatize accepts executes to the raw text with the
      values it marked filled in by the vars. */
  lemma ExecUndoesTemplatize(raw: string, swaps: seq<Swap>, vars: map<string, string>)
    requires Safe(swaps) && RawOk(raw, swaps)
    ensures forall s | s in swaps :: s.value != ""
    ensures SwapAll(raw, swaps).Ok? ==>
              var segs := MarkAll(Lits(raw), swaps, 0);
              && Fill(segs, Values(swaps)) == raw
              && Exec(SwapAll(raw, swaps).value, vars) == Ok(Fill(segs, Looked(swaps, vars)))
  {
    var segs := Lits(raw);
    SwapAllIsMarkAll(segs, swaps, 0);
    FillLits(raw, Values(swaps));
    FillLits(raw, Exprs(swaps));
    assert swaps[0..] == swaps;
    if SwapAll(raw, swaps).Ok? {
      var done := MarkAll(segs, swaps, 0);
      RawIsClean(raw, done, swaps);
      forall s | s in swaps ensures '"' !in s.key {
        var i :| 0 <= i < |swaps| && swaps[i] == s;
      }
      ExecFills(done, swaps, vars);
    }
  }

  /** Executing with the placeholders themselves gives back the raw text. */
  lemma TemplatizeRoundTrip(raw: string, swaps: seq<Swap>, vars: map<string, string>)
    requires Safe(swaps) && RawOk(raw, swaps)
    requires forall i | 0 <= i < |swaps| :: swaps[i].key in vars && vars[swaps[i].key] == swaps[i].value
    ensures forall s | s in swaps :: s.value != ""
    ensures SwapAll(raw, swaps).Ok? ==> Exec(SwapAll(raw, swaps).value, vars) == Ok(raw)
  {
    ExecUndoesTemplatize(raw, swaps, vars);
    assert Looked(swaps, vars) == Values(swaps);
  }

  // ----- separate holes: the substitution is simultaneous

  ghost predicate HoleAt(segs: seq<Seg>, sub: seq<string>, k: nat, p: nat) {
    exists i | 0 <= i < |segs| :: segs[i] == Hole(k) && |Fill(segs[..i], sub)| == p
  }

  /** Value k occurs in the text at its own holes and nowhere else. */
  ghost predicate OnlyAtHoles(segs: seq<Seg>, sub: seq<string>, k: nat)
    requires k < |sub|
  {
    forall p: nat | OccursAt(Fill(segs, sub), sub[k], p) :: HoleAt(segs, sub, k, p)
  }

  ghost predicate Separate(segs: seq<Seg>, swaps: seq<Swap>) {
    && HolesBelow(segs, |swaps|)
    && forall k | 0 <= k < |swaps| :: OnlyAtHoles(segs, Values(swaps), k)
  }

  /** The holes from k on still spelled out. */
  function Spelled(segs: seq<Seg>, sub: seq<string>, k: nat): seq<Seg> {
    if segs == [] then []
    else
      (if segs[0].Hole? && segs[0].k >= k then Lits(SegText(segs[0], sub)) else [segs[0]]) +
      Spelled(segs[1..], sub, k)
  }

  lemma {:induction false} SpelledKeepsText(segs: seq<Seg>, sub: seq<string>, k: nat)
    ensures Fill(Spelled(segs, sub, k), sub) == Fill(segs, sub)
  {
    if segs != [] {
      SpelledKeepsText(segs[1..], sub, k);
      var head := if segs[0].Hole? && segs[0].k >= k then Lits(SegText(segs[0], sub)) else [segs[0]];
      FillConcat(head, Spelled(segs[1..], sub, k), sub);
      FillLits(SegText(segs[0], sub), sub);
      assert [segs[0]][1..] == [];
    }
  }

  lemma HoleWidths(segs: seq<Seg>, sub: seq<string>, i: nat)
    requires i < |segs| && HolesBelow(segs, |sub|) && forall v | v in sub :: v != ""
    ensures i == 0 ==> Fill(segs[..i], sub) == ""
    ensures i > 0 ==> |Fill(segs[..i], sub)| == |SegText(segs[0], sub)| + |Fill(segs[1..][..i - 1], sub)|
    ensures |SegText(segs[0], sub)| > 0
  {
    assert segs[0] in segs;
    if segs[0].Hole? { assert sub[segs[0].k] in sub; }
    if i > 0 { assert segs[..i][1..] == segs[1..][..i - 1]; }
  }

  lemma OnlyAtHolesRest(segs: seq<Seg>, sub: seq<string>, k: nat)
    requires segs != [] && k < |sub| && HolesBelow(segs, |sub|) && (forall v | v in sub :: v != "")
    requires OnlyAtHoles(segs, sub, k)
    ensures OnlyAtHoles(segs[1..], sub, k)
  {
    hide SegText;
    var w := |SegText(segs[0], sub)|;
    forall p: nat | OccursAt(Fill(segs[1..], sub), sub[k], p) ensures HoleAt(segs[1..], sub, k, p) {
      assert Fill(segs, sub)[w + p..w + p + |sub[k]|] == Fill(segs[1..], sub)[p..p + |sub[k]|];
      assert OccursAt(Fill(segs, sub), sub[k], w + p);
      var i :| 0 <= i < |segs| && segs[i] == Hole(k) && |Fill(segs[..i], sub)| == w + p;
      HoleWidths(segs, sub, i);
      assert segs[1..][i - 1] == Hole(k);
    }
  }

  lemma {:induction false} MarkSkips(a: seq<Seg>, rest: seq<Seg>, v: string, k: nat)
    requires v != "" && forall o | 0 <= o < |a| :: !Spells((a + rest)[o..], v)
    ensures Mark(a + rest, v, k) == a + Mark(rest, v, k)
  {
    if a == [] {
      assert a + rest == rest;
    } else {
      assert (a + rest)[0..] == a + rest && (a + rest)[1..] == a[1..] + rest;
      assert !Spells((a + rest)[0..], v);
      forall o | 0 <= o < |a[1..]| ensures !Spells((a[1..] + rest)[o..], v) {
        assert (a[1..] + rest)[o..] == (a + rest)[o + 1..];
        assert !Spells((a + rest)[o + 1..], v);
      }
      MarkSkips(a[1..], rest, v, k);
      assert [a[0]] + (a[1..] + Mark(rest, v, k)) == a + Mark(rest, v, k);
    }
  }

  /** A literal spelling found at offset o of the spelled-out segments is an occurrence in the text. */
  lemma SpellingOccurs(spelled: seq<Seg>, sub: seq<string>, v: string, o: nat, before: string)
    requires o <= |spelled| && Spells(spelled[o..], v) && spelled[..o] == Lits(before)
    ensures OccursAt(Fill(spelled, sub), v, o)
  {
    FillSpelled(spelled[o..], v, sub);
    assert spelled == spelled[..o] + spelled[o..];
    FillConcat(spelled[..o], spelled[o..], sub);
    FillLits(before, sub);
    assert |before| == |spelled[..o]| == o;
  }

  /** So inside a first segment that is not v's hole there is none. */
  lemma NotSpelledInside(segs: seq<Seg>, sub: seq<string>, k: nat, o: nat, head: seq<Seg>)
    requires segs != [] && k < |sub| && HolesBelow(segs, |sub|) && (forall v | v in sub :: v != "")
    requires OnlyAtHoles(segs, sub, k) && segs[0] != Hole(k)
    requires head == Lits(SegText(segs[0], sub)) && Spelled(segs, sub, k) == head + Spelled(segs[1..], sub, k)
    requires o < |head|
    ensures !Spells((head + Spelled(segs[1..], sub, k))[o..], sub[k])
  {
    var spelled := head + Spelled(segs[1..], sub, k);
    if Spells(spelled[o..], sub[k]) {
      assert spelled[..o] == Lits(SegText(segs[0], sub)[..o]);
      SpellingOccurs(spelled, sub, sub[k], o, SegText(segs[0], sub)[..o]);
      SpelledKeepsText(segs, sub, k);
      var i :| 0 <= i < |segs| && segs[i] == Hole(k) && |Fill(segs[..i], sub)| == o;
      HoleWidths(segs, sub, i);
    }
  }

  lemma {:induction false} MarkRestoresHoles(segs: seq<Seg>, sub: seq<string>, k: nat)
    requires k < |sub| && HolesBelow(segs, |sub|) && (forall v | v in sub :: v != "")
    requires OnlyAtHoles(segs, sub, k)
    ensures sub[k] != "" && Mark(Spelled(segs, sub, k), sub[k], k) == Spelled(segs, sub, k + 1)
  {
    assert sub[k] in sub;
    if segs != [] {
      var v, rest := sub[k], Spelled(segs[1..], sub, k);
      OnlyAtHolesRest(segs, sub, k);
      MarkRestoresHoles(segs[1..], sub, k);
      if segs[0] == Hole(k) {
        var spelled := Lits(v) + rest;
        assert spelled[..|v|] == Lits(v) && spelled[|v|..] == rest;
      } else if segs[0].Hole? && segs[0].k < k {
        assert ([segs[0]] + rest)[1..] == rest;
        assert Lits(v)[0].Lit?;
      } else {
        var head := Lits(SegText(segs[0], sub));
        assert segs[0].Lit? ==> head == [segs[0]];
        forall o | 0 <= o < |head| ensures !Spells((head + rest)[o..], v) {
          NotSpelledInside(segs, sub, k, o, head);
        }
        MarkSkips(head, rest, v, k);
      }
    }
  }

  lemma {:induction false} MarkAllRestoresHoles(segs: seq<Seg>, swaps: seq<Swap>, k: nat)
    requires Separate(segs, swaps) && k <= |swaps| && forall s | s in swaps :: s.value != ""
    ensures MarkAll(Spelled(segs, Values(swaps), k), swaps, k) == segs
    decreases |swaps| - k
  {
    if k < |swaps| {
      MarkRestoresHoles(segs, Values(swaps), k);
      MarkAllRestoresHoles(segs, swaps, k + 1);
    } else {
      NothingSpelled(segs, Values(swaps), k);
    }
  }

  lemma {:induction false} NothingSpelled(segs: seq<Seg>, sub: seq<string>, k: nat)
    requires HolesBelow(segs, k)
    ensures Spelled(segs, sub, k) == segs
  {
    if segs != [] {
      assert segs[0] in segs;
      NothingSpelled(segs[1..], sub, k);
    }
  }

  lemma {:induction false} AllSpelled(segs: seq<Seg>, sub: seq<string>)
    ensures Spelled(segs, sub, 0) == Lits(Fill(segs, sub))
  {
    if segs != [] {
      AllSpelled(segs[1..], sub);
      assert Lits(SegText(segs[0], sub)) + Lits(Fill(segs[1..], sub)) == Lits(Fill(segs, sub));
    }
  }

  lemma HoleOccurs(segs: seq<Seg>, sub: seq<string>, k: nat)
    requires Hole(k) in segs && k < |sub|
    ensures Contains(Fill(segs, sub), sub[k])
  {
    hide Contains, Fill;
    var i :| 0 <= i < |segs| && segs[i] == Hole(k);
    var a, b := segs[..i], segs[i + 1..];
    assert segs == a + ([Hole(k)] + b);
    FillConcat(a, [Hole(k)] + b, sub);
    FillConcat([Hole(k)], b, sub);
    FillOne(Hole(k), sub);
    MiddleOccurs(Fill(a, sub), sub[k], Fill(b, sub));
  }

  lemma HoleIsContained(segs: seq<Seg>, swaps: seq<Swap>, k: nat)
    requires Separate(segs, swaps) && k < |swaps|
    ensures Contains(Fill(segs, Values(swaps)), swaps[k].value) <==> Hole(k) in segs
  {
    var sub := Values(swaps);
    if Hole(k) in segs { HoleOccurs(segs, sub, k); }
    if Contains(Fill(segs, sub), swaps[k].value) {
      var p: nat :| p <= |Fill(segs, sub)| && OccursAt(Fill(segs, sub), sub[k], p);
      assert OnlyAtHoles(segs, sub, k);
      assert HoleAt(segs, sub, k, p);
    }
  }

  lemma {:induction false} ContainsIffMarked(segs: seq<Seg>, v: string, k: nat, sub: seq<string>)
    requires v != "" && BraceFree(v) && HolesBlock(segs, sub, v) && Hole(k) !in segs
    ensures Contains(Fill(segs, sub), v) <==> Hole(k) in Mark(segs, v, k)
    decreases |segs|
  {
    if segs == [] {
    } else if Spells(segs, v) {
      FillSpelled(segs, v, sub);
      assert OccursAt(Fill(segs, sub), v, 0);
      assert Mark(segs, v, k)[0] == Hole(k);
    } else {
      var e, t := SegText(segs[0], sub), Fill(segs[1..], sub);
      ContainsIffMarked(segs[1..], v, k, sub);
      assert segs[0] in segs;
      forall o | 0 <= o < |e| ensures !(v <= (e + t)[o..]) {
        if segs[0].Hole? {
          NoStartInside(e, t, v, o);
        } else if v <= (e + t)[o..] {
          assert (e + t)[o..] == Fill(segs, sub);
          PrefixIsSpelled(segs, sub, v, v);
        }
      }
      OccurrenceBeyond(e, t, v);
    }
  }

  lemma OccurrenceBeyond(e: string, t: string, v: string)
    requires forall o | 0 <= o < |e| :: !(v <= (e + t)[o..])
    ensures Contains(e + t, v) <==> Contains(t, v)
  {
    if Contains(t, v) {
      var p :| 0 <= p <= |t| && OccursAt(t, v, p);
      assert (e + t)[|e| + p..|e| + p + |v|] == t[p..p + |v|];
      assert OccursAt(e + t, v, |e| + p);
    }
    if Contains(e + t, v) {
      var p :| 0 <= p <= |e + t| && OccursAt(e + t, v, p);
      assert v <= (e + t)[p..];
      assert (e + t)[p..p + |v|] == t[p - |e|..p - |e| + |v|];
      assert OccursAt(t, v, p - |e|);
    }
  }

  /** The text once the holes below k are expressions and the rest still placeholders. */
  function TextAt(segs: seq<Seg>, swaps: seq<Swap>, k: nat): string {
    Fill(Spelled(segs, Values(swaps), k), Exprs(swaps))
  }

  lemma SpelledBlocks(segs: seq<Seg>, swaps: seq<Swap>, k: nat)
    requires Safe(swaps) && k < |swaps|
    ensures HolesBlock(Spelled(segs, Values(swaps), k), Exprs(swaps), swaps[k].value)
    ensures Hole(k) !in Spelled(segs, Values(swaps), k)
    ensures swaps[k].value != "" && BraceFree(swaps[k].value)
  {
    hide Contains;
    var v, here := swaps[k].value, Spelled(segs, Values(swaps), k);
    SpelledHoles(segs, Values(swaps), k);
    forall s | s in here && s.Hole? ensures s.k < |swaps| && Blocks(Exprs(swaps)[s.k], v) {
      assert !Contains(VarExpr(swaps[s.k].key), v);
    }
  }

  /** One swap on the text whose earlier holes are already expressions. */
  lemma SwapStep(segs: seq<Seg>, swaps: seq<Swap>, k: nat)
    requires Safe(swaps) && Separate(segs, swaps) && k < |swaps|
    ensures swaps[k].value != ""
    ensures Contains(TextAt(segs, swaps, k), swaps[k].value) <==> Hole(k) in segs
    ensures ReplaceAll(TextAt(segs, swaps, k), swaps[k].value, VarExpr(swaps[k].key)) == TextAt(segs, swaps, k + 1)
  {
    hide Contains, ReplaceAll, Fill, Spelled, Mark, HolesBlock, OnlyAtHoles, VarExpr, Safe, BraceFree;
    var v, here := swaps[k].value, Spelled(segs, Values(swaps), k);
    SpelledBlocks(segs, swaps, k);
    SafeValues(swaps);
    forall u | u in Values(swaps) ensures u != "" {
      var i :| 0 <= i < |swaps| && swaps[i].value == u;
    }
    MarkRestoresHoles(segs, Values(swaps), k);
    ContainsIffMarked(here, v, k, Exprs(swaps));
    ReplaceIsMark(here, v, k, Exprs(swaps));
    SpelledHoles(segs, Values(swaps), k + 1);
  }

  lemma SwapAllStep(t: string, swaps: seq<Swap>, k: nat)
    requires k < |swaps| && forall s | s in swaps :: s.value != ""
    ensures SwapAll(t, swaps[k..]) ==
              if !Contains(t, swaps[k].value) then Err(swaps[k].value)
              else SwapAll(ReplaceAll(t, swaps[k].value, VarExpr(swaps[k].key)), swaps[k + 1..])
  {
    hide Contains, ReplaceAll, VarExpr;
    assert swaps[k..][0] == swaps[k] && swaps[k..][1..] == swaps[k + 1..];
  }

  lemma SafeValues(swaps: seq<Swap>)
    requires Safe(swaps)
    ensures forall s | s in swaps :: s.value != ""
  {}

  lemma {:induction false} SwapAllOutcome(segs: seq<Seg>, swaps: seq<Swap>, k: nat)
    requires Safe(swaps) && Separate(segs, swaps) && k <= |swaps|
    ensures forall s | s in swaps :: s.value != ""
    ensures SwapAll(TextAt(segs, swaps, k), swaps[k..]).Ok? <==> forall i | k <= i < |swaps| :: Hole(i) in segs
    decreases |swaps| - k
  {
    SafeValues(swaps);
    if k < |swaps| {
      hide Safe, Separate, Contains, ReplaceAll, VarExpr, SwapAll, TextAt;
      SwapStep(segs, swaps, k);
      SwapAllStep(TextAt(segs, swaps, k), swaps, k);
      SwapAllOutcome(segs, swaps, k + 1);
    } else {
      assert swaps[k..] == [];
    }
  }

  lemma {:induction false} SpelledHoles(segs: seq<Seg>, sub: seq<string>, k: nat)
    ensures forall s | s in Spelled(segs, sub, k) && s.Hole? :: s.k < k && s in segs
    ensures forall i | 0 <= i < k && Hole(i) in segs :: Hole(i) in Spelled(segs, sub, k)
  {
    if segs != [] {
      SpelledHoles(segs[1..], sub, k);
      var head := if segs[0].Hole? && segs[0].k >= k then Lits(SegText(segs[0], sub)) else [segs[0]];
      forall i | 0 <= i < k && Hole(i) in segs ensures Hole(i) in head + Spelled(segs[1..], sub, k) {
        if Hole(i) != segs[0] { assert Hole(i) in segs[1..]; } else { assert head == [segs[0]]; }
      }
    }
  }

  /** When each placeholder occurs only at its own holes: templatize succeeds exactly when every
      placeholder is present, and the sequential swaps then act at once - the template executes to the
      raw text with every hole filled by its var. */
  lemma SequentialIsSimultaneous(segs: seq<Seg>, swaps: seq<Swap>, vars: map<string, string>)
    requires Safe(swaps) && Separate(segs, swaps) && RawOk(Fill(segs, Values(swaps)), swaps)
    ensures forall s | s in swaps :: s.value != ""
    ensures var raw := Fill(segs, Values(swaps));
            && (SwapAll(raw, swaps).Ok? <==> forall k | 0 <= k < |swaps| :: Contains(raw, swaps[k].value))
            && (SwapAll(raw, swaps).Ok? ==>
                  && SwapAll(raw, swaps).value == Fill(segs, Exprs(swaps))
                  && Exec(SwapAll(raw, swaps).value, vars) == Ok(Fill(segs, Looked(swaps, vars))))
            && (SwapAll(raw, swaps).Err? ==> exists k | 0 <= k < |swaps| ::
                  && SwapAll(raw, swaps).error == swaps[k].value && !Contains(raw, swaps[k].value)
                  && forall i | 0 <= i < k :: Contains(raw, swaps[i].value))
  {
    hide Contains, Fill, SwapAll, MarkAll, Exec, RawOk, Separate, Spelled, TextAt, Safe;
    var raw := Fill(segs, Values(swaps));
    SwapAllOutcome(segs, swaps, 0);
    AllSpelled(segs, Values(swaps));
    FillLits(raw, Exprs(swaps));
    assert swaps[0..] == swaps;
    forall k | 0 <= k < |swaps| ensures Contains(raw, swaps[k].value) <==> Hole(k) in segs {
      HoleIsContained(segs, swaps, k);
    }
    MarkAllRestoresHoles(segs, swaps, 0);
    SwapAllIsMarkAll(Lits(raw), swaps, 0);
    ExecUndoesTemplatize(raw, swaps, vars);
  }

  // ----- the swaps templatize actually performs are safe

  predicate IsDigit(c: char) { '0' <= c <= '9' }

  function DigitValue(c: char): nat
    requires IsDigit(c)
  {
    c as int - '0' as int
  }

  function ParseDigits(s: string): nat
    requires forall c | c in s :: IsDigit(c)
  {
    if s == "" then 0 else ParseDigits(s[..|s| - 1]) * 10 + DigitValue(s[|s| - 1])
  }

  /** The slot labels resolution accepts: net followed by digits. */
  predicate IsSlot(s: string) {
    |s| > 3 && s[..3] == "net" && forall c | c in s[3..] :: IsDigit(c)
  }

  predicate PlainKey(s: string) {
    '-' !in s && '/' !in s && '"' !in s && BraceFree(s)
  }

  lemma PlainConcat(a: string, b: string)
    requires PlainKey(a) && PlainKey(b)
    ensures PlainKey(a + b)
  {}

  lemma BraceFreeConcat(a: string, b: string)
    requires BraceFree(a) && BraceFree(b)
    ensures BraceFree(a + b)
  {}

  lemma {:induction false} ItoaDigits(n: nat)
    ensures Itoa(n) != "" && forall c | c in Itoa(n) :: IsDigit(c)
  {
    if n >= 10 { ItoaDigits(n / 10); }
  }

  lemma SlotPlain(s: string)
    requires IsSlot(s)
    ensures PlainKey(s)
  {
    assert s == s[..3] + s[3..];
    PlainConcat("net", s[3..]);
  }

  lemma SlotKeysSafe(slot: string, i: nat)
    requires IsSlot(slot)
    ensures BraceFree(MACPlaceholder(slot)) && PlainKey(MACVarKey(slot))
    ensures BraceFree(AddressPlaceholder(i)) && PlainKey(AddressVarKey(slot))
  {
    SlotPlain(slot);
    PlainConcat(slot, "_mac");
    PlainConcat(slot, "_address");
    BraceFreeConcat("bootstrap-", slot);
    BraceFreeConcat("bootstrap-" + slot, "-mac-placeholder");
    ItoaDigits(i);
    BraceFreeConcat("203.0.113.", Itoa(i));
    BraceFreeConcat("203.0.113." + Itoa(i), "/32");
  }

  lemma {:induction false} SlotSwapsSafe(shape: seq<SlotShape>, n: nat)
    requires n <= |shape| && forall s | s in shape :: IsSlot(s.slot)
    ensures forall s | s in SlotSwaps(shape, n) :: BraceFree(s.value) && PlainKey(s.key)
  {
    if n > 0 {
      SlotSwapsSafe(shape, n - 1);
      SlotKeysSafe(shape[n - 1].slot, n - 1);
    }
  }

  lemma KeyKeepsOut(key: string, v: string)
    requires PlainKey(key) && ('-' in v || '/' in v)
    ensures !Contains(VarExpr(key), v)
  {
    var c := if '-' in v then '-' else '/';
    assert c !in ACTION_OPEN && c !in ACTION_CLOSE;
    NotContained(ACTION_OPEN + key, ACTION_CLOSE, c);
    NotContained(ACTION_OPEN, key, c);
    if Contains(VarExpr(key), v) { ContainsChar(VarExpr(key), v, c); }
  }

  lemma ContainsChar(t: string, v: string, c: char)
    requires Contains(t, v) && c in v
    ensures c in t
  {
    var p :| 0 <= p <= |t| && OccursAt(t, v, p);
    var i :| 0 <= i < |v| && v[i] == c;
    assert t[p..p + |v|][i] == t[p + i];
  }

  lemma NotContained(a: string, b: string, c: char)
    ensures c in a + b <==> c in a || c in b
  {}

  predicate SafeSwap(s: Swap) {
    ('-' in s.value || '/' in s.value) && BraceFree(s.value) && PlainKey(s.key)
  }

  lemma FixedKeysPlain()
    ensures PlainKey(HOSTNAME_KEY) && PlainKey(INSTALL_IMAGE_KEY)
  {}

  lemma FixedSwapsSafe(image: string)
    requires '/' in image && BraceFree(image)
    ensures SafeSwap(Swap(HOSTNAME_PLACEHOLDER, HOSTNAME_KEY)) && SafeSwap(Swap(image, INSTALL_IMAGE_KEY))
  {
    hide PlainKey, BraceFree;
    FixedKeysPlain();
    HostnamePlaceholderSafe();
  }

  lemma HostnamePlaceholderSafe()
    ensures HOSTNAME_PLACEHOLDER != "" && BraceFree(HOSTNAME_PLACEHOLDER) && '-' in HOSTNAME_PLACEHOLDER
  {
    assert HOSTNAME_PLACEHOLDER[9] == '-';
  }

  lemma SafeSwapsAreSafe(swaps: seq<Swap>)
    requires forall s | s in swaps :: SafeSwap(s)
    ensures Safe(swaps)
  {
    forall i | 0 <= i < |swaps|
      ensures swaps[i].value != "" && BraceFree(swaps[i].value) && '"' !in swaps[i].key
      ensures forall j | 0 <= j < |swaps| :: !Contains(VarExpr(swaps[j].key), swaps[i].value)
    {
      assert SafeSwap(swaps[i]);
      forall j | 0 <= j < |swaps| ensures !Contains(VarExpr(swaps[j].key), swaps[i].value) {
        assert SafeSwap(swaps[j]);
        KeyKeepsOut(swaps[j].key, swaps[i].value);
      }
    }
  }

  /** The placeholders and expressions templatize uses never interfere. */
  lemma SwapsAreSafe(image: string, shape: seq<SlotShape>)
    requires '/' in image && BraceFree(image) && forall s | s in shape :: IsSlot(s.slot)
    ensures Safe(Swaps(image, shape))
  {
    FixedSwapsSafe(image);
    SlotSwapValues(shape, |shape|);
    SlotSwapsSafe(shape, |shape|);
    assert forall s | s in SlotSwaps(shape, |shape|) :: SafeSwap(s);
    SafeSwapsAreSafe(Swaps(image, shape));
  }

  // ----- and its placeholders keep apart

  /** Itoa writes the number down: its digits read back as it. */
  lemma {:induction false} ItoaReads(n: nat)
    ensures (forall c | c in Itoa(n) :: IsDigit(c)) && ParseDigits(Itoa(n)) == n
  {
    ItoaDigits(n);
    if n >= 10 {
      ItoaReads(n / 10);
      assert Itoa(n)[..|Itoa(n)| - 1] == Itoa(n / 10);
    } else {
      assert Itoa(n)[..0] == "";
    }
  }

  /** Neither text occurs in the other. */
  predicate Apart(a: string, b: string) {
    !Contains(a, b) && !Contains(b, a)
  }

  lemma ApartByChars(a: string, b: string, c: char, d: char)
    requires c in a && c !in b && d in b && d !in a
    ensures Apart(a, b)
  {
    if Contains(a, b) { ContainsChar(a, b, d); }
    if Contains(b, a) { ContainsChar(b, a, c); }
  }

  lemma ContainsMiddle(t: string, a: string, v: string, b: string)
    requires Contains(t, a + v + b)
    ensures Contains(t, v)
  {
    var w := a + v + b;
    var p :| 0 <= p <= |t| && OccursAt(t, w, p);
    assert w[|a|..|a| + |v|] == v;
    forall i | 0 <= i < |v| ensures t[p + |a| + i] == v[i] {
      assert t[p..p + |w|][|a| + i] == w[|a| + i];
    }
    assert t[p + |a|..p + |a| + |v|] == v;
    assert OccursAt(t, v, p + |a|);
  }

  /** Text without the characters that open a placeholder or end an address. */
  predicate Inner(s: string) {
    'b' !in s && '/' !in s
  }

  /** The placeholders that open with "bootstrap-": the hostname's and the MACs'. */
  predicate Opened(v: string) {
    |v| > 10 && v[0] == 'b' && Inner(v[1..])
  }

  lemma InnerConcat(a: string, b: string)
    requires Inner(a) && Inner(b)
    ensures Inner(a + b)
  {}

  lemma InnerWords()
    ensures Inner("ootstrap-") && Inner("hostname") && Inner("-mac") && Inner("-placeholder")
  {}

  lemma SlotInner(slot: string)
    requires IsSlot(slot)
    ensures Inner(slot) && slot != "" && slot[0] == 'n'
  {
    assert slot == slot[..3] + slot[3..] && slot[0] == slot[..3][0];
  }

  lemma OpenedBy(v: string, rest: string)
    requires v == "b" + ("ootstrap-" + rest) && rest != "" && Inner(rest)
    ensures Opened(v) && v[10..] == rest
  {
    InnerWords();
    InnerConcat("ootstrap-", rest);
    assert v[1..] == "ootstrap-" + rest;
  }

  lemma HostnameOpened()
    ensures Opened(HOSTNAME_PLACEHOLDER) && HOSTNAME_PLACEHOLDER[10] == 'h'
  {
    var rest := "hostname" + "-placeholder";
    InnerWords();
    InnerConcat("hostname", "-placeholder");
    assert HOSTNAME_PLACEHOLDER == "b" + ("ootstrap-" + rest);
    OpenedBy(HOSTNAME_PLACEHOLDER, rest);
    assert HOSTNAME_PLACEHOLDER[10..][0] == rest[0];
  }

  lemma MACOpened(slot: string)
    requires IsSlot(slot)
    ensures Opened(MACPlaceholder(slot)) && MACPlaceholder(slot)[10] == 'n'
    ensures MACPlaceholder(slot)[10..] == slot + "-mac-placeholder"
  {
    hide IsSlot, Inner;
    var rest := slot + "-mac-placeholder";
    SlotInner(slot);
    InnerWords();
    InnerConcat("-mac", "-placeholder");
    assert "-mac" + "-placeholder" == "-mac-placeholder";
    InnerConcat(slot, "-mac-placeholder");
    assert "bootstrap-" == "b" + "ootstrap-";
    assert MACPlaceholder(slot) == "b" + ("ootstrap-" + rest);
    OpenedBy(MACPlaceholder(slot), rest);
    assert MACPlaceholder(slot)[10..][0] == rest[0];
  }

  lemma InTail(s: string, p: int)
    requires 0 < p < |s|
    ensures s[p] in s[1..]
  {
    assert s[1..][p - 1] == s[p];
  }

  lemma NoDashAt(s: string, p: int)
    requires PlainKey(s) && 0 <= p < |s|
    ensures s[p] != '-'
  {
    assert s[p] in s;
  }

  /** One of them can occur in another only at its start. */
  lemma OpenedOccurs(u: string, v: string)
    requires Opened(u) && Opened(v) && Contains(u, v)
    ensures v <= u
  {
    var p :| 0 <= p <= |u| && OccursAt(u, v, p);
    assert u[p..p + |v|][0] == u[p] == v[0];
    if p > 0 { InTail(u, p); }
  }

  lemma HostnameApart(slot: string)
    requires IsSlot(slot)
    ensures Apart(HOSTNAME_PLACEHOLDER, MACPlaceholder(slot))
  {
    var h, m := HOSTNAME_PLACEHOLDER, MACPlaceholder(slot);
    HostnameOpened();
    MACOpened(slot);
    hide Contains, MACPlaceholder;
    if Contains(h, m) { OpenedOccurs(h, m); }
    if Contains(m, h) { OpenedOccurs(m, h); }
  }

  lemma MACContains(a: string, b: string)
    requires IsSlot(a) && IsSlot(b) && Contains(MACPlaceholder(a), MACPlaceholder(b))
    ensures a == b
  {
    var u, v := MACPlaceholder(a), MACPlaceholder(b);
    MACOpened(a);
    MACOpened(b);
    OpenedOccurs(u, v);
    SlotPlain(a);
    var x, y := a + "-mac-placeholder", b + "-mac-placeholder";
    assert x == u[10..] && y == v[10..] && y <= x;
    assert y[|b|] == '-' == x[|b|];
    if |b| < |a| { NoDashAt(a, |b|); }
    assert a == x[..|a|] == y[..|b|] == b;
  }

  lemma MACsApart(a: string, b: string)
    requires IsSlot(a) && IsSlot(b) && a != b
    ensures Apart(MACPlaceholder(a), MACPlaceholder(b))
  {
    if Contains(MACPlaceholder(a), MACPlaceholder(b)) { MACContains(a, b); }
    if Contains(MACPlaceholder(b), MACPlaceholder(a)) { MACContains(b, a); }
  }

  /** Where an address placeholder has its dots and its slash. */
  lemma AddressMarks(i: nat)
    ensures var v := AddressPlaceholder(i);
            && |v| == |Itoa(i)| + 13 && v[3] == v[5] == v[9] == '.' && v[|v| - 3] == '/'
            && v[10..|v| - 3] == Itoa(i)
            && (forall k | 0 <= k < |v| && v[k] == '.' :: k == 3 || k == 5 || k == 9)
            && (forall k | 0 <= k < |v| && v[k] == '/' :: k == |v| - 3)
            && (forall c | c in v :: IsDigit(c) || c == '.' || c == '/')
  {
    ItoaDigits(i);
    var v, digits := AddressPlaceholder(i), Itoa(i);
    forall k | 0 <= k < |v|
      ensures v[k] == if k < 10 then "203.0.113."[k] else if k < |v| - 3 then digits[k - 10] else "/32"[k - (|v| - 3)]
    {}
    assert forall c | c in digits :: c != '.' && c != '/';
  }

  lemma AddressContains(i: nat, j: nat)
    requires Contains(AddressPlaceholder(i), AddressPlaceholder(j))
    ensures i == j
  {
    var u, v := AddressPlaceholder(i), AddressPlaceholder(j);
    AddressMarks(i);
    AddressMarks(j);
    var p :| 0 <= p <= |u| && OccursAt(u, v, p);
    assert forall k | 0 <= k < |v| :: v[k] == u[p..p + |v|][k] == u[p + k];
    assert u[p + 3] == u[p + 5] == u[p + 9] == '.' && u[p + (|v| - 3)] == '/';
    assert u == v;
    ItoaReads(i);
    ItoaReads(j);
  }

  lemma AddressesApart(i: nat, j: nat)
    requires i != j
    ensures Apart(AddressPlaceholder(i), AddressPlaceholder(j))
  {
    if Contains(AddressPlaceholder(i), AddressPlaceholder(j)) { AddressContains(i, j); }
    if Contains(AddressPlaceholder(j), AddressPlaceholder(i)) { AddressContains(j, i); }
  }

  lemma AddressApartFromOpened(i: nat, v: string)
    requires Opened(v)
    ensures Apart(AddressPlaceholder(i), v)
  {
    AddressMarks(i);
    assert v == [v[0]] + v[1..];
    ApartByChars(AddressPlaceholder(i), v, '/', 'b');
  }

  /** The value of a slot's MAC or, for a static slot, its address. */
  predicate SlotValue(shape: seq<SlotShape>, j: nat, v: string)
    requires j < |shape|
  {
    v == MACPlaceholder(shape[j].slot) || v == AddressPlaceholder(j)
  }

  ghost predicate ValidShape(shape: seq<SlotShape>) {
    && (forall s | s in shape :: IsSlot(s.slot))
    && forall i, j | 0 <= i < j < |shape| :: shape[i].slot != shape[j].slot
  }

  lemma SlotValuesApart(shape: seq<SlotShape>, i: nat, u: string, j: nat, v: string)
    requires ValidShape(shape) && i < |shape| && j < |shape| && i != j
    requires SlotValue(shape, i, u) && SlotValue(shape, j, v)
    ensures Apart(u, v)
  {
    hide MACPlaceholder, AddressPlaceholder, Opened, Apart, IsSlot;
    assert shape[i] in shape && shape[j] in shape;
    var a, b := shape[i].slot, shape[j].slot;
    MACOpened(a);
    MACOpened(b);
    MACsApart(a, b);
    AddressesApart(i, j);
    AddressApartFromOpened(i, MACPlaceholder(b));
    AddressApartFromOpened(j, MACPlaceholder(a));
    assert Apart(u, v) || Apart(v, u);
    ApartSymmetric(u, v);
  }

  lemma ApartSymmetric(a: string, b: string)
    ensures Apart(a, b) <==> Apart(b, a)
  {}

  /** No value of the list occurs in another. */
  ghost predicate AllApart(values: seq<string>) {
    forall i, j | 0 <= i < |values| && 0 <= j < |values| && i != j :: !Contains(values[i], values[j])
  }

  lemma AllApartConcat(a: seq<string>, b: seq<string>)
    requires AllApart(a) && AllApart(b) && forall u, v | u in a && v in b :: Apart(u, v)
    ensures AllApart(a + b)
  {
    hide Contains;
    var all := a + b;
    forall i, j | 0 <= i < |all| && 0 <= j < |all| && i != j ensures !Contains(all[i], all[j]) {
      if i < |a| { assert all[i] in a; } else { assert all[i] in b; }
      if j < |a| { assert all[j] in a; } else { assert all[j] in b; }
    }
  }

  lemma AloneApart(v: string)
    ensures AllApart([v])
  {}

  lemma {:induction false} SlotSwapsApart(shape: seq<SlotShape>, n: nat)
    requires n <= |shape| && ValidShape(shape)
    ensures AllApart(Values(SlotSwaps(shape, n)))
    ensures forall v | v in Values(SlotSwaps(shape, n)) :: exists j | 0 <= j < n :: SlotValue(shape, j, v)
  {
    hide MACPlaceholder, AddressPlaceholder, ValidShape, Apart, AllApart, Opened, IsSlot;
    if n > 0 {
      var s, before := shape[n - 1], Values(SlotSwaps(shape, n - 1));
      var mac, address := MACPlaceholder(s.slot), AddressPlaceholder(n - 1);
      SlotSwapsApart(shape, n - 1);
      forall v | v in before ensures Apart(v, mac) && Apart(v, address) {
        var j :| 0 <= j < n - 1 && SlotValue(shape, j, v);
        SlotValuesApart(shape, j, v, n - 1, mac);
        SlotValuesApart(shape, j, v, n - 1, address);
      }
      AloneApart(mac);
      AloneApart(address);
      AllApartConcat(before, [mac]);
      assert SlotValue(shape, n - 1, mac) && SlotValue(shape, n - 1, address);
      if s.dhcp {
        assert Values(SlotSwaps(shape, n)) == before + [mac];
      } else {
        MACAddressApart(shape, n - 1);
        AllApartConcat(before + [mac], [address]);
        assert Values(SlotSwaps(shape, n)) == before + [mac] + [address];
      }
    } else {
      NothingApart();
      assert Values(SlotSwaps(shape, 0)) == [];
    }
  }

  lemma NothingApart()
    ensures AllApart([])
  {}

  lemma MACAddressApart(shape: seq<SlotShape>, j: nat)
    requires ValidShape(shape) && j < |shape|
    ensures Apart(MACPlaceholder(shape[j].slot), AddressPlaceholder(j))
  {
    hide MACPlaceholder, AddressPlaceholder, Opened, Apart, IsSlot;
    MACOpened(shape[j].slot);
    AddressApartFromOpened(j, MACPlaceholder(shape[j].slot));
    ApartSymmetric(MACPlaceholder(shape[j].slot), AddressPlaceholder(j));
  }

  /** An installer image that spells no placeholder. */
  predicate PlainImage(image: string) {
    "f" <= image && '/' in image && !Contains(image, "placeholder") && !Contains(image, "203.0.113.")
  }

  lemma ImageApartFromOpened(image: string, v: string, before: string)
    requires PlainImage(image) && Opened(v) && v == before + "placeholder" + ""
    ensures Apart(image, v)
  {
    assert v == [v[0]] + v[1..];
    if Contains(image, v) { ContainsMiddle(image, before, "placeholder", ""); }
    if Contains(v, image) { ContainsChar(v, image, '/'); }
  }

  lemma ImageApartFromAddress(image: string, i: nat)
    requires PlainImage(image)
    ensures Apart(image, AddressPlaceholder(i))
  {
    AddressMarks(i);
    var v := AddressPlaceholder(i);
    if Contains(image, v) {
      assert v == "" + "203.0.113." + (Itoa(i) + "/32");
      ContainsMiddle(image, "", "203.0.113.", Itoa(i) + "/32");
    }
    if Contains(v, image) {
      assert image[0] in image && image[0] == "f"[0] == 'f';
      ContainsChar(v, image, 'f');
    }
  }

  lemma FixedApart(image: string)
    requires PlainImage(image)
    ensures AllApart([HOSTNAME_PLACEHOLDER, image])
  {
    hide Contains, Opened;
    HostnameOpened();
    assert HOSTNAME_PLACEHOLDER == "bootstrap-hostname-" + "placeholder" + "";
    ImageApartFromOpened(image, HOSTNAME_PLACEHOLDER, "bootstrap-hostname-");
    assert AllApart([image, HOSTNAME_PLACEHOLDER]);
  }

  lemma SlotApartFromFixed(image: string, shape: seq<SlotShape>, j: nat, v: string)
    requires PlainImage(image) && ValidShape(shape) && j < |shape| && SlotValue(shape, j, v)
    ensures Apart(HOSTNAME_PLACEHOLDER, v) && Apart(image, v)
  {
    hide Contains, Opened, Apart, PlainImage, IsSlot, MACPlaceholder, AddressPlaceholder;
    assert shape[j] in shape;
    var slot := shape[j].slot;
    MACOpened(slot);
    HostnameApart(slot);
    HostnameOpened();
    AddressApartFromOpened(j, HOSTNAME_PLACEHOLDER);
    ApartSymmetric(AddressPlaceholder(j), HOSTNAME_PLACEHOLDER);
    MACEnds(slot);
    ImageApartFromOpened(image, MACPlaceholder(slot), "bootstrap-" + slot + "-mac-");
    ImageApartFromAddress(image, j);
  }

  lemma MACEnds(slot: string)
    ensures MACPlaceholder(slot) == "bootstrap-" + slot + "-mac-" + "placeholder" + ""
  {
    assert "-mac-" + "placeholder" == "-mac-placeholder";
  }

  /** No placeholder of a shape with distinct valid slots occurs in another, nor the image in one, nor, if it spells
      none, one in the image. */
  lemma PlaceholdersApart(image: string, shape: seq<SlotShape>)
    requires PlainImage(image) && ValidShape(shape)
    ensures AllApart(Values(Swaps(image, shape)))
  {
    hide PlainImage, ValidShape, Apart, AllApart, Opened, IsSlot, SlotSwaps, SlotValue;
    var fixed := [HOSTNAME_PLACEHOLDER, image];
    FixedApart(image);
    if |shape| > 1 {
      var slots := Values(SlotSwaps(shape, |shape|));
      SlotSwapsApart(shape, |shape|);
      forall u, v | u in fixed && v in slots ensures Apart(u, v) {
        var j :| 0 <= j < |shape| && SlotValue(shape, j, v);
        SlotApartFromFixed(image, shape, j, v);
      }
      AllApartConcat(fixed, slots);
      assert Values(Swaps(image, shape)) == fixed + slots;
    } else {
      assert Values(Swaps(image, shape)) == fixed;
    }
  }

  // ----- so a config can hold every placeholder at a place of its own

  /** The holes from k on, each followed by a brace, which no placeholder holds. */
  function ClosedHoles(k: nat, n: nat): seq<Seg>
    requires k <= n
    decreases n - k
  {
    if k == n then [] else [Hole(k), Lit('}')] + ClosedHoles(k + 1, n)
  }

  lemma {:induction false} HolesListed(k: nat, n: nat)
    requires k <= n
    ensures forall s | s in ClosedHoles(k, n) :: s == Lit('}') || (s.Hole? && k <= s.k < n)
    ensures forall h | k <= h < n :: Hole(h) in ClosedHoles(k, n)
    decreases n - k
  {
    if k < n {
      HolesListed(k + 1, n);
      assert ClosedHoles(k, n)[0] == Hole(k);
    }
  }

  lemma FirstHole(sub: seq<string>, k: nat, rest: seq<Seg>)
    requires k < |sub|
    ensures Fill([Hole(k), Lit('}')] + rest, sub) == sub[k] + "}" + Fill(rest, sub)
  {
    var segs := [Hole(k), Lit('}')] + rest;
    assert segs[1..] == [Lit('}')] + rest && segs[1..][1..] == rest;
    assert Fill(segs[1..], sub) == "}" + Fill(rest, sub);
    assert sub[k] + ("}" + Fill(rest, sub)) == sub[k] + "}" + Fill(rest, sub);
  }

  /** What occurs in two texts joined by a brace lies in one of them, or holds the brace. */
  lemma OccursBesideBrace(a: string, b: string, v: string, p: nat)
    requires OccursAt(a + "}" + b, v, p)
    ensures OccursAt(a, v, p) || (p > |a| && OccursAt(b, v, p - |a| - 1)) || '}' in v
  {
    var t := a + "}" + b;
    if p + |v| <= |a| {
      assert t[p..p + |v|] == a[p..p + |v|];
    } else if p > |a| {
      assert t[p..p + |v|] == b[p - |a| - 1..p - |a| - 1 + |v|];
    } else {
      assert v[|a| - p] == t[p..p + |v|][|a| - p] == t[|a|] == '}';
    }
  }

  lemma HoleAtLater(sub: seq<string>, first: nat, rest: seq<Seg>, k: nat, p: nat)
    requires first < |sub| && HoleAt(rest, sub, k, p)
    ensures HoleAt([Hole(first), Lit('}')] + rest, sub, k, |sub[first]| + 1 + p)
  {
    hide Fill;
    var segs := [Hole(first), Lit('}')] + rest;
    var i :| 0 <= i < |rest| && rest[i] == Hole(k) && |Fill(rest[..i], sub)| == p;
    FirstHole(sub, first, rest[..i]);
    assert segs[..i + 2] == [Hole(first), Lit('}')] + rest[..i];
    assert segs[i + 2] == Hole(k);
  }

  lemma {:induction false} OccursAtItsHole(sub: seq<string>, m: nat, k: nat, p: nat)
    requires m <= |sub| && k < |sub| && AllApart(sub) && (forall v | v in sub :: v != "" && BraceFree(v))
    requires OccursAt(Fill(ClosedHoles(m, |sub|), sub), sub[k], p)
    ensures HoleAt(ClosedHoles(m, |sub|), sub, k, p)
    decreases |sub| - m
  {
    assert sub[k] in sub;
    if m < |sub| {
      var rest := ClosedHoles(m + 1, |sub|);
      var segs := ClosedHoles(m, |sub|);
      FirstHole(sub, m, rest);
      OccursBesideBrace(sub[m], Fill(rest, sub), sub[k], p);
      if OccursAt(sub[m], sub[k], p) {
        assert Contains(sub[m], sub[k]);
        assert segs[0] == Hole(k) && Fill(segs[..0], sub) == "";
      } else {
        OccursAtItsHole(sub, m + 1, k, p - |sub[m]| - 1);
        HoleAtLater(sub, m, rest, k, p - |sub[m]| - 1);
      }
    }
  }

  /** So every such shape has a config that holds each placeholder exactly at its own places, which templatize
      accepts. */
  lemma SomeConfigIsWellMade(image: string, shape: seq<SlotShape>)
    requires PlainImage(image) && BraceFree(image) && ValidShape(shape)
    ensures forall s | s in Swaps(image, shape) :: s.value != ""
    ensures var swaps := Swaps(image, shape);
            var segs := ClosedHoles(0, |swaps|);
            && Separate(segs, swaps) && RawOk(Fill(segs, Values(swaps)), swaps)
            && (forall k | 0 <= k < |swaps| :: Hole(k) in segs)
            && SwapAll(Fill(segs, Values(swaps)), swaps).Ok?
  {
    hide PlainImage, ValidShape, IsSlot, Contains, Fill, AllApart, SwapAll, Exec, OnlyAtHoles;
    var swaps := Swaps(image, shape);
    var sub, segs := Values(swaps), ClosedHoles(0, |swaps|);
    PlaceholdersApart(image, shape);
    HolesListed(0, |swaps|);
    SwapsSafe(image, shape);
    SafeValues(swaps);
    forall k | 0 <= k < |swaps| ensures OnlyAtHoles(segs, sub, k) {
      AtItsHolesOnly(sub, k);
    }
    NoOpeningBrace(sub, 0);
    NoBraceIsRawOk(Fill(segs, sub), swaps);
    SequentialIsSimultaneous(segs, swaps, map[]);
    forall k | 0 <= k < |swaps| ensures Contains(Fill(segs, sub), swaps[k].value) { HoleOccurs(segs, sub, k); }
  }

  lemma AtItsHolesOnly(sub: seq<string>, k: nat)
    requires k < |sub| && AllApart(sub) && (forall v | v in sub :: v != "" && BraceFree(v))
    ensures OnlyAtHoles(ClosedHoles(0, |sub|), sub, k)
  {
    hide Fill, AllApart, OccursAt, HoleAt;
    forall p: nat | OccursAt(Fill(ClosedHoles(0, |sub|), sub), sub[k], p)
      ensures HoleAt(ClosedHoles(0, |sub|), sub, k, p)
    {
      OccursAtItsHole(sub, 0, k, p);
    }
  }

  lemma SwapsSafe(image: string, shape: seq<SlotShape>)
    requires PlainImage(image) && BraceFree(image) && ValidShape(shape)
    ensures Safe(Swaps(image, shape)) && forall v | v in Values(Swaps(image, shape)) :: v != "" && BraceFree(v)
  {
    hide Contains, Swaps;
    SwapsAreSafe(image, shape);
  }

  lemma {:induction false} NoOpeningBrace(sub: seq<string>, m: nat)
    requires m <= |sub| && forall v | v in sub :: BraceFree(v)
    ensures '{' !in Fill(ClosedHoles(m, |sub|), sub)
    decreases |sub| - m
  {
    if m < |sub| {
      NoOpeningBrace(sub, m + 1);
      FirstHole(sub, m, ClosedHoles(m + 1, |sub|));
      assert sub[m] in sub;
    }
  }

  lemma NoBraceIsRawOk(raw: string, swaps: seq<Swap>)
    requires '{' !in raw
    ensures RawOk(raw, swaps)
  {
    if Contains(raw, "{{") { ContainsChar(raw, "{{", '{'); }
    forall i | 0 <= i < |swaps| ensures !Contains(raw, "{" + swaps[i].value) {
      if Contains(raw, "{" + swaps[i].value) { ContainsChar(raw, "{" + swaps[i].value, '{'); }
    }
  }
}
