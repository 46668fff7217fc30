/** Interface resolution and the checks it is split with (config/resolve.go, config/validate.go):
    optional blocks in, fully explicit interfaces out. */
module Resolve {
  import opened Common
  import opened Labels
  import opened Config
  import T = Templating

  const VLAN_MIN := 1
  const VLAN_MAX := 4094
  const MTU_MIN := 576
  const MTU_MAX := 65520

  predicate VLANOk(v: int) { v == 0 || VLAN_MIN <= v <= VLAN_MAX }

  predicate MTUOk(m: int) { m == 0 || MTU_MIN <= m <= MTU_MAX }

  // ----- one interface

  /** What a resolution step yields: the facts so far and the faults found. */
  datatype Step = Step(r: ResolvedInterface, faults: seq<Fault>)

  /** inlineModeAttrs: the plane-owned attributes the block sets itself. */
  function InlineAttrs(i: NetworkInterface): seq<string> {
    (if i.vlan.Some? then ["vlan"] else []) + (if i.dhcp.Some? then ["dhcp"] else [])
    + (if i.primary.Some? then ["primary"] else []) + (if i.cidr != "" then ["cidr"] else [])
    + (if i.mtu.Some? then ["mtu"] else [])
  }

  function ValidateInlineMode(p: Parsers, r: ResolvedInterface): seq<Fault> {
    (if r.primary && !r.dhcp then [StaticPrimary] else [])
    + if r.dhcp && r.cidr != "" then [CidrOnDhcp]
      else if r.cidr != "" && p.prefix(r.cidr).None? then [InvalidCidr]
      else []
  }

  function ResolveInline(p: Parsers, i: NetworkInterface, r: ResolvedInterface): Step
    requires i.dhcp.Some?
  {
    var r' := r.(dhcp := i.dhcp.value,
                 vlan := if i.vlan.Some? then i.vlan.value else r.vlan,
                 primary := if i.primary.Some? then i.primary.value else r.primary,
                 cidr := i.cidr,
                 mtu := if i.mtu.Some? then i.mtu.value else r.mtu);
    Step(r', (if VLANOk(r'.vlan) then [] else [InvalidVLAN]) + (if MTUOk(r'.mtu) then [] else [InvalidMTU])
             + ValidateInlineMode(p, r'))
  }

  /** resolveMode: the mode facts, from exactly one source. */
  function ResolveMode(p: Parsers, planes: map<string, Network>, i: NetworkInterface, r: ResolvedInterface): Step {
    if i.network != "" && InlineAttrs(i) != [] then Step(r, [ConflictingForms(InlineAttrs(i))])
    else if i.network != "" then
      if i.network !in planes then Step(r, [UnknownNetwork])
      else
        var plane := planes[i.network];
        Step(r.(vlan := plane.vlan, dhcp := plane.dhcp, primary := plane.primary, cidr := plane.cidr,
            mtu := plane.mtu), [])
    else if i.dhcp.None? then Step(r, [Incomplete])
    else ResolveInline(p, i, r)
  }

  function ValidateAddress(p: Parsers, r: ResolvedInterface): seq<Fault>
    requires p.Lawful()
  {
    if r.dhcp then (if r.address != "" then [AddressOnDhcp] else [])
    else if r.address == "" then [MissingAddress]
    else if p.prefix(r.address).None? then [InvalidAddress]
    else if r.cidr == "" || p.prefix(r.cidr).None? then []
    else
      var addr, cidr := p.prefix(r.address).value, p.prefix(r.cidr).value;
      if !cidr.Contains(addr.ip) then [OutsideCidr]
      else if addr.bits != cidr.bits then [PrefixLengthDiffers]
      else []
  }

  /** The block with its MAC rewritten to the canonical form when it has one. */
  function Canonical(p: Parsers, i: NetworkInterface): NetworkInterface {
    match p.mac(i.mac)
    case Some(mac) => i.(mac := mac)
    case None => i
  }

  function ResolveInterface(p: Parsers, planes: map<string, Network>, i: NetworkInterface): Step
    requires p.Lawful()
  {
    var start := ResolvedInterface(i.name, if p.mac(i.mac).Some? then p.mac(i.mac).value else "", i.bridge,
                                   0, false, false, i.address, "", 0);
    var macFaults := if p.mac(i.mac).None? then [InvalidMAC] else [];
    var mode := ResolveMode(p, planes, i, start);
    if mode.faults != [] then Step(mode.r, macFaults + mode.faults)
    else Step(mode.r, macFaults + ValidateAddress(p, mode.r))
  }

  // ----- what a block means, independently of the order it is checked in

  /** The interface carries the plane's facts. */
  predicate Inherits(r: ResolvedInterface, n: Network) {
    r.vlan == n.vlan && r.dhcp == n.dhcp && r.primary == n.primary && r.cidr == n.cidr && r.mtu == n.mtu
  }

  function Default<A>(x: Option<A>, default: A): A {
    if x.Some? then x.value else default
  }

  /** r is the block made explicit: its own slot, canonical MAC, bridge and address, and the mode of its plane or its
      own, what it leaves out being untagged, not primary and without an mtu. */
  ghost predicate Explicit(p: Parsers, planes: map<string, Network>, i: NetworkInterface, r: ResolvedInterface) {
    && r.slot == i.name && p.mac(i.mac) == Some(r.mac) && r.bridge == i.bridge && r.address == i.address
    && if i.network != "" then i.network in planes && Inherits(r, planes[i.network])
       else
         && i.dhcp == Some(r.dhcp) && r.vlan == Default(i.vlan, 0) && r.primary == Default(i.primary, false)
         && r.cidr == i.cidr && r.mtu == Default(i.mtu, 0)
  }

  /** A reference sets nothing the plane owns; an inline mode passes the plane's rules but for a cidr. */
  ghost predicate ModeOk(p: Parsers, i: NetworkInterface, r: ResolvedInterface) {
    if i.network != "" then
      i.vlan.None? && i.dhcp.None? && i.primary.None? && i.cidr == "" && i.mtu.None?
    else
      && (r.vlan == 0 || 1 <= r.vlan <= 4094) && (r.mtu == 0 || 576 <= r.mtu <= 65520) && (r.primary ==> r.dhcp)
      && (r.cidr != "" ==> !r.dhcp && p.prefix(r.cidr).Some?)
  }

  /** A lease owns the address; a static one is given with its network, and agrees with its cidr if that parses. */
  ghost predicate AddressOk(p: Parsers, r: ResolvedInterface)
    requires p.Lawful()
  {
    if r.dhcp then r.address == ""
    else
      && p.prefix(r.address).Some?
      && (p.prefix(r.cidr).Some? ==>
            var address, cidr := p.prefix(r.address).value, p.prefix(r.cidr).value;
            cidr.Contains(address.ip) && address.bits == cidr.bits)
  }

  ghost predicate AcceptedAs(p: Parsers, planes: map<string, Network>, i: NetworkInterface, r: ResolvedInterface)
    requires p.Lawful()
  {
    Explicit(p, planes, i, r) && ModeOk(p, i, r) && AddressOk(p, r)
  }

  /** A block resolves without a fault exactly when it has an acceptable explicit form, and then to that form. */
  lemma ResolvesIffAccepted(p: Parsers, planes: map<string, Network>, i: NetworkInterface)
    requires p.Lawful()
    ensures ResolveInterface(p, planes, i).faults == [] <==> exists r :: AcceptedAs(p, planes, i, r)
    ensures forall r | AcceptedAs(p, planes, i, r) :: ResolveInterface(p, planes, i).r == r
  {
    NoInlineAttrs(i);
    var s := ResolveInterface(p, planes, i);
    if s.faults == [] {
      assert AcceptedAs(p, planes, i, s.r);
    }
    forall r | AcceptedAs(p, planes, i, r) ensures s == Step(r, []) {}
  }

  lemma NoInlineAttrs(i: NetworkInterface)
    ensures InlineAttrs(i) == [] <==>
              i.vlan.None? && i.dhcp.None? && i.primary.None? && i.cidr == "" && i.mtu.None?
  {}

  // ----- planes

  /** validateNetwork */
  function NetworkFaults(p: Parsers, n: Network): seq<Fault> {
    (if n.primary && !n.dhcp then [StaticPrimary] else [])
    + (if VLANOk(n.vlan) then [] else [InvalidVLAN]) + (if MTUOk(n.mtu) then [] else [InvalidMTU])
    + if !n.dhcp && n.cidr == "" then [MissingCidr]
      else if n.dhcp && n.cidr != "" then [CidrOnDhcp]
      else if n.cidr != "" && p.prefix(n.cidr).None? then [InvalidCidr]
      else []
  }

  /** planes[name]: a later declaration of the same name wins. */
  function Planes(networks: seq<Network>): map<string, Network> {
    if networks == [] then map[]
    else Planes(networks[..|networks| - 1])[networks[|networks| - 1].name := networks[|networks| - 1]]
  }

  /** A plane's facts written inline in a block that referenced it. */
  function Inlined(i: NetworkInterface, n: Network): NetworkInterface {
    i.(network := "", vlan := Some(n.vlan), dhcp := Some(n.dhcp), primary := Some(n.primary), cidr := n.cidr,
        mtu := Some(n.mtu))
  }

  /** For a plane that passes validation, writing its facts inline instead of referencing it changes nothing:
      the same outcome, the same faults, the same resolved interface. */
  lemma InliningPreservesMeaning(p: Parsers, planes: map<string, Network>, i: NetworkInterface)
    requires p.Lawful() && i.network != "" && InlineAttrs(i) == [] && i.network in planes
    requires NetworkFaults(p, planes[i.network]) == []
    ensures ResolveInterface(p, planes, Inlined(i, planes[i.network])) == ResolveInterface(p, planes, i)
  {
    InliningExact(p, planes, i);
  }

  /** Without that premise: of a block whose reference form is accepted, the inline form is accepted too
      exactly when the plane's vlan, mtu, primary and cidr pass - the one plane rule the inline form lacks is
      that a static plane must have a cidr. */
  lemma InliningExact(p: Parsers, planes: map<string, Network>, i: NetworkInterface)
    requires p.Lawful() && i.network != "" && InlineAttrs(i) == [] && i.network in planes
    ensures var n, a, b := planes[i.network], ResolveInterface(p, planes, i),
            ResolveInterface(p, planes, Inlined(i, planes[i.network]));
            && b.r == a.r
            && ((forall f | f in NetworkFaults(p, n) :: f == MissingCidr) ==> b == a)
            && (a.faults == [] ==> (b.faults == [] <==> forall f | f in NetworkFaults(p, n) :: f == MissingCidr))
  {
    var n := planes[i.network];
    assert i.vlan == None && i.dhcp == None && i.primary == None && i.mtu == None && i.cidr == "";
    var start := ResolvedInterface(i.name, if p.mac(i.mac).Some? then p.mac(i.mac).value else "", i.bridge,
                                   0, false, false, i.address, "", 0);
    var x, y := ResolveMode(p, planes, i, start), ResolveMode(p, planes, Inlined(i, n), start);
    assert y == ResolveInline(p, Inlined(i, n), start);
    assert x.r == y.r && x.faults == [];
    InlineFaults(p, n, y);
  }

  predicate PassesInline(p: Parsers, n: Network) {
    && !(n.primary && !n.dhcp) && VLANOk(n.vlan) && MTUOk(n.mtu)
    && (n.dhcp ==> n.cidr == "") && (!n.dhcp && n.cidr != "" ==> p.prefix(n.cidr).Some?)
  }

  lemma PlanePasses(p: Parsers, n: Network)
    ensures PassesInline(p, n) <==> forall f | f in NetworkFaults(p, n) :: f == MissingCidr
  {
    var faults := NetworkFaults(p, n);
    if PassesInline(p, n) {
      assert faults == if !n.dhcp && n.cidr == "" then [MissingCidr] else [];
    } else if n.primary && !n.dhcp {
      assert faults[0] == StaticPrimary && faults[0] in faults;
    } else if !VLANOk(n.vlan) {
      assert faults[0] == InvalidVLAN && faults[0] in faults;
    } else if !MTUOk(n.mtu) {
      assert faults[0] == InvalidMTU && faults[0] in faults;
    } else {
      assert (faults[0] == CidrOnDhcp || faults[0] == InvalidCidr) && faults[0] in faults;
    }
  }

  /** A plane in order: its tag and mtu in range, a primary on a lease, and a cidr exactly when static. */
  predicate PlaneOk(p: Parsers, n: Network) {
    && (n.vlan == 0 || 1 <= n.vlan <= 4094) && (n.mtu == 0 || 576 <= n.mtu <= 65520) && (n.primary ==> n.dhcp)
    && if n.dhcp then n.cidr == "" else n.cidr != "" && p.prefix(n.cidr).Some?
  }

  lemma PlaneCleanIff(p: Parsers, n: Network)
    ensures NetworkFaults(p, n) == [] <==> PlaneOk(p, n)
  {}

  lemma InlineFaults(p: Parsers, n: Network, y: Step)
    requires y.r.vlan == n.vlan && y.r.mtu == n.mtu && y.r.primary == n.primary && y.r.dhcp == n.dhcp
             && y.r.cidr == n.cidr
    requires y.faults == (if VLANOk(n.vlan) then [] else [InvalidVLAN]) + (if MTUOk(n.mtu) then [] else [InvalidMTU])
             + ValidateInlineMode(p, y.r)
    ensures y.faults == [] <==> forall f | f in NetworkFaults(p, n) :: f == MissingCidr
  {
    PlanePasses(p, n);
    var mode := ValidateInlineMode(p, y.r);
    if n.primary && !n.dhcp {
      assert mode[0] == StaticPrimary;
    }
  }

  // ----- slots

  const MAX_INT := 0x7FFF_FFFF_FFFF_FFFF

  /** slotIndex: strconv.Atoi of the digits; a number beyond 64 bits is the error case. */
  function SlotIndex(slot: string): int {
    if T.IsSlot(slot) && T.ParseDigits(slot[3..]) <= MAX_INT then T.ParseDigits(slot[3..]) else -1
  }

  /** Slot order is numeric order exactly as far as the numbers fit 64 bits: beyond, the conversion fails and
      the label sorts before every other. */
  lemma SlotOrderIsNumericIff(a: string, b: string)
    requires T.IsSlot(a) && T.IsSlot(b) && T.ParseDigits(a[3..]) < T.ParseDigits(b[3..])
    ensures SlotIndex(a) < SlotIndex(b) <==> T.ParseDigits(b[3..]) <= MAX_INT
  {}

  function Zeros(n: nat): string {
    if n == 0 then "" else Zeros(n - 1) + "0"
  }

  function TenTo(n: nat): nat {
    if n == 0 then 1 else 10 * TenTo(n - 1)
  }

  lemma {:induction false} PowerParses(n: nat)
    ensures T.IsSlot("net1" + Zeros(n)) && T.ParseDigits(("net1" + Zeros(n))[3..]) == TenTo(n)
  {
    var s := "net1" + Zeros(n);
    if n == 0 {
      assert s == "net1" && s[3..] == "1" && "1"[..0] == "";
    } else {
      var before := "net1" + Zeros(n - 1);
      PowerParses(n - 1);
      assert s == before + "0" && s[3..] == before[3..] + "0";
      assert s[3..][..|s[3..]| - 1] == before[3..];
    }
  }

  /** The label net10000000000000000000 is accepted, reaches the conversion's error case, and sorts before net0. */
  lemma WideSlotSortsFirst()
    ensures var wide := "net1" + Zeros(19); T.IsSlot(wide) && SlotIndex(wide) == -1 && SlotIndex("net0") == 0
  {
    PowerParses(19);
    assert TenTo(19) == 10 * TenTo(18) && TenTo(9) == 1_000_000_000;
    TensMultiply(9, 9);
    assert "net0"[3..] == "0" && "0"[..0] == "";
  }

  lemma {:induction false} TensMultiply(a: nat, b: nat)
    ensures TenTo(a + b) == TenTo(a) * TenTo(b)
  {
    if b > 0 { TensMultiply(a, b - 1); }
  }

  ghost predicate SlotsOrdered(xs: seq<ResolvedInterface>) {
    forall i, j | 0 <= i < j < |xs| :: SlotIndex(xs[i].slot) <= SlotIndex(xs[j].slot)
  }

  function Slots(xs: seq<ResolvedInterface>): seq<string> {
    seq(|xs|, i requires 0 <= i < |xs| => xs[i].slot)
  }

  function InsertSlot(x: ResolvedInterface, xs: seq<ResolvedInterface>): (r: seq<ResolvedInterface>)
    ensures multiset(r) == multiset([x] + xs)
  {
    if xs == [] || SlotIndex(x.slot) <= SlotIndex(xs[0].slot) then [x] + xs
    else assert xs == [xs[0]] + xs[1..]; [xs[0]] + InsertSlot(x, xs[1..])
  }

  /** sort.Slice by slot index. Its order among equal indexes is unspecified; the model keeps theirs, and
      nothing below depends on it. */
  function SortSlots(xs: seq<ResolvedInterface>): (r: seq<ResolvedInterface>)
    ensures multiset(r) == multiset(xs)
  {
    if xs == [] then [] else assert xs == [xs[0]] + xs[1..]; InsertSlot(xs[0], SortSlots(xs[1..]))
  }

  function PrimarySlots(xs: seq<ResolvedInterface>): seq<string> {
    if xs == [] then []
    else PrimarySlots(xs[..|xs| - 1]) + if xs[|xs| - 1].primary then [xs[|xs| - 1].slot] else []
  }

  function PrimaryCount(xs: seq<ResolvedInterface>): nat {
    if xs == [] then 0 else (if xs[0].primary then 1 else 0) + PrimaryCount(xs[1..])
  }

  lemma InsertSlotMembers(x: ResolvedInterface, xs: seq<ResolvedInterface>)
    ensures forall r | r in InsertSlot(x, xs) :: r == x || r in xs
  {
    hide InsertSlot;
    forall r | r in InsertSlot(x, xs) ensures r == x || r in xs {
      assert r in multiset(InsertSlot(x, xs));
      assert r in multiset([x] + xs);
    }
  }

  lemma SlotsOrderedCons(x: ResolvedInterface, xs: seq<ResolvedInterface>)
    requires SlotsOrdered(xs) && forall r | r in xs :: SlotIndex(x.slot) <= SlotIndex(r.slot)
    ensures SlotsOrdered([x] + xs)
  {
    hide SlotIndex;
  }

  lemma {:induction false} InsertSlotOrdered(x: ResolvedInterface, xs: seq<ResolvedInterface>)
    requires SlotsOrdered(xs)
    ensures SlotsOrdered(InsertSlot(x, xs))
  {
    hide SlotIndex;
    if xs == [] || SlotIndex(x.slot) <= SlotIndex(xs[0].slot) {
      forall r | r in xs ensures SlotIndex(x.slot) <= SlotIndex(r.slot) {
        var k :| 0 <= k < |xs| && xs[k] == r;
      }
      SlotsOrderedCons(x, xs);
    } else {
      InsertSlotOrdered(x, xs[1..]);
      InsertSlotMembers(x, xs[1..]);
      forall r | r in InsertSlot(x, xs[1..]) ensures SlotIndex(xs[0].slot) <= SlotIndex(r.slot) {
        if r != x { var k :| 0 <= k < |xs[1..]| && xs[1..][k] == r; }
      }
      SlotsOrderedCons(xs[0], InsertSlot(x, xs[1..]));
    }
  }

  lemma {:induction false} SortSlotsOrdered(xs: seq<ResolvedInterface>)
    ensures SlotsOrdered(SortSlots(xs))
  {
    if xs != [] {
      SortSlotsOrdered(xs[1..]);
      InsertSlotOrdered(xs[0], SortSlots(xs[1..]));
    }
  }

  lemma {:induction false} InsertSlotCounts(x: ResolvedInterface, xs: seq<ResolvedInterface>)
    ensures PrimaryCount(InsertSlot(x, xs)) == (if x.primary then 1 else 0) + PrimaryCount(xs)
  {
    if xs == [] || SlotIndex(x.slot) <= SlotIndex(xs[0].slot) {
      assert ([x] + xs)[1..] == xs;
    } else {
      InsertSlotCounts(x, xs[1..]);
      assert ([xs[0]] + InsertSlot(x, xs[1..]))[1..] == InsertSlot(x, xs[1..]);
    }
  }

  lemma {:induction false} SortSlotsCounts(xs: seq<ResolvedInterface>)
    ensures PrimaryCount(SortSlots(xs)) == PrimaryCount(xs)
  {
    if xs != [] {
      SortSlotsCounts(xs[1..]);
      InsertSlotCounts(xs[0], SortSlots(xs[1..]));
    }
  }

  /** Slot labels stay distinct, and the same, under any reordering. */
  lemma PermutedSlots(a: seq<ResolvedInterface>, b: seq<ResolvedInterface>)
    requires multiset(a) == multiset(b) && Distinct(Slots(a))
    ensures Distinct(Slots(b)) && Elems(Slots(b)) == Elems(Slots(a))
  {
    forall i, j | 0 <= i < j < |a| ensures a[i] != a[j] {
      assert Slots(a)[i] != Slots(a)[j];
    }
    DistinctByCount(a, b);
    forall i, j | 0 <= i < j < |b| ensures Slots(b)[i] != Slots(b)[j] {
      assert b[i] in multiset(a) && b[j] in multiset(a);
      var p :| 0 <= p < |a| && a[p] == b[i];
      var q :| 0 <= q < |a| && a[q] == b[j];
      assert p != q && Slots(a)[p] != Slots(a)[q];
    }
    SlotsWithin(a, b);
    SlotsWithin(b, a);
  }

  lemma SlotsWithin(a: seq<ResolvedInterface>, b: seq<ResolvedInterface>)
    requires multiset(a) == multiset(b)
    ensures Elems(Slots(a)) <= Elems(Slots(b))
  {
    forall s | s in Slots(a) ensures s in Slots(b) {
      var i :| 0 <= i < |a| && a[i].slot == s;
      assert a[i] in multiset(b);
      var j :| 0 <= j < |b| && b[j] == a[i];
      assert Slots(b)[j] == s;
    }
  }

  lemma {:induction false} PrimaryCountAppend(xs: seq<ResolvedInterface>, x: ResolvedInterface)
    ensures PrimaryCount(xs + [x]) == PrimaryCount(xs) + if x.primary then 1 else 0
  {
    if xs == [] {
      assert xs + [x] == [x] && [x][1..] == [];
    } else {
      PrimaryCountAppend(xs[1..], x);
      assert (xs + [x])[1..] == xs[1..] + [x];
    }
  }

  // ----- one node

  function Labelled(owner: string, slot: string, faults: seq<Fault>): seq<Diag> {
    seq(|faults|, i requires 0 <= i < |faults| => Diag(owner, slot, faults[i]))
  }

  function Names(blocks: seq<NetworkInterface>): seq<string> {
    seq(|blocks|, i requires 0 <= i < |blocks| => blocks[i].name)
  }

  function LabelFaults(names: seq<string>, k: nat): seq<Fault>
    requires k < |names|
  {
    (if T.IsSlot(names[k]) then [] else [InvalidSlot]) + if names[k] in names[..k] then [DuplicateSlot] else []
  }

  /** Every block resolved on its own. */
  function StepsOf(p: Parsers, planes: map<string, Network>, blocks: seq<NetworkInterface>): seq<Step>
    requires p.Lawful()
  {
    seq(|blocks|, i requires 0 <= i < |blocks| => ResolveInterface(p, planes, blocks[i]))
  }

  function AllCanonical(p: Parsers, blocks: seq<NetworkInterface>): seq<NetworkInterface> {
    seq(|blocks|, i requires 0 <= i < |blocks| => Canonical(p, blocks[i]))
  }

  /** The state of the interface loop after its first k blocks. */
  datatype Scan = Scan(resolved: seq<ResolvedInterface>, primaries: seq<string>, diags: seq<Diag>)

  function ScanTo(owner: string, names: seq<string>, steps: seq<Step>, k: nat): Scan
    requires k <= |steps| == |names|
  {
    if k == 0 then Scan([], [], [])
    else
      var s, step := ScanTo(owner, names, steps, k - 1), steps[k - 1];
      var diags := s.diags + Labelled(owner, names[k - 1], LabelFaults(names, k - 1))
          + Labelled(owner, names[k - 1], step.faults);
      if step.faults != [] then Scan(s.resolved, s.primaries, diags)
      else Scan(s.resolved + [step.r], s.primaries + (if step.r.primary then [step.r.slot] else []), diags)
  }

  /** resolveNode: the node after resolution, and what was reported. */
  function ResolvedNode(p: Parsers, t: Talos, planes: map<string, Network>, n: TalosNode): (TalosNode, seq<Diag>)
    requires p.Lawful()
  {
    if n.interfaces == [] then (n, [Diag(n.name, "", MissingInterface)])
    else
      var s := ScanTo(n.name, Names(n.interfaces), StepsOf(p, planes, n.interfaces), |n.interfaces|);
      Concluded(p, t, n, s)
  }

  function Concluded(p: Parsers, t: Talos, n: TalosNode, s: Scan): (TalosNode, seq<Diag>) {
    var n' := n.(interfaces := AllCanonical(p, n.interfaces));
    if s.diags != [] then (n', s.diags)
    else if |s.primaries| != 1 then (n', [Diag(n.name, "", NotOnePrimary(s.primaries))])
    else (n'.(resolved := SortSlots(s.resolved), resolvedLabels := LabelsOf(t, n)), [])
  }

  function LabelsOf(t: Talos, n: TalosNode): LabelSet {
    DerivedLabels(RuntimesOf(RUNTIMES, ExtensionsOf(t.profiles, n.profiles)), n.labels)
  }

  lemma ScanStep(owner: string, names: seq<string>, steps: seq<Step>, k: nat)
    requires k < |steps| == |names|
    ensures var s, step := ScanTo(owner, names, steps, k), steps[k];
            var diags := s.diags + Labelled(owner, names[k], LabelFaults(names, k))
                + Labelled(owner, names[k], step.faults);
            ScanTo(owner, names, steps, k + 1) ==
              if step.faults != [] then Scan(s.resolved, s.primaries, diags)
              else Scan(s.resolved + [step.r], s.primaries + (if step.r.primary then [step.r.slot] else []), diags)
  {}

  /** The label checks of one block. */
  method CheckLabel(owner: string, names: seq<string>, k: nat, seen: set<string>) returns (diags: seq<Diag>)
    requires k < |names| && seen == Elems(names[..k])
    ensures diags == Labelled(owner, names[k], LabelFaults(names, k))
  {
    diags := [];
    if !T.IsSlot(names[k]) {
      diags := diags + [Diag(owner, names[k], InvalidSlot)];
    }
    if names[k] in seen {
      diags := diags + [Diag(owner, names[k], DuplicateSlot)];
    }
  }

  /** The interface loop: MACs are rewritten in place as the blocks resolve. */
  method ScanBlocks(p: Parsers, planes: map<string, Network>, owner: string, declared: seq<NetworkInterface>)
    returns (blocks: seq<NetworkInterface>, resolved: seq<ResolvedInterface>, primaries: seq<string>, diags: seq<Diag>)
    requires p.Lawful()
    ensures blocks == AllCanonical(p, declared)
    ensures Scan(resolved, primaries, diags) == ScanTo(owner, Names(declared), StepsOf(p, planes, declared), |declared|)
  {
    hide ResolveInterface, Canonical, LabelFaults, ScanTo, Labelled;
    blocks, resolved, primaries, diags := declared, [], [], [];
    var seen: set<string> := {};
    var names := Names(declared);
    ghost var steps := StepsOf(p, planes, declared);
    ScanStart(owner, names, steps);
    for k := 0 to |declared|
      invariant Scan(resolved, primaries, diags) == ScanTo(owner, names, steps, k)
      invariant |blocks| == |declared| && seen == Elems(names[..k])
      invariant forall j | 0 <= j < |declared| :: blocks[j] == if j < k then Canonical(p, declared[j]) else declared[j]
    {
      var i := declared[k];
      ScanStep(owner, names, steps, k);
      var labelDiags := CheckLabel(owner, names, k, seen);
      assert names[..k + 1] == names[..k] + [i.name];
      ElemsConcat(names[..k], [i.name]);
      seen := seen + {i.name};
      var step := ResolveInterface(p, planes, i);
      blocks := blocks[k := Canonical(p, i)];
      diags := diags + labelDiags + Labelled(owner, i.name, step.faults);
      if step.faults != [] {
        continue;
      }
      primaries := primaries + if step.r.primary then [step.r.slot] else [];
      resolved := resolved + [step.r];
    }
  }

  lemma ScanStart(owner: string, names: seq<string>, steps: seq<Step>)
    requires |steps| == |names|
    ensures ScanTo(owner, names, steps, 0) == Scan([], [], [])
  {}

  method ResolveNode(p: Parsers, t: Talos, planes: map<string, Network>, n: TalosNode)
    returns (n': TalosNode, diags: seq<Diag>)
    requires p.Lawful()
    ensures (n', diags) == ResolvedNode(p, t, planes, n)
  {
    if |n.interfaces| == 0 {
      return n, [Diag(n.name, "", MissingInterface)];
    }
    var blocks, resolved, primaries;
    blocks, resolved, primaries, diags := ScanBlocks(p, planes, n.name, n.interfaces);
    n' := n.(interfaces := blocks);
    if diags != [] {
      return;
    }
    if |primaries| != 1 {
      diags := [Diag(n.name, "", NotOnePrimary(primaries))];
      return;
    }
    var labels := ResolveLabels(t, n);
    n' := n'.(resolved := SortSlots(resolved), resolvedLabels := labels);
  }

  // ----- what a clean node satisfies

  /** The facts of one resolved interface, whichever way they arrived. */
  ghost predicate SoundInterface(p: Parsers, r: ResolvedInterface)
    requires p.Lawful()
  {
    && T.IsSlot(r.slot) && p.mac(r.mac) == Some(r.mac)
    && VLANOk(r.vlan) && MTUOk(r.mtu)
    && (r.primary ==> r.dhcp) && (r.dhcp <==> r.address == "") && (r.dhcp ==> r.cidr == "")
    && (!r.dhcp ==> p.prefix(r.address).Some?)
    && (r.cidr != "" ==>
          && p.prefix(r.cidr).Some?
          && p.prefix(r.cidr).value.Contains(p.prefix(r.address).value.ip)
          && p.prefix(r.cidr).value.bits == p.prefix(r.address).value.bits)
  }

  ghost predicate SoundPlanes(p: Parsers, planes: map<string, Network>) {
    forall name | name in planes :: NetworkFaults(p, planes[name]) == []
  }

  /** Checks are split between plane and interface; together they leave nothing unchecked. */
  lemma CleanInterfaceIsSound(p: Parsers, planes: map<string, Network>, i: NetworkInterface)
    requires p.Lawful() && SoundPlanes(p, planes) && T.IsSlot(i.name)
    requires ResolveInterface(p, planes, i).faults == []
    ensures SoundInterface(p, ResolveInterface(p, planes, i).r)
  {
    if i.network in planes { PlanePasses(p, planes[i.network]); }
  }

  lemma LabelledLength(owner: string, slot: string, faults: seq<Fault>)
    ensures |Labelled(owner, slot, faults)| == |faults|
  {}

  lemma NonePrimary()
    ensures PrimaryCount([]) == 0
  {}

  lemma {:induction false} CleanScan(owner: string, names: seq<string>, steps: seq<Step>, k: nat)
    requires k <= |steps| == |names| && ScanTo(owner, names, steps, k).diags == []
    ensures var s := ScanTo(owner, names, steps, k);
            && |s.resolved| == k && |s.primaries| == PrimaryCount(s.resolved)
            && (forall j | 0 <= j < k ::
                  LabelFaults(names, j) == [] && steps[j].faults == [] && s.resolved[j] == steps[j].r)
  {
    hide Labelled, LabelFaults, PrimaryCount;
    if k == 0 {
      NonePrimary();
    } else {
      var s := ScanTo(owner, names, steps, k - 1);
      CleanScan(owner, names, steps, k - 1);
      PrimaryCountAppend(s.resolved, steps[k - 1].r);
      LabelledLength(owner, names[k - 1], LabelFaults(names, k - 1));
      LabelledLength(owner, names[k - 1], steps[k - 1].faults);
    }
  }

  /** A node that resolved without a diagnostic: one sound interface per declared block, in slot order, with
      distinct slots and exactly one primary. */
  ghost predicate WellResolved(p: Parsers, t: Talos, n: TalosNode, before: TalosNode)
    requires p.Lawful()
  {
    && n.interfaces == AllCanonical(p, before.interfaces)
    && |n.resolved| == |before.interfaces| > 0
    && Distinct(Slots(n.resolved)) && Elems(Slots(n.resolved)) == Elems(Names(before.interfaces))
    && SlotsOrdered(n.resolved)
    && (forall r | r in n.resolved :: SoundInterface(p, r))
    && PrimaryCount(n.resolved) == 1
    && n.resolvedLabels == LabelsOf(t, before)
  }

  lemma CleanScanIsSound(p: Parsers, planes: map<string, Network>, owner: string, blocks: seq<NetworkInterface>)
    requires p.Lawful() && SoundPlanes(p, planes)
    requires ScanTo(owner, Names(blocks), StepsOf(p, planes, blocks), |blocks|).diags == []
    ensures var s := ScanTo(owner, Names(blocks), StepsOf(p, planes, blocks), |blocks|);
            && |s.primaries| == PrimaryCount(s.resolved) && Slots(s.resolved) == Names(blocks)
                && Distinct(Names(blocks))
            && forall r | r in s.resolved :: SoundInterface(p, r)
  {
    hide ResolveInterface, SoundInterface, ScanTo, SoundPlanes, T.IsSlot;
    var names, steps := Names(blocks), StepsOf(p, planes, blocks);
    var s := ScanTo(owner, names, steps, |blocks|);
    CleanScan(owner, names, steps, |blocks|);
    forall j | 0 <= j < |blocks| ensures names[j] !in names[..j] && s.resolved[j].slot == names[j]
        && SoundInterface(p, s.resolved[j]) {
      CleanLabel(names, j);
      StepKeepsSlot(p, planes, blocks[j]);
      assert s.resolved[j] == ResolveInterface(p, planes, blocks[j]).r;
      CleanInterfaceIsSound(p, planes, blocks[j]);
    }
    forall i, j | 0 <= i < j < |names| ensures names[i] != names[j] {
      assert names[i] == names[..j][i];
    }
  }

  lemma CleanLabel(names: seq<string>, j: nat)
    requires j < |names| && LabelFaults(names, j) == []
    ensures T.IsSlot(names[j]) && names[j] !in names[..j]
  {}

  lemma StepKeepsSlot(p: Parsers, planes: map<string, Network>, i: NetworkInterface)
    requires p.Lawful()
    ensures ResolveInterface(p, planes, i).r.slot == i.name
  {}

  lemma CleanNodeIsWellResolved(p: Parsers, t: Talos, planes: map<string, Network>, n: TalosNode)
    requires p.Lawful() && SoundPlanes(p, planes) && ResolvedNode(p, t, planes, n).1 == []
    ensures WellResolved(p, t, ResolvedNode(p, t, planes, n).0, n)
  {
    hide ResolveInterface, SoundInterface;
    var s := ScanTo(n.name, Names(n.interfaces), StepsOf(p, planes, n.interfaces), |n.interfaces|);
    CleanScanIsSound(p, planes, n.name, n.interfaces);
    var sorted := SortSlots(s.resolved);
    PermutedSlots(s.resolved, sorted);
    SortSlotsOrdered(s.resolved);
    SortSlotsCounts(s.resolved);
    assert |sorted| == |multiset(sorted)| == |multiset(s.resolved)| == |Slots(s.resolved)|;
    forall r | r in sorted ensures SoundInterface(p, r) {
      assert r in multiset(sorted);
    }
  }

  // ----- exactly which nodes are clean, and what they then hold

  lemma {:induction false} ScanCleanIff(owner: string, names: seq<string>, steps: seq<Step>, k: nat)
    requires k <= |steps| == |names|
    ensures ScanTo(owner, names, steps, k).diags == [] <==>
              forall j | 0 <= j < k :: LabelFaults(names, j) == [] && steps[j].faults == []
  {
    hide Labelled, LabelFaults;
    if k > 0 {
      ScanCleanIff(owner, names, steps, k - 1);
      LabelledLength(owner, names[k - 1], LabelFaults(names, k - 1));
      LabelledLength(owner, names[k - 1], steps[k - 1].faults);
    }
  }

  lemma SlotLabelsCleanIff(names: seq<string>)
    ensures (forall j | 0 <= j < |names| :: LabelFaults(names, j) == []) <==>
              Distinct(names) && forall s | s in names :: T.IsSlot(s)
  {
    hide T.IsSlot;
    if forall j | 0 <= j < |names| :: LabelFaults(names, j) == [] {
      forall i, j | 0 <= i < j < |names| ensures names[i] != names[j] {
        assert LabelFaults(names, j) == [] && names[i] == names[..j][i];
      }
      forall s | s in names ensures T.IsSlot(s) {
        var j :| 0 <= j < |names| && names[j] == s;
        assert LabelFaults(names, j) == [];
      }
    } else {
      var j :| 0 <= j < |names| && LabelFaults(names, j) != [];
      if names[j] in names[..j] {
        var i :| 0 <= i < j && names[..j][i] == names[j];
        assert names[i] == names[j];
      } else {
        assert names[j] in names && !T.IsSlot(names[j]);
      }
    }
  }

  ghost predicate OnlyAt(xs: seq<ResolvedInterface>, k: int) {
    0 <= k < |xs| && xs[k].primary && forall j | 0 <= j < |xs| && xs[j].primary :: j == k
  }

  lemma {:induction false} OnePrimaryIff(xs: seq<ResolvedInterface>)
    ensures PrimaryCount(xs) == 0 <==> forall x | x in xs :: !x.primary
    ensures PrimaryCount(xs) == 1 <==> exists k :: OnlyAt(xs, k)
  {
    if xs != [] {
      var rest := xs[1..];
      OnePrimaryIff(rest);
      assert forall x | x in xs :: x == xs[0] || x in rest;
      if xs[0].primary {
        assert OnlyAt(xs, 0) <==> forall x | x in rest :: !x.primary by {
          assert forall j | 0 < j < |xs| :: xs[j] == rest[j - 1];
          assert forall j | 0 <= j < |rest| :: rest[j] == xs[j + 1];
        }
        assert forall k :: OnlyAt(xs, k) ==> k == 0;
      } else {
        forall k ensures OnlyAt(xs, k) <==> OnlyAt(rest, k - 1) {
          assert forall j | 0 < j < |xs| :: xs[j] == rest[j - 1];
          assert forall j | 0 <= j < |rest| :: rest[j] == xs[j + 1];
        }
        if k :| OnlyAt(rest, k) { assert OnlyAt(xs, k + 1); }
      }
    }
  }

  /** The blocks' explicit forms, in declared order. */
  ghost predicate AllAccepted(p: Parsers, planes: map<string, Network>, blocks: seq<NetworkInterface>,
                              forms: seq<ResolvedInterface>)
    requires p.Lawful()
  {
    |forms| == |blocks| && forall k | 0 <= k < |blocks| :: AcceptedAs(p, planes, blocks[k], forms[k])
  }

  /** A node resolves without a diagnostic exactly when it has an interface, its labels are distinct slots, every
      block is acceptable, and exactly one of their explicit forms is primary; it then holds exactly these forms. */
  lemma NodeResolvesIff(p: Parsers, t: Talos, planes: map<string, Network>, n: TalosNode)
    requires p.Lawful()
    ensures ResolvedNode(p, t, planes, n).1 == [] <==>
              && n.interfaces != [] && Distinct(Names(n.interfaces))
              && (forall s | s in Names(n.interfaces) :: T.IsSlot(s))
              && exists forms, k :: AllAccepted(p, planes, n.interfaces, forms) && OnlyAt(forms, k)
    ensures ResolvedNode(p, t, planes, n).1 == [] ==>
              forall forms | AllAccepted(p, planes, n.interfaces, forms) ::
                multiset(ResolvedNode(p, t, planes, n).0.resolved) == multiset(forms)
  {
    hide ResolveInterface, AcceptedAs, ScanTo, LabelFaults, T.IsSlot, PrimaryCount, OnlyAt, SortSlots, LabelsOf,
         Distinct;
    var blocks := n.interfaces;
    var names, steps := Names(blocks), StepsOf(p, planes, blocks);
    var s := ScanTo(n.name, names, steps, |blocks|);
    ScanCleanIff(n.name, names, steps, |blocks|);
    SlotLabelsCleanIff(names);
    forall i | i in blocks
      ensures ResolveInterface(p, planes, i).faults == [] <==> exists r :: AcceptedAs(p, planes, i, r)
      ensures forall r | AcceptedAs(p, planes, i, r) :: ResolveInterface(p, planes, i).r == r
    {
      ResolvesIffAccepted(p, planes, i);
    }
    if s.diags == [] {
      CleanScan(n.name, names, steps, |blocks|);
      OnePrimaryIff(s.resolved);
      forall k | 0 <= k < |blocks| ensures AcceptedAs(p, planes, blocks[k], s.resolved[k]) {
        assert blocks[k] in blocks && steps[k].faults == [];
      }
      assert AllAccepted(p, planes, blocks, s.resolved);
      forall forms | AllAccepted(p, planes, blocks, forms) ensures forms == s.resolved {
        forall k | 0 <= k < |blocks| ensures forms[k] == s.resolved[k] {
          assert blocks[k] in blocks && AcceptedAs(p, planes, blocks[k], forms[k]);
        }
      }
    } else if forms, k :| AllAccepted(p, planes, blocks, forms) && OnlyAt(forms, k) {
      forall j | 0 <= j < |blocks| ensures steps[j].faults == [] {
        assert blocks[j] in blocks && AcceptedAs(p, planes, blocks[j], forms[j]);
      }
    }
  }

  /** A block that references a plane and resolves cleanly inherits the plane whole. */
  lemma CleanReferenceInherits(p: Parsers, planes: map<string, Network>, i: NetworkInterface)
    requires p.Lawful() && i.network != "" && ResolveInterface(p, planes, i).faults == []
    ensures i.network in planes && Inherits(ResolveInterface(p, planes, i).r, planes[i.network])
  {}

  /** On a clean node, some resolved interface carries the facts of each plane its blocks reference. */
  lemma CleanNodeInherits(p: Parsers, t: Talos, planes: map<string, Network>, n: TalosNode, i: NetworkInterface)
    requires p.Lawful() && ResolvedNode(p, t, planes, n).1 == [] && i in n.interfaces && i.network != ""
    ensures i.network in planes
    ensures exists r | r in ResolvedNode(p, t, planes, n).0.resolved :: Inherits(r, planes[i.network])
  {
    hide ResolveInterface, Inherits, ScanTo, AllCanonical, LabelsOf, SortSlots;
    var s := ScanTo(n.name, Names(n.interfaces), StepsOf(p, planes, n.interfaces), |n.interfaces|);
    CleanScanInherits(p, planes, n.name, n.interfaces, i);
    SortKeepsMembers(s.resolved, ResolveInterface(p, planes, i).r);
  }

  lemma CleanScanInherits(p: Parsers, planes: map<string, Network>, owner: string, blocks: seq<NetworkInterface>,
                          i: NetworkInterface)
    requires p.Lawful() && i in blocks && i.network != ""
    requires ScanTo(owner, Names(blocks), StepsOf(p, planes, blocks), |blocks|).diags == []
    ensures ResolveInterface(p, planes, i).r in
              ScanTo(owner, Names(blocks), StepsOf(p, planes, blocks), |blocks|).resolved
    ensures i.network in planes && Inherits(ResolveInterface(p, planes, i).r, planes[i.network])
  {
    hide ResolveInterface, Inherits, ScanTo, LabelFaults;
    CleanScan(owner, Names(blocks), StepsOf(p, planes, blocks), |blocks|);
    var j :| 0 <= j < |blocks| && blocks[j] == i;
    assert StepsOf(p, planes, blocks)[j] == ResolveInterface(p, planes, i);
    CleanReferenceInherits(p, planes, i);
  }

  /** A clean node carries the same canonical MAC in both layers: in the block, rewritten in place, and in the
      interface resolved from it; and nothing else of the block changed. */
  lemma BothLayersCanonical(p: Parsers, t: Talos, planes: map<string, Network>, n: TalosNode, k: nat)
    requires p.Lawful() && ResolvedNode(p, t, planes, n).1 == [] && k < |n.interfaces|
    ensures var n', i := ResolvedNode(p, t, planes, n).0, n.interfaces[k];
            && |n'.interfaces| == |n.interfaces|
            && n'.interfaces[k] == i.(mac := n'.interfaces[k].mac)
            && p.mac(i.mac) == p.mac(n'.interfaces[k].mac) == Some(n'.interfaces[k].mac)
            && exists r | r in n'.resolved :: r.slot == i.name && r.mac == n'.interfaces[k].mac
  {
    hide ResolveMode, ScanTo, LabelFaults, LabelsOf, SortSlots, T.IsSlot, ValidateAddress;
    var names, steps := Names(n.interfaces), StepsOf(p, planes, n.interfaces);
    var s := ScanTo(n.name, names, steps, |n.interfaces|);
    CleanScan(n.name, names, steps, |n.interfaces|);
    assert steps[k].faults == [] && s.resolved[k] == steps[k].r;
    ResolvesIffAccepted(p, planes, n.interfaces[k]);
    SortKeepsMembers(s.resolved, s.resolved[k]);
  }

  lemma SortKeepsMembers(xs: seq<ResolvedInterface>, x: ResolvedInterface)
    requires x in xs
    ensures x in SortSlots(xs)
  {
    assert x in multiset(xs);
    assert x in multiset(SortSlots(xs));
  }

  /** Nothing partial leaks: a node with any diagnostic keeps the resolution it had. */
  lemma FaultyNodeKeepsResolution(p: Parsers, t: Talos, planes: map<string, Network>, n: TalosNode)
    requires p.Lawful() && ResolvedNode(p, t, planes, n).1 != []
    ensures var n' := ResolvedNode(p, t, planes, n).0;
            n'.resolved == n.resolved && n'.resolvedLabels == n.resolvedLabels
  {
    hide StepsOf, ScanTo, LabelsOf, SortSlots;
  }

  /** The boot NIC. */
  function PrimaryInterface(resolved: seq<ResolvedInterface>): Option<ResolvedInterface> {
    if resolved == [] then None
    else if resolved[0].primary then Some(resolved[0])
    else PrimaryInterface(resolved[1..])
  }

  lemma {:induction false} PrimaryFound(resolved: seq<ResolvedInterface>)
    ensures PrimaryInterface(resolved).Some? <==> PrimaryCount(resolved) > 0
    ensures PrimaryInterface(resolved).Some? ==>
              PrimaryInterface(resolved).value in resolved && PrimaryInterface(resolved).value.primary
  {
    if resolved != [] { PrimaryFound(resolved[1..]); }
  }
}
