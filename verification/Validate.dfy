/** The cluster-wide checks around resolution (config/validate.go, config/labels.go, config/runtime.go) and
    what a cluster that passes all of them satisfies. */
module Validate {
  import opened Common
  import opened Sorting
  import opened Labels
  import opened Config
  import opened Resolve

  // ----- planes

  function PlaneNames(networks: seq<Network>): seq<string> {
    seq(|networks|, i requires 0 <= i < |networks| => networks[i].name)
  }

  function PrimaryPlanes(networks: seq<Network>): seq<string> {
    if networks == [] then []
    else PrimaryPlanes(networks[..|networks| - 1])
         + if networks[|networks| - 1].primary then [networks[|networks| - 1].name] else []
  }

  /** The planes some interface of some node references. */
  function Referenced(nodes: seq<TalosNode>): set<string> {
    set n, i | n in nodes && i in n.interfaces && i.network != "" :: i.network
  }

  ghost predicate AtMostOnePrimary(networks: seq<Network>) {
    forall i, j | 0 <= i < j < |networks| :: !(networks[i].primary && networks[j].primary)
  }

  ghost predicate NonePrimary(networks: seq<Network>) {
    forall i | 0 <= i < |networks| :: !networks[i].primary
  }

  ghost predicate IsReferenced(nodes: seq<TalosNode>, name: string) {
    name != "" && exists n, i | n in nodes && i in n.interfaces :: i.network == name
  }

  ghost predicate PlanesOk(p: Parsers, t: Talos) {
    && Distinct(PlaneNames(t.networks))
    && (forall n | n in t.networks :: PlaneOk(p, n) && IsReferenced(t.nodes, n.name))
    && AtMostOnePrimary(t.networks)
  }

  /** The planes that count: the first of each name. */
  function FirstPlanes(networks: seq<Network>): seq<Network> {
    if networks == [] then []
    else
      var before, n := networks[..|networks| - 1], networks[|networks| - 1];
      FirstPlanes(before) + if n.name in PlaneNames(before) then [] else [n]
  }

  /** A repeated name is reported and its facts are not looked at. */
  function PlaneDiags(p: Parsers, networks: seq<Network>): seq<Diag> {
    if networks == [] then []
    else
      var before, n := networks[..|networks| - 1], networks[|networks| - 1];
      PlaneDiags(p, before)
      + if n.name in PlaneNames(before) then [Diag(n.name, "", DuplicateNetwork)]
          else Labelled(n.name, "", NetworkFaults(p, n))
  }

  function ManyPrimaries(primaries: seq<string>): seq<Diag> {
    if |primaries| > 1 then [Diag("", "", ManyPrimaryNetworks(primaries))] else []
  }

  function UnreferencedDiags(networks: seq<Network>, referenced: set<string>): seq<Diag> {
    if networks == [] then []
    else
      var before, n := networks[..|networks| - 1], networks[|networks| - 1];
      UnreferencedDiags(before, referenced) +
      if n.name in referenced then [] else [Diag(n.name, "", UnreferencedNetwork)]
  }

  /** What validateNetworks reports, in order. */
  function NetworkDiags(p: Parsers, t: Talos): seq<Diag> {
    PlaneDiags(p, t.networks) + ManyPrimaries(PrimaryPlanes(FirstPlanes(t.networks)))
    + UnreferencedDiags(t.networks, Referenced(t.nodes))
  }

  method ReferencedPlanes(nodes: seq<TalosNode>) returns (referenced: set<string>)
    ensures referenced == Referenced(nodes)
  {
    referenced := {};
    for i := 0 to |nodes|
      invariant referenced == Referenced(nodes[..i])
    {
      var n := nodes[i];
      for j := 0 to |n.interfaces|
        invariant referenced == Referenced(nodes[..i]) + set b | b in n.interfaces[..j] && b.network != "" :: b.network
      {
        if n.interfaces[j].network != "" {
          referenced := referenced + {n.interfaces[j].network};
        }
      }
      assert n.interfaces[..|n.interfaces|] == n.interfaces;
      assert nodes[..i + 1] == nodes[..i] + [n];
    }
    assert nodes[..|nodes|] == nodes;
  }

  lemma PlaneStep(p: Parsers, networks: seq<Network>, i: nat)
    requires i < |networks|
    ensures var names, before, n := PlaneNames(networks), networks[..i], networks[i];
            && names[..i] == PlaneNames(before) && networks[..i + 1] == before + [n]
            && names[..i + 1] == names[..i] + [n.name] && Elems(names[..i + 1]) == Elems(names[..i]) + {n.name}
            && FirstPlanes(networks[..i + 1]) == FirstPlanes(before) + (if n.name in names[..i] then [] else [n])
            && PlaneDiags(p, networks[..i + 1]) ==
                 PlaneDiags(p, before) + (if n.name in names[..i] then [Diag(n.name, "", DuplicateNetwork)]
                     else Labelled(n.name, "", NetworkFaults(p, n)))
  {
    hide NetworkFaults, Labelled;
    var names := PlaneNames(networks);
    assert names[..i + 1] == names[..i] + [networks[i].name];
    ElemsConcat(names[..i], [networks[i].name]);
    assert networks[..i + 1][..i] == networks[..i];
    assert names[..i] == PlaneNames(networks[..i]);
  }

  lemma PrimaryStep(planes: seq<Network>, n: Network)
    ensures PrimaryPlanes(planes + [n]) == PrimaryPlanes(planes) + (if n.primary then [n.name] else [])
  {
    assert (planes + [n])[..|planes|] == planes;
  }

  /** The declaration loop. */
  method DeclaredPlanes(p: Parsers, networks: seq<Network>) returns (diags: seq<Diag>)
    ensures diags == PlaneDiags(p, networks) + ManyPrimaries(PrimaryPlanes(FirstPlanes(networks)))
  {
    hide NetworkFaults, PlaneNames, FirstPlanes, PlaneDiags, PrimaryPlanes, Labelled;
    diags := [];
    var declared: set<string> := {};
    var primaries: seq<string> := [];
    NoPlanes(p, networks);
    for i := 0 to |networks|
      invariant |PlaneNames(networks)| == |networks| && declared == Elems(PlaneNames(networks)[..i])
      invariant diags == PlaneDiags(p, networks[..i]) && primaries == PrimaryPlanes(FirstPlanes(networks[..i]))
    {
      var n := networks[i];
      PlaneStep(p, networks, i);
      if n.name in declared {
        diags := diags + [Diag(n.name, "", DuplicateNetwork)];
        assert FirstPlanes(networks[..i]) + [] == FirstPlanes(networks[..i]);
        continue;
      }
      declared := declared + {n.name};
      PrimaryStep(FirstPlanes(networks[..i]), n);
      if n.primary {
        primaries := primaries + [n.name];
      }
      diags := diags + Labelled(n.name, "", NetworkFaults(p, n));
    }
    assert networks[..|networks|] == networks;
    if |primaries| > 1 {
      diags := diags + [Diag("", "", ManyPrimaryNetworks(primaries))];
    }
  }

  lemma NoPlanes(p: Parsers, networks: seq<Network>)
    ensures |PlaneNames(networks)| == |networks|
    ensures FirstPlanes(networks[..0]) == [] && PlaneDiags(p, networks[..0]) == [] && PrimaryPlanes([]) == []
  {}

  method UnreferencedNetworks(t: Talos) returns (diags: seq<Diag>)
    ensures diags == UnreferencedDiags(t.networks, Referenced(t.nodes))
  {
    hide Referenced;
    var referenced := ReferencedPlanes(t.nodes);
    diags := [];
    for i := 0 to |t.networks|
      invariant diags == UnreferencedDiags(t.networks[..i], referenced)
    {
      assert t.networks[..i + 1][..i] == t.networks[..i];
      if t.networks[i].name !in referenced {
        diags := diags + [Diag(t.networks[i].name, "", UnreferencedNetwork)];
      }
    }
    assert t.networks[..|t.networks|] == t.networks;
  }

  method ValidateNetworks(p: Parsers, t: Talos) returns (diags: seq<Diag>)
    ensures diags == NetworkDiags(p, t)
  {
    hide PlaneDiags, ManyPrimaries, UnreferencedDiags, PrimaryPlanes, FirstPlanes, Referenced;
    var declared := DeclaredPlanes(p, t.networks);
    var unreferenced := UnreferencedNetworks(t);
    diags := declared + unreferenced;
  }

  lemma LabelledEmpty(owner: string, faults: seq<Fault>)
    ensures Labelled(owner, "", faults) == [] <==> faults == []
  {
    assert |Labelled(owner, "", faults)| == |faults|;
  }

  lemma NamesAppend(networks: seq<Network>, n: Network)
    ensures PlaneNames(networks + [n]) == PlaneNames(networks) + [n.name]
  {}

  lemma NoNames()
    ensures Distinct(PlaneNames([]))
  {}

  lemma {:induction false} PlaneDiagsEmptyIff(p: Parsers, networks: seq<Network>)
    ensures PlaneDiags(p, networks) == [] <==>
              Distinct(PlaneNames(networks)) && forall n | n in networks :: NetworkFaults(p, n) == []
    ensures Distinct(PlaneNames(networks)) ==> FirstPlanes(networks) == networks
  {
    hide NetworkFaults, Labelled, Distinct, PlaneNames;
    if networks == [] {
      NoNames();
    } else {
      var before, n := networks[..|networks| - 1], networks[|networks| - 1];
      PlaneDiagsEmptyIff(p, before);
      assert networks == before + [n];
      NamesAppend(before, n);
      DistinctAppend(PlaneNames(before), n.name);
      LabelledEmpty(n.name, NetworkFaults(p, n));
    }
  }

  lemma {:induction false} UnreferencedEmptyIff(networks: seq<Network>, referenced: set<string>)
    ensures UnreferencedDiags(networks, referenced) == [] <==> forall n | n in networks :: n.name in referenced
  {
    if networks != [] {
      var before, n := networks[..|networks| - 1], networks[|networks| - 1];
      assert networks == before + [n];
      UnreferencedEmptyIff(before, referenced);
    }
  }

  lemma PrimariesAppend(networks: seq<Network>, n: Network)
    ensures NonePrimary(networks + [n]) <==> NonePrimary(networks) && !n.primary
    ensures AtMostOnePrimary(networks + [n]) <==>
              AtMostOnePrimary(networks) && (n.primary ==> NonePrimary(networks))
  {
    var all := networks + [n];
    assert forall i | 0 <= i < |networks| :: all[i] == networks[i];
    assert all[|networks|] == n;
  }

  lemma {:induction false} PrimariesCounted(networks: seq<Network>)
    ensures PrimaryPlanes(networks) == [] <==> NonePrimary(networks)
    ensures |PrimaryPlanes(networks)| <= 1 <==> AtMostOnePrimary(networks)
  {
    if networks != [] {
      hide NonePrimary, AtMostOnePrimary;
      var n := |networks| - 1;
      PrimariesCounted(networks[..n]);
      PrimariesAppend(networks[..n], networks[n]);
      assert networks == networks[..n] + [networks[n]];
    }
  }

  /** validateNetworks is silent exactly when the planes are well formed, distinct, referenced, and at most one is
      primary. */
  lemma NetworksCleanIff(p: Parsers, t: Talos)
    ensures NetworkDiags(p, t) == [] <==> PlanesOk(p, t)
  {
    hide NetworkFaults, PlaneDiags, UnreferencedDiags, PlaneNames, FirstPlanes, PrimaryPlanes, Distinct, PlaneOk;
    PlaneDiagsEmptyIff(p, t.networks);
    PrimariesCounted(t.networks);
    forall n | n in t.networks
      ensures NetworkFaults(p, n) == [] <==> PlaneOk(p, n)
      ensures n.name in Referenced(t.nodes) <==> IsReferenced(t.nodes, n.name)
    {
      PlaneCleanIff(p, n);
    }
    UnreferencedEmptyIff(t.networks, Referenced(t.nodes));
    assert NetworkDiags(p, t) == [] <==>
      && PlaneDiags(p, t.networks) == [] && ManyPrimaries(PrimaryPlanes(FirstPlanes(t.networks))) == []
      && UnreferencedDiags(t.networks, Referenced(t.nodes)) == [];
  }

  lemma {:induction false} PlanesMembers(networks: seq<Network>)
    ensures forall name | name in Planes(networks) ::
              Planes(networks)[name] in networks && Planes(networks)[name].name == name
  {
    if networks != [] { PlanesMembers(networks[..|networks| - 1]); }
  }

  // ----- labels and runtimes

  const TOPOLOGY_REGION := "topology.kubernetes.io/region"
  const TOPOLOGY_ZONE := "topology.kubernetes.io/zone"
  const EXCLUDE_FROM_LB := "node.kubernetes.io/exclude-from-external-load-balancers"

  function RenderedLabels(t: Talos, n: TalosNode): seq<string> {
    (if t.hasCluster then [TOPOLOGY_REGION, TOPOLOGY_ZONE] else []) +
    if n.role == CONTROL_PLANE then [EXCLUDE_FROM_LB] else []
  }

  /** Labels that pass set nothing the render sets itself: the topology keys of a cluster with a cluster block, and on
      a control plane the load balancer exclusion. */
  lemma PassedLabelsKeepOffRendered(t: Talos, n: TalosNode)
    requires ValidLabels(n.labels, RenderedLabels(t, n))
    ensures t.hasCluster ==> TOPOLOGY_REGION !in n.labels && TOPOLOGY_ZONE !in n.labels
    ensures n.role == CONTROL_PLANE ==> EXCLUDE_FROM_LB !in n.labels
  {
    var rendered := RenderedLabels(t, n);
    forall k | k in n.labels ensures k !in rendered { ValidLabelSeparable(k, n.labels[k], rendered); }
    if t.hasCluster { assert rendered[0] == TOPOLOGY_REGION && rendered[1] == TOPOLOGY_ZONE; }
    if n.role == CONTROL_PLANE { assert rendered[|rendered| - 1] == EXCLUDE_FROM_LB; }
  }

  function LabelDiags(owner: string, key: string, faults: seq<LabelFault>): (r: seq<Diag>)
    ensures r == [] <==> faults == []
  {
    if faults == [] then [] else [Diag(owner, "", BadLabel(key, faults[0]))] + LabelDiags(owner, key, faults[1..])
  }

  /** One node's faults, key by key in sorted order. */
  function KeyDiags(owner: string, keys: seq<string>, labels: LabelSet, rendered: seq<string>): seq<Diag>
    requires forall k | k in keys :: k in labels
  {
    if keys == [] then []
    else
      var k := keys[|keys| - 1];
      KeyDiags(owner, keys[..|keys| - 1], labels, rendered)
          + LabelDiags(owner, k, ValidateLabel(k, labels[k], rendered))
  }

  ghost function NodeLabelDiags(owner: string, labels: LabelSet, rendered: seq<string>): seq<Diag> {
    KeyDiags(owner, SortedKeys(labels), labels, rendered)
  }

  method LabelKeyList(labels: LabelSet) returns (keys: seq<string>)
    ensures keys == SortedKeys(labels)
  {
    var walked := Listing(labels.Keys);
    SortedOnce(walked);
    keys := Sort(walked);
  }

  method ValidateNodeLabels(owner: string, labels: LabelSet, rendered: seq<string>) returns (diags: seq<Diag>)
    ensures diags == NodeLabelDiags(owner, labels, rendered)
  {
    hide ValidateLabel, SortedKeys, LabelDiags;
    var keys := LabelKeyList(labels);
    diags := [];
    for j := 0 to |keys|
      invariant diags == KeyDiags(owner, keys[..j], labels, rendered)
    {
      assert keys[..j + 1][..j] == keys[..j];
      diags := diags + LabelDiags(owner, keys[j], ValidateLabel(keys[j], labels[keys[j]], rendered));
    }
    assert keys[..|keys|] == keys;
  }

  lemma {:induction false} KeyDiagsEmptyIff(owner: string, keys: seq<string>, labels: LabelSet, rendered: seq<string>)
    requires forall k | k in keys :: k in labels
    ensures KeyDiags(owner, keys, labels, rendered) == [] <==>
              forall k | k in keys :: ValidateLabel(k, labels[k], rendered) == []
  {
    hide ValidateLabel;
    if keys != [] {
      var before := keys[..|keys| - 1];
      assert keys == before + [keys[|keys| - 1]];
      KeyDiagsEmptyIff(owner, before, labels, rendered);
    }
  }

  lemma NodeLabelsCleanIff(owner: string, labels: LabelSet, rendered: seq<string>)
    ensures NodeLabelDiags(owner, labels, rendered) == [] <==> ValidLabels(labels, rendered)
  {
    hide ValidateLabel;
    var keys := SortedKeys(labels);
    KeyDiagsEmptyIff(owner, keys, labels, rendered);
    forall k ensures k in keys <==> k in labels {
      assert k in keys <==> k in Elems(keys);
    }
  }

  ghost function AllLabelDiags(t: Talos, nodes: seq<TalosNode>): seq<Diag> {
    if nodes == [] then []
    else
      var n := nodes[|nodes| - 1];
      AllLabelDiags(t, nodes[..|nodes| - 1]) + NodeLabelDiags(n.name, n.labels, RenderedLabels(t, n))
  }

  method ValidateLabels(t: Talos) returns (diags: seq<Diag>)
    ensures diags == AllLabelDiags(t, t.nodes)
  {
    hide NodeLabelDiags, RenderedLabels;
    diags := [];
    for i := 0 to |t.nodes|
      invariant diags == AllLabelDiags(t, t.nodes[..i])
    {
      var n := t.nodes[i];
      assert t.nodes[..i + 1][..i] == t.nodes[..i];
      var faults := ValidateNodeLabels(n.name, n.labels, RenderedLabels(t, n));
      diags := diags + faults;
    }
    assert t.nodes[..|t.nodes|] == t.nodes;
  }

  /** validateLabels is silent exactly when every explicit label of every node is valid. */
  lemma {:induction false} LabelsCleanIff(t: Talos, nodes: seq<TalosNode>)
    ensures AllLabelDiags(t, nodes) == [] <==> forall n | n in nodes :: ValidLabels(n.labels, RenderedLabels(t, n))
  {
    hide NodeLabelDiags, RenderedLabels, ValidLabels;
    if nodes != [] {
      var before, n := nodes[..|nodes| - 1], nodes[|nodes| - 1];
      assert nodes == before + [n];
      LabelsCleanIff(t, before);
      NodeLabelsCleanIff(n.name, n.labels, RenderedLabels(t, n));
    }
  }

  function RuntimesOn(t: Talos, n: TalosNode): seq<Runtime> {
    RuntimesOf(RUNTIMES, ExtensionsOf(t.profiles, n.profiles))
  }

  function WorkerOnlyDiags(owner: string, runtimes: seq<Runtime>): seq<Diag> {
    if runtimes == [] then []
    else
      var r := runtimes[|runtimes| - 1];
      WorkerOnlyDiags(owner, runtimes[..|runtimes| - 1]) +
      if r.workerOnly then [Diag(owner, "", WorkerOnlyRuntime(r.extension))] else []
  }

  function RuntimeDiags(t: Talos, nodes: seq<TalosNode>): seq<Diag> {
    if nodes == [] then []
    else
      var n := nodes[|nodes| - 1];
      RuntimeDiags(t, nodes[..|nodes| - 1]) +
      if n.role == CONTROL_PLANE then WorkerOnlyDiags(n.name, RuntimesOn(t, n)) else []
  }

  method ValidateRuntimes(t: Talos) returns (diags: seq<Diag>)
    ensures diags == RuntimeDiags(t, t.nodes)
  {
    hide ExtensionsOf, RuntimesOf;
    diags := [];
    for i := 0 to |t.nodes|
      invariant diags == RuntimeDiags(t, t.nodes[..i])
    {
      var n := t.nodes[i];
      assert t.nodes[..i + 1][..i] == t.nodes[..i];
      if n.role != CONTROL_PLANE {
        continue;
      }
      var runtimes := NodeRuntimes(t, n);
      ghost var before := diags;
      for j := 0 to |runtimes|
        invariant diags == before + WorkerOnlyDiags(n.name, runtimes[..j])
      {
        assert runtimes[..j + 1][..j] == runtimes[..j];
        if runtimes[j].workerOnly {
          diags := diags + [Diag(n.name, "", WorkerOnlyRuntime(runtimes[j].extension))];
        }
      }
      assert runtimes[..|runtimes|] == runtimes;
    }
    assert t.nodes[..|t.nodes|] == t.nodes;
  }

  lemma {:induction false} WorkerOnlyEmptyIff(owner: string, runtimes: seq<Runtime>)
    ensures WorkerOnlyDiags(owner, runtimes) == [] <==> forall r | r in runtimes :: !r.workerOnly
  {
    if runtimes != [] {
      var before := runtimes[..|runtimes| - 1];
      assert runtimes == before + [runtimes[|runtimes| - 1]];
      WorkerOnlyEmptyIff(owner, before);
    }
  }

  /** validateRuntimes is silent exactly when no control plane carries a worker-only runtime. */
  lemma {:induction false} RuntimesCleanIff(t: Talos, nodes: seq<TalosNode>)
    ensures RuntimeDiags(t, nodes) == [] <==>
              forall n | n in nodes && n.role == CONTROL_PLANE ::
                forall r | r in RuntimesOn(t, n) :: !r.workerOnly
  {
    hide RuntimesOn;
    if nodes != [] {
      var before, n := nodes[..|nodes| - 1], nodes[|nodes| - 1];
      assert nodes == before + [n];
      RuntimesCleanIff(t, before);
      WorkerOnlyEmptyIff(n.name, RuntimesOn(t, n));
    }
  }

  // ----- MACs

  /** Where a MAC is used. */
  datatype Use = Use(node: string, slot: string, mac: string)

  function UsesOf(n: TalosNode): seq<Use> {
    seq(|n.resolved|, i requires 0 <= i < |n.resolved| => Use(n.name, n.resolved[i].slot, n.resolved[i].mac))
  }

  /** The MACs of the whole cluster and their owners, node by node. */
  function AllUses(nodes: seq<TalosNode>): seq<Use> {
    if nodes == [] then [] else AllUses(nodes[..|nodes| - 1]) + UsesOf(nodes[|nodes| - 1])
  }

  function MACs(uses: seq<Use>): seq<string> {
    seq(|uses|, i requires 0 <= i < |uses| => uses[i].mac)
  }

  function AllMACs(nodes: seq<TalosNode>): seq<string> {
    MACs(AllUses(nodes))
  }

  /** Every use of a MAC after the first is reported at its own interface. */
  function MACDiags(uses: seq<Use>): seq<Diag> {
    if uses == [] then []
    else
      var before, u := uses[..|uses| - 1], uses[|uses| - 1];
      MACDiags(before) + if u.mac in MACs(before) then [Diag(u.node, u.slot, DuplicateMAC(u.mac))] else []
  }

  lemma UseStep(uses: seq<Use>, u: Use)
    ensures MACDiags(uses + [u]) == MACDiags(uses)
            + (if u.mac in MACs(uses) then [Diag(u.node, u.slot, DuplicateMAC(u.mac))] else [])
    ensures MACs(uses + [u]) == MACs(uses) + [u.mac] && Elems(MACs(uses + [u])) == Elems(MACs(uses)) + {u.mac}
  {
    assert (uses + [u])[..|uses|] == uses;
    assert MACs(uses + [u]) == MACs(uses) + [u.mac];
    ElemsConcat(MACs(uses), [u.mac]);
  }

  method ValidateInterfaceMACs(nodes: seq<TalosNode>) returns (diags: seq<Diag>)
    ensures diags == MACDiags(AllUses(nodes))
  {
    hide MACDiags, MACs, UsesOf;
    diags := [];
    var seen: map<string, (string, string)> := map[];
    NoUses();
    for i := 0 to |nodes|
      invariant seen.Keys == Elems(MACs(AllUses(nodes[..i]))) && diags == MACDiags(AllUses(nodes[..i]))
    {
      seen, diags := ScanNodeMACs(nodes[i], AllUses(nodes[..i]), seen, diags);
      assert nodes[..i + 1][..i] == nodes[..i];
    }
    assert nodes[..|nodes|] == nodes;
  }

  lemma NoUses()
    ensures MACDiags([]) == [] && MACs([]) == []
  {}

  method ScanNodeMACs(n: TalosNode, ghost before: seq<Use>, seen0: map<string, (string, string)>, diags0: seq<Diag>)
    returns (seen: map<string, (string, string)>, diags: seq<Diag>)
    requires seen0.Keys == Elems(MACs(before)) && diags0 == MACDiags(before)
    ensures seen.Keys == Elems(MACs(before + UsesOf(n))) && diags == MACDiags(before + UsesOf(n))
  {
    hide MACDiags, MACs;
    seen, diags := seen0, diags0;
    ghost var uses := UsesOf(n);
    assert before + uses[..0] == before;
    for j := 0 to |n.resolved|
      invariant seen.Keys == Elems(MACs(before + uses[..j])) && diags == MACDiags(before + uses[..j])
    {
      var r := n.resolved[j];
      assert before + uses[..j + 1] == before + uses[..j] + [uses[j]];
      UseStep(before + uses[..j], uses[j]);
      if r.mac in seen {
        diags := diags + [Diag(n.name, r.slot, DuplicateMAC(r.mac))];
        continue;
      }
      assert seen[r.mac := (n.name, r.slot)].Keys == seen.Keys + {r.mac};
      seen := seen[r.mac := (n.name, r.slot)];
    }
    assert uses[..|n.resolved|] == uses;
  }

  /** validateInterfaceMACs is silent exactly when every MAC of the cluster is used once. */
  lemma {:induction false} MACsCleanIff(uses: seq<Use>)
    ensures MACDiags(uses) == [] <==> Distinct(MACs(uses))
  {
    if uses != [] {
      var before, u := uses[..|uses| - 1], uses[|uses| - 1];
      MACsCleanIff(before);
      assert MACs(uses) == MACs(before) + [u.mac];
      DistinctAppend(MACs(before), u.mac);
    }
  }

  lemma {:induction false} MACUsed(nodes: seq<TalosNode>, i: nat, a: nat)
    requires i < |nodes| && a < |nodes[i].resolved|
    ensures nodes[i].resolved[a].mac in AllMACs(nodes)
  {
    var n := |nodes| - 1;
    var before, last := AllUses(nodes[..n]), UsesOf(nodes[n]);
    if i < n {
      MACUsed(nodes[..n], i, a);
      var k :| 0 <= k < |before| && before[k].mac == nodes[i].resolved[a].mac;
      assert AllMACs(nodes)[k] == before[k].mac;
    } else {
      assert AllMACs(nodes)[|before| + a] == last[a].mac;
    }
  }

  lemma DistinctParts(x: seq<string>, y: seq<string>)
    requires Distinct(x + y)
    ensures Distinct(x) && Distinct(y) && forall u, v | u in x && v in y :: u != v
  {
    forall i, j | 0 <= i < j < |x| ensures x[i] != x[j] { assert (x + y)[i] != (x + y)[j]; }
    forall i, j | 0 <= i < j < |y| ensures y[i] != y[j] { assert (x + y)[|x| + i] != (x + y)[|x| + j]; }
    forall i, j | 0 <= i < |x| && 0 <= j < |y| ensures x[i] != y[j] { assert (x + y)[i] != (x + y)[|x| + j]; }
  }

  /** Distinct MACs, interface by interface: no two of the whole cluster share one. */
  lemma {:induction false} MACsTellInterfaces(nodes: seq<TalosNode>, i: nat, a: nat, j: nat, b: nat)
    requires Distinct(AllMACs(nodes)) && i <= j < |nodes| && (i != j || a < b)
    requires a < |nodes[i].resolved| && b < |nodes[j].resolved|
    ensures nodes[i].resolved[a].mac != nodes[j].resolved[b].mac
  {
    var n := |nodes| - 1;
    var before, last := AllMACs(nodes[..n]), MACs(UsesOf(nodes[n]));
    assert AllMACs(nodes) == before + last;
    DistinctParts(before, last);
    if j < n {
      MACsTellInterfaces(nodes[..n], i, a, j, b);
    } else {
      assert last[b] == nodes[j].resolved[b].mac && last[b] in last;
      if i < n {
        MACUsed(nodes[..n], i, a);
      } else {
        assert last[a] == nodes[i].resolved[a].mac;
      }
    }
  }

  // ----- the cluster

  ghost predicate ResolvedAs(p: Parsers, t: Talos, n: TalosNode, n': TalosNode)
    requires p.Lawful()
  {
    n' == ResolvedNode(p, t, Planes(t.networks), n).0
  }

  /** A declared cluster, resolved in place. */
  class Cluster {
    var talos: Talos
    const parsers: Parsers

    constructor (p: Parsers, t: Talos)
      ensures parsers == p && talos == t
    {
      parsers, talos := p, t;
    }

    /** Every node is rewritten to its own resolution; one node's faults do not touch another. */
    method ResolveInterfaces() returns (diags: seq<Diag>)
      requires parsers.Lawful()
      modifies this`talos
      ensures talos == old(talos).(nodes := talos.nodes) && |talos.nodes| == |old(talos.nodes)|
      ensures forall i | 0 <= i < |talos.nodes| :: ResolvedAs(parsers, old(talos), old(talos.nodes)[i], talos.nodes[i])
      ensures diags == NodeDiags(parsers, old(talos), Planes(old(talos.networks)), old(talos.nodes))
    {
      hide ResolvedNode, Planes;
      ghost var t := talos;
      var planes := Planes(talos.networks);
      diags := [];
      for i := 0 to |talos.nodes|
        invariant talos == t.(nodes := talos.nodes) && |talos.nodes| == |t.nodes|
        invariant forall j | 0 <= j < i :: ResolvedAs(parsers, t, t.nodes[j], talos.nodes[j])
        invariant forall j | i <= j < |t.nodes| :: talos.nodes[j] == t.nodes[j]
        invariant diags == NodeDiags(parsers, t, planes, t.nodes[..i])
      {
        assert t.nodes[..i + 1][..i] == t.nodes[..i];
        SameResolution(parsers, t, talos, planes, t.nodes[i]);
        var n', faults := ResolveNode(parsers, talos, planes, talos.nodes[i]);
        talos := talos.(nodes := talos.nodes[i := n']);
        diags := diags + faults;
      }
      assert t.nodes[..|t.nodes|] == t.nodes;
    }

    /** The checks of ValidateAndNormalize that concern planes, labels, runtimes and interfaces, in order. */
    method Validate() returns (diags: seq<Diag>)
      requires parsers.Lawful()
      modifies this`talos
      ensures diags == RuntimeDiags(old(talos), old(talos.nodes)) + NetworkDiags(parsers, old(talos))
              + AllLabelDiags(old(talos), old(talos.nodes))
                       + NodeDiags(parsers, old(talos), Planes(old(talos.networks)), old(talos.nodes))
                           + MACDiags(AllUses(talos.nodes))
      ensures talos == old(talos).(nodes := talos.nodes) && |talos.nodes| == |old(talos.nodes)|
      ensures forall i | 0 <= i < |talos.nodes| :: ResolvedAs(parsers, old(talos), old(talos.nodes)[i], talos.nodes[i])
      ensures diags == [] ==> Sound(parsers, old(talos), talos)
    {
      hide ResolvedAs, NetworkDiags, Sound, RuntimeDiags, AllLabelDiags, NodeDiags, MACDiags, AllUses;
      ghost var t := talos;
      var runtimes := ValidateRuntimes(talos);
      var planes := ValidateNetworks(parsers, talos);
      var labels := ValidateLabels(talos);
      var interfaces := ResolveInterfaces();
      var macs := ValidateInterfaceMACs(talos.nodes);
      diags := runtimes + planes + labels + interfaces + macs;
      if diags == [] {
        assert runtimes == [] && planes == [] && labels == [] && interfaces == [] && macs == [];
        CleanIsSound(parsers, t, talos);
      }
    }
  }

  function NodeDiags(p: Parsers, t: Talos, planes: map<string, Network>, nodes: seq<TalosNode>): seq<Diag>
    requires p.Lawful()
  {
    if nodes == [] then []
    else NodeDiags(p, t, planes, nodes[..|nodes| - 1]) + ResolvedNode(p, t, planes, nodes[|nodes| - 1]).1
  }

  lemma {:induction false} NodesCleanIff(p: Parsers, t: Talos, planes: map<string, Network>, nodes: seq<TalosNode>)
    requires p.Lawful()
    ensures NodeDiags(p, t, planes, nodes) == [] <==> forall n | n in nodes :: ResolvedNode(p, t, planes, n).1 == []
  {
    hide ResolvedNode;
    if nodes != [] {
      var before, n := nodes[..|nodes| - 1], nodes[|nodes| - 1];
      assert nodes == before + [n];
      NodesCleanIff(p, t, planes, before);
    }
  }

  lemma SameResolution(p: Parsers, t: Talos, u: Talos, planes: map<string, Network>, n: TalosNode)
    requires p.Lawful() && t.profiles == u.profiles
    ensures ResolvedNode(p, t, planes, n) == ResolvedNode(p, u, planes, n)
  {
    hide ScanTo, StepsOf, ExtensionsOf;
  }

  /** What holds of a node once the whole cluster has passed. */
  ghost predicate SoundNode(p: Parsers, t: Talos, before: TalosNode, n: TalosNode)
    requires p.Lawful()
  {
    && WellResolved(p, t, n, before)
    && (PrimaryInterface(n.resolved).Some? && PrimaryInterface(n.resolved).value in n.resolved
        && PrimaryInterface(n.resolved).value.primary && PrimaryInterface(n.resolved).value.dhcp)
    && SeparableSet(n.resolvedLabels)
    && (forall k | k in before.labels :: k in n.resolvedLabels && n.resolvedLabels[k] == before.labels[k])
    && (forall k | k in n.resolvedLabels && k !in before.labels ::
          n.resolvedLabels[k] == "true" && exists r | r in RuntimesOn(t, before) :: r.Label() == k)
    && (forall r | r in RuntimesOn(t, before) :: r.Label() in n.resolvedLabels && r.Label() !in before.labels)
    && (forall r | r in RuntimesOn(t, before) :: r.workerOnly ==> n.role != CONTROL_PLANE)
  }

  /** What holds of the cluster: every node sound, every MAC in it different, every plane well formed and in use. */
  ghost predicate Sound(p: Parsers, t: Talos, t': Talos)
    requires p.Lawful()
  {
    && t' == t.(nodes := t'.nodes) && |t'.nodes| == |t.nodes|
    && (forall i | 0 <= i < |t.nodes| :: SoundNode(p, t, t.nodes[i], t'.nodes[i]))
    && Distinct(AllMACs(t'.nodes))
    && SoundPlanes(p, Planes(t.networks))
    && (forall w | w in t.networks :: NetworkFaults(p, w) == [] && InUse(w, t'.nodes))
  }

  /** Some interface of some node is on the plane. */
  ghost predicate InUse(w: Network, nodes: seq<TalosNode>) {
    exists n, r | n in nodes && r in n.resolved :: Inherits(r, w)
  }

  /** Every declared plane of a clean cluster is some resolved interface's own. */
  lemma DeclaredPlaneInUse(p: Parsers, t: Talos, t': Talos, w: Network)
    requires p.Lawful() && PlanesOk(p, t) && w in t.networks
    requires forall n | n in t.nodes :: ResolvedNode(p, t, Planes(t.networks), n).1 == []
    requires |t'.nodes| == |t.nodes| && forall i | 0 <= i < |t.nodes| :: ResolvedAs(p, t, t.nodes[i], t'.nodes[i])
    ensures InUse(w, t'.nodes)
  {
    hide ResolvedNode, NetworkFaults, Inherits, Planes, Distinct, PlaneNames, PrimaryPlanes;
    assert w.name in Referenced(t.nodes);
    var n, b :| n in t.nodes && b in n.interfaces && b.network != "" && b.network == w.name;
    var i :| 0 <= i < |t.nodes| && t.nodes[i] == n;
    PlaneFound(t.networks, w);
    CleanNodeInherits(p, t, Planes(t.networks), n, b);
    assert ResolvedAs(p, t, t.nodes[i], t'.nodes[i]) && t'.nodes[i] in t'.nodes;
  }

  lemma {:induction false} PlaneFound(networks: seq<Network>, w: Network)
    requires Distinct(PlaneNames(networks)) && w in networks
    ensures w.name in Planes(networks) && Planes(networks)[w.name] == w
  {
    var before, last := networks[..|networks| - 1], networks[|networks| - 1];
    assert networks == before + [last] && PlaneNames(networks) == PlaneNames(before) + [last.name];
    DistinctAppend(PlaneNames(before), last.name);
    if w != last {
      var k :| 0 <= k < |before| && before[k] == w;
      assert PlaneNames(before)[k] == w.name;
      PlaneFound(before, w);
    }
  }

  lemma PlanesAreSound(p: Parsers, t: Talos)
    requires PlanesOk(p, t)
    ensures SoundPlanes(p, Planes(t.networks))
  {
    hide NetworkFaults, PlaneOk;
    PlanesMembers(t.networks);
    forall n | n in t.networks ensures NetworkFaults(p, n) == [] { PlaneCleanIff(p, n); }
  }

  lemma DerivedSeparable(t: Talos, n: TalosNode, rendered: seq<string>)
    requires ValidLabels(n.labels, rendered)
    ensures SeparableSet(LabelsOf(t, n)) && forall k | k in n.labels :: !(RUNTIME_LABEL_PREFIX <= k)
  {
    hide ValidateLabel, ExtensionsOf;
    forall k | k in n.labels ensures Separable(k) && Separable(n.labels[k]) && !(RUNTIME_LABEL_PREFIX <= k) {
      ValidLabelSeparable(k, n.labels[k], rendered);
    }
    var runtimes := RuntimesOn(t, n);
    LabelsAreDisjointUnion(runtimes, n.labels);
    RuntimesMembers(RUNTIMES, ExtensionsOf(t.profiles, n.profiles));
    forall r | r in runtimes ensures Separable(r.Label()) {
      RuntimeLabelsSeparable(r);
    }
    TrueSeparable();
  }

  lemma TrueSeparable()
    ensures Separable("true")
  {}

  lemma RuntimeLabelsSeparable(r: Runtime)
    requires r in RUNTIMES
    ensures Separable(r.Label())
  {
    assert r == RUNTIMES[0];
    SeparableConcat("runtime.", LABEL_PREFIX);
    SeparableConcat(RUNTIME_LABEL_PREFIX, "kata");
  }

  lemma SeparableConcat(a: string, b: string)
    ensures Separable(a + b) <==> Separable(a) && Separable(b)
  {}

  lemma CleanNodeIsSound(p: Parsers, t: Talos, n: TalosNode)
    requires p.Lawful() && SoundPlanes(p, Planes(t.networks))
    requires ValidLabels(n.labels, RenderedLabels(t, n))
    requires n.role == CONTROL_PLANE ==> forall r | r in RuntimesOn(t, n) :: !r.workerOnly
    requires ResolvedNode(p, t, Planes(t.networks), n).1 == []
    ensures SoundNode(p, t, n, ResolvedNode(p, t, Planes(t.networks), n).0)
  {
    hide ResolvedNode, ScanTo, StepsOf, ExtensionsOf, ValidateLabel, SoundInterface, NetworkFaults, Planes, RuntimesOf,
         ValidLabels, Distinct, SlotsOrdered;
    var n' := ResolvedNode(p, t, Planes(t.networks), n).0;
    CleanNodeIsWellResolved(p, t, Planes(t.networks), n);
    RoleKept(p, t, Planes(t.networks), n);
    PrimaryFound(n'.resolved);
    PrimaryIsDHCP(p, n'.resolved);
    DerivedSeparable(t, n, RenderedLabels(t, n));
    LabelsAreDisjointUnion(RuntimesOn(t, n), n.labels);
  }

  lemma PrimaryIsDHCP(p: Parsers, resolved: seq<ResolvedInterface>)
    requires p.Lawful() && forall r | r in resolved :: SoundInterface(p, r)
    ensures forall r | r in resolved && r.primary :: r.dhcp
  {}

  lemma RoleKept(p: Parsers, t: Talos, planes: map<string, Network>, n: TalosNode)
    requires p.Lawful()
    ensures ResolvedNode(p, t, planes, n).0.role == n.role && ResolvedNode(p, t, planes, n).0.name == n.name
  {
    hide ScanTo, StepsOf, ExtensionsOf;
  }

  /** A cluster that validates without a diagnostic is sound. */
  lemma CleanIsSound(p: Parsers, t: Talos, t': Talos)
    requires p.Lawful() && NetworkDiags(p, t) == [] && AllLabelDiags(t, t.nodes) == [] && RuntimeDiags(t, t.nodes) == []
    requires NodeDiags(p, t, Planes(t.networks), t.nodes) == [] && MACDiags(AllUses(t'.nodes)) == []
    requires t' == t.(nodes := t'.nodes) && |t'.nodes| == |t.nodes|
    requires forall i | 0 <= i < |t.nodes| :: ResolvedAs(p, t, t.nodes[i], t'.nodes[i])
    ensures Sound(p, t, t')
  {
    hide ResolvedNode, SoundNode, AllUses, MACs, MACDiags, NetworkFaults, RuntimesOn, RenderedLabels, ValidLabels,
         NetworkDiags, AllLabelDiags, RuntimeDiags, NodeDiags, Distinct, InUse, Planes;
    NetworksCleanIff(p, t);
    LabelsCleanIff(t, t.nodes);
    RuntimesCleanIff(t, t.nodes);
    NodesCleanIff(p, t, Planes(t.networks), t.nodes);
    MACsCleanIff(AllUses(t'.nodes));
    PlanesAreSound(p, t);
    forall w | w in t.networks ensures NetworkFaults(p, w) == [] && InUse(w, t'.nodes) {
      PlaneCleanIff(p, w);
      DeclaredPlaneInUse(p, t, t', w);
    }
    forall i | 0 <= i < |t.nodes| ensures SoundNode(p, t, t.nodes[i], t'.nodes[i]) {
      assert t.nodes[i] in t.nodes && ResolvedAs(p, t, t.nodes[i], t'.nodes[i]);
      CleanNodeIsSound(p, t, t.nodes[i]);
    }
  }
}
