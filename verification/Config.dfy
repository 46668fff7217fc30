/** The cluster declaration (config/config.go), its derived sets (config/runtime.go), and the
    diagnostics validation reports. */
module Config {
  import opened Common
  import opened Sorting
  import opened Labels
  import opened Net

  /** Library parsers: the laws below are all the model relies on. */
  datatype Parsers = Parsers(
    prefix: string -> Option<Prefix>,   // netip.ParsePrefix
    addr: string -> Option<IP>,         // netip.ParseAddr
    mac: string -> Option<string>)      // NormalizeMAC: the canonical spelling
  {
    ghost predicate Lawful() {
      && (forall s :: prefix(s).Some? ==> prefix(s).value.Valid())
      && (forall s :: addr(s).Some? ==> addr(s).value.Fits())
      && prefix("") == None && addr("") == None
      && (forall s :: mac(s).Some? ==> mac(mac(s).value) == mac(s))
    }
  }

  const CONTROL_PLANE := "controlplane"
  const WORKER := "worker"

  /** A raw network_interface block: optionality is data. */
  datatype NetworkInterface = NetworkInterface(
    name: string, network: string, mac: string, bridge: string,
    vlan: Option<int>, dhcp: Option<bool>, primary: Option<bool>,
    address: string, cidr: string, mtu: Option<int>)

  /** A named network plane. */
  datatype Network = Network(name: string, vlan: int, dhcp: bool, primary: bool, cidr: string, mtu: int)

  /** One NIC with no optionality left. */
  datatype ResolvedInterface = ResolvedInterface(
    slot: string, mac: string, bridge: string, vlan: int, dhcp: bool, primary: bool,
    address: string, cidr: string, mtu: int)

  datatype TalosNode = TalosNode(
    name: string, role: string, profiles: seq<string>, labels: LabelSet, interfaces: seq<NetworkInterface>,
    resolved: seq<ResolvedInterface>, resolvedLabels: LabelSet)

  datatype TalosProfile = TalosProfile(name: string, extensions: seq<string>)

  datatype Talos = Talos(
    version: string, schematicID: string, hasCluster: bool,
    networks: seq<Network>, profiles: seq<TalosProfile>, nodes: seq<TalosNode>)

  datatype Fault =
    | MissingInterface | InvalidSlot | DuplicateSlot | InvalidMAC
    | ConflictingForms(attrs: seq<string>) | UnknownNetwork | Incomplete
    | InvalidVLAN | InvalidMTU | StaticPrimary | CidrOnDhcp | InvalidCidr
    | AddressOnDhcp | MissingAddress | InvalidAddress | OutsideCidr | PrefixLengthDiffers
    | NotOnePrimary(slots: seq<string>) | DuplicateMAC(mac: string)
    | DuplicateNetwork | ManyPrimaryNetworks(names: seq<string>) | MissingCidr | UnreferencedNetwork
    | WorkerOnlyRuntime(extension: string) | BadLabel(key: string, fault: LabelFault)

  /** One error diagnostic: where and what. */
  datatype Diag = Diag(owner: string, slot: string, fault: Fault)

  // ----- extensions and runtimes (config/runtime.go)

  datatype Runtime = Runtime(name: string, extension: string, handler: string, workerOnly: bool) {
    function Label(): string { RUNTIME_LABEL_PREFIX + name }
  }

  const RUNTIMES := [Runtime("kata", "siderolabs/kata-containers", "kata", true)]

  /** The extensions of every profile with this name. */
  function ProfileExtensions(profiles: seq<TalosProfile>, ref: string): seq<string> {
    if profiles == [] then []
    else
      var last := profiles[|profiles| - 1];
      ProfileExtensions(profiles[..|profiles| - 1], ref) + if last.name == ref then last.extensions else []
  }

  function Flattened(profiles: seq<TalosProfile>, refs: seq<string>): seq<string> {
    if refs == [] then []
    else Flattened(profiles, refs[..|refs| - 1]) + ProfileExtensions(profiles, refs[|refs| - 1])
  }

  /** The extension set of a list of profile references, in canonical order. */
  function ExtensionsOf(profiles: seq<TalosProfile>, refs: seq<string>): seq<string> {
    SortCompact(Flattened(profiles, refs))
  }

  method NodeExtensions(profiles: seq<TalosProfile>, refs: seq<string>) returns (exts: seq<string>)
    ensures exts == ExtensionsOf(profiles, refs)
  {
    var all: seq<string> := [];
    for r := 0 to |refs|
      invariant all == Flattened(profiles, refs[..r])
    {
      ghost var before := all;
      for i := 0 to |profiles|
        invariant all == before + ProfileExtensions(profiles[..i], refs[r])
      {
        assert profiles[..i + 1][..i] == profiles[..i];
        if profiles[i].name == refs[r] {
          all := all + profiles[i].extensions;
        }
      }
      assert profiles[..|profiles|] == profiles && refs[..r + 1][..r] == refs[..r];
    }
    assert refs[..|refs|] == refs;
    if |all| == 0 {
      return [];
    }
    exts := SortCompact(all);
  }

  lemma {:induction false} ProfileExtensionsElems(profiles: seq<TalosProfile>, ref: string)
    ensures forall x :: x in ProfileExtensions(profiles, ref) <==>
                        exists p | p in profiles :: p.name == ref && x in p.extensions
  {
    if profiles != [] {
      var n := |profiles| - 1;
      ProfileExtensionsElems(profiles[..n], ref);
      assert profiles == profiles[..n] + [profiles[n]];
    }
  }

  lemma {:induction false} FlattenedElems(profiles: seq<TalosProfile>, refs: seq<string>)
    ensures forall x :: x in Flattened(profiles, refs) <==>
                        exists p | p in profiles :: p.name in refs && x in p.extensions
  {
    if refs != [] {
      var n := |refs| - 1;
      FlattenedElems(profiles, refs[..n]);
      ProfileExtensionsElems(profiles, refs[n]);
      assert refs == refs[..n] + [refs[n]];
    }
  }

  /** The extension set of a node depends only on which profiles it references and what they hold: neither
      the order nor the repetition of references or declarations matters. */
  lemma ExtensionsCanonical(p1: seq<TalosProfile>, refs1: seq<string>, p2: seq<TalosProfile>, refs2: seq<string>)
    requires Elems(p1) == Elems(p2) && Elems(refs1) == Elems(refs2)
    ensures ExtensionsOf(p1, refs1) == ExtensionsOf(p2, refs2)
  {
    FlattenedElems(p1, refs1);
    FlattenedElems(p2, refs2);
    SortCompactCanonical(Flattened(p1, refs1));
    SortCompactCanonical(Flattened(p2, refs2));
    SameMembers(p1, p2);
    SameMembers(refs1, refs2);
    assert Elems(Flattened(p1, refs1)) == Elems(Flattened(p2, refs2));
    StrictlySortedUnique(ExtensionsOf(p1, refs1), ExtensionsOf(p2, refs2));
  }

  lemma SameMembers<T>(a: seq<T>, b: seq<T>)
    requires Elems(a) == Elems(b)
    ensures forall x :: x in a <==> x in b
  {
    forall x ensures x in a <==> x in b {
      assert x in Elems(a) <==> x in Elems(b);
    }
  }

  /** The runtimes an extension set provides, in table order. */
  function RuntimesOf(table: seq<Runtime>, exts: seq<string>): seq<Runtime> {
    if table == [] then []
    else
      var n := |table| - 1;
      RuntimesOf(table[..n], exts) + if table[n].extension in exts then [table[n]] else []
  }

  method NodeRuntimes(t: Talos, n: TalosNode) returns (out: seq<Runtime>)
    ensures out == RuntimesOf(RUNTIMES, ExtensionsOf(t.profiles, n.profiles))
  {
    var exts := NodeExtensions(t.profiles, n.profiles);
    out := [];
    for i := 0 to |RUNTIMES|
      invariant out == RuntimesOf(RUNTIMES[..i], exts)
    {
      assert RUNTIMES[..i + 1][..i] == RUNTIMES[..i];
      if RUNTIMES[i].extension in exts {
        out := out + [RUNTIMES[i]];
      }
    }
    assert RUNTIMES[..|RUNTIMES|] == RUNTIMES;
  }

  lemma {:induction false} RuntimesMembers(table: seq<Runtime>, exts: seq<string>)
    ensures forall r :: r in RuntimesOf(table, exts) <==> r in table && r.extension in exts
  {
    if table != [] {
      var n := |table| - 1;
      RuntimesMembers(table[..n], exts);
      assert table == table[..n] + [table[n]];
    }
  }

  /** The labels a node carries: the explicit ones and one per runtime it provides. */
  function DerivedLabels(runtimes: seq<Runtime>, labels: LabelSet): LabelSet {
    if runtimes == [] then labels
    else DerivedLabels(runtimes[..|runtimes| - 1], labels)[runtimes[|runtimes| - 1].Label() := "true"]
  }

  method ResolveLabels(t: Talos, n: TalosNode) returns (labels: LabelSet)
    ensures labels == DerivedLabels(RuntimesOf(RUNTIMES, ExtensionsOf(t.profiles, n.profiles)), n.labels)
  {
    labels := n.labels;
    var runtimes := NodeRuntimes(t, n);
    for i := 0 to |runtimes|
      invariant labels == DerivedLabels(runtimes[..i], n.labels)
    {
      assert runtimes[..i + 1][..i] == runtimes[..i];
      labels := labels[runtimes[i].Label() := "true"];
    }
    assert runtimes[..|runtimes|] == runtimes;
  }

  /** On labels that stay out of the derived namespace, resolution is a disjoint union: every explicit label
      keeps its value, every provided runtime is labelled "true", and there is nothing else. */
  lemma {:induction false} LabelsAreDisjointUnion(runtimes: seq<Runtime>, labels: LabelSet)
    requires forall k | k in labels :: !(RUNTIME_LABEL_PREFIX <= k)
    ensures var r := DerivedLabels(runtimes, labels);
            && (forall k | k in labels :: k in r && r[k] == labels[k])
            && (forall k | k in r && k !in labels :: r[k] == "true" && exists x | x in runtimes :: x.Label() == k)
            && (forall x | x in runtimes :: x.Label() in r && x.Label() !in labels)
  {
    if runtimes != [] {
      var n := |runtimes| - 1;
      LabelsAreDisjointUnion(runtimes[..n], labels);
      assert runtimes == runtimes[..n] + [runtimes[n]];
      assert RUNTIME_LABEL_PREFIX <= runtimes[n].Label();
    }
  }
}
