/** The boot catalog (emit/catalog.go): node classes become profiles, nodes become groups, and the names that
    bind them. */
module Catalog {
  import opened Common
  import opened Text
  import opened Labels
  import opened Config
  import opened Resolve
  import opened Vars
  import T = Templating

  datatype Profile = Profile(name: string, role: string, template: string, schematic: string, installImage: string)

  datatype Group = Group(name: string, profile: string, mac: string, vars: seq<Var>)

  datatype CatalogData = CatalogData(profiles: seq<Profile>, groups: seq<Group>)

  datatype Fault = CountMismatch | ShortSchematic(node: string) | NoPrimary(node: string)

  /** What the catalog is rendered from: the resolved nodes, each node's schematic, and the digest (hexadecimal
      SHA-256, of which only the length is assumed). */
  datatype Input = Input(version: string, nodes: seq<TalosNode>, perNode: seq<string>, hash: string -> string) {
    ghost predicate Matched() { |perNode| == |nodes| }
  }

  ghost predicate HexDigest(hash: string -> string) {
    forall s :: |hash(s)| == 64
  }

  // ----- names

  const EXT := ".yaml.tmpl"
  const WORKER_TEMPLATE := "talos/worker" + EXT
  const CONTROL_TEMPLATE := "talos/controlplane" + EXT

  ghost function LabelKeys(nodes: seq<TalosNode>, role: string): set<string> {
    set n | n in nodes && n.role == role :: KeyOf(n.resolvedLabels)
  }

  /** Whether a role's nodes carry more than one label set. */
  ghost predicate SplitByLabels(nodes: seq<TalosNode>, role: string) {
    |LabelKeys(nodes, role)| > 1
  }

  method LabelSplits(nodes: seq<TalosNode>) returns (splits: map<string, bool>)
    ensures splits.Keys == RolesOf(nodes)
    ensures forall role | role in splits :: splits[role] == SplitByLabels(nodes, role)
  {
    hide KeyOf;
    var sets: map<string, set<string>> := map[];
    for i := 0 to |nodes|
      invariant sets.Keys == set n | n in nodes[..i] :: n.role
      invariant forall role | role in sets :: sets[role] == LabelKeys(nodes[..i], role)
    {
      var n := nodes[i];
      LabelKeysStep(nodes, i);
      var key := LabelSetKey(n.resolvedLabels);
      var before := if n.role in sets then sets[n.role] else {};
      sets := sets[n.role := before + {key}];
    }
    assert nodes[..|nodes|] == nodes;
    splits := map role | role in sets :: |sets[role]| > 1;
  }

  lemma LabelKeysStep(nodes: seq<TalosNode>, i: nat)
    requires i < |nodes|
    ensures nodes[..i + 1] == nodes[..i] + [nodes[i]]
    ensures forall role :: LabelKeys(nodes[..i + 1], role) ==
              LabelKeys(nodes[..i], role) + if nodes[i].role == role then {KeyOf(nodes[i].resolvedLabels)} else {}
    ensures (forall n | n in nodes[..i] :: n.role != nodes[i].role) ==> LabelKeys(nodes[..i], nodes[i].role) == {}
  {
    hide KeyOf;
    assert nodes[..i + 1] == nodes[..i] + [nodes[i]];
  }

  /** labelSuffix, from the label set's key. */
  function SuffixFor(hash: string -> string, key: string, split: bool): string
    requires |hash(key)| >= 8
  {
    if !split || key == "" then "" else "-" + hash(key)[..8]
  }

  function TemplateFor(role: string): string {
    if role == CONTROL_PLANE then CONTROL_TEMPLATE else WORKER_TEMPLATE
  }

  function PathWith(role: string, suffix: string): string {
    TrimSuffix(TemplateFor(role), EXT) + suffix + EXT
  }

  function ProfileBase(role: string): string {
    if role == WORKER then "talos-worker" else "talos-control"
  }

  /** Only the empty label set has the empty key, so the suffix is a function of the key. */
  lemma EmptyKeyIff(labels: LabelSet)
    ensures KeyOf(labels) == "" <==> labels == map[]
  {
    var keys := SortedKeys(labels);
    var pairs := Pairs(keys, labels);
    if labels == map[] {
    } else {
      var k :| k in labels;
      assert k in Elems(keys);
      assert pairs[0] == keys[0] + "=" + labels[keys[0]];
      JoinNonEmpty(pairs, ",");
    }
  }

  ghost predicate ValidInput(c: Input) {
    c.Matched() && HexDigest(c.hash)
  }

  ghost function KeyAt(c: Input, i: nat): string
    requires i < |c.nodes|
  {
    KeyOf(c.nodes[i].resolvedLabels)
  }

  ghost function SchematicsOf(c: Input, role: string): set<string>
    requires c.Matched()
  {
    set i | 0 <= i < |c.nodes| && c.nodes[i].role == role :: c.perNode[i]
  }

  /** schematic[:8]; a shorter schematic is the fault below. */
  function Short(s: string): string { if |s| >= 8 then s[..8] else s }

  ghost function SchematicPart(c: Input, i: nat): string
    requires ValidInput(c) && i < |c.nodes|
  {
    if |SchematicsOf(c, c.nodes[i].role)| > 1 then "-" + Short(c.perNode[i]) else ""
  }

  ghost function LabelPart(c: Input, i: nat): string
    requires ValidInput(c) && i < |c.nodes|
  {
    SuffixFor(c.hash, KeyAt(c, i), SplitByLabels(c.nodes, c.nodes[i].role))
  }

  ghost function ProfileName(c: Input, i: nat): string
    requires ValidInput(c) && i < |c.nodes|
  {
    ProfileBase(c.nodes[i].role) + SchematicPart(c, i) + LabelPart(c, i)
  }

  datatype NodeClass = NodeClass(role: string, schematic: string, labels: string)

  ghost function ClassAt(c: Input, i: nat): NodeClass
    requires ValidInput(c) && i < |c.nodes|
  {
    NodeClass(c.nodes[i].role, c.perNode[i], KeyAt(c, i))
  }

  ghost function ProfileAt(c: Input, i: nat): Profile
    requires ValidInput(c) && i < |c.nodes|
  {
    Profile(ProfileName(c, i), c.nodes[i].role, PathWith(c.nodes[i].role, LabelPart(c, i)), c.perNode[i],
            T.InstallImage(c.perNode[i], c.version))
  }

  ghost predicate TooShort(c: Input, i: nat)
    requires ValidInput(c) && i < |c.nodes|
  {
    |SchematicsOf(c, c.nodes[i].role)| > 1 && |c.perNode[i]| < 8
  }

  // ----- renderCatalog

  ghost predicate Renders(c: Input, d: CatalogData)
    requires ValidInput(c)
  {
    && (forall i | 0 <= i < |c.nodes| :: ProfileAt(c, i) in d.profiles)
    && (forall p | p in d.profiles :: exists i | 0 <= i < |c.nodes| :: p == ProfileAt(c, i))
    && d.profiles == FirstOf(ClassList(c), ProfileList(c), |c.nodes|) && |d.profiles| == |Elems(ClassList(c))|
    && |d.groups| == |c.nodes|
    && forall i | 0 <= i < |c.nodes| :: GroupOf(c, i, d.groups[i])
  }

  ghost predicate GroupOf(c: Input, i: nat, g: Group)
    requires ValidInput(c) && i < |c.nodes|
  {
    && PrimaryInterface(c.nodes[i].resolved).Some?
    && g == Group(c.nodes[i].name, ProfileName(c, i), PrimaryInterface(c.nodes[i].resolved).value.mac,
        GroupVarsOf(c.nodes[i]))
  }

  /** Each node's class and profile, in node order. */
  ghost function ClassList(c: Input): seq<NodeClass>
    requires ValidInput(c)
  {
    seq(|c.nodes|, i requires 0 <= i < |c.nodes| => ClassAt(c, i))
  }

  ghost function ProfileList(c: Input): seq<Profile>
    requires ValidInput(c)
  {
    seq(|c.nodes|, i requires 0 <= i < |c.nodes| => ProfileAt(c, i))
  }

  ghost function SchematicsTo(c: Input, role: string, n: nat): set<string>
    requires c.Matched() && n <= |c.nodes|
  {
    set i | 0 <= i < n && c.nodes[i].role == role :: c.perNode[i]
  }

  function RolesOf(nodes: seq<TalosNode>): set<string> {
    set n | n in nodes :: n.role
  }

  lemma SchematicsStep(c: Input, i: nat)
    requires c.Matched() && i < |c.nodes|
    ensures RolesOf(c.nodes[..i + 1]) == RolesOf(c.nodes[..i]) + {c.nodes[i].role}
    ensures forall role :: SchematicsTo(c, role, i + 1) ==
              SchematicsTo(c, role, i) + if c.nodes[i].role == role then {c.perNode[i]} else {}
    ensures c.nodes[i].role !in RolesOf(c.nodes[..i]) ==> SchematicsTo(c, c.nodes[i].role, i) == {}
  {
    assert c.nodes[..i + 1] == c.nodes[..i] + [c.nodes[i]];
    if c.nodes[i].role !in RolesOf(c.nodes[..i]) {
      forall j | 0 <= j < i ensures c.nodes[j].role != c.nodes[i].role { assert c.nodes[j] in c.nodes[..i]; }
    }
  }

  method SchematicsPerRole(c: Input) returns (perRole: map<string, set<string>>)
    requires c.Matched()
    ensures perRole.Keys == RolesOf(c.nodes)
    ensures forall role | role in perRole :: perRole[role] == SchematicsOf(c, role)
  {
    hide RolesOf, SchematicsTo;
    perRole := map[];
    assert RolesOf([]) == {} by { NoRoles(); }
    for i := 0 to |c.nodes|
      invariant perRole.Keys == RolesOf(c.nodes[..i])
      invariant forall role | role in perRole :: perRole[role] == SchematicsTo(c, role, i)
    {
      var role := c.nodes[i].role;
      SchematicsStep(c, i);
      var before := if role in perRole then perRole[role] else {};
      perRole := perRole[role := before + {c.perNode[i]}];
    }
    assert c.nodes[..|c.nodes|] == c.nodes;
    forall role ensures SchematicsTo(c, role, |c.nodes|) == SchematicsOf(c, role) { AllSchematics(c, role); }
  }

  lemma NoRoles()
    ensures RolesOf([]) == {}
  {}

  lemma AllSchematics(c: Input, role: string)
    requires c.Matched()
    ensures SchematicsTo(c, role, |c.nodes|) == SchematicsOf(c, role)
  {}

  /** A node's profile depends on its class only. */
  lemma SameClassSameProfile(c: Input, i: nat, j: nat)
    requires ValidInput(c) && i < |c.nodes| && j < |c.nodes| && ClassAt(c, i) == ClassAt(c, j)
    ensures ProfileAt(c, i) == ProfileAt(c, j)
    ensures TooShort(c, i) == TooShort(c, j)
  {
    hide KeyOf, SchematicsOf, SplitByLabels, PathWith, SuffixFor, T.InstallImage, HexDigest, ProfileBase;
  }

  /** The error names the cause: the counts, or a node whose schematic is too short or that has no boot interface. */
  ghost predicate Blames(c: Input, fault: Fault)
    requires HexDigest(c.hash)
  {
    match fault
    case CountMismatch => |c.perNode| != |c.nodes|
    case ShortSchematic(node) =>
      exists i | 0 <= i < |c.nodes| :: c.nodes[i].name == node && ValidInput(c) && TooShort(c, i)
    case NoPrimary(node) => exists n | n in c.nodes :: n.name == node && PrimaryInterface(n.resolved).None?
  }

  /** The profile of one node's class. */
  method NewProfile(c: Input, i: nat, key: string, splits: map<string, bool>, perRole: map<string, set<string>>)
    returns (r: Result<Profile, Fault>)
    requires ValidInput(c) && i < |c.nodes| && key == KeyAt(c, i)
    requires c.nodes[i].role in splits && splits[c.nodes[i].role] == SplitByLabels(c.nodes, c.nodes[i].role)
    requires c.nodes[i].role in perRole && perRole[c.nodes[i].role] == SchematicsOf(c, c.nodes[i].role)
    ensures r.Err? <==> TooShort(c, i)
    ensures r.Err? ==> r.error == ShortSchematic(c.nodes[i].name)
    ensures r.Ok? ==> r.value == ProfileAt(c, i)
  {
    hide KeyOf, SchematicsOf, SplitByLabels, PathWith, T.InstallImage, SuffixFor, ProfileBase;
    var n := c.nodes[i];
    var name := ProfileBase(n.role);
    if |perRole[n.role]| > 1 {
      if |c.perNode[i]| < 8 {
        return Err(ShortSchematic(n.name));
      }
      name := name + ("-" + c.perNode[i][..8]);
    } else {
      assert name + "" == name;
    }
    var suffix := SuffixFor(c.hash, key, splits[n.role]);
    name := name + suffix;
    r := Ok(Profile(name, n.role, PathWith(n.role, suffix), c.perNode[i], T.InstallImage(c.perNode[i], c.version)));
  }

  /** The profiles of the first n nodes whose class no earlier node has, in node order. */
  ghost function FirstOf(classes: seq<NodeClass>, all: seq<Profile>, n: nat): seq<Profile>
    requires n <= |classes| == |all|
  {
    if n == 0 then []
    else FirstOf(classes, all, n - 1) + if classes[n - 1] in classes[..n - 1] then [] else [all[n - 1]]
  }

  /** The state of the profile loop after n nodes: one profile and one name for each class met. */
  ghost predicate ProfilesTo(classes: seq<NodeClass>, all: seq<Profile>, n: nat, profiles: seq<Profile>,
                             names: map<NodeClass, string>)
    requires n <= |classes| == |all|
  {
    && names.Keys == Elems(classes[..n]) && |profiles| == |names.Keys| && Elems(profiles) == Elems(all[..n])
    && profiles == FirstOf(classes, all, n)
    && forall j | 0 <= j < n :: classes[j] in names && names[classes[j]] == all[j].name
  }

  lemma PrefixStep<X>(xs: seq<X>, n: nat)
    requires n < |xs|
    ensures Elems(xs[..n + 1]) == Elems(xs[..n]) + {xs[n]}
    ensures forall j | 0 <= j < n :: xs[j] in Elems(xs[..n])
  {
    assert xs[..n + 1] == xs[..n] + [xs[n]];
    ElemsConcat(xs[..n], [xs[n]]);
    forall j | 0 <= j < n ensures xs[j] in Elems(xs[..n]) { assert xs[..n][j] == xs[j]; }
  }

  lemma FirstOfStep(classes: seq<NodeClass>, all: seq<Profile>, n: nat)
    requires n < |classes| == |all|
    ensures FirstOf(classes, all, n + 1) ==
              if classes[n] in Elems(classes[..n]) then FirstOf(classes, all, n)
              else FirstOf(classes, all, n) + [all[n]]
  {}

  lemma ClassMetAgain(classes: seq<NodeClass>, all: seq<Profile>, n: nat, profiles: seq<Profile>,
                      names: map<NodeClass, string>, j: nat)
    requires n < |classes| == |all| && ProfilesTo(classes, all, n, profiles, names)
    requires j < n && classes[j] == classes[n] && all[j] == all[n]
    ensures ProfilesTo(classes, all, n + 1, profiles, names)
  {
    hide Elems, FirstOf;
    PrefixStep(classes, n);
    PrefixStep(all, n);
    assert Elems(classes[..n]) + {classes[n]} == Elems(classes[..n]);
    FirstOfStep(classes, all, n);
    assert Elems(all[..n]) + {all[n]} == Elems(all[..n]);
  }

  lemma ElemsAppend<X>(xs: seq<X>, x: X)
    ensures Elems(xs + [x]) == Elems(xs) + {x}
  {}

  lemma AddName<K, V>(m: map<K, V>, k: K, v: V)
    requires k !in m
    ensures m[k := v].Keys == m.Keys + {k} && |m[k := v].Keys| == |m.Keys| + 1
    ensures forall x | x in m :: x in m[k := v] && m[k := v][x] == m[x]
  {
    assert m[k := v].Keys == m.Keys + {k};
  }

  lemma ClassMetFirst(classes: seq<NodeClass>, all: seq<Profile>, n: nat, profiles: seq<Profile>,
                      names: map<NodeClass, string>)
    requires n < |classes| == |all| && ProfilesTo(classes, all, n, profiles, names) && classes[n] !in names
    ensures ProfilesTo(classes, all, n + 1, profiles + [all[n]], names[classes[n] := all[n].name])
  {
    hide Elems, FirstOf;
    FirstOfStep(classes, all, n);
    PrefixStep(classes, n);
    PrefixStep(all, n);
    ElemsAppend(profiles, all[n]);
    AddName(names, classes[n], all[n].name);
  }

  lemma MetAt(classes: seq<NodeClass>, all: seq<Profile>, n: nat, profiles: seq<Profile>, names: map<NodeClass, string>)
    returns (j: nat)
    requires n < |classes| == |all| && ProfilesTo(classes, all, n, profiles, names) && classes[n] in names
    ensures j < n && classes[j] == classes[n]
  {
    assert classes[n] in classes[..n];
    j :| 0 <= j < n && classes[j] == classes[n];
  }

  /** The profile loop: each class once, in first-node order, under the name of its first node. */
  method Profiles(c: Input, splits: map<string, bool>, perRole: map<string, set<string>>)
    returns (profiles: seq<Profile>, names: map<NodeClass, string>, err: Option<Fault>)
    requires ValidInput(c)
    requires forall n | n in c.nodes :: n.role in splits && splits[n.role] == SplitByLabels(c.nodes, n.role)
    requires forall n | n in c.nodes :: n.role in perRole && perRole[n.role] == SchematicsOf(c, n.role)
    ensures err.Some? <==> exists i | 0 <= i < |c.nodes| :: TooShort(c, i)
    ensures err.Some? ==> Blames(c, err.value)
    ensures err.None? ==> ProfilesTo(ClassList(c), ProfileList(c), |c.nodes|, profiles, names)
  {
    hide KeyOf, SchematicsOf, SplitByLabels, ProfileAt, TooShort, ProfilesTo;
    profiles, names, err := [], map[], None;
    ghost var classes, all := ClassList(c), ProfileList(c);
    NoProfiles(classes, all);
    for i := 0 to |c.nodes|
      invariant err.None? && ProfilesTo(classes, all, i, profiles, names)
      invariant forall j | 0 <= j < i :: !TooShort(c, j)
    {
      var n := c.nodes[i];
      assert n in c.nodes;
      var key := LabelSetKey(n.resolvedLabels);
      var nodeClass := NodeClass(n.role, c.perNode[i], key);
      assert nodeClass == classes[i];
      if nodeClass in names {
        ghost var j := MetAt(classes, all, i, profiles, names);
        SameClassSameProfile(c, j, i);
        ClassMetAgain(classes, all, i, profiles, names, j);
        continue;
      }
      ClassMetFirst(classes, all, i, profiles, names);
      var p := NewProfile(c, i, key, splits, perRole);
      if p.Err? {
        err := Some(p.error);
        return;
      }
      profiles, names := profiles + [p.value], names[nodeClass := p.value.name];
    }
  }

  lemma NoProfiles(classes: seq<NodeClass>, all: seq<Profile>)
    requires |classes| == |all|
    ensures ProfilesTo(classes, all, 0, [], map[])
  {}

  method Groups(c: Input, names: map<NodeClass, string>) returns (r: Result<seq<Group>, Fault>)
    requires ValidInput(c)
    requires forall i | 0 <= i < |c.nodes| :: ClassAt(c, i) in names && names[ClassAt(c, i)] == ProfileName(c, i)
    ensures r.Err? <==> exists n | n in c.nodes :: PrimaryInterface(n.resolved).None?
    ensures r.Err? ==> Blames(c, r.error)
    ensures r.Ok? ==> |r.value| == |c.nodes| && forall i | 0 <= i < |c.nodes| :: GroupOf(c, i, r.value[i])
  {
    hide KeyOf, ProfileName, PrimaryInterface, GroupVarsOf;
    var groups: seq<Group> := [];
    for i := 0 to |c.nodes|
      invariant |groups| == i && forall j | 0 <= j < i :: GroupOf(c, j, groups[j])
    {
      var n := c.nodes[i];
      var nic := PrimaryInterface(n.resolved);
      if nic.None? {
        assert n in c.nodes;
        return Err(NoPrimary(n.name));
      }
      var key := LabelSetKey(n.resolvedLabels);
      var nodeClass := NodeClass(n.role, c.perNode[i], key);
      assert nodeClass == ClassAt(c, i);
      groups := groups + [Group(n.name, names[nodeClass], nic.value.mac, GroupVarsOf(n))];
    }
    forall n | n in c.nodes ensures PrimaryInterface(n.resolved).Some? {
      var j :| 0 <= j < |c.nodes| && c.nodes[j] == n;
      assert GroupOf(c, j, groups[j]);
    }
    r := Ok(groups);
  }

  /** renderCatalog's data: exactly one profile per node class, in first-node order, and one group per node, bound
      by name. It fails exactly on a count mismatch, on a schematic too short to abbreviate in a role that several
      schematics split, or on a node without a primary interface. */
  method RenderCatalog(c: Input) returns (r: Result<CatalogData, Fault>)
    requires HexDigest(c.hash)
    ensures r.Err? <==> |c.perNode| != |c.nodes|
                        || (exists i | 0 <= i < |c.nodes| :: ValidInput(c) && TooShort(c, i))
                        || (exists n | n in c.nodes :: PrimaryInterface(n.resolved).None?)
    ensures r.Err? ==> Blames(c, r.error)
    ensures r.Ok? ==> ValidInput(c) && Renders(c, r.value)
  {
    if |c.perNode| != |c.nodes| {
      return Err(CountMismatch);
    }
    hide SchematicsOf, SplitByLabels, ProfileAt, TooShort, PrimaryInterface, GroupOf, ClassAt, RolesOf, Renders,
         FirstOf, ProfilesTo, ClassList, ProfileList, ProfileName, Elems;
    var splits := LabelSplits(c.nodes);
    var perRole := SchematicsPerRole(c);
    forall n | n in c.nodes ensures n.role in splits && n.role in perRole { RoleListed(c.nodes, n); }
    var profiles, names, err := Profiles(c, splits, perRole);
    if err.Some? {
      return Err(err.value);
    }
    NamesAgree(c, profiles, names);
    var groups := Groups(c, names);
    if groups.Err? {
      return Err(groups.error);
    }
    RendersAll(c, profiles, groups.value);
    r := Ok(CatalogData(profiles, groups.value));
  }

  lemma RendersAll(c: Input, profiles: seq<Profile>, groups: seq<Group>)
    requires ValidInput(c)
    requires profiles == FirstOf(ClassList(c), ProfileList(c), |c.nodes|) && |profiles| == |Elems(ClassList(c))|
    requires forall i | 0 <= i < |c.nodes| :: ProfileAt(c, i) in profiles
    requires forall p | p in profiles :: exists i | 0 <= i < |c.nodes| :: p == ProfileAt(c, i)
    requires |groups| == |c.nodes| && forall i | 0 <= i < |c.nodes| :: GroupOf(c, i, groups[i])
    ensures Renders(c, CatalogData(profiles, groups))
  {
    hide ProfileAt, GroupOf, ClassList, ProfileList, FirstOf, Elems, HexDigest;
  }

  lemma RoleListed(nodes: seq<TalosNode>, n: TalosNode)
    requires n in nodes
    ensures n.role in RolesOf(nodes)
  {}

  lemma NamesAgree(c: Input, profiles: seq<Profile>, names: map<NodeClass, string>)
    requires ValidInput(c) && ProfilesTo(ClassList(c), ProfileList(c), |c.nodes|, profiles, names)
    ensures forall i | 0 <= i < |c.nodes| :: ClassAt(c, i) in names && names[ClassAt(c, i)] == ProfileName(c, i)
    ensures profiles == FirstOf(ClassList(c), ProfileList(c), |c.nodes|) && |profiles| == |Elems(ClassList(c))|
    ensures forall i | 0 <= i < |c.nodes| :: ProfileAt(c, i) in profiles
    ensures forall p | p in profiles :: exists i | 0 <= i < |c.nodes| :: p == ProfileAt(c, i)
  {
    hide ProfileName, ClassAt, SchematicsOf, PathWith, T.InstallImage, Elems, HexDigest, KeyOf, SplitByLabels,
         SuffixFor;
    var classes, all := ClassList(c), ProfileList(c);
    assert classes[..|c.nodes|] == classes && all[..|c.nodes|] == all;
    SameMembers(profiles, all);
    forall i | 0 <= i < |c.nodes|
      ensures ClassAt(c, i) in names && names[ClassAt(c, i)] == ProfileName(c, i) && ProfileAt(c, i) in profiles
    {
      assert classes[i] == ClassAt(c, i) && all[i] == ProfileAt(c, i) && all[i] in all;
    }
    assert forall p :: p in profiles <==> p in all;
    forall p | p in profiles ensures exists i | 0 <= i < |c.nodes| :: p == ProfileAt(c, i) {
      var i :| 0 <= i < |all| && all[i] == p;
      assert p == ProfileAt(c, i);
    }
  }
}
