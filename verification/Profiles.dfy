/** Extension profiles (config/validate.go's validateProfiles): what makes every node's boot image come from exactly
    one source. */
module Profiles {
  import opened Common
  import opened Text
  import opened Sorting
  import opened Config
  import opened Schematics
  import T = Templating

  datatype ProfileFault =
    | BothImageSources
    | DuplicateProfile(name: string) | EmptyProfile(name: string) | InvalidExtension(name: string, extension: string)
    | UnknownProfile(node: string, ref: string) | UnreferencedProfile(name: string)

  function ProfileNames(profiles: seq<TalosProfile>): seq<string> {
    seq(|profiles|, i requires 0 <= i < |profiles| => profiles[i].name)
  }

  function ExtensionDiags(name: string, exts: seq<string>): seq<ProfileFault> {
    if exts == [] then []
    else
      ExtensionDiags(name, exts[..|exts| - 1]) +
      if ExtensionNameOk(exts[|exts| - 1]) then [] else [InvalidExtension(name, exts[|exts| - 1])]
  }

  /** A repeated name is reported and its extensions are not looked at. */
  function DeclarationDiags(profiles: seq<TalosProfile>): seq<ProfileFault> {
    if profiles == [] then []
    else
      var before, p := profiles[..|profiles| - 1], profiles[|profiles| - 1];
      DeclarationDiags(before)
      + if p.name in ProfileNames(before) then [DuplicateProfile(p.name)]
        else (if p.extensions == [] then [EmptyProfile(p.name)] else []) + ExtensionDiags(p.name, p.extensions)
  }

  function ReferenceDiags(names: set<string>, node: string, refs: seq<string>): seq<ProfileFault> {
    if refs == [] then []
    else
      ReferenceDiags(names, node, refs[..|refs| - 1]) +
      if refs[|refs| - 1] in names then [] else [UnknownProfile(node, refs[|refs| - 1])]
  }

  function NodeReferenceDiags(names: set<string>, nodes: seq<TalosNode>): seq<ProfileFault> {
    if nodes == [] then []
    else
      var n := nodes[|nodes| - 1];
      NodeReferenceDiags(names, nodes[..|nodes| - 1]) + ReferenceDiags(names, n.name, n.profiles)
  }

  function UnreferencedDiags(profiles: seq<TalosProfile>, referenced: set<string>): seq<ProfileFault> {
    if profiles == [] then []
    else
      var p := profiles[|profiles| - 1];
      UnreferencedDiags(profiles[..|profiles| - 1], referenced) +
      if p.name in referenced then [] else [UnreferencedProfile(p.name)]
  }

  function ReferencedProfiles(names: set<string>, nodes: seq<TalosNode>): set<string> {
    set n, ref | n in nodes && ref in n.profiles && ref in names :: ref
  }

  /** What validateProfiles reports, in order. */
  function ProfileDiags(t: Talos): seq<ProfileFault> {
    var names := Elems(ProfileNames(t.profiles));
    (if t.profiles != [] && t.schematicID != "" then [BothImageSources] else [])
    + DeclarationDiags(t.profiles) + NodeReferenceDiags(names, t.nodes)
    + UnreferencedDiags(t.profiles, ReferencedProfiles(names, t.nodes))
  }

  method CheckDeclarations(profiles: seq<TalosProfile>) returns (diags: seq<ProfileFault>, declared: set<string>)
    ensures diags == DeclarationDiags(profiles) && declared == Elems(ProfileNames(profiles))
  {
    hide ProfileNames;
    diags, declared := [], {};
    assert |ProfileNames(profiles)| == |profiles| by { NamesLength(profiles); }
    for i := 0 to |profiles|
      invariant diags == DeclarationDiags(profiles[..i]) && declared == Elems(ProfileNames(profiles)[..i])
    {
      var p := profiles[i];
      NamePrefix(profiles, i);
      if p.name in declared {
        diags := diags + [DuplicateProfile(p.name)];
        continue;
      }
      declared := declared + {p.name};
      ghost var before := diags;
      if |p.extensions| == 0 {
        diags := diags + [EmptyProfile(p.name)];
      }
      for j := 0 to |p.extensions|
        invariant diags == before + ((if p.extensions == [] then [EmptyProfile(p.name)] else [])
                  + ExtensionDiags(p.name, p.extensions[..j]))
      {
        assert p.extensions[..j + 1][..j] == p.extensions[..j];
        if !ExtensionNameOk(p.extensions[j]) {
          diags := diags + [InvalidExtension(p.name, p.extensions[j])];
        }
      }
      assert p.extensions[..|p.extensions|] == p.extensions;
    }
    assert profiles[..|profiles|] == profiles && ProfileNames(profiles)[..|profiles|] == ProfileNames(profiles);
  }

  lemma NamesLength(profiles: seq<TalosProfile>)
    ensures |ProfileNames(profiles)| == |profiles|
  {}

  lemma NamePrefix(profiles: seq<TalosProfile>, i: nat)
    requires i < |profiles|
    ensures var names := ProfileNames(profiles);
            && names[..i] == ProfileNames(profiles[..i]) && profiles[..i + 1][..i] == profiles[..i]
            && Elems(names[..i + 1]) == Elems(names[..i]) + {profiles[i].name}
            && (profiles[i].name in Elems(names[..i]) ==> Elems(names[..i + 1]) == Elems(names[..i]))
  {
    var names := ProfileNames(profiles);
    assert names[..i + 1] == names[..i] + [profiles[i].name];
    ElemsConcat(names[..i], [profiles[i].name]);
  }

  method CheckReferences(names: set<string>, nodes: seq<TalosNode>)
    returns (diags: seq<ProfileFault>, referenced: set<string>)
    ensures diags == NodeReferenceDiags(names, nodes) && referenced == ReferencedProfiles(names, nodes)
  {
    diags, referenced := [], {};
    for i := 0 to |nodes|
      invariant diags == NodeReferenceDiags(names, nodes[..i]) && referenced == ReferencedProfiles(names, nodes[..i])
    {
      var n := nodes[i];
      ReferencesGrow(names, nodes, i);
      var faults, found := CheckNodeReferences(names, n);
      diags, referenced := diags + faults, referenced + found;
    }
    assert nodes[..|nodes|] == nodes;
  }

  lemma ReferencesGrow(names: set<string>, nodes: seq<TalosNode>, i: nat)
    requires i < |nodes|
    ensures nodes[..i + 1][..i] == nodes[..i]
    ensures ReferencedProfiles(names, nodes[..i + 1]) ==
              ReferencedProfiles(names, nodes[..i]) + set ref | ref in nodes[i].profiles && ref in names
  {
    assert nodes[..i + 1] == nodes[..i] + [nodes[i]];
  }

  method CheckNodeReferences(names: set<string>, n: TalosNode) returns (diags: seq<ProfileFault>, found: set<string>)
    ensures diags == ReferenceDiags(names, n.name, n.profiles) && found == set ref | ref in n.profiles && ref in names
  {
    diags, found := [], {};
    for j := 0 to |n.profiles|
      invariant diags == ReferenceDiags(names, n.name, n.profiles[..j])
      invariant found == set ref | ref in n.profiles[..j] && ref in names
    {
      var ref := n.profiles[j];
      assert n.profiles[..j + 1][..j] == n.profiles[..j] && n.profiles[..j + 1] == n.profiles[..j] + [ref];
      if ref !in names {
        diags := diags + [UnknownProfile(n.name, ref)];
        continue;
      }
      found := found + {ref};
    }
    assert n.profiles[..|n.profiles|] == n.profiles;
  }

  method ValidateProfiles(t: Talos) returns (diags: seq<ProfileFault>)
    ensures diags == ProfileDiags(t)
  {
    hide DeclarationDiags, NodeReferenceDiags, ReferencedProfiles, ProfileNames;
    diags := [];
    if |t.profiles| > 0 && t.schematicID != "" {
      diags := [BothImageSources];
    }
    var faults, declared := CheckDeclarations(t.profiles);
    diags := diags + faults;
    var unknown, referenced := CheckReferences(declared, t.nodes);
    diags := diags + unknown;
    ghost var before := diags;
    for i := 0 to |t.profiles|
      invariant diags == before + UnreferencedDiags(t.profiles[..i], referenced)
    {
      assert t.profiles[..i + 1][..i] == t.profiles[..i];
      if t.profiles[i].name !in referenced {
        diags := diags + [UnreferencedProfile(t.profiles[i].name)];
      }
    }
    assert t.profiles[..|t.profiles|] == t.profiles;
  }

  // ----- silence

  ghost predicate ProfilesOk(t: Talos) {
    && (t.profiles == [] || t.schematicID == "")
    && Distinct(ProfileNames(t.profiles))
    && (forall p | p in t.profiles :: p.extensions != [] && forall x | x in p.extensions :: ExtensionNameOk(x))
    && (forall n, ref | n in t.nodes && ref in n.profiles :: Declared(t.profiles, ref))
    && (forall p | p in t.profiles :: Used(t.nodes, p.name))
  }

  ghost predicate Declared(profiles: seq<TalosProfile>, name: string) {
    exists p | p in profiles :: p.name == name
  }

  ghost predicate Used(nodes: seq<TalosNode>, name: string) {
    exists n | n in nodes :: name in n.profiles
  }

  lemma {:induction false} ExtensionsEmptyIff(name: string, exts: seq<string>)
    ensures ExtensionDiags(name, exts) == [] <==> forall x | x in exts :: ExtensionNameOk(x)
  {
    hide ExtensionNameOk;
    if exts != [] {
      assert exts == exts[..|exts| - 1] + [exts[|exts| - 1]];
      ExtensionsEmptyIff(name, exts[..|exts| - 1]);
    }
  }

  lemma {:induction false} DeclarationsEmptyIff(profiles: seq<TalosProfile>)
    ensures DeclarationDiags(profiles) == [] <==>
              Distinct(ProfileNames(profiles))
              && forall p | p in profiles :: p.extensions != [] && forall x | x in p.extensions :: ExtensionNameOk(x)
  {
    hide ExtensionNameOk;
    if profiles != [] {
      var before, p := profiles[..|profiles| - 1], profiles[|profiles| - 1];
      assert profiles == before + [p] && ProfileNames(profiles) == ProfileNames(before) + [p.name];
      DeclarationsEmptyIff(before);
      ExtensionsEmptyIff(p.name, p.extensions);
      DistinctAppend(ProfileNames(before), p.name);
    }
  }

  lemma {:induction false} ReferencesEmptyIff(names: set<string>, node: string, refs: seq<string>)
    ensures ReferenceDiags(names, node, refs) == [] <==> forall ref | ref in refs :: ref in names
  {
    if refs != [] {
      assert refs == refs[..|refs| - 1] + [refs[|refs| - 1]];
      ReferencesEmptyIff(names, node, refs[..|refs| - 1]);
    }
  }

  lemma {:induction false} NodeReferencesEmptyIff(names: set<string>, nodes: seq<TalosNode>)
    ensures NodeReferenceDiags(names, nodes) == [] <==> forall n, ref | n in nodes && ref in n.profiles :: ref in names
  {
    if nodes != [] {
      var before, n := nodes[..|nodes| - 1], nodes[|nodes| - 1];
      assert nodes == before + [n];
      NodeReferencesEmptyIff(names, before);
      ReferencesEmptyIff(names, n.name, n.profiles);
    }
  }

  lemma {:induction false} UnreferencedEmptyIff(profiles: seq<TalosProfile>, referenced: set<string>)
    ensures UnreferencedDiags(profiles, referenced) == [] <==> forall p | p in profiles :: p.name in referenced
  {
    if profiles != [] {
      var before, p := profiles[..|profiles| - 1], profiles[|profiles| - 1];
      assert profiles == before + [p];
      UnreferencedEmptyIff(before, referenced);
    }
  }

  lemma NamesMembers(profiles: seq<TalosProfile>)
    ensures forall name :: name in Elems(ProfileNames(profiles)) <==> Declared(profiles, name)
  {
    forall p | p in profiles ensures p.name in ProfileNames(profiles) {
      var i :| 0 <= i < |profiles| && profiles[i] == p;
      assert ProfileNames(profiles)[i] == p.name;
    }
  }

  /** validateProfiles is silent exactly when profiles exclude a pinned schematic, are distinct, non-empty and well
      named, and references and declarations cover each other. */
  lemma ProfilesCleanIff(t: Talos)
    ensures ProfileDiags(t) == [] <==> ProfilesOk(t)
  {
    hide ExtensionNameOk, DeclarationDiags, NodeReferenceDiags, UnreferencedDiags, ProfileNames, Elems, Distinct;
    var names := Elems(ProfileNames(t.profiles));
    DeclarationsEmptyIff(t.profiles);
    NodeReferencesEmptyIff(names, t.nodes);
    UnreferencedEmptyIff(t.profiles, ReferencedProfiles(names, t.nodes));
    NamesMembers(t.profiles);
    forall p | p in t.profiles ensures p.name in ReferencedProfiles(names, t.nodes) <==> Used(t.nodes, p.name) {
      assert Declared(t.profiles, p.name);
    }
    hide Declared, Used, ReferencedProfiles;
    assert ProfileDiags(t) == [] <==>
      && (t.profiles == [] || t.schematicID == "") && DeclarationDiags(t.profiles) == []
      && NodeReferenceDiags(names, t.nodes) == []
          && UnreferencedDiags(t.profiles, ReferencedProfiles(names, t.nodes)) == [];
  }

  // ----- one image source per node

  /** In a cluster whose profiles pass, a node derives its image exactly when it references a profile; every other
      node gets the pinned schematic - and a pinned schematic means no node derives one. */
  lemma OneImageSource(t: Talos, resolve: Resolver, n: TalosNode)
    requires ProfileDiags(t) == [] && n in t.nodes
    ensures ExtensionsOf(t.profiles, n.profiles) == [] <==> n.profiles == []
    ensures Fresh(t.schematicID, resolve, ExtensionsOf(t.profiles, n.profiles)) ==
              if n.profiles == [] then Ok(T.ResolveSchematicID(t.schematicID))
                  else resolve(ExtensionsOf(t.profiles, n.profiles))
    ensures t.schematicID != "" ==> n.profiles == []
    ensures forall x | x in ExtensionsOf(t.profiles, n.profiles) :: ExtensionNameOk(x)
  {
    hide ProfileDiags, ExtensionNameOk;
    ProfilesCleanIff(t);
    var all := Flattened(t.profiles, n.profiles);
    FlattenedElems(t.profiles, n.profiles);
    SortCompactCanonical(all);
    SameMembers(ExtensionsOf(t.profiles, n.profiles), all);
    if n.profiles != [] {
      assert n.profiles[0] in n.profiles;
      assert Declared(t.profiles, n.profiles[0]);
      var p :| p in t.profiles && p.name == n.profiles[0];
      assert p.extensions[0] in p.extensions && p.extensions[0] in all;
    }
  }

  // ----- the schematic an image names

  /** strings.LastIndex(s, "/") + 1 */
  function AfterLastSlash(s: string): string {
    if '/' !in s then s else AfterLastSlash(s[1..])
  }

  /** imageSchematic */
  function ImageSchematic(image: string): string {
    Cut(AfterLastSlash(image), ':').0
  }

  lemma {:induction false} LastSlashAt(before: string, after: string)
    requires '/' !in after
    ensures AfterLastSlash(before + "/" + after) == after
  {
    var s := before + "/" + after;
    assert s[|before|] == '/';
    if before == "" {
      assert s[1..] == after;
    } else {
      LastSlashAt(before[1..], after);
      assert s[1..] == before[1..] + "/" + after;
    }
  }

  lemma VanillaPlain()
    ensures '/' !in T.VANILLA_SCHEMATIC && ':' !in T.VANILLA_SCHEMATIC
  {
    var a, b, c, d := "376567988ad37013", "8ad8b2698212367b", "8edcb69b5fd68c80", "be1f2ec7d603b4ba";
    assert '/' !in a && ':' !in a;
    assert '/' !in b && ':' !in b;
    assert '/' !in c && ':' !in c;
    assert '/' !in d && ':' !in d;
    assert T.VANILLA_SCHEMATIC == a + b + c + d;
  }

  lemma InstallImageReads(schematic: string, version: string)
    requires '/' !in schematic && ':' !in schematic && '/' !in version
    ensures ImageSchematic(T.InstallImage(schematic, version)) == T.ResolveSchematicID(schematic)
  {
    var id := T.ResolveSchematicID(schematic);
    VanillaPlain();
    var tail := id + [':'] + version;
    LastSlashAt("factory.talos.dev/installer", tail);
    assert T.InstallImage(schematic, version) == "factory.talos.dev/installer" + "/" + tail;
    CutAt(id, version, ':');
  }

  /** The schematic read back out of a node's installer image is the one the image was built from - the default one
      only when none is given: what the apply stage compares the running schematic against. */
  lemma ImageNamesItsSchematic(schematic: string, version: string)
    requires '/' !in schematic && ':' !in schematic && '/' !in version
    ensures schematic != "" ==> ImageSchematic(T.InstallImage(schematic, version)) == schematic
    ensures ImageSchematic(T.InstallImage("", version)) == T.VANILLA_SCHEMATIC
  {
    hide ImageSchematic, T.InstallImage;
    InstallImageReads(schematic, version);
    InstallImageReads("", version);
  }
}
