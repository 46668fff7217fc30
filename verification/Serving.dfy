/** What a node is served at install is what the apply stage compares it against (emit/emit.go, emit/catalog.go,
    emit/nodeconfig.go): the catalog and the per-node renderer produce the same text from the same vars. */
module Serving {
  import opened Common
  import opened Text
  import opened Labels
  import opened Config
  import opened Classes
  import opened Resolve
  import opened Vars
  import opened Catalog
  import opened Names
  import opened Emit
  import opened Schematics
  import T = Templating
  import V = Validate

  // ----- serving from the tree

  /** The first profile of a name. */
  ghost function ProfileNamed(profiles: seq<Profile>, name: string): Option<Profile> {
    if profiles == [] then None
    else if profiles[0].name == name then Some(profiles[0])
    else ProfileNamed(profiles[1..], name)
  }

  /** What the tree serves a machine of the group: its profile's template executed with the profile's vars under
      the group's. */
  ghost function Served(tree: map<string, Artifact>, g: Group): Option<Result<string, T.ExecError>> {
    if PROFILES_PATH !in tree || !tree[PROFILES_PATH].CatalogFile? then None
    else
      match ProfileNamed(tree[PROFILES_PATH].catalog.profiles, g.profile)
      case None => None
      case Some(p) =>
        if TEMPLATES_DIR + p.template in tree && tree[TEMPLATES_DIR + p.template].MachineConfig? then
          Some(T.Exec(tree[TEMPLATES_DIR + p.template].data, WithVars(ClassVars(p.role, p.installImage), g.vars)))
        else None
  }

  lemma {:induction false} ProfileIsNamed(profiles: seq<Profile>, p: Profile)
    requires p in profiles && forall q | q in profiles && q.name == p.name :: q == p
    ensures ProfileNamed(profiles, p.name) == Some(p)
  {
    assert profiles[0] in profiles;
    if profiles[0] != p {
      assert p in profiles[1..] && forall q | q in profiles[1..] :: q in profiles;
      ProfileIsNamed(profiles[1..], p);
    }
  }

  // ----- one template path per class

  ghost predicate PathsApart(c: Input, ts: seq<ClassTemplate>)
    requires HexDigest(c.hash)
  {
    forall a, b | 0 <= a < b < |ts| ::
      TemplatePath(c, ts[a].role, ts[a].labels) != TemplatePath(c, ts[b].role, ts[b].labels)
  }

  /** The cluster facts validation and rendering establish. */
  ghost predicate Rendered(c: Input, image: string, gen: Machinery, ts: seq<ClassTemplate>)
    requires image != ""
  {
    && ValidInput(c) && ValidRoles(c.nodes) && AllSeparable(c.nodes)
    && Uniform(c.nodes) && TemplatesOf(c.nodes, image, gen, AllClasses(c.nodes), ts)
  }

  /** The node behind a listed class, when its role has one. */
  lemma ClassNode(c: Input, k: Class) returns (i: nat)
    requires ValidInput(c) && AllSeparable(c.nodes) && k in AllClasses(c.nodes)
    requires exists n | n in c.nodes :: n.role == k.role
    ensures i < |c.nodes| && c.nodes[i].role == k.role && c.nodes[i].resolvedLabels == k.labels
  {
    hide RoleClasses;
    ClassesListedOnce(c.nodes);
    assert SomeNode(c.nodes, k.role, k.labels);
    var n :| n in c.nodes && n.role == k.role && n.resolvedLabels == k.labels;
    i :| 0 <= i < |c.nodes| && c.nodes[i] == n;
  }

  /** Two listed classes with one path are one class. */
  lemma SamePathSameClass(c: Input, a: Class, b: Class)
    requires ValidInput(c) && AllSeparable(c.nodes) && HashesDistinguish(c)
    requires a in AllClasses(c.nodes) && b in AllClasses(c.nodes)
    requires TemplatePath(c, a.role, a.labels) == TemplatePath(c, b.role, b.labels)
    ensures a == b
  {
    hide RoleClasses, KeyOf, PathWith, SuffixFor, SplitByLabels, Abbreviated, SeparableSet;
    ClassesListedOnce(c.nodes);
    var split := SplitByLabels(c.nodes, a.role);
    PathsEqualIff(a.role, SuffixFor(c.hash, KeyOf(a.labels), split),
                  b.role, SuffixFor(c.hash, KeyOf(b.labels), SplitByLabels(c.nodes, b.role)));
    if exists n | n in c.nodes :: n.role == a.role {
      var i := ClassNode(c, a);
      var j := ClassNode(c, b);
      assert LabelPart(c, i) == LabelPart(c, j);
      LabelPartsEqualIff(c, i, j);
      assert c.nodes[i] in c.nodes && c.nodes[j] in c.nodes;
      LabelSetKeyInjective(a.labels, b.labels);
    }
  }

  lemma ClassPathsApart(c: Input, image: string, gen: Machinery, ts: seq<ClassTemplate>)
    requires image != "" && Rendered(c, image, gen, ts) && HashesDistinguish(c)
    ensures PathsApart(c, ts)
  {
    hide TemplatePath, AllClasses, TextOf, HashesDistinguish, Uniform;
    var classes := AllClasses(c.nodes);
    assert Distinct(classes) by { ListedOnce(c.nodes); }
    forall a, b | 0 <= a < b < |ts|
      ensures TemplatePath(c, ts[a].role, ts[a].labels) != TemplatePath(c, ts[b].role, ts[b].labels)
    {
      assert classes[a] in classes && classes[b] in classes;
      if TemplatePath(c, ts[a].role, ts[a].labels) == TemplatePath(c, ts[b].role, ts[b].labels) {
        SamePathSameClass(c, classes[a], classes[b]);
        assert false;
      }
    }
  }

  lemma ListedOnce(nodes: seq<TalosNode>)
    requires AllSeparable(nodes)
    ensures Distinct(AllClasses(nodes))
    ensures forall n | n in nodes && ValidRole(n.role) :: Class(n.role, n.resolvedLabels) in AllClasses(nodes)
  {
    hide RoleClasses;
    ClassesListedOnce(nodes);
    forall n | n in nodes && ValidRole(n.role) ensures Class(n.role, n.resolvedLabels) in AllClasses(nodes) {
      assert SomeNode(nodes, n.role, n.resolvedLabels);
    }
  }

  lemma ClassTemplateAt(c: Input, image: string, gen: Machinery, ts: seq<ClassTemplate>, i: nat) returns (k: nat)
    requires image != "" && Rendered(c, image, gen, ts) && i < |c.nodes|
    ensures k < |ts| && ts[k].role == c.nodes[i].role && ts[k].labels == c.nodes[i].resolvedLabels
    ensures Lookup(ts, c.nodes[i].role, c.nodes[i].resolvedLabels) == Some(ts[k].data)
    ensures Ok(ts[k].data) ==
            RoleTemplate(gen, image, c.nodes[i].role, NodeShape(c.nodes[i].resolved), c.nodes[i].resolvedLabels)
  {
    hide AllClasses, RoleTemplate, SeparableSet, Lookup, NodeShape;
    var n, classes := c.nodes[i], AllClasses(c.nodes);
    assert n in c.nodes;
    ListedOnce(c.nodes);
    var nodeClass := Class(n.role, n.resolvedLabels);
    k :| 0 <= k < |classes| && classes[k] == nodeClass;
    forall t | t in ts ensures SeparableSet(t.labels) { ListedSeparable(c, image, gen, ts, t); }
    LookupIsExact(ts, n.role, n.resolvedLabels);
    assert ts[k] in ts;
    var t :| t in ts && t.role == n.role && t.labels == n.resolvedLabels
        && t.data == Lookup(ts, n.role, n.resolvedLabels).value;
    var m :| 0 <= m < |ts| && ts[m] == t;
    assert classes[m] == nodeClass;
    ShapeOfUniform(c.nodes, n.role);
  }

  /** Templates.For succeeds for every node, with the template of exactly its role, shape and labels. */
  lemma ClassTemplateFound(c: Input, image: string, gen: Machinery, ts: seq<ClassTemplate>, i: nat)
    requires image != "" && Rendered(c, image, gen, ts) && i < |c.nodes|
    ensures var n := c.nodes[i];
            && Lookup(ts, n.role, n.resolvedLabels).Some?
            && Ok(Lookup(ts, n.role, n.resolvedLabels).value) ==
               RoleTemplate(gen, image, n.role, NodeShape(n.resolved), n.resolvedLabels)
  {
    hide Lookup, RoleTemplate, Rendered;
    var k := ClassTemplateAt(c, image, gen, ts, i);
  }

  lemma ListedSeparable(c: Input, image: string, gen: Machinery, ts: seq<ClassTemplate>, t: ClassTemplate)
    requires image != "" && Rendered(c, image, gen, ts) && t in ts
    ensures SeparableSet(t.labels)
  {
    hide RoleClasses, TextOf;
    var k :| 0 <= k < |ts| && ts[k] == t;
    var nodeClass := AllClasses(c.nodes)[k];
    assert nodeClass in AllClasses(c.nodes);
    ClassesListedOnce(c.nodes);
    if SomeNode(c.nodes, nodeClass.role, nodeClass.labels) {
      var n :| n in c.nodes && n.role == nodeClass.role && n.resolvedLabels == nodeClass.labels;
    }
  }

  /** Every profile's template is a file of the tree and holds the data of its nodes' class. */
  lemma ProfileTemplateInTree(c: Input, image: string, gen: Machinery, ts: seq<ClassTemplate>, d: CatalogData, i: nat)
    requires image != "" && Rendered(c, image, gen, ts) && HashesDistinguish(c) && i < |c.nodes|
    ensures var path, tree := TEMPLATES_DIR + ProfileAt(c, i).template, TreeOf(c, ts, d);
            && path in tree
            && Lookup(ts, c.nodes[i].role, c.nodes[i].resolvedLabels).Some?
            && tree[path] == MachineConfig(Lookup(ts, c.nodes[i].role, c.nodes[i].resolvedLabels).value)
  {
    hide KeyOf, SplitByLabels, PathWith, SuffixFor, Lookup, TemplatesOf, WithTemplates, Uniform, AllSeparable;
    var k := ClassTemplateAt(c, image, gen, ts, i);
    ClassPathsApart(c, image, gen, ts);
    assert ProfileAt(c, i).template == TemplatePath(c, ts[k].role, ts[k].labels);
    forall j | k < j < |ts| ensures TemplateFile(c, ts[j]) != TemplateFile(c, ts[k]) {
      SplitEqual(TEMPLATES_DIR, TEMPLATES_DIR, TemplatePath(c, ts[k].role, ts[k].labels),
                 TemplatePath(c, ts[j].role, ts[j].labels));
    }
    LastTemplateHeld(c, FIXED_FILES, ts, k);
    TemplatesKeepOffCatalog(c, ts[k]);
  }

  /** The group's profile name finds the profile of its node's class. */
  lemma GroupFindsProfile(c: Input, d: CatalogData, i: nat)
    requires ValidInput(c) && ValidRoles(c.nodes) && Renders(c, d) && i < |c.nodes|
    requires HashesDistinguish(c) && ShortsDistinguish(c) && forall k | 0 <= k < |c.nodes| :: !TooShort(c, k)
    ensures ProfileNamed(d.profiles, d.groups[i].profile) == Some(ProfileAt(c, i))
  {
    hide TooShort, HashesDistinguish, ShortsDistinguish, SchematicPart, LabelPart, PathWith, T.InstallImage;
    var p := ProfileAt(c, i);
    assert GroupOf(c, i, d.groups[i]);
    forall q | q in d.profiles && q.name == p.name ensures q == p {
      var j :| 0 <= j < |c.nodes| && q == ProfileAt(c, j);
      ClassesNamedApart(c, j, i);
    }
    ProfileIsNamed(d.profiles, p);
  }

  /** The two renderers agree: the tree serves each node's group exactly what NodeConfigs renders for the node. */
  lemma ServedIsRendered(c: Input, image: string, gen: Machinery, ts: seq<ClassTemplate>, d: CatalogData, i: nat)
    requires image != "" && Rendered(c, image, gen, ts) && Renders(c, d) && i < |c.nodes|
    requires HashesDistinguish(c) && ShortsDistinguish(c) && forall k | 0 <= k < |c.nodes| :: !TooShort(c, k)
    ensures RenderOf(c, ts, i).Some?
    ensures Served(TreeOf(c, ts, d), d.groups[i]) == RenderOf(c, ts, i)
  {
    hide Lookup, WithTemplates, T.Exec, TooShort, HashesDistinguish, ShortsDistinguish, TemplatesOf, Uniform,
         AllSeparable, SchematicPart, LabelPart, PathWith, ProfileNamed, GroupVarsOf, WithVars;
    ProfileTemplateInTree(c, image, gen, ts, d, i);
    GroupFindsProfile(c, d, i);
    assert GroupOf(c, i, d.groups[i]);
    assert TreeOf(c, ts, d)[PROFILES_PATH] == CatalogFile(d);
  }

  // ----- the text a node gets

  /** What a class's config must be like: placeholders at separate holes only, and no braces in their way. */
  ghost predicate WellMade(raw: string, segs: seq<T.Seg>, image: string, shape: seq<T.SlotShape>) {
    var swaps := T.Swaps(image, shape);
    && T.HolesBelow(segs, |swaps|) && T.Fill(segs, T.Values(swaps)) == raw
    && T.Separate(segs, swaps) && T.RawOk(raw, swaps)
  }

  /** Every node is rendered without error, to its class's config with this node's own hostname, image and
      interface identity at the holes - whatever placeholder values the class was validated with. */
  lemma NodeGetsItsOwnConfig(c: Input, image: string, gen: Machinery, ts: seq<ClassTemplate>, i: nat, raw: string,
                             segs: seq<T.Seg>)
    requires '/' in image && T.BraceFree(image) && Rendered(c, image, gen, ts) && i < |c.nodes|
    requires Distinct(Slots(c.nodes[i].resolved)) && forall r | r in c.nodes[i].resolved :: T.IsSlot(r.slot)
    requires gen(c.nodes[i].role, NodeShape(c.nodes[i].resolved), c.nodes[i].resolvedLabels) == Ok(raw)
    requires WellMade(raw, segs, image, NodeShape(c.nodes[i].resolved))
    ensures RenderOf(c, ts, i) == Some(Ok(T.Fill(segs, NodeValues(c.nodes[i], ImageAt(c, i)))))
  {
    hide Lookup, T.SwapAll, T.Swaps, T.Fill, T.Exec, T.Separate, T.RawOk, T.Safe, T.IsSlot, T.BraceFree, T.Looked,
         T.Values, T.Exprs, TemplatesOf, Uniform, AllSeparable, NodeVars, NodeValues, Distinct, Slots;
    var n := c.nodes[i];
    var k := ClassTemplateAt(c, image, gen, ts, i);
    var shape := NodeShape(n.resolved);
    forall s | s in shape ensures T.IsSlot(s.slot) {
      var j :| 0 <= j < |shape| && shape[j] == s;
      assert n.resolved[j] in n.resolved;
    }
    T.SwapsAreSafe(image, shape);
    T.SequentialIsSimultaneous(segs, T.Swaps(image, shape), NodeVars(n, ImageAt(c, i)));
    EveryVarDefined(n, image, ImageAt(c, i));
  }

  /** A validated cluster meets the node conditions above. */
  lemma ValidatedNodes(p: Parsers, t: Talos, t': Talos)
    requires p.Lawful() && V.Sound(p, t, t')
    ensures AllSeparable(t'.nodes)
    ensures forall n | n in t'.nodes ::
              PrimaryInterface(n.resolved).Some? && Distinct(Slots(n.resolved))
              && forall r | r in n.resolved :: T.IsSlot(r.slot)
  {
    hide PrimaryInterface, T.IsSlot, SeparableSet, Slots, Distinct, SlotsOrdered;
    forall n | n in t'.nodes
      ensures SeparableSet(n.resolvedLabels)
      ensures PrimaryInterface(n.resolved).Some? && Distinct(Slots(n.resolved))
      ensures forall r | r in n.resolved :: T.IsSlot(r.slot)
    {
      var i :| 0 <= i < |t'.nodes| && t'.nodes[i] == n;
      assert V.SoundNode(p, t, t.nodes[i], n);
    }
  }

  // ----- staged assets

  /** The kernel a profile boots, below the server's boot directory. */
  function BootKernel(version: string, p: Profile): string { "talos/" + version + "/" + p.schematic + "/vmlinuz" }

  function BootInitramfs(version: string, p: Profile): string {
    "talos/" + version + "/" + p.schematic + "/initramfs.xz"
  }

  /** Both files every profile boots are staged when the assets of the distinct schematics are. */
  lemma ProfilesAreStaged(c: Input, d: CatalogData, unique: seq<string>, assets: seq<BootAsset>, p: Profile)
    requires ValidInput(c) && Renders(c, d) && Elems(unique) == Elems(c.perNode) && p in d.profiles
    requires Staged(c.version, unique, assets)
    ensures exists a | a in assets :: a.path == "boot/" + BootKernel(c.version, p)
    ensures exists a | a in assets :: a.path == "boot/" + BootInitramfs(c.version, p)
  {
    hide BootKernel, BootInitramfs, KernelPath, InitramfsPath;
    BootPaths(c.version, p);
    SchematicStaged(c, d, unique, p);
    var j :| 0 <= j < |unique| && unique[j] == p.schematic;
    assert assets[2 * j] in assets && assets[2 * j + 1] in assets;
  }

  lemma SchematicStaged(c: Input, d: CatalogData, unique: seq<string>, p: Profile)
    requires ValidInput(c) && Renders(c, d) && Elems(unique) == Elems(c.perNode) && p in d.profiles
    ensures p.schematic in unique
  {
    hide ProfileName, PathWith, T.InstallImage, LabelPart, HexDigest, GroupOf;
    var i :| 0 <= i < |c.nodes| && p == ProfileAt(c, i);
    assert c.perNode[i] in c.perNode;
    SameMembers(unique, c.perNode);
  }

  lemma BootPaths(version: string, p: Profile)
    ensures KernelPath(version, p.schematic) == "boot/" + BootKernel(version, p)
    ensures InitramfsPath(version, p.schematic) == "boot/" + BootInitramfs(version, p)
  {
    var dir := "talos/" + version + "/" + p.schematic;
    assert AssetDir(version, p.schematic) == "boot/" + dir;
    assert "boot/" + dir + "/vmlinuz" == "boot/" + (dir + "/vmlinuz");
    assert "boot/" + dir + "/initramfs.xz" == "boot/" + (dir + "/initramfs.xz");
  }

  // ----- the pipeline

  datatype Emission = Emission(tree: map<string, Artifact>, catalog: CatalogData, configs: seq<RenderedNode>,
      assets: seq<BootAsset>)

  /** Every node's memoised schematic, where it has one. */
  ghost function PerNode(t: Talos, resolve: Resolver): (r: seq<string>)
    ensures |r| == |t.nodes|
  {
    seq(|t.nodes|, i requires 0 <= i < |t.nodes| =>
      var m := Memo(t.schematicID, resolve, SetsOf(t), i); if m.Ok? then m.value else "")
  }

  ghost function InputOf(t: Talos, resolve: Resolver, hash: string -> string): Input {
    Input(t.version, t.nodes, PerNode(t, resolve), hash)
  }

  ghost function AllTemplates(nodes: seq<TalosNode>, image: string, gen: Machinery): seq<ClassTemplate>
    requires image != ""
  {
    var classes := AllClasses(nodes);
    seq(|classes|, k requires 0 <= k < |classes| =>
      var text := TextOf(nodes, image, gen, classes[k]);
      ClassTemplate(classes[k].role, classes[k].labels, if text.Ok? then text.value else ""))
  }

  lemma TemplatesDetermined(nodes: seq<TalosNode>, image: string, gen: Machinery, ts: seq<ClassTemplate>)
    requires image != "" && TemplatesOf(nodes, image, gen, AllClasses(nodes), ts)
    ensures ts == AllTemplates(nodes, image, gen)
  {
    hide AllClasses, TextOf;
  }

  lemma SchematicsDetermined(t: Talos, resolve: Resolver, perNode: seq<string>)
    requires |perNode| == |t.nodes|
    requires forall i | 0 <= i < |t.nodes| :: Memo(t.schematicID, resolve, SetsOf(t), i) == Ok(perNode[i])
    ensures perNode == PerNode(t, resolve)
  {
    hide Memo, SetsOf;
  }

  /** What node i's own class template renders to with its own vars. */
  ghost function NodeRender(t: Talos, resolve: Resolver, gen: Machinery, hash: string -> string, i: nat)
    : Option<Result<string, T.ExecError>>
    requires i < |t.nodes|
  {
    ImageNonEmpty(t.schematicID, t.version);
    RenderOf(InputOf(t, resolve, hash), AllTemplates(t.nodes, T.InstallImage(t.schematicID, t.version), gen), i)
  }

  /** What emission needs: every schematic resolved, one shape per role, every class's config accepted and holding
      its placeholders, no schematic too short to abbreviate, a boot interface on every node, and every template
      well formed. */
  ghost predicate Emittable(t: Talos, resolve: Resolver, gen: Machinery, hash: string -> string)
    requires HexDigest(hash)
  {
    ImageNonEmpty(t.schematicID, t.version);
    var c, image := InputOf(t, resolve, hash), T.InstallImage(t.schematicID, t.version);
    && (forall i | 0 <= i < |t.nodes| :: Memo(t.schematicID, resolve, SetsOf(t), i).Ok?)
    && Uniform(t.nodes) && (forall k | k in AllClasses(t.nodes) :: TextOf(t.nodes, image, gen, k).Ok?)
    && (forall i | 0 <= i < |t.nodes| :: !TooShort(c, i))
    && (forall n | n in t.nodes :: PrimaryInterface(n.resolved).Some?)
    && (forall i | 0 <= i < |t.nodes| ::
          NodeRender(t, resolve, gen, hash, i).Some? && NodeRender(t, resolve, gen, hash, i).value.Ok?)
  }

  /** Everything one declared cluster is emitted as - schematics, templates, tree, assets - and the configs the
      apply stage renders for it; it succeeds exactly when the cluster is emittable. With abbreviations that tell
      what is present apart, each node's group is served its config; every profile boots staged files, at paths
      staging can tell apart. */
  method EmitCluster(t: Talos, resolve: Resolver, gen: Machinery, hash: string -> string, factoryURL: string)
    returns (r: Option<Emission>)
    requires HexDigest(hash) && ValidRoles(t.nodes) && AllSeparable(t.nodes)
    ensures r.Some? <==> Emittable(t, resolve, gen, hash)
    ensures r.Some? ==> |r.value.catalog.groups| == |r.value.configs| == |t.nodes|
    ensures r.Some? ==> forall i | 0 <= i < |t.nodes| ::
              && r.value.configs[i].name == t.nodes[i].name
              && NodeRender(t, resolve, gen, hash, i) == Some(Ok(r.value.configs[i].config))
    ensures r.Some? && HashesDistinguish(InputOf(t, resolve, hash)) && ShortsDistinguish(InputOf(t, resolve, hash)) ==>
              forall i | 0 <= i < |t.nodes| ::
                && r.value.catalog.groups[i].name == r.value.configs[i].name == t.nodes[i].name
                && Served(r.value.tree, r.value.catalog.groups[i]) == Some(Ok(r.value.configs[i].config))
    ensures r.Some? ==> Distinct(Paths(r.value.assets)) && forall p | p in r.value.catalog.profiles ::
              && (exists a | a in r.value.assets :: a.path == "boot/" + BootKernel(t.version, p))
              && (exists a | a in r.value.assets :: a.path == "boot/" + BootInitramfs(t.version, p))
  {
    hide Served, RenderOf, TreeOf, Renders, TemplatesOf, AllClasses, Uniform, AllSeparable, ValidRoles, TooShort,
         TextOf, HashesDistinguish, ShortsDistinguish, BootKernel, BootInitramfs, Memo, SetsOf, Staged, HexDigest,
         PrimaryInterface, T.InstallImage, GroupOf, PerNode, AllTemplates, HoldsExactly, Blames, SameShape,
         NodeShape;
    ImageNonEmpty(t.schematicID, t.version);
    var image := T.InstallImage(t.schematicID, t.version);
    var perNode, unique, err := NodeSchematics(t, resolve);
    if err.Some? {
      return None;
    }
    SchematicsDetermined(t, resolve, perNode);
    var c := Input(t.version, t.nodes, perNode, hash);
    assert c == InputOf(t, resolve, hash);
    var ts := ClassTemplates(t.nodes, image, gen);
    if ts.Err? {
      return None;
    }
    TemplatesDetermined(t.nodes, image, gen, ts.value);
    var tree, d := EmitTree(c, ts.value);
    var configs := NodeConfigs(c, ts.value);
    forall i | 0 <= i < |t.nodes| ensures NodeRender(t, resolve, gen, hash, i) == RenderOf(c, ts.value, i) {}
    if tree.Err? || configs.Err? {
      return None;
    }
    var assets := BootAssets(factoryURL, t.version, unique);
    r := Some(Emission(tree.value, d, configs.value, assets));
    StagedPathsDistinct(t.version, unique, assets);
    EmissionIsSound(c, image, gen, ts.value, d, configs.value, unique, assets);
  }

  lemma EmissionIsSound(c: Input, image: string, gen: Machinery, ts: seq<ClassTemplate>, d: CatalogData,
                        configs: seq<RenderedNode>, unique: seq<string>, assets: seq<BootAsset>)
    requires image != "" && Rendered(c, image, gen, ts) && Renders(c, d)
             && (forall k | 0 <= k < |c.nodes| :: !TooShort(c, k))
    requires |configs| == |c.nodes| && forall i | 0 <= i < |c.nodes| ::
               configs[i].name == c.nodes[i].name && RenderOf(c, ts, i) == Some(Ok(configs[i].config))
    requires Elems(unique) == Elems(c.perNode) && Staged(c.version, unique, assets)
    ensures |d.groups| == |c.nodes|
    ensures HashesDistinguish(c) && ShortsDistinguish(c) ==> forall i | 0 <= i < |c.nodes| ::
              && d.groups[i].name == configs[i].name == c.nodes[i].name
              && Served(TreeOf(c, ts, d), d.groups[i]) == Some(Ok(configs[i].config))
    ensures forall p | p in d.profiles ::
              && (exists a | a in assets :: a.path == "boot/" + BootKernel(c.version, p))
              && (exists a | a in assets :: a.path == "boot/" + BootInitramfs(c.version, p))
  {
    assert ValidInput(c);
    hide Served, RenderOf, TreeOf, Renders, Rendered, TooShort, HashesDistinguish, ShortsDistinguish, BootKernel,
         BootInitramfs, Staged, Elems;
    forall p | p in d.profiles
      ensures exists a | a in assets :: a.path == "boot/" + BootKernel(c.version, p)
      ensures exists a | a in assets :: a.path == "boot/" + BootInitramfs(c.version, p)
    {
      ProfilesAreStaged(c, d, unique, assets, p);
    }
    GroupsInOrder(c, d);
    if HashesDistinguish(c) && ShortsDistinguish(c) {
      forall i | 0 <= i < |c.nodes|
        ensures d.groups[i].name == configs[i].name == c.nodes[i].name
        ensures Served(TreeOf(c, ts, d), d.groups[i]) == Some(Ok(configs[i].config))
      {
        ServedIsRendered(c, image, gen, ts, d, i);
      }
    }
  }

  lemma ImageNonEmpty(schematic: string, version: string)
    ensures T.InstallImage(schematic, version) != ""
  {}

  lemma GroupsInOrder(c: Input, d: CatalogData)
    requires ValidInput(c) && Renders(c, d)
    ensures |d.groups| == |c.nodes| && forall i | 0 <= i < |c.nodes| :: d.groups[i].name == c.nodes[i].name
  {
    hide ProfileName, PrimaryInterface, FirstOf, ProfileAt;
  }

  // ----- which node a group boots

  ghost predicate HasMAC(nodes: seq<TalosNode>, i: int, a: int, mac: string) {
    0 <= i < |nodes| && 0 <= a < |nodes[i].resolved| && nodes[i].resolved[a].mac == mac
  }

  lemma OneInterfacePerMAC(nodes: seq<TalosNode>, i: int, a: int, j: int, b: int, mac: string)
    requires Distinct(V.AllMACs(nodes)) && HasMAC(nodes, i, a, mac) && HasMAC(nodes, j, b, mac)
    ensures i == j && a == b
  {
    if i < j || (i == j && a < b) { V.MACsTellInterfaces(nodes, i, a, j, b); }
    if j < i || (i == j && b < a) { V.MACsTellInterfaces(nodes, j, b, i, a); }
  }

  lemma BootInterface(resolved: seq<ResolvedInterface>) returns (a: int)
    requires PrimaryInterface(resolved).Some?
    ensures 0 <= a < |resolved| && resolved[a] == PrimaryInterface(resolved).value
  {
    PrimaryFound(resolved);
    a :| 0 <= a < |resolved| && resolved[a] == PrimaryInterface(resolved).value;
  }

  /** Of a validated cluster, the MAC a group selects is that of its own node's boot interface - primary, on a lease -
      and of no other interface of any node. */
  lemma GroupSelectsItsNode(p: Parsers, declared: Talos, t: Talos, c: Input, d: CatalogData, i: nat) returns (a: int)
    requires p.Lawful() && V.Sound(p, declared, t) && ValidInput(c) && c.nodes == t.nodes && Renders(c, d)
    requires i < |c.nodes|
    ensures |d.groups| == |c.nodes| && HasMAC(t.nodes, i, a, d.groups[i].mac)
    ensures t.nodes[i].resolved[a].primary && t.nodes[i].resolved[a].dhcp
    ensures forall j, b | HasMAC(t.nodes, j, b, d.groups[i].mac) :: j == i && b == a
  {
    hide V.AllMACs, SoundPlanes, V.InUse, Distinct, ProfileAt, FirstOf, ProfileName, GroupVarsOf, PrimaryInterface,
         WellResolved, V.RuntimesOn;
    assert V.SoundNode(p, declared, declared.nodes[i], t.nodes[i]);
    a := BootInterface(t.nodes[i].resolved);
    assert GroupOf(c, i, d.groups[i]);
    forall j, b | HasMAC(t.nodes, j, b, d.groups[i].mac) ensures j == i && b == a {
      OneInterfacePerMAC(t.nodes, i, a, j, b, d.groups[i].mac);
    }
  }

  // ----- a validated cluster emits

  /** Every class's config comes out of the machinery well made, every placeholder at a hole of its own. */
  ghost predicate WellMadeClasses(nodes: seq<TalosNode>, image: string, gen: Machinery, segsOf: Class -> seq<T.Seg>) {
    forall k | k in AllClasses(nodes) :: WellMadeClass(ShapeOf(nodes, k.role), image, gen, k, segsOf(k))
  }

  ghost predicate WellMadeClass(shape: seq<T.SlotShape>, image: string, gen: Machinery, k: Class, segs: seq<T.Seg>) {
    && gen(k.role, shape, k.labels).Ok? && WellMade(gen(k.role, shape, k.labels).value, segs, image, shape)
    && forall h | 0 <= h < |T.Swaps(image, shape)| :: T.Hole(h) in segs
  }

  /** Every slot of the shape is one resolution accepts. */
  ghost predicate SlotsAccepted(shape: seq<T.SlotShape>) {
    forall s | s in shape :: T.IsSlot(s.slot)
  }

  lemma WellMadeClassIsAccepted(nodes: seq<TalosNode>, image: string, gen: Machinery, k: Class, segs: seq<T.Seg>)
    requires '/' in image && T.BraceFree(image) && SlotsAccepted(ShapeOf(nodes, k.role))
    requires WellMadeClass(ShapeOf(nodes, k.role), image, gen, k, segs)
    ensures TextOf(nodes, image, gen, k).Ok?
  {
    hide T.Swaps, T.SwapAll, T.Fill, T.Exec, T.Separate, T.RawOk, T.Safe, T.IsSlot, T.BraceFree, T.Looked, T.Values,
         T.Exprs, ShapeOf;
    var swaps := T.Swaps(image, ShapeOf(nodes, k.role));
    T.SwapsAreSafe(image, ShapeOf(nodes, k.role));
    T.SequentialIsSimultaneous(segs, swaps, map[]);
    forall h | 0 <= h < |swaps| ensures Contains(T.Fill(segs, T.Values(swaps)), swaps[h].value) {
      T.HoleIsContained(segs, swaps, h);
    }
  }

  lemma {:induction false} ShapesAccepted(nodes: seq<TalosNode>, role: string)
    requires forall n, r | n in nodes && r in n.resolved :: T.IsSlot(r.slot)
    ensures SlotsAccepted(ShapeOf(nodes, role))
  {
    if nodes != [] {
      if nodes[0].role == role {
        var shape := NodeShape(nodes[0].resolved);
        forall s | s in shape ensures T.IsSlot(s.slot) {
          var j :| 0 <= j < |shape| && shape[j] == s;
          assert nodes[0] in nodes && nodes[0].resolved[j] in nodes[0].resolved;
        }
      } else {
        assert forall n | n in nodes[1..] :: n in nodes;
        ShapesAccepted(nodes[1..], role);
      }
    }
  }

  lemma AllTemplatesAreTheTemplates(nodes: seq<TalosNode>, image: string, gen: Machinery)
    requires image != "" && forall k | k in AllClasses(nodes) :: TextOf(nodes, image, gen, k).Ok?
    ensures TemplatesOf(nodes, image, gen, AllClasses(nodes), AllTemplates(nodes, image, gen))
  {
    hide AllClasses, TextOf;
    var classes := AllClasses(nodes);
    forall k | 0 <= k < |classes| ensures TextOf(nodes, image, gen, classes[k]).Ok? { assert classes[k] in classes; }
  }

  lemma {:induction false} ShapesValid(nodes: seq<TalosNode>, role: string)
    requires forall n | n in nodes :: Distinct(Slots(n.resolved)) && forall r | r in n.resolved :: T.IsSlot(r.slot)
    ensures T.ValidShape(ShapeOf(nodes, role))
  {
    ShapesAccepted(nodes, role);
    if nodes != [] {
      if nodes[0].role == role {
        var nics := nodes[0].resolved;
        assert nodes[0] in nodes;
        forall i, j | 0 <= i < j < |nics| ensures nics[i].slot != nics[j].slot {
          assert Slots(nics)[i] != Slots(nics)[j];
        }
      } else {
        assert forall n | n in nodes[1..] :: n in nodes;
        ShapesValid(nodes[1..], role);
      }
    }
  }

  /** Such class configs exist for every validated cluster whose image spells no placeholder. */
  lemma ClassesCanBeWellMade(p: Parsers, declared: Talos, t: Talos, image: string)
    requires p.Lawful() && V.Sound(p, declared, t) && T.PlainImage(image) && T.BraceFree(image)
    ensures exists gen: Machinery, segsOf: Class -> seq<T.Seg> :: WellMadeClasses(t.nodes, image, gen, segsOf)
  {
    hide V.Sound, T.PlainImage, T.BraceFree, T.Swaps, T.Fill, T.OnlyAtHoles, T.RawOk, T.IsSlot, T.ValidShape, Distinct,
         Slots, AllClasses, ShapeOf, T.ClosedHoles, PrimaryInterface, AllSeparable;
    ValidatedNodes(p, declared, t);
    var gen: Machinery := (role, shape, labels) =>
      Ok(T.Fill(T.ClosedHoles(0, |T.Swaps(image, shape)|), T.Values(T.Swaps(image, shape))));
    var segsOf: Class -> seq<T.Seg> := (k: Class) => T.ClosedHoles(0, |T.Swaps(image, ShapeOf(t.nodes, k.role))|);
    forall k | k in AllClasses(t.nodes)
      ensures WellMadeClass(ShapeOf(t.nodes, k.role), image, gen, k, segsOf(k))
    {
      ShapesValid(t.nodes, k.role);
      T.SomeConfigIsWellMade(image, ShapeOf(t.nodes, k.role));
    }
    assert WellMadeClasses(t.nodes, image, gen, segsOf);
  }

  /** A validated cluster of uniform roles, whose class configs are well made and whose schematics are known, is
      emittable, and every node's config is its class's with the node's own values at all the holes. */
  lemma SoundClusterEmits(p: Parsers, declared: Talos, t: Talos, resolve: Resolver, gen: Machinery,
                          hash: string -> string, segsOf: Class -> seq<T.Seg>)
    requires p.Lawful() && V.Sound(p, declared, t) && ValidRoles(t.nodes) && Uniform(t.nodes) && HexDigest(hash)
    requires forall i | 0 <= i < |t.nodes| ::
               Memo(t.schematicID, resolve, SetsOf(t), i).Ok? && !TooShort(InputOf(t, resolve, hash), i)
    requires T.BraceFree(T.InstallImage(t.schematicID, t.version))
    requires WellMadeClasses(t.nodes, T.InstallImage(t.schematicID, t.version), gen, segsOf)
    ensures AllSeparable(t.nodes) && Emittable(t, resolve, gen, hash)
    ensures forall i | 0 <= i < |t.nodes| ::
              NodeRender(t, resolve, gen, hash, i) == Some(Ok(OwnConfig(t, resolve, hash, segsOf, i)))
  {
    hide V.Sound, Memo, SetsOf, TooShort, T.BraceFree, T.InstallImage, Uniform, AllClasses, TextOf, TemplatesOf,
         HexDigest, NodeRender, AllTemplates, ShapeOf, T.IsSlot, AllSeparable, ValidRoles, WellMadeClass, OwnConfig,
         PrimaryInterface, Slots, Distinct;
    var image := T.InstallImage(t.schematicID, t.version);
    ImageHasSlash(t.schematicID, t.version);
    ValidatedNodes(p, declared, t);
    forall k | k in AllClasses(t.nodes) ensures TextOf(t.nodes, image, gen, k).Ok? {
      ShapesAccepted(t.nodes, k.role);
      WellMadeClassIsAccepted(t.nodes, image, gen, k, segsOf(k));
    }
    AllTemplatesAreTheTemplates(t.nodes, image, gen);
    forall i | 0 <= i < |t.nodes|
      ensures NodeRender(t, resolve, gen, hash, i) == Some(Ok(OwnConfig(t, resolve, hash, segsOf, i)))
    {
      OwnConfigRendered(t, resolve, gen, hash, segsOf, i);
    }
  }

  /** Node i's class's config, its holes filled with node i's hostname, image, MACs and addresses. */
  ghost function OwnConfig(t: Talos, resolve: Resolver, hash: string -> string, segsOf: Class -> seq<T.Seg>,
                           i: nat): string
    requires i < |t.nodes|
  {
    var n := t.nodes[i];
    T.Fill(segsOf(Class(n.role, n.resolvedLabels)), NodeValues(n, ImageAt(InputOf(t, resolve, hash), i)))
  }

  lemma ImageHasSlash(schematic: string, version: string)
    ensures '/' in T.InstallImage(schematic, version)
  {
    assert T.InstallImage(schematic, version)[17] == '/';
  }

  lemma OwnConfigRendered(t: Talos, resolve: Resolver, gen: Machinery, hash: string -> string,
                          segsOf: Class -> seq<T.Seg>, i: nat)
    requires i < |t.nodes| && HexDigest(hash) && ValidRoles(t.nodes) && AllSeparable(t.nodes) && Uniform(t.nodes)
    requires Distinct(Slots(t.nodes[i].resolved)) && forall r | r in t.nodes[i].resolved :: T.IsSlot(r.slot)
    requires var image := T.InstallImage(t.schematicID, t.version);
             && '/' in image && T.BraceFree(image) && image != "" && WellMadeClasses(t.nodes, image, gen, segsOf)
             && TemplatesOf(t.nodes, image, gen, AllClasses(t.nodes), AllTemplates(t.nodes, image, gen))
    ensures NodeRender(t, resolve, gen, hash, i) == Some(Ok(OwnConfig(t, resolve, hash, segsOf, i)))
  {
    hide T.BraceFree, T.InstallImage, TextOf, TemplatesOf, RenderOf, AllTemplates, T.IsSlot, Slots, Distinct, WellMade,
         AllClasses, Uniform, PerNode;
    var n, c, image := t.nodes[i], InputOf(t, resolve, hash), T.InstallImage(t.schematicID, t.version);
    var k := Class(n.role, n.resolvedLabels);
    assert n in t.nodes;
    ListedOnce(t.nodes);
    ShapeOfUniform(t.nodes, n.role);
    assert WellMadeClass(ShapeOf(t.nodes, k.role), image, gen, k, segsOf(k));
    var raw := gen(n.role, NodeShape(n.resolved), n.resolvedLabels).value;
    NodeGetsItsOwnConfig(c, image, gen, AllTemplates(t.nodes, image, gen), i, raw, segsOf(k));
  }

  /** The capstone: such a cluster is emitted, and with abbreviations that tell what is present apart every group
      is served its own node's config. */
  method EmitSoundCluster(ghost p: Parsers, ghost declared: Talos, t: Talos, resolve: Resolver, gen: Machinery,
                          hash: string -> string, factoryURL: string, ghost segsOf: Class -> seq<T.Seg>)
    returns (e: Emission)
    requires p.Lawful() && V.Sound(p, declared, t) && ValidRoles(t.nodes) && Uniform(t.nodes) && HexDigest(hash)
    requires forall i | 0 <= i < |t.nodes| ::
               Memo(t.schematicID, resolve, SetsOf(t), i).Ok? && !TooShort(InputOf(t, resolve, hash), i)
    requires T.BraceFree(T.InstallImage(t.schematicID, t.version))
    requires WellMadeClasses(t.nodes, T.InstallImage(t.schematicID, t.version), gen, segsOf)
    requires HashesDistinguish(InputOf(t, resolve, hash)) && ShortsDistinguish(InputOf(t, resolve, hash))
    ensures |e.catalog.groups| == |t.nodes| && forall i | 0 <= i < |t.nodes| ::
              && e.catalog.groups[i].name == t.nodes[i].name
              && Served(e.tree, e.catalog.groups[i]) == Some(Ok(OwnConfig(t, resolve, hash, segsOf, i)))
  {
    hide V.Sound, Memo, SetsOf, TooShort, T.BraceFree, T.InstallImage, Uniform, AllSeparable, ValidRoles, HexDigest,
         NodeRender, Emittable, OwnConfig, Served, WellMadeClasses, HashesDistinguish, ShortsDistinguish, InputOf,
         BootKernel, BootInitramfs;
    SoundClusterEmits(p, declared, t, resolve, gen, hash, segsOf);
    var r := EmitCluster(t, resolve, gen, hash, factoryURL);
    e := r.value;
  }
}
