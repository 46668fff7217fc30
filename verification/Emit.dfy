/** Emission: class templates (talos/machineconfig.go's ClassTemplates), the artifact tree (emit/emit.go) and every
    node's complete machine config (emit/nodeconfig.go). */
module Emit {
  import opened Common
  import opened Labels
  import opened Config
  import opened Classes
  import opened Resolve
  import opened Vars
  import opened Catalog
  import T = Templating

  /** Talos machinery: the completed, validated and encoded config of one role, interface shape and label set,
      with the placeholders baked in. */
  type Machinery = (string, seq<T.SlotShape>, LabelSet) -> Result<string, string>

  datatype EmitFault =
    | Diverging(divergence: Divergence)
    | Refused(role: string, cause: string)
    | Broken(fault: Catalog.Fault)
    | NoTemplate(node: string)
    | Unrendered(node: string, failure: T.ExecError)

  // ----- ClassTemplates

  /** roleTemplate */
  function RoleTemplate(gen: Machinery, image: string, role: string, shape: seq<T.SlotShape>,
                        labels: LabelSet): Result<string, string>
    requires image != ""
  {
    match gen(role, shape, labels)
    case Err(e) => Err(e)
    case Ok(raw) =>
      T.SwapValuesNonEmpty(image, shape);
      T.SwapAll(raw, T.Swaps(image, shape))
  }

  /** The shape of a role's nodes; none when the role has no node. */
  ghost function ShapeOf(nodes: seq<TalosNode>, role: string): seq<T.SlotShape> {
    if nodes == [] then []
    else if nodes[0].role == role then NodeShape(nodes[0].resolved)
    else ShapeOf(nodes[1..], role)
  }

  lemma {:induction false} ShapeOfUniform(nodes: seq<TalosNode>, role: string)
    requires Uniform(nodes)
    ensures forall n | n in nodes && n.role == role :: ShapeOf(nodes, role) == NodeShape(n.resolved)
    ensures (forall n | n in nodes :: n.role != role) ==> ShapeOf(nodes, role) == []
  {
    if nodes != [] {
      assert nodes[0] in nodes;
      if nodes[0].role != role {
        assert forall n | n in nodes[1..] :: n in nodes;
        ShapeOfUniform(nodes[1..], role);
        assert forall n | n in nodes :: n == nodes[0] || n in nodes[1..];
      }
    }
  }

  ghost function AllClasses(nodes: seq<TalosNode>): seq<Class> {
    RoleClasses(nodes, CONTROL_PLANE) + RoleClasses(nodes, WORKER)
  }

  ghost function TextOf(nodes: seq<TalosNode>, image: string, gen: Machinery, c: Class): Result<string, string>
    requires image != ""
  {
    RoleTemplate(gen, image, c.role, ShapeOf(nodes, c.role), c.labels)
  }

  /** One template per class, in class order, each templatized from the class's own config. */
  ghost predicate TemplatesOf(nodes: seq<TalosNode>, image: string, gen: Machinery, classes: seq<Class>,
                              ts: seq<ClassTemplate>)
    requires image != ""
  {
    && |ts| == |classes|
    && forall k | 0 <= k < |ts| ::
         ts[k].role == classes[k].role && ts[k].labels == classes[k].labels
             && Ok(ts[k].data) == TextOf(nodes, image, gen, classes[k])
  }

  /** It fails exactly when two nodes of a role differ in shape or some class's config is refused - by the
      machinery, or because a placeholder went missing. */
  method ClassTemplates(nodes: seq<TalosNode>, image: string, gen: Machinery)
    returns (r: Result<seq<ClassTemplate>, EmitFault>)
    requires image != ""
    ensures r.Ok? ==> Uniform(nodes) && TemplatesOf(nodes, image, gen, AllClasses(nodes), r.value)
    ensures r.Err? <==> !Uniform(nodes) || exists c | c in AllClasses(nodes) :: TextOf(nodes, image, gen, c).Err?
    ensures r.Err? ==>
              || (exists a, b | a in nodes && b in nodes ::
                    a.role == b.role && !SameShape(a.resolved, b.resolved)
                    && r.error == Diverging(Divergence(b.name, a.name)))
              || (exists c | c in AllClasses(nodes) :: TextOf(nodes, image, gen, c).Err?
                    && r.error == Refused(c.role, TextOf(nodes, image, gen, c).error))
  {
    hide RoleClasses, NodeShape, T.Swaps, T.SwapAll, ShapeOf, Uniform, SameShape;
    var shapes := RoleShapes(nodes);
    if shapes.Err? {
      return Err(Diverging(shapes.error));
    }
    var classes := TemplateClasses(nodes);
    var ts: seq<ClassTemplate> := [];
    for k := 0 to |classes|
      invariant TemplatesOf(nodes, image, gen, classes[..k], ts)
    {
      var c := classes[k];
      ShapeOfUniform(nodes, c.role);
      var shape := if c.role in shapes.value then shapes.value[c.role] else [];
      assert shape == ShapeOf(nodes, c.role) by { ShapeFound(nodes, c.role, shapes.value); }
      var data: Result<string, string>;
      var raw := gen(c.role, shape, c.labels);
      if raw.Err? {
        data := Err(raw.error);
      } else {
        data := T.Templatize(raw.value, image, shape);
      }
      assert data == TextOf(nodes, image, gen, c);
      if data.Err? {
        assert c in AllClasses(nodes);
        return Err(Refused(c.role, data.error));
      }
      ts := ts + [ClassTemplate(c.role, c.labels, data.value)];
    }
    assert classes[..|classes|] == classes;
    forall c | c in AllClasses(nodes) ensures TextOf(nodes, image, gen, c).Ok? {
      var k :| 0 <= k < |classes| && classes[k] == c;
      assert Ok(ts[k].data) == TextOf(nodes, image, gen, classes[k]);
    }
    r := Ok(ts);
  }

  lemma ShapeFound(nodes: seq<TalosNode>, role: string, shapes: map<string, seq<T.SlotShape>>)
    requires Uniform(nodes) && shapes.Keys == (set n | n in nodes :: n.role)
    requires forall n | n in nodes :: shapes[n.role] == NodeShape(n.resolved)
    ensures ShapeOf(nodes, role) == if role in shapes then shapes[role] else []
  {
    ShapeOfUniform(nodes, role);
  }

  // ----- NodeConfigs

  datatype RenderedNode = RenderedNode(name: string, config: string, installImage: string)

  function ImageAt(c: Input, i: nat): string
    requires i < |c.nodes| == |c.perNode|
  {
    T.InstallImage(c.perNode[i], c.version)
  }

  /** What node i's class template renders to with node i's vars. */
  ghost function RenderOf(c: Input, ts: seq<ClassTemplate>, i: nat): Option<Result<string, T.ExecError>>
    requires i < |c.nodes| == |c.perNode|
  {
    var n := c.nodes[i];
    match Lookup(ts, n.role, n.resolvedLabels)
    case None => None
    case Some(text) => Some(T.Exec(text, NodeVars(n, ImageAt(c, i))))
  }

  /** Every node's config, or - exactly when some node has no template or its template does not render - an error. */
  method NodeConfigs(c: Input, ts: seq<ClassTemplate>) returns (r: Result<seq<RenderedNode>, EmitFault>)
    requires c.Matched()
    ensures r.Ok? ==> |r.value| == |c.nodes| && forall i | 0 <= i < |c.nodes| ::
              && r.value[i].name == c.nodes[i].name && r.value[i].installImage == ImageAt(c, i)
              && RenderOf(c, ts, i) == Some(Ok(r.value[i].config))
    ensures r.Err? <==> exists i | 0 <= i < |c.nodes| :: RenderOf(c, ts, i).None? || RenderOf(c, ts, i).value.Err?
    ensures r.Err? ==> exists i | 0 <= i < |c.nodes| ::
              || (RenderOf(c, ts, i).None? && r.error == NoTemplate(c.nodes[i].name))
              || (RenderOf(c, ts, i).Some? && RenderOf(c, ts, i).value.Err?
                  && r.error == Unrendered(c.nodes[i].name, RenderOf(c, ts, i).value.error))
  {
    hide Lookup, NodeVars, T.Exec, T.InstallImage;
    var out: seq<RenderedNode> := [];
    for i := 0 to |c.nodes|
      invariant |out| == i && forall j | 0 <= j < i ::
                  && out[j].name == c.nodes[j].name && out[j].installImage == ImageAt(c, j)
                  && RenderOf(c, ts, j) == Some(Ok(out[j].config))
    {
      var n := c.nodes[i];
      var text := For(ts, n.role, n.resolvedLabels);
      if text.None? {
        assert RenderOf(c, ts, i).None?;
        return Err(NoTemplate(n.name));
      }
      var image := T.InstallImage(c.perNode[i], c.version);
      var vars := AssembleVars(n, image);
      var data := T.Exec(text.value, vars);
      assert RenderOf(c, ts, i) == Some(data);
      if data.Err? {
        return Err(Unrendered(n.name, data.error));
      }
      out := out + [RenderedNode(n.name, data.value, image)];
    }
    r := Ok(out);
  }

  // ----- the artifact tree

  /** A file's content: a rendered class template, or the model one of the fixed texts is rendered from. */
  datatype Artifact = EmbedIPXE | RunScript | MachineConfig(data: string) | CatalogFile(catalog: CatalogData)

  const EMBED_IPXE_PATH := "embed.ipxe"
  const RUN_SCRIPT_PATH := "booty-run.sh"
  const VARIABLES_PATH := "catalog/00-variables.hcl"
  const PROFILES_PATH := "catalog/10-profiles.hcl"
  const GROUPS_PATH := "catalog/20-groups.hcl"
  const TEMPLATES_DIR := "templates/"

  ghost function TemplatePath(c: Input, role: string, labels: LabelSet): string
    requires HexDigest(c.hash)
  {
    PathWith(role, SuffixFor(c.hash, KeyOf(labels), SplitByLabels(c.nodes, role)))
  }

  ghost function WithTemplates(c: Input, tree: map<string, Artifact>, ts: seq<ClassTemplate>): map<string, Artifact>
    requires HexDigest(c.hash)
  {
    if ts == [] then tree
    else
      var t := ts[|ts| - 1];
      WithTemplates(c, tree, ts[..|ts| - 1])[TEMPLATES_DIR + TemplatePath(c, t.role, t.labels) := MachineConfig(t.data)]
  }

  const FIXED_FILES: map<string, Artifact> := map[EMBED_IPXE_PATH := EmbedIPXE, RUN_SCRIPT_PATH := RunScript]

  function CatalogFiles(d: CatalogData): map<string, Artifact> {
    map[VARIABLES_PATH := CatalogFile(d), PROFILES_PATH := CatalogFile(d), GROUPS_PATH := CatalogFile(d)]
  }

  ghost function TreeOf(c: Input, ts: seq<ClassTemplate>, d: CatalogData): map<string, Artifact>
    requires HexDigest(c.hash)
  {
    WithTemplates(c, FIXED_FILES, ts) + CatalogFiles(d)
  }

  ghost function TemplateFile(c: Input, t: ClassTemplate): string
    requires HexDigest(c.hash)
  {
    TEMPLATES_DIR + TemplatePath(c, t.role, t.labels)
  }

  /** The tree holds the fixed files, the catalog, and a template for every class - of classes with one path the last
      one's - and nothing else. */
  ghost predicate HoldsExactly(tree: map<string, Artifact>, c: Input, ts: seq<ClassTemplate>, d: CatalogData)
    requires HexDigest(c.hash)
  {
    && tree.Keys == {"embed.ipxe", "booty-run.sh"}
                    + {"catalog/00-variables.hcl", "catalog/10-profiles.hcl", "catalog/20-groups.hcl"}
                    + TemplateFiles(c, ts)
    && tree["embed.ipxe"] == EmbedIPXE && tree["booty-run.sh"] == RunScript
    && tree["catalog/00-variables.hcl"] == tree["catalog/10-profiles.hcl"] == tree["catalog/20-groups.hcl"]
       == CatalogFile(d)
    && forall k | 0 <= k < |ts| && LastOfItsPath(c, ts, k) :: tree[TemplateFile(c, ts[k])] == MachineConfig(ts[k].data)
  }

  ghost predicate LastOfItsPath(c: Input, ts: seq<ClassTemplate>, k: nat)
    requires HexDigest(c.hash) && k < |ts|
  {
    forall j | k < j < |ts| :: TemplateFile(c, ts[j]) != TemplateFile(c, ts[k])
  }

  ghost function TemplateFiles(c: Input, ts: seq<ClassTemplate>): set<string>
    requires HexDigest(c.hash)
  {
    set t | t in ts :: TemplateFile(c, t)
  }

  lemma TemplateFilesStep(c: Input, ts: seq<ClassTemplate>, n: nat)
    requires HexDigest(c.hash) && n < |ts|
    ensures TemplateFiles(c, ts[..n + 1]) == TemplateFiles(c, ts[..n]) + {TemplateFile(c, ts[n])}
  {
    hide TemplateFile;
    assert ts[..n + 1] == ts[..n] + [ts[n]];
  }

  /** The tree after the templates: their files beside what was there. */
  lemma {:induction false} WithTemplatesHolds(c: Input, tree: map<string, Artifact>, ts: seq<ClassTemplate>)
    requires HexDigest(c.hash)
    ensures WithTemplates(c, tree, ts).Keys == tree.Keys + TemplateFiles(c, ts)
    ensures forall p | p in tree && p !in TemplateFiles(c, ts) :: WithTemplates(c, tree, ts)[p] == tree[p]
  {
    hide TemplatePath, TemplateFiles;
    if ts != [] {
      var n := |ts| - 1;
      WithTemplatesHolds(c, tree, ts[..n]);
      TemplateFilesStep(c, ts, n);
      assert ts[..n + 1] == ts;
    } else {
      NoTemplateFiles(c);
    }
  }

  lemma NoTemplateFiles(c: Input)
    requires HexDigest(c.hash)
    ensures TemplateFiles(c, []) == {}
  {}

  /** Of templates with one path the last is the file. */
  lemma {:induction false} LastTemplateHeld(c: Input, tree: map<string, Artifact>, ts: seq<ClassTemplate>, k: nat)
    requires HexDigest(c.hash) && k < |ts| && LastOfItsPath(c, ts, k)
    ensures TemplateFile(c, ts[k]) in WithTemplates(c, tree, ts)
    ensures WithTemplates(c, tree, ts)[TemplateFile(c, ts[k])] == MachineConfig(ts[k].data)
  {
    hide TemplatePath;
    var n := |ts| - 1;
    if k < n {
      assert TemplateFile(c, ts[n]) != TemplateFile(c, ts[k]);
      assert forall j | k < j < n :: ts[..n][j] == ts[j];
      LastTemplateHeld(c, tree, ts[..n], k);
    }
  }

  lemma TemplatesKeepOffFixed(c: Input, t: ClassTemplate)
    requires HexDigest(c.hash)
    ensures TemplateFile(c, t) != "embed.ipxe" && TemplateFile(c, t) != "booty-run.sh"
  {
    hide TemplatePath;
    assert TemplateFile(c, t)[0] == 't' && "embed.ipxe"[0] == 'e' && "booty-run.sh"[0] == 'b';
  }

  lemma TemplatesKeepOffCatalog(c: Input, t: ClassTemplate)
    requires HexDigest(c.hash)
    ensures TemplateFile(c, t) != VARIABLES_PATH && TemplateFile(c, t) != PROFILES_PATH
            && TemplateFile(c, t) != GROUPS_PATH
  {
    hide TemplatePath;
    assert TemplateFile(c, t)[0] == 't' && VARIABLES_PATH[0] == 'c' && PROFILES_PATH[0] == 'c' && GROUPS_PATH[0] == 'c';
  }

  lemma FixedPathsDiffer()
    ensures EMBED_IPXE_PATH[0] == 'e' && RUN_SCRIPT_PATH[0] == 'b'
    ensures VARIABLES_PATH[0] == 'c' && PROFILES_PATH[0] == 'c' && GROUPS_PATH[0] == 'c'
    ensures VARIABLES_PATH[8] == '0' && PROFILES_PATH[8] == '1' && GROUPS_PATH[8] == '2'
  {}

  lemma TreeHoldsExactly(c: Input, ts: seq<ClassTemplate>, d: CatalogData)
    requires HexDigest(c.hash)
    ensures HoldsExactly(TreeOf(c, ts, d), c, ts, d)
  {
    hide TemplateFile, WithTemplates, LastOfItsPath;
    FixedPathsDiffer();
    WithTemplatesHolds(c, FIXED_FILES, ts);
    forall t | t in ts
      ensures TemplateFile(c, t) != EMBED_IPXE_PATH && TemplateFile(c, t) != RUN_SCRIPT_PATH
      ensures TemplateFile(c, t) !in CatalogFiles(d)
    {
      TemplatesKeepOffFixed(c, t);
      TemplatesKeepOffCatalog(c, t);
    }
    forall k | 0 <= k < |ts| && LastOfItsPath(c, ts, k)
      ensures TemplateFile(c, ts[k]) in WithTemplates(c, FIXED_FILES, ts)
      ensures TreeOf(c, ts, d)[TemplateFile(c, ts[k])] == MachineConfig(ts[k].data)
    {
      assert ts[k] in ts;
      LastTemplateHeld(c, FIXED_FILES, ts, k);
    }
  }

  /** Emitter.tree: the fixed files, then a template per class, then the catalog - a later entry replaces one of
      the same path. It fails exactly when the catalog does. */
  method EmitTree(c: Input, ts: seq<ClassTemplate>)
                  returns (r: Result<map<string, Artifact>, EmitFault>, d: CatalogData)
    requires HexDigest(c.hash)
    ensures r.Ok? ==> ValidInput(c) && Renders(c, d) && r.value == TreeOf(c, ts, d) && HoldsExactly(r.value, c, ts, d)
    ensures r.Err? <==> |c.perNode| != |c.nodes|
                        || (exists i | 0 <= i < |c.nodes| :: ValidInput(c) && TooShort(c, i))
                        || (exists n | n in c.nodes :: PrimaryInterface(n.resolved).None?)
    ensures r.Err? ==> r.error.Broken? && Blames(c, r.error.fault)
  {
    hide Blames, Renders, TooShort, PrimaryInterface, KeyOf, SplitByLabels, PathWith, SuffixFor, RolesOf;
    var splits := LabelSplits(c.nodes);
    var catalog := RenderCatalog(c);
    d := CatalogData([], []);
    if catalog.Err? {
      r := Err(Broken(catalog.error));
      return;
    }
    d := catalog.value;
    var tree: map<string, Artifact> := map[EMBED_IPXE_PATH := EmbedIPXE, RUN_SCRIPT_PATH := RunScript];
    for k := 0 to |ts|
      invariant tree == WithTemplates(c, FIXED_FILES, ts[..k])
    {
      var t := ts[k];
      assert ts[..k + 1][..k] == ts[..k];
      var key := LabelSetKey(t.labels);
      var split := t.role in splits && splits[t.role];
      assert split == SplitByLabels(c.nodes, t.role) by { UnlistedRole(c.nodes, t.role); }
      tree := tree[TEMPLATES_DIR + PathWith(t.role, SuffixFor(c.hash, key, split)) := MachineConfig(t.data)];
    }
    assert ts[..|ts|] == ts;
    var files := map[VARIABLES_PATH := CatalogFile(d), PROFILES_PATH := CatalogFile(d), GROUPS_PATH := CatalogFile(d)];
    TreeHoldsExactly(c, ts, d);
    r := Ok(tree + files);
  }

  /** A role without nodes is not split. */
  lemma UnlistedRole(nodes: seq<TalosNode>, role: string)
    ensures role !in RolesOf(nodes) ==> !SplitByLabels(nodes, role)
  {
    if role !in RolesOf(nodes) {
      assert forall n | n in nodes :: n.role in RolesOf(nodes);
      assert LabelKeys(nodes, role) == {};
    }
  }
}
