# Bootstrap convergence: a verified model

`tools/bootstrap` turns one declared cluster into machines: it resolves the declaration, renders boot artifacts and
machine configs, and drives a Proxmox cluster and its Talos nodes towards the declaration through Check/Apply steps
that are safe to run again. This project models the logic those promises rest on and proves them.

| files | what they model |
|---|---|
| `Common`, `Text`, `Utf8`, `Sorting`, `Net` | optional values, Go's string functions and text encoding, sorted listings of sets, CIDR arithmetic |
| `Diff` | the machine-config differ: LCS table, edit script, windowed printer, per-document diff |
| `Templating` | placeholder substitution and its undoing by template execution |
| `Labels`, `Classes`, `Vars`, `Catalog`, `Names`, `Emit`, `Serving` | node classes, their names, the boot catalog, the artifact tree, and the two renderers that must agree |
| `Schematics`, `Profiles`, `Assets` | boot image identities, their cache, extension profiles, crash-safe staging |
| `Config`, `Resolve`, `Validate`, `Dialing` | the declaration, its resolution and validation, and which addresses are dialled |
| `Steps`, `Storage`, `Formation`, `PluginData`, `Certs`, `Acme` | the convergence engine and its stages |

Check everything with `dafny verify dfyconfig.toml`.

## How the source is represented

- A declared value is a datatype; an object the source updates in place is a class (`Validate.Cluster`,
  `Formation.Former`, `Certs.CertStore`, `Assets.Tree`); a loop is a loop, proved against a specification function
  whose properties are then stated as lemmas.
- A remote or the file system answers nondeterministically: reads may fail, writes may fail, be lost or be cut short,
  quorum and membership may flap between polls, and a process may die between any two file operations. A wait is a
  finite but arbitrary number of polls.
- SHA-256 is any function (of one digest length where a length is used), with what must be told apart stated as a
  condition on the values present. The schematic factory is any function from extension sets to answers. Library
  parsers (`netip`, MAC normalisation) are functions obeying the laws of `Config.Parsers`.
- A Talos machine-config document is a key and its text; generating, validating and encoding one is one function,
  `Emit.Machinery`, that may refuse. `text/template` is evaluated on the one action these templates hold,
  `{{ index .Vars "k" }}`.
- An ordered map walk is any walk; a panic on slicing a short schematic is an error outcome; `path.Join`'s cleaning is
  the identity on version and schematic texts.

## Where the code and its comments differ

The model follows the code.

- The differ's comment says an empty diff means no difference. It means no document *reads* differently after
  redaction (`Diff.DiffEmptyIff`); a changed secret prints nothing (`Diff.SecretDriftPrintsNothing`).
  `Diff.EmptyDiffMeansEqual` says exactly for which redactions and texts the comment holds. A document that differs
  only in its last newline gets a header without a changed line (`Diff.NoChangeShownIff`).
- `missingkey=error` does not affect the `index` function: a missing var would render as empty text. That every var
  read is defined is therefore proved (`Vars.EveryVarDefined`), not left to the option.
- `slotIndex` calls its error branch unreachable. A slot number beyond 64 bits reaches it
  (`Resolve.SlotOrderIsNumericIff`, `Resolve.WideSlotSortsFirst`).
- The schematic cache is said to be per extension set. Its key joins names with line breaks, which validation does not
  exclude from names (`Schematics.AcceptedNamesCanCollide`); `Schematics.MemoIsFresh` and
  `Schematics.SharedKeyMisleads` say exactly when the cache is right.
- Asset staging says mismatched assets are fetched again; a mismatch stops the stage with an error instead
  (`Assets.Tree.DownloadAssets`), and so does a digest record torn by a crash (`Assets.StoppedDownload`).
- The plugin check reopens for a disabled or standalone plugin, but the apply only rotates credentials; and it compares
  untrimmed credentials with trimmed lines, so a token ending in white space stays pending for ever
  (`Certs.PluginUpdateConvergesIff`, `Certs.PaddedTokenNeverConverges`). The certificate check accepts any certificate file, not only the frontend one
  (`Certs.CertDoneIff`).
- Declared storage lists with a comma or outer white space in an item never converge (`Storage.ReadsBackIff`,
  `Storage.UpdateConvergesIff`).
- The dry run's pending count is no bound by itself: a step whose check fails is reported as unknown and the run may
  apply it (`Steps.UnreadStepIsApplied`, `Steps.PendingBoundsRunsIff`).
- Static-plane addresses are skipped by `netip.Prefix.Contains`, which is false of an address with a zone and, for an
  IPv4 block, of a mapped one: those are dialled (`Dialing.ZonedAddressIsDialled`, `Dialing.MappedAddressIsDialled`).
- "Quorum before the next join" holds within one run; across a re-run it holds exactly as
  `Formation.GatedAcrossRunsIff` says, and can fail (`Formation.GateIsPerRun`).

## Model

| member | source | states |
|---|---|---|
| Diff.LcsIsMaximum | tools/bootstrap/internal/talos/normalize.go:128-141 | The recurrence behind the table is the maximum length over all common subsequences of the two line lists, and some common subsequence attains it. |
| Diff.LcsTable | tools/bootstrap/internal/talos/normalize.go:127-141 | The table filled backwards in place holds, in every cell, the LCS length of the two suffixes. |
| Diff.EditScript | tools/bootstrap/internal/talos/normalize.go:142-158 | The greedy walk over the table emits the script Script defines from the inputs alone. |
| Diff.ScriptReplays | tools/bootstrap/internal/talos/normalize.go:126-159 | The kept and '-' lines spell the old text, the kept and '+' lines the new one, and every op is one of the three marks. |
| Diff.ScriptCost | tools/bootstrap/internal/talos/normalize.go:126-159 | The script has exactly as many changed lines as the two lengths less twice the LCS length. |
| Diff.ScriptIsMinimal | tools/bootstrap/internal/talos/normalize.go:119-159 | No script turning the old lines into the new has fewer '-' and '+' lines. |
| Diff.RemovalsComeFirst | tools/bootstrap/internal/talos/normalize.go:144-157 | Ties go to '-': an addition is never directly followed by a removal. |
| Diff.Changed | tools/bootstrap/internal/talos/normalize.go:164-171 | A line counts as changed exactly when a '-' or '+' line stands within two positions of it. |
| Diff.FormatOps | tools/bootstrap/internal/talos/normalize.go:163-189 | The printed text is the shown lines and one gap mark where a dropped run opens, newline-terminated, in order. |
| Diff.OneGapPerRun | tools/bootstrap/internal/talos/normalize.go:172-182 | A maximal run of dropped lines prints exactly one gap mark and nothing else. |
| Diff.ShownRunPrints | tools/bootstrap/internal/talos/normalize.go:182-187 | A run of shown lines prints each of its lines, in order, and no gap mark. |
| Diff.FormatKeepsEveryChange | tools/bootstrap/internal/talos/normalize.go:161-189 | Every '-' and '+' line of a script, in order, can be read back from the printed text: the window hides no change. |
| Diff.SplitLinesSpell | tools/bootstrap/internal/talos/normalize.go:191-197 | The lines of a text hold no line break and, each terminated, spell the text with its last line terminated; no other lines do, and the empty text has none. |
| Diff.LineDiffShowsMinimalChange | tools/bootstrap/internal/talos/normalize.go:119-124 | A printed line diff is the printed form of a script whose kept and '-' lines spell the live text and whose kept and '+' lines spell the rendered one; its changes read back from the print, and no other such script has fewer. |
| Diff.NoChangeShownIff | tools/bootstrap/internal/talos/normalize.go:119-124 | It shows no changed line exactly when the texts differ at most in the newline at the end. |
| Diff.ContextIsTwoLines | tools/bootstrap/internal/talos/normalize.go:163-171 | Of a run of kept lines between two changes exactly the first two and the last two are shown. |
| Diff.UnionKeys | tools/bootstrap/internal/talos/normalize.go:90-98 | The keys of both document maps are listed, each once. |
| Diff.ConfigDiff | tools/bootstrap/internal/talos/normalize.go:73-110 | The diff is the concatenation, over the keys of both sides in strictly sorted order, of nothing where they read alike and else of a header and a minimal change from the live text to the rendered one. |
| Diff.KeyHasDoc | tools/bootstrap/internal/talos/normalize.go:82-89 | A key reads as the last document that has it. |
| Diff.DiffEmptyIff | tools/bootstrap/internal/talos/normalize.go:71-110 | The diff is empty exactly when no key reads differently, a missing document reading as the empty text. |
| Diff.NormalFormsEqualIff | tools/bootstrap/internal/talos/normalize.go:53-69 | Sorted normal forms with unique keys are equal lists exactly when they are equal as key-to-text maps: document order never counts as drift. |
| Diff.EmptyDiffMeansEqual | tools/bootstrap/internal/talos/normalize.go:57-110 | Over any set of document texts, an empty diff means equal configs exactly when redaction keeps those texts apart and leaves none of them empty; equal configs always print nothing. |
| Diff.SecretDriftPrintsNothing | tools/bootstrap/internal/talos/normalize.go:71-110 | With a redaction that replaces the value of a secret field, two configs differing in that field only print an empty diff. |
| Templating.Templatize | tools/bootstrap/internal/talos/machineconfig.go:403-436 | The loop performs the hostname, image and per-slot substitutions in order and fails naming the first value that is missing. |
| Templating.SwapAllIsMarkAll | tools/bootstrap/internal/talos/machineconfig.go:429-434 | Sequential replacement is marking the placeholders as holes one after another: it succeeds exactly when every value finds a place to mark, yields the marked text with the expressions in its holes, fails naming the first value that finds none, and never rewrites an inserted expression. |
| Templating.ExecUndoesTemplatize | tools/bootstrap/internal/talos/machineconfig.go:403-436 | Executing a template templatize accepted gives the raw text with every marked value replaced by its var. |
| Templating.TemplatizeRoundTrip | tools/bootstrap/internal/talos/machineconfig.go:403-436 | Executing with the placeholders themselves as vars gives the raw text back. |
| Templating.SequentialIsSimultaneous | tools/bootstrap/internal/talos/machineconfig.go:403-436 | When each placeholder occurs at its own holes only, templatize succeeds exactly when every placeholder is present, fails naming the first that is not, and the sequential swaps act as one simultaneous substitution. |
| Templating.SwapsAreSafe | tools/bootstrap/internal/talos/machineconfig.go:73-81 | The placeholders and expressions templatize uses for any shape with valid slot labels never occur inside one another. |
| Templating.ItoaReads | tools/bootstrap/internal/talos/machineconfig.go:81 | The digits of an address placeholder read back as its position, so no two positions share one. |
| Templating.PlaceholdersApart | tools/bootstrap/internal/talos/machineconfig.go:73-81 | For a shape of distinct valid slots, none of hostname, MAC and address placeholders occurs in another; nor does the image in one, nor, when it spells none, one in the image. |
| Templating.SomeConfigIsWellMade | tools/bootstrap/internal/talos/machineconfig.go:403-436 | So for every such shape a config exists that holds each placeholder exactly at its own places, and templatize accepts it. |
| Labels.ValidLabelSeparable | tools/bootstrap/internal/config/labels.go:93-148 | A label that passes validation holds no '=' and no ',' in key or value, is outside the derived namespace, no rendered key, and allowed by NodeRestriction. |
| Labels.LabelAcceptedIff | tools/bootstrap/internal/config/labels.go:93-180 | Exactly the labels are accepted that are a qualified name with a good value, outside the derived namespace, no label the config renders, and not one of a kubernetes.io or k8s.io namespace beyond the kubelet's own. |
| Labels.NodeRestrictedIff | tools/bootstrap/internal/config/labels.go:163-180 | Refused is exactly a key of such a namespace that is reserved to operators, or is neither one of the kubelet's own labels nor in one of its namespaces. |
| Labels.LabelSetKey | tools/bootstrap/internal/talos/machineconfig.go:141-151 | Whatever order the map is walked in, the key is the one canonical text of the label set. |
| Labels.LabelSetKeyInjective | tools/bootstrap/internal/talos/machineconfig.go:141-151 | On label sets that pass validation two keys are equal exactly when the sets are. |
| Labels.UnvalidatedKeysCollide | tools/bootstrap/internal/talos/machineconfig.go:141-151 | Without validation two different label sets share a key: a value holding ',' and '=' spells a second pair. |
| Classes.TemplateClasses | tools/bootstrap/internal/talos/machineconfig.go:153-174 | The classes are the control-plane ones, then the worker ones, each role's in first-node order. |
| Classes.RoleLabelsAreTheSets | tools/bootstrap/internal/talos/machineconfig.go:157-172 | On validated labels a role's list holds exactly the label sets its nodes carry, each once. |
| Classes.ClassesListedOnce | tools/bootstrap/internal/talos/machineconfig.go:153-174 | Every (role, label set) some node has is listed exactly once, a role without nodes gets its unlabelled class, and nothing else is listed. |
| Classes.For | tools/bootstrap/internal/talos/machineconfig.go:130-139 | The lookup returns the first class of the role whose label key is the asked one. |
| Classes.LookupIsExact | tools/bootstrap/internal/talos/machineconfig.go:130-139 | On validated labels the lookup finds the class of exactly the asked role and labels, and fails exactly when none is listed. |
| Classes.RoleShapes | tools/bootstrap/internal/talos/machineconfig.go:238-267 | It yields each role's one interface shape, and fails - naming two nodes that differ - exactly when two nodes of a role differ in a slot, its mode or its mtu. |
| Classes.ShapesEqualIff | tools/bootstrap/internal/talos/machineconfig.go:269-277 | Two nodes have one shape exactly when they have the same slots in order, each with the same mode and the same mtu. |
| Vars.InterfaceVars | tools/bootstrap/internal/emit/catalog.go:209-231 | A multi-interface node gets every slot's MAC and each static slot's address, in slot order; a single-interface node gets none. |
| Vars.GroupKeysDistinct | tools/bootstrap/internal/emit/catalog.go:201-231 | On distinct slots no group var key repeats, and none is one of the two profile var keys: merging loses nothing in either order. |
| Vars.AssembleVars | tools/bootstrap/internal/emit/nodeconfig.go:39-45 | The var map of a node is its class vars overlaid by its group vars. |
| Vars.EveryVarDefined | tools/bootstrap/internal/emit/nodeconfig.go:31-52 | Every expression left in a template of the node's shape reads a defined var, and the values read are this node's own, in the order of the holes. |
| Vars.HolesHoldOwnValues | tools/bootstrap/internal/emit/catalog.go:201-231 | What those vars put at the holes is the hostname at the hostname's placeholder, the image at the image's, and at each slot's MAC or address placeholder that slot's own MAC or address. |
| Catalog.LabelSplits | tools/bootstrap/internal/emit/catalog.go:23-40 | A role is split exactly when its nodes carry more than one label-set key; exactly the roles with nodes are listed. |
| Catalog.EmptyKeyIff | tools/bootstrap/internal/emit/catalog.go:48-54 | Only the empty label set has the empty key, so the name suffix is a function of the key. |
| Catalog.RenderCatalog | tools/bootstrap/internal/emit/catalog.go:111-184 | Exactly one profile per (role, schematic, label set), in first-node order, and one group per node, each bound by the name of its node's profile; it fails exactly on a count mismatch, a schematic too short to abbreviate in a split role, or a node without a primary interface, and names which. |
| Catalog.SameClassSameProfile | tools/bootstrap/internal/emit/catalog.go:147-167 | Nodes of one class share their profile entirely, so skipping a class already seen loses nothing. |
| Names.ProfileNamesEqualIff | tools/bootstrap/internal/emit/catalog.go:147-167 | Two profile names are equal exactly when the classes share the role, the schematic abbreviation and the label-set abbreviation. |
| Names.TemplatePathsEqualIff | tools/bootstrap/internal/emit/catalog.go:48-64 | Two template paths are equal exactly when the nodes share the role and their label sets abbreviate alike. |
| Names.PathsDistinctIff | tools/bootstrap/internal/emit/catalog.go:56-64 | There is one template path per (role, label set) exactly when the eight hash digits keep the label sets of each role apart. |
| Names.NamesShowOnlySplits | tools/bootstrap/internal/emit/catalog.go:48-64 | A path carries the hash of a node's label set exactly when its role has another label set and this one is not empty, and a profile name the schematic exactly when the role has another; a role with one of each keeps its plain names. |
| Names.ClassesNamedApart | tools/bootstrap/internal/emit/catalog.go:111-167 | When both abbreviations keep what is present apart, profile names are equal exactly for nodes of the same class. |
| Emit.ClassTemplates | tools/bootstrap/internal/talos/machineconfig.go:176-227 | One template per class, each templatized from its own class's config; it fails exactly when shapes diverge or some class's config is refused or misses a placeholder, and names the two nodes or the class's role and cause. |
| Emit.NodeConfigs | tools/bootstrap/internal/emit/nodeconfig.go:22-53 | Each node's config is its class template executed with its vars; it fails exactly when some node has no template or one does not render, and names that node. |
| Emit.EmitTree | tools/bootstrap/internal/emit/emit.go:72-107 | The tree holds exactly the two fixed files, the three catalog files and a template for every class, each with its own content; it fails exactly when the catalog does. |
| Serving.ClassTemplateFound | tools/bootstrap/internal/talos/machineconfig.go:130-139 | For every node the lookup succeeds with the template rendered from exactly its role, shape and labels. |
| Serving.ClassPathsApart | tools/bootstrap/internal/emit/emit.go:100-102 | No two listed classes - those of roles without nodes included - write the same tree path. |
| Serving.ProfileTemplateInTree | tools/bootstrap/internal/emit/emit.go:96-106 | The template each profile names is a file of the tree and holds the data of its node's class. |
| Serving.GroupFindsProfile | tools/bootstrap/internal/emit/catalog.go:169-184 | A group's profile name finds the profile of its node's class, whatever other profiles the catalog lists. |
| Serving.ServedIsRendered | tools/bootstrap/internal/emit/nodeconfig.go:14-21 | For every node, executing the template its catalog group leads to with profile vars under group vars gives exactly what NodeConfigs renders. |
| Serving.NodeGetsItsOwnConfig | tools/bootstrap/internal/emit/nodeconfig.go:22-67 | Every node renders without error to its class's config with its own hostname, image, MACs and addresses at all the holes at once. |
| Serving.EmitCluster | tools/bootstrap/internal/emit/emit.go:57-122 | The whole pipeline from declared nodes succeeds exactly when every schematic resolves, shapes agree, every class's config is accepted and templatized, no split schematic is too short, every node has a primary and every render succeeds; under abbreviations that tell what is present apart, every group is then served exactly its node's config, and every profile boots staged files at distinct paths. |
| Serving.SoundClusterEmits | tools/bootstrap/internal/emit/emit.go:57-122 | A validated cluster of uniform roles, with resolved schematics and class configs holding every placeholder at its own places, is emittable, and each node's config is its class's with its own values at all the holes. |
| Serving.EmitSoundCluster | tools/bootstrap/internal/emit/emit.go:57-122 | Such a cluster is emitted, and when abbreviations tell what is present apart every node's group is served exactly its own config. |
| Serving.ClassesCanBeWellMade | tools/bootstrap/internal/talos/machineconfig.go:403-436 | Class configs meeting those conditions exist for every validated cluster whose image spells no placeholder. |
| Serving.ValidatedNodes | tools/bootstrap/internal/config/validate.go:38-59 | A validated cluster meets the conditions the rendering theorems ask of nodes. |
| Schematics.SchematicFor | tools/bootstrap/internal/emit/schematic.go:114-132 | The cached answer is the one given to the first node with the same cache key, and the cache then holds exactly the keys met. |
| Schematics.NodeSchematics | tools/bootstrap/internal/emit/schematic.go:91-112 | One identity per node, and the distinct ones in first-appearance order without repetition; an error is some node's own. |
| Schematics.MemoIsFresh | tools/bootstrap/internal/emit/schematic.go:116-132 | When no two extension sets share a cache key, the memoised identities equal fresh resolutions of each node's set. |
| Schematics.SharedKeyMisleads | tools/bootstrap/internal/emit/schematic.go:121-124 | And only then: for sets sharing a key there is a factory the cache answers wrongly for. |
| Schematics.LineFreeNamesDistinguish | tools/bootstrap/internal/emit/schematic.go:121 | Extension names without a line break keep the cache keys apart. |
| Schematics.AcceptedNamesCanCollide | tools/bootstrap/internal/config/validate.go:298-304 | Validation does not rule the line break out: two accepted extension sets have one key. |
| Schematics.BootAssets | tools/bootstrap/internal/emit/assets.go:36-57 | Every schematic gets its kernel, then its initramfs, at the staged path and from the factory's URL for each. |
| Schematics.StagedPathsDistinct | tools/bootstrap/internal/emit/assets.go:36-57 | The staged paths of distinct schematics are all different, which is what staging them asks for. |
| Serving.ProfilesAreStaged | tools/bootstrap/internal/emit/catalog.go:297-301 | Both files every profile boots are among the staged assets of the distinct schematics. |
| Serving.GroupSelectsItsNode | tools/bootstrap/internal/emit/catalog.go:169-184 | Of a validated cluster, the MAC a group selects is that of its own node's primary interface, which boots on a lease, and of no other interface of any node. |
| Profiles.ValidateProfiles | tools/bootstrap/internal/config/validate.go:271-332 | The diagnostics, in order: the two image sources, the declarations, the references, the unreferenced. |
| Profiles.ProfilesCleanIff | tools/bootstrap/internal/config/validate.go:271-332 | Silence is exactly: profiles exclude a pinned schematic, are distinct, non-empty and well named, and references and declarations cover each other. |
| Profiles.OneImageSource | tools/bootstrap/internal/emit/schematic.go:114-131 | Once the profiles pass, a node derives its image exactly when it references a profile; all others get the pinned schematic, and pinning means no node derives one. |
| Profiles.ImageNamesItsSchematic | tools/bootstrap/internal/talos/apply.go:210-216 | The schematic read back out of an installer image is the one the image was built from. |
| Config.NodeExtensions | tools/bootstrap/internal/config/runtime.go:42-63 | The loop over references and declarations yields the sorted, deduplicated extension set. |
| Config.ExtensionsCanonical | tools/bootstrap/internal/config/runtime.go:42-63 | The set depends only on which profiles are referenced and what they hold, never on order or repetition. |
| Config.NodeRuntimes | tools/bootstrap/internal/config/runtime.go:65-76 | The runtimes of a node are the table rows its extensions provide, in table order. |
| Config.ResolveLabels | tools/bootstrap/internal/config/resolve.go:153-169 | The resolved labels are the explicit ones with one derived label written per runtime. |
| Config.LabelsAreDisjointUnion | tools/bootstrap/internal/config/resolve.go:153-169 | On labels outside the derived namespace nothing is overwritten: explicit labels keep their values, every runtime is labelled "true", and there is nothing else. |
| Net.SameNetworkIff | tools/bootstrap/internal/config/resolve.go:375-390 | For equal prefix lengths an address lies in a CIDR block exactly when both mask to the same network (section 3.1 of RFC 4632). |
| Net.MaskedContains | tools/bootstrap/internal/talos/apply.go:77 | Masking a prefix does not change what it contains. |
| Net.ContainsIffLeadingBits | tools/bootstrap/internal/config/resolve.go:375-390 | A prefix contains exactly the addresses of its family, without a zone, whose leading bits are its own (section 3.1 of RFC 4632). |
| Net.MaskedBits | tools/bootstrap/internal/talos/apply.go:77 | A masked prefix keeps its leading bits, and every bit after them is zero. |
| Resolve.InliningPreservesMeaning | tools/bootstrap/internal/config/resolve.go:213-311 | For a plane that passes validation, writing its facts inline instead of referencing it gives the same faults and the same resolved interface. |
| Resolve.InliningExact | tools/bootstrap/internal/config/resolve.go:213-335 | In general the inline form of an accepted reference is accepted exactly when the plane passes every rule but the static plane's cidr requirement. |
| Resolve.SlotOrderIsNumericIff | tools/bootstrap/internal/config/resolve.go:171-181 | Slot order is numeric order exactly as far as the numbers fit 64 bits; beyond, the conversion fails and the label sorts first. |
| Resolve.WideSlotSortsFirst | tools/bootstrap/internal/config/resolve.go:171-181 | Such a label exists and is accepted: net1 followed by nineteen zeros reaches the error branch and sorts before net0. |
| Resolve.SortSlotsOrdered | tools/bootstrap/internal/config/resolve.go:145-147 | The stored interfaces are in non-decreasing slot order. |
| Resolve.ScanBlocks | tools/bootstrap/internal/config/resolve.go:104-131 | The interface loop reports every block's faults in order, collects the clean ones, and rewrites every parsable MAC in place. |
| Resolve.ResolveNode | tools/bootstrap/internal/config/resolve.go:92-151 | A node resolves to its sorted interfaces and labels, or keeps what it had and reports the structural faults before the primary count. |
| Resolve.CleanInterfaceIsSound | tools/bootstrap/internal/config/resolve.go:183-392 | The checks are split between plane and interface; together they leave vlan, mtu, mode, address and containment all checked. |
| Resolve.CleanNodeIsWellResolved | tools/bootstrap/internal/config/resolve.go:92-151 | A node without diagnostics has one sound interface per block, in slot order, with distinct slots and exactly one primary. |
| Resolve.ResolvesIffAccepted | tools/bootstrap/internal/config/resolve.go:183-392 | A block resolves without a fault exactly when it has an acceptable explicit form - its own slot, canonical MAC, bridge and address with the mode of its plane or its own, passing the mode and address rules - and then to that form. |
| Resolve.NodeResolvesIff | tools/bootstrap/internal/config/resolve.go:97-151 | A node resolves without a diagnostic exactly when it has an interface, its labels are distinct slots, every block is acceptable and exactly one form is primary; it then holds exactly these forms. |
| Resolve.BothLayersCanonical | tools/bootstrap/internal/config/resolve.go:193-202 | A clean node carries the same canonical MAC in the block, rewritten in place, and in the interface resolved from it. |
| Resolve.PlaneCleanIff | tools/bootstrap/internal/config/validate.go:98-132 | A plane passes exactly when a primary is not static, vlan and mtu are in range, a lease has no cidr, and a static plane has one that parses. |
| Resolve.FaultyNodeKeepsResolution | tools/bootstrap/internal/config/resolve.go:78-79 | A node with any diagnostic stores no new resolution. |
| Resolve.PrimaryFound | tools/bootstrap/internal/config/resolve.go:63-72 | The primary interface exists exactly when some interface is primary, and is one of them. |
| Validate.DeclaredPlanes | tools/bootstrap/internal/config/validate.go:69-91 | Each plane's own faults in order, a repeated name reported instead, then one diagnostic naming the primary planes when there are several. |
| Validate.UnreferencedNetworks | tools/bootstrap/internal/config/validate.go:134-155 | One diagnostic for each plane no interface references. |
| Validate.ValidateNetworks | tools/bootstrap/internal/config/validate.go:61-93 | The declaration diagnostics followed by the unreferenced ones. |
| Validate.NetworksCleanIff | tools/bootstrap/internal/config/validate.go:61-132 | Silence is exactly: distinct names, every plane's facts in range, at most one primary plane, every plane referenced. |
| Validate.ValidateNodeLabels | tools/bootstrap/internal/config/labels.go:66-77 | One node's label diagnostics, key by key in sorted order. |
| Validate.ValidateLabels | tools/bootstrap/internal/config/labels.go:57-79 | The label diagnostics of all nodes, in node order. |
| Validate.LabelsCleanIff | tools/bootstrap/internal/config/labels.go:57-79 | Silence is exactly: every explicit label of every node is valid. |
| Validate.PassedLabelsKeepOffRendered | tools/bootstrap/internal/config/labels.go:81-91 | Labels that pass set none of the keys the render sets itself: topology keys under a cluster block, the load balancer exclusion on a control plane. |
| Validate.ValidateRuntimes | tools/bootstrap/internal/config/runtime.go:78-101 | One diagnostic per worker-only runtime on a control plane. |
| Validate.RuntimesCleanIff | tools/bootstrap/internal/config/runtime.go:78-101 | Silence is exactly: no control plane carries a worker-only runtime. |
| Validate.ValidateInterfaceMACs | tools/bootstrap/internal/config/validate.go:157-179 | Every use of a MAC after its first, anywhere in the cluster, is reported at its own interface. |
| Validate.MACsCleanIff | tools/bootstrap/internal/config/validate.go:157-179 | Silence is exactly: all MACs of the cluster differ. |
| Validate.MACsTellInterfaces | tools/bootstrap/internal/config/validate.go:157-179 | Distinct MACs mean no two interfaces of the whole cluster, on whichever nodes, share one. |
| Validate.Cluster.ResolveInterfaces | tools/bootstrap/internal/config/resolve.go:74-90 | Every node is rewritten to its own resolution, one node's faults not touching another, and the diagnostics are the nodes' in order. |
| Validate.Cluster.Validate | tools/bootstrap/internal/config/validate.go:46-59 | The diagnostics of the modelled checks in order; none means the cluster is sound. |
| Validate.CleanIsSound | tools/bootstrap/internal/config/validate.go:38-59 | No diagnostic means: every node well resolved, its primary on dhcp, labels the disjoint union of explicit and derived, no worker-only runtime on a control plane, all MACs different, and every declared plane well formed and in use. |
| Validate.DeclaredPlaneInUse | tools/bootstrap/internal/config/validate.go:134-155 | In a cluster without diagnostics every declared plane's facts are those of some resolved interface, since an unreferenced plane is an error and a reference inherits whole. |
| Validate.CleanNodeIsSound | tools/bootstrap/internal/config/resolve.go:92-169 | The node part of soundness follows from plane, label, runtime and interface checks together. |
| Dialing.StaticPrefixes | tools/bootstrap/internal/talos/apply.go:64-83 | Exactly the masked prefixes of the static interfaces, without repetition. |
| Dialing.DialAddress | tools/bootstrap/internal/talos/apply.go:85-103 | The first IPv4 address outside the skipped prefixes, else the first other address outside them; nothing exactly when there is none. |
| Dialing.NodeAddresses | tools/bootstrap/internal/talos/apply.go:18-62 | Every node gets the dial address of its member's list; it fails exactly when a node is unknown - naming precisely the unknown ones - or has no dialable address. |
| Dialing.ByHostReads | tools/bootstrap/internal/talos/apply.go:26-62 | A host is known by the last member that reports it, and unknown when none does. |
| Dialing.PickedAvoidsInterface | tools/bootstrap/internal/talos/apply.go:64-103 | A picked address lies outside every sound static interface's network, whose address masks to its governing cidr's network, and outside that cidr. |
| Dialing.ChosenAddressAvoidsPlanes | tools/bootstrap/internal/talos/apply.go:26-62 | In a validated cluster a picked address lies in no declared static plane and in no static interface's network, as the library tests it; one without a zone and not IPv4-mapped shares the leading bits of none of them. |
| Dialing.ZonedAddressIsDialled | tools/bootstrap/internal/talos/apply.go:85-103 | An IPv6 address inside a skipped network is dialled all the same when it carries a zone. |
| Dialing.MappedAddressIsDialled | tools/bootstrap/internal/talos/apply.go:85-103 | So is an IPv4 address of a skipped network reported mapped into IPv6. |
| Net.ContainsIffSpans | tools/bootstrap/internal/talos/apply.go:91-96 | The containment test the skip uses and equality of leading bits part exactly on zoned addresses and, for an IPv4 block, on mapped ones. |
| Steps.Run | tools/bootstrap/internal/steps/steps.go:49-81 | The loop is the run of the stage: read, skip what is done, apply, stop at the first error with the count so far. |
| Steps.RunIsExact | tools/bootstrap/internal/steps/steps.go:49-81 | A run goes through its steps in order up to the first whose check fails or whose pending apply fails; it has applied exactly the pending ones among those, names the step that stopped it, and leaves the world as that step did. |
| Steps.Survey | tools/bootstrap/internal/steps/steps.go:83-112 | A dry run changes nothing, applies nothing, and counts the steps whose check reads pending. |
| Steps.SuccessMeansConverged | tools/bootstrap/internal/steps/steps.go:49-53 | For a convergent stage a run without error ends with every check true. |
| Steps.InterruptedRunsConverge | tools/bootstrap/internal/steps/steps.go:49-53 | Any sequence of failed or interrupted runs together applies at most the steps pending at the start, and never undoes a done step. |
| Steps.FinalRunConverges | tools/bootstrap/internal/steps/steps.go:49-53 | Such a sequence ended by a full run reaches every check true, still within that bound. |
| Steps.ConvergedRunIsNoOp | tools/bootstrap/internal/steps/steps.go:64-80 | A run over a converged world applies nothing and changes nothing, whatever fails, and succeeds when its reads do. |
| Steps.SurveyBoundsRun | tools/bootstrap/internal/steps/steps.go:83-112 | What a dry run lists as pending or unknown - whichever of its checks fail - bounds what any run from the same world applies; the pending count alone does when every step it could not read is done. |
| Steps.PendingBoundsRunsIff | tools/bootstrap/internal/steps/steps.go:83-112 | On independent steps, in an environment that can let everything through, the pending count alone bounds every run exactly when every step the dry run could not read is done. |
| Steps.UnreadStepIsApplied | tools/bootstrap/internal/steps/steps.go:91-97 | A one-step stage whose dry-run check fails lists nothing pending, and the run applies the step. |
| Formation.CountQuorum | tools/bootstrap/internal/pve/form.go:277-304 | The loop answers yes exactly when the last cluster entry carries the configured name, the quorate flag and at least the wanted member count, and at least that many entries are online nodes. |
| Formation.QuorumMeans | tools/bootstrap/internal/pve/form.go:277-304 | A quorate observation is one whose last cluster entry shows the name, the flag and enough members, with enough entries being nodes online - and nothing else is. |
| Formation.PrimaryOf | tools/bootstrap/internal/config/config.go:45-53 | The primary is the first node declared so; there is none exactly when no node is. |
| Formation.Former.WaitForMember | tools/bootstrap/internal/pve/form.go:211-231 | Polling writes nothing and succeeds exactly on a last read that shows the member. |
| Formation.Former.WaitForQuorum | tools/bootstrap/internal/pve/form.go:233-253 | Polling writes nothing and succeeds exactly on a last observation that is quorate. |
| Formation.Former.ApplyCreate | tools/bootstrap/internal/pve/form.go:104-130 | At most the one create is written, and the protocol invariant is kept. |
| Formation.Former.AwaitJoined | tools/bootstrap/internal/pve/form.go:174-185 | After a join, success means a listing and a later quorate observation covering every member listed. |
| Formation.Former.ApplyJoin | tools/bootstrap/internal/pve/form.go:132-187 | At most the one join is written, right after its negative check; on success the join is gated. |
| Formation.Former.CreateStep | tools/bootstrap/internal/pve/form.go:63-67 | A successful step has written the create exactly when its own read did not show the primary; a failed one is stuck on a refusal, a member that never showed or a failed listing. |
| Formation.Former.JoinStep | tools/bootstrap/internal/pve/form.go:68-77 | A successful step has written the join, and nothing else, exactly when its own listing did not show the node; a failed one ends on a named obstacle. |
| Formation.Former.JoinSteps | tools/bootstrap/internal/pve/form.go:68-77 | Every non-primary node is joined, in configured order, unless its own step's listing showed it, and nothing else is written; the first failure stops the steps. |
| Formation.Former.Run | tools/bootstrap/internal/pve/form.go:57-84 | Under any environment, every run is safe: two joins are separated by a quorate observation of all members listed in between, each write follows a read that did not show its member, the create precedes the joins. A successful run has written the create and the joins of exactly the nodes their own steps' listings did not show, in configured order, ends with all joins gated and on an observation of the cluster's name, its quorate flag, its full member count and as many online nodes; a run stops early only on a refusal, a member that never showed, a failed listing, or a quorum not reached. |
| Formation.WriteKeepsSafe | tools/bootstrap/internal/pve/form.go:138-187 | A write right after its own negative check, with every earlier join gated, keeps a trace safe. |
| Formation.ReadsKeepSafe | tools/bootstrap/internal/pve/form.go:255-304 | Reads, whatever they answer, keep a trace safe and its joins gated. |
| Formation.GateCloses | tools/bootstrap/internal/pve/form.go:179-185 | A listing and then a quorum of everyone listed, after the last join, gate all joins. |
| Formation.GatedAcrossRunsIff | tools/bootstrap/internal/pve/form.go:86-102 | Across two runs back to back the gate holds exactly when the first ended with all its joins gated - as every successful run does - or the second joins nobody. |
| Formation.GateIsPerRun | tools/bootstrap/internal/pve/form.go:86-102 | Two traces a run can leave, the first giving up on the node it joined, join twice without a quorum in between. |
| Utf8.RoundTrip | tools/bootstrap/internal/pve/certs.go:493-500 | The text of the bytes of any text is that text again, so decoding base64 loses nothing of a credential (section 3 of RFC 3629). |
| Utf8.EncodingSamples | tools/bootstrap/internal/pve/certs.go:493-500 | One character of each encoded length, as sections 3 and 7 of RFC 3629 give them. |
| PluginData.Base64Samples | tools/bootstrap/internal/pve/certs.go:493-500 | The alphabet and padding are those of RFC 4648, as its section 10 shows them. |
| PluginData.Alphabet | tools/bootstrap/internal/pve/certs.go:493-500 | The digit of every value is that of table 1 of RFC 4648. |
| PluginData.Base64RoundTrip | tools/bootstrap/internal/pve/certs.go:493-500 | Decoding with the padding encoded with gives the bytes back, and the padded decoder refuses an unpadded text whose length needs padding (section 4 of RFC 4648). |
| PluginData.DecodedIsShaped | tools/bootstrap/internal/pve/certs.go:493-500 | Whatever either decoder accepts is base64 digits followed by padding. |
| PluginData.ForeignCharIsPlain | tools/bootstrap/internal/pve/certs.go:483-492 | A text holding a character outside the alphabet is never taken for base64. |
| PluginData.InnerEqualsIsPlain | tools/bootstrap/internal/pve/certs.go:483-492 | Nor is a text with something other than padding after an '='. |
| PluginData.DecodePluginData | tools/bootstrap/internal/pve/certs.go:493-510 | The loop yields the map of the payload's KEY=value lines, trimmed, blank ones skipped, a later key winning. |
| PluginData.RenderingParses | tools/bootstrap/internal/pve/certs.go:501-509 | Any line order, blank lines and CRLF endings parse to the credential map rendered. |
| PluginData.PayloadDecodes | tools/bootstrap/internal/pve/certs.go:483-510 | Padded base64, unpadded base64 and already decoded renderings of one credential map all decode to it. |
| PluginData.DecodedRenderingWithForeignKey | tools/bootstrap/internal/pve/certs.go:483-492 | In particular a decoded rendering with a key such as CF_Token is read as it is. |
| Certs.FindACMEPlugin | tools/bootstrap/internal/pve/certs.go:216-233 | The first plugin of the index with the ID, or none. |
| Certs.PluginCheck | tools/bootstrap/internal/pve/certs.go:235-258 | Done exactly when the plugin exists, stores the desired credentials, and is the right enabled kind. |
| Certs.PluginDoneMeans | tools/bootstrap/internal/pve/certs.go:235-258 | Field by field: the plugin is an enabled DNS plugin for the provider, and what it stores is exactly the credentials the config sets to something. |
| Certs.PluginDriftIffMapsDiffer | tools/bootstrap/internal/pve/certs.go:235-258 | On a right and enabled plugin drift is reported exactly when the credential maps differ, whatever shape the server answers in. |
| Certs.StoredIsLineSafe | tools/bootstrap/internal/pve/certs.go:493-510 | Whatever payload is stored, no value read back holds a line break or ends in white space. |
| Certs.PluginUpdateConvergesIff | tools/bootstrap/internal/pve/certs.go:260-289 | Writing the credentials makes the check true exactly when the plugin was created, or was enabled and not of the standalone kind, and every desired value holds no line break and no white space at its end. |
| Certs.PaddedTokenNeverConverges | tools/bootstrap/internal/pve/certs.go:469-510 | A token with white space at its end, which the config accepts, is never the stored one: the step stays pending whatever is written. |
| Certs.SlotFor | tools/bootstrap/internal/pve/certs.go:452-467 | The name's own slot, else the least unused index, within one probe more than there are slots. |
| Certs.ApplyDomain | tools/bootstrap/internal/pve/certs.go:306-328 | The domain check then holds, every other slot is unchanged, and a name that held at most one slot holds exactly one. |
| Certs.CertActionFor | tools/bootstrap/internal/pve/certs.go:371-393 | Order exactly when no frontend certificate exists, renew exactly when it covers the name with an acceptable issuer. |
| Certs.CertStore.ApplyOrder | tools/bootstrap/internal/pve/certs.go:395-444 | The writes, the resulting certificates and the error are exactly those of the branch taken and of how each write ended - accepted, refused, or done with its answer or the wait for its worker lost. |
| Certs.WritesAdmissible | tools/bootstrap/internal/pve/certs.go:371-433 | Order is issued only without a frontend certificate, delete only of a wrong one, renew only of a right one. |
| Certs.ApplyConverges | tools/bootstrap/internal/pve/certs.go:395-444 | With a CA that issues matching fresh certificates a success makes the check true, and so does an order or renewal whose answer is lost; no certificate but the frontend one is ever touched. |
| Certs.RenewalOnlyInsideWindow | tools/bootstrap/internal/pve/certs.go:371-391 | A pending check that leads to a renewal means the served certificate is inside the renewal window. |
| Certs.CertDoneMeans | tools/bootstrap/internal/pve/certs.go:330-360 | The check holds exactly when some certificate names the host, lasts, and - under the production CA only - was not issued by staging. |
| Certs.FlipReplaces | tools/bootstrap/internal/pve/certs.go:348-433 | Flipping the config to production reopens a node whose certificates for the host are all staging-issued; its apply deletes the served one, orders, and leaves the check true. |
| Certs.CertDoneIff | tools/bootstrap/internal/pve/certs.go:330-346 | The check holds exactly when the frontend certificate is right and lasting, or some other certificate file covers the name and lasts. |
| Certs.OtherFileHidesMissingFrontend | tools/bootstrap/internal/pve/certs.go:330-346 | So another certificate file can make the check true while no frontend certificate exists. |
| Acme.OwnPartDone | tools/bootstrap/internal/pve/certs.go:104-444 | On an enabled DNS plugin, with credentials that can be read back and a CA that issues matching fresh certificates, the Apply of each of the four kinds of step makes its own Check true when it succeeds. |
| Acme.OtherPartKept | tools/bootstrap/internal/pve/certs.go:68-94 | Whatever way one step's Apply ends, no other step's Check changes. |
| Acme.AccountReopens | tools/bootstrap/internal/pve/certs.go:104-214 | The account's check is false exactly when there is no account or it is reported under another CA; a successful apply leaves one under the configured CA or unreported. |
| Acme.AcmeStageConvergent | tools/bootstrap/internal/pve/certs.go:68-94 | So the whole stage - account, plugin, then wiring and certificate per node - is convergent. |
| Acme.AcmeRunsConverge | tools/bootstrap/internal/pve/certs.go:68-94 | Any history of failed and interrupted runs ended by one that completes leaves account, plugin, wiring and certificates as declared, with at most one apply per step pending at the start. |
| Storage.SplitCSV | tools/bootstrap/internal/pve/storage.go:202-213 | The in-place loop yields the comma-free pieces whose comma join is the text, each trimmed; the empty text is the empty list. |
| Storage.SameSetIsSetEquality | tools/bootstrap/internal/pve/storage.go:215-221 | Sorting and compacting both sides compares exactly the sets of items. |
| Storage.SplitUndoesJoin | tools/bootstrap/internal/pve/storage.go:202-213 | Splitting undoes the comma join of items without commas or outer white space. |
| Storage.ReadsBackIff | tools/bootstrap/internal/pve/storage.go:172-179 | A submitted list reads back as the same set, in whatever order the server renders it, exactly when its items are comma-free and trimmed and it is not the one list whose join is empty. |
| Storage.StorageUpdateFor | tools/bootstrap/internal/pve/storage.go:158-194 | The method computes the update: none exactly when every declared field is the stored one, else the read's digest and exactly the fields that differ. |
| Storage.NoUpdateIffFieldsMatch | tools/bootstrap/internal/pve/storage.go:158-194 | Drift, in the fields' own terms: pool equal, content and nodes equal as sets of the items the stored text lists, sparse "1", disable set - whatever is not declared never drifts. |
| Storage.ConvergedIffDeclared | tools/bootstrap/internal/pve/storage.go:76-140 | The check is done exactly when the entry exists with the declared type, the declared path if any, and every declared field. |
| Storage.UpdateConverges | tools/bootstrap/internal/pve/storage.go:158-194 | Applying it leaves every declared field, type and path stored as declared, and touches no field the block has no opinion on. |
| Storage.CreateConverges | tools/bootstrap/internal/pve/storage.go:142-156 | A fresh create leaves every declared field, type and path stored as declared. |
| Storage.UpdateConvergesIff | tools/bootstrap/internal/pve/storage.go:164-194 | In general an update closes the drift exactly when the lists it writes survive the comma join; one that does not drifts again after every update. |
| Storage.StorageStageConvergent | tools/bootstrap/internal/pve/storage.go:41-122 | The storage stage is convergent: distinct names keep the steps out of each other's way. |
| Storage.StorageRunsConverge | tools/bootstrap/internal/pve/storage.go:41-122 | Any history of failed and interrupted runs ended by one that completes leaves every entry stored with its declared type, path and fields, with at most one write per entry pending at the start. |
| Assets.StoppedDownload | tools/bootstrap/internal/emit/assets.go:140-171 | At every point a download can stop, what a re-run then finds: ready only with content the sidecar names, stuck exactly on a torn or stale digest record. |
| Assets.Tree.AssetReady | tools/bootstrap/internal/emit/assets.go:79-102 | Missing file or sidecar reads not ready, a differing digest is an error, a matching one ready. |
| Assets.Tree.AssetsReady | tools/bootstrap/internal/emit/assets.go:59-77 | Unless a read fails, the answer is exactly that of the first asset that is not ready - an error for a mismatching one, not ready for a missing one - and ready when there is none. |
| Assets.AllReadyIff | tools/bootstrap/internal/emit/assets.go:59-77 | That answer is ready exactly when every asset is present with the digest its sidecar records. |
| Assets.Tree.CopyInto | tools/bootstrap/internal/emit/assets.go:178-202 | The copy, interrupted anywhere, touches only the temporary file. |
| Assets.Tree.Receive | tools/bootstrap/internal/emit/assets.go:178-212 | Whatever happens only temporaries change; success means the temporary file holds the whole transfer, of the announced length if one was announced. |
| Assets.Tree.WriteAtomic | tools/bootstrap/internal/emit/assets.go:173-217 | Stopped anywhere, the destination is untouched or holds the whole transfer; without a fault or a short transfer it succeeds. |
| Assets.Tree.Download | tools/bootstrap/internal/emit/assets.go:140-171 | Stopped anywhere, the tree without temporaries is exactly one of the listed stages, every destination is absent or a whole transfer, nothing short of the announced length is placed, and it fails only for a fault or a short transfer. |
| Assets.Tree.RecordDigest | tools/bootstrap/internal/emit/assets.go:167-170 | The digest record can be torn at any length and touches nothing else. |
| Assets.Tree.DownloadAssets | tools/bootstrap/internal/emit/assets.go:119-138 | Success makes every asset ready and is ruled out by any asset that read mismatched at the start; what was ready stays ready and is not fetched again; at any stop every destination is absent or whole; and besides a mismatch it stops only for a fault or a short transfer. |
| Assets.OthersKeepReadiness | tools/bootstrap/internal/emit/assets.go:140-171 | A download, however it stops, leaves every other asset's readiness as it was. |

## Left out

- Formation.Former.ApplyCreate: states no quorum gate after the create, because the code waits for membership only before the first join.
- Formation.Former.Run: the writes of a failed run are bounded by safety, not listed exactly.
- Names.ClassesNamedApart: assumes the eight-character abbreviations of hashes and schematics are injective on the values present, which nothing in the code checks.
- Serving.ServedIsRendered: takes the HCL texts of the catalog as faithful carriers of the catalog data; the fixed HCL, iPXE and launcher templates themselves are not part of this model.
- Certs.CertStore.ApplyOrder: takes one ending per write, the wait for its worker included.
- Acme.OwnPartDone: asks for a plugin that is enabled and of the DNS kind when it exists, since the apply repairs neither (`Certs.PluginUpdateConvergesIff`); the account's contact and terms of service are left out.
- Certs.PluginUpdateConvergesIff: asks of the credential names, which the provider fixes, that they start with no white space and hold no '=' and no line break; a decoded answer must not itself look like base64, as a name holding '_' ensures.
- Resolve.SortSlotsOrdered: promises non-decreasing order only, since labels such as net0 and net00 share an index and Go's sort is not stable; the model keeps their order and no property uses it.
- Resolve.ResolveMode, Resolve.ResolveInline and Resolve.ResolveInterface are functions on values where the source writes the fields of one record through a pointer; nothing aliases that record. The MAC rewritten in place is kept, in `Resolve.ScanBlocks`.
- Diff.NormalFormsEqualIff: assumes document keys are unique; normal forms with repeated keys compare in the unspecified order of an unstable sort.
- Text: strings are sequences of code points and ordered by them; malformed UTF-8 in a decoded payload reads as replacement characters.
- Assets: files are named by their role for an asset path, so a temporary file never aliases a destination; permissions, directories and file closing errors are one nondeterministic failure.
- HCL decoding, `env()`, YAML and Cilium values checks, URL and Gateway API rules, and the validation of PVE, storage, ACME and Talos blocks: single-branch rules or library parsing.
- `Tree.Write` and `Tree.Diff`, the iPXE build stamp, file modes, credential files and the secrets bundle: further easy instances of a step.
- Talos machinery, the Proxmox and Talos SDKs, HTTP, gRPC and docker: foreign code, represented by their answers.
- Commands, logging, summaries, exit codes, contexts and timeouts: wiring.
- Integer widths: counters and lengths are unbounded; the one place a width matters, the slot number, is modelled.
