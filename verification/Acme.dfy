/** The certificate stage as a whole (pve/certs.go's Steps): account, plugin, and per node the domain wiring and the
    certificate, over one world of answers, refusals and lost answers. */
module Acme {
  import opened Common
  import opened Text
  import opened Sorting
  import opened Certs
  import P = PluginData
  import Steps
  import U = Utf8

  /** What the config asks for. */
  datatype Config = Config(directory: string, values: map<string, string>, api: string, id: string,
                           nodes: seq<string>, domain: string, deadline: int)
  {
    function Directory(): string { if directory != "" then directory else LE_PRODUCTION }

    function FQDN(node: string): string { node + "." + domain }
  }

  /** What the cluster holds: the account's directory as reported, the plugin, and each node's config and
      certificates. */
  datatype World = World(account: Option<string>, plugin: Option<Plugin>, configs: map<string, NodeConfig>,
                         certs: map<string, seq<Certificate>>)

  /** The environment's part in one step: whether reads answer, how writes end, and what it is free to choose. */
  datatype Choice = Choice(
    checked: bool, applied: bool,                // do the Check's and the Apply's reads, and its dials, answer?
    deactivation: Ending, metadata: bool, registration: Ending, reported: bool,
    write: Ending, payload: string, digest: string, slot: nat,
    deletion: Ending, issuance: Ending, issued: Certificate)

  // ----- the account

  /** accountCheck: an account whose directory the server does not report counts as matching. */
  predicate AccountDone(c: Config, w: World) {
    w.account.Some? && (w.account.value == "" || w.account.value == c.Directory())
  }

  /** applyAccount: an existing account is deactivated before the new one is registered. */
  function AccountApplied(c: Config, w: World, e: Choice): (World, bool) {
    if !e.applied then (w, false)
    else if w.account.Some? && e.deactivation != Fine then
      (if e.deactivation == Lost then w.(account := None) else w, false)
    else if !e.metadata || e.registration == Rejected then (w.(account := None), false)
    else (w.(account := Some(if e.reported then c.Directory() else "")), e.registration == Fine)
  }

  /** The account's check is false exactly when there is none or it is reported under another CA; a successful apply
      leaves one under the configured CA, or unreported, and touches nothing else of the world. */
  lemma AccountReopens(c: Config, w: World, e: Choice)
    ensures !AccountDone(c, w) <==>
              w.account == None || (w.account.value != "" && w.account.value != c.Directory())
    ensures var (after, ok) := AccountApplied(c, w, e);
            && after == w.(account := after.account)
            && (ok ==> after.account == Some(if e.reported then c.Directory() else ""))
            && (after.account == w.account || after.account == None || AccountDone(c, after))
  {}

  // ----- the plugin

  /** The submitted credentials as the server gives them back: in a shape of its own, or the base64 submitted. */
  ghost function Answer(m: map<string, string>, wish: string): string {
    if Returned(wish, m) then wish else Submitted(m)
  }

  ghost function Submitted(m: map<string, string>): string {
    KeysHeld(SortedSet(m.Keys), m);
    P.Encode(U.Bytes(P.Rendering(Lines(SortedSet(m.Keys), m))), true)
  }

  lemma AnswerIsReturned(m: map<string, string>, wish: string)
    ensures Returned(Answer(m, wish), m)
  {
    var keys := SortedSet(m.Keys);
    KeysHeld(keys, m);
    var bytes := U.Bytes(P.Rendering(Lines(keys, m)));
    P.EncodeHasNoBreaks(bytes, true);
    P.StripKeeps(P.Encode(bytes, true));
    assert ReturnedAs(Submitted(m), m, keys, true);
  }

  ghost predicate PluginStepDone(c: Config, w: World) {
    PluginDone(w.plugin, c.values, c.api)
  }

  ghost function PluginStepApplied(c: Config, w: World, e: Choice): (World, bool) {
    if !e.applied || e.write == Rejected then (w, false)
    else (w.(plugin := Some(PluginApplied(w.plugin, c.id, Answer(Desired(c.values), e.payload), c.api, e.digest))),
        e.write == Fine)
  }

  // ----- a node's domain and certificate

  ghost predicate NodeDomainDone(c: Config, w: World, node: string) {
    node in w.configs && DomainDone(w.configs[node], c.FQDN(node), c.id)
  }

  /** The slot written, of several held ones whichever the server lists first. */
  ghost function SlotOf(cfg: NodeConfig, fqdn: string, wish: nat): (idx: nat)
    ensures SlotChosen(cfg, fqdn, idx)
  {
    if SlotChosen(cfg, fqdn, wish) then wish
    else if HeldSlots(cfg, fqdn) == {} then FirstFree(cfg.slots.Keys)
    else var idx :| idx in HeldSlots(cfg, fqdn); idx
  }

  function FirstFree(used: set<nat>): (idx: nat)
    ensures idx !in used && forall i: nat | i < idx :: i in used
  {
    LeastFreeFrom(used, 0)
  }

  function LeastFreeFrom(used: set<nat>, from: nat): (idx: nat)
    ensures idx >= from && idx !in used && forall i: nat | from <= i < idx :: i in used
    decreases |set i | i in used && i >= from|
  {
    if from !in used then from
    else
      assert (set i | i in used && i >= from) == (set i | i in used && i >= from + 1) + {from};
      LeastFreeFrom(used, from + 1)
  }

  ghost function NodeDomainApplied(c: Config, w: World, node: string, e: Choice): (World, bool)
    requires node in w.configs
  {
    if !e.applied || e.write == Rejected then (w, false)
    else
      var fqdn, slots := c.FQDN(node), w.configs[node].slots;
      var idx := SlotOf(w.configs[node], fqdn, e.slot);
      (w.(configs := w.configs[node := NodeConfig(ACCOUNT, slots[idx := (fqdn, c.id)])]), e.write == Fine)
  }

  ghost predicate NodeCertDone(c: Config, w: World, node: string) {
    node in w.certs && CertDone(w.certs[node], c.FQDN(node), c.directory, c.deadline)
  }

  /** What a CA that issues matching, fresh certificates answers: whatever such certificate it likes. */
  ghost function Honest(c: Config, node: string, wish: Certificate): (issued: Certificate)
    ensures Issues(wish, c.FQDN(node), c.directory, c.deadline) ==> issued == wish
  {
    if Issues(wish, c.FQDN(node), c.directory, c.deadline) then wish
    else Certificate(FRONTEND, {c.FQDN(node)}, c.deadline + 1, "")
  }

  lemma HonestIssues(c: Config, node: string, wish: Certificate)
    ensures Issues(Honest(c, node, wish), c.FQDN(node), c.directory, c.deadline)
  {}

  ghost function NodeCertApplied(c: Config, w: World, node: string, e: Choice): (World, bool)
    requires node in w.certs
  {
    var fqdn, found := c.FQDN(node), w.certs[node];
    var (after, err) := Applied(found, ActionOf(found, fqdn, c.directory), Honest(c, node, e.issued), e.applied,
                                e.deletion, e.issuance);
    (w.(certs := w.certs[node := after]), err.None?)
  }

  // ----- the stage

  datatype Part = Account | ThePlugin | NodeDomain(node: string) | NodeCert(node: string)

  ghost predicate Done(c: Config, p: Part, w: World) {
    match p
    case Account => AccountDone(c, w)
    case ThePlugin => PluginStepDone(c, w)
    case NodeDomain(node) => NodeDomainDone(c, w, node)
    case NodeCert(node) => NodeCertDone(c, w, node)
  }

  /** Can the step's reads answer? Only of nodes the cluster has. */
  predicate Known(p: Part, w: World) {
    match p
    case NodeDomain(node) => node in w.configs
    case NodeCert(node) => node in w.certs
    case _ => true
  }

  ghost function Outcome(c: Config, p: Part, w: World, e: Choice): (World, bool) {
    if !Known(p, w) then (w, false)
    else
      match p
      case Account => AccountApplied(c, w, e)
      case ThePlugin => PluginStepApplied(c, w, e)
      case NodeDomain(node) => NodeDomainApplied(c, w, node, e)
      case NodeCert(node) => NodeCertApplied(c, w, node, e)
  }

  ghost function PartStep(c: Config, p: Part): Steps.Step<World, Choice> {
    Steps.Step(PartName(c, p), (w: World) => Done(c, p, w), (w: World, e: Choice) => e.checked && Known(p, w),
               (w: World, e: Choice) => Outcome(c, p, w, e).1, (w: World, e: Choice) => Outcome(c, p, w, e).0)
  }

  function PartName(c: Config, p: Part): string {
    match p
    case Account => "acme-account"
    case ThePlugin => "acme-plugin-" + c.id
    case NodeDomain(node) => "acme-config-" + node
    case NodeCert(node) => "acme-cert-" + node
  }

  /** The steps in apply order. */
  function Parts(nodes: seq<string>): seq<Part> {
    [Account, ThePlugin] + NodeParts(nodes)
  }

  function NodeParts(nodes: seq<string>): seq<Part> {
    if nodes == [] then [] else [NodeDomain(nodes[0]), NodeCert(nodes[0])] + NodeParts(nodes[1..])
  }

  ghost function Stage(c: Config): seq<Steps.Step<World, Choice>> {
    var parts := Parts(c.nodes);
    seq(|parts|, i requires 0 <= i < |parts| => PartStep(c, parts[i]))
  }

  /** What runs keep: the plugin, if there, enabled and of the DNS kind; every node known. */
  ghost predicate Inv(c: Config, w: World) {
    && (w.plugin.Some? ==> !w.plugin.value.disabled && !w.plugin.value.standalone)
    && forall node | node in c.nodes :: node in w.configs && node in w.certs
  }

  /** The credentials can be stored and read back. */
  ghost predicate Storable(c: Config) {
    forall k | k in Desired(c.values) :: KeyOk(k) && LineSafe(Desired(c.values)[k])
  }

  lemma {:induction false} NodePartsMembers(nodes: seq<string>)
    ensures forall p | p in NodeParts(nodes) :: (p.NodeDomain? || p.NodeCert?) && p.node in nodes
    ensures Distinct(nodes) ==> Distinct(NodeParts(nodes))
  {
    if nodes != [] {
      NodePartsMembers(nodes[1..]);
      if Distinct(nodes) {
        var rest := nodes[1..];
        forall i, j | 0 <= i < j < |rest| ensures rest[i] != rest[j] { assert nodes[i + 1] != nodes[j + 1]; }
        assert nodes[0] !in rest;
        DistinctPair(NodeDomain(nodes[0]), NodeCert(nodes[0]), NodeParts(nodes[1..]));
      }
    }
  }

  lemma DistinctPair(a: Part, b: Part, rest: seq<Part>)
    requires a != b && a !in rest && b !in rest && Distinct(rest)
    ensures Distinct([a, b] + rest)
  {
    var all := [a, b] + rest;
    forall i, j | 0 <= i < j < |all| ensures all[i] != all[j] {
      if j >= 2 { assert all[j] == rest[j - 2]; }
      if i >= 2 { assert all[i] == rest[i - 2]; }
    }
  }

  lemma PartsDistinct(nodes: seq<string>)
    requires Distinct(nodes)
    ensures Distinct(Parts(nodes)) && forall p | p in Parts(nodes) && (p.NodeDomain? || p.NodeCert?) :: p.node in nodes
  {
    NodePartsMembers(nodes);
    DistinctPair(Account, ThePlugin, NodeParts(nodes));
  }

  /** One step's Apply leaves every other step's Check as it was. */
  lemma OtherPartKept(c: Config, p: Part, q: Part, w: World, e: Choice)
    requires p != q
    ensures Done(c, q, Outcome(c, p, w, e).0) == Done(c, q, w)
  {
    hide Applied, SlotOf, Answer, PluginDone, DomainDone, CertDone;
  }

  lemma InvKept(c: Config, p: Part, w: World, e: Choice)
    requires Inv(c, w)
    ensures Inv(c, Outcome(c, p, w, e).0)
  {
    hide Applied, SlotOf, Answer, Honest;
  }

  /** A successful Apply makes its own Check true. */
  lemma OwnPartDone(c: Config, p: Part, w: World, e: Choice)
    requires Inv(c, w) && Storable(c) && Outcome(c, p, w, e).1
    ensures Done(c, p, Outcome(c, p, w, e).0)
  {
    match p
    case Account =>
    case ThePlugin => PluginPartDone(c, w, e);
    case NodeDomain(node) => DomainPartDone(c, w, node, e);
    case NodeCert(node) => CertPartDone(c, w, node, e);
  }

  lemma PluginPartDone(c: Config, w: World, e: Choice)
    requires Inv(c, w) && Storable(c) && PluginStepApplied(c, w, e).1
    ensures PluginStepDone(c, PluginStepApplied(c, w, e).0)
  {
    hide PluginDone, Answer, Desired, KeyOk, LineSafe, PluginApplied, Returned;
    AnswerIsReturned(Desired(c.values), e.payload);
    PluginUpdateConvergesIff(w.plugin, c.id, Answer(Desired(c.values), e.payload), c.api, e.digest, c.values);
  }

  lemma DomainPartDone(c: Config, w: World, node: string, e: Choice)
    requires node in w.configs && NodeDomainApplied(c, w, node, e).1
    ensures NodeDomainDone(c, NodeDomainApplied(c, w, node, e).0, node)
  {
    hide SlotOf;
    var cfg := w.configs[node];
    var idx := SlotOf(cfg, c.FQDN(node), e.slot);
    var after := NodeConfig(ACCOUNT, cfg.slots[idx := (c.FQDN(node), c.id)]);
    assert after.slots[idx] == (c.FQDN(node), c.id);
  }

  lemma CertPartDone(c: Config, w: World, node: string, e: Choice)
    requires node in w.certs && NodeCertApplied(c, w, node, e).1
    ensures NodeCertDone(c, NodeCertApplied(c, w, node, e).0, node)
  {
    hide Applied, Honest, CertDone, ActionOf;
    HonestIssues(c, node, e.issued);
    ApplyConverges(w.certs[node], c.FQDN(node), c.directory, c.deadline, Honest(c, node, e.issued), e.applied,
        e.deletion, e.issuance);
  }

  /** The stage is convergent: for credentials that read back, a plugin that is on, and a CA that issues matching
      fresh certificates. */
  lemma AcmeStageConvergent(c: Config)
    requires Distinct(c.nodes) && Storable(c)
    ensures Steps.Convergent(Stage(c), w => Inv(c, w))
  {
    hide Done, Outcome, Known, Inv, Storable;
    var parts, stage, inv := Parts(c.nodes), Stage(c), (w: World) => Inv(c, w);
    PartsDistinct(c.nodes);
    forall i, w, e | 0 <= i < |stage| && inv(w) && !stage[i].done(w)
      ensures inv(stage[i].effect(w, e)) && (stage[i].succeeds(w, e) ==> stage[i].done(stage[i].effect(w, e)))
    {
      InvKept(c, parts[i], w, e);
      if stage[i].succeeds(w, e) { OwnPartDone(c, parts[i], w, e); }
    }
    forall i, j, w, e | 0 <= i < |stage| && 0 <= j < |stage| && inv(w) && !stage[i].done(w) && stage[j].done(w)
      ensures stage[j].done(stage[i].effect(w, e))
    {
      assert parts[i] != parts[j];
      OtherPartKept(c, parts[i], parts[j], w, e);
    }
  }

  /** So any history of failed and interrupted runs, ended by one that completes, leaves account, plugin, domains and
      certificates all as declared, with at most one apply per step that was pending. */
  lemma AcmeRunsConverge(c: Config, w: World, runs: seq<seq<Choice>>, last: seq<Choice>)
    requires Distinct(c.nodes) && Storable(c) && Inv(c, w)
    requires |last| == |Stage(c)| && forall r | r in runs :: |r| == |Stage(c)|
    ensures var (end, applied) := Steps.History(Stage(c), w, runs);
            var o := Steps.RunFrom(Stage(c), 0, end, last, 0);
            && applied + o.res.applied <= Steps.Pending(Stage(c), w)
            && (o.err.None? ==> forall p | p in Parts(c.nodes) :: Done(c, p, o.world))
  {
    hide Done, Inv, Storable, Parts, Steps.RunFrom, Steps.History, Steps.Convergent;
    var stage, parts := Stage(c), Parts(c.nodes);
    AcmeStageConvergent(c);
    Steps.FinalRunConverges(stage, w => Inv(c, w), w, runs, last);
    var end := Steps.History(stage, w, runs).0;
    var o := Steps.RunFrom(stage, 0, end, last, 0);
    if o.err.None? {
      forall p | p in parts ensures Done(c, p, o.world) {
        var i :| 0 <= i < |parts| && parts[i] == p;
        assert stage[i].done(o.world);
      }
    }
  }
}
