/** The certificate stage (pve/certs.go): the challenge plugin, the acmedomain slot of each node, and the
    order/renew/replace machine of each certificate. */
module Certs {
  import opened Common
  import opened Text
  import P = PluginData
  import U = Utf8

  const ACCOUNT := "default"
  const LE_PRODUCTION := "https://acme-v02.api.letsencrypt.org/directory"
  const FRONTEND := "pveproxy-ssl.pem"

  // ----- the challenge plugin

  datatype Plugin = Plugin(id: string, data: string, api: string, standalone: bool, disabled: bool, digest: string)

  /** The credentials the config resolves to, empty ones dropped. */
  function Desired(values: map<string, string>): map<string, string> {
    map k | k in values && values[k] != "" :: values[k]
  }

  function Stored(payload: string): map<string, string> {
    P.ParseLines(Split(P.RawPayload(payload), '\n'))
  }

  function FindPlugin(plugins: seq<Plugin>, id: string): Option<Plugin> {
    if plugins == [] then None
    else if plugins[0].id == id then Some(plugins[0])
    else FindPlugin(plugins[1..], id)
  }

  method FindACMEPlugin(plugins: seq<Plugin>, id: string) returns (r: Option<Plugin>)
    ensures r == FindPlugin(plugins, id)
    ensures r.None? <==> forall p | p in plugins :: p.id != id
    ensures r.Some? ==> exists i | 0 <= i < |plugins| ::
              plugins[i] == r.value && r.value.id == id && forall j | 0 <= j < i :: plugins[j].id != id
  {
    for i := 0 to |plugins|
      invariant FindPlugin(plugins[i..], id) == FindPlugin(plugins, id)
      invariant forall j | 0 <= j < i :: plugins[j].id != id
    {
      assert plugins[i..][0] == plugins[i] && plugins[i..][1..] == plugins[i + 1..];
      if plugins[i].id == id {
        return Some(plugins[i]);
      }
    }
    r := None;
  }

  /** pluginCheck: the credentials are the desired ones, and the plugin itself is the right kind and on. */
  predicate PluginDone(p: Option<Plugin>, values: map<string, string>, api: string) {
    && p.Some? && Stored(p.value.data) == Desired(values)
    && p.value.api == api && !p.value.standalone && !p.value.disabled
  }

  /** Done, field by field: the first plugin with the ID is an enabled DNS plugin for the provider, and what it stores
      is exactly the credentials the config sets to something. */
  lemma PluginDoneMeans(p: Option<Plugin>, values: map<string, string>, api: string)
    ensures PluginDone(p, values, api) <==>
              && p.Some? && p.value.api == api && !p.value.standalone && !p.value.disabled
              && forall k, v :: Reads(Stored(p.value.data), k, v) <==> v != "" && Reads(values, k, v)
  {
    hide Stored;
    if p.Some? {
      var stored, desired := Stored(p.value.data), Desired(values);
      forall k, v ensures Reads(desired, k, v) <==> v != "" && Reads(values, k, v) {}
      if forall k, v :: Reads(stored, k, v) <==> Reads(desired, k, v) {
        forall k ensures k in stored <==> k in desired
                 ensures k in stored ==> stored[k] == desired[k] {
          if k in stored { assert Reads(stored, k, stored[k]); }
          if k in desired { assert Reads(desired, k, desired[k]); }
        }
      }
    }
  }

  predicate Reads(m: map<string, string>, k: string, v: string) {
    k in m && m[k] == v
  }

  method PluginCheck(plugins: seq<Plugin>, id: string, values: map<string, string>, api: string) returns (done: bool)
    ensures done == PluginDone(FindPlugin(plugins, id), values, api)
  {
    var p := FindACMEPlugin(plugins, id);
    if p.None? {
      return false;
    }
    var stored := P.DecodePluginData(p.value.data);
    if stored != Desired(values) {
      return false;
    }
    done := p.value.api == api && !p.value.standalone && !p.value.disabled;
  }

  /** Drift is reported exactly when the credential maps differ, whatever shape the server answers in. */
  lemma PluginDriftIffMapsDiffer(p: Plugin, rows: seq<P.Row>, m: map<string, string>, padded: bool,
                                 values: map<string, string>, api: string)
    requires P.Renders(rows, m)
    requires P.Strip(p.data) == P.Encode(U.Bytes(P.Rendering(rows)), padded)
             || (p.data == P.Rendering(rows) && !P.Shaped(P.Strip(p.data)))
    requires p.api == api && !p.standalone && !p.disabled
    ensures PluginDone(Some(p), values, api) <==> m == Desired(values)
  {
    P.PayloadDecodes(p.data, rows, m, padded);
  }

  /** The server's side of an update: payload and provider come from the credentials; what the update does not
      name - the kind and the disable flag - stays. */
  function PluginUpdated(p: Plugin, payload: string, api: string, digest: string): Plugin {
    p.(data := payload, api := api, digest := digest)
  }

  /** What applyPlugin leaves: a DNS plugin, enabled, where there was none; else the old one with new credentials. */
  function PluginApplied(p: Option<Plugin>, id: string, payload: string, api: string, digest: string): Plugin {
    match p
    case None => Plugin(id, payload, api, false, false, digest)
    case Some(existing) => PluginUpdated(existing, payload, api, digest)
  }

  /** A credential name the payload's lines can carry; the provider fixes the names. */
  predicate KeyOk(k: string) {
    k != "" && !IsSpace(k[0]) && '=' !in k && '\n' !in k
  }

  /** A value its line gives back: no line break in it and no white space at its end. */
  predicate LineSafe(v: string) {
    '\n' !in v && (v != "" ==> !IsSpace(v[|v| - 1]))
  }

  /** The lines submitted for the credentials, in whatever order the keys are walked. */
  function Lines(keys: seq<string>, m: map<string, string>): seq<P.Row>
    requires forall k | k in keys :: k in m
  {
    seq(|keys|, i requires 0 <= i < |keys| => P.Entry("", keys[i], m[keys[i]], ""))
  }

  /** The server answers with what was submitted: base64, in either padding, or the decoded lines. */
  ghost predicate Returned(payload: string, m: map<string, string>) {
    exists keys, padded :: Elems(keys) == m.Keys && ReturnedAs(payload, m, keys, padded)
  }

  ghost predicate ReturnedAs(payload: string, m: map<string, string>, keys: seq<string>, padded: bool)
    requires Elems(keys) == m.Keys
  {
    KeysHeld(keys, m);
    var text := P.Rendering(Lines(keys, m));
    || P.Strip(payload) == P.Encode(U.Bytes(text), padded)
    || (payload == text && !P.Shaped(P.Strip(payload)))
  }

  lemma KeysHeld(keys: seq<string>, m: map<string, string>)
    requires Elems(keys) == m.Keys
    ensures forall k | k in keys :: k in m
  {
    forall k | k in keys ensures k in m { assert k in Elems(keys); }
  }

  /** Whatever is stored, every value read back is line-safe: a credential that is not can never be met. */
  lemma StoredIsLineSafe(payload: string)
    ensures forall k | k in Stored(payload) :: LineSafe(Stored(payload)[k])
  {
    SplitPiecesFree(P.RawPayload(payload), '\n');
    ParsedIsLineSafe(Split(P.RawPayload(payload), '\n'));
  }

  lemma {:induction false} ParsedIsLineSafe(lines: seq<string>)
    requires forall l | l in lines :: '\n' !in l
    ensures forall k | k in P.ParseLines(lines) :: LineSafe(P.ParseLines(lines)[k])
  {
    if lines != [] {
      var n := |lines| - 1;
      ParsedIsLineSafe(lines[..n]);
      assert lines[n] in lines;
      TrimIsTrimmed(lines[n]);
      CutTail(TrimSpace(lines[n]));
    }
  }

  lemma CutTail(text: string)
    ensures var v := Cut(text, '=').1;
            (forall c | c in v :: c in text) && (v != "" ==> text != "" && v[|v| - 1] == text[|text| - 1])
  {}

  lemma LinesRender(keys: seq<string>, m: map<string, string>)
    requires Elems(keys) == m.Keys && forall k | k in m :: KeyOk(k) && LineSafe(m[k])
    ensures forall k | k in keys :: k in m
    ensures P.Renders(Lines(keys, m), m)
  {
    KeysHeld(keys, m);
    var rows := Lines(keys, m);
    forall k | k in m ensures exists r | r in rows :: r.Entry? && r.key == k {
      assert k in Elems(keys);
      var i :| 0 <= i < |keys| && keys[i] == k;
      assert rows[i] in rows;
    }
  }

  lemma SafeLinesReadBack(payload: string, m: map<string, string>)
    requires (forall k | k in m :: KeyOk(k) && LineSafe(m[k])) && Returned(payload, m)
    ensures Stored(payload) == m
  {
    hide KeyOk, LineSafe, Lines, P.Renders, P.RawPayload, P.ParseLines, P.Encode, P.Strip, P.Shaped, P.Rendering,
         U.Bytes, Split;
    var keys, padded :| Elems(keys) == m.Keys && ReturnedAs(payload, m, keys, padded);
    LinesRender(keys, m);
    P.PayloadDecodes(payload, Lines(keys, m), m, padded);
  }

  /** applyPlugin makes the check true exactly when it created the plugin or found it enabled and not of the
      standalone kind, and every desired value survives its line; otherwise the step stays pending after every
      successful Apply. */
  lemma PluginUpdateConvergesIff(p: Option<Plugin>, id: string, payload: string, api: string, digest: string,
                                 values: map<string, string>)
    requires (forall k | k in Desired(values) :: KeyOk(k)) && Returned(payload, Desired(values))
    ensures PluginDone(Some(PluginApplied(p, id, payload, api, digest)), values, api) <==>
              && (p.None? || (!p.value.disabled && !p.value.standalone))
              && forall k | k in Desired(values) :: LineSafe(Desired(values)[k])
  {
    hide Stored, Desired, Returned, KeyOk, LineSafe;
    if forall k | k in Desired(values) :: LineSafe(Desired(values)[k]) {
      SafeLinesReadBack(payload, Desired(values));
    } else {
      StoredIsLineSafe(payload);
    }
  }

  /** A token with a space or a line break at its end - accepted by the config, kept by the desired credentials -
      is never the stored one: no payload whatever makes the check true. */
  lemma PaddedTokenNeverConverges(p: Plugin, token: string, pad: char, api: string)
    requires IsSpace(pad)
    ensures !PluginDone(Some(p), map["CF_Token" := token + [pad]], api)
  {
    var values := map["CF_Token" := token + [pad]];
    assert Desired(values)["CF_Token"] == token + [pad];
    StoredIsLineSafe(p.data);
    assert !LineSafe(token + [pad]);
  }

  // ----- acmedomain slots

  datatype Domain = Domain(index: nat, domain: string, plugin: string)

  function Indexes(existing: seq<Domain>): set<nat> {
    set d | d in existing :: d.index
  }

  function FirstSlot(existing: seq<Domain>, fqdn: string): Option<nat> {
    if existing == [] then None
    else if existing[0].domain == fqdn then Some(existing[0].index)
    else FirstSlot(existing[1..], fqdn)
  }

  /** slotFor: the slot already carrying the name, else the least unused index - found within one probe per
      existing slot, plus one. */
  method SlotFor(existing: seq<Domain>, fqdn: string) returns (idx: nat, ghost probes: nat)
    ensures FirstSlot(existing, fqdn).Some? ==> idx == FirstSlot(existing, fqdn).value
    ensures FirstSlot(existing, fqdn).None? ==>
              idx !in Indexes(existing) && forall i: nat | i < idx :: i in Indexes(existing)
    ensures probes <= |existing| + 1
  {
    probes := 0;
    var used: set<nat> := {};
    for k := 0 to |existing|
      invariant FirstSlot(existing[k..], fqdn) == FirstSlot(existing, fqdn)
      invariant used == Indexes(existing[..k])
    {
      assert existing[k..][0] == existing[k] && existing[k..][1..] == existing[k + 1..];
      assert existing[..k + 1] == existing[..k] + [existing[k]];
      if existing[k].domain == fqdn {
        return existing[k].index, 0;
      }
      used := used + {existing[k].index};
    }
    assert existing[..|existing|] == existing;
    IndexesBounded(existing);
    idx, probes := 0, 1;
    while idx in used
      invariant forall i: nat | i < idx :: i in used
      invariant probes == idx + 1 && idx <= |used|
      decreases |used| + 1 - idx
    {
      InitialSegment(used, idx + 1);
      idx, probes := idx + 1, probes + 1;
    }
  }

  lemma {:induction false} IndexesBounded(existing: seq<Domain>)
    ensures |Indexes(existing)| <= |existing|
  {
    if existing != [] {
      var n := |existing| - 1;
      IndexesBounded(existing[..n]);
      assert existing == existing[..n] + [existing[n]];
      assert Indexes(existing) == Indexes(existing[..n]) + {existing[n].index};
    }
  }

  /** A set holding 0..n-1 has at least n elements. */
  lemma {:induction false} InitialSegment(s: set<nat>, n: nat)
    requires forall i: nat | i < n :: i in s
    ensures n <= |s|
  {
    if n > 0 {
      InitialSegment(s - {n - 1}, n - 1);
    }
  }

  lemma {:induction false} FirstSlotFound(existing: seq<Domain>, fqdn: string)
    ensures FirstSlot(existing, fqdn).None? <==> forall d | d in existing :: d.domain != fqdn
    ensures FirstSlot(existing, fqdn).Some? ==>
              exists d | d in existing :: d.domain == fqdn && d.index == FirstSlot(existing, fqdn).value
  {
    if existing != [] {
      FirstSlotFound(existing[1..], fqdn);
      assert forall d | d in existing :: d == existing[0] || d in existing[1..];
    }
  }

  /** One node's stored configuration: the account it uses and its slots by index. */
  datatype NodeConfig = NodeConfig(account: string, slots: map<nat, (string, string)>)

  /** A listing of the slots, in whatever order the server returns them. */
  ghost predicate Lists(existing: seq<Domain>, slots: map<nat, (string, string)>) {
    && (forall d | d in existing :: d.index in slots && slots[d.index] == (d.domain, d.plugin))
    && (forall i | i in slots :: Domain(i, slots[i].0, slots[i].1) in existing)
  }

  ghost predicate DomainDone(cfg: NodeConfig, fqdn: string, plugin: string) {
    cfg.account == ACCOUNT && exists i | i in cfg.slots :: cfg.slots[i] == (fqdn, plugin)
  }

  function HeldSlots(cfg: NodeConfig, fqdn: string): set<nat> {
    set i | i in cfg.slots && cfg.slots[i].0 == fqdn
  }

  /** A slot the name already holds, or with none the least unused one. */
  ghost predicate SlotChosen(cfg: NodeConfig, fqdn: string, idx: nat) {
    if HeldSlots(cfg, fqdn) == {} then idx !in cfg.slots && forall i: nat | i < idx :: i in cfg.slots
    else idx in HeldSlots(cfg, fqdn)
  }

  /** applyDomain: one slot written, the others as they were; the check then holds, and a name that held at
      most one slot holds exactly one. */
  method ApplyDomain(cfg: NodeConfig, existing: seq<Domain>, fqdn: string, plugin: string) returns (cfg': NodeConfig)
    requires Lists(existing, cfg.slots)
    ensures DomainDone(cfg', fqdn, plugin)
    ensures exists idx: nat ::
              SlotChosen(cfg, fqdn, idx) && cfg' == NodeConfig(ACCOUNT, cfg.slots[idx := (fqdn, plugin)])
    ensures |HeldSlots(cfg', fqdn)| == if |HeldSlots(cfg, fqdn)| == 0 then 1 else |HeldSlots(cfg, fqdn)|
  {
    ghost var probes;
    var idx;
    idx, probes := SlotFor(existing, fqdn);
    FirstSlotFound(existing, fqdn);
    assert forall i: nat :: i in Indexes(existing) <==> i in cfg.slots;
    cfg' := NodeConfig(ACCOUNT, cfg.slots[idx := (fqdn, plugin)]);
    assert cfg'.slots[idx] == (fqdn, plugin);
    if FirstSlot(existing, fqdn).None? {
      assert HeldSlots(cfg, fqdn) == {} by {
        forall i | i in cfg.slots ensures cfg.slots[i].0 != fqdn {
          assert Domain(i, cfg.slots[i].0, cfg.slots[i].1) in existing;
        }
      }
      assert HeldSlots(cfg', fqdn) == {idx} && SlotChosen(cfg, fqdn, idx);
    } else {
      assert idx in HeldSlots(cfg, fqdn) && SlotChosen(cfg, fqdn, idx);
      assert HeldSlots(cfg', fqdn) == HeldSlots(cfg, fqdn);
    }
  }

  // ----- the certificate machine

  datatype Certificate = Certificate(filename: string, san: set<string>, notAfter: int, issuer: string)

  /** issuerMatchesCA: only production rejects, and only staging issuers. */
  predicate IssuerMatches(directory: string, issuer: string) {
    (directory != "" && directory != LE_PRODUCTION) || !Contains(issuer, "(STAGING)")
  }

  predicate Covers(c: Certificate, fqdn: string, directory: string) {
    fqdn in c.san && IssuerMatches(directory, c.issuer)
  }

  /** certCheck: some installed certificate covers the name with enough validity left. */
  ghost predicate CertDone(certs: seq<Certificate>, fqdn: string, directory: string, deadline: int) {
    exists c | c in certs :: Covers(c, fqdn, directory) && c.notAfter > deadline
  }

  datatype Action = Order | Renew | Replace

  function Frontend(certs: seq<Certificate>): Option<Certificate> {
    if certs == [] then None
    else if certs[0].filename == FRONTEND then Some(certs[0])
    else Frontend(certs[1..])
  }

  method CertActionFor(certs: seq<Certificate>, fqdn: string, directory: string) returns (a: Action)
    ensures a == ActionOf(certs, fqdn, directory)
    ensures a == Order <==> Frontend(certs).None?
    ensures a == Renew <==> Frontend(certs).Some? && Covers(Frontend(certs).value, fqdn, directory)
  {
    for i := 0 to |certs|
      invariant Frontend(certs[i..]) == Frontend(certs)
    {
      assert certs[i..][0] == certs[i] && certs[i..][1..] == certs[i + 1..];
      if certs[i].filename != FRONTEND {
        continue;
      }
      return if Covers(certs[i], fqdn, directory) then Renew else Replace;
    }
    a := Order;
  }

  /** One write of the stage, with the certificates installed when it was issued. */
  datatype Write =
    | Ordered(before: seq<Certificate>)
    | Renewed(before: seq<Certificate>)
    | Deleted(before: seq<Certificate>)

  /** What the endpoints demand of a write, and what the stage demands of itself: an order only when no
      frontend certificate exists, a delete only of a wrong one, a renewal only of a right one. */
  ghost predicate Admissible(w: Write, fqdn: string, directory: string) {
    match w
    case Ordered(certs) => Frontend(certs).None?
    case Renewed(certs) => Frontend(certs).Some? && Covers(Frontend(certs).value, fqdn, directory)
    case Deleted(certs) => Frontend(certs).Some? && !Covers(Frontend(certs).value, fqdn, directory)
  }

  /** What a CA that issues matching, fresh certificates installs. */
  ghost predicate Issues(c: Certificate, fqdn: string, directory: string, deadline: int) {
    c.filename == FRONTEND && Covers(c, fqdn, directory) && c.notAfter > deadline
  }

  function WithoutFrontend(certs: seq<Certificate>): seq<Certificate> {
    if certs == [] then []
    else (if certs[0].filename == FRONTEND then [] else [certs[0]]) + WithoutFrontend(certs[1..])
  }

  lemma {:induction false} WithoutFrontendHasNone(certs: seq<Certificate>)
    ensures Frontend(WithoutFrontend(certs)).None?
  {
    if certs != [] {
      var rest := WithoutFrontend(certs[1..]);
      WithoutFrontendHasNone(certs[1..]);
      assert [] + rest == rest && ([certs[0]] + rest)[1..] == rest;
    }
  }

  lemma {:induction false} NothingToRemove(certs: seq<Certificate>)
    requires Frontend(certs).None?
    ensures WithoutFrontend(certs) == certs
  {
    if certs != [] { NothingToRemove(certs[1..]); }
  }

  datatype ApplyError = ReadFailed | DeleteFailed | OrderFailed | RenewFailed

  /** What certActionFor answers for these certificates. */
  function ActionOf(certs: seq<Certificate>, fqdn: string, directory: string): Action {
    match Frontend(certs)
    case None => Order
    case Some(c) => if Covers(c, fqdn, directory) then Renew else Replace
  }

  /** The certificates after an issued one took the frontend's place. */
  function Replaced(certs: seq<Certificate>, issued: Certificate): seq<Certificate> {
    WithoutFrontend(certs) + [issued]
  }

  /** How one apply ends, over the certificates it found: every write may be refused, or take effect and have its
      answer - or the wait for its worker - lost. */
  function Applied(certs: seq<Certificate>, action: Action, issued: Certificate, readable: bool, deletion: Ending,
                   issuance: Ending)
    : (seq<Certificate>, Option<ApplyError>)
  {
    if !readable then (certs, Some(ReadFailed))
    else if action == Replace && deletion != Fine then
      (if deletion == Lost then WithoutFrontend(certs) else certs, Some(DeleteFailed))
    else if issuance == Rejected then
      (if action == Replace then WithoutFrontend(certs) else certs,
       Some(if action == Renew then RenewFailed else OrderFailed))
    else
      (Replaced(certs, issued),
       if issuance == Fine then None else Some(if action == Renew then RenewFailed else OrderFailed))
  }

  /** The writes of one apply, each with the certificates it is issued over. */
  function Written(certs: seq<Certificate>, action: Action, readable: bool, deletion: Ending): seq<Write> {
    if !readable then []
    else
      match action
      case Renew => [Renewed(certs)]
      case Order => [Ordered(certs)]
      case Replace => [Deleted(certs)] + if deletion == Fine then [Ordered(WithoutFrontend(certs))] else []
  }

  lemma ReplacedTwice(certs: seq<Certificate>, issued: Certificate)
    ensures Replaced(WithoutFrontend(certs), issued) == Replaced(certs, issued)
  {
    WithoutFrontendHasNone(certs);
    NothingToRemove(WithoutFrontend(certs));
  }

  /** A node's installed certificates, and every write made to them. */
  class CertStore {
    var certs: seq<Certificate>
    ghost var writes: seq<Write>

    constructor (installed: seq<Certificate>)
      ensures certs == installed && writes == []
    {
      certs, writes := installed, [];
    }

    /** An order or a renewal: unless refused, the certificate arrives, whether or not the answer does. */
    method Install(w: Write, issued: Certificate, ending: Ending)
      requires w.before == certs
      modifies this
      ensures writes == old(writes) + [w]
      ensures certs == if ending == Rejected then old(certs) else Replaced(old(certs), issued)
    {
      writes := writes + [w];
      if ending != Rejected {
        certs := Replaced(certs, issued);
      }
    }

    method DeleteCustom(ending: Ending)
      modifies this
      ensures writes == old(writes) + [Deleted(old(certs))]
      ensures certs == if ending == Rejected then old(certs) else WithoutFrontend(old(certs))
    {
      writes := writes + [Deleted(certs)];
      if ending != Rejected {
        certs := WithoutFrontend(certs);
      }
    }

    /** applyOrder: the writes, the certificates and the error are exactly those of its branch and of how its
        writes ended. */
    method ApplyOrder(fqdn: string, directory: string, issued: Certificate, readable: bool, deletion: Ending,
                      issuance: Ending)
      returns (err: Option<ApplyError>)
      modifies this
      ensures (certs, err) ==
              Applied(old(certs), ActionOf(old(certs), fqdn, directory), issued, readable, deletion, issuance)
      ensures writes == old(writes) + Written(old(certs), ActionOf(old(certs), fqdn, directory), readable, deletion)
    {
      hide ActionOf, WithoutFrontend;
      ghost var found := certs;
      if !readable {
        return Some(ReadFailed);
      }
      var action := CertActionFor(certs, fqdn, directory);
      if action == Renew {
        Install(Renewed(certs), issued, issuance);
        return if issuance == Fine then None else Some(RenewFailed);
      }
      if action == Replace {
        DeleteCustom(deletion);
        if deletion != Fine {
          return Some(DeleteFailed);
        }
        ReplacedTwice(found, issued);
      }
      Install(Ordered(certs), issued, issuance);
      err := if issuance == Fine then None else Some(OrderFailed);
    }
  }

  /** Every write of an apply is admissible where it is issued. */
  lemma WritesAdmissible(certs: seq<Certificate>, fqdn: string, directory: string, readable: bool, deletion: Ending)
    ensures forall w | w in Written(certs, ActionOf(certs, fqdn, directory), readable, deletion) ::
            Admissible(w, fqdn, directory)
  {
    hide Covers;
    WithoutFrontendHasNone(certs);
  }

  /** Under a CA that issues matching, fresh certificates a success - and a lost answer to an order or a renewal -
      leaves the check true; and whatever fails, no certificate but the frontend one is touched. */
  lemma ApplyConverges(certs: seq<Certificate>, fqdn: string, directory: string, deadline: int, issued: Certificate,
                       readable: bool, deletion: Ending, issuance: Ending)
    requires Issues(issued, fqdn, directory, deadline)
    ensures var (after, err) := Applied(certs, ActionOf(certs, fqdn, directory), issued, readable, deletion, issuance);
            && (err.None? ==> CertDone(after, fqdn, directory, deadline))
            && (err == Some(OrderFailed) || err == Some(RenewFailed) ==> issuance == Lost ==>
                CertDone(after, fqdn, directory, deadline))
            && WithoutFrontend(after) == WithoutFrontend(certs)
  {
    assert Replaced(certs, issued)[|WithoutFrontend(certs)|] == issued;
    WithoutFrontendHasNone(certs);
    NothingToRemove(WithoutFrontend(certs));
    WithoutFrontendConcat(WithoutFrontend(certs), issued);
  }

  lemma {:induction false} WithoutFrontendConcat(certs: seq<Certificate>, issued: Certificate)
    requires issued.filename == FRONTEND
    ensures WithoutFrontend(certs + [issued]) == WithoutFrontend(certs)
  {
    if certs == [] {
      assert [] + [issued] == [issued];
    } else {
      WithoutFrontendConcat(certs[1..], issued);
      assert (certs + [issued])[1..] == certs[1..] + [issued];
    }
  }

  /** The certificate served: the first of the frontend's file. */
  lemma {:induction false} FrontendInstalled(certs: seq<Certificate>)
    ensures Frontend(certs).Some? ==> exists i | 0 <= i < |certs| ::
              && certs[i] == Frontend(certs).value && certs[i].filename == FRONTEND
              && forall j | 0 <= j < i :: certs[j].filename != FRONTEND
    ensures Frontend(certs).None? <==> forall c | c in certs :: c.filename != FRONTEND
  {
    if certs != [] {
      var rest := certs[1..];
      FrontendInstalled(rest);
      assert forall c | c in certs :: c == certs[0] || c in rest;
      if certs[0].filename != FRONTEND && Frontend(rest).Some? {
        var i :| 0 <= i < |rest| && rest[i] == Frontend(rest).value && rest[i].filename == FRONTEND
            && forall j | 0 <= j < i :: rest[j].filename != FRONTEND;
        assert certs[i + 1] == rest[i] && forall j | 0 < j < i + 1 :: certs[j] == rest[j - 1];
      }
    }
  }

  // ----- the staging to production flip

  predicate Production(directory: string) {
    directory == "" || directory == "https://acme-v02.api.letsencrypt.org/directory"
  }

  predicate StagingIssued(c: Certificate) {
    Contains(c.issuer, "(STAGING)")
  }

  /** The check, in the certificates' own terms: a file that names the host and lasts, and under the production CA -
      there only - was not issued by staging. */
  lemma CertDoneMeans(certs: seq<Certificate>, fqdn: string, directory: string, deadline: int)
    ensures CertDone(certs, fqdn, directory, deadline) <==> exists c | c in certs ::
              fqdn in c.san && c.notAfter > deadline && (Production(directory) ==> !StagingIssued(c))
  {
    hide Contains;
    assert forall c: Certificate ::
        IssuerMatches(directory, c.issuer) <==> (Production(directory) ==> !StagingIssued(c));
  }

  /** Flipping the config from a CA that took any issuer to production reopens a node served by a staging
      certificate; its apply deletes that certificate, orders, and leaves the check true under production. */
  lemma FlipReplaces(certs: seq<Certificate>, fqdn: string, before: string, directory: string, deadline: int,
                     issued: Certificate)
    requires !Production(before) && Production(directory)
    requires (exists c | c in certs :: fqdn in c.san && c.notAfter > deadline) && Frontend(certs).Some?
    requires forall c | c in certs && fqdn in c.san :: StagingIssued(c)
    requires Issues(issued, fqdn, directory, deadline)
    ensures CertDone(certs, fqdn, before, deadline) && !CertDone(certs, fqdn, directory, deadline)
    ensures ActionOf(certs, fqdn, directory) == Replace
    ensures Written(certs, Replace, true, Fine) == [Deleted(certs), Ordered(WithoutFrontend(certs))]
    ensures CertDone(Applied(certs, Replace, issued, true, Fine, Fine).0, fqdn, directory, deadline)
  {
    hide Contains;
    CertDoneMeans(certs, fqdn, before, deadline);
    CertDoneMeans(certs, fqdn, directory, deadline);
    FrontendInstalled(certs);
    assert !Covers(Frontend(certs).value, fqdn, directory);
    ApplyConverges(certs, fqdn, directory, deadline, issued, true, Fine, Fine);
  }

  /** A pending check that leads to a renewal means the served certificate is inside the renewal window. */
  lemma {:induction false} RenewalOnlyInsideWindow(certs: seq<Certificate>, fqdn: string, directory: string,
                                                   deadline: int)
    requires !CertDone(certs, fqdn, directory, deadline)
    requires Frontend(certs).Some? && Covers(Frontend(certs).value, fqdn, directory)
    ensures Frontend(certs).value.notAfter <= deadline
  {
    FrontendInstalled(certs);
  }

  /** The check looks at every certificate file, not only the served one: with one frontend certificate it
      holds exactly when that one is right and lasting, or some other file covers the name and lasts. */
  lemma {:induction false} CertDoneIff(certs: seq<Certificate>, fqdn: string, directory: string, deadline: int)
    requires forall c, d | c in certs && d in certs && c.filename == FRONTEND && d.filename == FRONTEND :: c == d
    ensures CertDone(certs, fqdn, directory, deadline) <==>
              || (Frontend(certs).Some? && Covers(Frontend(certs).value, fqdn, directory)
                  && Frontend(certs).value.notAfter > deadline)
              || (exists c | c in certs ::
                    c.filename != FRONTEND && Covers(c, fqdn, directory) && c.notAfter > deadline)
  {
    FrontendInstalled(certs);
  }

  /** So another file that covers the name hides a missing frontend certificate: nothing is ever ordered. */
  lemma OtherFileHidesMissingFrontend()
    ensures var certs := [Certificate("pve-ssl.pem", {"n1.lab"}, 100, "PVE Cluster Manager CA")];
            CertDone(certs, "n1.lab", "https://ca.lab/directory", 50) && Frontend(certs).None?
  {
    var certs := [Certificate("pve-ssl.pem", {"n1.lab"}, 100, "PVE Cluster Manager CA")];
    assert |"pve-ssl.pem"| != |FRONTEND|;
    assert |"https://ca.lab/directory"| != |LE_PRODUCTION|;
    assert Covers(certs[0], "n1.lab", "https://ca.lab/directory");
    assert certs[1..] == [];
  }
}
