/** Which address of a node is dialled (talos/apply.go): the static planes are unroutable from outside, so
    no address inside one is ever chosen. */
module Dialing {
  import opened Common
  import opened Net
  import opened Config
  import opened Resolve
  import opened Validate

  ghost predicate IsStaticPrefix(parse: Parsers, nodes: seq<TalosNode>, q: Prefix)
    requires parse.Lawful()
  {
    exists n, r | n in nodes && r in n.resolved :: !r.dhcp && parse.prefix(r.address).Some?
        && parse.prefix(r.address).value.Masked() == q
  }

  /** staticPrefixes: exactly the masked prefixes of the static interfaces, without repetition. */
  method StaticPrefixes(parse: Parsers, nodes: seq<TalosNode>) returns (prefixes: seq<Prefix>)
    requires parse.Lawful()
    ensures Distinct(prefixes) && forall q :: q in prefixes <==> IsStaticPrefix(parse, nodes, q)
    ensures forall q | q in prefixes :: q.Valid()
  {
    prefixes := [];
    for i := 0 to |nodes|
      invariant Distinct(prefixes) && forall q :: q in prefixes <==> IsStaticPrefix(parse, nodes[..i], q)
      invariant forall q | q in prefixes :: q.Valid()
    {
      var n := nodes[i];
      assert nodes[..i + 1] == nodes[..i] + [n];
      ghost var before := prefixes;
      for j := 0 to |n.resolved|
        invariant Distinct(prefixes) && forall q | q in prefixes :: q.Valid()
        invariant forall q :: q in prefixes <==> q in before || exists r | r in n.resolved[..j] ::
                    !r.dhcp && parse.prefix(r.address).Some? && parse.prefix(r.address).value.Masked() == q
      {
        var r := n.resolved[j];
        assert n.resolved[..j + 1] == n.resolved[..j] + [r];
        if r.dhcp {
          continue;
        }
        match parse.prefix(r.address)
        case None =>
        case Some(p) =>
          MaskedContains(p, p.ip);
          if p.Masked() !in prefixes {
            DistinctAppend(prefixes, p.Masked());
            prefixes := prefixes + [p.Masked()];
          }
      }
      assert n.resolved[..|n.resolved|] == n.resolved;
    }
    assert nodes[..|nodes|] == nodes;
  }

  /** Parses, and lies outside every skipped prefix. */
  predicate Dialable(parse: Parsers, skip: seq<Prefix>, a: string)
    requires forall q | q in skip :: q.Valid()
  {
    parse.addr(a).Some? && !exists q | q in skip :: q.Contains(parse.addr(a).value)
  }

  /** a is the address dialled of a list: the first dialable IPv4 address, else the first dialable address. */
  ghost predicate Picked(parse: Parsers, skip: seq<Prefix>, addresses: seq<string>, a: string)
    requires forall q | q in skip :: q.Valid()
  {
    exists k | 0 <= k < |addresses| ::
      && addresses[k] == a && Dialable(parse, skip, a)
      && (forall j | 0 <= j < k && Dialable(parse, skip, addresses[j]) ::
            parse.addr(a).value.V4? && !parse.addr(addresses[j]).value.V4?)
      && (!parse.addr(a).value.V4? ==>
            forall b | b in addresses && Dialable(parse, skip, b) :: !parse.addr(b).value.V4?)
  }

  /** dialAddress fails exactly when no address is dialable. */
  method DialAddress(parse: Parsers, addresses: seq<string>, skip: seq<Prefix>) returns (r: Option<string>)
    requires parse.Lawful() && forall q | q in skip :: q.Valid()
    ensures r.None? <==> forall a | a in addresses :: !Dialable(parse, skip, a)
    ensures r.Some? ==> Picked(parse, skip, addresses, r.value)
  {
    var fallback := "";
    ghost var at := 0;
    for i := 0 to |addresses|
      invariant forall j | 0 <= j < i && Dialable(parse, skip, addresses[j]) ::
                  !parse.addr(addresses[j]).value.V4? && fallback != ""
      invariant fallback != "" ==> at < i && addresses[at] == fallback && Dialable(parse, skip, fallback)
                                   && forall j | 0 <= j < at :: !Dialable(parse, skip, addresses[j])
    {
      var a := addresses[i];
      if !Dialable(parse, skip, a) {
        continue;
      }
      if parse.addr(a).value.V4? {
        return Some(a);
      }
      if fallback == "" {
        fallback, at := a, i;
      }
    }
    r := if fallback != "" then Some(fallback) else None;
  }

  /** One discovered cluster member. */
  datatype Member = Member(hostname: string, addresses: seq<string>)

  /** byHost: a later member with the same hostname wins. */
  function ByHost(members: seq<Member>): map<string, Member> {
    if members == [] then map[]
    else ByHost(members[..|members| - 1])[members[|members| - 1].hostname := members[|members| - 1]]
  }

  /** A host is known by the last member that reports it. */
  lemma {:induction false} ByHostReads(members: seq<Member>)
    ensures forall h :: h in ByHost(members) <==> exists m | m in members :: m.hostname == h
    ensures forall h | h in ByHost(members) :: exists i | 0 <= i < |members| ::
              && members[i] == ByHost(members)[h] && members[i].hostname == h
              && forall j | i < j < |members| :: members[j].hostname != h
  {
    if members != [] {
      var n := |members| - 1;
      var before := members[..n];
      ByHostReads(before);
      assert members == before + [members[n]];
      forall h | h in ByHost(members)
        ensures exists i | 0 <= i < |members| ::
                  && members[i] == ByHost(members)[h] && members[i].hostname == h
                  && forall j | i < j < |members| :: members[j].hostname != h
      {
        if members[n].hostname != h {
          var i :| 0 <= i < n && before[i] == ByHost(before)[h] && before[i].hostname == h
              && forall j | i < j < n :: before[j].hostname != h;
          assert members[i] == before[i] && forall j | i < j < n :: members[j] == before[j];
        }
      }
    }
  }

  datatype Failure = NoDialable(node: string) | NotFound(nodes: seq<string>)

  ghost predicate Reachable(parse: Parsers, skip: seq<Prefix>, byHost: map<string, Member>, name: string)
    requires forall q | q in skip :: q.Valid()
  {
    name in byHost && exists a | a in byHost[name].addresses :: Dialable(parse, skip, a)
  }

  /** NodeAddresses: every node's dial address, outside every static prefix of the cluster. It fails exactly when
      discovery does not know a node or reports no dialable address of one. */
  method NodeAddresses(parse: Parsers, members: seq<Member>, nodes: seq<TalosNode>)
    returns (r: Result<map<string, string>, Failure>, ghost skip: seq<Prefix>)
    requires parse.Lawful()
    ensures forall q :: q in skip <==> IsStaticPrefix(parse, nodes, q)
    ensures forall q | q in skip :: q.Valid()
    ensures r.Ok? <==> forall n | n in nodes :: Reachable(parse, skip, ByHost(members), n.name)
    ensures r.Ok? ==> r.value.Keys == set n | n in nodes :: n.name
    ensures r.Ok? ==> forall n | n in nodes ::
              n.name in ByHost(members) && Picked(parse, skip, ByHost(members)[n.name].addresses, r.value[n.name])
    ensures r.Err? && r.error.NotFound? ==> forall x ::
              x in r.error.nodes <==> x !in ByHost(members) && exists n | n in nodes :: n.name == x
    ensures r.Err? && r.error.NoDialable? ==>
              r.error.node in ByHost(members) && !Reachable(parse, skip, ByHost(members), r.error.node)
  {
    hide Picked, Dialable, ByHost, IsStaticPrefix;
    var byHost := ByHost(members);
    var avoid := StaticPrefixes(parse, nodes);
    skip := avoid;
    var addrs: map<string, string> := map[];
    var missing: seq<string> := [];
    for i := 0 to |nodes|
      invariant forall x :: x in missing <==> x !in byHost && exists n | n in nodes[..i] :: n.name == x
      invariant forall x :: x in addrs <==> x in byHost && exists n | n in nodes[..i] :: n.name == x
      invariant forall x | x in addrs ::
                  Reachable(parse, skip, byHost, x) && Picked(parse, skip, byHost[x].addresses, addrs[x])
    {
      var name := nodes[i].name;
      assert nodes[..i + 1] == nodes[..i] + [nodes[i]];
      if name !in byHost {
        missing := missing + [name];
        continue;
      }
      var addr := DialAddress(parse, byHost[name].addresses, avoid);
      if addr.None? {
        assert nodes[i] in nodes;
        r := Err(NoDialable(name));
        return;
      }
      addrs := addrs[name := addr.value];
    }
    assert nodes[..|nodes|] == nodes;
    if missing != [] {
      assert missing[0] in missing;
      r := Err(NotFound(missing));
      return;
    }
    forall n | n in nodes ensures n.name in addrs {
      assert n.name !in missing;
    }
    r := Ok(addrs);
  }

  /** A picked address lies outside every skipped prefix. */
  lemma PickedAvoids(parse: Parsers, skip: seq<Prefix>, addresses: seq<string>, a: string)
    requires (forall q | q in skip :: q.Valid()) && Picked(parse, skip, addresses, a)
    ensures a in addresses && parse.addr(a).Some? && forall q | q in skip :: !q.Contains(parse.addr(a).value)
  {}

  /** An address picked outside the static prefixes lies outside every static interface's own network, and - a
      governed address masking to its plane's - outside the cidr that governs it. */
  lemma PickedAvoidsInterface(parse: Parsers, nodes: seq<TalosNode>, skip: seq<Prefix>, addresses: seq<string>,
                              a: string, n: TalosNode, r: ResolvedInterface)
    requires parse.Lawful() && n in nodes && r in n.resolved && !r.dhcp && SoundInterface(parse, r)
    requires (forall q :: q in skip <==> IsStaticPrefix(parse, nodes, q)) && (forall q | q in skip :: q.Valid())
    requires Picked(parse, skip, addresses, a)
    ensures parse.addr(a).Some? && parse.prefix(r.address).Some?
            && !parse.prefix(r.address).value.Contains(parse.addr(a).value)
    ensures r.cidr != "" ==>
              && parse.prefix(r.cidr).Some?
              && parse.prefix(r.address).value.Masked() == parse.prefix(r.cidr).value.Masked()
              && !parse.prefix(r.cidr).value.Contains(parse.addr(a).value)
  {
    hide Picked;
    PickedAvoids(parse, skip, addresses, a);
    var p := parse.prefix(r.address).value;
    MaskedContains(p, parse.addr(a).value);
    assert IsStaticPrefix(parse, nodes, p.Masked());
    assert p.Masked() in skip;
    if r.cidr != "" {
      var c := parse.prefix(r.cidr).value;
      SameNetworkIff(c, p);
      MaskedContains(c, parse.addr(a).value);
    }
  }

  /** Written without a zone and not as a mapped IPv4 address: the forms the containment test does not see through. */
  predicate Unaliased(a: IP) {
    !a.HasZone() && !a.Mapped()
  }

  /** In a validated cluster an address NodeAddresses picks lies in no declared static plane, and in no static
      interface's network. */
  lemma ChosenAddressAvoidsPlanes(parse: Parsers, t: Talos, t': Talos, skip: seq<Prefix>, addresses: seq<string>,
                                  a: string)
    requires parse.Lawful() && Sound(parse, t, t')
    requires (forall q :: q in skip <==> IsStaticPrefix(parse, t'.nodes, q)) && (forall q | q in skip :: q.Valid())
    requires Picked(parse, skip, addresses, a)
    ensures parse.addr(a).Some?
    ensures forall w | w in t.networks && !w.dhcp ::
              parse.prefix(w.cidr).Some? && !parse.prefix(w.cidr).value.Contains(parse.addr(a).value)
    ensures forall n, r | n in t'.nodes && r in n.resolved && !r.dhcp ::
              parse.prefix(r.address).Some? && !parse.prefix(r.address).value.Contains(parse.addr(a).value)
    ensures Unaliased(parse.addr(a).value) ==>
              && (forall w | w in t.networks && !w.dhcp :: !parse.prefix(w.cidr).value.Spans(parse.addr(a).value))
              && (forall n, r | n in t'.nodes && r in n.resolved && !r.dhcp ::
                  !parse.prefix(r.address).value.Spans(parse.addr(a).value))
  {
    hide Distinct, AllMACs, LabelsOf, RuntimesOn, SoundPlanes, Picked, SoundInterface, IsStaticPrefix, Prefix.Contains,
         Prefix.Spans, NetworkFaults;
    PickedAvoids(parse, skip, addresses, a);
    forall n, r | n in t'.nodes && r in n.resolved ensures SoundInterface(parse, r) {
      SoundEverywhere(parse, t, t', n, r);
    }
    forall n, r | n in t'.nodes && r in n.resolved && !r.dhcp
      ensures parse.prefix(r.address).Some? && !parse.prefix(r.address).value.Contains(parse.addr(a).value)
      ensures Unaliased(parse.addr(a).value) ==> !parse.prefix(r.address).value.Spans(parse.addr(a).value)
    {
      PickedAvoidsInterface(parse, t'.nodes, skip, addresses, a, n, r);
      ContainsIffSpans(parse.prefix(r.address).value, parse.addr(a).value);
    }
    forall w | w in t.networks && !w.dhcp
      ensures parse.prefix(w.cidr).Some? && !parse.prefix(w.cidr).value.Contains(parse.addr(a).value)
      ensures Unaliased(parse.addr(a).value) ==> !parse.prefix(w.cidr).value.Spans(parse.addr(a).value)
    {
      var n, r :| n in t'.nodes && r in n.resolved && Inherits(r, w);
      StaticPlaneHasCidr(parse, w);
      PickedAvoidsInterface(parse, t'.nodes, skip, addresses, a, n, r);
      ContainsIffSpans(parse.prefix(w.cidr).value, parse.addr(a).value);
    }
  }

  lemma StaticPlaneHasCidr(parse: Parsers, w: Network)
    requires NetworkFaults(parse, w) == [] && !w.dhcp
    ensures w.cidr != ""
  {}

  lemma SoundEverywhere(parse: Parsers, t: Talos, t': Talos, n: TalosNode, r: ResolvedInterface)
    requires parse.Lawful() && Sound(parse, t, t') && n in t'.nodes && r in n.resolved
    ensures SoundInterface(parse, r)
  {
    hide Distinct, AllMACs, LabelsOf, RuntimesOn, SoundPlanes, SoundInterface, NetworkFaults, InUse;
    var i :| 0 <= i < |t'.nodes| && t'.nodes[i] == n;
    assert SoundNode(parse, t, t.nodes[i], n);
  }

  /** Written with a zone, an address inside a skipped network is dialled. */
  lemma ZonedAddressIsDialled(parse: Parsers, net: Prefix, a: string, n: nat)
    requires parse.Lawful() && net.Valid() && net.ip.V6? && parse.addr(a) == Some(V6(n, "eth0")) && net.Spans(V6(n, ""))
    ensures Picked(parse, [net], [a], a) && net.Spans(parse.addr(a).value)
  {
    ContainsIffSpans(net, parse.addr(a).value);
    assert [a][0] == a;
  }

  /** So is an IPv4 address of a skipped network when a member reports it mapped into IPv6. */
  lemma MappedAddressIsDialled(parse: Parsers, net: Prefix, a: string, n: nat)
    requires parse.Lawful() && net.Valid() && net.ip.V4? && n < 0x1_0000_0000 && net.Spans(V4(n))
    requires parse.addr(a) == Some(V6(0xFFFF * 0x1_0000_0000 + n, ""))
    ensures Picked(parse, [net], [a], a) && net.Spans(parse.addr(a).value)
  {
    ContainsIffSpans(net, parse.addr(a).value);
    assert [a][0] == a;
  }
}
