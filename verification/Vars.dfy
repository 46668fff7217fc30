/** Template vars (emit/catalog.go's groupVars, emit/nodeconfig.go): what a node's machine config is rendered
    with, and why every expression templatize leaves behind reads a defined var. */
module Vars {
  import opened Common
  import opened Config
  import opened Classes
  import opened Resolve
  import T = Templating

  datatype Var = Var(key: string, value: string)

  function SlotVars(nics: seq<ResolvedInterface>, n: nat): seq<Var>
    requires n <= |nics|
  {
    if n == 0 then []
    else
      var nic := nics[n - 1];
      SlotVars(nics, n - 1) + [Var(T.MACVarKey(nic.slot), nic.mac)]
      + if nic.dhcp then [] else [Var(T.AddressVarKey(nic.slot), nic.address)]
  }

  /** A single-interface node has no interface vars. */
  function InterfaceVarsOf(nics: seq<ResolvedInterface>): seq<Var> {
    if |nics| <= 1 then [] else SlotVars(nics, |nics|)
  }

  function GroupVarsOf(n: TalosNode): seq<Var> {
    [Var(T.HOSTNAME_KEY, n.name)] + InterfaceVarsOf(n.resolved)
  }

  method InterfaceVars(nics: seq<ResolvedInterface>) returns (vars: seq<Var>)
    ensures vars == InterfaceVarsOf(nics)
  {
    vars := [];
    if |nics| <= 1 {
      return;
    }
    for i := 0 to |nics|
      invariant vars == SlotVars(nics, i)
    {
      vars := vars + [Var(T.MACVarKey(nics[i].slot), nics[i].mac)];
      if !nics[i].dhcp {
        vars := vars + [Var(T.AddressVarKey(nics[i].slot), nics[i].address)];
      }
    }
  }

  /** Assignments in order; a later one wins. */
  function WithVars(m: map<string, string>, vars: seq<Var>): map<string, string> {
    if vars == [] then m else WithVars(m, vars[..|vars| - 1])[vars[|vars| - 1].key := vars[|vars| - 1].value]
  }

  function ClassVars(role: string, image: string): map<string, string> {
    map[T.ROLE_KEY := role, T.INSTALL_IMAGE_KEY := image]
  }

  /** The var map NodeConfigs builds. */
  function NodeVars(n: TalosNode, image: string): map<string, string> {
    WithVars(ClassVars(n.role, image), GroupVarsOf(n))
  }

  method AssembleVars(n: TalosNode, image: string) returns (vars: map<string, string>)
    ensures vars == NodeVars(n, image)
  {
    vars := map[T.ROLE_KEY := n.role, T.INSTALL_IMAGE_KEY := image];
    var iface := InterfaceVars(n.resolved);
    var group := [Var(T.HOSTNAME_KEY, n.name)] + iface;
    for i := 0 to |group|
      invariant vars == WithVars(ClassVars(n.role, image), group[..i])
    {
      assert group[..i + 1][..i] == group[..i];
      vars := vars[group[i].key := group[i].value];
    }
    assert group[..|group|] == group;
  }

  // ----- the keys are distinct

  function KeysIn(vars: seq<Var>): seq<string> {
    seq(|vars|, i requires 0 <= i < |vars| => vars[i].key)
  }

  predicate EndsIn(s: string, c: char) {
    s != "" && s[|s| - 1] == c
  }

  lemma KeyTails(a: string, b: string)
    ensures T.MACVarKey(a) == T.MACVarKey(b) <==> a == b
    ensures T.AddressVarKey(a) == T.AddressVarKey(b) <==> a == b
    ensures T.MACVarKey(a) != T.AddressVarKey(b)
    ensures EndsIn(T.MACVarKey(a), 'c') && EndsIn(T.AddressVarKey(a), 's')
  {
    var m, n, d, e := T.MACVarKey(a), T.MACVarKey(b), T.AddressVarKey(a), T.AddressVarKey(b);
    assert m[..|m| - 4] == a && n[..|n| - 4] == b && d[..|d| - 8] == a && e[..|e| - 8] == b;
    assert m[|m| - 1] == 'c' && e[|e| - 1] == 's' && d[|d| - 1] == 's';
  }

  /** The var is keyed by one of the first n slots. */
  ghost predicate KeyedBySlot(v: Var, nics: seq<ResolvedInterface>, n: nat)
    requires n <= |nics|
  {
    exists j | 0 <= j < n :: v.key == T.MACVarKey(nics[j].slot) || v.key == T.AddressVarKey(nics[j].slot)
  }

  lemma LaterSlotFresh(v: Var, nics: seq<ResolvedInterface>, n: nat)
    requires n < |nics| && Distinct(Slots(nics)) && KeyedBySlot(v, nics, n)
    ensures v.key != T.MACVarKey(nics[n].slot) && v.key != T.AddressVarKey(nics[n].slot)
    ensures KeyedBySlot(v, nics, n + 1)
  {
    hide T.MACVarKey, T.AddressVarKey;
    var j :| 0 <= j < n && (v.key == T.MACVarKey(nics[j].slot) || v.key == T.AddressVarKey(nics[j].slot));
    assert Slots(nics)[j] != Slots(nics)[n];
    KeyTails(nics[j].slot, nics[n].slot);
    KeyTails(nics[n].slot, nics[j].slot);
  }

  /** Every interface key belongs to one slot. */
  lemma {:induction false} SlotKeys(nics: seq<ResolvedInterface>, n: nat)
    requires n <= |nics| && Distinct(Slots(nics))
    ensures forall v | v in SlotVars(nics, n) :: KeyedBySlot(v, nics, n)
    ensures Distinct(KeysIn(SlotVars(nics, n)))
  {
    hide T.MACVarKey, T.AddressVarKey, KeyedBySlot;
    if n > 0 {
      var before, nic := SlotVars(nics, n - 1), nics[n - 1];
      SlotKeys(nics, n - 1);
      forall v | v in before
        ensures v.key != T.MACVarKey(nic.slot) && v.key != T.AddressVarKey(nic.slot) && KeyedBySlot(v, nics, n)
      {
        LaterSlotFresh(v, nics, n - 1);
      }
      SlotKeyPair(before, nic);
      OwnKeys(nics, n);
    }
  }

  lemma OwnKeys(nics: seq<ResolvedInterface>, n: nat)
    requires 0 < n <= |nics|
    ensures KeyedBySlot(Var(T.MACVarKey(nics[n - 1].slot), nics[n - 1].mac), nics, n)
    ensures KeyedBySlot(Var(T.AddressVarKey(nics[n - 1].slot), nics[n - 1].address), nics, n)
  {}

  lemma SlotKeyPair(before: seq<Var>, nic: ResolvedInterface)
    requires Distinct(KeysIn(before))
    requires forall v | v in before :: v.key != T.MACVarKey(nic.slot) && v.key != T.AddressVarKey(nic.slot)
    ensures Distinct(KeysIn(before + [Var(T.MACVarKey(nic.slot), nic.mac)] +
                            if nic.dhcp then [] else [Var(T.AddressVarKey(nic.slot), nic.address)]))
  {
    hide T.MACVarKey, T.AddressVarKey, Distinct, KeysIn;
    var mac, address := Var(T.MACVarKey(nic.slot), nic.mac), Var(T.AddressVarKey(nic.slot), nic.address);
    KeyTails(nic.slot, nic.slot);
    FreshKey(before, mac);
    if nic.dhcp {
      assert before + [mac] + [] == before + [mac];
    } else {
      FreshKey(before + [mac], address);
    }
  }

  lemma FreshKey(vars: seq<Var>, v: Var)
    requires Distinct(KeysIn(vars)) && forall u | u in vars :: u.key != v.key
    ensures Distinct(KeysIn(vars + [v]))
  {
    var keys := KeysIn(vars + [v]);
    forall i, j | 0 <= i < j < |keys| ensures keys[i] != keys[j] {
      if j < |vars| {
        assert keys[i] == KeysIn(vars)[i] && keys[j] == KeysIn(vars)[j];
      } else {
        assert vars[i] in vars;
      }
    }
  }

  /** A var list with distinct keys reads back value by value, over whatever the map held before. */
  lemma {:induction false} WithVarsReads(m: map<string, string>, vars: seq<Var>)
    requires Distinct(KeysIn(vars))
    ensures forall i | 0 <= i < |vars| ::
              vars[i].key in WithVars(m, vars) && WithVars(m, vars)[vars[i].key] == vars[i].value
    ensures forall k | k in m && k !in KeysIn(vars) :: k in WithVars(m, vars) && WithVars(m, vars)[k] == m[k]
  {
    if vars != [] {
      var n := |vars| - 1;
      assert KeysIn(vars)[..n] == KeysIn(vars[..n]);
      assert forall i, j | 0 <= i < j < n :: KeysIn(vars[..n])[i] == KeysIn(vars)[i] != KeysIn(vars)[j];
      WithVarsReads(m, vars[..n]);
      assert KeysIn(vars) == KeysIn(vars[..n]) + [vars[n].key];
      forall i | 0 <= i < n ensures vars[i].key != vars[n].key { assert KeysIn(vars)[i] != KeysIn(vars)[n]; }
    }
  }

  lemma InterfaceKeys(nics: seq<ResolvedInterface>)
    requires Distinct(Slots(nics))
    ensures Distinct(KeysIn(InterfaceVarsOf(nics)))
    ensures forall v | v in InterfaceVarsOf(nics) :: EndsIn(v.key, 'c') || EndsIn(v.key, 's')
  {
    hide T.MACVarKey, T.AddressVarKey, SlotVars;
    if |nics| > 1 {
      SlotKeys(nics, |nics|);
      forall v | v in InterfaceVarsOf(nics) ensures EndsIn(v.key, 'c') || EndsIn(v.key, 's') {
        assert KeyedBySlot(v, nics, |nics|);
        var j :| 0 <= j < |nics| && (v.key == T.MACVarKey(nics[j].slot) || v.key == T.AddressVarKey(nics[j].slot));
        KeyTails(nics[j].slot, nics[j].slot);
      }
    }
  }

  lemma GroupKeysDistinct(n: TalosNode)
    requires Distinct(Slots(n.resolved))
    ensures Distinct(KeysIn(GroupVarsOf(n)))
    ensures T.ROLE_KEY !in KeysIn(GroupVarsOf(n)) && T.INSTALL_IMAGE_KEY !in KeysIn(GroupVarsOf(n))
  {
    hide InterfaceVarsOf;
    var iface := InterfaceVarsOf(n.resolved);
    InterfaceKeys(n.resolved);
    FixedKeyTails();
    GroupKeysFromInterfaces(Var(T.HOSTNAME_KEY, n.name), iface);
  }

  lemma GroupKeysFromInterfaces(host: Var, iface: seq<Var>)
    requires Distinct(KeysIn(iface)) && EndsIn(host.key, 'e')
    requires forall v | v in iface :: EndsIn(v.key, 'c') || EndsIn(v.key, 's')
    ensures Distinct(KeysIn([host] + iface))
    ensures forall k | k != host.key && EndsIn(k, 'e') :: k !in KeysIn([host] + iface)
  {
    var keys := KeysIn([host] + iface);
    assert keys == [host.key] + KeysIn(iface);
    forall i | 0 <= i < |iface| ensures !EndsIn(KeysIn(iface)[i], 'e') { assert iface[i] in iface; }
    forall i, j | 0 <= i < j < |keys| ensures keys[i] != keys[j] {
      assert keys[j] == KeysIn(iface)[j - 1];
      if i > 0 { assert keys[i] == KeysIn(iface)[i - 1]; }
    }
  }

  lemma FixedKeyTails()
    ensures T.HOSTNAME_KEY != T.ROLE_KEY && T.HOSTNAME_KEY != T.INSTALL_IMAGE_KEY && T.ROLE_KEY != T.INSTALL_IMAGE_KEY
    ensures EndsIn(T.HOSTNAME_KEY, 'e') && EndsIn(T.ROLE_KEY, 'e') && EndsIn(T.INSTALL_IMAGE_KEY, 'e')
  {
    assert T.INSTALL_IMAGE_KEY[12] == 'e';
  }

  // ----- the vars match the expressions

  lemma {:induction false} SlotSwapsMatch(nics: seq<ResolvedInterface>, n: nat)
    requires n <= |nics|
    ensures |T.SlotSwaps(NodeShape(nics), n)| == |SlotVars(nics, n)|
    ensures forall i | 0 <= i < |SlotVars(nics, n)| ::
              T.SlotSwaps(NodeShape(nics), n)[i].key == SlotVars(nics, n)[i].key
  {
    hide T.MACVarKey, T.AddressVarKey, T.MACPlaceholder, T.AddressPlaceholder;
    if n > 0 { SlotSwapsMatch(nics, n - 1); }
  }

  /** The node's values in the order of the holes: hostname, image, then each slot's identity. */
  function NodeValues(n: TalosNode, image: string): seq<string> {
    [n.name, image] + seq(|InterfaceVarsOf(n.resolved)|,
        i requires 0 <= i < |InterfaceVarsOf(n.resolved)| => InterfaceVarsOf(n.resolved)[i].value)
  }

  /** The value for a placeholder of slot j: its MAC for the MAC's, for a static slot its address for the address's. */
  predicate OwnValue(nics: seq<ResolvedInterface>, j: nat, placeholder: string, value: string)
    requires j < |nics|
  {
    || (placeholder == T.MACPlaceholder(nics[j].slot) && value == nics[j].mac)
    || (!nics[j].dhcp && placeholder == T.AddressPlaceholder(j) && value == nics[j].address)
  }

  ghost predicate SomeOwnValue(nics: seq<ResolvedInterface>, n: nat, placeholder: string, value: string)
    requires n <= |nics|
  {
    exists j | 0 <= j < n :: OwnValue(nics, j, placeholder, value)
  }

  lemma {:induction false} SlotValuesOwn(nics: seq<ResolvedInterface>, n: nat)
    requires n <= |nics|
    ensures |T.SlotSwaps(NodeShape(nics), n)| == |SlotVars(nics, n)|
    ensures forall h | 0 <= h < |SlotVars(nics, n)| ::
              SomeOwnValue(nics, n, T.SlotSwaps(NodeShape(nics), n)[h].value, SlotVars(nics, n)[h].value)
  {
    hide T.MACVarKey, T.AddressVarKey, T.MACPlaceholder, T.AddressPlaceholder;
    if n > 0 {
      var swaps, vars := T.SlotSwaps(NodeShape(nics), n), SlotVars(nics, n);
      var swaps', vars' := T.SlotSwaps(NodeShape(nics), n - 1), SlotVars(nics, n - 1);
      SlotValuesOwn(nics, n - 1);
      forall h | 0 <= h < |vars| ensures SomeOwnValue(nics, n, swaps[h].value, vars[h].value) {
        if h < |vars'| {
          assert swaps[h] == swaps'[h] && vars[h] == vars'[h];
          assert SomeOwnValue(nics, n - 1, swaps'[h].value, vars'[h].value);
        } else {
          assert NodeShape(nics)[n - 1] == T.SlotShape(nics[n - 1].slot, nics[n - 1].dhcp, nics[n - 1].mtu);
          assert OwnValue(nics, n - 1, swaps[h].value, vars[h].value);
        }
      }
    }
  }

  /** What stands at the holes: the hostname at the hostname's placeholder, the image at the image's, and at every
      slot placeholder that slot's own MAC or address. */
  lemma HolesHoldOwnValues(n: TalosNode, baked: string, image: string)
    ensures var swaps, values := T.Swaps(baked, NodeShape(n.resolved)), NodeValues(n, image);
            && |values| == |swaps|
            && swaps[0].value == T.HOSTNAME_PLACEHOLDER && values[0] == n.name
            && swaps[1].value == baked && values[1] == image
            && forall h | 2 <= h < |swaps| :: SomeOwnValue(n.resolved, |n.resolved|, swaps[h].value, values[h])
  {
    hide SomeOwnValue, T.SlotSwaps, SlotVars;
    if |n.resolved| > 1 {
      var slots := T.SlotSwaps(NodeShape(n.resolved), |n.resolved|);
      SlotValuesOwn(n.resolved, |n.resolved|);
      var swaps, values := T.Swaps(baked, NodeShape(n.resolved)), NodeValues(n, image);
      forall h | 2 <= h < |swaps|
        ensures SomeOwnValue(n.resolved, |n.resolved|, swaps[h].value, values[h])
      {
        assert swaps[h] == slots[h - 2] && values[h] == SlotVars(n.resolved, |n.resolved|)[h - 2].value;
      }
    }
  }

  /** The expressions templatize leaves in a template of the node's shape are the group's keys and the image. */
  lemma SwapsMatchGroup(n: TalosNode, baked: string)
    ensures var swaps, group := T.Swaps(baked, NodeShape(n.resolved)), GroupVarsOf(n);
            && |swaps| == |group| + 1 == |NodeValues(n, baked)|
            && swaps[0].key == group[0].key && swaps[1].key == T.INSTALL_IMAGE_KEY
            && forall i | 2 <= i < |swaps| :: swaps[i].key == group[i - 1].key
  {
    hide T.MACVarKey, T.AddressVarKey, T.MACPlaceholder, T.AddressPlaceholder, T.SlotSwaps, SlotVars;
    if |n.resolved| > 1 { SlotSwapsMatch(n.resolved, |n.resolved|); }
  }

  /** Every expression a template of the node's shape holds reads a defined var, and reads this node's value. */
  lemma EveryVarDefined(n: TalosNode, baked: string, image: string)
    requires Distinct(Slots(n.resolved))
    ensures var swaps, vars := T.Swaps(baked, NodeShape(n.resolved)), NodeVars(n, image);
            && (forall s | s in swaps :: s.key in vars)
            && T.Looked(swaps, vars) == NodeValues(n, image)
  {
    var swaps, vars, group := T.Swaps(baked, NodeShape(n.resolved)), NodeVars(n, image), GroupVarsOf(n);
    GroupKeysDistinct(n);
    WithVarsReads(ClassVars(n.role, image), group);
    SwapsMatchGroup(n, baked);
    FixedKeyTails();
    hide InterfaceVarsOf, T.Swaps, WithVars, KeysIn, EndsIn;
    forall i | 0 <= i < |swaps| ensures swaps[i].key in vars && vars[swaps[i].key] == NodeValues(n, image)[i] {
      if i == 0 {
        assert vars[group[0].key] == n.name;
      } else if i > 1 {
        assert vars[group[i - 1].key] == group[i - 1].value;
      }
    }
  }
}
