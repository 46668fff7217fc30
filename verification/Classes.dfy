/** Template classes (talos/machineconfig.go): one machineconfig template per role and label set, one interface
    shape per role. */
module Classes {
  import opened Common
  import opened Labels
  import opened Config
  import T = Templating

  datatype Class = Class(role: string, labels: LabelSet)

  // ----- templateClasses

  /** The label sets of a role's nodes, each key once, in first-node order. */
  ghost function RoleLabels(nodes: seq<TalosNode>, role: string): seq<LabelSet> {
    if nodes == [] then []
    else
      var n := |nodes| - 1;
      var before := RoleLabels(nodes[..n], role);
      before + if nodes[n].role == role && KeyOf(nodes[n].resolvedLabels) !in KeysOf(before)
          then [nodes[n].resolvedLabels] else []
  }

  ghost function KeysOf(sets: seq<LabelSet>): set<string> {
    set s | s in sets :: KeyOf(s)
  }

  ghost function RoleClasses(nodes: seq<TalosNode>, role: string): seq<Class> {
    var sets := RoleLabels(nodes, role);
    if sets == [] then [Class(role, map[])] else AsClasses(role, sets)
  }

  function AsClasses(role: string, sets: seq<LabelSet>): seq<Class> {
    seq(|sets|, i requires 0 <= i < |sets| => Class(role, sets[i]))
  }

  lemma KeysOfAppend(sets: seq<LabelSet>, s: LabelSet)
    ensures KeysOf(sets + [s]) == KeysOf(sets) + {KeyOf(s)}
  {
    assert forall x | x in sets + [s] :: x in sets || x == s;
    assert s in sets + [s];
    assert forall x | x in sets :: x in sets + [s];
  }

  lemma RoleLabelsStep(nodes: seq<TalosNode>, role: string, i: nat)
    requires i < |nodes|
    ensures var before, labels := RoleLabels(nodes[..i], role), nodes[i].resolvedLabels;
            && RoleLabels(nodes[..i + 1], role) ==
                 (if nodes[i].role == role && KeyOf(labels) !in KeysOf(before) then before + [labels] else before)
            && AsClasses(role, before + [labels]) == AsClasses(role, before) + [Class(role, labels)]
  {
    hide KeyOf, KeysOf;
    assert nodes[..i + 1][..i] == nodes[..i];
    var before := RoleLabels(nodes[..i], role);
    assert before + [] == before;
  }

  /** One role's pass over the nodes. */
  method ClassesOfRole(nodes: seq<TalosNode>, role: string) returns (classes: seq<Class>)
    ensures classes == RoleClasses(nodes, role)
  {
    hide KeyOf, KeysOf, RoleLabels, AsClasses;
    classes := [];
    var seen: set<string> := {};
    ghost var sets: seq<LabelSet> := [];
    NoLabelsYet(nodes, role);
    for i := 0 to |nodes|
      invariant sets == RoleLabels(nodes[..i], role) && classes == AsClasses(role, sets) && seen == KeysOf(sets)
    {
      var labels := nodes[i].resolvedLabels;
      RoleLabelsStep(nodes, role, i);
      var key := LabelSetKey(labels);
      if nodes[i].role == role && key !in seen {
        KeysOfAppend(sets, labels);
        seen := seen + {key};
        classes := classes + [Class(role, labels)];
        sets := sets + [labels];
      }
    }
    assert nodes[..|nodes|] == nodes;
    KeysOfEmpty(sets);
    if |seen| == 0 {
      classes := classes + [Class(role, map[])];
    }
  }

  lemma NoLabelsYet(nodes: seq<TalosNode>, role: string)
    ensures RoleLabels(nodes[..0], role) == [] && AsClasses(role, []) == [] && KeysOf([]) == {}
  {}

  lemma KeysOfEmpty(sets: seq<LabelSet>)
    ensures KeysOf(sets) == {} <==> sets == []
    ensures AsClasses("", []) == [] && forall role :: AsClasses(role, []) == []
  {
    assert sets == [] || KeyOf(sets[0]) in KeysOf(sets);
  }

  /** templateClasses: the control-plane classes, then the worker classes. */
  method TemplateClasses(nodes: seq<TalosNode>) returns (classes: seq<Class>)
    ensures classes == RoleClasses(nodes, CONTROL_PLANE) + RoleClasses(nodes, WORKER)
  {
    var control := ClassesOfRole(nodes, CONTROL_PLANE);
    var worker := ClassesOfRole(nodes, WORKER);
    classes := control + worker;
  }

  ghost predicate AllSeparable(nodes: seq<TalosNode>) {
    forall n | n in nodes :: SeparableSet(n.resolvedLabels)
  }

  ghost predicate SomeNode(nodes: seq<TalosNode>, role: string, labels: LabelSet) {
    exists n | n in nodes :: n.role == role && n.resolvedLabels == labels
  }

  /** On validated labels a role's list holds each of its nodes' label sets exactly once. */
  lemma {:induction false} RoleLabelsAreTheSets(nodes: seq<TalosNode>, role: string)
    requires AllSeparable(nodes)
    ensures Distinct(RoleLabels(nodes, role))
    ensures forall s :: s in RoleLabels(nodes, role) <==> SomeNode(nodes, role, s)
    ensures forall s | s in RoleLabels(nodes, role) :: SeparableSet(s)
  {
    if nodes != [] {
      var n := |nodes| - 1;
      var before, labels := RoleLabels(nodes[..n], role), nodes[n].resolvedLabels;
      assert nodes == nodes[..n] + [nodes[n]];
      RoleLabelsAreTheSets(nodes[..n], role);
      forall s | s in before ensures KeyOf(s) == KeyOf(labels) <==> s == labels {
        LabelSetKeyInjective(s, labels);
      }
      assert KeyOf(labels) in KeysOf(before) <==> labels in before;
    }
  }

  /** Each class - a role and the label set some node of it carries, or the unlabelled class of a role without
      nodes - is listed exactly once. */
  lemma ClassesListedOnce(nodes: seq<TalosNode>)
    requires AllSeparable(nodes)
    ensures var classes := RoleClasses(nodes, CONTROL_PLANE) + RoleClasses(nodes, WORKER);
            && Distinct(classes)
            && forall c: Class :: c in classes <==>
                 && (c.role == CONTROL_PLANE || c.role == WORKER)
                 && (SomeNode(nodes, c.role, c.labels)
                     || (c.labels == map[] && forall n | n in nodes :: n.role != c.role))
  {
    assert CONTROL_PLANE != WORKER by { assert CONTROL_PLANE[0] != WORKER[0]; }
    var a, b := RoleClasses(nodes, CONTROL_PLANE), RoleClasses(nodes, WORKER);
    RoleClassesExact(nodes, CONTROL_PLANE);
    RoleClassesExact(nodes, WORKER);
    forall i, j | 0 <= i < j < |a + b| ensures (a + b)[i] != (a + b)[j] {
      if i < |a| && |a| <= j {
        assert a[i] in a && b[j - |a|] in b;
      }
    }
  }

  lemma RoleClassesExact(nodes: seq<TalosNode>, role: string)
    requires AllSeparable(nodes)
    ensures Distinct(RoleClasses(nodes, role))
    ensures forall c :: c in RoleClasses(nodes, role) <==>
              c.role == role
              && (SomeNode(nodes, role, c.labels) || (c.labels == map[] && forall n | n in nodes :: n.role != role))
  {
    var sets := RoleLabels(nodes, role);
    RoleLabelsAreTheSets(nodes, role);
    assert sets == [] <==> forall n | n in nodes :: n.role != role by {
      if sets == [] {
        forall n | n in nodes ensures n.role != role {
          assert n.role == role ==> SomeNode(nodes, role, n.resolvedLabels) && n.resolvedLabels in sets;
        }
      }
      if sets != [] { assert sets[0] in sets && SomeNode(nodes, role, sets[0]); }
    }
    forall c ensures c in AsClasses(role, sets) <==> c.role == role && c.labels in sets {
      if c.role == role && c.labels in sets {
        var i :| 0 <= i < |sets| && sets[i] == c.labels;
        assert AsClasses(role, sets)[i] == c;
      }
    }
  }

  // ----- Templates.For

  datatype ClassTemplate = ClassTemplate(role: string, labels: LabelSet, data: string)

  /** For: the first class of the role whose labels have the key. */
  ghost function Lookup(classes: seq<ClassTemplate>, role: string, labels: LabelSet): Option<string> {
    if classes == [] then None
    else if classes[0].role == role && KeyOf(classes[0].labels) == KeyOf(labels) then Some(classes[0].data)
    else Lookup(classes[1..], role, labels)
  }

  method For(classes: seq<ClassTemplate>, role: string, labels: LabelSet) returns (r: Option<string>)
    ensures r == Lookup(classes, role, labels)
  {
    var key := LabelSetKey(labels);
    for i := 0 to |classes|
      invariant Lookup(classes[i..], role, labels) == Lookup(classes, role, labels)
    {
      assert classes[i..][0] == classes[i] && classes[i..][1..] == classes[i + 1..];
      if classes[i].role == role {
        var other := LabelSetKey(classes[i].labels);
        if other == key {
          return Some(classes[i].data);
        }
      }
    }
    assert classes[|classes|..] == [];
    r := None;
  }

  /** On validated labels the lookup finds the class of exactly these labels, if listed. */
  lemma {:induction false} LookupIsExact(classes: seq<ClassTemplate>, role: string, labels: LabelSet)
    requires SeparableSet(labels) && forall c | c in classes :: SeparableSet(c.labels)
    ensures Lookup(classes, role, labels).None? <==> forall c | c in classes :: !(c.role == role && c.labels == labels)
    ensures Lookup(classes, role, labels).Some? ==>
              exists c | c in classes :: c.role == role && c.labels == labels
                  && c.data == Lookup(classes, role, labels).value
  {
    if classes != [] {
      assert classes[0] in classes;
      LabelSetKeyInjective(classes[0].labels, labels);
      LookupIsExact(classes[1..], role, labels);
      assert forall c | c in classes :: c == classes[0] || c in classes[1..];
    }
  }

  // ----- roleShapes

  function NodeShape(nics: seq<ResolvedInterface>): seq<T.SlotShape> {
    seq(|nics|, i requires 0 <= i < |nics| => T.SlotShape(nics[i].slot, nics[i].dhcp, nics[i].mtu))
  }

  /** The same slots, each in the same mode and with the same mtu. */
  ghost predicate SameShape(a: seq<ResolvedInterface>, b: seq<ResolvedInterface>) {
    |a| == |b| && forall i | 0 <= i < |a| :: a[i].slot == b[i].slot && a[i].dhcp == b[i].dhcp && a[i].mtu == b[i].mtu
  }

  lemma ShapesEqualIff(a: seq<ResolvedInterface>, b: seq<ResolvedInterface>)
    ensures NodeShape(a) == NodeShape(b) <==> SameShape(a, b)
  {
    if NodeShape(a) == NodeShape(b) {
      assert |NodeShape(a)| == |NodeShape(b)|;
      forall i | 0 <= i < |a| ensures a[i].slot == b[i].slot && a[i].dhcp == b[i].dhcp && a[i].mtu == b[i].mtu {
        assert NodeShape(a)[i] == NodeShape(b)[i];
      }
    }
  }

  /** Nodes of one role agree on their interfaces' shape; MACs and addresses are each node's own. */
  ghost predicate Uniform(nodes: seq<TalosNode>) {
    forall a, b | a in nodes && b in nodes && a.role == b.role :: SameShape(a.resolved, b.resolved)
  }

  lemma AllAlike(nodes: seq<TalosNode>, shapes: map<string, seq<T.SlotShape>>)
    requires forall n | n in nodes :: n.role in shapes && shapes[n.role] == NodeShape(n.resolved)
    ensures Uniform(nodes)
  {
    hide NodeShape, SameShape;
    forall a, b | a in nodes && b in nodes && a.role == b.role ensures SameShape(a.resolved, b.resolved) {
      ShapesEqualIff(a.resolved, b.resolved);
    }
  }

  /** One of the first i nodes has the role and the name. */
  ghost predicate Owned(nodes: seq<TalosNode>, i: nat, role: string, name: string)
    requires i <= |nodes|
  {
    exists k | 0 <= k < i :: nodes[k].role == role && nodes[k].name == name
  }

  lemma OwnersKept(nodes: seq<TalosNode>, i: nat)
    requires i < |nodes|
    ensures Owned(nodes, i + 1, nodes[i].role, nodes[i].name)
    ensures forall role, name | Owned(nodes, i, role, name) :: Owned(nodes, i + 1, role, name)
  {}

  lemma Diverging(nodes: seq<TalosNode>, i: nat, shape: seq<T.SlotShape>, name: string)
    requires i < |nodes| && NodeShape(nodes[i].resolved) != shape && Owned(nodes, i, nodes[i].role, name)
    requires forall k | 0 <= k < i && nodes[k].role == nodes[i].role :: NodeShape(nodes[k].resolved) == shape
    ensures !Uniform(nodes)
    ensures exists a, b | a in nodes && b in nodes ::
              a.role == b.role && !SameShape(a.resolved, b.resolved)
              && Divergence(nodes[i].name, name) == Divergence(b.name, a.name)
  {
    var k :| 0 <= k < i && nodes[k].role == nodes[i].role && nodes[k].name == name;
    ShapesEqualIff(nodes[k].resolved, nodes[i].resolved);
    assert nodes[k] in nodes && nodes[i] in nodes;
  }

  datatype Divergence = Divergence(node: string, owner: string)

  /** roleShapes: every role's one shape - or, exactly when two nodes of a role differ, an error naming two. */
  method RoleShapes(nodes: seq<TalosNode>) returns (r: Result<map<string, seq<T.SlotShape>>, Divergence>)
    ensures r.Ok? <==> Uniform(nodes)
    ensures r.Ok? ==>
              r.value.Keys == (set n | n in nodes :: n.role)
              && forall n | n in nodes :: r.value[n.role] == NodeShape(n.resolved)
    ensures r.Err? ==> exists a, b | a in nodes && b in nodes ::
              a.role == b.role && !SameShape(a.resolved, b.resolved) && r.error == Divergence(b.name, a.name)
  {
    hide NodeShape, SameShape, Owned, Uniform;
    var shapes: map<string, seq<T.SlotShape>> := map[];
    var owners: map<string, string> := map[];
    for i := 0 to |nodes|
      invariant shapes.Keys == owners.Keys == set n | n in nodes[..i] :: n.role
      invariant forall k | 0 <= k < i ::
                  nodes[k].role in shapes && shapes[nodes[k].role] == NodeShape(nodes[k].resolved)
      invariant forall role | role in owners :: Owned(nodes, i, role, owners[role])
    {
      var n := nodes[i];
      OwnersKept(nodes, i);
      assert nodes[..i + 1] == nodes[..i] + [n];
      var shape := NodeShape(n.resolved);
      if n.role !in shapes {
        shapes, owners := shapes[n.role := shape], owners[n.role := n.name];
        continue;
      }
      if shapes[n.role] != shape {
        Diverging(nodes, i, shapes[n.role], owners[n.role]);
        return Err(Divergence(n.name, owners[n.role]));
      }
    }
    assert nodes[..|nodes|] == nodes;
    AllAlike(nodes, shapes);
    r := Ok(shapes);
  }
}
