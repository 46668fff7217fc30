/** Catalog integrity (emit/catalog.go): when distinct node classes get distinct profile names and template paths. */
module Names {
  import opened Common
  import opened Labels
  import opened Config
  import opened Catalog

  predicate ValidRole(role: string) {
    role == CONTROL_PLANE || role == WORKER
  }

  ghost predicate ValidRoles(nodes: seq<TalosNode>) {
    forall n | n in nodes :: ValidRole(n.role)
  }

  /** What a name shows of a label set: nothing of the empty one, eight hash digits of any other. */
  function Abbreviated(hash: string -> string, key: string): string
    requires |hash(key)| >= 8
  {
    if key == "" then "" else hash(key)[..8]
  }

  lemma SingletonElements<X>(s: set<X>, a: X, b: X)
    requires a in s && b in s && |s| <= 1
    ensures a == b
  {
    SubsetSize({a, b}, s);
  }

  /** Two nodes of one role show the same label part exactly when their label sets abbreviate alike: a role
      that does not split has one label set. */
  lemma LabelPartsEqualIff(c: Input, i: nat, j: nat)
    requires ValidInput(c) && i < |c.nodes| && j < |c.nodes| && c.nodes[i].role == c.nodes[j].role
    ensures LabelPart(c, i) == LabelPart(c, j) <==> Abbreviated(c.hash, KeyAt(c, i)) == Abbreviated(c.hash, KeyAt(c, j))
  {
    hide KeyOf;
    var role, k, l := c.nodes[i].role, KeyAt(c, i), KeyAt(c, j);
    assert c.nodes[i] in c.nodes && c.nodes[j] in c.nodes;
    if SplitByLabels(c.nodes, role) {
      assert ("-" + c.hash(k)[..8])[1..] == c.hash(k)[..8] && ("-" + c.hash(l)[..8])[1..] == c.hash(l)[..8];
    } else {
      SingletonElements(LabelKeys(c.nodes, role), k, l);
    }
  }

  lemma SchematicPartsEqualIff(c: Input, i: nat, j: nat)
    requires ValidInput(c) && i < |c.nodes| && j < |c.nodes| && c.nodes[i].role == c.nodes[j].role
    ensures SchematicPart(c, i) == SchematicPart(c, j) <==> Short(c.perNode[i]) == Short(c.perNode[j])
  {
    var role, s, t := c.nodes[i].role, c.perNode[i], c.perNode[j];
    if |SchematicsOf(c, role)| > 1 {
      assert ("-" + Short(s))[1..] == Short(s) && ("-" + Short(t))[1..] == Short(t);
    } else {
      SingletonElements(SchematicsOf(c, role), s, t);
    }
  }

  lemma SplitEqual(a: string, b: string, x: string, y: string)
    requires |a| == |b|
    ensures a + x == b + y <==> a == b && x == y
  {
    if a + x == b + y {
      assert (a + x)[..|a|] == a && (b + y)[..|a|] == b && (a + x)[|a|..] == x && (b + y)[|a|..] == y;
    }
  }

  lemma RolesDiffer()
    ensures CONTROL_PLANE != WORKER && ProfileBase(CONTROL_PLANE)[6] != ProfileBase(WORKER)[6]
  {
    assert CONTROL_PLANE[0] != WORKER[0];
    assert ProfileBase(CONTROL_PLANE)[6] == 'c' && ProfileBase(WORKER)[6] == 'w';
  }

  /** Two profile names are equal exactly when the classes share the role and abbreviate alike. */
  lemma ProfileNamesEqualIff(c: Input, i: nat, j: nat)
    requires ValidInput(c) && i < |c.nodes| && j < |c.nodes|
    requires ValidRole(c.nodes[i].role) && ValidRole(c.nodes[j].role) && !TooShort(c, i) && !TooShort(c, j)
    ensures ProfileName(c, i) == ProfileName(c, j) <==>
              && c.nodes[i].role == c.nodes[j].role
              && Short(c.perNode[i]) == Short(c.perNode[j])
              && Abbreviated(c.hash, KeyAt(c, i)) == Abbreviated(c.hash, KeyAt(c, j))
  {
    var r, q := c.nodes[i].role, c.nodes[j].role;
    if r == q {
      LabelPartsEqualIff(c, i, j);
      SchematicPartsEqualIff(c, i, j);
      var base := ProfileBase(r);
      assert |SchematicPart(c, i)| == |SchematicPart(c, j)|;
      hide SchematicPart, LabelPart, ProfileBase, Short, Abbreviated, KeyOf;
      SplitEqual(base + SchematicPart(c, i), base + SchematicPart(c, j), LabelPart(c, i), LabelPart(c, j));
      SplitEqual(base, base, SchematicPart(c, i), SchematicPart(c, j));
    } else {
      RolesDiffer();
      hide SchematicPart, LabelPart, KeyOf, Short, Abbreviated;
      assert ProfileName(c, i)[6] == ProfileBase(r)[6] && ProfileName(c, j)[6] == ProfileBase(q)[6];
    }
  }

  // ----- template paths

  function Stem(role: string): string {
    if role == CONTROL_PLANE then "talos/controlplane" else "talos/worker"
  }

  lemma PathIsStem(role: string, suffix: string)
    ensures PathWith(role, suffix) == Stem(role) + suffix + EXT
  {
    var stem := Stem(role);
    assert TemplateFor(role) == stem + EXT;
    assert (stem + EXT)[|stem|..] == EXT && (stem + EXT)[..|stem|] == stem;
  }

  lemma PathsEqualIff(r: string, a: string, q: string, b: string)
    requires ValidRole(r) && ValidRole(q)
    ensures PathWith(r, a) == PathWith(q, b) <==> r == q && a == b
  {
    PathIsStem(r, a);
    PathIsStem(q, b);
    hide PathWith;
    if PathWith(r, a) == PathWith(q, b) {
      var x, y := Stem(r) + a, Stem(q) + b;
      assert |x + EXT| == |y + EXT|;
      SplitEqual(x, y, EXT, EXT);
      assert x[6] == Stem(r)[6] && y[6] == Stem(q)[6];
      assert "talos/controlplane"[6] == 'c' && "talos/worker"[6] == 'w';
      RolesDiffer();
      assert r == q;
      SplitEqual(Stem(r), Stem(q), a, b);
    }
  }

  /** Two nodes' template paths are equal exactly when they share the role and their label sets abbreviate alike. */
  lemma TemplatePathsEqualIff(c: Input, i: nat, j: nat)
    requires ValidInput(c) && i < |c.nodes| && j < |c.nodes| && ValidRole(c.nodes[i].role) && ValidRole(c.nodes[j].role)
    ensures ProfileAt(c, i).template == ProfileAt(c, j).template <==>
              && c.nodes[i].role == c.nodes[j].role
              && Abbreviated(c.hash, KeyAt(c, i)) == Abbreviated(c.hash, KeyAt(c, j))
  {
    PathsEqualIff(c.nodes[i].role, LabelPart(c, i), c.nodes[j].role, LabelPart(c, j));
    if c.nodes[i].role == c.nodes[j].role { LabelPartsEqualIff(c, i, j); }
  }

  // ----- integrity

  /** The abbreviations keep the label sets of each role apart. */
  ghost predicate HashesDistinguish(c: Input)
    requires ValidInput(c)
  {
    forall i, j | 0 <= i < |c.nodes| && 0 <= j < |c.nodes| && c.nodes[i].role == c.nodes[j].role
                  && Abbreviated(c.hash, KeyAt(c, i)) == Abbreviated(c.hash, KeyAt(c, j)) ::
      KeyAt(c, i) == KeyAt(c, j)
  }

  ghost predicate ShortsDistinguish(c: Input)
    requires ValidInput(c)
  {
    forall i, j | 0 <= i < |c.nodes| && 0 <= j < |c.nodes| && c.nodes[i].role == c.nodes[j].role
                  && Short(c.perNode[i]) == Short(c.perNode[j]) ::
      c.perNode[i] == c.perNode[j]
  }

  ghost predicate SharesRole(c: Input, i: nat, j: int)
    requires i < |c.nodes|
  {
    0 <= j < |c.nodes| && c.nodes[j].role == c.nodes[i].role
  }

  /** A role's label sets and schematics show in its names only when it has more than one: a path carries the hash of
      a label set exactly when the role has another and this one is not empty, and a name the schematic exactly when
      the role has another. */
  lemma NamesShowOnlySplits(c: Input, i: nat)
    requires ValidInput(c) && i < |c.nodes|
    ensures ProfileAt(c, i).template ==
              Stem(c.nodes[i].role)
              + (if KeyAt(c, i) != "" && exists j :: SharesRole(c, i, j) && KeyAt(c, j) != KeyAt(c, i)
                 then "-" + c.hash(KeyAt(c, i))[..8] else "")
              + ".yaml.tmpl"
    ensures ProfileName(c, i) ==
              ProfileBase(c.nodes[i].role)
              + (if exists j :: SharesRole(c, i, j) && c.perNode[j] != c.perNode[i]
                 then "-" + Short(c.perNode[i]) else "")
              + (if KeyAt(c, i) != "" && exists j :: SharesRole(c, i, j) && KeyAt(c, j) != KeyAt(c, i)
                 then "-" + c.hash(KeyAt(c, i))[..8] else "")
  {
    hide KeyOf;
    var role := c.nodes[i].role;
    PathIsStem(role, LabelPart(c, i));
    assert c.nodes[i] in c.nodes;
    MoreThanOneIff(LabelKeys(c.nodes, role), KeyAt(c, i));
    MoreThanOneIff(SchematicsOf(c, role), c.perNode[i]);
    assert (exists k | k in LabelKeys(c.nodes, role) :: k != KeyAt(c, i)) <==>
        exists j :: SharesRole(c, i, j) && KeyAt(c, j) != KeyAt(c, i) by {
      if j :| SharesRole(c, i, j) && KeyAt(c, j) != KeyAt(c, i) {
        assert c.nodes[j] in c.nodes && KeyAt(c, j) in LabelKeys(c.nodes, role);
      }
      if k :| k in LabelKeys(c.nodes, role) && k != KeyAt(c, i) {
        var n :| n in c.nodes && n.role == role && KeyOf(n.resolvedLabels) == k;
        var j :| 0 <= j < |c.nodes| && c.nodes[j] == n;
        assert SharesRole(c, i, j) && KeyAt(c, j) == k;
      }
    }
    assert (exists s | s in SchematicsOf(c, role) :: s != c.perNode[i]) <==>
        exists j :: SharesRole(c, i, j) && c.perNode[j] != c.perNode[i] by {
      if j :| SharesRole(c, i, j) && c.perNode[j] != c.perNode[i] {
        assert c.perNode[j] in SchematicsOf(c, role);
      }
    }
  }

  lemma MoreThanOneIff(s: set<string>, x: string)
    requires x in s
    ensures |s| > 1 <==> exists y | y in s :: y != x
  {
    if y :| y in s && y != x {
      SubsetSize({x, y}, s);
    } else {
      assert s == {x};
    }
  }

  /** One template path per (role, label set): exactly when no two label sets of a role share a hash prefix. */
  lemma PathsDistinctIff(c: Input)
    requires ValidInput(c) && ValidRoles(c.nodes)
    ensures HashesDistinguish(c) <==>
              forall i, j | 0 <= i < |c.nodes| && 0 <= j < |c.nodes|
                            && ProfileAt(c, i).template == ProfileAt(c, j).template ::
                c.nodes[i].role == c.nodes[j].role && KeyAt(c, i) == KeyAt(c, j)
  {
    hide KeyOf, ProfileAt, Abbreviated;
    forall i, j | 0 <= i < |c.nodes| && 0 <= j < |c.nodes|
      ensures ProfileAt(c, i).template == ProfileAt(c, j).template <==>
                && c.nodes[i].role == c.nodes[j].role
                && Abbreviated(c.hash, KeyAt(c, i)) == Abbreviated(c.hash, KeyAt(c, j))
    {
      assert c.nodes[i] in c.nodes && c.nodes[j] in c.nodes;
      TemplatePathsEqualIff(c, i, j);
    }
  }

  /** Distinct classes get distinct profile names whenever both abbreviations keep what is present apart. */
  lemma ClassesNamedApart(c: Input, i: nat, j: nat)
    requires ValidInput(c) && ValidRoles(c.nodes) && i < |c.nodes| && j < |c.nodes|
    requires forall k | 0 <= k < |c.nodes| :: !TooShort(c, k)
    requires HashesDistinguish(c) && ShortsDistinguish(c)
    ensures ProfileName(c, i) == ProfileName(c, j) <==> ClassAt(c, i) == ClassAt(c, j)
    ensures ProfileName(c, i) == ProfileName(c, j) ==> ProfileAt(c, i) == ProfileAt(c, j)
  {
    hide KeyOf, ProfileName, Abbreviated, Short, TooShort, ProfileAt;
    assert c.nodes[i] in c.nodes && c.nodes[j] in c.nodes;
    ProfileNamesEqualIff(c, i, j);
    if ProfileName(c, i) == ProfileName(c, j) { SameClassSameProfile(c, i, j); }
  }
}
