/** Node labels (config/labels.go) and their canonical key (talos/machineconfig.go's LabelSetKey). */
module Labels {
  import opened Common
  import opened Text
  import opened Sorting

  type LabelSet = map<string, string>

  // ----- syntax: apimachinery's IsQualifiedName and IsValidLabelValue

  const NAME_MAX := 63
  const PREFIX_MAX := 253

  predicate IsLower(c: char) { ('a' <= c <= 'z') || ('0' <= c <= '9') }

  predicate IsAlnum(c: char) { IsLower(c) || ('A' <= c <= 'Z') }

  /** labelNamePattern */
  predicate MatchesName(s: string) {
    && s != "" && IsAlnum(s[0]) && IsAlnum(s[|s| - 1])
    && forall c | c in s :: IsAlnum(c) || c == '-' || c == '_' || c == '.'
  }

  predicate MatchesPrefixPart(s: string) {
    && s != "" && IsLower(s[0]) && IsLower(s[|s| - 1])
    && forall c | c in s :: IsLower(c) || c == '-'
  }

  /** labelPrefixPattern: dot-separated parts. */
  predicate MatchesPrefix(s: string) {
    forall part | part in Split(s, '.') :: MatchesPrefixPart(part)
  }

  datatype KeyFault = BadPrefix | BadName

  /** labelKeySyntax: why key is not a qualified name, if it is not. */
  function KeySyntax(key: string): Option<KeyFault> {
    var (before, after, hasPrefix) := Cut(key, '/');
    var prefix, name := if hasPrefix then before else "", if hasPrefix then after else before;
    if hasPrefix && (prefix == "" || |prefix| > PREFIX_MAX || !MatchesPrefix(prefix)) then Some(BadPrefix)
    else if |name| > NAME_MAX || !MatchesName(name) then Some(BadName)
    else None
  }

  predicate ValueOk(value: string) {
    value == "" || (|value| <= NAME_MAX && MatchesName(value))
  }

  // ----- namespaces

  const LABEL_PREFIX := "hoomlab.dev/"
  const RUNTIME_LABEL_PREFIX := "runtime." + LABEL_PREFIX

  const KUBELET_LABELS := [
    "kubernetes.io/hostname", "kubernetes.io/arch", "kubernetes.io/os",
    "beta.kubernetes.io/arch", "beta.kubernetes.io/os", "beta.kubernetes.io/instance-type",
    "failure-domain.beta.kubernetes.io/region", "failure-domain.beta.kubernetes.io/zone",
    "topology.kubernetes.io/region", "topology.kubernetes.io/zone",
    "node.kubernetes.io/instance-type"]

  const KUBELET_NAMESPACES := ["kubelet.kubernetes.io", "node.kubernetes.io"]

  predicate InNamespace(ns: string, base: string) {
    ns == base || HasSuffix(ns, "." + base)
  }

  predicate KubeletLabel(key: string) {
    key in KUBELET_LABELS
  }

  predicate NodeRestricted(key: string) {
    var (ns, _, hasPrefix) := Cut(key, '/');
    if !hasPrefix || (!InNamespace(ns, "kubernetes.io") && !InNamespace(ns, "k8s.io")) then false
    else if InNamespace(ns, "node-restriction.kubernetes.io") then true
    else if KubeletLabel(key) then false
    else !exists allowed | allowed in KUBELET_NAMESPACES :: InNamespace(ns, allowed)
  }

  datatype LabelFault = InvalidKey | InvalidValue | DerivedNamespace | CollidesWithRendered | RefusedByNodeRestriction

  /** validateLabel */
  function ValidateLabel(key: string, value: string, rendered: seq<string>): seq<LabelFault> {
    var syntax := (if KeySyntax(key).Some? then [InvalidKey] else []) + (if ValueOk(value) then [] else [InvalidValue]);
    if syntax != [] then syntax
    else if RUNTIME_LABEL_PREFIX <= key then [DerivedNamespace]
    else if key in rendered then [CollidesWithRendered]
    else if NodeRestricted(key) then [RefusedByNodeRestriction]
    else []
  }

  ghost predicate Under(ns: string, base: string) {
    ns == base || exists sub :: ns == sub + "." + base
  }

  lemma UnderIff(ns: string, base: string)
    ensures InNamespace(ns, base) <==> Under(ns, base)
  {
    if HasSuffix(ns, "." + base) {
      assert ns == ns[..|ns| - |base| - 1] + "." + base;
    }
    forall sub | ns == sub + "." + base ensures HasSuffix(ns, "." + base) {
      assert ns == sub + ("." + base);
    }
  }

  /** Refused: a key of a kubernetes.io or k8s.io namespace that is reserved to operators, or is neither one of the
      kubelet's own labels nor in one of its namespaces. */
  ghost predicate Refused(key: string, ns: string, name: string) {
    && key == ns + "/" + name && '/' !in ns && (Under(ns, "kubernetes.io") || Under(ns, "k8s.io"))
    && (Under(ns, "node-restriction.kubernetes.io")
        || (!KubeletLabel(key) && forall own | own in KUBELET_NAMESPACES :: !Under(ns, own)))
  }

  lemma NodeRestrictedIff(key: string)
    ensures NodeRestricted(key) <==> exists ns, name :: Refused(key, ns, name)
  {
    hide Under, InNamespace, KubeletLabel;
    var (before, after, hasPrefix) := Cut(key, '/');
    forall base ensures InNamespace(before, base) <==> Under(before, base) { UnderIff(before, base); }
    if NodeRestricted(key) { assert Refused(key, before, after); }
    forall ns, name | Refused(key, ns, name) ensures NodeRestricted(key) { CutAt(ns, name, '/'); }
  }

  ghost predicate PrefixedName(key: string, prefix: string, name: string) {
    && key == prefix + "/" + name && '/' !in prefix
    && prefix != "" && |prefix| <= PREFIX_MAX && MatchesPrefix(prefix) && |name| <= NAME_MAX && MatchesName(name)
  }

  /** A qualified name: a name, or a DNS prefix, one slash and a name. */
  ghost predicate QualifiedName(key: string) {
    (|key| <= NAME_MAX && MatchesName(key)) || exists prefix, name :: PrefixedName(key, prefix, name)
  }

  /** Exactly the labels accepted: a qualified name and a good value, outside the derived namespace, no label the
      config renders itself, and one NodeRestriction lets a kubelet set. */
  lemma LabelAcceptedIff(key: string, value: string, rendered: seq<string>)
    ensures ValidateLabel(key, value, rendered) == [] <==>
              && QualifiedName(key) && ValueOk(value)
              && !(RUNTIME_LABEL_PREFIX <= key) && key !in rendered && !exists ns, name :: Refused(key, ns, name)
  {
    hide NodeRestricted, Refused, ValueOk, MatchesPrefix, MatchesName;
    KeySyntaxIff(key);
    NodeRestrictedIff(key);
  }

  lemma KeySyntaxIff(key: string)
    ensures KeySyntax(key).None? <==> QualifiedName(key)
  {
    hide MatchesPrefix;
    var (before, after, hasPrefix) := Cut(key, '/');
    if hasPrefix {
      assert key[|before|] == '/' && key[|before|] in key;
      if KeySyntax(key).None? { assert PrefixedName(key, before, after); }
    }
    forall prefix, name | PrefixedName(key, prefix, name) ensures KeySyntax(key).None? {
      CutAt(prefix, name, '/');
    }
  }

  /** Every label of the set passes validation. */
  ghost predicate ValidLabels(labels: LabelSet, rendered: seq<string>) {
    forall k | k in labels :: ValidateLabel(k, labels[k], rendered) == []
  }

  // ----- what the canonical key relies on

  predicate Separable(s: string) {
    '=' !in s && ',' !in s
  }

  ghost predicate SeparableSet(labels: LabelSet) {
    forall k | k in labels :: Separable(k) && Separable(labels[k])
  }

  lemma NameSeparable(s: string)
    requires MatchesName(s)
    ensures Separable(s)
  {}

  lemma {:induction false} PrefixSeparable(s: string)
    requires MatchesPrefix(s)
    ensures Separable(s)
  {
    SplitCovers(s, '.');
    forall c | c in s && c != '.' ensures c != '=' && c != ',' {
      var part :| part in Split(s, '.') && c in part;
      assert MatchesPrefixPart(part);
    }
  }

  /** Every character of a text is the separator or belongs to one of its pieces. */
  lemma {:induction false} SplitCovers(s: string, sep: char)
    ensures forall c | c in s && c != sep :: exists part | part in Split(s, sep) :: c in part
  {
    if s != "" {
      SplitCovers(s[1..], sep);
      var rest := Split(s[1..], sep);
      forall c | c in s && c != sep ensures exists part | part in Split(s, sep) :: c in part {
        if c == s[0] {
          assert c in Split(s, sep)[0];
        } else {
          assert c in s[1..];
          var part :| part in rest && c in part;
          var i :| 0 <= i < |rest| && rest[i] == part;
          var all := Split(s, sep);
          if s[0] == sep {
            assert all[i + 1] == part;
          } else if i == 0 {
            assert all[0] == [s[0]] + part && c in all[0];
          } else {
            assert all[i] == part;
          }
        }
      }
    }
  }

  /** A label that passes validation contains neither separator of the canonical key. */
  lemma ValidLabelSeparable(key: string, value: string, rendered: seq<string>)
    requires ValidateLabel(key, value, rendered) == []
    ensures Separable(key) && Separable(value)
    ensures !(RUNTIME_LABEL_PREFIX <= key) && key !in rendered && !NodeRestricted(key)
  {
    var (before, after, hasPrefix) := Cut(key, '/');
    if hasPrefix {
      PrefixSeparable(before);
      NameSeparable(after);
      assert key == before + ['/'] + after;
    } else {
      NameSeparable(before);
    }
    if value != "" { NameSeparable(value); }
  }

  // ----- LabelSetKey

  function Pairs(keys: seq<string>, labels: LabelSet): seq<string>
    requires forall k | k in keys :: k in labels
  {
    seq(|keys|, i requires 0 <= i < |keys| => keys[i] + "=" + labels[keys[i]])
  }

  ghost function SortedKeys(labels: LabelSet): (r: seq<string>)
    ensures forall k | k in r :: k in labels
  {
    var r := SortedSet(labels.Keys);
    assert forall k | k in r :: k in Elems(r);
    r
  }

  ghost function KeyOf(labels: LabelSet): string {
    Join(Pairs(SortedKeys(labels), labels), ",")
  }

  /** The map is walked in any order; sorting makes the key canonical. */
  method LabelSetKey(labels: LabelSet) returns (key: string)
    ensures key == KeyOf(labels)
  {
    var walked := Listing(labels.Keys);
    SortedOnce(walked);
    var keys := Sort(walked);
    assert keys == SortedKeys(labels);
    var pairs := PairUp(keys, labels);
    key := Join(pairs, ",");
  }

  method PairUp(keys: seq<string>, labels: LabelSet) returns (pairs: seq<string>)
    requires forall k | k in keys :: k in labels
    ensures pairs == Pairs(keys, labels)
  {
    pairs := [];
    for i := 0 to |keys|
      invariant |pairs| == i && forall j | 0 <= j < i :: pairs[j] == keys[j] + "=" + labels[keys[j]]
    {
      pairs := pairs + [keys[i] + "=" + labels[keys[i]]];
    }
  }

  lemma PairsDetermineLabels(a: LabelSet, b: LabelSet)
    requires SeparableSet(a) && SeparableSet(b)
    requires Pairs(SortedKeys(a), a) == Pairs(SortedKeys(b), b)
    ensures a == b
  {
    var ka, kb := SortedKeys(a), SortedKeys(b);
    assert |ka| == |Pairs(ka, a)| == |kb|;
    forall i | 0 <= i < |ka| ensures ka[i] == kb[i] && a[ka[i]] == b[kb[i]] {
      assert Pairs(ka, a)[i] == Pairs(kb, b)[i];
      assert ka[i] + "=" + a[ka[i]] == kb[i] + "=" + b[kb[i]];
      CutAt(ka[i], a[ka[i]], '=');
      CutAt(kb[i], b[kb[i]], '=');
    }
    assert ka == kb;
    assert a.Keys == Elems(ka) == b.Keys;
    forall k | k in a ensures a[k] == b[k] {
      assert k in Elems(ka);
      var i :| 0 <= i < |ka| && ka[i] == k;
    }
  }

  lemma PairsSeparable(labels: LabelSet)
    requires SeparableSet(labels)
    ensures forall p | p in Pairs(SortedKeys(labels), labels) :: ',' !in p && p != ""
  {
    var keys := SortedKeys(labels);
    forall p | p in Pairs(keys, labels) ensures ',' !in p && p != "" {
      var i :| 0 <= i < |keys| && p == keys[i] + "=" + labels[keys[i]];
      assert keys[i] in labels;
    }
  }

  lemma {:induction false} JoinNonEmpty(parts: seq<string>, sep: string)
    requires parts != [] && parts[0] != ""
    ensures Join(parts, sep) != ""
  {}

  /** Two label sets that pass validation have the same key exactly when they are the same set. */
  lemma LabelSetKeyInjective(a: LabelSet, b: LabelSet)
    requires SeparableSet(a) && SeparableSet(b)
    ensures KeyOf(a) == KeyOf(b) <==> a == b
  {
    if KeyOf(a) == KeyOf(b) {
      var pa, pb := Pairs(SortedKeys(a), a), Pairs(SortedKeys(b), b);
      PairsSeparable(a);
      PairsSeparable(b);
      if pa != [] { JoinNonEmpty(pa, ","); }
      if pb != [] { JoinNonEmpty(pb, ","); }
      if pa != [] && pb != [] {
        JoinInjective(pa, pb, ',');
      }
      PairsDetermineLabels(a, b);
    }
  }

  lemma KeyOfListing(labels: LabelSet, keys: seq<string>)
    requires StrictlySorted(keys) && Elems(keys) == labels.Keys
    ensures forall k | k in keys :: k in labels
    ensures KeyOf(labels) == Join(Pairs(keys, labels), ",")
  {
    StrictlySortedUnique(SortedKeys(labels), keys);
  }

  lemma KeyOfOne(k: string, v: string)
    ensures KeyOf(map[k := v]) == k + "=" + v
  {
    var labels: LabelSet := map[k := v];
    assert Elems([k]) == labels.Keys;
    KeyOfListing(labels, [k]);
  }

  lemma KeyOfTwo(k: string, v: string, k': string, v': string)
    requires LexLt(k, k')
    ensures KeyOf(map[k := v, k' := v']) == k + "=" + v + "," + (k' + "=" + v')
  {
    var labels: LabelSet := map[k := v, k' := v'];
    assert Elems([k, k']) == labels.Keys;
    KeyOfListing(labels, [k, k']);
    var pairs := Pairs([k, k'], labels);
    assert pairs[0] == k + "=" + v && pairs[1..] == [k' + "=" + v'];
  }

  /** Without validation the key confuses label sets: "," and "=" inside a value spell a second pair. */
  lemma UnvalidatedKeysCollide(k: string, v: string, k': string, v': string)
    requires LexLt(k, k')
    ensures KeyOf(map[k := v + "," + k' + "=" + v']) == KeyOf(map[k := v, k' := v'])
    ensures map[k := v + "," + k' + "=" + v'] != map[k := v, k' := v']
  {
    KeyOfOne(k, v + "," + k' + "=" + v');
    KeyOfTwo(k, v, k', v');
    Reassociate(k + "=", v, k' + "=" + v');
    assert v + "," + k' + "=" + v' == v + "," + (k' + "=" + v');
    assert k' in map[k := v, k' := v'];
  }

  lemma Reassociate(a: string, b: string, c: string)
    ensures a + (b + "," + c) == a + b + "," + c
  {}
}
