/** Boot image identities (emit/schematic.go): each node's extension set resolved to a schematic, once per cache
    key, and the boot assets staged for them (emit/assets.go's bootAssets). */
module Schematics {
  import opened Common
  import opened Text
  import opened Config
  import T = Templating

  /** The content-addressed factory: the same set always gets the same answer. */
  type Resolver = seq<string> -> Result<string, string>

  /** The cache key of an extension set. */
  function CacheKey(exts: seq<string>): string { Join(exts, "\n") }

  /** What a node's set resolves to when nothing is cached. */
  function Fresh(pinned: string, resolve: Resolver, exts: seq<string>): Result<string, string> {
    if exts == [] then Ok(T.ResolveSchematicID(pinned)) else resolve(exts)
  }

  /** The extension sets of the nodes, in order. */
  function SetsOf(t: Talos): (r: seq<seq<string>>)
    ensures |r| == |t.nodes|
  {
    seq(|t.nodes|, i requires 0 <= i < |t.nodes| => ExtensionsOf(t.profiles, t.nodes[i].profiles))
  }

  /** The first node up to i whose non-empty set has the cache key of node i's. */
  function FirstWithKey(sets: seq<seq<string>>, key: string, i: nat): nat
    requires i < |sets|
    ensures FirstWithKey(sets, key, i) <= i
    decreases i
  {
    if i == 0 then 0
    else
      var j := FirstWithKey(sets, key, i - 1);
      if sets[j] != [] && CacheKey(sets[j]) == key then j else i
  }

  /** What the cache gives node i: the answer for the first set with its key. */
  function Memo(pinned: string, resolve: Resolver, sets: seq<seq<string>>, i: nat): Result<string, string>
    requires i < |sets|
  {
    if sets[i] == [] then Fresh(pinned, resolve, []) else resolve(sets[FirstWithKey(sets, CacheKey(sets[i]), i)])
  }

  lemma {:induction false} FirstWithKeyIsFirst(sets: seq<seq<string>>, key: string, i: nat)
    requires i < |sets|
    ensures var j := FirstWithKey(sets, key, i);
            && (forall k | 0 <= k < j :: !(sets[k] != [] && CacheKey(sets[k]) == key))
            && (j < i ==> sets[j] != [] && CacheKey(sets[j]) == key)
  {
    if i > 0 { FirstWithKeyIsFirst(sets, key, i - 1); }
  }

  /** The cache state after the first n nodes: exactly the keys met, each with its first answer. */
  ghost predicate CacheAt(pinned: string, resolve: Resolver, sets: seq<seq<string>>, n: nat, cache: map<string, string>)
    requires n <= |sets|
  {
    && (forall i | 0 <= i < n && sets[i] != [] ::
          CacheKey(sets[i]) in cache && Memo(pinned, resolve, sets, i) == Ok(cache[CacheKey(sets[i])]))
    && (forall key | key in cache :: exists i | 0 <= i < n :: sets[i] != [] && CacheKey(sets[i]) == key)
  }

  lemma CachedAnswer(pinned: string, resolve: Resolver, sets: seq<seq<string>>, n: nat, cache: map<string, string>)
    requires n < |sets| && sets[n] != [] && CacheAt(pinned, resolve, sets, n, cache)
    ensures CacheKey(sets[n]) in cache ==> Memo(pinned, resolve, sets, n) == Ok(cache[CacheKey(sets[n])])
    ensures CacheKey(sets[n]) !in cache ==> Memo(pinned, resolve, sets, n) == resolve(sets[n])
  {
    var key := CacheKey(sets[n]);
    var j := FirstWithKey(sets, key, n);
    FirstWithKeyIsFirst(sets, key, n);
    if key in cache {
      var i :| 0 <= i < n && sets[i] != [] && CacheKey(sets[i]) == key;
      SameFirst(sets, key, i, n);
    }
  }

  lemma CacheGrows(pinned: string, resolve: Resolver, sets: seq<seq<string>>, n: nat, cache: map<string, string>,
                   id: string)
    requires n < |sets| && CacheAt(pinned, resolve, sets, n, cache) && Memo(pinned, resolve, sets, n) == Ok(id)
    ensures sets[n] == [] ==> CacheAt(pinned, resolve, sets, n + 1, cache)
    ensures sets[n] != [] && CacheKey(sets[n]) in cache ==> CacheAt(pinned, resolve, sets, n + 1, cache)
    ensures sets[n] != [] && CacheKey(sets[n]) !in cache ==>
            CacheAt(pinned, resolve, sets, n + 1, cache[CacheKey(sets[n]) := id])
  {
    hide CacheKey, Memo;
    if sets[n] != [] && CacheKey(sets[n]) in cache { CachedAnswer(pinned, resolve, sets, n, cache); }
  }

  /** schematicFor: the cache is consulted first, and grows by each answer. */
  method SchematicFor(t: Talos, resolve: Resolver, n: nat, cache: map<string, string>)
    returns (r: Result<string, string>, cache': map<string, string>)
    requires n < |t.nodes| && CacheAt(t.schematicID, resolve, SetsOf(t), n, cache)
    ensures r == Memo(t.schematicID, resolve, SetsOf(t), n)
    ensures r.Ok? ==> CacheAt(t.schematicID, resolve, SetsOf(t), n + 1, cache')
  {
    hide ExtensionsOf, CacheKey, CacheAt;
    cache' := cache;
    ghost var sets := SetsOf(t);
    var exts := NodeExtensions(t.profiles, t.nodes[n].profiles);
    assert exts == sets[n];
    if |exts| == 0 {
      r := Ok(T.ResolveSchematicID(t.schematicID));
      CacheGrows(t.schematicID, resolve, sets, n, cache, r.value);
      return;
    }
    CachedAnswer(t.schematicID, resolve, sets, n, cache);
    var key := CacheKey(exts);
    if key in cache {
      r := Ok(cache[key]);
      CacheGrows(t.schematicID, resolve, sets, n, cache, r.value);
      return;
    }
    r := resolve(exts);
    if r.Ok? {
      CacheGrows(t.schematicID, resolve, sets, n, cache, r.value);
      cache' := cache[key := r.value];
    }
  }

  /** The distinct elements in first-appearance order. */
  function FirstAppearances(xs: seq<string>): seq<string> {
    if xs == [] then []
    else
      var before, x := FirstAppearances(xs[..|xs| - 1]), xs[|xs| - 1];
      if x in before then before else before + [x]
  }

  /** nodeSchematics: one identity per node, from the cache when its key was met, and the distinct ones in
      first-appearance order. */
  method NodeSchematics(t: Talos, resolve: Resolver)
                        returns (perNode: seq<string>, unique: seq<string>, err: Option<string>)
    ensures err.None? ==> |perNode| == |t.nodes| && unique == FirstAppearances(perNode)
    ensures err.None? ==> Distinct(unique) && Elems(unique) == Elems(perNode)
    ensures err.None? ==> forall i | 0 <= i < |t.nodes| :: Memo(t.schematicID, resolve, SetsOf(t), i) == Ok(perNode[i])
    ensures err.Some? ==> exists i | 0 <= i < |t.nodes| :: Memo(t.schematicID, resolve, SetsOf(t), i) == Err(err.value)
  {
    hide Memo, CacheAt, SetsOf;
    var cache: map<string, string> := map[];
    perNode, unique, err := [], [], None;
    EmptyCache(t, resolve);
    for n := 0 to |t.nodes|
      invariant |perNode| == n && Distinct(unique) && Elems(unique) == Elems(perNode) && err.None?
      invariant unique == FirstAppearances(perNode)
      invariant forall i | 0 <= i < n :: Memo(t.schematicID, resolve, SetsOf(t), i) == Ok(perNode[i])
      invariant CacheAt(t.schematicID, resolve, SetsOf(t), n, cache)
    {
      var r;
      r, cache := SchematicFor(t, resolve, n, cache);
      if r.Err? {
        err := Some(r.error);
        return;
      }
      ElemsConcat(perNode, [r.value]);
      assert (perNode + [r.value])[..n] == perNode;
      perNode := perNode + [r.value];
      if r.value !in unique {
        ElemsConcat(unique, [r.value]);
        unique := unique + [r.value];
      }
    }
  }

  lemma EmptyCache(t: Talos, resolve: Resolver)
    ensures |SetsOf(t)| == |t.nodes| && CacheAt(t.schematicID, resolve, SetsOf(t), 0, map[])
  {}

  /** No two nodes with different non-empty sets share a cache key. */
  ghost predicate KeysDistinguish(sets: seq<seq<string>>) {
    forall i, j | 0 <= i < |sets| && 0 <= j < |sets| && sets[i] != [] && sets[j] != [] ::
      CacheKey(sets[i]) == CacheKey(sets[j]) ==> sets[i] == sets[j]
  }

  /** The memoised identities are the freshly resolved ones when no key is shared... */
  lemma {:induction false} MemoIsFresh(pinned: string, resolve: Resolver, sets: seq<seq<string>>, i: nat)
    requires KeysDistinguish(sets) && i < |sets|
    ensures Memo(pinned, resolve, sets, i) == Fresh(pinned, resolve, sets[i])
  {
    FirstWithKeyIsFirst(sets, CacheKey(sets[i]), i);
  }

  /** ...and only then: for two different sets with one key there is a factory the cache answers wrongly for. */
  lemma SharedKeyMisleads(pinned: string, sets: seq<seq<string>>)
    requires !KeysDistinguish(sets)
    ensures exists resolve: Resolver, i ::
              0 <= i < |sets| && Memo(pinned, resolve, sets, i) != Fresh(pinned, resolve, sets[i])
  {
    var i, j :| 0 <= i < |sets| && 0 <= j < |sets| && sets[i] != [] && sets[j] != []
                && CacheKey(sets[i]) == CacheKey(sets[j]) && sets[i] != sets[j];
    var key := CacheKey(sets[i]);
    FirstWithKeyIsFirst(sets, key, i);
    FirstWithKeyIsFirst(sets, key, j);
    var a, b := FirstWithKey(sets, key, i), FirstWithKey(sets, key, j);
    SameFirst(sets, key, i, j);
    var odd := if sets[a] != sets[i] then i else j;
    var resolve: Resolver := x => if x == sets[a] then Ok("a") else Ok("b");
    assert Memo(pinned, resolve, sets, odd) == Ok("a");
    assert Fresh(pinned, resolve, sets[odd]) == Ok("b");
    assert "a"[0] != "b"[0];
  }

  lemma SameFirst(sets: seq<seq<string>>, key: string, i: nat, j: nat)
    requires i < |sets| && j < |sets| && sets[i] != [] && sets[j] != [] && CacheKey(sets[i]) == key
             && CacheKey(sets[j]) == key
    ensures FirstWithKey(sets, key, i) == FirstWithKey(sets, key, j)
    ensures sets[FirstWithKey(sets, key, i)] != [] && CacheKey(sets[FirstWithKey(sets, key, i)]) == key
  {
    FirstWithKeyIsFirst(sets, key, i);
    FirstWithKeyIsFirst(sets, key, j);
    var a, b := FirstWithKey(sets, key, i), FirstWithKey(sets, key, j);
    assert sets[a] != [] && CacheKey(sets[a]) == key && sets[b] != [] && CacheKey(sets[b]) == key;
  }

  /** Extension names without a line break keep the keys apart. */
  lemma LineFreeNamesDistinguish(sets: seq<seq<string>>)
    requires forall s, x | s in sets && x in s :: '\n' !in x
    ensures KeysDistinguish(sets)
  {
    forall i, j | 0 <= i < |sets| && 0 <= j < |sets| && sets[i] != [] && sets[j] != []
        && CacheKey(sets[i]) == CacheKey(sets[j])
      ensures sets[i] == sets[j]
    {
      assert sets[i] in sets && sets[j] in sets;
      JoinInjective(sets[i], sets[j], '\n');
    }
  }

  /** validateProfiles' rule for one extension name. */
  predicate ExtensionNameOk(ext: string) {
    '/' in ext && ' ' !in ext && '\t' !in ext
  }

  /** Validation does not rule the line break out: two sets it accepts, with one key. */
  lemma AcceptedNamesCanCollide()
    ensures var a, b := ["o/a\no/b"], ["o/a", "o/b"];
            && (forall x | x in a + b :: ExtensionNameOk(x))
            && a != b && CacheKey(a) == CacheKey(b)
  {
    var a, b := ["o/a\no/b"], ["o/a", "o/b"];
    assert b[1..] == ["o/b"];
    assert CacheKey(b) == "o/a" + "\n" + "o/b";
    assert "o/a\no/b"[1] == '/' && "o/a"[1] == '/' && "o/b"[1] == '/';
    assert |a| != |b|;
  }

  // ----- boot assets

  const DEFAULT_FACTORY := "https://factory.talos.dev"

  datatype BootAsset = BootAsset(path: string, url: string)

  function AssetDir(version: string, schematic: string): string {
    "boot/talos/" + version + "/" + schematic
  }

  function KernelPath(version: string, schematic: string): string { AssetDir(version, schematic) + "/vmlinuz" }

  function InitramfsPath(version: string, schematic: string): string { AssetDir(version, schematic) + "/initramfs.xz" }

  function ImageURL(factoryURL: string, version: string, schematic: string): string {
    TrimSuffix(if factoryURL == "" then DEFAULT_FACTORY else factoryURL, "/") + "/image/" + schematic + "/" + version
  }

  /** The assets hold a kernel and an initramfs for every schematic, at the staged paths. */
  ghost predicate Staged(version: string, schematics: seq<string>, assets: seq<BootAsset>) {
    && |assets| == 2 * |schematics|
    && forall j | 0 <= j < |schematics| ::
         assets[2 * j].path == KernelPath(version, schematics[j])
             && assets[2 * j + 1].path == InitramfsPath(version, schematics[j])
  }

  /** bootAssets: for every schematic its kernel, then its initramfs, each from the factory's name for it. */
  method BootAssets(factoryURL: string, version: string, schematics: seq<string>) returns (assets: seq<BootAsset>)
    ensures Staged(version, schematics, assets)
    ensures forall j | 0 <= j < |schematics| ::
              && assets[2 * j].url == ImageURL(factoryURL, version, schematics[j]) + "/kernel-amd64"
              && assets[2 * j + 1].url == ImageURL(factoryURL, version, schematics[j]) + "/initramfs-amd64.xz"
  {
    hide KernelPath, InitramfsPath;
    var base := TrimSuffix(if factoryURL == "" then DEFAULT_FACTORY else factoryURL, "/");
    assets := [];
    for i := 0 to |schematics|
      invariant Staged(version, schematics[..i], assets)
      invariant forall j | 0 <= j < i ::
                  && assets[2 * j].url == ImageURL(factoryURL, version, schematics[j]) + "/kernel-amd64"
                  && assets[2 * j + 1].url == ImageURL(factoryURL, version, schematics[j]) + "/initramfs-amd64.xz"
    {
      var image := base + "/image/" + schematics[i] + "/" + version;
      assets := assets + [BootAsset(KernelPath(version, schematics[i]), image + "/kernel-amd64"),
                          BootAsset(InitramfsPath(version, schematics[i]), image + "/initramfs-amd64.xz")];
    }
    assert schematics[..|schematics|] == schematics;
  }

  function Paths(assets: seq<BootAsset>): seq<string> {
    seq(|assets|, i requires 0 <= i < |assets| => assets[i].path)
  }

  lemma AssetPathsApart(version: string, s: string, t: string)
    ensures KernelPath(version, s) != InitramfsPath(version, t)
    ensures KernelPath(version, s) == KernelPath(version, t) ==> s == t
    ensures InitramfsPath(version, s) == InitramfsPath(version, t) ==> s == t
  {
    var k, i, l, j := KernelPath(version, s), InitramfsPath(version, t), KernelPath(version, t),
        InitramfsPath(version, s);
    assert k[|k| - 2] == 'u' && i[|i| - 2] == 'x';
    var base := "boot/talos/" + version + "/";
    assert k[|base|..|k| - 8] == s && l[|base|..|l| - 8] == t;
    assert j[|base|..|j| - 13] == s && i[|base|..|i| - 13] == t;
  }

  /** The assets of distinct schematics have distinct paths: what staging them asks for. */
  lemma StagedPathsDistinct(version: string, schematics: seq<string>, assets: seq<BootAsset>)
    requires Staged(version, schematics, assets) && Distinct(schematics)
    ensures Distinct(Paths(assets))
  {
    hide KernelPath, InitramfsPath;
    forall i, j | 0 <= i < j < |assets| ensures Paths(assets)[i] != Paths(assets)[j] {
      var s, t := schematics[i / 2], schematics[j / 2];
      AssetPathsApart(version, s, t);
      AssetPathsApart(version, t, s);
      assert assets[i].path == (if i % 2 == 0 then KernelPath(version, s)
          else InitramfsPath(version, s)) by { assert i == 2 * (i / 2) + i % 2; }
      assert assets[j].path == (if j % 2 == 0 then KernelPath(version, t)
          else InitramfsPath(version, t)) by { assert j == 2 * (j / 2) + j % 2; }
    }
  }
}
