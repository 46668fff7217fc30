/** The storage stage (pve/storage.go): declared entries against stored ones, where the server keeps lists as
    sets and renders them back as comma-joined text in an order of its own. */
module Storage {
  import opened Common
  import opened Text
  import opened Sorting
  import Steps

  /** A declared storage block; an empty list, empty text or false bool is no opinion. */
  datatype Decl = Decl(name: string, kind: string, pool: string, path: string,
                       content: seq<string>, nodes: seq<string>, sparse: bool, disable: bool)

  /** A stored entry as the index reports it. */
  datatype Datastore = Datastore(storage: string, kind: string, pool: string, path: string,
                                 content: string, nodes: string, sparse: string, disable: bool, digest: string)

  datatype Update = Update(digest: string, pool: string, content: seq<string>, nodes: seq<string>,
                           sparse: Option<bool>, disable: Option<bool>)

  // ----- sets as comma-joined text

  function TrimAll(parts: seq<string>): seq<string> {
    seq(|parts|, i requires 0 <= i < |parts| => TrimSpace(parts[i]))
  }

  /** The comma-free pieces a text joins. */
  ghost predicate Pieces(raw: seq<string>, s: string) {
    Join(raw, ",") == s && forall x | x in raw :: ',' !in x
  }

  ghost predicate Trims(parts: seq<string>, raw: seq<string>) {
    |parts| == |raw| && forall i | 0 <= i < |raw| :: parts[i] == TrimSpace(raw[i])
  }

  lemma SplitIsPieces(s: string)
    ensures Pieces(Split(s, ','), s)
  {
    JoinSplit(s, ',');
    SplitPiecesFree(s, ',');
  }

  method SplitCSV(s: string) returns (parts: seq<string>)
    ensures parts == CSVItems(s)
    ensures if s == "" then parts == [] else exists raw :: Pieces(raw, s) && Trims(parts, raw)
  {
    hide TrimSpace, Split, Pieces;
    if s == "" {
      return [];
    }
    parts := Split(s, ',');
    ghost var raw := parts;
    for i := 0 to |parts|
      invariant |parts| == |raw|
      invariant forall j | 0 <= j < |raw| :: parts[j] == if j < i then TrimSpace(raw[j]) else raw[j]
    {
      parts := parts[i := TrimSpace(parts[i])];
    }
    SplitIsPieces(s);
    assert Trims(parts, raw);
  }

  function CSVItems(s: string): seq<string> {
    if s == "" then [] else TrimAll(Split(s, ','))
  }

  predicate SameSet(a: seq<string>, b: seq<string>) {
    SortCompact(a) == SortCompact(b)
  }

  /** Sorting and compacting both sides compares them as sets: order and repetition never count. */
  lemma SameSetIsSetEquality(a: seq<string>, b: seq<string>)
    ensures SameSet(a, b) <==> Elems(a) == Elems(b)
  {
    SortCompactCanonical(a);
    SortCompactCanonical(b);
    if Elems(a) == Elems(b) { StrictlySortedUnique(SortCompact(a), SortCompact(b)); }
  }

  /** Lists that survive being joined with commas and split again. */
  predicate Storable(items: seq<string>) {
    (forall x | x in items :: ',' !in x && Trimmed(x)) && items != [""]
  }

  lemma {:induction false} TrimmedStays(s: string)
    requires Trimmed(s)
    ensures TrimSpace(s) == s
  {}

  /** splitCSV undoes the join. */
  lemma SplitUndoesJoin(items: seq<string>)
    requires Storable(items)
    ensures CSVItems(Join(items, ",")) == items
  {
    if items != [] {
      SplitJoin(items, ',');
      forall i | 0 <= i < |items| ensures TrimSpace(items[i]) == items[i] {
        assert items[i] in items;
        TrimmedStays(items[i]);
      }
    }
  }

  lemma CSVItemsClean(s: string)
    ensures forall x | x in CSVItems(s) :: ',' !in x && Trimmed(x)
  {
    if s != "" {
      SplitPiecesFree(s, ',');
      forall i | 0 <= i < |Split(s, ',')| ensures ',' !in CSVItems(s)[i] && Trimmed(CSVItems(s)[i]) {
        TrimIsTrimmed(Split(s, ',')[i]);
        assert Split(s, ',')[i] in Split(s, ',');
      }
    }
  }

  /** What the server shows after storing a submitted list: any text with the same set of items (the wish),
      the submitted join otherwise. */
  function Rendered(items: seq<string>, wish: string): string {
    if Elems(CSVItems(wish)) == Elems(CSVItems(Join(items, ","))) then wish else Join(items, ",")
  }

  /** A submitted list reads back as itself, in whatever order the server renders it, exactly when its items
      hold no comma and no outer white space and it is not the one list whose join is empty. */
  lemma ReadsBackIff(items: seq<string>, wish: string)
    requires items != []
    ensures SameSet(items, CSVItems(Rendered(items, wish))) <==> Storable(items)
  {
    hide SameSet, CSVItems;
    var text := Rendered(items, wish);
    SameSetIsSetEquality(items, CSVItems(text));
    if Storable(items) {
      SplitUndoesJoin(items);
    } else if items == [""] {
      OneEmptyItem();
      assert "" in Elems(items) && "" !in Elems(CSVItems(text));
    } else {
      var x :| x in items && !(',' !in x && Trimmed(x));
      CSVItemsClean(text);
      assert x in Elems(items) && x !in Elems(CSVItems(text));
    }
  }

  lemma OneEmptyItem()
    ensures CSVItems(Join([""], ",")) == []
  {}

  // ----- drift

  predicate IdentityMismatch(decl: Decl, got: Datastore) {
    got.kind != decl.kind || (decl.path != "" && got.path != decl.path)
  }

  function UpdateFor(decl: Decl, got: Datastore): Option<Update> {
    var pool := decl.pool != "" && got.pool != decl.pool;
    var content := decl.content != [] && !SameSet(decl.content, CSVItems(got.content));
    var nodes := decl.nodes != [] && !SameSet(decl.nodes, CSVItems(got.nodes));
    var sparse := decl.sparse && got.sparse != "1";
    var disable := decl.disable && !got.disable;
    if !(pool || content || nodes || sparse || disable) then None
    else Some(Update(got.digest, if pool then decl.pool else "", if content then decl.content else [],
                     if nodes then decl.nodes else [], if sparse then Some(true) else None,
                     if disable then Some(true) else None))
  }

  /** Every declared field is the stored one, lists compared as sets of the items the text shows. */
  ghost predicate FieldsMatch(decl: Decl, got: Datastore) {
    && (decl.pool != "" ==> got.pool == decl.pool)
    && (decl.content != [] ==> Elems(CSVItems(got.content)) == Elems(decl.content))
    && (decl.nodes != [] ==> Elems(CSVItems(got.nodes)) == Elems(decl.nodes))
    && (decl.sparse ==> got.sparse == "1") && (decl.disable ==> got.disable)
  }

  /** The stored entry is the declared one. */
  ghost predicate AsDeclared(decl: Decl, got: Datastore) {
    got.kind == decl.kind && (decl.path != "" ==> got.path == decl.path) && FieldsMatch(decl, got)
  }

  /** The update carries the read's digest and exactly the declared fields that are not the stored ones. */
  ghost predicate CarriesDrift(u: Update, decl: Decl, got: Datastore) {
    && u.digest == got.digest
    && u.pool == (if got.pool != decl.pool then decl.pool else "")
    && u.content == (if Elems(CSVItems(got.content)) != Elems(decl.content) then decl.content else [])
    && u.nodes == (if Elems(CSVItems(got.nodes)) != Elems(decl.nodes) then decl.nodes else [])
    && u.sparse == (if decl.sparse && got.sparse != "1" then Some(true) else None)
    && u.disable == (if decl.disable && !got.disable then Some(true) else None)
  }

  /** No drift means every declared field is the stored one; and an update carries each field that is not, and no
      other. */
  lemma NoUpdateIffFieldsMatch(decl: Decl, got: Datastore)
    ensures UpdateFor(decl, got).None? <==> FieldsMatch(decl, got)
    ensures UpdateFor(decl, got).Some? ==> CarriesDrift(UpdateFor(decl, got).value, decl, got)
  {
    hide SameSet, CSVItems;
    SameSetIsSetEquality(decl.content, CSVItems(got.content));
    SameSetIsSetEquality(decl.nodes, CSVItems(got.nodes));
  }

  lemma ConvergedIffDeclared(decl: Decl, w: World)
    ensures Converged(decl, w) <==> decl.name in w && AsDeclared(decl, w[decl.name])
  {
    if decl.name in w { NoUpdateIffFieldsMatch(decl, w[decl.name]); }
  }

  method StorageUpdateFor(decl: Decl, got: Datastore) returns (r: Option<Update>)
    ensures r == UpdateFor(decl, got)
    ensures r.None? <==> FieldsMatch(decl, got)
    ensures r.Some? ==> CarriesDrift(r.value, decl, got)
  {
    hide SameSet, CSVItems, FieldsMatch, CarriesDrift;
    NoUpdateIffFieldsMatch(decl, got);
    var update := Update(got.digest, "", [], [], None, None);
    var drifted := false;
    if decl.pool != "" && got.pool != decl.pool {
      update, drifted := update.(pool := decl.pool), true;
    }
    var content := SplitCSV(got.content);
    if |decl.content| > 0 && !SameSet(decl.content, content) {
      update, drifted := update.(content := decl.content), true;
    }
    var nodes := SplitCSV(got.nodes);
    if |decl.nodes| > 0 && !SameSet(decl.nodes, nodes) {
      update, drifted := update.(nodes := decl.nodes), true;
    }
    if decl.sparse && got.sparse != "1" {
      update, drifted := update.(sparse := Some(true)), true;
    }
    if decl.disable && !got.disable {
      update, drifted := update.(disable := Some(true)), true;
    }
    r := if drifted then Some(update) else None;
  }

  /** The environment's part in one write: how it renders the lists, what it fills in for a created entry's
      undeclared fields, and how the call ends. */
  datatype Choice = Choice(readable: bool, ending: Ending, content: string, nodes: string, defaults: Datastore,
      digest: string)

  /** The server's side of an update: only the fields the update names change. */
  function Updated(got: Datastore, u: Update, e: Choice): Datastore {
    got.(pool := if u.pool != "" then u.pool else got.pool,
         content := if u.content != [] then Rendered(u.content, e.content) else got.content,
         nodes := if u.nodes != [] then Rendered(u.nodes, e.nodes) else got.nodes,
         sparse := if u.sparse == Some(true) then "1" else got.sparse,
         disable := if u.disable == Some(true) then true else got.disable,
         digest := e.digest)
  }

  /** The server's side of a create: declared fields as sent, its own defaults for the rest. */
  function Created(decl: Decl, e: Choice): Datastore {
    Datastore(decl.name, decl.kind,
              if decl.pool != "" then decl.pool else e.defaults.pool,
              if decl.path != "" then decl.path else e.defaults.path,
              if decl.content != [] then Rendered(decl.content, e.content) else e.defaults.content,
              if decl.nodes != [] then Rendered(decl.nodes, e.nodes) else e.defaults.nodes,
              if decl.sparse then "1" else e.defaults.sparse,
              decl.disable, e.digest)
  }

  ghost predicate StorableDecl(decl: Decl) {
    (decl.content == [] || Storable(decl.content)) && (decl.nodes == [] || Storable(decl.nodes))
  }

  /** Applying the update closes every drift, introduces no identity mismatch, and touches nothing the block
      has no opinion on. */
  lemma UpdateConverges(decl: Decl, got: Datastore, e: Choice)
    requires StorableDecl(decl) && !IdentityMismatch(decl, got) && UpdateFor(decl, got).Some?
    ensures var got' := Updated(got, UpdateFor(decl, got).value, e);
            && UpdateFor(decl, got') == None && !IdentityMismatch(decl, got') && AsDeclared(decl, got')
            && got'.storage == got.storage && got'.kind == got.kind && got'.path == got.path
            && (decl.pool == "" ==> got'.pool == got.pool)
            && (decl.content == [] ==> got'.content == got.content)
            && (decl.nodes == [] ==> got'.nodes == got.nodes)
            && (!decl.sparse ==> got'.sparse == got.sparse) && (!decl.disable ==> got'.disable == got.disable)
    ensures UpdateFor(decl, got).value.digest == got.digest
  {
    hide SameSet, CSVItems, Rendered, Storable;
    if decl.content != [] { ReadsBackIff(decl.content, e.content); }
    if decl.nodes != [] { ReadsBackIff(decl.nodes, e.nodes); }
    NoUpdateIffFieldsMatch(decl, Updated(got, UpdateFor(decl, got).value, e));
  }

  lemma CreateConverges(decl: Decl, e: Choice)
    requires StorableDecl(decl)
    ensures var got := Created(decl, e);
            UpdateFor(decl, got) == None && !IdentityMismatch(decl, got) && AsDeclared(decl, got)
  {
    hide SameSet, CSVItems, Rendered, Storable;
    if decl.content != [] { ReadsBackIff(decl.content, e.content); }
    if decl.nodes != [] { ReadsBackIff(decl.nodes, e.nodes); }
    NoUpdateIffFieldsMatch(decl, Created(decl, e));
  }

  /** An update closes the drift exactly when the lists it writes survive the comma join; one that does not is
      written again after every update, for ever. */
  lemma UpdateConvergesIff(decl: Decl, got: Datastore, e: Choice)
    requires UpdateFor(decl, got).Some?
    ensures var u := UpdateFor(decl, got).value;
            UpdateFor(decl, Updated(got, u, e)) == None <==>
              (u.content != [] ==> Storable(decl.content)) && (u.nodes != [] ==> Storable(decl.nodes))
  {
    hide SameSet, CSVItems, Rendered, Storable;
    if decl.content != [] { ReadsBackIff(decl.content, e.content); }
    if decl.nodes != [] { ReadsBackIff(decl.nodes, e.nodes); }
  }

  // ----- the stage

  /** The cluster's storage configuration by name. */
  type World = map<string, Datastore>

  predicate Converged(decl: Decl, w: World) {
    decl.name in w && !IdentityMismatch(decl, w[decl.name]) && UpdateFor(decl, w[decl.name]) == None
  }

  /** storageCheck errors on an identity mismatch instead of reading pending. */
  predicate CheckReads(decl: Decl, w: World, e: Choice) {
    e.readable && (decl.name in w ==> !IdentityMismatch(decl, w[decl.name]))
  }

  predicate ApplySucceeds(decl: Decl, w: World, e: Choice) {
    CheckReads(decl, w, e) && e.ending == Fine
  }

  /** applyStorage */
  function Applied(decl: Decl, w: World, e: Choice): World {
    if !CheckReads(decl, w, e) || e.ending == Rejected then w
    else if decl.name !in w then w[decl.name := Created(decl, e)]
    else
      match UpdateFor(decl, w[decl.name])
      case None => w
      case Some(u) => w[decl.name := Updated(w[decl.name], u, e)]
  }

  function StorageStep(decl: Decl): Steps.Step<World, Choice> {
    Steps.Step("storage-" + decl.name,
               w => Converged(decl, w), (w, e) => CheckReads(decl, w, e),
               (w, e) => ApplySucceeds(decl, w, e), (w, e) => Applied(decl, w, e))
  }

  function Stage(decls: seq<Decl>): seq<Steps.Step<World, Choice>> {
    seq(|decls|, i requires 0 <= i < |decls| => StorageStep(decls[i]))
  }

  function DeclNames(decls: seq<Decl>): seq<string> {
    seq(|decls|, i requires 0 <= i < |decls| => decls[i].name)
  }

  lemma ApplyConverges(decl: Decl, w: World, e: Choice)
    requires StorableDecl(decl) && !Converged(decl, w) && ApplySucceeds(decl, w, e)
    ensures Converged(decl, Applied(decl, w, e))
  {
    hide UpdateFor, IdentityMismatch, Updated, Created;
    if decl.name !in w {
      CreateConverges(decl, e);
    } else {
      UpdateConverges(decl, w[decl.name], e);
    }
  }

  /** The storage stage is convergent: distinct names keep the steps out of each other's way. */
  lemma StorageStageConvergent(decls: seq<Decl>)
    requires Distinct(DeclNames(decls)) && forall d | d in decls :: StorableDecl(d)
    ensures Steps.Convergent(Stage(decls), w => true)
  {
    hide Converged, CheckReads, StorableDecl;
    var stage, inv := Stage(decls), (w: World) => true;
    forall i, w, e | 0 <= i < |stage| && inv(w) && !stage[i].done(w)
      ensures inv(stage[i].effect(w, e)) && (stage[i].succeeds(w, e) ==> stage[i].done(stage[i].effect(w, e)))
    {
      assert decls[i] in decls;
      if stage[i].succeeds(w, e) { ApplyConverges(decls[i], w, e); }
    }
    forall i, j, w, e | 0 <= i < |stage| && 0 <= j < |stage| && inv(w) && !stage[i].done(w) && stage[j].done(w)
      ensures stage[j].done(stage[i].effect(w, e))
    {
      assert i != j;
      assert DeclNames(decls)[i] != DeclNames(decls)[j];
      OtherEntryKept(decls[i], decls[j], w, e);
    }
  }

  lemma OtherEntryKept(a: Decl, b: Decl, w: World, e: Choice)
    requires a.name != b.name
    ensures Converged(b, Applied(a, w, e)) == Converged(b, w)
  {}

  /** So any history of failed and interrupted runs, ended by one that completes, leaves every declared entry
      converged, having written at most once per entry that was pending. */
  lemma StorageRunsConverge(decls: seq<Decl>, w: World, runs: seq<seq<Choice>>, last: seq<Choice>)
    requires Distinct(DeclNames(decls)) && forall d | d in decls :: StorableDecl(d)
    requires |last| == |decls| && forall r | r in runs :: |r| == |decls|
    ensures forall r | r in runs :: |r| == |Stage(decls)|
    ensures var (end, applied) := Steps.History(Stage(decls), w, runs);
            var o := Steps.RunFrom(Stage(decls), 0, end, last, 0);
            && applied + o.res.applied <= Steps.Pending(Stage(decls), w)
            && (o.err.None? ==> forall d | d in decls :: d.name in o.world && AsDeclared(d, o.world[d.name]))
  {
    hide StorableDecl, Converged, AsDeclared;
    var stage := Stage(decls);
    StorageStageConvergent(decls);
    Steps.FinalRunConverges(stage, w => true, w, runs, last);
    var end := Steps.History(stage, w, runs).0;
    var o := Steps.RunFrom(stage, 0, end, last, 0);
    if o.err.None? {
      forall d | d in decls ensures d.name in o.world && AsDeclared(d, o.world[d.name]) {
        ConvergedIffDeclared(d, o.world);
        var i :| 0 <= i < |decls| && decls[i] == d;
        assert stage[i].done(o.world);
      }
    }
  }
}
