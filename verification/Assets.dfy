/** Boot-asset staging (emit/assets.go): download to a temporary file, check, rename, record the digest - with a
    crash or a failure possible after every file operation. */
module Assets {
  import opened Common
  import opened Text

  /** The files of the tree, by what they are to the asset at a path. */
  datatype File = Dest(path: string) | Sidecar(path: string) | Partial(path: string, n: nat)

  type Files = map<File, string>

  datatype Readiness = Ready | NotReady | Mismatch

  /** assetReady: the sidecar is present, the file is present, and the file's digest is the recorded one. */
  function ReadinessOf(files: Files, hash: string -> string, path: string): Readiness {
    if Sidecar(path) !in files || Dest(path) !in files then NotReady
    else if hash(files[Dest(path)]) != TrimSpace(files[Sidecar(path)]) then Mismatch
    else Ready
  }

  /** What the first asset that is not ready says of the list: not ready, or an error for a mismatch. */
  function AllReady(files: Files, hash: string -> string, paths: seq<string>): Option<bool> {
    if paths == [] then Some(true)
    else
      match ReadinessOf(files, hash, paths[0])
      case Ready => AllReady(files, hash, paths[1..])
      case NotReady => Some(false)
      case Mismatch => None
  }

  lemma {:induction false} AllReadyIff(files: Files, hash: string -> string, paths: seq<string>)
    ensures AllReady(files, hash, paths) == Some(true) <==>
              forall p | p in paths :: ReadinessOf(files, hash, p) == Ready
  {
    hide ReadinessOf;
    if paths != [] {
      AllReadyIff(files, hash, paths[1..]);
      assert forall p | p in paths :: p == paths[0] || p in paths[1..];
    }
  }

  /** A digest: hexadecimal text of one length. */
  ghost predicate IsDigest(hash: string -> string) {
    (forall s :: hash(s) != "" && forall c | c in hash(s) :: !IsSpace(c)) && forall s, t :: |hash(s)| == |hash(t)|
  }

  function Record(hash: string -> string, body: string): string { hash(body) + "\n" }

  /** How far a download got before it ended, whatever ended it. */
  datatype Stage = Untouched | Renamed | Recording(k: nat)

  /** The tree without its temporary files. */
  function Staged(files: Files): Files {
    map f | f in files && !f.Partial? :: files[f]
  }

  /** Trees that differ in temporaries only have the same destinations. */
  lemma StagedKeeps(a: Files, b: Files)
    requires Staged(a) == Staged(b)
    ensures forall p :: (Dest(p) in a <==> Dest(p) in b) && (Dest(p) in a ==> a[Dest(p)] == b[Dest(p)])
  {
    forall p ensures (Dest(p) in a <==> Dest(p) in b) && (Dest(p) in a ==> a[Dest(p)] == b[Dest(p)]) {
      assert Dest(p) in Staged(a) <==> Dest(p) in a;
      assert Dest(p) in Staged(b) <==> Dest(p) in b;
    }
  }

  lemma StagedUpdate(files: Files, f: File, text: string)
    ensures Staged(files[f := text]) == if f.Partial? then Staged(files) else Staged(files)[f := text]
    ensures f.Partial? ==> Staged(files - {f}) == Staged(files)
  {}

  /** The tree after that much of a download of body: nothing else differs but temporaries. */
  function Reached(st: Stage, before: Files, hash: string -> string, path: string, body: string): Files
    requires st.Recording? ==> st.k <= |Record(hash, body)|
  {
    match st
    case Untouched => Staged(before)
    case Renamed => Staged(before)[Dest(path) := body]
    case Recording(k) => Staged(before)[Dest(path) := body][Sidecar(path) := Record(hash, body)[..k]]
  }

  predicate Possible(st: Stage, hash: string -> string, body: string) {
    st.Recording? ==> st.k <= |Record(hash, body)|
  }

  /** What a re-run finds, exactly, at each point a download can stop: the asset is never ready with content the
      sidecar does not name, and the re-run is stuck on a mismatch exactly when the digest record was torn or an
      older record named other content. */
  lemma StoppedDownload(st: Stage, before: Files, after: Files, hash: string -> string, path: string, body: string)
    requires IsDigest(hash) && Possible(st, hash, body) && Staged(after) == Reached(st, before, hash, path, body)
    requires ReadinessOf(before, hash, path) == NotReady
    ensures ReadinessOf(after, hash, path) ==
              match st
              case Untouched => NotReady
              case Renamed =>
                if Sidecar(path) !in before then NotReady
                else if TrimSpace(before[Sidecar(path)]) == hash(body) then Ready
                else Mismatch
              case Recording(k) => if k >= |hash(body)| then Ready else Mismatch
  {
    ReadinessOfStaged(after, hash, path);
    ReadinessOfStaged(before, hash, path);
    if st.Recording? {
      var d, k := hash(body), st.k;
      if k <= |d| {
        assert Record(hash, body)[..k] == d[..k];
        SolidTrims(d[..k]);
      } else {
        assert Record(hash, body)[..k] == "" + d + "\n";
        SolidTrims(d);
        assert AllSpace("\n") && AllSpace("");
        TrimPadded("", d, "\n");
      }
    }
  }

  lemma ReadinessOfStaged(files: Files, hash: string -> string, path: string)
    ensures ReadinessOf(files, hash, path) == ReadinessOf(Staged(files), hash, path)
  {}

  lemma SolidTrims(s: string)
    requires forall c | c in s :: !IsSpace(c)
    ensures TrimSpace(s) == s
  {
    assert s != "" ==> s[0] in s && s[|s| - 1] in s;
  }

  datatype End = Done | Failed | Crashed

  /** The tree on disk, with what has been fetched into it. */
  class Tree {
    const hash: string -> string
    var files: Files
    ghost var fetched: seq<string>              // asset paths downloads were started for
    ghost var complete: set<(string, string)>   // (path, content) of transfers that arrived whole
    ghost var faults: nat                       // operations the environment refused or cut short

    constructor (h: string -> string)
      ensures hash == h && files == map[] && fetched == [] && complete == {} && faults == 0
    {
      hash, files, fetched, complete, faults := h, map[], [], {}, 0;
    }

    /** Whatever stands at a destination is a transfer that arrived whole. */
    ghost predicate OnlyComplete()
      reads this
    {
      forall p | Dest(p) in files :: (p, files[Dest(p)]) in complete
    }

    /** How one operation goes: as the environment likes. */
    method Attempt() returns (verdict: End)
      modifies this`faults
      ensures old(faults) <= faults && (verdict == Done <==> faults == old(faults))
    {
      verdict := *;
      if verdict != Done {
        faults := faults + 1;
      }
    }

    /** assetReady; it gives no answer only when a read failed. */
    method AssetReady(path: string) returns (r: Option<Readiness>)
      modifies this`faults
      ensures old(faults) <= faults && (r.None? <==> faults != old(faults))
      ensures r.Some? ==> r.value == ReadinessOf(files, hash, path)
    {
      var verdict := Attempt();
      if verdict != Done {
        return None;
      }
      r := Some(ReadinessOf(files, hash, path));
    }

    /** assetsReady: the first asset that is not ready decides; a failed read is an error. */
    method AssetsReady(paths: seq<string>) returns (r: Option<bool>)
      modifies this`faults
      ensures old(faults) <= faults
      ensures r == if faults == old(faults) then AllReady(files, hash, paths) else None
    {
      hide ReadinessOf;
      for i := 0 to |paths|
        invariant faults == old(faults) && AllReady(files, hash, paths[i..]) == AllReady(files, hash, paths)
      {
        assert paths[i..][0] == paths[i] && paths[i..][1..] == paths[i + 1..];
        var ready := AssetReady(paths[i]);
        if ready.None? {
          return None;
        }
        if ready.value != Ready {
          return if ready.value == Mismatch then None else Some(false);
        }
      }
      assert paths[|paths|..] == [];
      r := Some(true);
    }

    /** The copy into the temporary file, chunk by chunk. */
    method CopyInto(tmp: File, body: string) returns (end: End)
      requires tmp.Partial? && tmp in files
      modifies this`files, this`faults
      ensures tmp in files && files == old(files)[tmp := files[tmp]]
      ensures old(faults) <= faults && (end == Done <==> faults == old(faults))
      ensures end == Done ==> files[tmp] == body
    {
      var i := 0;
      files := files[tmp := ""];
      while i < |body|
        invariant i <= |body| && tmp in files && files == old(files)[tmp := body[..i]] && faults == old(faults)
        decreases |body| - i
      {
        assert i < i + 1 <= |body|;
        var chunk :| i < chunk <= |body|;
        files := files[tmp := body[..chunk]];
        i := chunk;
        var verdict := Attempt();
        if verdict != Done {
          return verdict;
        }
      }
      assert body[..|body|] == body;
      end := Done;
    }

    /** The temporary file goes, best effort. */
    method Discard(tmp: File)
      requires tmp.Partial?
      modifies this`files, this`faults
      ensures old(faults) <= faults && (files == old(files) || files == old(files) - {tmp})
      ensures Staged(files) == Staged(old(files))
    {
      StagedUpdate(files, tmp, "");
      var removed := Attempt();
      if removed == Done {
        files := files - {tmp};
      }
    }

    /** The temporary file holding the whole of what arrives; announced, when positive, is the length the server
        named. */
    method Receive(path: string, body: string, announced: int) returns (end: End, tmp: File)
      modifies this`files, this`faults
      ensures tmp.Partial? && Staged(files) == Staged(old(files)) && old(faults) <= faults
      ensures end == Done ==> tmp in files && files[tmp] == body && (announced <= 0 || |body| == announced)
      ensures end != Done ==> faults > old(faults) || (announced > 0 && |body| != announced)
    {
      tmp := FreshPartial(path);
      end := Attempt();
      if end != Done {
        return;
      }
      StagedUpdate(files, tmp, "");
      files := files[tmp := ""];
      ghost var empty := files;
      end := CopyInto(tmp, body);
      StagedUpdate(empty, tmp, files[tmp]);
      if end == Done {
        if announced > 0 && |body| != announced {
          end := Failed;
        } else {
          end := Attempt();   // close and chmod
        }
      }
      if end == Failed {
        Discard(tmp);
      }
    }

    /** writeAtomic: short of a whole accepted transfer nothing but temporaries changes. */
    method WriteAtomic(path: string, body: string, announced: int) returns (end: End, ghost placed: bool)
      requires OnlyComplete()
      modifies this`files, this`complete, this`faults
      ensures Staged(files) == Reached(if placed then Renamed else Untouched, old(files), hash, path, body)
      ensures OnlyComplete() && old(complete) <= complete && old(faults) <= faults
      ensures placed ==> announced <= 0 || |body| == announced
      ensures end == Done ==> placed && Dest(path) in files && files[Dest(path)] == body
      ensures end != Done ==> faults > old(faults) || (announced > 0 && |body| != announced)
    {
      placed := false;
      var tmp;
      end, tmp := Receive(path, body, announced);
      StagedKeeps(old(files), files);
      if end != Done {
        return;
      }
      complete := complete + {(path, body)};
      end := Attempt();   // rename
      if end == Failed {
        ghost var before := files;
        Discard(tmp);
        StagedKeeps(before, files);
        return;
      }
      var renamed: bool := *;
      if end == Crashed && !renamed {
        return;
      }
      StagedUpdate(files, Dest(path), body);
      StagedUpdate(files[Dest(path) := body], tmp, "");
      files := files[Dest(path) := body] - {tmp};
      placed := true;
    }

    method FreshPartial(path: string) returns (tmp: File)
      ensures tmp.Partial? && tmp.path == path && tmp !in files
    {
      var n := 0;
      ghost var taken: set<File> := {};
      while Partial(path, n) in files
        invariant taken <= files.Keys && |taken| == n && forall f | f in taken :: f.Partial? && f.n < n
        decreases |files.Keys| - n
      {
        ghost var more := taken + {Partial(path, n)};
        SubsetSize(more, files.Keys);
        taken, n := more, n + 1;
      }
      tmp := Partial(path, n);
    }

    /** download: the request, the transfer, and the digest record. Without a fault or a short transfer it
        succeeds. */
    method Download(path: string, body: string, announced: int) returns (end: End, ghost st: Stage)
      requires OnlyComplete()
      modifies this
      ensures Possible(st, hash, body) && Staged(files) == Reached(st, old(files), hash, path, body)
      ensures OnlyComplete() && old(complete) <= complete && fetched == old(fetched) + [path] && old(faults) <= faults
      ensures st != Untouched ==> announced <= 0 || |body| == announced
      ensures end == Done ==> st == Recording(|Record(hash, body)|)
      ensures end != Done ==> faults > old(faults) || (announced > 0 && |body| != announced)
    {
      hide Staged;
      fetched := fetched + [path];
      st := Untouched;
      end := Attempt();   // the directory, the request and its status
      if end != Done {
        return;
      }
      ghost var placed;
      end, placed := WriteAtomic(path, body, announced);
      st := if placed then Renamed else Untouched;
      if end != Done {
        return;
      }
      ghost var staged := files;
      end, st := RecordDigest(path, body);
      if st.Recording? { StagedUpdate(staged, Sidecar(path), Record(hash, body)[..st.k]); }
    }

    /** os.WriteFile truncates and then writes, so a record can be torn at any length. */
    method RecordDigest(path: string, body: string) returns (end: End, ghost st: Stage)
      requires Dest(path) in files && files[Dest(path)] == body
      modifies this`files, this`faults
      ensures if st == Renamed then files == old(files)
              else
                st.Recording? && st.k <= |Record(hash, body)|
                && files == old(files)[Sidecar(path) := Record(hash, body)[..st.k]]
      ensures end == Done ==> st == Recording(|Record(hash, body)|)
      ensures old(faults) <= faults && (end == Done <==> faults == old(faults))
    {
      var start := Attempt();
      if start != Done {
        return start, Renamed;
      }
      var text := Record(hash, body);
      var k := 0;
      files := files[Sidecar(path) := text[..0]];
      while k < |text|
        invariant k <= |text| && files == old(files)[Sidecar(path) := text[..k]] && faults == old(faults)
      {
        var verdict := Attempt();
        if verdict != Done {
          return verdict, Recording(k);
        }
        k := k + 1;
        files := files[Sidecar(path) := text[..k]];
      }
      end, st := Done, Recording(k);
    }

    /** downloadAssets: what was ready is not fetched again and stays ready; on success everything is ready; at any
        stop every destination is absent or whole. It stops for every asset that reads mismatched at the start, and
        otherwise only for a fault or a short transfer. */
    method DownloadAssets(paths: seq<string>, bodies: seq<string>, lengths: seq<int>) returns (end: End)
      requires IsDigest(hash) && OnlyComplete() && Distinct(paths) && |paths| == |bodies| == |lengths|
      modifies this
      ensures OnlyComplete()
      ensures end == Done ==> forall p | p in paths :: ReadinessOf(files, hash, p) == Ready
      ensures end == Done ==> forall p | p in paths :: ReadinessOf(old(files), hash, p) != Mismatch
      ensures end != Done ==>
                || faults > old(faults) || (exists p | p in paths :: ReadinessOf(old(files), hash, p) == Mismatch)
                || (exists i | 0 <= i < |paths| :: lengths[i] > 0 && |bodies[i]| != lengths[i])
      ensures forall p | ReadinessOf(old(files), hash, p) == Ready :: ReadinessOf(files, hash, p) == Ready
      ensures exists more ::
                fetched == old(fetched) + more
                && forall p | p in more :: p in paths && ReadinessOf(old(files), hash, p) == NotReady
    {
      hide ReadinessOf, Reached, Staged, IsDigest, Possible;
      ghost var more: seq<string> := [];
      for i := 0 to |paths|
        invariant OnlyComplete() && old(faults) <= faults
        invariant forall j | 0 <= j < i :: ReadinessOf(old(files), hash, paths[j]) != Mismatch
        invariant forall j | 0 <= j < i :: ReadinessOf(files, hash, paths[j]) == Ready
        invariant forall p | p !in paths[..i] :: ReadinessOf(files, hash, p) == ReadinessOf(old(files), hash, p)
        invariant forall p | ReadinessOf(old(files), hash, p) == Ready :: ReadinessOf(files, hash, p) == Ready
        invariant fetched == old(fetched) + more
        invariant forall p | p in more :: p in paths && ReadinessOf(old(files), hash, p) == NotReady
      {
        NotYetSeen(paths, i);
        var ready := AssetReady(paths[i]);
        if ready.None? || ready.value == Mismatch {
          return Failed;
        }
        if ready.value == Ready {
          continue;
        }
        ghost var before := files;
        ghost var st;
        end, st := Download(paths[i], bodies[i], lengths[i]);
        more := more + [paths[i]];
        assert fetched == old(fetched) + more;
        OthersKeepReadiness(st, before, files, hash, paths[i], bodies[i]);
        if end != Done {
          return;
        }
        StoppedDownload(st, before, files, hash, paths[i], bodies[i]);
      }
      end := Done;
    }
  }

  lemma NotYetSeen(paths: seq<string>, i: nat)
    requires i < |paths| && Distinct(paths)
    ensures paths[i] !in paths[..i] && paths[..i + 1] == paths[..i] + [paths[i]] && paths[i] in paths
  {}

  lemma OthersKeepReadiness(st: Stage, before: Files, after: Files, hash: string -> string, path: string, body: string)
    requires Possible(st, hash, body) && Staged(after) == Reached(st, before, hash, path, body)
    ensures forall p | p != path :: ReadinessOf(after, hash, p) == ReadinessOf(before, hash, p)
  {
    forall p | p != path ensures ReadinessOf(after, hash, p) == ReadinessOf(before, hash, p) {
      ReadinessOfStaged(after, hash, p);
      ReadinessOfStaged(before, hash, p);
    }
  }
}
