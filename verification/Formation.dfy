/** Cluster formation (pve/form.go): create on the primary, join the rest one at a time, each join gated on an
    observed quorum. The environment answers every read as it likes - membership and quorum may flap between
    polls, calls may fail - and the properties are about every trace this allows. */
module Formation {
  import opened Common

  datatype PVENode = PVENode(name: string, endpoint: string, address: string, primary: bool)

  /** One entry of the cluster status. */
  datatype Entry = ClusterEntry(name: string, quorate: bool, nodes: int) | NodeEntry(online: bool) | OtherEntry

  // ----- quorate

  /** The positions of the nodes online. */
  ghost function OnlineAt(entries: seq<Entry>): set<int> {
    set i | 0 <= i < |entries| && entries[i] == NodeEntry(true)
  }

  /** The cluster entry that counts is the last one. */
  ghost predicate LastCluster(entries: seq<Entry>, c: int) {
    0 <= c < |entries| && entries[c].ClusterEntry? && forall i | c < i < |entries| :: !entries[i].ClusterEntry?
  }

  predicate Fits(e: Entry, name: string, want: int) {
    e.ClusterEntry? && e.name == name && e.quorate && e.nodes >= want
  }

  ghost predicate ClusterFits(entries: seq<Entry>, name: string, want: int) {
    exists c :: LastCluster(entries, c) && Fits(entries[c], name, want)
  }

  /** Quorate under the configured name, with at least want members configured and at least want online. */
  ghost predicate Quorate(entries: seq<Entry>, name: string, want: int) {
    ClusterFits(entries, name, want) && |OnlineAt(entries)| >= want
  }

  lemma OneMoreEntry(entries: seq<Entry>, i: nat, name: string, want: int)
    requires i < |entries|
    ensures |OnlineAt(entries[..i + 1])| == |OnlineAt(entries[..i])| + if entries[i] == NodeEntry(true) then 1 else 0
    ensures ClusterFits(entries[..i + 1], name, want) <==>
              if entries[i].ClusterEntry? then Fits(entries[i], name, want) else ClusterFits(entries[..i], name, want)
  {
    var before, after := entries[..i], entries[..i + 1];
    assert after == before + [entries[i]];
    assert OnlineAt(after) == OnlineAt(before) + if entries[i] == NodeEntry(true) then {i} else {};
    if entries[i].ClusterEntry? {
      assert LastCluster(after, i);
    } else {
      forall c ensures LastCluster(after, c) <==> LastCluster(before, c) {}
    }
  }

  method CountQuorum(entries: seq<Entry>, name: string, want: int) returns (ok: bool)
    ensures ok == Quorate(entries, name, want)
  {
    var clusterOK := false;
    var online := 0;
    for i := 0 to |entries|
      invariant online == |OnlineAt(entries[..i])|
      invariant clusterOK <==> ClusterFits(entries[..i], name, want)
    {
      OneMoreEntry(entries, i, name, want);
      match entries[i]
      case ClusterEntry(n, q, k) => clusterOK := n == name && q && k >= want;
      case NodeEntry(up) => if up { online := online + 1; }
      case OtherEntry =>
    }
    assert entries[..|entries|] == entries;
    ok := clusterOK && online >= want;
  }

  // ----- traces

  /** What passes between the tool and the cluster: the two reads with their answers (None for a failed one), the
      two writes, and a refusal - of a dial, of the join-info read, or of the create just issued. */
  datatype Event =
    | Listed(members: Option<seq<string>>)
    | Status(entries: Option<seq<Entry>>)
    | Created
    | Joined(node: string)
    | Refused

  predicate IsWrite(e: Event) { e.Created? || e.Joined? }

  ghost predicate ShowsQuorum(e: Event, name: string, want: int) {
    e.Status? && e.entries.Some? && Quorate(e.entries.value, name, want)
  }

  /** Between i and j: a membership listing, and after it a quorate observation covering everyone listed. */
  ghost predicate GateWithin(t: seq<Event>, name: string, i: int, j: int) {
    exists m, k | 0 <= i < m < k < j <= |t| :: t[m].Listed? && t[m].members.Some?
        && ShowsQuorum(t[k], name, |t[m].members.value|)
  }

  /** Two joins never touch corosync without an observed quorum of every member listed in between. */
  ghost predicate JoinsGated(t: seq<Event>, name: string) {
    forall i, j | 0 <= i < j < |t| && t[i].Joined? && t[j].Joined? :: GateWithin(t, name, i, j)
  }

  /** Every join so far has been followed by its gate. */
  ghost predicate AllGated(t: seq<Event>, name: string) {
    forall i | 0 <= i < |t| && t[i].Joined? :: GateWithin(t, name, i, |t|)
  }

  /** The member a write is about. */
  function Subject(e: Event, primary: string): string
    requires IsWrite(e)
  {
    if e.Created? then primary else e.node
  }

  /** Each write directly follows its step's own membership read, which failed or did not show the member. */
  ghost predicate WritesChecked(t: seq<Event>, primary: string) {
    forall i | 0 <= i < |t| && IsWrite(t[i]) ::
      i > 0 && t[i - 1].Listed? && (t[i - 1].members.Some? ==> Subject(t[i], primary) !in t[i - 1].members.value)
  }

  /** The create, if any, comes before every join. */
  ghost predicate CreateFirst(t: seq<Event>) {
    forall i, j | 0 <= i < |t| && 0 <= j < |t| && t[i].Created? && t[j].Joined? :: i < j
  }

  ghost predicate Safe(t: seq<Event>, name: string, primary: string) {
    JoinsGated(t, name) && WritesChecked(t, primary) && CreateFirst(t)
  }

  ghost predicate OnlyReads(t: seq<Event>) {
    forall e | e in t :: !IsWrite(e)
  }

  /** Since before, only reads happened. */
  ghost predicate ReadsSince(before: seq<Event>, after: seq<Event>) {
    before <= after && OnlyReads(after[|before|..])
  }

  /** The writes of a trace, in order. */
  ghost function Writes(t: seq<Event>): seq<Event> {
    if t == [] then [] else Writes(t[..|t| - 1]) + if IsWrite(t[|t| - 1]) then [t[|t| - 1]] else []
  }

  lemma {:induction false} ReadsWriteNothing(before: seq<Event>, after: seq<Event>)
    requires ReadsSince(before, after)
    ensures Writes(after) == Writes(before)
    decreases |after|
  {
    if |before| < |after| {
      var n := |after| - 1;
      assert after[|before|..][n - |before|] == after[n] && after[n] in after[|before|..];
      assert after[..n][|before|..] == after[|before|..][..n - |before|];
      assert forall e | e in after[..n][|before|..] :: e in after[|before|..];
      ReadsWriteNothing(before, after[..n]);
    } else {
      assert after == before;
    }
  }

  lemma WritesAppend(t: seq<Event>, w: Event)
    ensures Writes(t + [w]) == Writes(t) + if IsWrite(w) then [w] else []
  {
    assert (t + [w])[..|t|] == t;
  }

  /** The joins of the first n configured nodes, skipping the primary and whichever others skip says. */
  ghost function Planned(nodes: seq<PVENode>, n: nat, skip: set<int>): seq<Event>
    requires n <= |nodes|
  {
    if n == 0 then []
    else Planned(nodes, n - 1, skip) + if nodes[n - 1].primary || n - 1 in skip then [] else [Joined(nodes[n - 1].name)]
  }

  lemma {:induction false} PlannedSame(nodes: seq<PVENode>, n: nat, skip: set<int>, extra: int)
    requires n <= |nodes| && extra >= n
    ensures Planned(nodes, n, skip) == Planned(nodes, n, skip + {extra})
  {
    if n > 0 { PlannedSame(nodes, n - 1, skip, extra); }
  }

  lemma ReadsAppendNothing(t: seq<Event>)
    ensures ReadsSince(t, t)
  {}

  lemma ReadsChain(a: seq<Event>, b: seq<Event>, c: seq<Event>)
    requires ReadsSince(a, b) && ReadsSince(b, c)
    ensures ReadsSince(a, c)
  {
    assert c[|a|..] == b[|a|..] + c[|b|..];
  }

  /** The last event is a nodelist read; present says whether it succeeded and shows the member. */
  ghost predicate Shows(t: seq<Event>, member: string, present: bool) {
    t != [] && t[|t| - 1].Listed? && (present <==> t[|t| - 1].members.Some? && member in t[|t| - 1].members.value)
  }

  lemma ReadsAppend(before: seq<Event>, t: seq<Event>, e: Event)
    requires ReadsSince(before, t) && !IsWrite(e)
    ensures ReadsSince(before, t + [e])
  {
    assert (t + [e])[|before|..] == t[|before|..] + [e];
  }

  lemma GateExtends(t: seq<Event>, u: seq<Event>, name: string, i: int, j: int)
    requires GateWithin(t, name, i, j)
    ensures GateWithin(t + u, name, i, j)
    ensures forall j' | j <= j' <= |t + u| :: GateWithin(t + u, name, i, j')
  {
    var m, k :| 0 <= i < m < k < j <= |t| && t[m].Listed? && t[m].members.Some?
        && ShowsQuorum(t[k], name, |t[m].members.value|);
    assert (t + u)[m] == t[m] && (t + u)[k] == t[k];
  }

  /** Reads keep every property. */
  lemma ReadsKeepSafe(t: seq<Event>, v: seq<Event>, name: string, primary: string)
    requires Safe(t, name, primary) && ReadsSince(t, v)
    ensures Safe(v, name, primary)
    ensures AllGated(t, name) ==> AllGated(v, name)
    ensures (forall e | e in t :: !e.Joined?) ==> forall e | e in v :: !e.Joined?
  {
    var u := v[|t|..];
    assert v == t + u;
    forall i | |t| <= i < |v| ensures !IsWrite(v[i]) { assert v[i] == u[i - |t|] && v[i] in u; }
    forall i, j | 0 <= i < j < |v| && v[i].Joined? && v[j].Joined? ensures GateWithin(v, name, i, j) {
      assert t[i] == v[i] && t[j] == v[j];
      GateExtends(t, u, name, i, j);
    }
    if AllGated(t, name) {
      forall i | 0 <= i < |v| && v[i].Joined? ensures GateWithin(v, name, i, |v|) {
        assert t[i] == v[i];
        GateExtends(t, u, name, i, |t|);
      }
    }
    forall i | 0 <= i < |v| && IsWrite(v[i])
      ensures i > 0 && v[i - 1].Listed?
              && (v[i - 1].members.Some? ==> Subject(v[i], primary) !in v[i - 1].members.value)
    {
      assert t[i] == v[i] && (i > 0 ==> t[i - 1] == v[i - 1]);
    }
    forall i, j | 0 <= i < |v| && 0 <= j < |v| && v[i].Created? && v[j].Joined? ensures i < j {
      assert t[i] == v[i] && t[j] == v[j];
    }
  }

  /** A write may be issued right after its own negative check, once everything joined before is gated. */
  lemma WriteKeepsSafe(t: seq<Event>, w: Event, name: string, primary: string)
    requires Safe(t, name, primary) && AllGated(t, name) && IsWrite(w)
    requires t != [] && t[|t| - 1].Listed?
             && (t[|t| - 1].members.Some? ==> Subject(w, primary) !in t[|t| - 1].members.value)
    requires w.Created? ==> forall e | e in t :: !e.Joined?
    ensures Safe(t + [w], name, primary)
  {
    var v := t + [w];
    forall i, j | 0 <= i < j < |v| && v[i].Joined? && v[j].Joined? ensures GateWithin(v, name, i, j) {
      assert t[i] == v[i];
      if j < |t| {
        GateExtends(t, [w], name, i, j);
      } else {
        GateExtends(t, [w], name, i, |t|);
      }
    }
    forall i | 0 <= i < |v| && IsWrite(v[i])
      ensures i > 0 && v[i - 1].Listed?
              && (v[i - 1].members.Some? ==> Subject(v[i], primary) !in v[i - 1].members.value)
    {
      if i < |t| { assert t[i] == v[i] && (i > 0 ==> t[i - 1] == v[i - 1]); } else { assert v[i - 1] == t[|t| - 1]; }
    }
    forall i, j | 0 <= i < |v| && 0 <= j < |v| && v[i].Created? && v[j].Joined? ensures i < j {
      assert i < |t| ==> t[i] == v[i];
      assert j < |t| ==> t[j] == v[j] && t[j] in t;
    }
  }

  /** A join closes with a listing and a quorate observation of everyone listed: then all joins are gated again. */
  lemma GateCloses(t: seq<Event>, joined: int, listed: int, quorate: int, name: string)
    requires 0 <= joined < listed < quorate < |t|
    requires t[listed].Listed? && t[listed].members.Some? && ShowsQuorum(t[quorate], name, |t[listed].members.value|)
    requires forall i | joined < i < |t| :: !t[i].Joined?
    ensures AllGated(t, name)
  {}

  /** The last event does not show what a wait was for: the member, or a quorum of want. */
  ghost predicate NotShown(t: seq<Event>, member: string) {
    Shows(t, member, false)
  }

  ghost predicate NotQuorate(t: seq<Event>, name: string, want: int) {
    t != [] && t[|t| - 1].Status? && !ShowsQuorum(t[|t| - 1], name, want)
  }

  /** Why a join stops a run: something was refused, the member never showed, the listing after it failed, or its
      members never reached quorum. */
  ghost predicate JoinStuck(t: seq<Event>, name: string, node: string) {
    && t != []
    && (t[|t| - 1] == Refused || NotShown(t, node) || t[|t| - 1] == Listed(None)
        || exists m | 0 <= m < |t| && t[m].Listed? && t[m].members.Some? :: NotQuorate(t, name, |t[m].members.value|))
  }

  /** Why a run stops: nothing else ends it early. */
  ghost predicate Stuck(t: seq<Event>, name: string, primary: string, nodes: seq<PVENode>) {
    && t != []
    && (t[|t| - 1] == Refused || NotShown(t, primary) || NotQuorate(t, name, |nodes|)
        || exists n | n in nodes && !n.primary :: JoinStuck(t, name, n.name))
  }

  /** A join step's part of the trace, events from..to: none for the primary; else the step's own read, which
      alone makes the step when it shows the node, and is followed at once by the join when it does not. */
  ghost predicate StepFollowed(t: seq<Event>, node: PVENode, skipped: bool, from: nat, to: nat) {
    && from <= to <= |t|
    && if node.primary then to == from && !skipped
       else
         && from < to && t[from].Listed? && skipped == ShownAt(t, from, node.name)
         && if skipped then to == from + 1 else from + 1 < to && t[from + 1] == Joined(node.name)
  }

  ghost predicate ShownAt(t: seq<Event>, i: nat, member: string)
    requires i < |t| && t[i].Listed?
  {
    t[i].members.Some? && member in t[i].members.value
  }

  /** The first n nodes' steps, one after the other, at[k] being where step k begins. */
  ghost predicate StepsFollowed(t: seq<Event>, nodes: seq<PVENode>, n: nat, skip: set<int>, at: seq<nat>)
    requires n <= |nodes|
  {
    |at| == n + 1 && at[n] <= |t| && forall k | 0 <= k < n :: StepFollowed(t, nodes[k], k in skip, at[k], at[k + 1])
  }

  lemma StepsFollowedKept(t: seq<Event>, v: seq<Event>, nodes: seq<PVENode>, n: nat, skip: set<int>, at: seq<nat>)
    requires t <= v && n <= |nodes| && StepsFollowed(t, nodes, n, skip, at)
    ensures StepsFollowed(v, nodes, n, skip, at)
  {
    forall k | 0 <= k < n ensures StepFollowed(v, nodes[k], k in skip, at[k], at[k + 1]) {
      assert StepFollowed(t, nodes[k], k in skip, at[k], at[k + 1]);
    }
  }

  lemma StepAdded(t: seq<Event>, nodes: seq<PVENode>, n: nat, skip: set<int>, at: seq<nat>, skipped: bool, to: nat)
    requires n < |nodes| && StepsFollowed(t, nodes, n, skip, at) && forall k | k in skip :: k < n
    requires StepFollowed(t, nodes[n], skipped, at[n], to)
    ensures StepsFollowed(t, nodes, n + 1, if skipped then skip + {n} else skip, at + [to])
  {
    var more := at + [to];
    var s := if skipped then skip + {n} else skip;
    forall k | 0 <= k < n + 1 ensures StepFollowed(t, nodes[k], k in s, more[k], more[k + 1]) {
      if k < n { assert StepFollowed(t, nodes[k], k in skip, at[k], at[k + 1]); }
    }
  }

  /** The create step's part of the trace: its read alone when that shows the primary, else the create after it. */
  ghost predicate CreateFollowed(t: seq<Event>, primary: string, create: seq<Event>, to: nat) {
    && 0 < to <= |t| && t[0].Listed?
    && if ShownAt(t, 0, primary) then create == [] && to == 1 else create == [Created] && to > 1 && t[1] == Created
  }

  ghost predicate NoStatusSince(before: seq<Event>, after: seq<Event>) {
    before <= after && forall i | |before| <= i < |after| :: !after[i].Status?
  }

  ghost predicate JoinedBefore(t: seq<Event>, i: int) {
    exists h | 0 <= h < i && h < |t| :: t[h].Joined?
  }

  /** No status is read before the first join. */
  ghost predicate Quiet(t: seq<Event>) {
    forall i | 0 <= i < |t| && t[i].Status? :: JoinedBefore(t, i)
  }

  /** No status is read before the first join, if there is one: a run observes quorum only after a join of its own,
      or with no join to come. */
  ghost predicate Unprompted(t: seq<Event>) {
    forall i, j | 0 <= i < j < |t| && t[i].Status? && t[j].Joined? :: JoinedBefore(t, i)
  }

  lemma QuietExtends(t: seq<Event>, v: seq<Event>)
    requires Quiet(t) && t <= v && (NoStatusSince(t, v) || JoinedBefore(v, |t| + 1))
    ensures Quiet(v)
  {
    forall i | 0 <= i < |v| && v[i].Status? ensures JoinedBefore(v, i) {
      if i < |t| {
        assert t[i].Status?;
        var h :| 0 <= h < i && t[h].Joined?;
        assert v[h].Joined?;
      }
    }
  }

  lemma ReadsStayUnprompted(t: seq<Event>, v: seq<Event>)
    requires Quiet(t) && ReadsSince(t, v)
    ensures Unprompted(v)
  {
    NoJoinSince(t, v);
    forall i, j | 0 <= i < j < |v| && v[i].Status? && v[j].Joined? ensures JoinedBefore(v, i) {
      assert t[i] == v[i];
      var h :| 0 <= h < i && t[h].Joined?;
      assert v[h].Joined?;
    }
  }

  /** What the run of a cluster promises of its trace, and of its answer. */
  ghost predicate RunTrace(t: seq<Event>, name: string, primary: string, nodes: seq<PVENode>, ok: bool) {
    && Safe(t, name, primary) && Unprompted(t)
    && (!ok ==> Stuck(t, name, primary, nodes))
    && (ok ==> t != [] && AllGated(t, name) && ShowsQuorum(t[|t| - 1], name, |nodes|))
    && (ok ==> exists create, skip, at :: RunWrites(t, primary, nodes, create, skip, at))
  }

  /** The steps of a successful run, and that they wrote all there was to write. */
  ghost predicate RunWrites(t: seq<Event>, primary: string, nodes: seq<PVENode>, create: seq<Event>, skip: set<int>,
                            at: seq<nat>) {
    && StepsFollowed(t, nodes, |nodes|, skip, at) && CreateFollowed(t, primary, create, at[0])
    && Writes(t) == create + Planned(nodes, |nodes|, skip)
  }

  /** The observation shows the whole cluster: its last cluster entry has the name, the quorate flag and at least want
      members, and at least want entries are nodes online. */
  ghost predicate ShowsWhole(e: Event, name: string, want: int) {
    && e.Status? && e.entries.Some?
    && |set i | 0 <= i < |e.entries.value| && e.entries.value[i] == NodeEntry(true)| >= want
    && exists c, members | members >= want ::
         && 0 <= c < |e.entries.value| && e.entries.value[c] == ClusterEntry(name, true, members)
         && forall i | c < i < |e.entries.value| :: !e.entries.value[i].ClusterEntry?
  }

  lemma QuorumMeans(e: Event, name: string, want: int)
    ensures ShowsQuorum(e, name, want) <==> ShowsWhole(e, name, want)
  {
    if ShowsQuorum(e, name, want) {
      var entries := e.entries.value;
      var c :| LastCluster(entries, c) && Fits(entries[c], name, want);
      assert entries[c] == ClusterEntry(name, true, entries[c].nodes);
    }
    if ShowsWhole(e, name, want) {
      var entries := e.entries.value;
      var c, members :| members >= want && 0 <= c < |entries| && entries[c] == ClusterEntry(name, true, members)
          && forall i | c < i < |entries| :: !entries[i].ClusterEntry?;
      assert LastCluster(entries, c) && Fits(entries[c], name, want);
    }
  }

  // ----- the run

  /** The first node declared primary. */
  function PrimaryOf(nodes: seq<PVENode>): (r: Option<string>)
    ensures r.None? <==> forall n | n in nodes :: !n.primary
    ensures r.Some? ==> exists i | 0 <= i < |nodes| ::
              nodes[i].primary && nodes[i].name == r.value && forall j | 0 <= j < i :: !nodes[j].primary
  {
    if nodes == [] then None
    else if nodes[0].primary then Some(nodes[0].name)
    else PrimaryOf(nodes[1..])
  }

  class Former {
    const cluster: string
    const nodes: seq<PVENode>
    var trace: seq<Event>

    constructor (name: string, pveNodes: seq<PVENode>)
      ensures cluster == name && nodes == pveNodes && trace == []
    {
      cluster, nodes, trace := name, pveNodes, [];
    }

    /** A read of the primary's nodelist: any answer, or none. */
    method ListConfigNodes() returns (r: Option<seq<string>>)
      modifies this
      ensures trace == old(trace) + [Listed(r)]
    {
      r := *;
      trace := trace + [Listed(r)];
    }

    method GetStatus() returns (r: Option<seq<Entry>>)
      modifies this
      ensures trace == old(trace) + [Status(r)]
    {
      r := *;
      trace := trace + [Status(r)];
    }

    method Refuse()
      modifies this
      ensures trace == old(trace) + [Refused]
    {
      trace := trace + [Refused];
    }

    method MemberPresent(member: string) returns (present: bool)
      modifies this
      ensures ReadsSince(old(trace), trace) && |trace| == |old(trace)| + 1 && NoStatusSince(old(trace), trace)
      ensures Shows(trace, member, present)
    {
      ReadsAppendNothing(trace);
      var r := ListConfigNodes();
      ReadsAppend(old(trace), old(trace), Listed(r));
      present := r.Some? && member in r.value;
    }

    method IsQuorate(want: int) returns (ok: bool)
      modifies this
      ensures ReadsSince(old(trace), trace) && |trace| == |old(trace)| + 1 && trace[|trace| - 1].Status?
      ensures ok <==> ShowsQuorum(trace[|trace| - 1], cluster, want)
    {
      ReadsAppendNothing(trace);
      var r := GetStatus();
      ReadsAppend(old(trace), old(trace), Status(r));
      if r.None? {
        return false;
      }
      ok := CountQuorum(r.value, cluster, want);
    }

    /** waitForMember: polls until the member shows or the ceiling passes; a failed read counts as not yet. */
    method WaitForMember(member: string, polls: nat) returns (ok: bool)
      modifies this
      ensures ReadsSince(old(trace), trace) && |trace| > |old(trace)| && NoStatusSince(old(trace), trace)
      ensures Shows(trace, member, ok)
    {
      var left := polls;
      ok := MemberPresent(member);
      while !ok && left > 0
        invariant ReadsSince(old(trace), trace) && |trace| > |old(trace)| && NoStatusSince(old(trace), trace)
        invariant Shows(trace, member, ok)
        decreases left
      {
        ghost var before := trace;
        ok := MemberPresent(member);
        ReadsChain(old(trace), before, trace);
        left := left - 1;
      }
    }

    /** waitForQuorum: succeeds only on a quorate observation, which is then the last event. */
    method WaitForQuorum(want: int, polls: nat) returns (ok: bool)
      modifies this
      ensures ReadsSince(old(trace), trace) && |trace| > |old(trace)| && trace[|trace| - 1].Status?
      ensures ok <==> ShowsQuorum(trace[|trace| - 1], cluster, want)
    {
      hide Quorate;
      var left := polls;
      ok := IsQuorate(want);
      while !ok && left > 0
        invariant ReadsSince(old(trace), trace) && |trace| > |old(trace)| && trace[|trace| - 1].Status?
        invariant ok <==> ShowsQuorum(trace[|trace| - 1], cluster, want)
        decreases left
      {
        ghost var before := trace;
        ok := IsQuorate(want);
        ReadsChain(old(trace), before, trace);
        left := left - 1;
      }
    }

    ghost predicate Inv(primary: string)
      reads this
    {
      Safe(trace, cluster, primary) && AllGated(trace, cluster)
    }

    /** applyCreate, after its negative check. It fails only when refused or when the primary never shows. */
    method ApplyCreate(primary: string) returns (ok: bool)
      requires Inv(primary) && forall e | e in trace :: !e.Joined?
      requires Shows(trace, primary, false)
      modifies this
      ensures Inv(primary) && forall e | e in trace :: !e.Joined?
      ensures Writes(trace) == Writes(old(trace)) || Writes(trace) == Writes(old(trace)) + [Created]
      ensures ok ==> Writes(trace) == Writes(old(trace)) + [Created]
      ensures !ok ==> trace != [] && (trace[|trace| - 1] == Refused || NotShown(trace, primary))
      ensures NoStatusSince(old(trace), trace) && old(trace) <= trace
      ensures ok ==> |trace| > |old(trace)| && trace[|old(trace)|] == Created
    {
      hide Safe, AllGated, Quorate;
      ghost var start := trace;
      WritesAppend(trace, Created);
      var dialled: bool := *;
      if !dialled {
        Refuse();
        RefusalKeeps(start, cluster, primary);
        return false;
      }
      WriteKeepsSafe(trace, Created, cluster, primary);
      CreateKeepsGated(trace, cluster);
      trace := trace + [Created];
      ghost var created := trace;
      var accepted: bool := *;
      if !accepted {
        Refuse();
        RefusalKeeps(created, cluster, primary);
        return false;
      }
      var polls: nat := *;
      ok := WaitForMember(primary, polls);
      ReadsKeepSafe(created, trace, cluster, primary);
      ReadsWriteNothing(created, trace);
    }

    /** The two waits after a join: the member shows, then a quorum of everyone listed is observed. */
    method AwaitJoined(node: string) returns (ok: bool)
      requires trace != [] && trace[|trace| - 1] == Joined(node)
      modifies this
      ensures ReadsSince(old(trace), trace)
      ensures ok ==> AllGated(trace, cluster)
      ensures !ok ==> JoinStuck(trace, cluster, node)
    {
      hide Quorate, AllGated;
      var polls: nat := *;
      ok := WaitForMember(node, polls);
      if !ok {
        return;
      }
      ghost var shown := trace;
      var members := ListConfigNodes();
      ReadsAppend(old(trace), shown, Listed(members));
      if members.None? {
        return false;
      }
      ghost var listed := trace;
      polls := *;
      ok := WaitForQuorum(|members.value|, polls);
      ReadsChain(old(trace), listed, trace);
      assert trace[|shown|] == listed[|shown|] == Listed(members);
      assert !ok ==> NotQuorate(trace, cluster, |trace[|shown|].members.value|);
      if ok {
        NoJoinSince(old(trace), trace);
        GateCloses(trace, |old(trace)| - 1, |shown|, |trace| - 1, cluster);
      }
    }

    /** applyJoin, after its negative check: on success the join has its gate; on failure nothing follows. */
    method ApplyJoin(primary: string, node: string) returns (ok: bool)
      requires Inv(primary)
      requires Shows(trace, node, false)
      modifies this
      ensures Safe(trace, cluster, primary) && (ok ==> AllGated(trace, cluster))
      ensures Writes(trace) == Writes(old(trace)) || Writes(trace) == Writes(old(trace)) + [Joined(node)]
      ensures ok ==> Writes(trace) == Writes(old(trace)) + [Joined(node)]
      ensures !ok ==> JoinStuck(trace, cluster, node)
      ensures old(trace) <= trace && (Quiet(old(trace)) ==> Quiet(trace))
      ensures ok ==> |trace| > |old(trace)| && trace[|old(trace)|] == Joined(node)
    {
      hide Safe, AllGated, JoinStuck, Quiet;
      ghost var start := trace;
      WritesAppend(trace, Joined(node));
      // The join-info read and its fingerprint, the contact address, and both dials.
      var prepared: bool := *;
      if !prepared {
        Refuse();
        RefusalKeeps(start, cluster, primary);
        RefusedIsStuck(start, cluster, node);
        if Quiet(start) { QuietExtends(start, trace); }
        return false;
      }
      WriteKeepsSafe(trace, Joined(node), cluster, primary);
      trace := trace + [Joined(node)];
      ghost var at := trace;
      // A refused join is only logged: the waits decide.
      ok := AwaitJoined(node);
      ReadsKeepSafe(at, trace, cluster, primary);
      ReadsWriteNothing(at, trace);
      assert trace[|start|] == at[|start|] == Joined(node);
      if Quiet(start) { QuietExtends(start, trace); }
    }

    /** One node's step: its own read, and the join when that does not show the node. */
    method JoinStep(primary: string, node: PVENode) returns (ok: bool, ghost skipped: bool)
      requires Inv(primary) && Quiet(trace) && !node.primary
      modifies this
      ensures Safe(trace, cluster, primary) && Quiet(trace) && old(trace) <= trace
      ensures ok ==> Inv(primary) && StepFollowed(trace, node, skipped, |old(trace)|, |trace|)
      ensures ok ==> Writes(trace) == Writes(old(trace)) + if skipped then [] else [Joined(node.name)]
      ensures !ok ==> JoinStuck(trace, cluster, node.name)
    {
      hide Safe, AllGated, JoinStuck, Quiet, NoStatusSince, Writes;
      var done := CheckMember(primary, node.name);
      skipped := done;
      ghost var read := trace;
      if done {
        ok := true;
        return;
      }
      ok := ApplyJoin(primary, node.name);
      assert trace[|read| - 1] == read[|read| - 1];
    }

    /** The join steps in configured order, the primary's excepted: each node is joined unless its own step's read
        shows it, and the first failure stops them. */
    method JoinSteps(primary: string) returns (ok: bool, ghost skip: set<int>, ghost at: seq<nat>)
      requires Inv(primary) && Quiet(trace)
      modifies this
      ensures Safe(trace, cluster, primary) && Quiet(trace) && old(trace) <= trace
      ensures ok ==> Inv(primary) && Writes(trace) == Writes(old(trace)) + Planned(nodes, |nodes|, skip)
      ensures ok ==> StepsFollowed(trace, nodes, |nodes|, skip, at) && at[0] == |old(trace)| && at[|nodes|] == |trace|
      ensures !ok ==> exists n | n in nodes && !n.primary :: JoinStuck(trace, cluster, n.name)
    {
      hide Safe, AllGated, JoinStuck, Quiet, StepsFollowed, StepFollowed, Writes;
      skip, at := {}, [|trace|];
      NoSteps(trace, nodes);
      assert Writes(trace) + Planned(nodes, 0, skip) == Writes(trace);
      for n := 0 to |nodes|
        invariant Inv(primary) && Quiet(trace) && old(trace) <= trace
        invariant Writes(trace) == Writes(old(trace)) + Planned(nodes, n, skip) && forall k | k in skip :: k < n
        invariant |at| == n + 1 && at[0] == |old(trace)| && at[n] == |trace| && StepsFollowed(trace, nodes, n, skip, at)
      {
        PlannedSame(nodes, n, skip, n);
        ghost var start, skipped := trace, false;
        if nodes[n].primary {
          PrimaryStep(trace, nodes[n]);
        } else {
          ok, skipped := JoinStep(primary, nodes[n]);
          if !ok {
            assert nodes[n] in nodes;
            return;
          }
        }
        StepsFollowedKept(start, trace, nodes, n, skip, at);
        StepAdded(trace, nodes, n, skip, at, skipped, |trace|);
        skip, at := if skipped then skip + {n} else skip, at + [|trace|];
      }
      ok := true;
    }

    /** The last step: one status read, then the bounded wait. */
    method VerifyQuorum(primary: string) returns (ok: bool)
      requires Inv(primary)
      modifies this
      ensures Inv(primary) && Writes(trace) == Writes(old(trace))
      ensures trace != [] && (ok <==> ShowsQuorum(trace[|trace| - 1], cluster, |nodes|))
      ensures !ok ==> NotQuorate(trace, cluster, |nodes|)
      ensures ReadsSince(old(trace), trace)
    {
      hide Safe, AllGated, Quorate;
      ok := IsQuorate(|nodes|);
      ReadsKeepSafe(old(trace), trace, cluster, primary);
      ReadsWriteNothing(old(trace), trace);
      if !ok {
        ghost var before := trace;
        var polls: nat := *;
        ok := WaitForQuorum(|nodes|, polls);
        ReadsKeepSafe(before, trace, cluster, primary);
        ReadsWriteNothing(before, trace);
        ReadsChain(old(trace), before, trace);
      }
    }

    /** The first step: done when its read shows the primary, else the create. */
    method CreateStep(primary: string) returns (ok: bool, ghost create: seq<Event>)
      requires trace == []
      modifies this
      ensures Inv(primary) && Quiet(trace)
      ensures ok ==> Writes(trace) == create && CreateFollowed(trace, primary, create, |trace|)
      ensures !ok ==> Stuck(trace, cluster, primary, nodes)
    {
      hide Quorate, Safe, AllGated, JoinStuck, Quiet, Writes;
      ghost var start := trace;
      EmptyTrace(cluster, primary);
      var done := CheckMember(primary, primary);
      ghost var read := trace;
      ok := true;
      if !done {
        ok := ApplyCreate(primary);
        assert trace[0] == read[0];
      }
      create := Writes(trace);
      QuietExtends(start, trace);
    }

    /** A whole run: create on the primary, join the rest in order, verify; it stops at the first error, and
        without a primary before any event. Every run is safe, and stops early only when stuck. A successful one
        has written the create unless its step's read showed the primary, the join of every other node unless its
        step's read showed the node, in configured order, and nothing else; its last event is a quorate observation
        of the whole configured cluster. */
    method Run() returns (ok: bool)
      requires trace == []
      modifies this
      ensures PrimaryOf(nodes).None? ==> !ok && trace == []
      ensures PrimaryOf(nodes).Some? ==> RunTrace(trace, cluster, PrimaryOf(nodes).value, nodes, ok)
      ensures ok ==> trace != [] && ShowsWhole(trace[|trace| - 1], cluster, |nodes|)
    {
      hide Quorate, Safe, AllGated, Planned, JoinStuck, Quiet, StepsFollowed, CreateFollowed, Unprompted, Stuck,
           ReadsSince, RunTrace;
      var found := PrimaryOf(nodes);
      if found.None? {
        return false;
      }
      var primary := found.value;
      ghost var create, skip, at;
      ok, create := CreateStep(primary);
      if !ok {
        FailedRun(trace, cluster, primary, nodes);
        return;
      }
      ghost var formed := trace;
      ok, skip, at := JoinSteps(primary);
      ghost var joined := trace;
      if !ok {
        JoinIsStuck(trace, cluster, primary, nodes);
        FailedRun(trace, cluster, primary, nodes);
        return;
      }
      ok := VerifyQuorum(primary);
      CreateFollowedKept(formed, joined, primary, create, |formed|);
      FinishedRun(joined, trace, cluster, primary, nodes, ok, create, skip, at);
      QuorumMeans(trace[|trace| - 1], cluster, |nodes|);
    }

    /** A step's Check: one nodelist read; a failed read counts as pending. */
    method CheckMember(primary: string, member: string) returns (done: bool)
      requires Inv(primary)
      modifies this
      ensures Inv(primary) && Shows(trace, member, done) && |trace| == |old(trace)| + 1
      ensures (forall e | e in old(trace) :: !e.Joined?) ==> forall e | e in trace :: !e.Joined?
      ensures Writes(trace) == Writes(old(trace)) && NoStatusSince(old(trace), trace)
      ensures old(trace) <= trace && (Quiet(old(trace)) ==> Quiet(trace))
    {
      ghost var before := trace;
      done := MemberPresent(member);
      ReadsWriteNothing(before, trace);
      ReadsKeepSafe(before, trace, cluster, primary);
      if Quiet(before) { QuietExtends(before, trace); }
    }
  }

  lemma JoinIsStuck(t: seq<Event>, name: string, primary: string, nodes: seq<PVENode>)
    requires exists n | n in nodes && !n.primary :: JoinStuck(t, name, n.name)
    ensures Stuck(t, name, primary, nodes)
  {}

  lemma FailedRun(t: seq<Event>, name: string, primary: string, nodes: seq<PVENode>)
    requires Safe(t, name, primary) && Quiet(t) && Stuck(t, name, primary, nodes)
    ensures RunTrace(t, name, primary, nodes, false)
  {
    hide Safe, Quiet, Stuck, Unprompted;
    ReadsAppendNothing(t);
    ReadsStayUnprompted(t, t);
  }

  lemma EmptyTrace(name: string, primary: string)
    ensures Safe([], name, primary) && AllGated([], name) && Quiet([]) && Writes([]) == []
  {}

  lemma CreateFollowedKept(t: seq<Event>, v: seq<Event>, primary: string, create: seq<Event>, to: nat)
    requires t <= v && CreateFollowed(t, primary, create, to)
    ensures CreateFollowed(v, primary, create, to)
  {}

  lemma FinishedRun(joined: seq<Event>, t: seq<Event>, name: string, primary: string, nodes: seq<PVENode>, ok: bool,
                    create: seq<Event>, skip: set<int>, at: seq<nat>)
    requires Safe(t, name, primary) && AllGated(t, name) && Quiet(joined) && ReadsSince(joined, t) && t != []
    requires (ok <==> ShowsQuorum(t[|t| - 1], name, |nodes|)) && (!ok ==> NotQuorate(t, name, |nodes|))
    requires RunWrites(joined, primary, nodes, create, skip, at) && Writes(t) == Writes(joined)
    ensures RunTrace(t, name, primary, nodes, ok)
  {
    hide Safe, AllGated, Quiet, Unprompted, StepsFollowed, CreateFollowed, Planned, Quorate, JoinStuck;
    ReadsArePrefix(joined, t);
    ReadsStayUnprompted(joined, t);
    StepsFollowedKept(joined, t, nodes, |nodes|, skip, at);
    StepsLength(t, nodes, skip, at);
    CreateFollowedKept(joined, t, primary, create, at[0]);
    assert RunWrites(t, primary, nodes, create, skip, at);
  }

  lemma StepsLength(t: seq<Event>, nodes: seq<PVENode>, skip: set<int>, at: seq<nat>)
    requires StepsFollowed(t, nodes, |nodes|, skip, at)
    ensures |at| == |nodes| + 1
  {}

  lemma PrimaryStep(t: seq<Event>, node: PVENode)
    requires node.primary
    ensures StepFollowed(t, node, false, |t|, |t|)
  {}

  lemma NoSteps(t: seq<Event>, nodes: seq<PVENode>)
    ensures StepsFollowed(t, nodes, 0, {}, [|t|])
  {}

  lemma RefusalKeeps(t: seq<Event>, name: string, primary: string)
    requires Safe(t, name, primary)
    ensures Safe(t + [Refused], name, primary) && (AllGated(t, name) ==> AllGated(t + [Refused], name))
    ensures (forall e | e in t :: !e.Joined?) ==> forall e | e in t + [Refused] :: !e.Joined?
    ensures Writes(t + [Refused]) == Writes(t)
  {
    hide Safe, AllGated;
    ReadsAppendNothing(t);
    ReadsAppend(t, t, Refused);
    ReadsKeepSafe(t, t + [Refused], name, primary);
    WritesAppend(t, Refused);
  }

  lemma RefusedIsStuck(t: seq<Event>, name: string, node: string)
    ensures JoinStuck(t + [Refused], name, node)
  {}

  lemma CreateKeepsGated(t: seq<Event>, name: string)
    requires forall e | e in t :: !e.Joined?
    ensures AllGated(t + [Created], name) && forall e | e in t + [Created] :: !e.Joined?
  {}

  lemma NoJoinSince(at: seq<Event>, t: seq<Event>)
    requires ReadsSince(at, t)
    ensures forall i | |at| <= i < |t| :: !t[i].Joined?
  {
    var u := t[|at|..];
    forall i | |at| <= i < |t| ensures !t[i].Joined? {
      assert u[i - |at|] == t[i] && u[i - |at|] in u;
    }
  }

  lemma ReadsArePrefix(before: seq<Event>, after: seq<Event>)
    requires ReadsSince(before, after)
    ensures before <= after
  {}

  // ----- the gate across runs

  lemma {:induction false} FirstJoin(t: seq<Event>, j: nat) returns (first: nat)
    requires j < |t| && t[j].Joined?
    ensures first <= j && t[first].Joined? && !JoinedBefore(t, first)
    decreases j
  {
    if h :| 0 <= h < j && t[h].Joined? {
      first := FirstJoin(t, h);
    } else {
      first := j;
    }
  }

  /** Back to back, two runs keep the gate exactly when the first one ended with all its joins gated or the second
      joins nobody: a re-run that finds the last joined node listed skips that node's waits. */
  lemma GatedAcrossRunsIff(a: seq<Event>, b: seq<Event>, name: string)
    requires JoinsGated(a, name) && JoinsGated(b, name) && Unprompted(b)
    ensures JoinsGated(a + b, name) <==> AllGated(a, name) || forall e | e in b :: !e.Joined?
  {
    var t := a + b;
    if AllGated(a, name) || forall e | e in b :: !e.Joined? {
      forall i, j | 0 <= i < j < |t| && t[i].Joined? && t[j].Joined? ensures GateWithin(t, name, i, j) {
        if j < |a| {
          assert a[i].Joined? && a[j].Joined?;
          GateExtends(a, b, name, i, j);
        } else if i < |a| {
          assert b[j - |a|] in b && a[i].Joined?;
          GateExtends(a, b, name, i, |a|);
        } else {
          assert b[i - |a|].Joined? && b[j - |a|].Joined?;
          GateShifts(a, b, name, i - |a|, j - |a|);
        }
      }
    } else {
      var i :| 0 <= i < |a| && a[i].Joined? && !GateWithin(a, name, i, |a|);
      var e :| e in b && e.Joined?;
      var j :| 0 <= j < |b| && b[j] == e;
      var first := FirstJoin(b, j);
      UngatedStays(a, b, name, i, first);
      assert t[i].Joined? && t[|a| + first].Joined?;
    }
  }

  lemma GateShifts(a: seq<Event>, b: seq<Event>, name: string, i: int, j: int)
    requires GateWithin(b, name, i, j)
    ensures GateWithin(a + b, name, |a| + i, |a| + j)
  {
    var m, k :| 0 <= i < m < k < j <= |b| && b[m].Listed? && b[m].members.Some?
        && ShowsQuorum(b[k], name, |b[m].members.value|);
    assert (a + b)[|a| + m] == b[m] && (a + b)[|a| + k] == b[k];
  }

  lemma UngatedStays(a: seq<Event>, b: seq<Event>, name: string, i: int, first: nat)
    requires 0 <= i < |a| && !GateWithin(a, name, i, |a|)
    requires first < |b| && b[first].Joined? && !JoinedBefore(b, first) && Unprompted(b)
    ensures !GateWithin(a + b, name, i, |a| + first)
  {
    hide Quorate;
    var t := a + b;
    forall m, k | i < m < k < |a| + first && t[m].Listed? && t[m].members.Some?
      ensures !ShowsQuorum(t[k], name, |t[m].members.value|)
    {
      if k < |a| {
        assert a[m] == t[m] && a[k] == t[k];
      } else {
        assert t[k] == b[k - |a|];
      }
    }
  }

  /** Such runs happen: the first gives up waiting for the node it joined, the second finds it listed and joins the
      next one, with no quorum observed in between. */
  lemma GateIsPerRun(name: string, primary: string)
    requires primary != "n2" && primary != "n3"
    ensures var nodes := [PVENode(primary, "", "", true), PVENode("n2", "", "", false), PVENode("n3", "", "", false)];
            var before, after := Listed(Some([primary])), Listed(Some([primary, "n2"]));
            var first, second := [before, before, Joined("n2"), before], [after, after, after, Joined("n3"), after];
            && RunTrace(first, name, primary, nodes, false) && RunTrace(second, name, primary, nodes, false)
            && !JoinsGated(first + second, name)
  {
    var nodes := [PVENode(primary, "", "", true), PVENode("n2", "", "", false), PVENode("n3", "", "", false)];
    var before, after := Listed(Some([primary])), Listed(Some([primary, "n2"]));
    var first, second := [before, before, Joined("n2"), before], [after, after, after, Joined("n3"), after];
    assert "n3"[1] != "n2"[1];
    JoinNeverShown(first, name, primary, nodes, 2, 1);
    JoinNeverShown(second, name, primary, nodes, 3, 2);
    assert !AllGated(first, name) by { assert first[2].Joined? && !GateWithin(first, name, 2, 4); }
    GatedAcrossRunsIff(first, second, name);
    assert second[3] in second;
  }

  /** A trace of listings around one checked join, ending with a listing that does not show the node. */
  lemma JoinNeverShown(t: seq<Event>, name: string, primary: string, nodes: seq<PVENode>, at: nat, n: nat)
    requires 0 < at < |t| - 1 && n < |nodes| && !nodes[n].primary && t[at] == Joined(nodes[n].name)
    requires forall k | 0 <= k < |t| && k != at :: t[k].Listed?
    requires NotShown(t, nodes[n].name) && (t[at - 1].members.Some? ==> nodes[n].name !in t[at - 1].members.value)
    ensures RunTrace(t, name, primary, nodes, false)
  {
    assert nodes[n] in nodes && JoinStuck(t, name, nodes[n].name);
  }
}
