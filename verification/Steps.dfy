/** The convergence engine (steps/steps.go): a stage is a list of Check/Apply steps over a world the engine
    does not control. */
module Steps {
  import opened Common

  /** One step over worlds of type W. done is the truth a Check reports when its read succeeds; what an Apply
      does may depend on the environment, whose choice e also decides whether calls fail or are cut short. */
  datatype Step<!W, !E> = Step(
    name: string,
    done: W -> bool,
    readable: (W, E) -> bool,     // does Check's read succeed?
    succeeds: (W, E) -> bool,     // does Apply return without error?
    effect: (W, E) -> W)          // the world Apply leaves behind, whole or partial

  datatype Summary = Summary(applied: nat, pending: nat)

  datatype Failure = CheckFailed(step: string) | ApplyFailed(step: string) | ReportFailed

  /** What a run leaves behind. */
  datatype Outcome<W> = Outcome(world: W, res: Summary, err: Option<Failure>)

  // ----- Run

  /** The run of the steps from k on: choices[i] is the environment's behaviour at step i. */
  ghost function RunFrom<W, E>(stage: seq<Step<W, E>>, k: nat, w: W, choices: seq<E>, applied: nat): Outcome<W>
    requires k <= |stage| == |choices|
    decreases |stage| - k
  {
    if k == |stage| then Outcome(w, Summary(applied, 0), None)
    else
      var s, e := stage[k], choices[k];
      if !s.readable(w, e) then Outcome(w, Summary(applied, 0), Some(CheckFailed(s.name)))
      else if s.done(w) then RunFrom(stage, k + 1, w, choices, applied)
      else if !s.succeeds(w, e) then Outcome(s.effect(w, e), Summary(applied, 0), Some(ApplyFailed(s.name)))
      else RunFrom(stage, k + 1, s.effect(w, e), choices, applied + 1)
  }

  method Run<W, E>(stage: seq<Step<W, E>>, start: W, choices: seq<E>) returns (w: W, res: Summary, err: Option<Failure>)
    requires |choices| == |stage|
    ensures Outcome(w, res, err) == RunFrom(stage, 0, start, choices, 0)
  {
    w, res, err := start, Summary(0, 0), None;
    for k := 0 to |stage|
      invariant err == None && res.pending == 0
      invariant RunFrom(stage, k, w, choices, res.applied) == RunFrom(stage, 0, start, choices, 0)
    {
      var s, e := stage[k], choices[k];
      if !s.readable(w, e) {
        err := Some(CheckFailed(s.name));
        return;
      }
      if s.done(w) {
        continue;
      }
      var ok := s.succeeds(w, e);
      w := s.effect(w, e);
      if !ok {
        err := Some(ApplyFailed(s.name));
        return;
      }
      res := res.(applied := res.applied + 1);
    }
  }

  // ----- what a run does, step by step

  /** The world step k finds when every step before it went through. */
  ghost function WorldAt<W, E>(stage: seq<Step<W, E>>, w: W, choices: seq<E>, k: nat): W
    requires k <= |stage| == |choices|
  {
    if k == 0 then w
    else
      var v := WorldAt(stage, w, choices, k - 1);
      if stage[k - 1].done(v) then v else stage[k - 1].effect(v, choices[k - 1])
  }

  /** Step k is read there and, if pending, applied without error. */
  ghost predicate GoesThrough<W, E>(stage: seq<Step<W, E>>, w: W, choices: seq<E>, k: nat)
    requires k < |stage| == |choices|
  {
    var v := WorldAt(stage, w, choices, k);
    stage[k].readable(v, choices[k]) && (stage[k].done(v) || stage[k].succeeds(v, choices[k]))
  }

  /** The steps before k that were pending when reached. */
  ghost function Due<W, E>(stage: seq<Step<W, E>>, w: W, choices: seq<E>, k: nat): set<int>
    requires k <= |stage| == |choices|
  {
    set i | 0 <= i < k && !stage[i].done(WorldAt(stage, w, choices, i))
  }

  /** A run goes through its steps in order up to the first that does not go through, and applies exactly the
      pending ones among those; a failed Check leaves the world as found there, a failed Apply what it made of it. */
  ghost predicate StopsAt<W, E>(stage: seq<Step<W, E>>, w: W, choices: seq<E>, stop: nat, o: Outcome<W>)
    requires stop <= |stage| == |choices|
  {
    var v := WorldAt(stage, w, choices, stop);
    && (forall i | 0 <= i < stop :: GoesThrough(stage, w, choices, i))
    && o.res == Summary(|Due(stage, w, choices, stop)|, 0)
    && if stop == |stage| then o.err == None && o.world == v
       else if !stage[stop].readable(v, choices[stop]) then
         o.err == Some(CheckFailed(stage[stop].name)) && o.world == v
       else
         && !stage[stop].done(v) && !stage[stop].succeeds(v, choices[stop])
         && o.err == Some(ApplyFailed(stage[stop].name)) && o.world == stage[stop].effect(v, choices[stop])
  }

  lemma {:induction false} RunStops<W, E>(stage: seq<Step<W, E>>, w: W, choices: seq<E>, k: nat) returns (stop: nat)
    requires k <= |stage| == |choices| && forall i | 0 <= i < k :: GoesThrough(stage, w, choices, i)
    ensures stop <= |stage|
    ensures StopsAt(stage, w, choices, stop, RunFrom(stage, k, WorldAt(stage, w, choices, k), choices,
                                                     |Due(stage, w, choices, k)|))
    decreases |stage| - k
  {
    hide Due, StopsAt, RunFrom, GoesThrough, WorldAt;
    stop := k;
    if k < |stage| && GoesThrough(stage, w, choices, k) {
      RunGoesOn(stage, w, choices, k);
      stop := RunStops(stage, w, choices, k + 1);
    } else {
      StopsHere(stage, w, choices, k);
    }
  }

  lemma RunGoesOn<W, E>(stage: seq<Step<W, E>>, w: W, choices: seq<E>, k: nat)
    requires k < |stage| == |choices| && GoesThrough(stage, w, choices, k)
    ensures RunFrom(stage, k, WorldAt(stage, w, choices, k), choices, |Due(stage, w, choices, k)|) ==
              RunFrom(stage, k + 1, WorldAt(stage, w, choices, k + 1), choices, |Due(stage, w, choices, k + 1)|)
  {
    hide Due;
    DueStep(stage, w, choices, k);
  }

  lemma DueStep<W, E>(stage: seq<Step<W, E>>, w: W, choices: seq<E>, k: nat)
    requires k < |stage| == |choices|
    ensures |Due(stage, w, choices, k + 1)| ==
              |Due(stage, w, choices, k)| + if stage[k].done(WorldAt(stage, w, choices, k)) then 0 else 1
  {
    var due := !stage[k].done(WorldAt(stage, w, choices, k));
    assert Due(stage, w, choices, k + 1) == Due(stage, w, choices, k) + if due then {k} else {};
  }

  lemma StopsHere<W, E>(stage: seq<Step<W, E>>, w: W, choices: seq<E>, k: nat)
    requires k <= |stage| == |choices| && forall i | 0 <= i < k :: GoesThrough(stage, w, choices, i)
    requires k == |stage| || !GoesThrough(stage, w, choices, k)
    ensures StopsAt(stage, w, choices, k, RunFrom(stage, k, WorldAt(stage, w, choices, k), choices,
                                                  |Due(stage, w, choices, k)|))
  {
    hide Due;
  }

  lemma RunIsExact<W, E>(stage: seq<Step<W, E>>, w: W, choices: seq<E>)
    requires |stage| == |choices|
    ensures exists stop | 0 <= stop <= |stage| :: StopsAt(stage, w, choices, stop, RunFrom(stage, 0, w, choices, 0))
  {
    assert Due(stage, w, choices, 0) == {};
    var stop := RunStops(stage, w, choices, 0);
  }

  // ----- survey (dry run)

  /** survey: every Check runs, nothing is applied; written says which report lines get through. */
  method Survey<W, E>(stage: seq<Step<W, E>>, w: W, choices: seq<E>, written: seq<bool>)
    returns (w': W, res: Summary, err: Option<Failure>)
    requires |choices| == |stage| && |written| == |stage| + 1
    ensures w' == w && res.applied == 0
    ensures err.None? <==> forall i | 0 <= i < |written| :: written[i]
    ensures err.None? ==> res.pending == Open(stage, w, choices, |stage|)
    ensures res.pending <= Pending(stage, w)
  {
    w', res, err := w, Summary(0, 0), None;
    for k := 0 to |stage|
      invariant w' == w && res.applied == 0 && err.None? && (forall i | 0 <= i < k :: written[i])
      invariant res.pending == Open(stage, w, choices, k) <= PendingTo(stage, w, k)
    {
      PendingMonotone(stage, w, k + 1);
      if stage[k].readable(w, choices[k]) && !stage[k].done(w) {
        res := res.(pending := res.pending + 1);
      }
      if !written[k] {
        err := Some(ReportFailed);
        return;
      }
    }
    if !written[|stage|] {
      err := Some(ReportFailed);
    }
  }

  /** Steps among the first k whose Check reads, and reads pending. */
  ghost function Open<W, E>(stage: seq<Step<W, E>>, w: W, choices: seq<E>, k: nat): nat
    requires k <= |stage| == |choices|
  {
    if k == 0 then 0
    else
      Open(stage, w, choices, k - 1) +
      if stage[k - 1].readable(w, choices[k - 1]) && !stage[k - 1].done(w) then 1 else 0
  }

  ghost function PendingTo<W, E>(stage: seq<Step<W, E>>, w: W, k: nat): nat
    requires k <= |stage|
  {
    if k == 0 then 0 else PendingTo(stage, w, k - 1) + if stage[k - 1].done(w) then 0 else 1
  }

  /** Steps not yet done in this world. */
  ghost function Pending<W, E>(stage: seq<Step<W, E>>, w: W): nat {
    PendingTo(stage, w, |stage|)
  }

  lemma {:induction false} PendingMonotone<W, E>(stage: seq<Step<W, E>>, w: W, k: nat)
    requires k <= |stage|
    ensures PendingTo(stage, w, k) <= Pending(stage, w)
    decreases |stage| - k
  {
    if k < |stage| { PendingMonotone(stage, w, k + 1); }
  }

  // ----- convergent stages

  /** The contract of a stage, over the worlds of an invariant inv: a successful Apply makes its own Check
      true, and no Apply - not even a failing or interrupted one - undoes another step or leaves inv. */
  ghost predicate Convergent<W(!new), E(!new)>(stage: seq<Step<W, E>>, inv: W -> bool) {
    && (forall i, w, e | 0 <= i < |stage| && inv(w) && !stage[i].done(w) ::
          inv(stage[i].effect(w, e)) && (stage[i].succeeds(w, e) ==> stage[i].done(stage[i].effect(w, e))))
    && (forall i, j, w, e | 0 <= i < |stage| && 0 <= j < |stage| && inv(w) && !stage[i].done(w) && stage[j].done(w) ::
          stage[j].done(stage[i].effect(w, e)))
  }

  /** Everything done before is done after. */
  ghost predicate Kept<W, E>(stage: seq<Step<W, E>>, w: W, w': W) {
    forall j | 0 <= j < |stage| :: stage[j].done(w) ==> stage[j].done(w')
  }

  ghost predicate AllDone<W, E>(stage: seq<Step<W, E>>, w: W) {
    forall j | 0 <= j < |stage| :: stage[j].done(w)
  }

  lemma {:induction false} KeptCounts<W, E>(stage: seq<Step<W, E>>, w: W, w': W, k: nat)
    requires k <= |stage| && Kept(stage, w, w')
    ensures PendingTo(stage, w', k) <= PendingTo(stage, w, k)
    ensures (exists i | 0 <= i < k :: !stage[i].done(w) && stage[i].done(w')) ==>
            PendingTo(stage, w', k) < PendingTo(stage, w, k)
  {
    if k > 0 { KeptCounts(stage, w, w', k - 1); }
  }

  /** Along any run nothing done is undone; each application closes a pending step; and a run without error
      leaves every step done. */
  lemma {:induction false} RunProgress<W(!new), E(!new)>(stage: seq<Step<W, E>>, inv: W -> bool, k: nat, w: W,
                                         choices: seq<E>, applied: nat)
    requires Convergent(stage, inv) && inv(w) && k <= |stage| == |choices|
    requires forall j | 0 <= j < k :: stage[j].done(w)
    ensures var o := RunFrom(stage, k, w, choices, applied);
            && inv(o.world) && Kept(stage, w, o.world)
            && o.res.applied + Pending(stage, o.world) <= applied + Pending(stage, w)
            && (o.err.None? ==> AllDone(stage, o.world))
    decreases |stage| - k
  {
    if k < |stage| {
      var s, e := stage[k], choices[k];
      if s.readable(w, e) {
        if s.done(w) {
          RunProgress(stage, inv, k + 1, w, choices, applied);
        } else {
          var w' := s.effect(w, e);
          assert Kept(stage, w, w');
          KeptCounts(stage, w, w', |stage|);
          if s.succeeds(w, e) {
            RunProgress(stage, inv, k + 1, w', choices, applied + 1);
          }
        }
      }
    }
  }

  /** A run that returns no error ends with every Check true. */
  lemma SuccessMeansConverged<W(!new), E(!new)>(stage: seq<Step<W, E>>, inv: W -> bool, w: W, choices: seq<E>)
    requires Convergent(stage, inv) && inv(w) && |choices| == |stage|
    ensures var o := RunFrom(stage, 0, w, choices, 0);
            && (o.err.None? ==> AllDone(stage, o.world))
            && o.res.applied + Pending(stage, o.world) <= Pending(stage, w)
  {
    RunProgress(stage, inv, 0, w, choices, 0);
  }

  /** A history of runs of one stage, each starting where the last left the world. A run cut off between two
      steps is one whose next read fails; a run cut off inside an Apply is one whose Apply fails. */
  ghost function History<W, E>(stage: seq<Step<W, E>>, w: W, runs: seq<seq<E>>): (W, nat)
    requires forall r | r in runs :: |r| == |stage|
    decreases |runs|
  {
    if runs == [] then (w, 0)
    else
      var o := RunFrom(stage, 0, w, runs[0], 0);
      var (end, applied) := History(stage, o.world, runs[1..]);
      (end, o.res.applied + applied)
  }

  /** However many runs fail or are interrupted on the way, all of them together apply at most the steps that
      were pending at the start, and a final run that completes leaves every Check true. */
  lemma {:induction false} InterruptedRunsConverge<W(!new), E(!new)>(stage: seq<Step<W, E>>, inv: W -> bool, w: W,
                                                     runs: seq<seq<E>>)
    requires Convergent(stage, inv) && inv(w) && forall r | r in runs :: |r| == |stage|
    ensures var (end, applied) := History(stage, w, runs);
            && inv(end) && Kept(stage, w, end)
            && applied + Pending(stage, end) <= Pending(stage, w)
    decreases |runs|
  {
    if runs != [] {
      var o := RunFrom(stage, 0, w, runs[0], 0);
      RunProgress(stage, inv, 0, w, runs[0], 0);
      InterruptedRunsConverge(stage, inv, o.world, runs[1..]);
    }
  }

  lemma FinalRunConverges<W(!new), E(!new)>(stage: seq<Step<W, E>>, inv: W -> bool, w: W, runs: seq<seq<E>>,
                            last: seq<E>)
    requires Convergent(stage, inv) && inv(w) && |last| == |stage| && forall r | r in runs :: |r| == |stage|
    ensures var (end, applied) := History(stage, w, runs);
            var o := RunFrom(stage, 0, end, last, 0);
            && applied + o.res.applied <= Pending(stage, w)
            && (o.err.None? ==> AllDone(stage, o.world))
  {
    InterruptedRunsConverge(stage, inv, w, runs);
    RunProgress(stage, inv, 0, History(stage, w, runs).0, last, 0);
  }

  /** A converged world stays put: a further run applies nothing and changes nothing, whatever fails. */
  lemma {:induction false} ConvergedRunIsNoOp<W, E>(stage: seq<Step<W, E>>, k: nat, w: W, choices: seq<E>, applied: nat)
    requires AllDone(stage, w) && k <= |stage| == |choices|
    ensures var o := RunFrom(stage, k, w, choices, applied); o.world == w && o.res.applied == applied
    ensures (forall i | k <= i < |stage| :: stage[i].readable(w, choices[i])) ==>
            RunFrom(stage, k, w, choices, applied).err.None?
    decreases |stage| - k
  {
    if k < |stage| { ConvergedRunIsNoOp(stage, k + 1, w, choices, applied); }
  }

  /** Steps among the first k whose Check the survey could not read. */
  ghost function Unknown<W, E>(stage: seq<Step<W, E>>, w: W, survey: seq<E>, k: nat): nat
    requires k <= |stage| == |survey|
  {
    if k == 0 then 0 else Unknown(stage, w, survey, k - 1) + if stage[k - 1].readable(w, survey[k - 1]) then 0 else 1
  }

  lemma {:induction false} PendingIsOpenOrUnknown<W, E>(stage: seq<Step<W, E>>, w: W, survey: seq<E>, k: nat)
    requires k <= |stage| == |survey|
    ensures Open(stage, w, survey, k) <= PendingTo(stage, w, k)
    ensures PendingTo(stage, w, k) <= Open(stage, w, survey, k) + Unknown(stage, w, survey, k)
    ensures Open(stage, w, survey, k) == PendingTo(stage, w, k) <==>
              forall i | 0 <= i < k && !stage[i].readable(w, survey[i]) :: stage[i].done(w)
  {
    if k > 0 { PendingIsOpenOrUnknown(stage, w, survey, k - 1); }
  }

  /** What a dry run lists as pending or unknown bounds what any run from the same world applies. */
  lemma SurveyBoundsRun<W(!new), E(!new)>(stage: seq<Step<W, E>>, inv: W -> bool, w: W, survey: seq<E>, choices: seq<E>)
    requires Convergent(stage, inv) && inv(w) && |survey| == |stage| == |choices|
    ensures var applied := RunFrom(stage, 0, w, choices, 0).res.applied;
            && applied <= Open(stage, w, survey, |stage|) + Unknown(stage, w, survey, |stage|)
            && ((forall i | 0 <= i < |stage| && !stage[i].readable(w, survey[i]) :: stage[i].done(w)) ==>
                  applied <= Open(stage, w, survey, |stage|))
  {
    RunProgress(stage, inv, 0, w, choices, 0);
    PendingIsOpenOrUnknown(stage, w, survey, |stage|);
  }

  /** Applying one step changes no other step's Check either way. */
  ghost predicate Independent<W(!new), E(!new)>(stage: seq<Step<W, E>>, inv: W -> bool) {
    forall i, j, w, e | 0 <= i < |stage| && 0 <= j < |stage| && i != j && inv(w) && !stage[i].done(w) ::
      stage[j].done(stage[i].effect(w, e)) == stage[j].done(w)
  }

  /** Under this choice every read and every Apply goes through. */
  ghost predicate Smooth<W(!new), E>(stage: seq<Step<W, E>>, e: E) {
    forall i, w | 0 <= i < |stage| :: stage[i].readable(w, e) && stage[i].succeeds(w, e)
  }

  lemma {:induction false} OneStepCounts<W, E>(stage: seq<Step<W, E>>, w: W, w': W, i: nat, k: nat)
    requires k <= |stage| && i < |stage| && !stage[i].done(w) && stage[i].done(w')
    requires forall j | 0 <= j < |stage| && j != i :: stage[j].done(w') == stage[j].done(w)
    ensures PendingTo(stage, w, k) == PendingTo(stage, w', k) + if i < k then 1 else 0
  {
    if k > 0 { OneStepCounts(stage, w, w', i, k - 1); }
  }

  /** On independent steps a run where everything goes through applies every pending step. */
  lemma {:induction false} SmoothRunAppliesPending<W(!new), E(!new)>(stage: seq<Step<W, E>>, inv: W -> bool, k: nat,
                                                     w: W, e: E, applied: nat)
    requires Convergent(stage, inv) && Independent(stage, inv) && Smooth(stage, e) && inv(w) && k <= |stage|
    requires forall j | 0 <= j < k :: stage[j].done(w)
    ensures RunFrom(stage, k, w, seq(|stage|, _ => e), applied).res.applied == applied + Pending(stage, w)
    decreases |stage| - k
  {
    if k == |stage| {
      AllDoneCounts(stage, w, k);
    } else if stage[k].done(w) {
      SmoothRunAppliesPending(stage, inv, k + 1, w, e, applied);
    } else {
      var w' := stage[k].effect(w, e);
      OneStepCounts(stage, w, w', k, |stage|);
      SmoothRunAppliesPending(stage, inv, k + 1, w', e, applied + 1);
    }
  }

  lemma {:induction false} AllDoneCounts<W, E>(stage: seq<Step<W, E>>, w: W, k: nat)
    requires AllDone(stage, w) && k <= |stage|
    ensures PendingTo(stage, w, k) == 0
  {
    if k > 0 { AllDoneCounts(stage, w, k - 1); }
  }

  /** The pending count alone bounds every run exactly when each step the survey could not read is done: on
      independent steps, where an environment exists that lets everything through. */
  lemma PendingBoundsRunsIff<W(!new), E(!new)>(stage: seq<Step<W, E>>, inv: W -> bool, w: W, survey: seq<E>, e: E)
    requires Convergent(stage, inv) && Independent(stage, inv) && Smooth(stage, e) && inv(w) && |survey| == |stage|
    ensures (forall choices: seq<E> | |choices| == |stage| ::
               RunFrom(stage, 0, w, choices, 0).res.applied <= Open(stage, w, survey, |stage|)) <==>
            forall i | 0 <= i < |stage| && !stage[i].readable(w, survey[i]) :: stage[i].done(w)
  {
    PendingIsOpenOrUnknown(stage, w, survey, |stage|);
    if forall i | 0 <= i < |stage| && !stage[i].readable(w, survey[i]) :: stage[i].done(w) {
      forall choices: seq<E> | |choices| == |stage|
        ensures RunFrom(stage, 0, w, choices, 0).res.applied <= Open(stage, w, survey, |stage|)
      {
        SurveyBoundsRun(stage, inv, w, survey, choices);
      }
    } else {
      var choices := seq(|stage|, _ => e);
      SmoothRunAppliesPending(stage, inv, 0, w, e, 0);
      assert RunFrom(stage, 0, w, choices, 0).res.applied > Open(stage, w, survey, |stage|);
    }
  }

  /** A step whose Check the environment decides whether to answer. */
  function Switch(): Step<bool, bool> {
    Step("switch", w => w, (w, e) => e, (w, e) => e, (w, e) => w || e)
  }

  /** A survey that cannot read a pending step lists nothing pending, and the run applies it. */
  lemma UnreadStepIsApplied()
    ensures Convergent([Switch()], w => true) && Open([Switch()], false, [false], 1) == 0
    ensures RunFrom([Switch()], 0, false, [true], 0).res.applied == 1
  {
    assert RunFrom([Switch()], 1, true, [true], 1).res.applied == 1;
  }
}
