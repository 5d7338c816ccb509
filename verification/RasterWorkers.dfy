/**
 The registry of image preparation jobs: submitting, reaping finished jobs, and draining.

 Every section under the lock, every awaited job and every turn at the drain gate is one step; the steps of any
 number of callers interleave in any order, and a drain may be dropped where it waits.
 */
module RasterWorkers {
  import opened Wrappers

  type Job = nat

  // ---------------------------------------------------------------- reaping

  /** Takes the finished jobs out of the registry; the last job moves into each gap. */
  method TakeFinished(owners: seq<Job>, finished: set<Job>) returns (kept: seq<Job>, taken: seq<Job>)
    ensures multiset(kept) + multiset(taken) == multiset(owners)
    ensures forall k :: 0 <= k < |kept| ==> kept[k] !in finished
    ensures forall k :: 0 <= k < |taken| ==> taken[k] in finished
  {
    kept, taken := owners, [];
    var i := 0;
    while i < |kept|
      invariant i <= |kept|
      invariant multiset(kept) + multiset(taken) == multiset(owners)
      invariant forall k :: 0 <= k < i ==> kept[k] !in finished
      invariant forall k :: 0 <= k < |taken| ==> taken[k] in finished
      decreases |kept| - i
    {
      if kept[i] in finished {
        var last := |kept| - 1;
        SwapRemove(kept, i);
        taken := taken + [kept[i]];
        kept := kept[i := kept[last]][..last];
      } else {
        i := i + 1;
      }
    }
  }

  lemma SwapRemove(s: seq<Job>, i: nat)
    requires i < |s|
    ensures multiset(s[i := s[|s| - 1]][..|s| - 1]) + multiset{s[i]} == multiset(s)
  {
    var moved := s[i := s[|s| - 1]];
    assert moved == moved[..|s| - 1] + [moved[|s| - 1]];
    assert multiset(moved) == multiset(s) - multiset{s[i]} + multiset{s[|s| - 1]};
  }

  // ---------------------------------------------------------------- the steps

  /** Where a drain stands: waiting for the gate, holding it, or waiting for the jobs it took. */
  datatype Drain = Waiting | Gated | Joining(remaining: set<Job>) | Returned | Dropped

  /** `admitted` are all jobs ever let in, `abandoned` those a dropped drain still had to wait for. */
  datatype State = State(
    draining: bool, owners: set<Job>, running: set<Job>, gate: Option<nat>, drains: map<nat, Drain>,
    admitted: set<Job>, abandoned: set<Job>)

  predicate Init(s: State) {
    s == State(false, {}, {}, None, map[], {}, {})
  }

  datatype Step =
    | Submit(job: Job)
    | Complete(job: Job)
    | Reap
    | StartDrain(id: nat)
    | EnterGate(id: nat)
    | TakeOwners(id: nat)
    | Join(id: nat, job: Job)
    | ReturnDrain(id: nat)
    | DropDrain(id: nat)

  predicate At(s: State, id: nat, drain: Drain) {
    id in s.drains && s.drains[id] == drain
  }

  predicate JoiningAt(s: State, id: nat) {
    id in s.drains && s.drains[id].Joining?
  }

  predicate Enabled(s: State, step: Step) {
    match step
    case Submit(job) => job !in s.admitted
    case Complete(job) => job in s.running
    case Reap => true
    case StartDrain(id) => id !in s.drains
    case EnterGate(id) => At(s, id, Waiting) && s.gate.None?
    case TakeOwners(id) => At(s, id, Gated)
    case Join(id, job) => JoiningAt(s, id) && job in s.drains[id].remaining && job !in s.running
    case ReturnDrain(id) => At(s, id, Joining({}))
    case DropDrain(id) => At(s, id, Waiting) || JoiningAt(s, id)
  }

  /** A submission that finds the registry draining is refused and leaves everything as it is. */
  function Apply(s: State, step: Step): State
    requires Enabled(s, step)
  {
    match step
    case Submit(job) =>
      if s.draining then s
      else s.(owners := s.owners + {job}, running := s.running + {job}, admitted := s.admitted + {job})
    case Complete(job) => s.(running := s.running - {job})
    case Reap => s.(owners := s.owners * s.running)
    case StartDrain(id) => s.(drains := s.drains[id := Waiting])
    case EnterGate(id) => s.(drains := s.drains[id := Gated], gate := Some(id))
    case TakeOwners(id) => s.(draining := true, owners := {}, drains := s.drains[id := Joining(s.owners)])
    case Join(id, job) => s.(drains := s.drains[id := Joining(s.drains[id].remaining - {job})])
    case ReturnDrain(id) => s.(drains := s.drains[id := Returned], gate := None)
    case DropDrain(id) =>
      if s.drains[id].Joining?
      then s.(drains := s.drains[id := Dropped], gate := None, abandoned := s.abandoned + s.drains[id].remaining)
      else s.(drains := s.drains[id := Dropped])
  }

  /** A run: states and the steps between them. */
  ghost predicate IsRun(run: seq<State>, steps: seq<Step>) {
    && |run| == |steps| + 1 && Init(run[0])
    && forall i :: 0 <= i < |steps| ==> IsStep(run, steps, i)
  }

  predicate IsStep(run: seq<State>, steps: seq<Step>, i: nat)
    requires |run| == |steps| + 1 && i < |steps|
  {
    Enabled(run[i], steps[i]) && run[i + 1] == Apply(run[i], steps[i])
  }

  // ---------------------------------------------------------------- what holds in every state

  /** The jobs the drain at the gate waits for. */
  function Awaited(s: State): set<Job> {
    if s.gate.Some? && JoiningAt(s, s.gate.value) then s.drains[s.gate.value].remaining else {}
  }

  ghost predicate Invariant(s: State) {
    && (forall id :: id in s.drains && (s.drains[id].Gated? || s.drains[id].Joining?) ==> s.gate == Some(id))
    && (s.gate.Some? ==> At(s, s.gate.value, Gated) || JoiningAt(s, s.gate.value))
    && (forall id :: id in s.drains && (s.drains[id].Joining? || s.drains[id].Returned?) ==> s.draining)
    && (s.draining ==> s.owners == {})
    && s.running <= s.owners + Awaited(s) + s.abandoned
    && s.running <= s.admitted
  }

  lemma StepKeepsInvariant(s: State, step: Step)
    requires Invariant(s) && Enabled(s, step)
    ensures Invariant(Apply(s, step))
    ensures s.draining ==>
        Apply(s, step).draining && Apply(s, step).admitted == s.admitted && Apply(s, step).running <= s.running
  {
  }

  lemma {:induction false} Reachable(run: seq<State>, steps: seq<Step>, n: nat)
    requires IsRun(run, steps) && n < |run|
    ensures Invariant(run[n])
    decreases n
  {
    hide Enabled, Apply, Invariant;
    if n == 0 {
      InitInvariant(run[0]);
    } else {
      Reachable(run, steps, n - 1);
      assert IsStep(run, steps, n - 1);
      StepKeepsInvariant(run[n - 1], steps[n - 1]);
    }
  }

  lemma InitInvariant(s: State)
    requires Init(s)
    ensures Invariant(s)
  {
  }

  // ---------------------------------------------------------------- drains

  /** Once draining, no job is admitted any more and none starts to run. */
  lemma {:induction false} NoneAdmittedAfter(run: seq<State>, steps: seq<Step>, i: nat, j: nat)
    requires IsRun(run, steps) && i <= j < |run| && run[i].draining
    ensures run[j].draining && run[j].admitted == run[i].admitted && run[j].running <= run[i].running
    decreases j
  {
    hide Enabled, Apply, Invariant;
    if i < j {
      NoneAdmittedAfter(run, steps, i, j - 1);
      Reachable(run, steps, j - 1);
      assert IsStep(run, steps, j - 1);
      StepKeepsInvariant(run[j - 1], steps[j - 1]);
    }
  }

  /**
   When a drain returns, then and ever after no job runs but those a dropped drain had taken before; so nothing
   runs exactly when those are done.
   */
  lemma DrainReturns(run: seq<State>, steps: seq<Step>, i: nat, j: nat, id: nat)
    requires IsRun(run, steps) && i < j < |run| && steps[i] == ReturnDrain(id)
    ensures run[j].running <= run[i].running <= run[i].abandoned
    ensures run[i].running == {} <==> run[i].running !! run[i].abandoned
    ensures run[j].draining && run[j].admitted == run[i].admitted
  {
    Reachable(run, steps, i);
    assert IsStep(run, steps, i);
    assert run[i].running <= run[i].abandoned;
    hide Invariant;
    NoneAdmittedAfter(run, steps, i + 1, j);
  }

  /** No drain is dropped while it waits for jobs. */
  ghost predicate NoneDroppedMidway(run: seq<State>, steps: seq<Step>)
    requires IsRun(run, steps)
  {
    forall i :: 0 <= i < |steps| && steps[i].DropDrain? ==> !JoiningAt(run[i], steps[i].id)
  }

  lemma {:induction false} NothingAbandoned(run: seq<State>, steps: seq<Step>, n: nat)
    requires IsRun(run, steps) && NoneDroppedMidway(run, steps) && n < |run|
    ensures run[n].abandoned == {}
    decreases n
  {
    if n > 0 {
      NothingAbandoned(run, steps, n - 1);
      assert IsStep(run, steps, n - 1);
    }
  }

  /** If no drain is dropped midway, a drain that returns leaves no job running, and none is admitted afterwards. */
  lemma DrainIsSafe(run: seq<State>, steps: seq<Step>, i: nat, j: nat, id: nat)
    requires IsRun(run, steps) && NoneDroppedMidway(run, steps) && i < j < |run| && steps[i] == ReturnDrain(id)
    ensures run[j].running == {} && run[j].draining && run[j].admitted == run[i].admitted
  {
    hide Enabled, Apply, Init;
    DrainReturns(run, steps, i, j, id);
    NothingAbandoned(run, steps, i);
  }

  lemma Continue(run: seq<State>, steps: seq<Step>, last: State, step: Step)
    returns (longer: seq<State>, more: seq<Step>, next: State)
    requires IsRun(run, steps) && run[|steps|] == last && Enabled(last, step)
    ensures IsRun(longer, more) && longer[|more|] == next && next == Apply(last, step)
    ensures more != [] && more[|more| - 1] == step
  {
    hide Enabled, Apply;
    next := Apply(last, step);
    longer, more := run + [next], steps + [step];
    forall i: nat | i < |more| ensures IsStep(longer, more, i) {
      if i < |steps| {
        assert IsStep(run, steps, i);
      }
    }
    assert longer[0] == run[0];
  }

  /** Otherwise it may not: a drain is dropped while job 0 runs, and the next drain returns at once. */
  lemma DroppedDrainLosesJobs() returns (run: seq<State>, steps: seq<Step>)
    ensures IsRun(run, steps) && steps != [] && steps[|steps| - 1] == ReturnDrain(1)
    ensures run[|steps|].running == {0}
  {
    var s := State(false, {}, {}, None, map[], {}, {});
    run, steps := [s], [];
    assert IsRun(run, steps);
    hide IsRun;
    run, steps, s := Continue(run, steps, s, Submit(0));
    run, steps, s := Continue(run, steps, s, StartDrain(0));
    run, steps, s := Continue(run, steps, s, EnterGate(0));
    run, steps, s := Continue(run, steps, s, TakeOwners(0));
    run, steps, s := Continue(run, steps, s, DropDrain(0));
    run, steps, s := Continue(run, steps, s, StartDrain(1));
    run, steps, s := Continue(run, steps, s, EnterGate(1));
    run, steps, s := Continue(run, steps, s, TakeOwners(1));
    run, steps, s := Continue(run, steps, s, ReturnDrain(1));
  }

  // ---------------------------------------------------------------- what can always go on

  /** A job that is not let in for the first time is one that finds the registry draining, and nothing changes then. */
  lemma SubmissionIsAnswered(s: State, job: Job)
    requires Invariant(s) && job !in s.admitted
    ensures Enabled(s, Submit(job))
    ensures var t := Apply(s, Submit(job));
            if s.draining then t == s
            else job in t.admitted && job in t.running && job in t.owners && t.drains == s.drains
                 && t.owners - {job} == s.owners - {job} && t.running - {job} == s.running - {job}
  {
  }

  /** Jobs end and are reaped at any moment: what is left in the registry are the registered jobs that still run. */
  lemma ReapingKeepsRunning(s: State, job: Job)
    requires Invariant(s) && job in s.running
    ensures Enabled(s, Complete(job)) && Enabled(s, Reap)
    ensures var t := Apply(Apply(s, Complete(job)), Reap);
            && t.running == s.running - {job}
            && (forall other :: other in t.owners <==> other in s.owners && other in s.running && other != job)
            && t.drains == s.drains && t.gate == s.gate
  {
  }

  /** States reached from one another by jobs that end and by drains that go on, without any being dropped. */
  ghost predicate IsPath(path: seq<State>, s: State, t: State) {
    && path != [] && path[0] == s && path[|path| - 1] == t
    && forall i, j :: 0 <= i && j == i + 1 < |path| ==> GoesOn(path[i], path[j])
  }

  ghost predicate GoesOn(s: State, t: State) {
    exists step :: IsForward(step) && Enabled(s, step) && t == Apply(s, step)
  }

  predicate IsForward(step: Step) {
    step.Complete? || step.EnterGate? || step.TakeOwners? || step.Join? || step.ReturnDrain?
  }

  ghost predicate Leads(s: State, t: State) {
    exists path :: IsPath(path, s, t)
  }

  lemma StaysPut(s: State)
    ensures Leads(s, s)
  {
    assert IsPath([s], s, s);
  }

  lemma StepsFirst(s: State, step: Step, t: State)
    requires IsForward(step) && Enabled(s, step) && Leads(Apply(s, step), t)
    ensures Leads(s, t)
  {
    hide Enabled, Apply;
    var path :| IsPath(path, Apply(s, step), t);
    assert GoesOn(s, Apply(s, step));
    assert IsPath([s] + path, s, t);
  }

  lemma LeadsOn(s: State, t: State, u: State)
    requires Leads(s, t) && Leads(t, u)
    ensures Leads(s, u)
  {
    hide GoesOn;
    var first, second :| IsPath(first, s, t) && IsPath(second, t, u);
    var path := first + second[1..];
    forall i, j | 0 <= i && j == i + 1 < |path| ensures GoesOn(path[i], path[j]) {
      var k := i - (|first| - 1);
      var l := k + 1;
      if k >= 0 {
        assert path[i] == second[k] && path[j] == second[l];
      }
    }
    assert IsPath(path, s, u);
  }

  /** Waiting for one job: it ends if it still runs, and the drain joins it. */
  lemma JoinOne(s: State, id: nat, job: Job) returns (t: State)
    requires Invariant(s) && JoiningAt(s, id) && job in s.drains[id].remaining
    ensures Leads(s, t) && Invariant(t)
    ensures t == s.(running := s.running - {job}, drains := s.drains[id := Joining(s.drains[id].remaining - {job})])
  {
    hide Leads, Invariant;
    var ended := if job in s.running then Apply(s, Complete(job)) else s;
    t := Apply(ended, Join(id, job));
    if job in s.running {
      StepKeepsInvariant(s, Complete(job));
    }
    StepKeepsInvariant(ended, Join(id, job));
    StaysPut(t);
    StepsFirst(ended, Join(id, job), t);
    if job in s.running {
      StepsFirst(s, Complete(job), t);
    }
  }

  /** What is true when a drain has returned from a state, with its turn at the gate over. */
  ghost predicate ReturnedFrom(s: State, id: nat, t: State) {
    && Invariant(t) && t.gate.None? && t.drains == s.drains[id := Returned] && t.draining
    && t.admitted == s.admitted && t.abandoned == s.abandoned && t.running <= t.abandoned
  }

  lemma ReturnNow(s: State, id: nat) returns (t: State)
    requires Invariant(s) && At(s, id, Joining({}))
    ensures Leads(s, t) && ReturnedFrom(s, id, t)
  {
    hide Leads;
    t := Apply(s, ReturnDrain(id));
    StaysPut(t);
    StepsFirst(s, ReturnDrain(id), t);
  }

  /** The drain at the gate waits for its jobs one by one, and returns. */
  lemma {:induction false} JoinerReturns(s: State, id: nat) returns (t: State)
    requires Invariant(s) && JoiningAt(s, id)
    ensures Leads(s, t) && ReturnedFrom(s, id, t)
    decreases |s.drains[id].remaining|
  {
    hide Leads, Invariant;
    if s.drains[id].remaining == {} {
      t := ReturnNow(s, id);
    } else {
      var job :| job in s.drains[id].remaining;
      var next := JoinOne(s, id, job);
      t := JoinerReturns(next, id);
      assert next.drains[id := Returned] == s.drains[id := Returned];
      LeadsOn(s, next, t);
    }
  }

  lemma HolderReturns(s: State, id: nat) returns (t: State)
    requires Invariant(s) && (At(s, id, Gated) || JoiningAt(s, id))
    ensures Leads(s, t) && ReturnedFrom(s, id, t)
  {
    hide Leads, Invariant;
    if JoiningAt(s, id) {
      t := JoinerReturns(s, id);
    } else {
      var next := Apply(s, TakeOwners(id));
      StepKeepsInvariant(s, TakeOwners(id));
      t := JoinerReturns(next, id);
      assert next.drains[id := Returned] == s.drains[id := Returned];
      StepsFirst(s, TakeOwners(id), t);
    }
  }

  /**
   No drain waits in vain: whoever holds the gate, a waiting drain can still come to it and return, with nothing
   running then but the jobs of dropped drains.
   */
  lemma DrainCanReturn(s: State, id: nat) returns (t: State)
    requires Invariant(s) && At(s, id, Waiting)
    ensures Leads(s, t) && At(t, id, Returned) && t.draining && t.running <= t.abandoned == s.abandoned
    ensures t.admitted == s.admitted
  {
    hide Leads;
    var free := s;
    StaysPut(s);
    if s.gate.Some? {
      free := HolderReturns(s, s.gate.value);
    }
    var entered := Apply(free, EnterGate(id));
    t := HolderReturns(entered, id);
    StepsFirst(free, EnterGate(id), t);
    LeadsOn(s, free, t);
  }

  /** A drain can be dropped where it waits, for its turn or for jobs; only the jobs it had taken are lost with it. */
  lemma WaitersCanLeave(s: State, id: nat)
    requires Invariant(s) && (At(s, id, Waiting) || JoiningAt(s, id))
    ensures Enabled(s, DropDrain(id))
    ensures var t := Apply(s, DropDrain(id));
            && At(t, id, Dropped) && t.gate == (if s.gate == Some(id) then None else s.gate)
            && t.abandoned == s.abandoned + (if s.gate == Some(id) then Awaited(s) else {})
            && t.owners == s.owners && t.running == s.running && t.draining == s.draining
  {
  }
}
