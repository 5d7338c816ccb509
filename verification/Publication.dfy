/**
 Publishing a finished stage: the renames that put it in place, with their rollback, and the handshake that
 decides whether they are made at all when a deadline may pass at any moment.
 */
module Publication {
  import opened Wrappers

  type Name = string

  /** What a directory holds under a name; `Private` is the directory the stage lives in. */
  datatype Entry = Tree(content: seq<int>) | File(content: seq<int>) | Symlink | Private

  class Directory {
    var entries: map<Name, Entry>

    constructor (entries: map<Name, Entry>)
      ensures this.entries == entries
    {
      this.entries := entries;
    }

    /** Removes a directory tree with everything in it. */
    method RemoveTree(name: Name, fails: bool) returns (ok: bool)
      modifies this`entries
      ensures ok <==> !fails && name in old(entries) && old(entries)[name].Tree?
      ensures entries == if ok then old(entries) - {name} else old(entries)
    {
      ok := !fails && name in entries && entries[name].Tree?;
      if ok {
        entries := entries - {name};
      }
    }
  }

  function Lookup(entries: map<Name, Entry>, name: Name): Option<Entry> {
    if name in entries then Some(entries[name]) else None
  }

  method Rename(from: Directory, name: Name, dest: Directory, newName: Name, fails: bool) returns (ok: bool)
    requires from != dest && newName !in dest.entries
    modifies from`entries, dest`entries
    ensures ok <==> !fails && name in old(from.entries)
    ensures ok ==>
        from.entries == old(from.entries) - {name}
        && dest.entries == old(dest.entries)[newName := old(from.entries)[name]]
    ensures !ok ==> from.entries == old(from.entries) && dest.entries == old(dest.entries)
  {
    ok := !fails && name in from.entries;
    if ok {
      var moved := from.entries[name];
      from.entries := from.entries - {name};
      dest.entries := dest.entries[newName := moved];
    }
  }

  // ---------------------------------------------------------------- installing a stage

  /** Which of the steps fail. */
  datatype Faults = Faults(stat: bool, clone: bool, backup: bool, open: bool, install: bool, rollback: bool,
                           removeBackup: bool, removeStage: bool, removeParent: bool)

  datatype InstallError = TargetIsSymlink | Io | InstallFailed | RollbackFailed

  /** The installation goes through: nothing on its way fails, and what is replaced is a directory. */
  predicate Installs(target: Option<Entry>, faults: Faults) {
    && !faults.stat && !faults.clone && !faults.install && target != Some(Symlink)
    && (target.Some? ==> !faults.backup && !faults.open && (target.value.Tree? || target.value.Private?))
  }

  /**
   Puts the stage in place of the target, moving an old target to a backup first.  It goes through, or the target
   is exactly as before, except when taking the move back fails too; then the old target is still in the backup.
   */
  method InstallStage(stageParent: Directory, stageName: Name, directory: Directory, targetName: Name,
                      backupName: Name, faults: Faults)
    returns (r: Result<Option<Name>, InstallError>)
    requires stageParent != directory
    requires stageName in stageParent.entries && backupName !in stageParent.entries
    modifies stageParent`entries, directory`entries
    ensures r.Ok? <==> Installs(Lookup(old(directory.entries), targetName), faults)
    ensures r.Ok? ==>
              && directory.entries == old(directory.entries)[targetName := old(stageParent.entries)[stageName]]
              && (r.value == if targetName in old(directory.entries) then Some(backupName) else None)
              && stageParent.entries == (if targetName in old(directory.entries)
                   then old(stageParent.entries)[backupName := old(directory.entries)[targetName]]
                   else old(stageParent.entries)) - {stageName}
    ensures r.Err? && r.error != RollbackFailed ==>
              directory.entries == old(directory.entries) && stageParent.entries == old(stageParent.entries)
    ensures r == Err(RollbackFailed) ==>
              && faults.rollback && targetName in old(directory.entries)
              && directory.entries == old(directory.entries) - {targetName}
              && stageParent.entries == old(stageParent.entries)[backupName := old(directory.entries)[targetName]]
  {
    if faults.stat {
      return Err(Io);
    }
    if targetName in directory.entries && directory.entries[targetName].Symlink? {
      return Err(TargetIsSymlink);
    }
    var targetExists := targetName in directory.entries;
    if faults.clone {
      return Err(Io);
    }
    if targetExists {
      var moved := Rename(directory, targetName, stageParent, backupName, faults.backup);
      if !moved {
        return Err(Io);
      }
      if faults.open || !(stageParent.entries[backupName].Tree? || stageParent.entries[backupName].Private?) {
        r := RollbackTarget(stageParent, backupName, directory, targetName, Io, faults.rollback);
        return;
      }
    }
    var installed := Rename(stageParent, stageName, directory, targetName, faults.install);
    if !installed {
      if targetExists {
        r := RollbackTarget(stageParent, backupName, directory, targetName, InstallFailed, faults.rollback);
        return;
      }
      return Err(InstallFailed);
    }
    r := Ok(if targetExists then Some(backupName) else None);
  }

  method RollbackTarget(stageParent: Directory, backupName: Name, directory: Directory, targetName: Name,
                        error: InstallError, fails: bool)
    returns (r: Result<Option<Name>, InstallError>)
    requires stageParent != directory && backupName in stageParent.entries && targetName !in directory.entries
    modifies stageParent`entries, directory`entries
    ensures r == Err(if fails then RollbackFailed else error)
    ensures fails ==> directory.entries == old(directory.entries) && stageParent.entries == old(stageParent.entries)
    ensures !fails ==> directory.entries == old(directory.entries)[targetName := old(stageParent.entries)[backupName]]
                       && stageParent.entries == old(stageParent.entries) - {backupName}
  {
    var restored := Rename(stageParent, backupName, directory, targetName, fails);
    r := Err(if restored then error else RollbackFailed);
  }

  /** Removing what is private: the stage, and its directory if that is empty then. */
  method RemovePrivateStage(stageParent: Directory, stageName: Name, directory: Directory, parentName: Name,
                            faults: Faults)
    requires stageParent != directory && parentName in directory.entries
    modifies stageParent`entries, directory`entries
    ensures stageParent.entries ==
            if !faults.removeStage && Lookup(old(stageParent.entries), stageName).Some?
               && old(stageParent.entries)[stageName].Tree?
            then old(stageParent.entries) - {stageName} else old(stageParent.entries)
    ensures directory.entries ==
            if stageParent.entries == map[] && !faults.removeParent then old(directory.entries) - {parentName}
            else old(directory.entries)
  {
    var removed := stageParent.RemoveTree(stageName, faults.removeStage);
    if stageParent.entries == map[] && !faults.removeParent {
      directory.entries := directory.entries - {parentName};
    }
  }

  /**
   The whole commit with its cleanup.  The public directory changes at the target only (and its private directory
   may go).  Whatever fails, the old target is never lost before the new one is in place.  If the cleanup does not
   fail, nothing private is left behind, except the old target when taking it back fails.
   */
  method Commit(stageParent: Directory, directory: Directory, parentName: Name, targetName: Name, backupName: Name,
                faults: Faults)
    returns (r: Result<(), InstallError>)
    requires stageParent != directory && parentName in directory.entries && parentName != targetName
    requires backupName != "stage"
    requires "stage" in stageParent.entries && backupName !in stageParent.entries
    modifies stageParent`entries, directory`entries
    ensures r.Ok? <==> Installs(Lookup(old(directory.entries), targetName), faults)
    ensures forall n :: n != targetName && n != parentName ==>
        Lookup(directory.entries, n) == Lookup(old(directory.entries), n)
    ensures r.Ok? ==> Lookup(directory.entries, targetName) == Some(old(stageParent.entries)["stage"])
    ensures r.Err? && r.error != RollbackFailed ==>
        Lookup(directory.entries, targetName) == Lookup(old(directory.entries), targetName)
    ensures r == Err(RollbackFailed) ==>
              && Lookup(directory.entries, targetName) == None && faults.rollback
              && parentName in directory.entries
              && Lookup(stageParent.entries, backupName) == Lookup(old(directory.entries), targetName) != None
    ensures parentName in directory.entries <==> stageParent.entries != map[] || faults.removeParent
    ensures old(stageParent.entries).Keys == {"stage"} && old(stageParent.entries)["stage"].Tree?
            && (targetName in old(directory.entries) ==> old(directory.entries)[targetName].Tree?)
            && !faults.removeStage && !faults.removeBackup && !faults.removeParent && r != Err(RollbackFailed) ==>
              stageParent.entries == map[] && parentName !in directory.entries
  {
    var installed := InstallStage(stageParent, "stage", directory, targetName, backupName, faults);
    if installed.Ok? {
      if installed.value.Some? {
        var removed := stageParent.RemoveTree(installed.value.value, faults.removeBackup);
      }
      RemovePrivateStage(stageParent, "stage", directory, parentName, faults);
      return Ok(());
    }
    ghost var kept := Lookup(stageParent.entries, backupName);
    RemovePrivateStage(stageParent, "stage", directory, parentName, faults);
    assert Lookup(stageParent.entries, backupName) == kept;
    r := Err(installed.error);
  }

  // ---------------------------------------------------------------- the handshake

  datatype Outcome = Published | Failed | TimedOut | Stopped

  datatype Permit = Pending | Sent | Closed

  /** Where the caller that asks for the commit stands. */
  datatype Caller = Spawned | Selecting | Started | Checked | Awaiting | Returned(outcome: Outcome)

  /** Where the blocking worker that holds the stage stands. */
  datatype Worker = Queued | Parked | Permitted | Refused | Committing | Finished(outcome: Outcome) | Aborted | Dead

  datatype State = State(expired: bool, permit: Permit, caller: Caller, worker: Worker, published: bool)

  predicate Init(s: State) {
    s == State(s.expired, Pending, Spawned, Queued, false)
  }

  predicate Expire(s: State, t: State) {
    t == s.(expired := true)
  }

  /** The caller gives up: the permit goes away with it. */
  function GiveUp(s: State, outcome: Outcome): State {
    s.(caller := Returned(outcome), permit := Closed)
  }

  predicate HasStarted(worker: Worker) {
    worker != Queued && worker != Aborted
  }

  predicate CallerStep(s: State, t: State) {
    match s.caller
    case Spawned => t == if s.expired then GiveUp(s, TimedOut) else s.(caller := Selecting)
    case Selecting =>
      || (HasStarted(s.worker) && t == s.(caller := Started))
      || (s.worker.Dead? && t == GiveUp(s, Stopped))
      || (s.expired && t == GiveUp(s, TimedOut).(worker := if s.worker.Queued? then Aborted else s.worker))
    case Started => t == if s.expired then GiveUp(s, TimedOut) else s.(caller := Checked)
    case Checked => t == if s.worker.Dead? then GiveUp(s, Stopped) else s.(caller := Awaiting, permit := Sent)
    case Awaiting =>
      || (s.worker.Finished? && t == s.(caller := Returned(s.worker.outcome)))
      || (s.worker.Dead? && t == s.(caller := Returned(Stopped)))
    case Returned(_) => false
  }

  predicate WorkerStep(s: State, t: State) {
    match s.worker
    case Queued => t == s.(worker := Parked)
    case Parked => (s.permit.Sent? && t == s.(worker := Permitted)) || (s.permit.Closed? && t == s.(worker := Refused))
    case Permitted => t == if s.expired then s.(worker := Finished(TimedOut)) else s.(worker := Committing)
    case Refused => t == s.(worker := Finished(TimedOut))
    case Committing => t == s.(worker := Finished(Published), published := true) || t == s.(worker := Finished(Failed))
    case _ => false
  }

  /** The worker dies without an answer; in the middle of a commit, the renames may have been made or not. */
  predicate WorkerDies(s: State, t: State) {
    && !s.worker.Finished? && !s.worker.Aborted?
    && (t == s.(worker := Dead) || (s.worker.Committing? && t == s.(worker := Dead, published := true)))
  }

  predicate Next(s: State, t: State) {
    Expire(s, t) || CallerStep(s, t) || WorkerStep(s, t) || WorkerDies(s, t)
  }

  ghost predicate IsRun(run: seq<State>) {
    && run != [] && Init(run[0])
    && forall i, j :: 0 <= i < |run| && j == i + 1 < |run| ==> Next(run[i], run[j])
  }

  /** What every reachable state satisfies. */
  ghost predicate Invariant(s: State) {
    && (s.caller in {Spawned, Selecting, Started, Checked} ==> s.permit == Pending)
    && (s.caller == Awaiting ==> s.permit == Sent)
    && (s.caller in {Started, Checked} ==> s.worker != Queued && s.worker != Aborted)
    && (s.caller.Returned? ==> s.permit != Pending)
    && (s.permit == Sent ==> s.worker != Queued && s.worker != Aborted && s.worker != Refused)
    && (s.permit == Pending ==> s.worker in {Queued, Parked, Dead})
    && (s.permit == Closed ==> s.worker in {Queued, Parked, Refused, Finished(TimedOut), Aborted, Dead})
    && (s.permit == Closed ==> !s.published && s.caller.Returned? && s.caller.outcome in {TimedOut, Stopped})
    && (s.permit == Sent && s.caller.Returned? ==>
        s.worker == Finished(s.caller.outcome) || (s.worker == Dead && s.caller.outcome == Stopped))
    && (s.published ==> s.permit == Sent && (s.worker == Finished(Published) || s.worker == Dead))
    && (s.worker == Finished(Published) ==> s.published)
    && HasReasons(s)
  }

  /** A timeout means that the deadline has passed, and a stop that the worker is dead. */
  ghost predicate HasReasons(s: State) {
    && (s.caller == Returned(TimedOut) ==> s.expired)
    && (s.caller == Returned(Stopped) ==> s.worker == Dead)
    && (s.worker in {Refused, Finished(TimedOut), Aborted} ==> s.expired)
    && s.worker != Finished(Stopped)
  }

  lemma {:induction false} Reachable(run: seq<State>, n: nat)
    requires IsRun(run) && n < |run|
    ensures Invariant(run[n])
    decreases n
  {
    hide Next;
    if n > 0 {
      Reachable(run, n - 1);
      StepKeepsInvariant(run[n - 1], run[n]);
    }
  }

  lemma StepKeepsInvariant(s: State, t: State)
    requires Invariant(s) && Next(s, t)
    ensures Invariant(t)
    ensures s.published ==> t.published
    ensures s.expired ==> t.expired
    ensures s.caller.Returned? ==> t.caller == s.caller
  {
  }

  /** Once the caller has returned, its answer stands. */
  lemma {:induction false} AnswerStands(run: seq<State>, i: nat, j: nat)
    requires IsRun(run) && i <= j < |run| && run[i].caller.Returned?
    ensures run[j].caller == run[i].caller
    decreases j
  {
    hide Invariant, Next;
    if i < j {
      AnswerStands(run, i, j - 1);
      Reachable(run, j - 1);
      StepKeepsInvariant(run[j - 1], run[j]);
    }
  }

  /**
   The caller's answer is the truth, at the time it returns and in every continuation: after a timeout nothing is
   ever published, after a success it is, after a failed commit it is not.
   */
  lemma AnswersAreTrue(run: seq<State>, i: nat, j: nat)
    requires IsRun(run) && i < |run| && j < |run| && run[i].caller.Returned?
    ensures run[i].caller.outcome in {TimedOut, Failed} ==> !run[j].published
    ensures i <= j && run[i].caller.outcome == Published ==> run[j].published
  {
    hide Invariant, Next;
    if i <= j {
      AnswerStands(run, i, j);
      Reachable(run, j);
      AnswerOf(run[j]);
    } else {
      Reachable(run, i);
      AnswerOf(run[i]);
      PublishedStays(run, j, i);
    }
  }

  /**
   The answer has its reason: a timeout that the deadline has passed, a failure that a commit was tried, and a stop
   that the worker died.
   */
  lemma AnswersHaveReasons(run: seq<State>, n: nat)
    requires IsRun(run) && n < |run| && run[n].caller.Returned?
    ensures run[n].caller.outcome == TimedOut ==> run[n].expired
    ensures run[n].caller.outcome == Failed ==> run[n].worker == Finished(Failed)
    ensures run[n].caller.outcome == Stopped ==> run[n].worker == Dead
    ensures run[n].caller.outcome == Published ==> run[n].worker == Finished(Published)
  {
    hide Next;
    Reachable(run, n);
  }

  lemma AnswerOf(s: State)
    requires Invariant(s) && s.caller.Returned?
    ensures s.caller.outcome in {TimedOut, Failed} ==> !s.published
    ensures s.caller.outcome == Published ==> s.published
  {
  }

  lemma {:induction false} PublishedStays(run: seq<State>, i: nat, j: nat)
    requires IsRun(run) && i <= j < |run|
    ensures run[i].published ==> run[j].published
    decreases j
  {
    hide Invariant, Next;
    if i < j {
      PublishedStays(run, i, j - 1);
      Reachable(run, j - 1);
      StepKeepsInvariant(run[j - 1], run[j]);
    }
  }

  /** The worker was seen to have the permit, and the deadline had not passed when it looked after that. */
  ghost predicate AdmittedAt(run: seq<State>, k: nat)
    requires k < |run|
  {
    run[k].worker == Permitted && run[k].permit == Sent && !run[k].expired
  }

  /** Nothing is published without the permit and a deadline check passed after receiving it. */
  lemma {:induction false} PublishingWasAdmitted(run: seq<State>, n: nat) returns (k: nat)
    requires IsRun(run) && n < |run| && (run[n].published || run[n].worker == Committing)
    ensures k < n && AdmittedAt(run, k)
    decreases n
  {
    Reachable(run, n - 1);
    if run[n - 1].published || run[n - 1].worker == Committing {
      k := PublishingWasAdmitted(run, n - 1);
    } else {
      k := n - 1;
    }
  }

  /** Nobody waits in vain: until the caller has its answer and the worker is done, one of them can move. */
  lemma NobodyIsStuck(s: State) returns (t: State)
    requires Invariant(s) && (!s.caller.Returned? || s.worker in {Queued, Parked, Permitted, Refused, Committing})
    ensures CallerStep(s, t) || WorkerStep(s, t)
  {
    if s.worker == Queued {
      t := s.(worker := Parked);
    } else if s.worker == Permitted {
      t := if s.expired then s.(worker := Finished(TimedOut)) else s.(worker := Committing);
    } else if s.worker == Refused {
      t := s.(worker := Finished(TimedOut));
    } else if s.worker == Committing {
      t := s.(worker := Finished(Failed));
    } else if s.worker == Parked && s.permit != Pending {
      t := s.(worker := if s.permit == Sent then Permitted else Refused);
    } else if s.caller == Spawned || s.caller == Started {
      t := if s.expired then GiveUp(s, TimedOut) else s.(caller := if s.caller == Spawned then Selecting else Checked);
    } else if s.caller == Selecting {
      t := s.(caller := Started);
    } else if s.caller == Checked {
      t := if s.worker.Dead? then GiveUp(s, Stopped) else s.(caller := Awaiting, permit := Sent);
    } else {
      t := s.(caller := Returned(if s.worker.Finished? then s.worker.outcome else Stopped));
    }
  }

  // ---------------------------------------------------------------- what can still happen

  /** States reached from one another by the caller and the worker alone, without the deadline and without a death. */
  ghost predicate IsPath(path: seq<State>, s: State, t: State) {
    && path != [] && path[0] == s && path[|path| - 1] == t
    && forall i, j :: 0 <= i && j == i + 1 < |path| ==> Moves(path[i], path[j])
  }

  predicate Moves(s: State, t: State) {
    CallerStep(s, t) || WorkerStep(s, t)
  }

  ghost predicate Leads(s: State, t: State) {
    exists path :: IsPath(path, s, t)
  }

  lemma StaysPut(s: State)
    ensures Leads(s, s)
  {
    assert IsPath([s], s, s);
  }

  lemma MovesFirst(s: State, next: State, t: State)
    requires Moves(s, next) && Leads(next, t)
    ensures Leads(s, t)
  {
    hide Moves;
    var path :| IsPath(path, next, t);
    assert IsPath([s] + path, s, t);
  }

  /**
   A commit that was asked for can go through: from every reachable state in which the caller waits and its worker
   lives, as long as the deadline has not passed, both can go on to a publication that the caller learns of, and
   also to a failed one.
   */
  lemma {:induction false} CanPublish(s: State, outcome: Outcome)
    requires Invariant(s) && !s.expired && !s.caller.Returned? && s.worker in {Queued, Parked, Permitted, Committing}
    requires outcome in {Published, Failed}
    ensures Leads(s, State(false, Sent, Returned(outcome), Finished(outcome), outcome == Published))
    decreases Left(s)
  {
    hide Leads;
    var t := State(false, Sent, Returned(outcome), Finished(outcome), outcome == Published);
    if s.worker.Committing? {
      var finished := s.(worker := Finished(outcome), published := outcome == Published);
      StaysPut(t);
      MovesFirst(finished, t, t);
      MovesFirst(s, finished, t);
    } else {
      var next := match s.caller
        case Spawned => s.(caller := Selecting)
        case Selecting => if s.worker.Queued? then s.(worker := Parked) else s.(caller := Started)
        case Started => s.(caller := Checked)
        case Checked => s.(caller := Awaiting, permit := Sent)
        case _ => if s.worker.Parked? then s.(worker := Permitted) else s.(worker := Committing);
      CanPublish(next, outcome);
      MovesFirst(s, next, t);
    }
  }

  /** So there are runs in which the caller gets either answer. */
  lemma SomeRunAnswers(outcome: Outcome) returns (run: seq<State>)
    requires outcome in {Published, Failed}
    ensures IsRun(run) && run[|run| - 1].caller == Returned(outcome)
    ensures run[|run| - 1].published <==> outcome == Published
  {
    var s := State(false, Pending, Spawned, Queued, false);
    var t := State(false, Sent, Returned(outcome), Finished(outcome), outcome == Published);
    CanPublish(s, outcome);
    run :| IsPath(run, s, t);
    hide CallerStep, WorkerStep;
    forall i, j | 0 <= i < |run| && j == i + 1 < |run| ensures Next(run[i], run[j]) {
      assert Moves(run[i], run[j]);
    }
  }

  /** How many steps there are at most to the commit. */
  function Left(s: State): nat {
    (match s.caller case Spawned => 4 case Selecting => 3 case Started => 2 case Checked => 1 case _ => 0)
    + match s.worker case Queued => 3 case Parked => 2 case Permitted => 1 case _ => 0
  }

  /**
   A deadline that passes before the permit is sent ends the wait: the caller can time out at once, and a worker
   that has not started then never does.
   */
  lemma CanTimeOut(s: State)
    requires Invariant(s) && s.expired && s.caller in {Spawned, Selecting, Started}
    ensures var t := State(true, Closed, Returned(TimedOut),
                           if s.caller == Selecting && s.worker == Queued then Aborted else s.worker, false);
            CallerStep(s, t)
  {
  }

  /** The deadline may pass and the worker may die at any moment, even between the renames and its answer. */
  lemma MayBreak(s: State)
    ensures Next(s, State(true, s.permit, s.caller, s.worker, s.published))
    ensures s.worker in {Queued, Parked, Permitted, Refused, Committing} ==>
        Next(s, State(s.expired, s.permit, s.caller, Dead, s.published))
    ensures s.worker == Committing ==> Next(s, State(s.expired, s.permit, s.caller, Dead, true))
  {
  }

  /** A caller that waits for a dead worker learns that it stopped. */
  lemma CanStop(s: State)
    requires Invariant(s) && s.worker == Dead && s.caller in {Selecting, Checked, Awaiting}
    ensures CallerStep(s, State(s.expired, if s.caller == Awaiting then Sent else Closed, Returned(Stopped), Dead,
                                s.published))
  {
  }
}
