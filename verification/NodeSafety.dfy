/**
 The scanner node under every interleaving of starts, cancels, finishes, bundle pushes and
 deletions. A start and a run are sequences of critical sections; any of them may come next.
 */
module NodeSafety {
  import opened Wrappers
  import opened ScannerParts

  type JobId = nat

  /**
   Where a job's goroutine is: admitted, holding the shared lock but not registered, running,
   past the last status write, past the unlock, past finish, or gone. A refused start only
   has its admission left to give back.
   */
  datatype Place = Admitted | Locked | InRun | Ended | Unlocked | Finished | Refused | Gone

  /** A goroutine with its job object, if it got that far, and whether the scan map still lists it. */
  datatype Entry = Entry(place: Place, ids: seq<string>, commit: string, job: Option<Job>, listed: bool)

  /** A push holding the exclusive lock, and the file operation it does next. */
  datatype Push = NoPush | Removing(tree: Tree) | Renaming(tree: Tree) | Recording(tree: Tree)

  /** What the goroutines share. */
  datatype Shared = Shared(bundle: Bundle, readers: nat, push: Push, admission: Admission)

  datatype Node = Node(shared: Shared, jobs: map<JobId, Entry>)

  datatype Act =
    | Lock | Abandon | Register | Cancel | EndRun(outcome: JobState) | EndCancelledRun | Unlock | Finish
    | ReleaseSlot | Delete

  datatype Step =
    | Admit(id: JobId, requested: int, ids: seq<string>, commit: string)
    | Do(id: JobId, act: Act)
    | PushBegin(tree: Tree)
    | PushFileOp(ok: bool, emptied: bool)

  function DropReader(s: Shared): Shared {
    s.(readers := if s.readers > 0 then s.readers - 1 else 0)
  }

  /** One critical section of one goroutine, or of a caller about its job. */
  function Perform(s: Shared, e: Entry, act: Act): (Shared, Entry) {
    match act
    case Lock =>
      // The shared lock waits while a push holds the exclusive one.
      if e.place != Admitted || s.push != NoPush then (s, e)
      else if LockRefusal(s.bundle, e.ids, e.commit).Some? then (s, e.(place := Refused))
      else (s.(readers := s.readers + 1), e.(place := Locked))
    case Abandon => if e.place == Locked then (DropReader(s), e.(place := Refused)) else (s, e)
    case Register =>
      if e.place == Locked then (s, e.(place := InRun, job := Some(STARTED), listed := true)) else (s, e)
    case Cancel => if e.listed && e.job.Some? then (s, e.(job := Some(CancelJob(e.job.value)))) else (s, e)
    case EndRun(outcome) =>
      if e.place == InRun && e.job.Some? && (outcome == Complete || outcome == Failed)
      then (s, e.(place := Ended, job := Some(Report(e.job.value, outcome)))) else (s, e)
    case EndCancelledRun =>
      if e.place == InRun && e.job.Some? && e.job.value.cancelRequested then (s, e.(place := Ended)) else (s, e)
    case Unlock => if e.place == Ended then (DropReader(s), e.(place := Unlocked)) else (s, e)
    case Finish =>
      if e.place == Unlocked && e.job.Some? then (s, e.(place := Finished, job := Some(FinishJob(e.job.value)))) else (s, e)
    case ReleaseSlot =>
      if e.place == Finished || e.place == Refused
      then (s.(admission := Release(s.admission)), e.(place := Gone)) else (s, e)
    case Delete =>
      if e.listed && e.job.Some? && TerminalAndFinished(e.job.value) then (s, e.(listed := false)) else (s, e)
  }

  /** The next file operation of a push; a failed one ends the push with what the files then hold. */
  function FileOp(s: Shared, ok: bool, emptied: bool): Shared {
    match s.push
    case NoPush => s
    case Removing(tree) =>
      if ok then s.(bundle := s.bundle.(tree := None), push := Renaming(tree))
      else s.(bundle := if emptied then s.bundle.(tree := None) else s.bundle, push := NoPush)
    case Renaming(tree) =>
      if ok then s.(bundle := s.bundle.(tree := Some(tree)), push := Recording(tree)) else s.(push := NoPush)
    case Recording(tree) =>
      if ok then s.(bundle := s.bundle.(digest := tree.digest), push := NoPush) else s.(push := NoPush)
  }

  function Next(n: Node, step: Step): Node {
    match step
    case Admit(id, requested, ids, commit) =>
      if id in n.jobs then n
      else
        var (a, error) := Acquire(n.shared.admission, requested);
        Node(n.shared.(admission := a),
             if error.None? then n.jobs[id := Entry(Admitted, ids, commit, None, false)] else n.jobs)
    case Do(id, act) =>
      if id !in n.jobs then n
      else
        var (s, e) := Perform(n.shared, n.jobs[id], act);
        Node(s, n.jobs[id := e])
    case PushBegin(tree) =>
      if n.shared.readers == 0 && n.shared.push == NoPush then n.(shared := n.shared.(push := Removing(tree))) else n
    case PushFileOp(ok, emptied) => n.(shared := FileOp(n.shared, ok, emptied))
  }

  function Run(n: Node, steps: seq<Step>): Node {
    if steps == [] then n else Next(Run(n, steps[..|steps| - 1]), steps[|steps| - 1])
  }

  // ---- Invariant ----

  predicate HoldsLock(e: Entry) {
    e.place == Locked || e.place == InRun || e.place == Ended
  }

  ghost function Holders(n: Node): set<JobId> {
    set id | id in n.jobs && HoldsLock(n.jobs[id])
  }

  ghost function NotReleased(n: Node): set<JobId> {
    set id | id in n.jobs && n.jobs[id].place != Gone
  }

  /** The active tree and the recorded digest are the ones the scan asked for, with all its templates. */
  predicate Serves(b: Bundle, e: Entry) {
    && b.tree.Some? && b.tree.value.digest == e.commit && b.digest == e.commit
    && forall id :: id in e.ids ==> id in b.tree.value.paths
  }

  /** Before the goroutine's finish: reported, or cancelled and still shown as running. */
  predicate Settled(j: Job) {
    !j.doneClosed &&
    if j.cancelRequested then j.state == Running && !j.finished
    else (j.state == Complete || j.state == Failed) && j.finished
  }

  predicate Done(j: Job) {
    j.doneClosed && j.finished && j.state != Running && (j.cancelRequested <==> j.state == Cancelled)
  }

  /** The job's status, as it must be at each place of its goroutine. */
  predicate StatusFits(e: Entry) {
    match e.place
    case InRun => e.job.Some? && e.job.value.state == Running && !e.job.value.finished && !e.job.value.doneClosed
    case Ended => e.job.Some? && Settled(e.job.value)
    case Unlocked => e.job.Some? && Settled(e.job.value)
    case Finished => e.job.Some? && Done(e.job.value)
    case Gone => e.job.Some? ==> Done(e.job.value)
    case Admitted => e.job.None?
    case Locked => e.job.None?
    case Refused => e.job.None?
  }

  predicate EntrySafe(s: Shared, e: Entry) {
    && StatusFits(e) && (e.listed ==> e.job.Some?)
    && (HoldsLock(e) ==> s.push == NoPush && Serves(s.bundle, e))
  }

  ghost predicate Safe(n: Node) {
    && n.shared.readers == |Holders(n)| && n.shared.admission.active == |NotReleased(n)|
    && (forall id :: id in n.jobs ==> EntrySafe(n.shared, n.jobs[id]))
    && n.shared.admission.fallback <= MAX_CONCURRENT_SCANS_CEILING
    && n.shared.admission.active <= MAX_CONCURRENT_SCANS_CEILING
  }

  /** A node just started on whatever tree and digest its volume holds. */
  predicate Fresh(n: Node) {
    && n.shared.readers == 0 && n.shared.push == NoPush && n.jobs == map[]
    && n.shared.admission.active == 0 && n.shared.admission.fallback <= MAX_CONCURRENT_SCANS_CEILING
  }

  // ---- Preservation ----

  /** What one critical section does to its own entry and to the shared counters. */
  lemma PerformIsSafe(s: Shared, e: Entry, act: Act)
    requires EntrySafe(s, e) && (HoldsLock(e) ==> s.readers > 0) && (e.place != Gone ==> s.admission.active > 0)
    ensures var (s', e') := Perform(s, e, act);
            && EntrySafe(s', e') && s'.bundle == s.bundle && s'.push == s.push
            && s'.admission.fallback == s.admission.fallback
            && s'.readers == s.readers + (if HoldsLock(e') then 1 else 0) - (if HoldsLock(e) then 1 else 0)
            && s'.admission.active ==
               s.admission.active + (if e'.place != Gone then 1 else 0) - (if e.place != Gone then 1 else 0)
            && (e.place == Gone ==> e'.place == Gone)
  {
  }

  lemma Counted(all: set<JobId>, all': set<JobId>, id: JobId)
    requires forall x :: x != id ==> (x in all' <==> x in all)
    ensures |all'| == |all| + (if id in all' then 1 else 0) - (if id in all then 1 else 0)
    ensures id in all ==> |all| > 0
  {
    var rest := all - {id};
    assert rest == all' - {id};
    assert |all| == |rest| + (if id in all then 1 else 0) by {
      if id in all { assert all == rest + {id}; } else { assert all == rest; }
    }
    assert |all'| == |rest| + (if id in all' then 1 else 0) by {
      if id in all' { assert all' == rest + {id}; } else { assert all' == rest; }
    }
  }

  lemma DoIsSafe(n: Node, id: JobId, act: Act)
    requires Safe(n) && id in n.jobs
    ensures Safe(Next(n, Do(id, act)))
  {
    var m := Next(n, Do(id, act));
    Counted(Holders(n), Holders(m), id);
    Counted(NotReleased(n), NotReleased(m), id);
    assert id in NotReleased(n) <==> n.jobs[id].place != Gone;
    assert id in Holders(n) <==> HoldsLock(n.jobs[id]);
    PerformIsSafe(n.shared, n.jobs[id], act);
    assert m.jobs[id] == Perform(n.shared, n.jobs[id], act).1;
  }

  lemma AdmitIsSafe(n: Node, id: JobId, requested: int, ids: seq<string>, commit: string)
    requires Safe(n)
    ensures Safe(Next(n, Admit(id, requested, ids, commit)))
  {
    var m := Next(n, Admit(id, requested, ids, commit));
    if id !in n.jobs {
      Counted(Holders(n), Holders(m), id);
      Counted(NotReleased(n), NotReleased(m), id);
    }
  }

  lemma PushIsSafe(n: Node, step: Step)
    requires Safe(n) && (step.PushBegin? || step.PushFileOp?)
    ensures Safe(Next(n, step))
  {
    var m := Next(n, step);
    assert Holders(m) == Holders(n) && NotReleased(m) == NotReleased(n);
    forall id | id in n.jobs
      ensures EntrySafe(m.shared, n.jobs[id])
    {
      assert HoldsLock(n.jobs[id]) ==> id in Holders(n);
    }
  }

  lemma StepIsSafe(n: Node, step: Step)
    requires Safe(n)
    ensures Safe(Next(n, step))
  {
    match step {
      case Admit(id, requested, ids, commit) => AdmitIsSafe(n, id, requested, ids, commit);
      case Do(id, act) => if id in n.jobs { DoIsSafe(n, id, act); }
      case PushBegin(_) => PushIsSafe(n, step);
      case PushFileOp(_, _) => PushIsSafe(n, step);
    }
  }

  /**
   Over all interleavings: while a job holds the shared lock the active digest is the commit it
   requested, the admission count is the number of jobs not yet released, and job statuses fit.
   */
  lemma {:induction false} SafeUnderInterleaving(n: Node, steps: seq<Step>)
    requires Fresh(n)
    ensures Safe(Run(n, steps))
  {
    if steps == [] {
      assert Holders(n) == {} && NotReleased(n) == {};
    } else {
      SafeUnderInterleaving(n, steps[..|steps| - 1]);
      StepIsSafe(Run(n, steps[..|steps| - 1]), steps[|steps| - 1]);
    }
  }

  // ---- What a job can count on ----

  /** A terminal status never changes, and neither does an accepted cancel. */
  ghost predicate Keeps(j: Job, later: Option<Job>) {
    && later.Some?
    && (j.state != Running ==> later.value.state == j.state)
    && (j.cancelRequested ==> later.value.cancelRequested)
  }

  lemma PerformKeeps(s: Shared, e: Entry, act: Act)
    requires EntrySafe(s, e) && e.job.Some?
    ensures Keeps(e.job.value, Perform(s, e, act).1.job)
  {
  }

  lemma StepKeeps(n: Node, step: Step, id: JobId)
    requires Safe(n) && id in n.jobs && n.jobs[id].job.Some?
    ensures id in Next(n, step).jobs && Keeps(n.jobs[id].job.value, Next(n, step).jobs[id].job)
  {
    if step.Do? && step.id == id {
      PerformKeeps(n.shared, n.jobs[id], step.act);
    }
  }

  /** A job leaves running once, whatever happens afterwards. */
  lemma {:induction false} LeavesRunningOnce(n: Node, steps: seq<Step>, id: JobId)
    requires Safe(n) && id in n.jobs && n.jobs[id].job.Some?
    ensures Safe(Run(n, steps))
    ensures id in Run(n, steps).jobs && Keeps(n.jobs[id].job.value, Run(n, steps).jobs[id].job)
  {
    if steps != [] {
      var init, last := steps[..|steps| - 1], steps[|steps| - 1];
      LeavesRunningOnce(n, init, id);
      StepIsSafe(Run(n, init), last);
      StepKeeps(Run(n, init), last, id);
    }
  }

  /** A cancel that was accepted is how the job ends, whatever else its run reports or does. */
  lemma AcceptedCancelWins(n: Node, id: JobId, steps: seq<Step>)
    requires Safe(n) && id in n.jobs && n.jobs[id].listed && n.jobs[id].job.Some?
    requires AcceptsCancel(n.jobs[id].job.value)
    ensures var later := Run(Next(n, Do(id, Cancel)), steps);
            && id in later.jobs && later.jobs[id].job.Some?
            && later.jobs[id].job.value.state in {Running, Cancelled}
            && (later.jobs[id].place == Finished || later.jobs[id].place == Gone ==>
                  later.jobs[id].job.value.state == Cancelled)
  {
    StepIsSafe(n, Do(id, Cancel));
    LeavesRunningOnce(Next(n, Do(id, Cancel)), steps, id);
    assert EntrySafe(Run(Next(n, Do(id, Cancel)), steps).shared, Run(Next(n, Do(id, Cancel)), steps).jobs[id]);
  }

  // ---- What happens when nothing comes between ----

  /** The active tree has all the templates, under the digest that is recorded and asked for. */
  predicate CanServe(b: Bundle, ids: seq<string>, commit: string) {
    && ids != [] && commit != "" && b.tree.Some? && b.tree.value.digest == commit && b.digest == commit
    && forall id :: id in ids ==> id in b.tree.value.paths
  }

  /** The node has a slot for the request, under its own limit or the fallback. */
  predicate HasSlot(a: Admission, requested: int) {
    0 <= requested <= 100 && a.active < if requested > 0 then requested else a.fallback
  }

  ghost predicate StartsAs(n: Node, id: JobId, requested: int, ids: seq<string>, commit: string, started: Node) {
    && id in started.jobs && started.jobs[id] == Entry(InRun, ids, commit, Some(Job(Running, false, false, false)), true)
    && started.shared.readers == n.shared.readers + 1 && started.shared.admission.active == n.shared.admission.active + 1
    && started.shared.bundle == n.shared.bundle && started.shared.push == NoPush
  }

  /** An admitted start that finds its templates holds a slot and the shared lock, and its job is listed as running. */
  lemma StartSucceeds(n: Node, id: JobId, requested: int, ids: seq<string>, commit: string)
    requires id !in n.jobs && n.shared.push == NoPush
    requires HasSlot(n.shared.admission, requested) && CanServe(n.shared.bundle, ids, commit)
    ensures var admitted := Next(n, Admit(id, requested, ids, commit));
            StartsAs(n, id, requested, ids, commit, Next(Next(admitted, Do(id, Lock)), Do(id, Register)))
  {
  }

  /** One that is refused by the templates, or gives up before its job is listed, keeps neither. */
  lemma RefusedStartLeavesNothing(n: Node, id: JobId, requested: int, ids: seq<string>, commit: string)
    requires id !in n.jobs && n.shared.push == NoPush && HasSlot(n.shared.admission, requested)
    ensures var admitted := Next(n, Admit(id, requested, ids, commit));
            var locked := Next(admitted, Do(id, Lock));
            var left := if CanServe(n.shared.bundle, ids, commit) then Next(locked, Do(id, Abandon)) else locked;
            var released := Next(left, Do(id, ReleaseSlot));
            && released.jobs[id] == Entry(Gone, ids, commit, None, false)
            && released.shared.readers == n.shared.readers
            && released.shared.admission.active == n.shared.admission.active
  {
  }

  /** Without a slot there is no start. */
  lemma NoSlotNoStart(n: Node, id: JobId, requested: int, ids: seq<string>, commit: string)
    requires id !in n.jobs && !HasSlot(n.shared.admission, requested)
    ensures Next(n, Admit(id, requested, ids, commit)).jobs == n.jobs
    ensures Next(n, Admit(id, requested, ids, commit)).shared.admission.active == n.shared.admission.active
  {
  }

  function WindUp(n: Node, id: JobId): Node {
    Next(Next(Next(n, Do(id, Unlock)), Do(id, Finish)), Do(id, ReleaseSlot))
  }

  /** The job as it is when its goroutine is gone; it gave back its lock and its slot, and can be deleted. */
  ghost predicate EndsWith(n: Node, id: JobId, ended: Node, j: Job) {
    && id in n.jobs && id in ended.jobs && ended.jobs[id] == n.jobs[id].(place := Gone, job := Some(j))
    && ended.shared.readers == n.shared.readers - 1
    && ended.shared.admission.active == n.shared.admission.active - 1
    && !Next(ended, Do(id, Delete)).jobs[id].listed
  }

  lemma WindsUp(n: Node, id: JobId)
    requires id in n.jobs && n.jobs[id].place == Ended && n.jobs[id].job.Some? && n.jobs[id].listed
    requires n.shared.readers > 0 && n.shared.admission.active > 0 && Settled(n.jobs[id].job.value)
    ensures var j := n.jobs[id].job.value;
            EndsWith(n, id, WindUp(n, id), if j.cancelRequested then Job(Cancelled, true, true, true) else Job(j.state, false, true, true))
  {
  }

  lemma RunningHolds(n: Node, id: JobId)
    requires Safe(n) && id in n.jobs && n.jobs[id].place == InRun
    ensures n.shared.readers > 0 && n.shared.admission.active > 0
  {
    assert id in Holders(n) && id in NotReleased(n);
  }

  /** A run that ends by itself ends as it reports, and gives lock and slot back. Until it reports it cannot be deleted. */
  lemma RunEndsAsReported(n: Node, id: JobId, outcome: JobState)
    requires Safe(n) && id in n.jobs && outcome in {Complete, Failed}
    requires n.jobs[id].place == InRun && n.jobs[id].job == Some(Job(Running, false, false, false)) && n.jobs[id].listed
    ensures Next(n, Do(id, Delete)).jobs[id].listed
    ensures EndsWith(n, id, WindUp(Next(n, Do(id, EndRun(outcome))), id), Job(outcome, false, true, true))
  {
    RunningHolds(n, id);
    Reports(n, id, outcome);
    WindsUp(Next(n, Do(id, EndRun(outcome))), id);
  }

  lemma Reports(n: Node, id: JobId, outcome: JobState)
    requires id in n.jobs && outcome in {Complete, Failed}
    requires n.jobs[id].place == InRun && n.jobs[id].job == Some(Job(Running, false, false, false)) && n.jobs[id].listed
    ensures var ended := Next(n, Do(id, EndRun(outcome)));
            && ended.shared == n.shared && id in ended.jobs
            && ended.jobs[id] == n.jobs[id].(place := Ended, job := Some(Job(outcome, false, true, false)))
    ensures Next(n, Do(id, Delete)).jobs[id].listed
  {
  }

  /** One that is cancelled ends as cancelled, whether its run reports anything or not. */
  lemma CancelledRunEnds(n: Node, id: JobId, report: Act)
    requires Safe(n) && id in n.jobs && report in {EndRun(Complete), EndRun(Failed), EndCancelledRun}
    requires n.jobs[id].place == InRun && n.jobs[id].job == Some(Job(Running, false, false, false)) && n.jobs[id].listed
    ensures var cancelled := Next(n, Do(id, Cancel));
            && id in cancelled.jobs && cancelled.jobs[id].job == Some(Job(Running, true, false, false))
            && Next(cancelled, Do(id, Delete)).jobs[id].listed
            && EndsWith(n, id, WindUp(Next(cancelled, Do(id, report)), id), Job(Cancelled, true, true, true))
  {
    RunningHolds(n, id);
    IsCancelled(n, id, report);
    WindsUp(Next(Next(n, Do(id, Cancel)), Do(id, report)), id);
  }

  lemma IsCancelled(n: Node, id: JobId, report: Act)
    requires id in n.jobs && report in {EndRun(Complete), EndRun(Failed), EndCancelledRun}
    requires n.jobs[id].place == InRun && n.jobs[id].job == Some(Job(Running, false, false, false)) && n.jobs[id].listed
    ensures var cancelled, requested := Next(n, Do(id, Cancel)), Some(Job(Running, true, false, false));
            var ended := Next(cancelled, Do(id, report));
            && cancelled.shared == ended.shared == n.shared && id in cancelled.jobs && id in ended.jobs
            && cancelled.jobs[id] == n.jobs[id].(job := requested)
            && ended.jobs[id] == n.jobs[id].(place := Ended, job := requested)
            && Next(cancelled, Do(id, Delete)).jobs[id].listed
  {
  }

  /** A listed job can be deleted exactly when its status is terminal. */
  lemma DeletedIff(n: Node, id: JobId)
    requires Safe(n) && id in n.jobs && n.jobs[id].listed
    ensures n.jobs[id].job.Some?
    ensures Next(n, Do(id, Delete)).jobs[id].listed <==> n.jobs[id].job.value.state == Running
  {
    assert EntrySafe(n.shared, n.jobs[id]);
  }

  /** A push that nothing fails puts its tree and digest in place; a failed step leaves what the files then hold. */
  lemma PushReplaces(n: Node, tree: Tree)
    requires n.shared.readers == 0 && n.shared.push == NoPush
    ensures var begun := Next(n, PushBegin(tree));
            var removed := Next(begun, PushFileOp(true, true));
            var renamed := Next(removed, PushFileOp(true, true));
            var done := Next(renamed, PushFileOp(true, true));
            && done == n.(shared := n.shared.(bundle := Bundle(Some(tree), tree.digest)))
            && (forall emptied :: Next(begun, PushFileOp(false, emptied)).shared ==
                  n.shared.(bundle := Bundle(if emptied then None else n.shared.bundle.tree, n.shared.bundle.digest)))
            && (forall e :: Next(removed, PushFileOp(false, e)).shared ==
                  n.shared.(bundle := Bundle(None, n.shared.bundle.digest)))
            && (forall e :: Next(renamed, PushFileOp(false, e)).shared ==
                  n.shared.(bundle := Bundle(Some(tree), n.shared.bundle.digest)))
  {
  }

  /** No file operation of a push happens while a scan holds the shared lock. */
  lemma BundleFixedUnderLock(n: Node, step: Step, id: JobId)
    requires Safe(n) && id in n.jobs && HoldsLock(n.jobs[id])
    ensures Next(n, step).shared.bundle == n.shared.bundle && Serves(n.shared.bundle, n.jobs[id])
  {
    assert EntrySafe(n.shared, n.jobs[id]);
  }

  /** A push gets the exclusive lock exactly when no scan and no other push holds it. */
  lemma PushBeginsIff(n: Node, tree: Tree)
    requires Safe(n)
    ensures Next(n, PushBegin(tree)) != n <==>
            n.shared.push == NoPush && forall id :: id in n.jobs ==> !HoldsLock(n.jobs[id])
  {
    if id :| id in n.jobs && HoldsLock(n.jobs[id]) {
      assert id in Holders(n);
    }
    if n.shared.readers > 0 {
      var id :| id in Holders(n);
    }
  }

  /** A deletable cancelled job has let go of the bundle; a completed or failed one has once past its unlock. */
  lemma DeletableJobHoldsLockIff(n: Node, id: JobId)
    requires Safe(n) && id in n.jobs && n.jobs[id].job.Some? && TerminalAndFinished(n.jobs[id].job.value)
    ensures HoldsLock(n.jobs[id]) <==> n.jobs[id].place == Ended
    ensures n.jobs[id].job.value.state == Cancelled ==> !HoldsLock(n.jobs[id])
  {
    assert EntrySafe(n.shared, n.jobs[id]);
  }

  /**
   What a caller that sees only the job object can know: the lock is released, wherever the goroutine may be
   with this object, exactly when its done channel is closed. Deletion does not look at it.
   */
  lemma DeletableJobIsReleasedIff(n: Node, id: JobId)
    requires Safe(n) && id in n.jobs && n.jobs[id].job.Some? && TerminalAndFinished(n.jobs[id].job.value)
    ensures n.jobs[id].job.value.doneClosed <==>
            forall e: Entry :: e.job == n.jobs[id].job && StatusFits(e) ==> !HoldsLock(e)
  {
    assert EntrySafe(n.shared, n.jobs[id]);
    var ended := n.jobs[id].(place := Ended);
    assert !n.jobs[id].job.value.doneClosed ==> StatusFits(ended) && HoldsLock(ended);
  }

  /** It happens: a completed job is deleted while its goroutine still holds the shared lock. */
  lemma CompletedJobDeletedUnderLock(n: Node, id: JobId)
    requires Safe(n) && id in n.jobs && n.jobs[id].place == InRun && n.jobs[id].listed
    requires !n.jobs[id].job.value.cancelRequested
    ensures var later := Run(n, [Do(id, EndRun(Complete)), Do(id, Delete)]);
            id in later.jobs && !later.jobs[id].listed && HoldsLock(later.jobs[id])
  {
    var ended, deleted := Do(id, EndRun(Complete)), Do(id, Delete);
    assert [ended, deleted][..1] == [ended] && [ended][..0] == [];
    assert Run(n, []) == n;
    assert Run(n, [ended]) == Next(n, ended);
    assert EntrySafe(n.shared, n.jobs[id]);
  }
}
