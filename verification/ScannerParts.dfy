/**
 The lock-protected parts of the scanner node: the admission counter, the template bundle behind
 its reader/writer lock, and the state of one job. Each method body is one critical section.
 */
module ScannerParts {
  import opened Wrappers

  const DEFAULT_MAX_CONCURRENT_SCANS := 20
  const MAX_CONCURRENT_SCANS_CEILING := 100

  // ---- Admission ----

  datatype Admission = Admission(fallback: nat, limit: nat, active: nat)

  datatype AdmissionError = CapacityExhausted | InvalidCapacity

  /** The limit a request asks for: its own, or the node's fallback when it names none. */
  function RequestedLimit(a: Admission, requested: int): Option<nat> {
    if requested < 0 || requested > MAX_CONCURRENT_SCANS_CEILING then None
    else Some(if requested > 0 then requested else a.fallback)
  }

  function Acquire(a: Admission, requested: int): (Admission, Option<AdmissionError>) {
    match RequestedLimit(a, requested)
    case None => (a, Some(InvalidCapacity))
    case Some(limit) =>
      if a.active >= limit then (a.(limit := limit), Some(CapacityExhausted))
      else (a.(limit := limit, active := a.active + 1), None)
  }

  function Release(a: Admission): Admission {
    if a.active > 0 then a.(active := a.active - 1) else a
  }

  class ScanAdmission {
    var fallback: nat
    var limit: nat
    var active: nat

    function View(): Admission
      reads this
    {
      Admission(fallback, limit, active)
    }

    constructor (configured: int)
      ensures View() == Admission(fallback, fallback, 0)
      ensures fallback == if 1 <= configured <= 100 then configured else 20
    {
      var n := if configured < 1 || configured > MAX_CONCURRENT_SCANS_CEILING
               then DEFAULT_MAX_CONCURRENT_SCANS else configured;
      fallback, limit, active := n, n, 0;
    }

    method TryAcquire(requested: int) returns (error: Option<AdmissionError>)
      modifies this
      ensures (View(), error) == Acquire(old(View()), requested)
      ensures error == Some(InvalidCapacity) <==> !(0 <= requested <= 100)
      ensures limit == (if 0 < requested <= 100 then requested else if requested == 0 then fallback else old(limit))
      ensures error == Some(CapacityExhausted) <==> 0 <= requested <= 100 && old(active) >= limit
      ensures fallback == old(fallback)
      ensures error.None? ==> active == old(active) + 1 && active <= limit
      ensures error.Some? ==> active == old(active)
    {
      if requested < 0 || requested > MAX_CONCURRENT_SCANS_CEILING {
        return Some(InvalidCapacity);
      }
      limit := if requested > 0 then requested else fallback;
      if active >= limit {
        return Some(CapacityExhausted);
      }
      active := active + 1;
      return None;
    }

    method GiveBack()
      modifies this
      ensures View() == Release(old(View()))
      ensures active == (if old(active) > 0 then old(active) - 1 else 0) && fallback == old(fallback) && limit == old(limit)
    {
      if active > 0 {
        active := active - 1;
      }
    }
  }

  // ---- Templates ----

  /** The active tree, as its manifest lists it. */
  datatype Tree = Tree(digest: string, paths: map<string, string>)

  datatype Bundle = Bundle(tree: Option<Tree>, digest: string)

  datatype LockError = MissingTemplates | NoCommit | CommitMismatch

  /** Why the active bundle cannot serve a scan, if it cannot. */
  function LockRefusal(b: Bundle, ids: seq<string>, commit: string): Option<LockError> {
    if ids == [] then Some(MissingTemplates)
    else if commit == "" then Some(NoCommit)
    else if b.tree.None? then Some(MissingTemplates)
    else if exists id :: id in ids && id !in b.tree.value.paths then Some(MissingTemplates)
    else if b.tree.value.digest != b.digest || commit != b.tree.value.digest then Some(CommitMismatch)
    else None
  }

  /** The ids without their repetitions, in order of first appearance. */
  function Distinct(ids: seq<string>): seq<string> {
    if ids == [] then []
    else
      var init, last := ids[..|ids| - 1], ids[|ids| - 1];
      if last in init then Distinct(init) else Distinct(init) + [last]
  }

  lemma {:induction false} DistinctHasAllOnce(ids: seq<string>)
    ensures forall id :: id in Distinct(ids) <==> id in ids
    ensures forall i, j :: 0 <= i < j < |Distinct(ids)| ==> Distinct(ids)[i] != Distinct(ids)[j]
  {
    if ids != [] {
      var init, last := ids[..|ids| - 1], ids[|ids| - 1];
      DistinctHasAllOnce(init);
      assert ids == init + [last];
    }
  }

  /** More ids only add at the end, so the order is that of first appearance. */
  lemma {:induction false} DistinctGrows(ids: seq<string>, k: nat)
    requires k <= |ids|
    ensures Distinct(ids[..k]) <= Distinct(ids)
  {
    if k < |ids| {
      assert ids[..|ids| - 1][..k] == ids[..k];
      DistinctGrows(ids[..|ids| - 1], k);
    } else {
      assert ids[..k] == ids;
    }
  }

  /** How far the file operations of an activation get. */
  datatype Activation = RemoveFails(emptied: bool) | RenameFails | RecordFails | Succeeds

  class BundleStore {
    var tree: Option<Tree>
    var digest: string
    var readers: nat
    var writing: bool

    function View(): Bundle
      reads this
    {
      Bundle(tree, digest)
    }

    constructor (tree: Option<Tree>, digest: string)
      ensures View() == Bundle(tree, digest) && readers == 0 && !writing
    {
      this.tree, this.digest, readers, writing := tree, digest, 0, false;
    }

    /** Takes the shared lock and resolves the templates; gives the lock back on a refusal. */
    method LockTemplates(ids: seq<string>, commit: string) returns (r: Result<seq<(string, string)>, LockError>)
      requires !writing
      modifies this`readers
      ensures r.Ok? <==>
              ids != [] && commit != "" && tree.Some? && (forall id :: id in ids ==> id in tree.value.paths)
              && tree.value.digest == digest && digest == commit
      ensures r == Err(NoCommit) <==> ids != [] && commit == ""
      ensures r == Err(MissingTemplates) <==>
              ids == [] || (commit != "" && (tree.None? || exists id :: id in ids && id !in tree.value.paths))
      ensures match LockRefusal(View(), ids, commit)
              case Some(e) => r == Err(e) && readers == old(readers)
              case None =>
                && r.Ok? && readers == old(readers) + 1
                && |r.value| == |Distinct(ids)|
                && forall i :: 0 <= i < |r.value| ==>
                     Distinct(ids)[i] in tree.value.paths
                     && r.value[i] == (Distinct(ids)[i], tree.value.paths[Distinct(ids)[i]])
    {
      readers := readers + 1;
      if |ids| == 0 {
        readers := readers - 1;
        return Err(MissingTemplates);
      }
      if commit == "" {
        readers := readers - 1;
        return Err(NoCommit);
      }
      if tree.None? {
        readers := readers - 1;
        return Err(MissingTemplates);
      }
      var manifest := tree.value;
      var seen: set<string> := {};
      var templates: seq<(string, string)> := [];
      var missing := false;
      for i := 0 to |ids|
        invariant seen == set id | id in ids[..i]
        invariant missing <==> exists id :: id in ids[..i] && id !in manifest.paths
        invariant !missing ==> |templates| == |Distinct(ids[..i])|
        invariant !missing ==> forall k :: 0 <= k < |templates| ==>
          Distinct(ids[..i])[k] in manifest.paths
          && templates[k] == (Distinct(ids[..i])[k], manifest.paths[Distinct(ids[..i])[k]])
      {
        var id := ids[i];
        assert ids[..i + 1] == ids[..i] + [id];
        if id in seen {
          continue;
        }
        seen := seen + {id};
        if id in manifest.paths {
          templates := templates + [(id, manifest.paths[id])];
        } else {
          missing := true;
        }
      }
      assert ids[..|ids|] == ids;
      if missing {
        readers := readers - 1;
        return Err(MissingTemplates);
      }
      if manifest.digest != digest || commit != manifest.digest {
        readers := readers - 1;
        return Err(CommitMismatch);
      }
      return Ok(templates);
    }

    method Unlock()
      requires readers > 0
      modifies this`readers
      ensures readers == old(readers) - 1
    {
      readers := readers - 1;
    }

    /** Swaps a verified tree in, unless scans are running; a failed swap leaves what the files hold. */
    method Apply(verified: Tree, outcome: Activation) returns (ok: bool)
      modifies this
      ensures readers == old(readers) && writing == old(writing)
      ensures old(readers > 0 || writing) ==> !ok && View() == old(View())
      ensures !old(readers > 0 || writing) ==>
        (ok <==> outcome.Succeeds?) &&
        View() == match outcome
                  case RemoveFails(emptied) => if emptied then old(View()).(tree := None) else old(View())
                  case RenameFails => old(View()).(tree := None)
                  case RecordFails => old(View()).(tree := Some(verified))
                  case Succeeds => Bundle(Some(verified), verified.digest)
    {
      if readers > 0 || writing {
        return false;
      }
      writing := true;
      if outcome.RemoveFails? {
        if outcome.emptied {
          tree := None;
        }
        writing := false;
        return false;
      }
      tree := None;
      if outcome.RenameFails? {
        writing := false;
        return false;
      }
      tree := Some(verified);
      if outcome.RecordFails? {
        writing := false;
        return false;
      }
      digest := verified.digest;
      writing := false;
      return true;
    }
  }

  // ---- Jobs ----

  datatype JobState = Running | Complete | Failed | Cancelled

  datatype Job = Job(state: JobState, cancelRequested: bool, finished: bool, doneClosed: bool)

  const STARTED := Job(Running, false, false, false)

  function CancelJob(j: Job): Job {
    if j.state == Running then j.(cancelRequested := true) else j
  }

  predicate AcceptsCancel(j: Job) {
    j.state == Running && !j.cancelRequested
  }

  /** What fail and complete do: nothing once a cancel was accepted. */
  function Report(j: Job, outcome: JobState): Job {
    if j.cancelRequested || j.state == Cancelled then j else j.(state := outcome, finished := true)
  }

  function FinishJob(j: Job): Job {
    if j.cancelRequested then j.(doneClosed := true, state := Cancelled, finished := true)
    else j.(doneClosed := true)
  }

  /** Safe to remove: terminal, and for a cancelled job also done. */
  predicate TerminalAndFinished(j: Job) {
    j.state != Running && j.finished && (j.state == Cancelled ==> j.doneClosed)
  }

  class JobCell {
    var state: JobState
    var cancelRequested: bool
    var finished: bool
    var doneClosed: bool

    function View(): Job
      reads this
    {
      Job(state, cancelRequested, finished, doneClosed)
    }

    constructor ()
      ensures View() == STARTED
    {
      state, cancelRequested, finished, doneClosed := Running, false, false, false;
    }

    method Cancel() returns (accepted: bool)
      modifies this
      ensures accepted == AcceptsCancel(old(View())) && View() == CancelJob(old(View()))
      ensures accepted <==> old(state) == Running && !old(cancelRequested)
      ensures cancelRequested == (old(cancelRequested) || accepted)
      ensures state == old(state) && finished == old(finished) && doneClosed == old(doneClosed)
    {
      if state != Running || cancelRequested {
        return false;
      }
      cancelRequested := true;
      return true;
    }

    method Fail()
      modifies this
      ensures View() == Report(old(View()), Failed)
      ensures if old(cancelRequested) || old(state) == Cancelled then View() == old(View())
              else View() == Job(Failed, false, true, old(doneClosed))
    {
      if cancelRequested || state == Cancelled {
        return;
      }
      state, finished := Failed, true;
    }

    method Complete()
      modifies this
      ensures View() == Report(old(View()), JobState.Complete)
      ensures if old(cancelRequested) || old(state) == Cancelled then View() == old(View())
              else View() == Job(JobState.Complete, false, true, old(doneClosed))
    {
      if cancelRequested || state == Cancelled {
        return;
      }
      state, finished := JobState.Complete, true;
    }

    method Finish()
      modifies this
      ensures View() == FinishJob(old(View()))
      ensures if old(cancelRequested) then View() == Job(Cancelled, true, true, true)
              else View() == Job(old(state), false, old(finished), true)
    {
      doneClosed := true;
      if cancelRequested {
        state, finished := Cancelled, true;
      }
    }
  }
}
