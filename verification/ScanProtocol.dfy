/**
 The backend's scan rows and notification outbox under every interleaving of dispatch, completion,
 failure, cancellation, retry, orphan sweep, deletion, mail and restart. Each statement is one step.
 */
module ScanProtocol {
  import opened ScanStates

  datatype Kind = Digest | Failure

  /** One outbox row per (scan, kind). */
  datatype Key = Key(scan: ScanId, kind: Kind)

  /**
   The rows and what mail has been tried. `used` holds every id ever created: ids are never reused.
   `claimed` holds the claims a live process still has to act on.
   */
  datatype Backend = Backend(scans: map<ScanId, ScanState>, outbox: map<Key, bool>, used: set<ScanId>,
                             claimed: set<Key>, attempts: seq<Key>)

  const EMPTY := Backend(map[], map[], {}, {}, [])

  datatype Step =
    | Create(id: ScanId)
    | MarkRunning(id: ScanId)
    | MarkFailed(id: ScanId)
    | MarkComplete(id: ScanId)
    | CancelScan(id: ScanId)
    | FailOrphaned
    | DeleteScan(id: ScanId)
    | Claim(key: Key)
    | Send(key: Key)
    | Skip(key: Key)
    | Restart

  predicate IsTerminal(s: ScanState) {
    s == Complete || s == Failed || s == Cancelled
  }

  /** INSERT ... ON CONFLICT DO NOTHING: a new row is unclaimed, an old one keeps its claim. */
  function WithRow(outbox: map<Key, bool>, key: Key): map<Key, bool> {
    if key in outbox then outbox else outbox[key := false]
  }

  function DoMarkFailed(b: Backend, id: ScanId): Backend {
    if id in b.scans && !IsTerminal(b.scans[id])
    then b.(scans := b.scans[id := Failed], outbox := WithRow(b.outbox, Key(id, Failure))) else b
  }

  function DoMarkComplete(b: Backend, id: ScanId): Backend {
    if id in b.scans && b.scans[id] != Cancelled
    then b.(scans := b.scans[id := Complete], outbox := WithRow(b.outbox, Key(id, Digest))) else b
  }

  predicate Orphaned(b: Backend, id: ScanId) {
    id in b.scans && InFlight(b.scans[id])
  }

  function Orphans(b: Backend): set<ScanId> {
    set id | id in b.scans && Orphaned(b, id)
  }

  function FailureKeys(ids: set<ScanId>): set<Key> {
    set id | id in ids :: Key(id, Failure)
  }

  function FailAll(b: Backend, ids: set<ScanId>): Backend {
    b.(scans := map id | id in b.scans :: if id in ids then Failed else b.scans[id],
       outbox := b.outbox + map key | key in FailureKeys(ids) && key !in b.outbox :: false)
  }

  function DoFailOrphaned(b: Backend): Backend {
    FailAll(b, Orphans(b))
  }

  function DoDelete(b: Backend, id: ScanId): Backend {
    if id in b.scans && IsTerminal(b.scans[id])
    then b.(scans := b.scans - {id}, outbox := map key | key in b.outbox && key.scan != id :: b.outbox[key]) else b
  }

  function DoClaim(b: Backend, key: Key): Backend {
    if key in b.outbox && !b.outbox[key]
    then b.(outbox := b.outbox[key := true], claimed := b.claimed + {key}) else b
  }

  function Next(b: Backend, step: Step): Backend {
    match step
    case Create(id) =>
      if id in b.used then b else b.(scans := b.scans[id := Queued], used := b.used + {id})
    case MarkRunning(id) =>
      if id in b.scans && b.scans[id] == Queued then b.(scans := b.scans[id := Running]) else b
    case MarkFailed(id) => DoMarkFailed(b, id)
    case MarkComplete(id) => DoMarkComplete(b, id)
    case CancelScan(id) =>
      if id in b.scans && InFlight(b.scans[id])
      then b.(scans := b.scans[id := Cancelled]) else b
    case FailOrphaned => DoFailOrphaned(b)
    case DeleteScan(id) => DoDelete(b, id)
    case Claim(key) => DoClaim(b, key)
    case Send(key) =>
      if key in b.claimed then b.(claimed := b.claimed - {key}, attempts := b.attempts + [key]) else b
    case Skip(key) => b.(claimed := b.claimed - {key})
    case Restart => b.(claimed := {})
  }

  function Run(b: Backend, steps: seq<Step>): Backend {
    if steps == [] then b else Next(Run(b, steps[..|steps| - 1]), steps[|steps| - 1])
  }

  // ---- Invariant ----

  /** A scan's outbox rows match its state. */
  predicate RowsMatch(b: Backend, id: ScanId)
    requires id in b.scans
  {
    match b.scans[id]
    case Complete => Key(id, Digest) in b.outbox
    case Failed => Key(id, Failure) in b.outbox && Key(id, Digest) !in b.outbox
    case _ => Key(id, Digest) !in b.outbox && Key(id, Failure) !in b.outbox
  }

  /** A key whose mail was tried or is about to be can no longer be claimed. */
  predicate Spent(b: Backend, key: Key) {
    key.scan in b.used && (key in b.outbox ==> b.outbox[key]) && (key !in b.outbox ==> key.scan !in b.scans)
  }

  ghost predicate Safe(b: Backend) {
    && b.scans.Keys <= b.used
    && (forall key :: key in b.outbox ==> key.scan in b.scans)
    && (forall id :: id in b.scans ==> RowsMatch(b, id))
    && (forall key :: key in b.claimed ==> Spent(b, key) && key !in b.attempts)
    && (forall key :: key in b.attempts ==> Spent(b, key))
    && (forall i, j :: 0 <= i < j < |b.attempts| ==> b.attempts[i] != b.attempts[j])
  }

  lemma FailOrphanedIsSafe(b: Backend)
    requires Safe(b)
    ensures Safe(DoFailOrphaned(b))
  {
    var b' := DoFailOrphaned(b);
    forall key {
      FailAllOutbox(b, Orphans(b), key);
    }
    forall id | id in b'.scans
      ensures RowsMatch(b', id)
    {
      assert RowsMatch(b, id);
    }
  }

  lemma FailureIsSafe(b: Backend, step: Step)
    requires Safe(b) && step.MarkFailed?
    ensures Safe(Next(b, step))
  {
    var b' := Next(b, step);
    forall id | id in b'.scans
      ensures RowsMatch(b', id)
    {
      assert RowsMatch(b, id);
    }
    assert forall key :: key in b.claimed ==> Spent(b, key);
    assert forall key :: key in b.attempts ==> Spent(b, key);
  }

  lemma CompletionIsSafe(b: Backend, step: Step)
    requires Safe(b) && step.MarkComplete?
    ensures Safe(Next(b, step))
  {
    var b' := Next(b, step);
    forall id | id in b'.scans
      ensures RowsMatch(b', id)
    {
      assert RowsMatch(b, id);
    }
    assert forall key :: key in b.claimed ==> Spent(b, key);
    assert forall key :: key in b.attempts ==> Spent(b, key);
  }

  lemma MoveIsSafe(b: Backend, step: Step)
    requires Safe(b) && (step.CancelScan? || step.MarkRunning?)
    ensures Safe(Next(b, step))
  {
    var b' := Next(b, step);
    forall id | id in b'.scans
      ensures RowsMatch(b', id)
    {
      assert RowsMatch(b, id);
    }
    assert forall key :: key in b.claimed ==> Spent(b, key);
    assert forall key :: key in b.attempts ==> Spent(b, key);
  }

  lemma LifeStepIsSafe(b: Backend, step: Step)
    requires Safe(b) && (step.Create? || step.DeleteScan?)
    ensures Safe(Next(b, step))
  {
    var b' := Next(b, step);
    forall id | id in b'.scans
      ensures RowsMatch(b', id)
    {
      if id in b.scans { assert RowsMatch(b, id); }
    }
    assert forall key :: key in b.claimed ==> Spent(b, key);
    assert forall key :: key in b.attempts ==> Spent(b, key);
  }

  lemma MailStepIsSafe(b: Backend, step: Step)
    requires Safe(b) && (step.Claim? || step.Send? || step.Skip? || step.Restart?)
    ensures Safe(Next(b, step))
  {
    var b' := Next(b, step);
    forall id | id in b'.scans
      ensures RowsMatch(b', id)
    {
      assert RowsMatch(b, id);
    }
    assert forall key :: key in b.claimed ==> Spent(b, key);
    assert forall key :: key in b.attempts ==> Spent(b, key);
  }

  lemma StepIsSafe(b: Backend, step: Step)
    requires Safe(b)
    ensures Safe(Next(b, step))
  {
    match step {
      case FailOrphaned => FailOrphanedIsSafe(b);
      case Create(_) => LifeStepIsSafe(b, step);
      case DeleteScan(_) => LifeStepIsSafe(b, step);
      case MarkRunning(_) => MoveIsSafe(b, step);
      case MarkFailed(_) => FailureIsSafe(b, step);
      case MarkComplete(_) => CompletionIsSafe(b, step);
      case CancelScan(_) => MoveIsSafe(b, step);
      case Claim(_) => MailStepIsSafe(b, step);
      case Send(_) => MailStepIsSafe(b, step);
      case Skip(_) => MailStepIsSafe(b, step);
      case Restart => MailStepIsSafe(b, step);
    }
  }

  /**
   In every interleaving: complete and failed scans have their outbox row, queued, running and
   cancelled ones have none, and mail is tried at most once per scan and kind.
   */
  lemma {:induction false} SafeUnderInterleaving(steps: seq<Step>)
    ensures Safe(Run(EMPTY, steps))
  {
    if steps != [] {
      SafeUnderInterleaving(steps[..|steps| - 1]);
      StepIsSafe(Run(EMPTY, steps[..|steps| - 1]), steps[|steps| - 1]);
    }
  }

  // ---- Transitions ----

  /** The only ways a state can change while the row exists. */
  predicate MayBecome(s: ScanState, t: ScanState) {
    match s
    case Queued => true
    case Running => t != Queued
    case Failed => t == Failed || t == Complete
    case Complete => t == Complete
    case Cancelled => t == Cancelled
  }

  lemma StepMayBecome(b: Backend, step: Step, id: ScanId)
    requires Safe(b) && id in b.scans && id in Next(b, step).scans
    ensures MayBecome(b.scans[id], Next(b, step).scans[id])
  {
  }

  /** Who changes a scan: its own terminal writes, its cancel, or the sweep; only a finished one is deleted. */
  lemma WhoChangesState(b: Backend, step: Step, id: ScanId)
    requires Safe(b) && id in b.scans
    ensures id !in Next(b, step).scans ==> step == DeleteScan(id) && IsTerminal(b.scans[id])
    ensures id in Next(b, step).scans && Next(b, step).scans[id] != b.scans[id] ==>
              step in {MarkRunning(id), MarkFailed(id), MarkComplete(id), CancelScan(id), FailOrphaned}
    ensures InFlight(b.scans[id]) ==> Next(b, FailOrphaned).scans[id] == Failed
    ensures InFlight(b.scans[id]) ==> Next(b, CancelScan(id)).scans[id] == Cancelled
  {
  }

  lemma MayBecomeIsTransitive(s: ScanState, t: ScanState, u: ScanState)
    requires MayBecome(s, t) && MayBecome(t, u)
    ensures MayBecome(s, u)
  {
  }

  lemma {:induction false} Transitions(b: Backend, steps: seq<Step>, id: ScanId)
    requires Safe(b) && id in b.scans && id in Run(b, steps).scans
    ensures MayBecome(b.scans[id], Run(b, steps).scans[id])
  {
    if steps != [] {
      var init, last := steps[..|steps| - 1], steps[|steps| - 1];
      DeletedStaysGone(b, init, last, id);
      Transitions(b, init, id);
      RunIsSafe(b, init);
      StepMayBecome(Run(b, init), last, id);
      MayBecomeIsTransitive(b.scans[id], Run(b, init).scans[id], Run(b, steps).scans[id]);
    }
  }

  /** A deleted scan never comes back, so the row existed all along. */
  lemma DeletedStaysGone(b: Backend, init: seq<Step>, last: Step, id: ScanId)
    requires Safe(b) && id in b.scans && id in Next(Run(b, init), last).scans
    ensures id in Run(b, init).scans
  {
    UsedGrows(b, init, id);
  }

  lemma {:induction false} UsedGrows(b: Backend, steps: seq<Step>, id: ScanId)
    requires id in b.used || (Safe(b) && id in b.scans)
    ensures id in Run(b, steps).used
  {
    if steps != [] {
      UsedGrows(b, steps[..|steps| - 1], id);
    }
  }

  /** Cancelled is absorbing: nothing but deletion changes the row, and it never gets an outbox row. */
  lemma CancelledIsAbsorbing(b: Backend, steps: seq<Step>, id: ScanId)
    requires Safe(b) && id in b.scans && b.scans[id] == Cancelled && id in Run(b, steps).scans
    ensures var later := Run(b, steps);
            later.scans[id] == Cancelled && Key(id, Digest) !in later.outbox && Key(id, Failure) !in later.outbox
  {
    Transitions(b, steps, id);
    RunIsSafe(b, steps);
    assert RowsMatch(Run(b, steps), id);
  }

  /** A retried completion or failure changes nothing, whatever happened since the first one took effect. */
  lemma RetriesChangeNothing(b: Backend, steps: seq<Step>, id: ScanId)
    requires Safe(b) && id in b.scans && IsTerminal(b.scans[id])
    ensures var later := Run(b, steps);
            && (id !in later.scans || later.scans[id] != Failed ==> DoMarkComplete(later, id) == later)
            && DoMarkFailed(later, id) == later
  {
    var later := Run(b, steps);
    RunIsSafe(b, steps);
    if id in later.scans {
      Transitions(b, steps, id);
      assert RowsMatch(later, id);
      if later.scans[id] == Complete {
        assert later.scans[id := Complete] == later.scans;
      }
    }
  }

  lemma {:induction false} RunIsSafe(b: Backend, steps: seq<Step>)
    requires Safe(b)
    ensures Safe(Run(b, steps))
  {
    if steps != [] {
      RunIsSafe(b, steps[..|steps| - 1]);
      StepIsSafe(Run(b, steps[..|steps| - 1]), steps[|steps| - 1]);
    }
  }

  /** Failed is not absorbing: a late completion turns it complete and adds the second kind of mail. */
  lemma LateCompletionOfFailed(b: Backend, id: ScanId)
    requires Safe(b) && id in b.scans && b.scans[id] == Failed
    ensures var b' := DoMarkComplete(b, id);
            b'.scans[id] == Complete && Key(id, Failure) in b'.outbox && Key(id, Digest) in b'.outbox
            && !b'.outbox[Key(id, Digest)]
  {
    assert RowsMatch(b, id);
  }

  /** The attempts made for one key: none or one, in every interleaving. */
  lemma MailAtMostOnce(steps: seq<Step>, key: Key)
    ensures multiset(Run(EMPTY, steps).attempts)[key] <= 1
  {
    SafeUnderInterleaving(steps);
    CountAtMostOne(Run(EMPTY, steps).attempts, key);
  }

  lemma {:induction false} CountAtMostOne(s: seq<Key>, key: Key)
    requires forall i, j :: 0 <= i < j < |s| ==> s[i] != s[j]
    ensures multiset(s)[key] <= 1
  {
    if s != [] {
      CountAtMostOne(s[1..], key);
      assert s == [s[0]] + s[1..];
      if s[0] == key {
        assert key !in s[1..];
      }
    }
  }

  // ---- A crash between claim and mail ----

  /** A claim that was lost is never mailed: the row stays claimed, or goes with its scan. */
  lemma {:induction false} LostClaimIsNeverMailed(b: Backend, key: Key, steps: seq<Step>)
    requires Safe(b) && key in b.claimed
    ensures var later := Run(Next(b, Restart), steps);
            && Safe(later) && Spent(later, key) && key !in later.claimed && key !in later.attempts
            && (key.scan in later.scans ==> key in later.outbox && later.outbox[key])
  {
    if steps == [] {
      StepIsSafe(b, Restart);
    } else {
      LostClaimIsNeverMailed(b, key, steps[..|steps| - 1]);
      var before, last := Run(Next(b, Restart), steps[..|steps| - 1]), steps[|steps| - 1];
      StepIsSafe(before, last);
      SpentStaysSpent(before, key, last);
    }
  }

  lemma SpentStaysSpent(b: Backend, key: Key, step: Step)
    requires Safe(b) && Spent(b, key) && key !in b.claimed && key !in b.attempts
    ensures var b' := Next(b, step); Spent(b', key) && key !in b'.claimed && key !in b'.attempts
  {
    if step.FailOrphaned? {
      FailAllOutbox(b, Orphans(b), key);
    }
  }

  // ---- The statements as they run against the stored rows ----

  /** The outbox has these rows besides its old ones: the old ones as they were, the new ones unclaimed. */
  ghost predicate Gains(before: map<Key, bool>, keys: set<Key>, after: map<Key, bool>) {
    && after.Keys == before.Keys + keys
    && forall key :: key in after ==> after[key] == (key in before && before[key])
  }

  /** The scans and outbox tables, the mails tried so far and the claims held by this process. */
  class Rows {
    var scans: map<ScanId, ScanState>
    var outbox: map<Key, bool>
    var used: set<ScanId>
    var claimed: set<Key>
    var attempts: seq<Key>

    ghost function View(): Backend
      reads this
    {
      Backend(scans, outbox, used, claimed, attempts)
    }

    constructor ()
      ensures View() == EMPTY
    {
      scans, outbox, used, claimed, attempts := map[], map[], {}, {}, [];
    }

    method InsertOutbox(key: Key)
      modifies this`outbox
      ensures outbox == WithRow(old(outbox), key)
    {
      if key !in outbox {
        outbox := outbox[key := false];
      }
    }

    /** A new scan is queued; ids are not reused. */
    method CreateScan(id: ScanId) returns (created: bool)
      modifies this
      ensures View() == Next(old(View()), Create(id))
      ensures created <==> id !in old(used)
      ensures scans == (if created then old(scans)[id := Queued] else old(scans)) && outbox == old(outbox)
    {
      created := id !in used;
      if created {
        scans, used := scans[id := Queued], used + {id};
      }
    }

    /** Only a queued scan starts running. */
    method MarkRunning(id: ScanId) returns (marked: bool)
      modifies this
      ensures View() == Next(old(View()), Step.MarkRunning(id))
      ensures scans == (if id in old(scans) && old(scans)[id] == Queued then old(scans)[id := Running] else old(scans))
      ensures outbox == old(outbox)
      ensures marked <==> id in old(scans) && old(scans)[id] == Queued
    {
      marked := id in scans && scans[id] == Queued;
      if marked {
        scans := scans[id := Running];
      }
    }

    /** A queued or running scan fails and gets its failure row, unclaimed unless it was there. */
    method MarkFailed(id: ScanId)
      modifies this
      ensures View() == Next(old(View()), Step.MarkFailed(id))
      ensures var fails := id in old(scans) && old(scans)[id] in {Queued, Running};
              && scans == (if fails then old(scans)[id := Failed] else old(scans))
              && Gains(old(outbox), if fails then {Key(id, Failure)} else {}, outbox)
    {
      if id in scans && !IsTerminal(scans[id]) {
        scans := scans[id := Failed];
        InsertOutbox(Key(id, Failure));
      }
    }

    /** Any scan but a cancelled one completes and gets its digest row, unclaimed unless it was there. */
    method MarkComplete(id: ScanId)
      modifies this
      ensures View() == Next(old(View()), Step.MarkComplete(id))
      ensures var completes := id in old(scans) && old(scans)[id] in {Queued, Running, Complete, Failed};
              && scans == (if completes then old(scans)[id := Complete] else old(scans))
              && Gains(old(outbox), if completes then {Key(id, Digest)} else {}, outbox)
    {
      if id in scans && scans[id] != Cancelled {
        scans := scans[id := Complete];
        InsertOutbox(Key(id, Digest));
      }
    }

    method CancelScan(id: ScanId) returns (cancelled: bool)
      modifies this
      ensures View() == Next(old(View()), Step.CancelScan(id))
      ensures cancelled <==> id in old(scans) && old(scans)[id] in {Queued, Running}
      ensures scans == (if cancelled then old(scans)[id := Cancelled] else old(scans)) && outbox == old(outbox)
    {
      cancelled := id in scans && InFlight(scans[id]);
      if cancelled {
        scans := scans[id := Cancelled];
      }
    }

    method FailOne(id: ScanId)
      requires id in scans
      modifies this
      ensures View() == old(View()).(scans := old(scans)[id := Failed],
                                     outbox := WithRow(old(outbox), Key(id, Failure)))
    {
      scans := scans[id := Failed];
      InsertOutbox(Key(id, Failure));
    }

    method FailThese(ids: set<ScanId>, ghost b: Backend)
      requires View() == b && ids <= b.scans.Keys
      modifies this
      ensures View() == FailAll(b, ids)
    {
      var todo := ids;
      ghost var done := {};
      FailNone(b);
      while todo != {}
        invariant todo <= ids && done + todo == ids
        invariant View() == FailAll(b, done)
      {
        var id :| id in todo;
        FailOneMore(b, done, id);
        FailOne(id);
        todo, done := todo - {id}, done + {id};
      }
    }

    /** The startup sweep: every queued or running scan fails, each with its failure row. */
    method FailOrphanedScans() returns (n: nat)
      modifies this
      ensures View() == Next(old(View()), FailOrphaned)
      ensures n == |set id | id in old(scans) && old(scans)[id] in {Queued, Running}|
      ensures scans.Keys == old(scans).Keys
      ensures forall id :: id in scans ==>
                scans[id] == if old(scans)[id] in {Queued, Running} then Failed else old(scans)[id]
      ensures Gains(old(outbox), set id | id in old(scans) && old(scans)[id] in {Queued, Running} :: Key(id, Failure), outbox)
    {
      var ids := Orphans(Backend(scans, outbox, used, claimed, attempts));
      assert ids == set id | id in scans && scans[id] in {Queued, Running};
      FailThese(ids, View());
      n := |ids|;
    }

    /** Deletes a finished scan, its outbox rows with it; refuses one in flight. */
    method DeleteScan(id: ScanId) returns (deleted: bool)
      modifies this
      ensures View() == Next(old(View()), Step.DeleteScan(id))
      ensures deleted <==> id in old(scans) && old(scans)[id] in {Complete, Failed, Cancelled}
      ensures scans == (if deleted then old(scans) - {id} else old(scans))
      ensures forall key :: key in outbox <==> key in old(outbox) && (deleted ==> key.scan != id)
      ensures forall key :: key in outbox ==> outbox[key] == old(outbox)[key]
    {
      deleted := id in scans && !InFlight(scans[id]);
      if deleted {
        scans := scans - {id};
        outbox := map key | key in outbox && key.scan != id :: outbox[key];
      }
    }

    method ClaimScanNotification(key: Key) returns (ok: bool)
      modifies this
      ensures View() == Next(old(View()), Claim(key))
      ensures scans == old(scans) && outbox == (if ok then old(outbox)[key := true] else old(outbox))
      ensures ok <==> key in old(outbox) && !old(outbox)[key]
    {
      ok := key in outbox && !outbox[key];
      if ok {
        outbox, claimed := outbox[key := true], claimed + {key};
      }
    }

    /**
     A write retried after an error. An attempt that reports an error may still have been applied;
     one that reports success was. The outcome is one application if any attempt took effect.
     */
    method RetryMarkComplete(id: ScanId, outcomes: seq<(bool, bool)>) returns (succeeded: bool)
      requires forall i :: 0 <= i < |outcomes| && outcomes[i].1 ==> outcomes[i].0
      requires Safe(View())
      modifies this
      ensures View() == old(View()) || View() == Next(old(View()), Step.MarkComplete(id))
      ensures succeeded <==> exists i :: 0 <= i < |outcomes| && outcomes[i].1
      ensures succeeded ==> View() == Next(old(View()), Step.MarkComplete(id))
    {
      succeeded := false;
      ghost var applied := DoMarkComplete(View(), id);
      CompletingTwice(View(), id);
      for i := 0 to |outcomes|
        invariant !succeeded && forall j :: 0 <= j < i ==> !outcomes[j].1
        invariant View() == old(View()) || View() == applied
      {
        if outcomes[i].0 {
          MarkComplete(id);
        }
        if outcomes[i].1 {
          return true;
        }
      }
    }

    /**
     Claim, then send when the payload is mailable. Only the caller that won the claim goes on; a claim that
     another caller holds is left with it.
     */
    method Notify(key: Key, mailable: bool)
      requires Safe(View())
      modifies this
      ensures Safe(View())
      ensures scans == old(scans) && used == old(used) && claimed == old(claimed)
      ensures outbox == (if key in old(outbox) then old(outbox)[key := true] else old(outbox))
      ensures attempts == old(attempts) + (if mailable && Unclaimed(old(outbox), key) then [key] else [])
      ensures exists steps :: View() == Run(old(View()), steps)
    {
      ghost var b := View();
      assert key in claimed ==> !Unclaimed(outbox, key);
      var ok := ClaimScanNotification(key);
      RunOne(b, Claim(key));
      if !ok {
        assert key in outbox ==> outbox[key := true] == outbox;
        return;
      }
      ghost var last := if mailable then Send(key) else Skip(key);
      RunTwo(b, Claim(key), last);
      RunIsSafe(b, [Claim(key), last]);
      if mailable {
        claimed, attempts := claimed - {key}, attempts + [key];
      } else {
        claimed := claimed - {key};
      }
      assert View() == Run(b, [Claim(key), last]);
    }

    /**
     The startup drain: every listed row is claimed, and mail is tried, in listing order, for exactly
     those that were unclaimed and mailable.
     */
    method NotifyUnclaimed(refs: seq<Key>, mailable: set<Key>)
      requires Safe(View())
      requires forall i, j :: 0 <= i < j < |refs| ==> refs[i] != refs[j]
      requires forall i :: 0 <= i < |refs| ==> Unclaimed(outbox, refs[i])
      modifies this
      ensures Safe(View())
      ensures scans == old(scans) && used == old(used) && claimed == old(claimed)
      ensures outbox.Keys == old(outbox).Keys
      ensures forall key :: key in outbox ==> (outbox[key] <==> old(outbox)[key] || key in refs)
      ensures attempts == old(attempts) + Chosen(refs, mailable)
    {
      for i := 0 to |refs|
        invariant Safe(View())
        invariant scans == old(scans) && used == old(used) && claimed == old(claimed)
        invariant outbox.Keys == old(outbox).Keys
        invariant forall key :: key in outbox ==> (outbox[key] <==> old(outbox)[key] || key in refs[..i])
        invariant attempts == old(attempts) + Chosen(refs[..i], mailable)
      {
        OneMoreChosen(refs, i, mailable);
        Notify(refs[i], refs[i] in mailable);
      }
      assert refs[..|refs|] == refs;
    }
  }

  lemma FailNone(b: Backend)
    ensures FailAll(b, {}) == b
  {
    assert FailAll(b, {}).scans == b.scans;
    assert FailAll(b, {}).outbox == b.outbox;
  }

  lemma FailAllOutbox(b: Backend, ids: set<ScanId>, key: Key)
    ensures key in FailAll(b, ids).outbox <==> key in b.outbox || (key.kind == Failure && key.scan in ids)
    ensures key in FailAll(b, ids).outbox ==> FailAll(b, ids).outbox[key] == (key in b.outbox && b.outbox[key])
  {
    assert key in FailureKeys(ids) <==> key.kind == Failure && key.scan in ids;
  }

  lemma ScansOneMore(b: Backend, ids: set<ScanId>, id: ScanId)
    requires id in b.scans
    ensures FailAll(b, ids + {id}).scans == FailAll(b, ids).scans[id := Failed]
  {
  }

  lemma OutboxOneMore(b: Backend, ids: set<ScanId>, id: ScanId)
    ensures FailAll(b, ids + {id}).outbox == WithRow(FailAll(b, ids).outbox, Key(id, Failure))
  {
    var more, less := FailAll(b, ids + {id}).outbox, WithRow(FailAll(b, ids).outbox, Key(id, Failure));
    forall key
      ensures key in more <==> key in less
      ensures key in more ==> more[key] == less[key]
    {
      FailAllOutbox(b, ids, key);
      FailAllOutbox(b, ids + {id}, key);
    }
  }

  lemma FailOneMore(b: Backend, ids: set<ScanId>, id: ScanId)
    requires id in b.scans
    ensures FailAll(b, ids + {id}) == FailAll(b, ids).(scans := FailAll(b, ids).scans[id := Failed],
                                                       outbox := WithRow(FailAll(b, ids).outbox, Key(id, Failure)))
  {
    ScansOneMore(b, ids, id);
    OutboxOneMore(b, ids, id);
  }

  predicate Unclaimed(outbox: map<Key, bool>, key: Key) {
    key in outbox && !outbox[key]
  }

  function Chosen(refs: seq<Key>, mailable: set<Key>): seq<Key> {
    if refs == [] then [] else
      var last := refs[|refs| - 1];
      Chosen(refs[..|refs| - 1], mailable) + (if last in mailable then [last] else [])
  }

  lemma OneMoreChosen(refs: seq<Key>, i: nat, mailable: set<Key>)
    requires i < |refs| && forall j, k :: 0 <= j < k < |refs| ==> refs[j] != refs[k]
    ensures Chosen(refs[..i + 1], mailable) == Chosen(refs[..i], mailable) + if refs[i] in mailable then [refs[i]] else []
    ensures forall key :: key in refs[..i + 1] <==> key in refs[..i] || key == refs[i]
    ensures refs[i] !in refs[..i]
  {
    assert refs[..i + 1] == refs[..i] + [refs[i]];
    assert refs[..i + 1][..i] == refs[..i];
  }

  lemma RunOne(b: Backend, step: Step)
    ensures Run(b, [step]) == Next(b, step)
  {
    assert [step][..0] == [];
  }

  lemma RunTwo(b: Backend, first: Step, second: Step)
    ensures Run(b, [first, second]) == Next(Next(b, first), second)
  {
    RunOne(b, first);
    assert [first, second][..1] == [first];
  }

  /** Applying a completion a second time changes nothing. */
  lemma CompletingTwice(b: Backend, id: ScanId)
    ensures DoMarkComplete(DoMarkComplete(b, id), id) == DoMarkComplete(b, id)
  {
    var once := DoMarkComplete(b, id);
    if id in once.scans && once.scans[id] != Cancelled {
      assert once.scans[id := Complete] == once.scans;
    }
  }
}
