/**
 The digest of a completed scan: each row the completion moves is new, changed, fixed or unlisted.
 Along in-order runs the statuses of one finding alternate, and "changed" counts mitigation cycles.
 */
module LifecycleDigest {
  import opened ScanStates
  import opened Wrappers
  import opened Timeline
  import opened LifecycleDb
  import opened LifecycleDelete
  import opened LifecycleRuns

  datatype Status = New | Changed | Fixed

  /** The status a completing scan gives a row; `db` holds the tables just before the completion. */
  function StatusOf(db: Db, s: ScanId, f: string): Option<Status>
    requires s in db.scans && f in db.rows
  {
    var completed := SetState(db, s, Complete);
    if !Advances(completed, s, f, true) then None
    else
      var previous := db.rows[f].history.covering;
      var h := Cover(completed, s, true).rows[f].history;
      if h.first == Some(s) then Some(New)
      else if h.last == Some(s) && previous.Some? && previous.value !in Observers(db, f) then Some(Changed)
      else if h.last != Some(s) && previous.Some? && previous.value in Observers(db, f) then Some(Fixed)
      else None
  }

  datatype Ran = Ran(s: ScanId, scan: Scan, obs: seq<Observation>)

  function Tables(runs: seq<Ran>): Db {
    if runs == [] then EMPTY
    else
      var r := runs[|runs| - 1];
      RunScan(Tables(runs[..|runs| - 1]), r.s, r.scan, r.obs)
  }

  /** The tables when the last scan of the runs is about to complete. */
  function BeforeCompletion(runs: seq<Ran>): Db
    requires runs != []
  {
    var r := runs[|runs| - 1];
    IngestAll(Insert(Tables(runs[..|runs| - 1]), r.s, r.scan), r.s, r.obs)
  }

  /** Scans ingest and complete one at a time, in chronological order. */
  ghost predicate OneAtATime(runs: seq<Ran>) {
    forall i :: 0 <= i < |runs| ==> CanIngest(Tables(runs[..i]), runs[i].s, runs[i].scan, runs[i].obs)
  }

  function MailedStatus(before: Db, s: ScanId, f: string): Option<Status> {
    if f in before.rows && s in before.scans then StatusOf(before, s, f) else None
  }

  /** The statuses mailed about one finding, in order. */
  function Statuses(runs: seq<Ran>, f: string): seq<Status> {
    if runs == [] then []
    else
      var status := MailedStatus(BeforeCompletion(runs), runs[|runs| - 1].s, f);
      Statuses(runs[..|runs| - 1], f) + (if status.Some? then [status.value] else [])
  }

  /** A prefix of new (fixed changed)*. */
  predicate Alternates(word: seq<Status>) {
    forall i :: 0 <= i < |word| ==> word[i] == if i == 0 then New else if i % 2 == 1 then Fixed else Changed
  }

  function CountChanged(word: seq<Status>): nat {
    if word == [] then 0
    else CountChanged(word[..|word| - 1]) + (if word[|word| - 1] == Changed then 1 else 0)
  }

  lemma {:induction false} ChangedOfAlternating(word: seq<Status>)
    requires Alternates(word)
    ensures CountChanged(word) == if word == [] then 0 else (|word| - 1) / 2
  {
    if word != [] {
      ChangedOfAlternating(word[..|word| - 1]);
    }
  }

  /** The row as the word of its statuses tells it. */
  ghost predicate Tells(db: Db, f: string, word: seq<Status>) {
    && (f in db.rows <==> word != [])
    && Alternates(word)
    && (f in db.rows ==>
          var h := db.rows[f].history;
          && h.times == (|word| - 1) / 2
          && (|word| % 2 == 1 <==> h.last == h.covering)
          && (h.covering.Some? && h.covering.value in Observers(db, f) <==> h.last == h.covering))
  }

  lemma StatusInOrder(db: Db, s: ScanId, scan: Scan, obs: seq<Observation>, f: string)
    requires Settled(db) && CanIngest(db, s, scan, obs)
    requires f in db.rows || f in Keys(obs)
    ensures var before := IngestAll(Insert(db, s, scan), s, obs);
            && f in before.rows && s in before.scans
            && StatusOf(before, s, f) ==
               (if f !in db.rows then Some(New)
                else
                  var h := db.rows[f].history;
                  var sawIt := h.covering.Some? && h.covering.value in Observers(db, f);
                  if f in Keys(obs) then (if sawIt then None else Some(Changed))
                  else if Associated(db, f, scan.target)
                          && Claims(scan, db.rows[f].template, db.rows[f].endpoint) && sawIt
                  then Some(Fixed) else None)
  {
    var before := IngestAll(Insert(db, s, scan), s, obs);
    IngestInOrder(db, s, scan, obs, f);
    AdvancesInOrder(db, s, scan, obs, f, before);
    ObserversExist(db, f);
  }

  lemma AlternatesAppend(word: seq<Status>, status: Status)
    requires Alternates(word)
    requires status == if word == [] then New else if |word| % 2 == 1 then Fixed else Changed
    ensures Alternates(word + [status])
  {
  }

  /** Only the finding's own row, observers and status matter to the word. */
  lemma TellsStep(db: Db, s: ScanId, scan: Scan, obs: seq<Observation>, f: string, word: seq<Status>,
                  status: Option<Status>, db': Db)
    requires Tells(db, f, word) && RowAfter(db, s, scan, obs, f, db')
    requires s !in Observers(db, f) && (f in db.rows ==> PointsAtComplete(db, f) && s !in CompleteScans(db))
    requires f !in db.rows && f !in Keys(obs) ==> status.None?
    requires f in db.rows || f in Keys(obs) ==>
      status == (if f !in db.rows then Some(New)
                 else
                   var sawIt := db.rows[f].history.covering.Some? && db.rows[f].history.covering.value in Observers(db, f);
                   if f in Keys(obs) then (if sawIt then None else Some(Changed))
                   else if Associated(db, f, scan.target)
                           && Claims(scan, db.rows[f].template, db.rows[f].endpoint) && sawIt
                   then Some(Fixed) else None)
    ensures Tells(db', f, word + (if status.Some? then [status.value] else []))
  {
    if status.Some? {
      AlternatesAppend(word, status.value);
    } else {
      assert word + [] == word;
    }
  }

  lemma StatusStep(db: Db, s: ScanId, scan: Scan, obs: seq<Observation>, f: string, word: seq<Status>)
    requires Settled(db) && CanIngest(db, s, scan, obs) && Tells(db, f, word)
    ensures var status := MailedStatus(IngestAll(Insert(db, s, scan), s, obs), s, f);
            Tells(RunScan(db, s, scan, obs), f, word + (if status.Some? then [status.value] else []))
  {
    RunRow(db, s, scan, obs, f);
    ObserversExist(db, f);
    var before := IngestAll(Insert(db, s, scan), s, obs);
    if f in db.rows || f in Keys(obs) {
      StatusInOrder(db, s, scan, obs, f);
    } else {
      IngestInOrder(db, s, scan, obs, f);
    }
    TellsStep(db, s, scan, obs, f, word, MailedStatus(before, s, f), RunScan(db, s, scan, obs));
  }

  lemma RunKeepsSettled(db: Db, s: ScanId, scan: Scan, obs: seq<Observation>)
    requires Settled(db) && CanIngest(db, s, scan, obs)
    ensures Settled(RunScan(db, s, scan, obs))
  {
    var db' := RunScan(db, s, scan, obs);
    RunRow(db, s, scan, obs, "");
    forall f | f in db'.rows
      ensures PointsAtComplete(db', f)
    {
      RunRow(db, s, scan, obs, f);
    }
  }

  lemma {:induction false} StatusesTellTheRow(runs: seq<Ran>, f: string)
    requires OneAtATime(runs)
    ensures Settled(Tables(runs)) && Tells(Tables(runs), f, Statuses(runs, f))
  {
    if runs == [] {
      assert Observers(EMPTY, f) == {};
    } else {
      var init, r := runs[..|runs| - 1], runs[|runs| - 1];
      assert forall i :: 0 <= i < |init| ==> init[..i] == runs[..i];
      StatusesTellTheRow(init, f);
      assert CanIngest(Tables(init), r.s, r.scan, r.obs);
      RunKeepsSettled(Tables(init), r.s, r.scan, r.obs);
      StatusStep(Tables(init), r.s, r.scan, r.obs, f, Statuses(init, f));
    }
  }

  /**
   Along any in-order run the statuses mailed about one finding are a prefix of new (fixed changed)*,
   none before its row exists, and as many "changed" as the row counts mitigation cycles.
   */
  lemma DigestAlternates(runs: seq<Ran>, f: string)
    requires OneAtATime(runs)
    ensures Alternates(Statuses(runs, f))
    ensures Statuses(runs, f) == [] <==> f !in Tables(runs).rows
    ensures f in Tables(runs).rows ==> CountChanged(Statuses(runs, f)) == Tables(runs).rows[f].history.times
  {
    StatusesTellTheRow(runs, f);
    ChangedOfAlternating(Statuses(runs, f));
  }
}
