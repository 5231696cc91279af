/**
 What the lifecycle pointers mean when scans overlap: under every interleaving of inserts,
 ingests and completions, in any order of creation times, without deletions. A completion that
 is retried is part of the picture.
 */
module LifecycleInterleavings {
  import opened ScanStates
  import opened Wrappers
  import opened Timeline
  import opened LifecycleDb
  import opened LifecycleDelete

  datatype Event =
    | Inserted(s: ScanId, scan: Scan)
    | Ingested(s: ScanId, obs: Observation)
    | Completed(s: ScanId)
    | ImportCovered(s: ScanId, trusted: bool)

  function Apply(db: Db, e: Event): Db {
    match e
    case Inserted(s, scan) => if s in db.scans then db else db.(scans := db.scans[s := scan])
    case Ingested(s, obs) => if s in db.scans then Ingest(db, s, obs) else db
    case Completed(s) => MarkComplete(db, s)
    case ImportCovered(s, trusted) =>
      if s in db.scans && db.scans[s].state == Complete then Cover(db, s, trusted) else db
  }

  function After(events: seq<Event>): Db {
    if events == [] then EMPTY else Apply(After(events[..|events| - 1]), events[|events| - 1])
  }

  /** The scan has evidence about the row, in a scope that has observed the finding. */
  predicate CoversNow(db: Db, s: ScanId, f: string, trusted: bool) {
    s in db.scans && f in db.rows && Candidate(db, s, f, trusted) && Associated(db, f, db.scans[s].target)
  }

  /** The scan an event completes, and how its coverage counts. */
  function Completing(db: Db, e: Event): Option<(ScanId, bool)> {
    match e
    case Completed(s) => if s in db.scans && db.scans[s].state != Cancelled then Some((s, true)) else None
    case ImportCovered(s, trusted) =>
      if s in db.scans && db.scans[s].state == Complete then Some((s, trusted)) else None
    case Inserted(_, _) => None
    case Ingested(_, _) => None
  }

  /** The scans that covered the row at a moment they completed. */
  function CoverLog(events: seq<Event>, f: string): set<ScanId> {
    if events == [] then {}
    else
      var init, e := events[..|events| - 1], events[|events| - 1];
      var c := Completing(After(init), e);
      CoverLog(init, f) +
      (if c.Some? && CoversNow(After(init), c.value.0, f, c.value.1) then {c.value.0} else {})
  }

  ghost predicate IsOldest(scans: map<ScanId, Scan>, some: set<ScanId>, n: ScanId)
    requires some <= scans.Keys
  {
    n in some && forall s :: s in some && s != n ==> Older(scans, n, s)
  }

  /** First is the oldest and last the newest observing scan, covering the newest of the log; the counter is bounded. */
  ghost predicate HistoryMeans(scans: map<ScanId, Scan>, observers: set<ScanId>, log: set<ScanId>, h: History)
    requires observers <= scans.Keys && log <= scans.Keys
  {
    && h.first.Some? && IsOldest(scans, observers, h.first.value)
    && h.last.Some? && IsNewest(scans, observers, h.last.value)
    && (h.covering.None? <==> log == {})
    && (h.covering.Some? ==> IsNewest(scans, log, h.covering.value))
    && h.times < |observers|
  }

  /** What the row's pointers and counter mean. */
  ghost predicate Pointers(db: Db, log: set<ScanId>, f: string) {
    && Consistent(db) && Observers(db, f) <= db.scans.Keys && log <= db.scans.Keys
    && (f in db.rows <==> Observers(db, f) != {})
    && (f !in db.rows ==> log == {})
    && (f in db.rows ==> HistoryMeans(db.scans, Observers(db, f), log, db.rows[f].history))
  }

  lemma AfterInsert(db: Db, log: set<ScanId>, s: ScanId, scan: Scan, f: string)
    requires Pointers(db, log, f) && s !in db.scans
    ensures Pointers(db.(scans := db.scans[s := scan]), log, f)
  {
    var db' := db.(scans := db.scans[s := scan]);
    assert Observers(db', f) == Observers(db, f);
  }

  lemma AfterIngest(db: Db, log: set<ScanId>, s: ScanId, obs: Observation, f: string)
    requires Pointers(db, log, f) && s in db.scans
    ensures Pointers(Ingest(db, s, obs), log, f)
  {
    ObserversAfterIngest(db, s, obs, f);
    IngestKeepsConsistent(db, s, obs);
    if f == obs.key && f in db.rows {
      AfterUpsert(db.scans, Observers(db, f), log, db.rows[f].history, s);
    }
  }

  lemma AfterUpsert(scans: map<ScanId, Scan>, observers: set<ScanId>, log: set<ScanId>, h: History, s: ScanId)
    requires observers <= scans.Keys && log <= scans.Keys && s in scans && HistoryMeans(scans, observers, log, h)
    ensures HistoryMeans(scans, observers + {s}, log, Upsert(scans, h, s))
  {
    if s !in observers {
      assert |observers + {s}| == |observers| + 1;
    } else {
      assert observers + {s} == observers;
    }
  }

  lemma CoverRow(db: Db, s: ScanId, trusted: bool, f: string)
    requires Consistent(db) && s in db.scans
    ensures var db' := Cover(db, s, trusted);
            && db'.scans == db.scans && Observers(db', f) == Observers(db, f) && Consistent(db')
            && (f in db'.rows <==> f in db.rows)
            && (f in db.rows ==>
                  db'.rows[f].history == db.rows[f].history.(covering :=
                    if Advances(db, s, f, trusted) then Some(s) else db.rows[f].history.covering))
  {
  }

  /** Adding a covering scan and moving the pointer only forwards keeps it the newest. */
  lemma NewestAdvances(scans: map<ScanId, Scan>, log: set<ScanId>, covering: Option<ScanId>, s: ScanId)
    requires log <= scans.Keys && s in scans
    requires (covering.None? <==> log == {}) && (covering.Some? ==> IsNewest(scans, log, covering.value))
    ensures IsNewest(scans, log + {s}, if covering.None? || Older(scans, covering.value, s) then s else covering.value)
  {
  }

  lemma AfterCover(db: Db, log: set<ScanId>, s: ScanId, trusted: bool, f: string)
    requires Pointers(db, log, f) && s in db.scans
    ensures Pointers(Cover(db, s, trusted), log + (if CoversNow(db, s, f, trusted) then {s} else {}), f)
  {
    CoverRow(db, s, trusted, f);
    if CoversNow(db, s, f, trusted) {
      NewestAdvances(db.scans, log, db.rows[f].history.covering, s);
    } else {
      assert log + {} == log;
    }
  }

  lemma AfterSetState(db: Db, log: set<ScanId>, s: ScanId, state: ScanState, f: string)
    requires Pointers(db, log, f) && s in db.scans
    ensures Pointers(SetState(db, s, state), log, f)
    ensures CoversNow(SetState(db, s, state), s, f, true) <==> CoversNow(db, s, f, true)
  {
    var db' := SetState(db, s, state);
    assert Observers(db', f) == Observers(db, f);
    assert Associated(db', f, db.scans[s].target) <==> Associated(db, f, db.scans[s].target);
  }

  /**
   Under every interleaving: first is the oldest and last the newest observing scan, covering is the
   newest scan that covered the row when it completed, and the counter stays below the number of
   observing scans.
   */
  lemma {:induction false} PointersUnderInterleaving(events: seq<Event>, f: string)
    ensures Pointers(After(events), CoverLog(events, f), f)
  {
    if events == [] {
      assert Observers(EMPTY, f) == {};
    } else {
      var init, e := events[..|events| - 1], events[|events| - 1];
      PointersUnderInterleaving(init, f);
      var db, log := After(init), CoverLog(init, f);
      match e {
        case Inserted(s, scan) => if s !in db.scans { AfterInsert(db, log, s, scan, f); }
        case Ingested(s, obs) => if s in db.scans { AfterIngest(db, log, s, obs, f); }
        case Completed(s) =>
          if s in db.scans && db.scans[s].state != Cancelled {
            AfterSetState(db, log, s, Complete, f);
            AfterCover(SetState(db, s, Complete), log, s, true, f);
          }
        case ImportCovered(s, trusted) =>
          if s in db.scans && db.scans[s].state == Complete { AfterCover(db, log, s, trusted, f); }
      }
    }
  }

  // ---- What an ingest does to a row, whatever came before ----

  ghost predicate NewerThanAll(scans: map<ScanId, Scan>, some: set<ScanId>, s: ScanId)
    requires some <= scans.Keys && s in scans
  {
    forall x :: x in some ==> Older(scans, x, s)
  }

  /** The newest scan that covered the row did not see the finding. */
  ghost predicate GoneSince(scans: map<ScanId, Scan>, log: set<ScanId>, observers: set<ScanId>)
    requires log <= scans.Keys && observers <= scans.Keys
  {
    exists c, l :: IsNewest(scans, log, c) && IsNewest(scans, observers, l) && c != l
  }

  lemma NewestIsUnique(scans: map<ScanId, Scan>, some: set<ScanId>, m: ScanId, n: ScanId)
    requires some <= scans.Keys && IsNewest(scans, some, m) && IsNewest(scans, some, n)
    ensures m == n
  {
  }

  lemma BehindNewest(scans: map<ScanId, Scan>, some: set<ScanId>, n: ScanId, s: ScanId)
    requires some <= scans.Keys && s in scans && IsNewest(scans, some, n)
    ensures Older(scans, n, s) <==> NewerThanAll(scans, some, s)
  {
  }

  /** The upsert of a row in terms of the scans that observed and covered it. */
  lemma UpsertUnderInterleaving(db: Db, log: set<ScanId>, s: ScanId, f: string)
    requires Pointers(db, log, f) && s in db.scans && f in db.rows
    ensures var h, h' := db.rows[f].history, Upsert(db.scans, db.rows[f].history, s);
            var newer := NewerThanAll(db.scans, Observers(db, f), s);
            && (Behind(db.scans, h.last, s) <==> newer)
            && h'.covering == h.covering
            && h'.times == h.times + (if newer && NewerThanAll(db.scans, log, s)
                                         && GoneSince(db.scans, log, Observers(db, f)) then 1 else 0)
  {
    var h, observers := db.rows[f].history, Observers(db, f);
    BehindNewest(db.scans, observers, h.last.value, s);
    if h.covering.Some? {
      BehindNewest(db.scans, log, h.covering.value, s);
      if GoneSince(db.scans, log, observers) {
        var c, l :| IsNewest(db.scans, log, c) && IsNewest(db.scans, observers, l) && c != l;
        NewestIsUnique(db.scans, log, c, h.covering.value);
        NewestIsUnique(db.scans, observers, l, h.last.value);
      }
    }
  }

  /**
   The row after one more observation, for any events before it: a first observation opens the row; a later one
   counts a mitigation exactly when its scan is newer than every scan that observed or covered the finding and
   the newest of those that covered it did not see it. A slow, older scan never counts one.
   */
  lemma IngestUnderInterleaving(events: seq<Event>, s: ScanId, o: Observation)
    requires s in After(events).scans
    ensures var db, db', log := After(events), After(events + [Ingested(s, o)]), CoverLog(events, o.key);
            var observers := Observers(db, o.key);
            && observers <= db.scans.Keys && log <= db.scans.Keys && o.key in db'.rows
            && (o.key in db.rows <==> observers != {})
            && var row' := db'.rows[o.key];
            if o.key !in db.rows then row' == Row(o.template, o.endpoint, History(Some(s), Some(s), None, 0))
            else
              var row, newer := db.rows[o.key], NewerThanAll(db.scans, observers, s);
              && row'.template == row.template
              && row'.endpoint == (if newer then o.endpoint else row.endpoint)
              && row'.history.times == row.history.times +
                   (if newer && NewerThanAll(db.scans, log, s) && GoneSince(db.scans, log, observers) then 1 else 0)
  {
    assert (events + [Ingested(s, o)])[..|events|] == events;
    PointersUnderInterleaving(events, o.key);
    if o.key in After(events).rows {
      UpsertUnderInterleaving(After(events), CoverLog(events, o.key), s, o.key);
    }
  }

  // ---- What a completion does to a row, whatever came before ----

  /** The scan's stored trace names the pair, comes from a node or a trusted import, and lost no record. */
  predicate HasTrace(scan: Scan, template: string, endpoint: string) {
    && scan.origin in {NodeTrace, ImportTrusted} && scan.skipped == 0 && endpoint != ""
    && scan.coverage.Some? && exists i :: 0 <= i < |scan.coverage.value| && scan.coverage.value[i] == Pair(template, endpoint)
  }

  /** Some occurrence of the finding is from a scan of this target. */
  predicate SeenInScope(db: Db, f: string, target: Option<nat>) {
    exists o :: o in db.occs && db.occs[o].finding == Some(f) && db.occs[o].scan in db.scans
                && db.scans[db.occs[o].scan].target == target
  }

  lemma SeenInScopeIff(db: Db, f: string, target: Option<nat>)
    ensures SeenInScope(db, f, target) <==> Associated(db, f, target)
  {
    if Associated(db, f, target) {
      var s :| s in Observers(db, f) && s in db.scans && db.scans[s].target == target;
      var o :| o in db.occs && db.occs[o].finding == Some(f) && db.occs[o].scan == s;
    }
    if SeenInScope(db, f, target) {
      var o :| o in db.occs && db.occs[o].finding == Some(f) && db.occs[o].scan in db.scans
               && db.scans[db.occs[o].scan].target == target;
      assert db.occs[o].scan in Observers(db, f);
    }
  }

  lemma AdvancesUnderInterleaving(db: Db, log: set<ScanId>, s: ScanId, f: string)
    requires Pointers(db, log, f) && s in db.scans && f in db.rows
    ensures Advances(db, s, f, true) <==>
            && (s in Observers(db, f) || HasTrace(db.scans[s], db.rows[f].template, db.rows[f].endpoint))
            && SeenInScope(db, f, db.scans[s].target) && NewerThanAll(db.scans, log, s)
  {
    SeenInScopeIff(db, f, db.scans[s].target);
    var covering := db.rows[f].history.covering;
    if covering.Some? {
      BehindNewest(db.scans, log, covering.value, s);
    }
  }

  /**
   The completion of a scan that is not cancelled makes it complete and moves one pointer: covering, to this
   scan, of exactly the rows that it observed or has a trace of, that some scan of its target observed, and that
   no scan at least as new has covered before.
   */
  lemma CompletionUnderInterleaving(events: seq<Event>, s: ScanId, f: string)
    requires s in After(events).scans && After(events).scans[s].state != Cancelled && f in After(events).rows
    ensures var db, db', log := After(events), After(events + [Completed(s)]), CoverLog(events, f);
            && log <= db.scans.Keys && f in db'.rows
            && db'.scans == db.scans[s := db.scans[s].(state := Complete)] && db'.occs == db.occs
            && var row := db.rows[f];
            var covers := (s in Observers(db, f) || HasTrace(db.scans[s], row.template, row.endpoint))
                          && SeenInScope(db, f, db.scans[s].target) && NewerThanAll(db.scans, log, s);
            db'.rows[f] == if covers then row.(history := row.history.(covering := Some(s))) else row
  {
    assert (events + [Completed(s)])[..|events|] == events;
    PointersUnderInterleaving(events, f);
    CompletionOfRow(After(events), CoverLog(events, f), s, f);
  }

  lemma CompletionOfRow(db: Db, log: set<ScanId>, s: ScanId, f: string)
    requires Pointers(db, log, f) && s in db.scans && db.scans[s].state != Cancelled && f in db.rows
    ensures var db', row := MarkComplete(db, s), db.rows[f];
            var covers := (s in Observers(db, f) || HasTrace(db.scans[s], row.template, row.endpoint))
                          && SeenInScope(db, f, db.scans[s].target) && NewerThanAll(db.scans, log, s);
            && f in db'.rows && db'.scans == db.scans[s := db.scans[s].(state := Complete)] && db'.occs == db.occs
            && db'.rows[f] == if covers then row.(history := row.history.(covering := Some(s))) else row
  {
    var db1 := SetState(db, s, Complete);
    AfterSetState(db, log, s, Complete, f);
    assert Observers(db1, f) == Observers(db, f);
    SameScope(db, s, f);
    AdvancesUnderInterleaving(db1, log, s, f);
  }

  lemma SameScope(db: Db, s: ScanId, f: string)
    requires s in db.scans
    ensures var t := db.scans[s].target; SeenInScope(SetState(db, s, Complete), f, t) <==> SeenInScope(db, f, t)
  {
  }

  /** A cancelled scan stays cancelled and covers nothing. */
  lemma CancelledCoversNothing(events: seq<Event>, s: ScanId)
    requires s in After(events).scans && After(events).scans[s].state == Cancelled
    ensures After(events + [Completed(s)]) == After(events)
  {
    assert (events + [Completed(s)])[..|events|] == events;
  }

  /** The evidence the repair goes by, in the same terms; it wants the whole trace decodable and the template named. */
  lemma CoveringIff(db: Db, s: ScanId, f: string)
    requires s in db.scans && f in db.rows
    ensures s in Covering(db, f) <==>
            SeenInScope(db, f, db.scans[s].target) &&
            (s in Observers(db, f) ||
             (HasTrace(db.scans[s], db.rows[f].template, db.rows[f].endpoint) && db.rows[f].template != ""
              && Junk !in db.scans[s].coverage.value))
  {
    SeenInScopeIff(db, f, db.scans[s].target);
  }

  // ---- Retrying a completion ----

  /** A completion repeated at once changes nothing. */
  lemma RetryAtOnceChangesNothing(db: Db, s: ScanId)
    ensures MarkComplete(MarkComplete(db, s), s) == MarkComplete(db, s)
  {
    if s in db.scans && db.scans[s].state != Cancelled {
      var db1 := SetState(db, s, Complete);
      var db2 := Cover(db1, s, true);
      assert SetState(db2, s, Complete) == db2;
      forall f | f in db2.rows
        ensures Cover(db2, s, true).rows[f] == db2.rows[f]
      {
        CoverSettles(db1, s, f);
      }
      assert Cover(db2, s, true).rows == db2.rows;
    }
  }

  lemma CoverSettles(db: Db, s: ScanId, f: string)
    requires s in db.scans && f in db.rows
    ensures !Advances(Cover(db, s, true), s, f, true)
  {
    var db' := Cover(db, s, true);
    assert Observers(db', f) == Observers(db, f);
    assert Associated(db', f, db.scans[s].target) <==> Associated(db, f, db.scans[s].target);
  }

  /**
   A completion repeated later moves the covering pointer of exactly those rows that the scan
   claims or observed, in a scope now associated with them, and that no scan at least as new
   has covered.
   */
  lemma RetryChangesRowIff(db: Db, s: ScanId, f: string)
    requires s in db.scans && db.scans[s].state == Complete && f in db.rows
    ensures MarkComplete(db, s).rows[f] != db.rows[f] <==> Advances(db, s, f, true)
  {
    assert SetState(db, s, Complete) == db;
  }

  /** A row that a completed scan already knew, still with the same evidence, is safe from its retry. */
  lemma RetrySparesKnownRows(db: Db, events: seq<Event>, s: ScanId, f: string)
    requires s in db.scans && f in db.rows && db.scans[s].state != Cancelled
    requires Consistent(MarkComplete(db, s))
    requires Associated(db, f, db.scans[s].target)
    requires Candidate(db, s, f, true)
    ensures var later := Continue(MarkComplete(db, s), events);
            f in later.rows && s in later.scans && !Advances(later, s, f, true)
  {
    var done := MarkComplete(db, s);
    var db1 := SetState(db, s, Complete);
    assert Observers(db1, f) == Observers(db, f);
    assert Associated(db1, f, db.scans[s].target) <==> Associated(db, f, db.scans[s].target);
    CoveringOnlyAdvances(done, events, s, f);
  }

  function Continue(db: Db, events: seq<Event>): Db {
    if events == [] then db else Apply(Continue(db, events[..|events| - 1]), events[|events| - 1])
  }

  /** The row has been covered by this scan or a newer one. */
  ghost predicate CoveredSince(db: Db, s: ScanId, f: string) {
    && s in db.scans && f in db.rows
    && var c := db.rows[f].history.covering;
    c.Some? && c.value in db.scans && (c.value == s || Older(db.scans, s, c.value))
  }

  lemma {:induction false} CoveringOnlyAdvances(db: Db, events: seq<Event>, s: ScanId, f: string)
    requires Consistent(db) && CoveredSince(db, s, f)
    ensures Consistent(Continue(db, events)) && CoveredSince(Continue(db, events), s, f)
  {
    if events != [] {
      var init, e := events[..|events| - 1], events[|events| - 1];
      CoveringOnlyAdvances(db, init, s, f);
      var mid := Continue(db, init);
      match e {
        case Inserted(_, _) =>
        case Ingested(t, obs) => if t in mid.scans { IngestKeepsConsistent(mid, t, obs); }
        case Completed(t) => CompleteKeepsConsistent(mid, t);
        case ImportCovered(_, _) =>
      }
    }
  }

  /** A retry does change a row that appeared in between: the scan then covers what it never saw. */
  lemma LateRetryCoversNewRow(db: Db, s: ScanId, t: ScanId, o: Observation)
    requires Consistent(db) && s in db.scans && db.scans[s].state == Complete && t in db.scans
    requires db.scans[t].target == db.scans[s].target && o.key !in db.rows
    requires Claims(db.scans[s], o.template, o.endpoint) && s != t
    ensures var later := Ingest(db, t, o);
            && o.key in later.rows && later.rows[o.key].history.covering == None
            && MarkComplete(later, s).rows[o.key].history == History(Some(t), Some(t), Some(s), 0)
  {
    var later := Ingest(db, t, o);
    ObserversAfterIngest(db, t, o, o.key);
    assert t in Observers(later, o.key);
    assert SetState(later, s, Complete) == later;
  }
}
