/**
 Importing custom templates: which are created, overwritten, skipped or renamed, and the search for a free
 id when one is renamed.
 */
module TemplateImport {
  import opened ByteStrings
  import opened Wrappers

  /** Template ids are ASCII, so bytes and characters coincide. */
  type Id = Bytes

  const MAX_ID := 200
  const DASH: byte := 45
  const IMPORTED: Bytes := [105, 109, 112, 111, 114, 116, 101, 100]

  // ---- Candidate ids ----

  const MAX_COUNT := 0x7fff_ffff_ffff_ffff

  /** A counter and the size of a map are signed 64-bit integers. */
  type Number = n: int | 1 <= n <= MAX_COUNT witness 1

  /** What follows the last dash of the n-th suffix: "imported", then a number. */
  function Ending(n: Number): Bytes {
    if n == 1 then IMPORTED else Decimal(n)
  }

  /** -imported, -imported-2, -imported-3 and so on. */
  function Suffix(n: Number): (s: Bytes)
    ensures |s| <= 29
  {
    DecimalIsShort(n, 19);
    if n == 1 then [DASH] + IMPORTED else [DASH] + IMPORTED + [DASH] + Decimal(n)
  }

  /** The base with the n-th suffix, cut so that the id stays within 200 bytes. */
  function Candidate(base: Id, n: Number): (id: Id)
    ensures |id| <= MAX_ID
  {
    var suffix := Suffix(n);
    (if |base| + |suffix| > MAX_ID then base[..MAX_ID - |suffix|] else base) + suffix
  }

  function Pow10(k: nat): nat {
    if k == 0 then 1 else 10 * Pow10(k - 1)
  }

  lemma {:induction false} DecimalIsShort(n: nat, k: nat)
    requires k >= 1 && (n < Pow10(k) || (k == 19 && n <= MAX_COUNT))
    ensures |Decimal(n)| <= k
  {
    assert Pow10(10) == 10_000_000_000;
    assert Pow10(19) == 10_000_000_000_000_000_000;
    if n >= 10 {
      DecimalIsShort(n / 10, k - 1);
    }
  }

  lemma EndingAfterDash(n: Number)
    ensures DASH !in Ending(n)
    ensures Suffix(n) == Suffix(n)[..|Suffix(n)| - |Ending(n)| - 1] + [DASH] + Ending(n)
  {
    if n > 1 {
      assert Suffix(n)[..|Suffix(n)| - |Decimal(n)| - 1] == [DASH] + IMPORTED;
    }
  }

  lemma EndingsDiffer(m: Number, n: Number)
    requires Ending(m) == Ending(n)
    ensures m == n
  {
    DecimalReadsBack(m);
    DecimalReadsBack(n);
    assert IMPORTED[0] != Decimal(m)[0] && IMPORTED[0] != Decimal(n)[0];
  }

  /** All of a candidate before its last dash. */
  lemma Front(base: Id, n: Number) returns (x: Bytes)
    ensures Candidate(base, n) == x + [DASH] + Ending(n) && DASH !in Ending(n)
  {
    EndingAfterDash(n);
    var suffix := Suffix(n);
    var prefix := if |base| + |suffix| > MAX_ID then base[..MAX_ID - |suffix|] else base;
    var middle := suffix[..|suffix| - |Ending(n)| - 1];
    x := prefix + middle;
    assert prefix + (middle + [DASH] + Ending(n)) == x + [DASH] + Ending(n);
  }

  /** Candidates for different numbers differ, however much of the base is cut off. */
  lemma CandidatesDiffer(base: Id, m: Number, n: Number)
    requires Candidate(base, m) == Candidate(base, n)
    ensures m == n
  {
    var x := Front(base, m);
    var y := Front(base, n);
    MarkSplitsEnd(x, y, DASH, Ending(m), Ending(n));
    EndingsDiffer(m, n);
  }

  /** The suffix is "-imported", and from 2 on "-" and the number after it. */
  lemma SuffixIs(n: Number)
    ensures Suffix(n) == [45, 105, 109, 112, 111, 114, 116, 101, 100] + if n == 1 then [] else [45] + Decimal(n)
  {
    var imported := [DASH] + IMPORTED;
    assert imported == [45, 105, 109, 112, 111, 114, 116, 101, 100] && imported + [] == imported;
    if n > 1 {
      assert imported + [DASH] + Decimal(n) == imported + ([DASH] + Decimal(n));
    }
  }

  /** A candidate keeps as much of the base as fits 200 bytes with the suffix. */
  lemma CandidateIs(base: Id, n: Number)
    ensures var room := 200 - |Suffix(n)|;
            Candidate(base, n) == (if |base| <= room then base else base[..room]) + Suffix(n)
  {
  }

  // ---- The search ----

  /** The candidates before the n-th are all taken. */
  ghost predicate AllTaken(base: Id, occupied: set<Id>, n: int) {
    forall k: Number :: k < n ==> Candidate(base, k) in occupied
  }

  function Candidates(base: Id, n: nat): set<Id>
    requires n <= MAX_COUNT
  {
    if n == 0 then {} else Candidates(base, n - 1) + {Candidate(base, n)}
  }

  /** Distinct candidates that are all taken are at most as many as the taken ids. */
  lemma Pigeonhole(base: Id, occupied: set<Id>, n: nat)
    requires n <= MAX_COUNT && AllTaken(base, occupied, n + 1)
    ensures n <= |occupied|
  {
    CandidatesCount(base, occupied, n);
    SubsetIsSmaller(Candidates(base, n), occupied);
  }

  lemma {:induction false} CandidatesCount(base: Id, occupied: set<Id>, n: nat)
    requires n <= MAX_COUNT && AllTaken(base, occupied, n + 1)
    ensures |Candidates(base, n)| == n && Candidates(base, n) <= occupied
  {
    if n > 0 {
      CandidatesCount(base, occupied, n - 1);
      NotYetListed(base, n - 1, n);
    }
  }

  lemma {:induction false} NotYetListed(base: Id, m: nat, n: Number)
    requires m < n
    ensures Candidate(base, n) !in Candidates(base, m)
  {
    if m > 0 {
      NotYetListed(base, m - 1, n);
      if Candidate(base, n) == Candidate(base, m) {
        CandidatesDiffer(base, n, m);
      }
    }
  }

  lemma {:induction false} SubsetIsSmaller<T>(s: set<T>, t: set<T>)
    requires s <= t
    ensures |s| <= |t|
  {
    if s != {} {
      var x :| x in s;
      SubsetIsSmaller(s - {x}, t - {x});
    }
  }

  /** The first candidate that is free. */
  ghost predicate IsNext(base: Id, occupied: set<Id>, id: Id) {
    id !in occupied && exists k: Number :: id == Candidate(base, k) && AllTaken(base, occupied, k)
  }

  lemma NextIsUnique(base: Id, occupied: set<Id>, x: Id, y: Id)
    requires IsNext(base, occupied, x) && IsNext(base, occupied, y)
    ensures x == y
  {
    var j: Number :| x == Candidate(base, j) && AllTaken(base, occupied, j);
    var k: Number :| y == Candidate(base, k) && AllTaken(base, occupied, k);
    assert !(j < k) && !(k < j);
  }

  lemma {:induction false} NextExists(base: Id, occupied: set<Id>, n: Number) returns (id: Id)
    requires |occupied| < MAX_COUNT && AllTaken(base, occupied, n)
    ensures IsNext(base, occupied, id)
    decreases |occupied| + 1 - n
  {
    id := Candidate(base, n);
    if id in occupied {
      Pigeonhole(base, occupied, n);
      id := NextExists(base, occupied, n + 1);
    }
  }

  ghost function NextId(base: Id, occupied: set<Id>): (id: Id)
    requires |occupied| < MAX_COUNT
    ensures IsNext(base, occupied, id)
  {
    assert exists id :: IsNext(base, occupied, id) by {
      var id := NextExists(base, occupied, 1);
    }
    var id :| IsNext(base, occupied, id);
    id
  }

  /** The search ends for every finite set of taken ids, after at most one try more than there are ids. */
  method NextImportedTemplateId(base: Id, occupied: set<Id>) returns (id: Id, tries: nat)
    requires |occupied| < MAX_COUNT
    ensures id == NextId(base, occupied) && tries <= |occupied| + 1
  {
    var n: Number := 1;
    id := Candidate(base, n);
    while id in occupied
      invariant AllTaken(base, occupied, n) && n <= |occupied| + 1 && id == Candidate(base, n)
      decreases |occupied| + 1 - n
    {
      Pigeonhole(base, occupied, n);
      n := n + 1;
      id := Candidate(base, n);
    }
    tries := n;
    NextIsUnique(base, occupied, id, NextId(base, occupied));
  }

  // ---- The plan ----

  datatype Source = Upstream | Custom

  datatype Strategy = Skip | Overwrite | Rename

  /** A template of the archive; `valid` when its YAML parses as a custom template. */
  datatype Entry = Entry(id: Id, source: Source, valid: bool)

  datatype Write = Write(id: Id, overwrite: bool)

  datatype Error = BadTemplate | Collision | BadRename

  datatype Plan = Plan(writes: seq<Write>, renamed: map<Id, Id>, occupied: set<Id>,
                       created: nat, updated: nat, skipped: nat, ignored: nat)

  /** What the import was asked for: the catalog, the conflict strategy, and which renames can be written. */
  datatype Request = Request(sources: map<Id, Source>, strategy: Strategy, requireSet: bool, rewrites: (Id, Id) -> bool)

  function Started(req: Request): Plan {
    Plan([], map[], req.sources.Keys, 0, 0, 0, 0)
  }

  function Created(p: Plan, id: Id): Plan {
    p.(writes := p.writes + [Write(id, false)], occupied := p.occupied + {id}, created := p.created + 1)
  }

  ghost function PlanEntry(p: Plan, e: Entry, req: Request): Result<Plan, Error>
    requires |p.occupied| < MAX_COUNT
  {
    if e.source == Upstream then Ok(p.(ignored := p.ignored + 1))
    else if !e.valid then Err(BadTemplate)
    else if e.id !in req.sources then Ok(Created(p, e.id))
    else if req.sources[e.id] == Upstream && req.requireSet && req.strategy != Rename then Err(Collision)
    else
      match req.strategy
      case Skip => Ok(p.(skipped := p.skipped + 1))
      case Overwrite =>
        if req.sources[e.id] == Upstream then Ok(p.(skipped := p.skipped + 1))
        else Ok(p.(writes := p.writes + [Write(e.id, true)], updated := p.updated + 1))
      case Rename =>
        var newId := NextId(e.id, p.occupied);
        if !req.rewrites(e.id, newId) then Err(BadRename)
        else Ok(Created(p, newId).(renamed := p.renamed[e.id := newId]))
  }

  /** The plan after the first n entries; each adds at most one id to the taken ones. */
  ghost function PlanOf(entries: seq<Entry>, n: nat, req: Request): (r: Result<Plan, Error>)
    requires n <= |entries| && |req.sources| + |entries| < MAX_COUNT
    ensures r.Ok? ==> |r.value.occupied| <= |req.sources| + n
  {
    if n == 0 then Ok(Started(req))
    else
      match PlanOf(entries, n - 1, req)
      case Err(error) => Err(error)
      case Ok(p) =>
        OccupiedGrows(p, entries[n - 1], req);
        PlanEntry(p, entries[n - 1], req)
  }

  lemma OccupiedGrows(p: Plan, e: Entry, req: Request)
    requires |p.occupied| < MAX_COUNT
    ensures var r := PlanEntry(p, e, req); r.Ok? ==> |r.value.occupied| <= |p.occupied| + 1
  {
  }

  lemma {:induction false} ErrorIsFinal(entries: seq<Entry>, m: nat, n: nat, req: Request)
    requires m <= n <= |entries| && |req.sources| + |entries| < MAX_COUNT && PlanOf(entries, m, req).Err?
    ensures PlanOf(entries, n, req) == PlanOf(entries, m, req)
  {
    if m < n {
      ErrorIsFinal(entries, m, n - 1, req);
    }
  }

  method RenameEntry(p: Plan, e: Entry, rewrites: (Id, Id) -> bool) returns (r: Result<Plan, Error>)
    requires |p.occupied| < MAX_COUNT
    ensures var newId := NextId(e.id, p.occupied);
            r == if rewrites(e.id, newId) then Ok(Created(p, newId).(renamed := p.renamed[e.id := newId])) else Err(BadRename)
  {
    var newId, _ := NextImportedTemplateId(e.id, p.occupied);
    if !rewrites(e.id, newId) {
      return Err(BadRename);
    }
    return Ok(p.(writes := p.writes + [Write(newId, false)], occupied := p.occupied + {newId},
                 renamed := p.renamed[e.id := newId], created := p.created + 1));
  }

  method PlanOne(p: Plan, e: Entry, req: Request) returns (r: Result<Plan, Error>)
    requires |p.occupied| < MAX_COUNT
    ensures r == PlanEntry(p, e, req)
  {
    if e.source == Upstream {
      return Ok(p.(ignored := p.ignored + 1));
    }
    if !e.valid {
      return Err(BadTemplate);
    }
    if e.id !in req.sources {
      return Ok(p.(writes := p.writes + [Write(e.id, false)], occupied := p.occupied + {e.id}, created := p.created + 1));
    }
    if req.sources[e.id] == Upstream && req.requireSet && req.strategy != Rename {
      return Err(Collision);
    }
    match req.strategy {
      case Skip => return Ok(p.(skipped := p.skipped + 1));
      case Overwrite =>
        if req.sources[e.id] == Upstream {
          return Ok(p.(skipped := p.skipped + 1));
        }
        return Ok(p.(writes := p.writes + [Write(e.id, true)], updated := p.updated + 1));
      case Rename =>
        r := RenameEntry(p, e, req.rewrites);
    }
  }

  method PlanNext(entries: seq<Entry>, i: nat, p: Plan, req: Request) returns (r: Result<Plan, Error>)
    requires i < |entries| && |req.sources| + |entries| < MAX_COUNT && PlanOf(entries, i, req) == Ok(p)
    ensures r == PlanOf(entries, i + 1, req)
  {
    r := PlanOne(p, entries[i], req);
  }

  method PlanPortableTemplateWrites(entries: seq<Entry>, req: Request) returns (r: Result<Plan, Error>)
    requires |req.sources| + |entries| < MAX_COUNT
    ensures r == PlanOf(entries, |entries|, req)
  {
    r := Ok(Started(req));
    for i := 0 to |entries|
      invariant PlanOf(entries, i, req) == r && r.Ok?
    {
      r := PlanNext(entries, i, r.value, req);
      if r.Err? {
        ErrorIsFinal(entries, i + 1, |entries|, req);
        return;
      }
    }
  }

  // ---- What the plan promises ----

  function CountOverwrites(writes: seq<Write>, overwrite: bool): nat {
    if writes == [] then 0
    else CountOverwrites(writes[..|writes| - 1], overwrite) + if writes[|writes| - 1].overwrite == overwrite then 1 else 0
  }

  lemma CountsWith(writes: seq<Write>, w: Write)
    ensures forall o :: CountOverwrites(writes + [w], o) == CountOverwrites(writes, o) + if w.overwrite == o then 1 else 0
  {
    assert (writes + [w])[..|writes|] == writes;
  }

  function CountUpstream(entries: seq<Entry>, n: nat): nat
    requires n <= |entries|
  {
    if n == 0 then 0 else CountUpstream(entries, n - 1) + if entries[n - 1].source == Upstream then 1 else 0
  }

  /** The counters say what the writes are. */
  predicate Tallies(p: Plan) {
    p.created == CountOverwrites(p.writes, false) && p.updated == CountOverwrites(p.writes, true)
  }

  lemma EntryKeepsTallies(p: Plan, e: Entry, req: Request)
    requires |p.occupied| < MAX_COUNT && Tallies(p) && PlanEntry(p, e, req).Ok?
    ensures Tallies(PlanEntry(p, e, req).value)
  {
    if e.source == Custom && e.id !in req.sources {
      CountsWith(p.writes, Write(e.id, false));
    } else if e.source == Custom && req.strategy == Rename {
      CountsWith(p.writes, Write(NextId(e.id, p.occupied), false));
    } else if e.source == Custom && req.strategy == Overwrite {
      CountsWith(p.writes, Write(e.id, true));
    }
  }

  /**
   Every entry of the archive is created, updated, skipped or ignored, once: created and updated are the new
   and the overwriting writes, ignored the upstream entries.
   */
  lemma {:induction false} EveryEntryCounted(entries: seq<Entry>, n: nat, req: Request)
    requires n <= |entries| && |req.sources| + |entries| < MAX_COUNT && PlanOf(entries, n, req).Ok?
    ensures var p := PlanOf(entries, n, req).value;
            && p.created + p.updated + p.skipped + p.ignored == n
            && p.ignored == CountUpstream(entries, n) && Tallies(p)
  {
    if n > 0 {
      EveryEntryCounted(entries, n - 1, req);
      EntryKeepsTallies(PlanOf(entries, n - 1, req).value, entries[n - 1], req);
    }
  }

  /** Only custom templates are overwritten, only on request; a rename neither overwrites nor skips. */
  ghost predicate Respects(p: Plan, req: Request) {
    && (forall w :: w in p.writes && w.overwrite ==>
                      req.strategy == Overwrite && w.id in req.sources && req.sources[w.id] == Custom)
    && (req.strategy == Rename ==> p.skipped == 0 && p.updated == 0)
    && (req.strategy != Rename ==> p.renamed == map[])
  }

  lemma {:induction false} StrategyIsRespected(entries: seq<Entry>, n: nat, req: Request)
    requires n <= |entries| && |req.sources| + |entries| < MAX_COUNT && PlanOf(entries, n, req).Ok?
    ensures Respects(PlanOf(entries, n, req).value, req)
  {
    if n > 0 {
      StrategyIsRespected(entries, n - 1, req);
      EntryRespects(PlanOf(entries, n - 1, req).value, entries[n - 1], req);
    }
  }

  lemma EntryRespects(p: Plan, e: Entry, req: Request)
    requires |p.occupied| < MAX_COUNT && Respects(p, req) && PlanEntry(p, e, req).Ok?
    ensures Respects(PlanEntry(p, e, req).value, req)
  {
  }

  function NewIds(writes: seq<Write>): set<Id> {
    if writes == [] then {}
    else NewIds(writes[..|writes| - 1]) + if writes[|writes| - 1].overwrite then {} else {writes[|writes| - 1].id}
  }

  /** Taken ids are the catalog's and those planned so far. */
  lemma {:induction false} OccupiedIsPlanned(entries: seq<Entry>, n: nat, req: Request)
    requires n <= |entries| && |req.sources| + |entries| < MAX_COUNT && PlanOf(entries, n, req).Ok?
    ensures var p := PlanOf(entries, n, req).value; p.occupied == req.sources.Keys + NewIds(p.writes)
  {
    if n > 0 {
      OccupiedIsPlanned(entries, n - 1, req);
      EntryKeepsOccupied(PlanOf(entries, n - 1, req).value, entries[n - 1], req);
    }
  }

  lemma NewIdsWith(writes: seq<Write>, w: Write)
    ensures NewIds(writes + [w]) == NewIds(writes) + if w.overwrite then {} else {w.id}
  {
    assert (writes + [w])[..|writes|] == writes;
  }

  lemma NewKeepsOccupied(p: Plan, q: Plan, x: Id, taken: set<Id>)
    requires p.occupied == taken + NewIds(p.writes)
    requires q.writes == p.writes + [Write(x, false)] && q.occupied == p.occupied + {x}
    ensures q.occupied == taken + NewIds(q.writes)
  {
    NewIdsWith(p.writes, Write(x, false));
  }

  lemma OverwriteKeepsOccupied(p: Plan, q: Plan, x: Id, taken: set<Id>)
    requires p.occupied == taken + NewIds(p.writes)
    requires q.writes == p.writes + [Write(x, true)] && q.occupied == p.occupied
    ensures q.occupied == taken + NewIds(q.writes)
  {
    NewIdsWith(p.writes, Write(x, true));
  }

  lemma EntryKeepsOccupied(p: Plan, e: Entry, req: Request)
    requires |p.occupied| < MAX_COUNT && p.occupied == req.sources.Keys + NewIds(p.writes) && PlanEntry(p, e, req).Ok?
    ensures var q := PlanEntry(p, e, req).value; q.occupied == req.sources.Keys + NewIds(q.writes)
  {
    var q, taken := PlanEntry(p, e, req).value, req.sources.Keys;
    if e.source == Custom {
      if e.id !in req.sources {
        NewKeepsOccupied(p, q, e.id, taken);
      } else if req.strategy == Rename {
        NewKeepsOccupied(p, q, NextId(e.id, p.occupied), taken);
      } else if req.strategy == Overwrite && req.sources[e.id] == Custom {
        OverwriteKeepsOccupied(p, q, e.id, taken);
      }
    }
  }

  /** A generated id is outside the catalog and was not planned before. */
  lemma GeneratedIdIsFresh(entries: seq<Entry>, n: nat, req: Request)
    requires n < |entries| && |req.sources| + |entries| < MAX_COUNT && PlanOf(entries, n, req).Ok?
    ensures var p := PlanOf(entries, n, req).value;
            var newId := NextId(entries[n].id, p.occupied);
            newId !in req.sources && newId !in NewIds(p.writes) && |newId| <= MAX_ID
  {
    OccupiedIsPlanned(entries, n, req);
  }

  // ---- Whether the planned writes are distinct ----

  predicate DistinctIds(writes: seq<Write>) {
    forall i, j :: 0 <= i < j < |writes| ==> writes[i].id != writes[j].id
  }

  predicate DistinctEntries(entries: seq<Entry>) {
    forall i, j :: 0 <= i < j < |entries| ==> entries[i].id != entries[j].id
  }

  /** An id that is created as it stands: custom and not in the catalog. */
  predicate IsFresh(e: Entry, req: Request) {
    e.source == Custom && e.id !in req.sources
  }

  /** A custom template whose id the catalog has already, under the strategy that gives it a new one. */
  predicate IsRenamed(e: Entry, req: Request) {
    e.source == Custom && e.id in req.sources && req.strategy == Rename
  }

  /** The ids taken when the n-th entry has its turn, by the archive, the catalog and the strategy alone. */
  ghost function Taken(entries: seq<Entry>, n: nat, req: Request): (taken: set<Id>)
    requires n <= |entries| && |req.sources| + |entries| < MAX_COUNT
    ensures |taken| <= |req.sources| + n
  {
    if n == 0 then req.sources.Keys else TakenAfter(Taken(entries, n - 1, req), entries[n - 1], req)
  }

  ghost function TakenAfter(taken: set<Id>, e: Entry, req: Request): (more: set<Id>)
    requires |taken| < MAX_COUNT
    ensures |more| <= |taken| + 1
  {
    if IsFresh(e, req) then taken + {e.id}
    else if IsRenamed(e, req) then taken + {NextId(e.id, taken)}
    else taken
  }

  /** The id minted for the j-th entry: its first candidate that is not taken when it has its turn. */
  ghost function Minted(entries: seq<Entry>, j: nat, req: Request): Id
    requires j < |entries| && |req.sources| + |entries| < MAX_COUNT
  {
    NextId(entries[j].id, Taken(entries, j, req))
  }

  ghost predicate WasMinted(entries: seq<Entry>, n: nat, req: Request, id: Id)
    requires n <= |entries| && |req.sources| + |entries| < MAX_COUNT
  {
    exists j :: 0 <= j < n && IsRenamed(entries[j], req) && Minted(entries, j, req) == id
  }

  predicate WasFresh(entries: seq<Entry>, n: nat, req: Request, id: Id)
    requires n <= |entries|
  {
    exists j :: 0 <= j < n && IsFresh(entries[j], req) && entries[j].id == id
  }

  lemma {:induction false} TakenIff(entries: seq<Entry>, n: nat, req: Request, id: Id)
    requires n <= |entries| && |req.sources| + |entries| < MAX_COUNT
    ensures id in Taken(entries, n, req) <==>
            id in req.sources || WasFresh(entries, n, req, id) || WasMinted(entries, n, req, id)
  {
    if n == 0 {
      NothingTaken(entries, n, req, id);
    } else {
      TakenIff(entries, n - 1, req, id);
      OneMoreTaken(entries, n - 1, req, id);
      OneMoreWas(entries, n - 1, req, id);
    }
  }

  lemma NothingTaken(entries: seq<Entry>, n: nat, req: Request, id: Id)
    requires n == 0 && |req.sources| + |entries| < MAX_COUNT
    ensures (id in Taken(entries, n, req) <==> id in req.sources)
    ensures !WasFresh(entries, n, req, id) && !WasMinted(entries, n, req, id)
  {
  }

  lemma OneMoreWas(entries: seq<Entry>, n: nat, req: Request, id: Id)
    requires n < |entries| && |req.sources| + |entries| < MAX_COUNT
    ensures WasFresh(entries, n + 1, req, id) <==>
            WasFresh(entries, n, req, id) || (IsFresh(entries[n], req) && entries[n].id == id)
    ensures WasMinted(entries, n + 1, req, id) <==>
            WasMinted(entries, n, req, id) || (IsRenamed(entries[n], req) && Minted(entries, n, req) == id)
  {
  }

  lemma OneMoreTaken(entries: seq<Entry>, n: nat, req: Request, id: Id)
    requires n < |entries| && |req.sources| + |entries| < MAX_COUNT
    ensures id in Taken(entries, n + 1, req) <==>
            id in Taken(entries, n, req) || (IsFresh(entries[n], req) && entries[n].id == id) ||
            (IsRenamed(entries[n], req) && Minted(entries, n, req) == id)
  {
  }

  /** What the planner takes for occupied is what the archive and the catalog say. */
  lemma {:induction false} OccupiedIsTaken(entries: seq<Entry>, n: nat, req: Request)
    requires n <= |entries| && |req.sources| + |entries| < MAX_COUNT && PlanOf(entries, n, req).Ok?
    ensures PlanOf(entries, n, req).value.occupied == Taken(entries, n, req)
  {
    if n > 0 {
      OccupiedIsTaken(entries, n - 1, req);
      OccupiedAfter(PlanOf(entries, n - 1, req).value, entries[n - 1], req);
    }
  }

  lemma OccupiedAfter(p: Plan, e: Entry, req: Request)
    requires |p.occupied| < MAX_COUNT && PlanEntry(p, e, req).Ok?
    ensures PlanEntry(p, e, req).value.occupied == TakenAfter(p.occupied, e, req)
  {
  }

  /** Among ids named once, a fresh one is taken before its turn only by having been minted. */
  lemma FreshIsTakenIff(entries: seq<Entry>, n: nat, req: Request)
    requires n < |entries| && |req.sources| + |entries| < MAX_COUNT && DistinctEntries(entries)
    requires IsFresh(entries[n], req)
    ensures entries[n].id in Taken(entries, n, req) <==> WasMinted(entries, n, req, entries[n].id)
  {
    TakenIff(entries, n, req, entries[n].id);
  }

  /** A fresh id is created without looking whether it was minted before its turn; here none was. */
  ghost predicate NoFreshIdMinted(entries: seq<Entry>, n: nat, req: Request)
    requires n <= |entries| && |req.sources| + |entries| < MAX_COUNT
  {
    forall k :: 0 <= k < n && IsFresh(entries[k], req) ==> !WasMinted(entries, k, req, entries[k].id)
  }

  function Overwritten(writes: seq<Write>): set<Id> {
    if writes == [] then {}
    else Overwritten(writes[..|writes| - 1]) + if writes[|writes| - 1].overwrite then {writes[|writes| - 1].id} else {}
  }

  lemma OverwrittenWith(writes: seq<Write>, w: Write)
    ensures Overwritten(writes + [w]) == Overwritten(writes) + if w.overwrite then {w.id} else {}
  {
    assert (writes + [w])[..|writes|] == writes;
  }

  lemma {:induction false} IdsOfWrites(writes: seq<Write>, id: Id)
    ensures id in NewIds(writes) + Overwritten(writes) <==> exists i :: 0 <= i < |writes| && writes[i].id == id
  {
    if writes != [] {
      var init := writes[..|writes| - 1];
      IdsOfWrites(init, id);
      assert forall i :: 0 <= i < |init| ==> init[i] == writes[i];
    }
  }

  lemma DistinctWith(writes: seq<Write>, w: Write)
    ensures DistinctIds(writes + [w]) <==> DistinctIds(writes) && w.id !in NewIds(writes) + Overwritten(writes)
  {
    IdsOfWrites(writes, w.id);
    var more := writes + [w];
    assert forall i :: 0 <= i < |writes| ==> more[i] == writes[i];
    if exists i :: 0 <= i < |writes| && writes[i].id == w.id {
      var i :| 0 <= i < |writes| && writes[i].id == w.id;
      assert more[i].id == more[|writes|].id;
    }
  }

  /** New ids are outside the catalog; overwritten ones are the catalog's, and named by an entry so far. */
  ghost predicate Separate(p: Plan, seen: set<Id>, req: Request) {
    && p.occupied == req.sources.Keys + NewIds(p.writes)
    && NewIds(p.writes) !! req.sources.Keys
    && Overwritten(p.writes) <= req.sources.Keys * seen
  }

  lemma NewKeepsSeparate(p: Plan, q: Plan, seen: set<Id>, x: Id, more: set<Id>, req: Request)
    requires Separate(p, seen, req) && x !in req.sources && seen <= more
    requires q.writes == p.writes + [Write(x, false)] && q.occupied == p.occupied + {x}
    ensures Separate(q, more, req)
  {
    NewIdsWith(p.writes, Write(x, false));
    OverwrittenWith(p.writes, Write(x, false));
  }

  lemma OverwriteKeepsSeparate(p: Plan, q: Plan, seen: set<Id>, x: Id, more: set<Id>, req: Request)
    requires Separate(p, seen, req) && x in req.sources && x in more && seen <= more
    requires q.writes == p.writes + [Write(x, true)] && q.occupied == p.occupied
    ensures Separate(q, more, req)
  {
    NewIdsWith(p.writes, Write(x, true));
    OverwrittenWith(p.writes, Write(x, true));
  }

  lemma EntryKeepsSeparate(p: Plan, seen: set<Id>, e: Entry, req: Request)
    requires |p.occupied| < MAX_COUNT && Separate(p, seen, req) && PlanEntry(p, e, req).Ok?
    ensures Separate(PlanEntry(p, e, req).value, seen + {e.id}, req)
  {
    var q, more := PlanEntry(p, e, req).value, seen + {e.id};
    if e.source == Custom {
      if e.id !in req.sources {
        NewKeepsSeparate(p, q, seen, e.id, more, req);
      } else if req.strategy == Rename {
        NewKeepsSeparate(p, q, seen, NextId(e.id, p.occupied), more, req);
      } else if req.strategy == Overwrite && req.sources[e.id] == Custom {
        OverwriteKeepsSeparate(p, q, seen, e.id, more, req);
      }
    }
  }

  /** One entry: writes stay distinct unless a fresh id was taken already. */
  lemma EntryKeepsDistinct(p: Plan, seen: set<Id>, e: Entry, req: Request)
    requires |p.occupied| < MAX_COUNT && Separate(p, seen, req) && PlanEntry(p, e, req).Ok? && e.id !in seen
    ensures DistinctIds(PlanEntry(p, e, req).value.writes) <==>
            DistinctIds(p.writes) && !(IsFresh(e, req) && e.id in p.occupied)
  {
    if e.source == Custom {
      if e.id !in req.sources {
        DistinctWith(p.writes, Write(e.id, false));
      } else if req.strategy == Rename {
        DistinctWith(p.writes, Write(NextId(e.id, p.occupied), false));
      } else if req.strategy == Overwrite && req.sources[e.id] == Custom {
        DistinctWith(p.writes, Write(e.id, true));
      }
    }
  }

  function Seen(entries: seq<Entry>, n: nat): set<Id>
    requires n <= |entries|
  {
    if n == 0 then {} else Seen(entries, n - 1) + {entries[n - 1].id}
  }

  lemma {:induction false} NotSeen(entries: seq<Entry>, m: nat, n: nat)
    requires m <= n < |entries| && DistinctEntries(entries)
    ensures entries[n].id !in Seen(entries, m)
  {
    if m > 0 {
      NotSeen(entries, m - 1, n);
    }
  }

  lemma StartsSeparate(req: Request)
    ensures Separate(Started(req), {}, req)
  {
  }

  lemma {:induction false} PlanIsSeparate(entries: seq<Entry>, n: nat, req: Request)
    requires n <= |entries| && |req.sources| + |entries| < MAX_COUNT && PlanOf(entries, n, req).Ok?
    ensures Separate(PlanOf(entries, n, req).value, Seen(entries, n), req)
  {
    if n == 0 {
      StartsSeparate(req);
    } else {
      var p, seen, e := PlanOf(entries, n - 1, req).value, Seen(entries, n - 1), entries[n - 1];
      PlanIsSeparate(entries, n - 1, req);
      EntryKeepsSeparate(p, seen, e, req);
    }
  }

  /** Each id is written at most once exactly when no fresh id of the archive was minted for an earlier entry. */
  lemma {:induction false} WritesAreDistinctIff(entries: seq<Entry>, n: nat, req: Request)
    requires n <= |entries| && |req.sources| + |entries| < MAX_COUNT && DistinctEntries(entries)
    requires PlanOf(entries, n, req).Ok?
    ensures DistinctIds(PlanOf(entries, n, req).value.writes) <==> NoFreshIdMinted(entries, n, req)
  {
    if n > 0 {
      WritesAreDistinctIff(entries, n - 1, req);
      OneMoreEntry(entries, n - 1, req);
    }
  }

  lemma OneMoreEntry(entries: seq<Entry>, n: nat, req: Request)
    requires n < |entries| && |req.sources| + |entries| < MAX_COUNT && DistinctEntries(entries)
    requires PlanOf(entries, n, req).Ok? && PlanOf(entries, n + 1, req).Ok?
    ensures DistinctIds(PlanOf(entries, n + 1, req).value.writes) <==>
            DistinctIds(PlanOf(entries, n, req).value.writes) &&
            !(IsFresh(entries[n], req) && WasMinted(entries, n, req, entries[n].id))
  {
    PlanIsSeparate(entries, n, req);
    NotSeen(entries, n, n);
    EntryKeepsDistinct(PlanOf(entries, n, req).value, Seen(entries, n), entries[n], req);
    if IsFresh(entries[n], req) {
      OccupiedIsTaken(entries, n, req);
      FreshIsTakenIff(entries, n, req);
    }
  }

  // Two conditions under which it is so.

  /** Under every strategy but Rename. */
  lemma DistinctWithoutRename(entries: seq<Entry>, n: nat, req: Request)
    requires n <= |entries| && |req.sources| + |entries| < MAX_COUNT && DistinctEntries(entries)
    requires PlanOf(entries, n, req).Ok? && req.strategy != Rename
    ensures DistinctIds(PlanOf(entries, n, req).value.writes)
  {
    WritesAreDistinctIff(entries, n, req);
  }

  ghost predicate IsCandidate(id: Id, base: Id) {
    exists k: Number :: id == Candidate(base, k)
  }

  lemma MintedIsCandidate(entries: seq<Entry>, j: nat, req: Request)
    requires j < |entries| && |req.sources| + |entries| < MAX_COUNT
    ensures IsCandidate(Minted(entries, j, req), entries[j].id)
  {
    assert IsNext(entries[j].id, Taken(entries, j, req), Minted(entries, j, req));
  }

  /** When no fresh id is a candidate of an earlier entry that is renamed. */
  lemma DistinctWithoutCandidates(entries: seq<Entry>, n: nat, req: Request)
    requires n <= |entries| && |req.sources| + |entries| < MAX_COUNT && DistinctEntries(entries)
    requires PlanOf(entries, n, req).Ok?
    requires forall j, k :: 0 <= j < k < n && IsRenamed(entries[j], req) && IsFresh(entries[k], req) ==>
                              !IsCandidate(entries[k].id, entries[j].id)
    ensures DistinctIds(PlanOf(entries, n, req).value.writes)
  {
    forall j | 0 <= j < n
      ensures IsCandidate(Minted(entries, j, req), entries[j].id)
    {
      MintedIsCandidate(entries, j, req);
    }
    WritesAreDistinctIff(entries, n, req);
  }

  // ---- What becomes of each entry ----

  predicate IsOverwritten(e: Entry, req: Request) {
    e.source == Custom && e.id in req.sources && req.sources[e.id] == Custom && req.strategy == Overwrite
  }

  predicate IsSkipped(e: Entry, req: Request) {
    e.source == Custom && e.id in req.sources &&
    (req.strategy == Skip || (req.strategy == Overwrite && req.sources[e.id] == Upstream))
  }

  datatype Fate = IsCreated | IsUpdated | IsLeft | IsIgnored

  predicate Meets(e: Entry, req: Request, fate: Fate) {
    match fate
    case IsCreated => IsFresh(e, req) || IsRenamed(e, req)
    case IsUpdated => IsOverwritten(e, req)
    case IsLeft => IsSkipped(e, req)
    case IsIgnored => e.source == Upstream
  }

  /** The places of those of the first n entries that meet one fate. */
  function Meeting(entries: seq<Entry>, n: nat, req: Request, fate: Fate): set<nat>
    requires n <= |entries|
  {
    set k: nat | k < n && Meets(entries[k], req, fate)
  }

  lemma OneMoreMeeting(entries: seq<Entry>, n: nat, req: Request, fate: Fate)
    requires n < |entries|
    ensures |Meeting(entries, n + 1, req, fate)| == |Meeting(entries, n, req, fate)| + if Meets(entries[n], req, fate) then 1 else 0
  {
    assert Meeting(entries, n + 1, req, fate) == Meeting(entries, n, req, fate) + if Meets(entries[n], req, fate) then {n} else {};
  }

  /** The counters count the entries that meet each fate, by the archive, the catalog and the strategy alone. */
  lemma CountersAre(entries: seq<Entry>, n: nat, req: Request)
    requires n <= |entries| && |req.sources| + |entries| < MAX_COUNT && PlanOf(entries, n, req).Ok?
    ensures var p := PlanOf(entries, n, req).value;
            && p.created == |Meeting(entries, n, req, IsCreated)| && p.updated == |Meeting(entries, n, req, IsUpdated)|
            && p.skipped == |Meeting(entries, n, req, IsLeft)| && p.ignored == |Meeting(entries, n, req, IsIgnored)|
  {
    CounterIs(entries, n, req, IsCreated);
    CounterIs(entries, n, req, IsUpdated);
    CounterIs(entries, n, req, IsLeft);
    CounterIs(entries, n, req, IsIgnored);
  }

  function Counter(p: Plan, fate: Fate): nat {
    match fate
    case IsCreated => p.created
    case IsUpdated => p.updated
    case IsLeft => p.skipped
    case IsIgnored => p.ignored
  }

  lemma {:induction false} CounterIs(entries: seq<Entry>, n: nat, req: Request, fate: Fate)
    requires n <= |entries| && |req.sources| + |entries| < MAX_COUNT && PlanOf(entries, n, req).Ok?
    ensures Counter(PlanOf(entries, n, req).value, fate) == |Meeting(entries, n, req, fate)|
  {
    if n == 0 {
      assert Meeting(entries, n, req, fate) == {};
    } else {
      CounterIs(entries, n - 1, req, fate);
      EntryCounts(PlanOf(entries, n - 1, req).value, entries[n - 1], req, fate);
      OneMoreMeeting(entries, n - 1, req, fate);
    }
  }

  lemma EntryCounts(p: Plan, e: Entry, req: Request, fate: Fate)
    requires |p.occupied| < MAX_COUNT && PlanEntry(p, e, req).Ok?
    ensures Counter(PlanEntry(p, e, req).value, fate) == Counter(p, fate) + if Meets(e, req, fate) then 1 else 0
  {
  }

  /** What entry k asks to be written, under which id. */
  ghost function WriteFor(entries: seq<Entry>, k: nat, req: Request): Option<Write>
    requires k < |entries| && |req.sources| + |entries| < MAX_COUNT
  {
    if IsFresh(entries[k], req) then Some(Write(entries[k].id, false))
    else if IsRenamed(entries[k], req) then Some(Write(Minted(entries, k, req), false))
    else if IsOverwritten(entries[k], req) then Some(Write(entries[k].id, true))
    else None
  }

  /** Every fresh, renamed or overwritten entry is written, and nothing else is. */
  lemma {:induction false} WritesAre(entries: seq<Entry>, n: nat, req: Request, w: Write)
    requires n <= |entries| && |req.sources| + |entries| < MAX_COUNT && PlanOf(entries, n, req).Ok?
    ensures w in PlanOf(entries, n, req).value.writes <==>
            exists k :: 0 <= k < n && WriteFor(entries, k, req) == Some(w)
  {
    if n > 0 {
      WritesAre(entries, n - 1, req, w);
      EntryWrites(entries, n - 1, req);
    }
  }

  lemma EntryWrites(entries: seq<Entry>, n: nat, req: Request)
    requires n < |entries| && |req.sources| + |entries| < MAX_COUNT && PlanOf(entries, n + 1, req).Ok?
    ensures PlanOf(entries, n, req).Ok?
    ensures var p, q, w := PlanOf(entries, n, req).value, PlanOf(entries, n + 1, req).value, WriteFor(entries, n, req);
            && q.writes == p.writes + (if w.Some? then [w.value] else [])
            && q.renamed == if IsRenamed(entries[n], req) then p.renamed[entries[n].id := Minted(entries, n, req)] else p.renamed
  {
    OccupiedIsTaken(entries, n, req);
    assert PlanOf(entries, n, req).value.writes + [] == PlanOf(entries, n, req).value.writes;
  }

  /** Old id to new id, for exactly the renamed entries. */
  lemma {:induction false} RenamedAre(entries: seq<Entry>, n: nat, req: Request, k: nat)
    requires n <= |entries| && |req.sources| + |entries| < MAX_COUNT && PlanOf(entries, n, req).Ok?
    requires DistinctEntries(entries) && k < n
    ensures var renamed := PlanOf(entries, n, req).value.renamed;
            && (entries[k].id in renamed <==> IsRenamed(entries[k], req))
            && (IsRenamed(entries[k], req) ==> renamed[entries[k].id] == Minted(entries, k, req))
            && renamed.Keys <= Seen(entries, n)
  {
    EntryWrites(entries, n - 1, req);
    NotSeen(entries, n - 1, n - 1);
    if k < n - 1 {
      RenamedAre(entries, n - 1, req, k);
    } else {
      RenamedAreSeen(entries, n - 1, req);
    }
  }

  lemma {:induction false} RenamedAreSeen(entries: seq<Entry>, n: nat, req: Request)
    requires n <= |entries| && |req.sources| + |entries| < MAX_COUNT && PlanOf(entries, n, req).Ok?
    ensures PlanOf(entries, n, req).value.renamed.Keys <= Seen(entries, n)
  {
    if n > 0 {
      RenamedAreSeen(entries, n - 1, req);
      EntryWrites(entries, n - 1, req);
    }
  }

  /** Why entry k is refused, if it is: a broken template, a clash with an upstream one, or an unwritable new id. */
  ghost predicate IsRefused(entries: seq<Entry>, k: nat, req: Request, error: Error)
    requires k < |entries| && |req.sources| + |entries| < MAX_COUNT
  {
    var e := entries[k];
    e.source == Custom &&
    match error
    case BadTemplate => !e.valid
    case Collision =>
      e.valid && e.id in req.sources && req.sources[e.id] == Upstream && req.requireSet && req.strategy in {Skip, Overwrite}
    case BadRename => e.valid && IsRenamed(e, req) && !req.rewrites(e.id, Minted(entries, k, req))
  }

  /** A plan is made exactly when no entry is refused; otherwise the error is that of the first refused one. */
  lemma {:induction false} PlanFailsIff(entries: seq<Entry>, n: nat, req: Request)
    requires n <= |entries| && |req.sources| + |entries| < MAX_COUNT
    ensures PlanOf(entries, n, req).Ok? <==> forall k, error :: 0 <= k < n ==> !IsRefused(entries, k, req, error)
    ensures PlanOf(entries, n, req).Err? ==>
              exists k :: 0 <= k < n && IsRefused(entries, k, req, PlanOf(entries, n, req).error)
                          && forall j, error :: 0 <= j < k ==> !IsRefused(entries, j, req, error)
  {
    if n > 0 {
      PlanFailsIff(entries, n - 1, req);
      if PlanOf(entries, n - 1, req).Ok? {
        EntryFailsIff(entries, n - 1, req);
      }
    }
  }

  lemma EntryFailsIff(entries: seq<Entry>, n: nat, req: Request)
    requires n < |entries| && |req.sources| + |entries| < MAX_COUNT && PlanOf(entries, n, req).Ok?
    ensures PlanOf(entries, n + 1, req).Err? ==> IsRefused(entries, n, req, PlanOf(entries, n + 1, req).error)
    ensures PlanOf(entries, n + 1, req).Ok? ==> forall error :: !IsRefused(entries, n, req, error)
  {
    OccupiedIsTaken(entries, n, req);
  }

  /** It happens: "a" is renamed to "a-imported", which the archive then brings as a template of its own. */
  lemma GeneratedIdWrittenTwice()
    ensures var a: Id := [97];
            var b := Candidate(a, 1);
            var entries := [Entry(a, Custom, true), Entry(b, Custom, true)];
            var req := Request(map[a := Custom], Rename, false, (_, _) => true);
            && DistinctEntries(entries)
            && PlanOf(entries, 2, req).Ok?
            && PlanOf(entries, 2, req).value.writes == [Write(b, false), Write(b, false)]
  {
    var a: Id := [97];
    var b := Candidate(a, 1);
    var entries := [Entry(a, Custom, true), Entry(b, Custom, true)];
    var req := Request(map[a := Custom], Rename, false, (_, _) => true);
    assert |b| > 1;
    assert IsNext(a, {a}, b);
    NextIsUnique(a, {a}, b, NextId(a, {a}));
    assert Started(req).occupied == {a};
    assert PlanOf(entries, 0, req) == Ok(Started(req));
    assert PlanOf(entries, 1, req).value.writes == [Write(b, false)];
    assert PlanOf(entries, 2, req).value.writes == [Write(b, false)] + [Write(b, false)];
  }
}
