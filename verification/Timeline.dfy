/**
 The batch view of one finding's history: replay the scans oldest first and keep the
 first, last and covering scan and the number of mitigation cycles.
 */
module Timeline {
  import opened ScanStates
  import opened Wrappers

  datatype History = History(first: Option<ScanId>, last: Option<ScanId>, covering: Option<ScanId>, times: nat)

  /** The loop state of a replay: what is known so far and the two flags. */
  datatype Replayed = Replayed(history: History, wasPresent: bool, everPresent: bool)

  const START := Replayed(History(None, None, None, 0), false, false)

  function Step(r: Replayed, scan: ScanId, present: bool): Replayed {
    var h := r.history;
    if present then
      Replayed(History(if h.first.None? then Some(scan) else h.first, Some(scan), Some(scan),
                       if r.everPresent && !r.wasPresent then h.times + 1 else h.times), true, true)
    else
      Replayed(h.(covering := Some(scan)), false, r.everPresent)
  }

  /** Replays `scans` in order; only the scans in `covered` count, and those in `present` saw the finding. */
  function Replay(scans: seq<ScanId>, covered: set<ScanId>, present: set<ScanId>): Replayed {
    if scans == [] then START
    else
      var before := Replay(scans[..|scans| - 1], covered, present);
      var scan := scans[|scans| - 1];
      if scan in covered then Step(before, scan, scan in present) else before
  }

  method ComputeLifecycleTimeline(scanIds: seq<ScanId>, covered: ScanId -> bool, occByScan: map<ScanId, nat>)
    returns (first: Option<ScanId>, last: Option<ScanId>, latestOcc: Option<nat>,
             covering: Option<ScanId>, times: nat)
    ensures History(first, last, covering, times)
         == Replay(scanIds, (set s | s in scanIds && covered(s)), occByScan.Keys).history
    ensures latestOcc == if last.Some? && last.value in occByScan then Some(occByScan[last.value]) else None
  {
    ghost var cover := set s | s in scanIds && covered(s);
    first, last, latestOcc, covering, times := None, None, None, None, 0;
    var wasPresent, everPresent := false, false;
    for i := 0 to |scanIds|
      invariant Replayed(History(first, last, covering, times), wasPresent, everPresent)
             == Replay(scanIds[..i], cover, occByScan.Keys)
      invariant latestOcc == if last.Some? && last.value in occByScan then Some(occByScan[last.value]) else None
    {
      var scanId := scanIds[i];
      assert scanIds[..i + 1][..i] == scanIds[..i];
      if !covered(scanId) {
        continue;
      }
      covering := Some(scanId);
      if scanId in occByScan {
        if everPresent && !wasPresent {
          times := times + 1;
        }
        if first.None? {
          first := Some(scanId);
        }
        last := Some(scanId);
        latestOcc := Some(occByScan[scanId]);
        wasPresent, everPresent := true, true;
      } else {
        wasPresent := false;
      }
    }
    assert scanIds[..|scanIds|] == scanIds;
  }

  // ---- What the replay depends on ----

  /** Only the covered scans of the list, and their presence, matter. */
  lemma {:induction false} ReplayCongruence(scans: seq<ScanId>, covered: set<ScanId>, present: set<ScanId>,
                                            covered': set<ScanId>, present': set<ScanId>)
    requires forall s :: s in scans ==> (s in covered <==> s in covered')
    requires forall s :: s in scans && s in covered ==> (s in present <==> s in present')
    ensures Replay(scans, covered, present) == Replay(scans, covered', present')
  {
    if scans != [] {
      ReplayCongruence(scans[..|scans| - 1], covered, present, covered', present');
    }
  }

  lemma {:induction false} ReplayAppend(scans: seq<ScanId>, scan: ScanId, covered: set<ScanId>, present: set<ScanId>)
    ensures var before := Replay(scans, covered, present);
            Replay(scans + [scan], covered, present) ==
            if scan in covered then Step(before, scan, scan in present) else before
  {
    assert (scans + [scan])[..|scans|] == scans;
  }

  /** A scan that does not cover the finding can be removed from the list. */
  lemma {:induction false} ReplayWithoutUncovered(before: seq<ScanId>, scan: ScanId, after: seq<ScanId>,
                                                  covered: set<ScanId>, present: set<ScanId>)
    requires scan !in covered
    ensures Replay(before + [scan] + after, covered, present) == Replay(before + after, covered, present)
  {
    if after == [] {
      assert before + [scan] + after == before + [scan];
      assert before + after == before;
      ReplayAppend(before, scan, covered, present);
    } else {
      var init, z := after[..|after| - 1], after[|after| - 1];
      ReplayWithoutUncovered(before, scan, init, covered, present);
      assert before + [scan] + after == (before + [scan] + init) + [z];
      assert before + after == (before + init) + [z];
      ReplayAppend(before + [scan] + init, z, covered, present);
      ReplayAppend(before + init, z, covered, present);
    }
  }

  /** How the fields of a replay hang together; every pointer is a covered scan of the list. */
  lemma {:induction false} ReplayShape(scans: seq<ScanId>, covered: set<ScanId>, present: set<ScanId>)
    ensures var r := Replay(scans, covered, present); var h := r.history;
            && (r.everPresent <==> h.first.Some?) && (r.everPresent <==> h.last.Some?)
            && (r.everPresent <==> exists s :: s in scans && s in covered && s in present)
            && (r.wasPresent ==> h.last == h.covering && r.everPresent)
            && (!r.everPresent ==> h.times == 0)
            && (h.covering.Some? <==> exists s :: s in scans && s in covered)
            && (h.first.Some? ==> h.first.value in scans && h.first.value in covered && h.first.value in present)
            && (h.last.Some? ==> h.last.value in scans && h.last.value in covered && h.last.value in present)
            && (h.covering.Some? ==> h.covering.value in scans && h.covering.value in covered)
  {
    if scans != [] {
      var init, z := scans[..|scans| - 1], scans[|scans| - 1];
      ReplayShape(init, covered, present);
      assert scans == init + [z];
      assert forall s :: s in scans <==> s in init || s == z;
    }
  }

  /** The scan at this place is covered, and saw the finding. */
  predicate SawAt(scans: seq<ScanId>, covered: set<ScanId>, present: set<ScanId>, i: int) {
    0 <= i < |scans| && scans[i] in covered && scans[i] in present
  }

  /** First and last are those of the covered scans that saw the finding, covering is the last covered one. */
  lemma {:induction false} ReplayPointers(scans: seq<ScanId>, covered: set<ScanId>, present: set<ScanId>, i: nat)
    requires i < |scans|
    ensures var h := Replay(scans, covered, present).history;
            && (SawAt(scans, covered, present, i) && (forall j :: j < i ==> !SawAt(scans, covered, present, j)) ==>
                  h.first == Some(scans[i]))
            && (SawAt(scans, covered, present, i) && (forall j :: i < j ==> !SawAt(scans, covered, present, j)) ==>
                  h.last == Some(scans[i]))
            && (scans[i] in covered && (forall j :: i < j < |scans| ==> scans[j] !in covered) ==>
                  h.covering == Some(scans[i]))
  {
    var init, z := scans[..|scans| - 1], |scans| - 1;
    ReplayShape(init, covered, present);
    assert forall j :: SawAt(init, covered, present, j) <==> j < z && SawAt(scans, covered, present, j);
    assert (exists s :: s in init && s in covered && s in present) <==> exists j :: SawAt(init, covered, present, j) by {
      if s :| s in init && s in covered && s in present {
        var j :| 0 <= j < |init| && init[j] == s;
        assert SawAt(init, covered, present, j);
      }
      if j :| SawAt(init, covered, present, j) {
        assert init[j] in init;
      }
    }
    assert SawAt(scans, covered, present, z) <==> scans[z] in covered && scans[z] in present;
    if i < z {
      ReplayPointers(init, covered, present, i);
    }
  }

  /** With no repeated scan, the last covered scan saw the finding exactly when last and covering agree. */
  lemma {:induction false} ReplayPresence(scans: seq<ScanId>, covered: set<ScanId>, present: set<ScanId>)
    requires forall i, j :: 0 <= i < j < |scans| ==> scans[i] != scans[j]
    ensures var r := Replay(scans, covered, present);
            r.everPresent ==> (r.wasPresent <==> r.history.last == r.history.covering)
  {
    if scans != [] {
      var init, z := scans[..|scans| - 1], scans[|scans| - 1];
      ReplayPresence(init, covered, present);
      ReplayShape(init, covered, present);
      assert z !in init;
    }
  }

  // ---- What the counter counts ----

  /** Presence in the covered scans, oldest first. */
  function Bits(scans: seq<ScanId>, covered: set<ScanId>, present: set<ScanId>): seq<bool> {
    if scans == [] then []
    else
      var before := Bits(scans[..|scans| - 1], covered, present);
      var scan := scans[|scans| - 1];
      if scan in covered then before + [scan in present] else before
  }

  /** [a, b) is a maximal run of absences lying between two presences. */
  ghost predicate IsAbsentRun(bits: seq<bool>, a: nat, b: nat) {
    0 < a < b < |bits| && bits[a - 1] && bits[b] && forall i :: a <= i < b ==> !bits[i]
  }

  ghost function AbsentRuns(bits: seq<bool>): set<(nat, nat)> {
    set a: nat, b: nat | 0 < a < |bits| && 0 < b < |bits| && IsAbsentRun(bits, a, b) :: (a, b)
  }

  /** The first index after the last presence. */
  ghost function TailStart(bits: seq<bool>): (a: nat)
    ensures a <= |bits|
    ensures forall i :: a <= i < |bits| ==> !bits[i]
    ensures a > 0 ==> bits[a - 1]
  {
    if bits == [] then 0 else if bits[|bits| - 1] then |bits| else TailStart(bits[..|bits| - 1])
  }

  lemma AbsentRunAppend(bits: seq<bool>, bit: bool, a: nat, b: nat)
    ensures IsAbsentRun(bits + [bit], a, b) <==>
            IsAbsentRun(bits, a, b) || (bit && b == |bits| && 0 < a < b && a == TailStart(bits))
  {
    var more := bits + [bit];
    assert forall i :: 0 <= i < |bits| ==> more[i] == bits[i];
  }

  lemma AbsentRunMember(bits: seq<bool>, p: (nat, nat))
    ensures p in AbsentRuns(bits) <==> IsAbsentRun(bits, p.0, p.1)
  {
    if IsAbsentRun(bits, p.0, p.1) {
      assert (p.0, p.1) in AbsentRuns(bits);
    }
  }

  lemma AbsentRunMemberAppend(bits: seq<bool>, bit: bool, p: (nat, nat))
    ensures p in AbsentRuns(bits + [bit]) <==>
            p in AbsentRuns(bits) || (bit && 0 < TailStart(bits) < |bits| && p == (TailStart(bits), |bits|))
    ensures p in AbsentRuns(bits) ==> p.1 < |bits|
  {
    AbsentRunMember(bits, p);
    AbsentRunMember(bits + [bit], p);
    AbsentRunAppend(bits, bit, p.0, p.1);
  }

  lemma AddOne<T(!new)>(before: set<T>, after: set<T>, grows: bool, x: T)
    requires x !in before && forall p :: p in after <==> p in before || (grows && p == x)
    ensures |after| == |before| + (if grows then 1 else 0)
  {
    assert after == before + (if grows then {x} else {});
  }

  lemma AbsentRunsAppend(bits: seq<bool>, bit: bool)
    ensures |AbsentRuns(bits + [bit])| ==
            |AbsentRuns(bits)| + (if bit && 0 < TailStart(bits) < |bits| then 1 else 0)
  {
    forall p: (nat, nat) {
      AbsentRunMemberAppend(bits, bit, p);
    }
    AddOne(AbsentRuns(bits), AbsentRuns(bits + [bit]), bit && 0 < TailStart(bits) < |bits|, (TailStart(bits), |bits|));
  }

  /** times_mitigated is the number of maximal covered-absent runs between two covered-present scans. */
  lemma {:induction false} TimesCountsAbsentRuns(scans: seq<ScanId>, covered: set<ScanId>, present: set<ScanId>)
    ensures var r, bits := Replay(scans, covered, present), Bits(scans, covered, present);
            && r.history.times == |AbsentRuns(bits)|
            && (r.everPresent <==> TailStart(bits) > 0)
            && (r.wasPresent <==> bits != [] && TailStart(bits) == |bits|)
  {
    if scans == [] {
      assert AbsentRuns([]) == {};
    } else {
      var init, z := scans[..|scans| - 1], scans[|scans| - 1];
      TimesCountsAbsentRuns(init, covered, present);
      if z in covered {
        var bits := Bits(init, covered, present);
        AbsentRunsAppend(bits, z in present);
        assert (bits + [z in present])[..|bits|] == bits;
      }
    }
  }

  /** The number of returns seen from a given loop state. */
  function Returns(ever: bool, was: bool, bits: seq<bool>): nat
    decreases bits
  {
    if bits == [] then 0
    else if bits[0] then (if ever && !was then 1 else 0) + Returns(true, true, bits[1..])
    else Returns(ever, false, bits[1..])
  }

  lemma {:induction false} ReturnsFromAnyState(bits: seq<bool>)
    ensures Returns(true, true, bits) <= Returns(true, false, bits) <= Returns(true, true, bits) + 1
    ensures Returns(false, false, bits) <= Returns(true, true, bits) <= Returns(false, false, bits) + 1
    ensures Returns(true, false, bits) <= Returns(false, false, bits) + 1
    ensures Returns(false, false, bits) <= Returns(true, false, bits)
  {
    if bits != [] {
      ReturnsFromAnyState(bits[1..]);
    }
  }

  lemma {:induction false} RemovingOneBit(ever: bool, was: bool, bits: seq<bool>, k: nat)
    requires k < |bits|
    requires was ==> ever
    ensures var rest := bits[..k] + bits[k + 1..];
            Returns(ever, was, rest) <= Returns(ever, was, bits) <= Returns(ever, was, rest) + 1
    decreases bits
  {
    var rest := bits[..k] + bits[k + 1..];
    if k == 0 {
      assert rest == bits[1..];
      ReturnsFromAnyState(bits[1..]);
    } else {
      assert rest[1..] == bits[1..][..k - 1] + bits[1..][k..];
      assert rest[0] == bits[0];
      RemovingOneBit(if bits[0] then true else ever, bits[0], bits[1..], k - 1);
    }
  }

  lemma {:induction false} ReturnsAppend(ever: bool, was: bool, bits: seq<bool>, bit: bool)
    requires was ==> ever
    ensures Returns(ever, was, bits + [bit]) ==
            Returns(ever, was, bits) +
            (if bit && (if bits == [] then ever && !was else !bits[|bits| - 1] && (ever || true in bits)) then 1 else 0)
    decreases bits
  {
    if bits == [] {
      assert (bits + [bit])[1..] == [];
    } else {
      assert (bits + [bit])[1..] == bits[1..] + [bit];
      ReturnsAppend(if bits[0] then true else ever, bits[0], bits[1..], bit);
      assert bits == [bits[0]] + bits[1..];
    }
  }

  lemma {:induction false} TimesIsReturns(scans: seq<ScanId>, covered: set<ScanId>, present: set<ScanId>)
    ensures var r, bits := Replay(scans, covered, present), Bits(scans, covered, present);
            && r.history.times == Returns(false, false, bits)
            && (r.everPresent <==> true in bits)
            && (r.wasPresent <==> bits != [] && bits[|bits| - 1])
  {
    if scans != [] {
      var init, z := scans[..|scans| - 1], scans[|scans| - 1];
      TimesIsReturns(init, covered, present);
      if z in covered {
        ReturnsAppend(false, false, Bits(init, covered, present), z in present);
      }
    }
  }

  lemma {:induction false} BitsSplit(before: seq<ScanId>, after: seq<ScanId>, covered: set<ScanId>, present: set<ScanId>)
    ensures Bits(before + after, covered, present) == Bits(before, covered, present) + Bits(after, covered, present)
  {
    if after == [] {
      assert before + after == before;
    } else {
      var init, z := after[..|after| - 1], after[|after| - 1];
      BitsSplit(before, init, covered, present);
      assert (before + after)[..|before + after| - 1] == before + init;
    }
  }

  /** Removing one scan, the coverage of the others unchanged, keeps the count or lowers it by one. */
  lemma RemovingOneScan(before: seq<ScanId>, scan: ScanId, after: seq<ScanId>,
                        covered: set<ScanId>, present: set<ScanId>)
    ensures var all := Replay(before + [scan] + after, covered, present).history.times;
            var rest := Replay(before + after, covered, present).history.times;
            rest <= all <= rest + 1
  {
    TimesIsReturns(before + [scan] + after, covered, present);
    TimesIsReturns(before + after, covered, present);
    BitsSplit(before, after, covered, present);
    BitsSplit(before + [scan], after, covered, present);
    BitsSplit(before, [scan], covered, present);
    if scan in covered {
      var b, a := Bits(before, covered, present), Bits(after, covered, present);
      assert Bits([scan], covered, present) == [scan in present];
      var bits := Bits(before + [scan] + after, covered, present);
      assert bits[..|b|] + bits[|b| + 1..] == b + a;
      RemovingOneBit(false, false, bits, |b|);
    } else {
      assert Bits([scan], covered, present) == [];
    }
  }

  // ---- Extra coverage that does not matter ----

  /** Scans that cover the finding without seeing it, before it was ever seen, do not matter. */
  lemma {:induction false} EarlyAbsencesDoNotMatter(scans: seq<ScanId>, covered: set<ScanId>, more: set<ScanId>,
                                                    present: set<ScanId>, n: nat)
    requires n <= |scans| && covered <= more
    requires forall i :: 0 <= i < n ==> scans[i] !in covered || scans[i] !in present
    requires forall i :: 0 <= i < n ==> scans[i] !in more || scans[i] !in present
    requires forall i :: n <= i < |scans| ==> (scans[i] in more <==> scans[i] in covered)
    requires n < |scans| ==> scans[n] in covered && scans[n] in present
    ensures var r, r' := Replay(scans, covered, present), Replay(scans, more, present);
            if n < |scans| then
              r == r'
            else
              && r.history.(covering := None) == r'.history.(covering := None) == START.history
              && !r.everPresent && !r'.everPresent && !r.wasPresent && !r'.wasPresent
    decreases |scans|
  {
    if scans != [] {
      var init := scans[..|scans| - 1];
      EarlyAbsencesDoNotMatter(init, covered, more, present, if n <= |init| then n else |init|);
    }
  }
}
