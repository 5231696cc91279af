/**
 What extra coverage does to a replay that ends in an observation: an added absence counts a mitigation
 cycle exactly when it falls between two presences that had no covered absence between them.
 */
module TimelineGaps {
  import opened ScanStates
  import opened Wrappers
  import opened Timeline

  /** The scans of a list, those that cover without the extra ones, those that cover with them, and those that saw. */
  datatype Lists = Lists(scans: seq<ScanId>, covered: set<ScanId>, more: set<ScanId>, present: set<ScanId>) {
    /** Extra coverage only adds absences; what saw the finding covers it. */
    ghost predicate Valid() {
      && (forall i :: 0 <= i < |scans| && scans[i] in covered ==> scans[i] in more)
      && (forall i :: 0 <= i < |scans| && scans[i] in present ==> scans[i] in covered)
    }

    function Old(): Replayed {
      Replay(scans, covered, present)
    }

    function New(): Replayed {
      Replay(scans, more, present)
    }

    function Init(): Lists
      requires scans != []
    {
      Lists(scans[..|scans| - 1], covered, more, present)
    }

    ghost predicate Present(i: int) {
      0 <= i < |scans| && scans[i] in present
    }

    ghost predicate Absent(i: int) {
      0 <= i < |scans| && scans[i] in covered && scans[i] !in present
    }

    ghost predicate Extra(i: int) {
      0 <= i < |scans| && scans[i] in more && scans[i] !in covered
    }

    /** No presence strictly between the two places. */
    ghost predicate SameGap(i: int, k: int) {
      forall m :: (i < m < k || k < m < i) ==> !Present(m)
    }

    ghost predicate Filled(i: int) {
      exists k :: Absent(k) && SameGap(i, k)
    }

    ghost predicate SeenBefore(i: int) {
      exists j :: j < i && Present(j)
    }

    ghost predicate SeenAfter(i: int) {
      exists j :: i < j && Present(j)
    }

    /** An extra absence after a presence, in a gap without an absence of its own. */
    ghost predicate Unfilled(i: int) {
      Extra(i) && SeenBefore(i) && !Filled(i)
    }
  }

  /** The counter once one more presence has ended the last gap. */
  function Ended(r: Replayed): nat {
    r.history.times + if r.everPresent && !r.wasPresent then 1 else 0
  }

  // ---- One scan more ----

  lemma SameBefore(l: Lists, i: int)
    requires l.scans != [] && i < |l.scans| - 1
    ensures l.Present(i) <==> l.Init().Present(i)
    ensures l.Absent(i) <==> l.Init().Absent(i)
    ensures l.Extra(i) <==> l.Init().Extra(i)
    ensures l.SeenBefore(i) <==> l.Init().SeenBefore(i)
  {
    assert forall j :: j < |l.scans| - 1 ==> (l.Present(j) <==> l.Init().Present(j));
  }

  lemma AfterOneMore(l: Lists, i: int)
    requires l.scans != [] && i < |l.scans| - 1
    ensures l.SeenAfter(i) <==> l.Init().SeenAfter(i) || l.Present(|l.scans| - 1)
  {
    var z := |l.scans| - 1;
    assert forall j :: j < z ==> (l.Present(j) <==> l.Init().Present(j));
    if l.SeenAfter(i) && !l.Present(z) {
      var j :| i < j && l.Present(j);
      assert l.Init().Present(j);
    }
  }

  lemma GapOneMore(l: Lists, i: int, k: int)
    requires l.scans != [] && i < |l.scans| - 1 && k < |l.scans| - 1
    ensures l.SameGap(i, k) <==> l.Init().SameGap(i, k)
  {
    assert forall m :: m < |l.scans| - 1 ==> (l.Present(m) <==> l.Init().Present(m));
  }

  /** A gap is filled by an earlier absence, or by the last scan when it is one and the gap is still open. */
  lemma FilledOneMore(l: Lists, i: int)
    requires l.scans != [] && 0 <= i < |l.scans| - 1
    ensures l.Filled(i) <==> l.Init().Filled(i) || (l.Absent(|l.scans| - 1) && !l.Init().SeenAfter(i))
  {
    var init, z := l.Init(), |l.scans| - 1;
    assert forall m :: m < z ==> (l.Present(m) <==> init.Present(m)) && (l.Absent(m) <==> init.Absent(m));
    if init.Filled(i) {
      var k :| init.Absent(k) && init.SameGap(i, k);
      GapOneMore(l, i, k);
      assert l.Absent(k);
    }
    if l.Absent(z) && !init.SeenAfter(i) {
      assert l.SameGap(i, z);
    }
    if l.Filled(i) {
      var k :| l.Absent(k) && l.SameGap(i, k);
      if k < z {
        GapOneMore(l, i, k);
      }
    }
  }

  lemma UnfilledOneMore(l: Lists, i: int)
    requires l.scans != [] && 0 <= i < |l.scans| - 1
    ensures l.Unfilled(i) <==> l.Init().Unfilled(i) && !(l.Absent(|l.scans| - 1) && !l.Init().SeenAfter(i))
  {
    SameBefore(l, i);
    FilledOneMore(l, i);
  }

  // ---- What the flags say ----

  /** Some covered absence lies after the last presence. */
  ghost predicate EndsAbsent(l: Lists) {
    exists k :: l.Absent(k) && !l.SeenAfter(k)
  }

  lemma {:induction false} FlagsSay(l: Lists)
    requires l.Valid()
    ensures l.Old().everPresent <==> l.SeenBefore(|l.scans|)
    ensures l.Old().everPresent == l.New().everPresent
    ensures l.Old().everPresent ==> (EndsAbsent(l) <==> !l.Old().wasPresent)
    ensures l.New().wasPresent ==> l.Old().wasPresent
    decreases |l.scans|
  {
    if l.scans != [] {
      var init, z := l.Init(), |l.scans| - 1;
      FlagsSay(init);
      assert init.SeenBefore(z) || l.Present(z) <==> l.SeenBefore(z + 1) by {
        assert forall j :: j < z ==> (l.Present(j) <==> init.Present(j));
      }
      EndsAbsentOneMore(l);
    }
  }

  lemma EndsAbsentOneMore(l: Lists)
    requires l.scans != [] && l.Valid()
    ensures EndsAbsent(l) <==> l.Absent(|l.scans| - 1) || (EndsAbsent(l.Init()) && !l.Present(|l.scans| - 1))
  {
    var init, z := l.Init(), |l.scans| - 1;
    if l.Absent(z) {
      assert !l.SeenAfter(z);
    }
    forall k | k < z
      ensures l.Absent(k) <==> init.Absent(k)
      ensures l.SeenAfter(k) <==> init.SeenAfter(k) || l.Present(z)
    {
      SameBefore(l, k);
      AfterOneMore(l, k);
    }
  }

  /** The last scan as an extra absence: its gap is filled exactly when the replay already ends absent. */
  lemma LastUnfilled(l: Lists)
    requires l.scans != [] && l.Valid() && l.Extra(|l.scans| - 1)
    ensures l.Unfilled(|l.scans| - 1) <==> l.Init().Old().everPresent && l.Init().Old().wasPresent
  {
    FlagsSay(l.Init());
    LastIsSeenBefore(l);
    LastIsFilledIff(l);
  }

  lemma LastIsSeenBefore(l: Lists)
    requires l.scans != [] && l.Valid()
    ensures l.SeenBefore(|l.scans| - 1) <==> l.Init().SeenBefore(|l.scans| - 1)
  {
    forall k | k < |l.scans| - 1
      ensures l.Present(k) <==> l.Init().Present(k)
    {
      SameBefore(l, k);
    }
  }

  lemma LastIsFilledIff(l: Lists)
    requires l.scans != [] && l.Valid() && l.Extra(|l.scans| - 1)
    ensures l.Filled(|l.scans| - 1) <==> EndsAbsent(l.Init())
  {
    var init, z := l.Init(), |l.scans| - 1;
    forall k | k < z
      ensures l.Absent(k) <==> init.Absent(k)
      ensures l.SameGap(z, k) <==> !init.SeenAfter(k)
    {
      SameBefore(l, k);
      GapToEnd(l, k);
    }
  }

  lemma GapToEnd(l: Lists, k: int)
    requires l.scans != [] && k < |l.scans| - 1
    ensures l.SameGap(|l.scans| - 1, k) <==> !l.Init().SeenAfter(k)
  {
    assert forall m :: m < |l.scans| - 1 ==> (l.Present(m) <==> l.Init().Present(m));
    assert forall m :: m >= |l.scans| - 1 ==> !l.Init().Present(m);
  }

  // ---- Counting ----

  ghost predicate ClosedUnfilled(l: Lists) {
    exists i :: l.Unfilled(i) && l.SeenAfter(i)
  }

  ghost predicate OpenUnfilled(l: Lists) {
    exists i :: l.Unfilled(i) && !l.SeenAfter(i)
  }

  lemma {:induction false} UnfilledCounts(l: Lists)
    requires l.Valid()
    ensures l.Old().history.times <= l.New().history.times
    ensures l.Old().history.times == l.New().history.times <==> !ClosedUnfilled(l)
    ensures OpenUnfilled(l) <==> l.Old().everPresent && l.Old().wasPresent && !l.New().wasPresent
    decreases |l.scans|
  {
    if l.scans != [] {
      var init, z := l.Init(), |l.scans| - 1;
      UnfilledCounts(init);
      FlagsSay(init);
      if l.Extra(z) {
        LastUnfilled(l);
      }
      OneMoreUnfilled(l);
    }
  }

  /** How the last scan moves the unfilled places between the open gap and the closed ones. */
  lemma OneMoreUnfilled(l: Lists)
    requires l.scans != [] && l.Valid()
    ensures var init, z := l.Init(), |l.scans| - 1;
            && (ClosedUnfilled(l) <==> ClosedUnfilled(init) || (l.Present(z) && OpenUnfilled(init)))
            && (OpenUnfilled(l) <==> (!l.Present(z) && !l.Absent(z) && OpenUnfilled(init)) || l.Unfilled(z))
  {
    var init, z := l.Init(), |l.scans| - 1;
    assert !l.SeenAfter(z);
    assert l.Present(z) ==> !l.Extra(z) && !l.Absent(z);
    assert l.Absent(z) ==> !l.Extra(z);
    forall i | 0 <= i < z
      ensures l.Unfilled(i) <==> init.Unfilled(i) && !(l.Absent(z) && !init.SeenAfter(i))
      ensures l.SeenAfter(i) <==> init.SeenAfter(i) || l.Present(z)
    {
      UnfilledOneMore(l, i);
      AfterOneMore(l, i);
    }
  }

  /**
   With one more presence at the end, the extra coverage leaves the counter as it was exactly when every
   extra absence after a presence falls into a gap that already holds an absence; otherwise it raises it.
   */
  lemma ExtraAbsencesCountIff(l: Lists)
    requires l.Valid()
    ensures Ended(l.Old()) <= Ended(l.New())
    ensures Ended(l.Old()) == Ended(l.New()) <==> forall i :: !l.Unfilled(i)
    ensures l.Old().everPresent == l.New().everPresent
  {
    UnfilledCounts(l);
    FlagsSay(l);
    assert (exists i :: l.Unfilled(i)) <==> ClosedUnfilled(l) || OpenUnfilled(l);
  }

  /** Extra absences never move the first and last observation. */
  lemma {:induction false} ExtraAbsencesKeepPointers(l: Lists)
    requires l.Valid()
    ensures l.Old().history.first == l.New().history.first && l.Old().history.last == l.New().history.last
    decreases |l.scans|
  {
    if l.scans != [] {
      ExtraAbsencesKeepPointers(l.Init());
    }
  }
}
