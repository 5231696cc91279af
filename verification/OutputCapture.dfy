/**
 Bounded capture of a subprocess's output: a line framer that keeps the tail of each line, and a ring
 buffer that keeps the tail of everything.
 */
module OutputCapture {
  import opened ByteStrings

  const LIMIT := 0x1_0000

  /** The last n bytes of s, or all of it. */
  function Suffix(s: Bytes, n: nat): (r: Bytes)
    ensures |r| == if n <= |s| then n else |s|
  {
    if n == 0 || s == [] then [] else Suffix(s[..|s| - 1], n - 1) + [s[|s| - 1]]
  }

  /** The bytes retained of s: at most LIMIT of them, from its end. */
  function Last(s: Bytes): (r: Bytes)
    ensures |r| == if |s| <= 0x1_0000 then |s| else 0x1_0000
  {
    Suffix(s, LIMIT)
  }

  lemma LastByteCut(s: Bytes, m: nat)
    requires m < |s|
    ensures s[m..] == s[..|s| - 1][m..] + [s[|s| - 1]]
  {
    var t := s[..|s| - 1][m..] + [s[|s| - 1]];
    assert |t| == |s| - m;
    assert forall k :: 0 <= k < |t| ==> t[k] == s[m + k];
  }

  lemma {:induction false} SuffixIsSlice(s: Bytes, n: nat)
    ensures Suffix(s, n) == if n <= |s| then s[|s| - n..] else s
  {
    if n > 0 && s != [] {
      SuffixIsSlice(s[..|s| - 1], n - 1);
      if n <= |s| {
        LastByteCut(s, |s| - n);
      } else {
        LastByteCut(s, 0);
      }
    }
  }

  lemma {:induction false} SuffixAt(s: Bytes, n: nat, k: nat)
    requires k < |Suffix(s, n)|
    ensures Suffix(s, n)[k] == s[|s| - |Suffix(s, n)| + k]
  {
    SuffixIsSlice(s, n);
  }

  lemma SameByte(s: Bytes, t: Bytes, more: Bytes, n: nat, k: nat)
    requires t == Suffix(s, n) && k < |Suffix(t + more, n)|
    ensures Suffix(t + more, n)[k] == Suffix(s + more, n)[k]
  {
    SuffixAt(t + more, n, k);
    SuffixAt(s + more, n, k);
    var j := |t| + |more| - |Suffix(t + more, n)| + k;
    if j < |t| {
      SuffixAt(s, n, j);
    }
  }

  lemma SuffixOfSuffix(s: Bytes, more: Bytes, n: nat)
    ensures Suffix(Suffix(s, n) + more, n) == Suffix(s + more, n)
  {
    var t := Suffix(s, n);
    forall k | 0 <= k < |Suffix(t + more, n)|
      ensures Suffix(t + more, n)[k] == Suffix(s + more, n)[k]
    {
      SameByte(s, t, more, n, k);
    }
  }

  /** Cutting early loses nothing that cutting late would keep. */
  lemma LastOfLast(s: Bytes, more: Bytes)
    ensures Last(Last(s) + more) == Last(s + more)
  {
    SuffixOfSuffix(s, more, LIMIT);
  }

  /** What a bounded tail keeps when more arrives. */
  lemma LastOfBoth(s: Bytes, p: Bytes)
    requires |s| <= LIMIT
    ensures |p| >= LIMIT ==> Last(s + p) == p[|p| - LIMIT..]
    ensures |p| < LIMIT < |s| + |p| ==> Last(s + p) == s[|s| + |p| - LIMIT..] + p
    ensures |s| + |p| <= LIMIT ==> Last(s + p) == s + p
  {
    SuffixIsSlice(s + p, LIMIT);
    SliceOfBoth(s, p);
  }

  lemma SliceOfBoth(s: Bytes, p: Bytes)
    ensures |p| >= LIMIT ==> (s + p)[|s + p| - LIMIT..] == p[|p| - LIMIT..]
    ensures |p| < LIMIT < |s| + |p| && |s| <= LIMIT ==> (s + p)[|s + p| - LIMIT..] == s[|s| + |p| - LIMIT..] + p
  {
  }

  // ---- Line framing ----

  /**
   The writer behind the subprocess's standard error. Lines that parse as statistics update the
   progress; every other line is forwarded. `written` is everything written so far.
   */
  class StatsWriter {
    var buf: Bytes
    var progress: seq<Bytes>
    var errOut: Bytes
    const isStats: Bytes -> bool
    ghost var handled: seq<Bytes>
    ghost var written: Bytes

    ghost predicate Valid()
      reads this
    {
      && handled == Tails(Lines(written)) && buf == Last(Pending(written))
      && Sorted(handled)
    }

    /** Every handled line has gone where it belongs. */
    ghost predicate Sorted(lines: seq<Bytes>)
      reads this`progress, this`errOut
    {
      progress == Stats(lines, isStats) && errOut == Forwarded(lines, isStats)
    }

    constructor (isStats: Bytes -> bool)
      ensures Valid() && written == [] && this.isStats == isStats
    {
      buf, progress, errOut, handled, written := [], [], [], [], [];
      this.isStats := isStats;
    }

    /** Keeps only the tail of a partial line. */
    method AppendPendingLine(p: Bytes)
      requires |buf| <= LIMIT
      modifies this`buf
      ensures buf == Last(old(buf) + p)
    {
      LastOfBoth(buf, p);
      if |p| >= LIMIT {
        buf := p[|p| - LIMIT..];
        return;
      }
      var overflow := |buf| + |p| - LIMIT;
      if overflow > 0 {
        buf := buf[overflow..];
      }
      buf := buf + p;
    }

    method HandleLine()
      requires Sorted(handled)
      modifies this`handled, this`progress, this`errOut
      ensures handled == old(handled) + [buf] && Sorted(handled)
    {
      OneMoreHandled(handled, buf, isStats);
      if isStats(buf) {
        progress := progress + [buf];
      } else {
        errOut := errOut + (buf + [NEWLINE]);
      }
      handled := handled + [buf];
    }

    method WritePartial(p: Bytes)
      requires Valid() && NEWLINE !in p
      modifies this
      ensures Valid() && written == old(written) + p
    {
      PendingGrows(written, p);
      LastOfLast(Pending(written), p);
      AppendPendingLine(p);
      written := written + p;
    }

    method EndLine()
      requires Valid()
      modifies this
      ensures Valid() && written == old(written) + [NEWLINE]
    {
      TailsAfterNewline(written);
      HandleLine();
      buf, written := [], written + [NEWLINE];
    }

    method WriteLine(p: Bytes)
      requires Valid() && NEWLINE !in p
      modifies this
      ensures Valid() && written == old(written) + (p + [NEWLINE])
    {
      Regroup(written, p, [NEWLINE]);
      WritePartial(p);
      EndLine();
    }

    method Write(data: Bytes)
      requires Valid()
      modifies this
      ensures Valid() && written == old(written) + data
    {
      var p := data;
      ghost var done: Bytes := [];
      while p != []
        invariant Valid() && data == done + p && written == old(written) + done
        decreases |p|
      {
        var i := Find(NEWLINE, p);
        if i == |p| {
          assert p[..i] == p;
          Regroup(old(written), done, p);
          WritePartial(p);
          return;
        }
        FirstLine(p, i);
        Regroup(old(written), done, p[..i] + [NEWLINE]);
        WriteLine(p[..i]);
        Regroup(done, p[..i] + [NEWLINE], p[i + 1..]);
        done := done + (p[..i] + [NEWLINE]);
        p := p[i + 1..];
      }
      assert done == data;
    }

    /** At the end of the scan the unfinished last line counts as a line. */
    method Flush()
      requires Valid()
      modifies this
      ensures Sorted(Handed(written)) && written == old(written)
    {
      ghost var pending := Pending(written);
      assert buf == [] <==> pending == [];
      if buf != [] {
        HandleLine();
        buf := [];
      }
      assert Handed(written) == handled;
    }
  }

  /** The statistics lines, in order. */
  function Stats(lines: seq<Bytes>, isStats: Bytes -> bool): seq<Bytes> {
    if lines == [] then []
    else
      var last := lines[|lines| - 1];
      Stats(lines[..|lines| - 1], isStats) + if isStats(last) then [last] else []
  }

  /** All the other lines, each with a newline of its own. */
  function Forwarded(lines: seq<Bytes>, isStats: Bytes -> bool): Bytes {
    if lines == [] then []
    else
      var last := lines[|lines| - 1];
      Forwarded(lines[..|lines| - 1], isStats) + if isStats(last) then [] else last + [NEWLINE]
  }

  lemma OneMoreHandled(lines: seq<Bytes>, last: Bytes, isStats: Bytes -> bool)
    ensures Stats(lines + [last], isStats) == if isStats(last) then Stats(lines, isStats) + [last] else Stats(lines, isStats)
    ensures Forwarded(lines + [last], isStats) ==
            if isStats(last) then Forwarded(lines, isStats) else Forwarded(lines, isStats) + (last + [NEWLINE])
  {
    assert (lines + [last])[..|lines|] == lines;
  }

  /** The lines handed on for an output: the tails of its newline split, and of an unfinished last line. */
  function Handed(output: Bytes): seq<Bytes> {
    Tails(Lines(output)) + if Pending(output) == [] then [] else [Last(Pending(output))]
  }

  function Tails(lines: seq<Bytes>): (r: seq<Bytes>)
    ensures |r| == |lines| && forall i :: 0 <= i < |r| ==> r[i] == Last(lines[i])
  {
    if lines == [] then [] else [Last(lines[0])] + Tails(lines[1..])
  }

  lemma {:induction false} TailsOfMore(lines: seq<Bytes>, last: Bytes)
    ensures Tails(lines + [last]) == Tails(lines) + [Last(last)]
  {
    if lines == [] {
      assert [last][1..] == [];
    } else {
      TailsOfMore(lines[1..], last);
      assert (lines + [last])[1..] == lines[1..] + [last];
    }
  }

  lemma TailsAfterNewline(data: Bytes)
    ensures Tails(Lines(data + [NEWLINE])) == Tails(Lines(data)) + [Last(Pending(data))]
    ensures Last(Pending(data + [NEWLINE])) == []
  {
    NewlineEndsPending(data);
    TailsOfMore(Lines(data), Pending(data));
  }

  /** Spelled out: the tail of each line in order, and of what follows the last newline if anything does. */
  lemma HandedIs(lines: seq<Bytes>, rest: Bytes)
    requires 10 !in rest && forall i :: 0 <= i < |lines| ==> 10 !in lines[i]
    ensures AreTails(Handed(Rejoined(lines) + rest), if rest == [] then lines else lines + [rest])
  {
    JoinedSplits(lines, rest);
    HandedOf(Rejoined(lines) + rest, lines, rest);
  }

  ghost predicate AreTails(tails: seq<Bytes>, lines: seq<Bytes>) {
    |tails| == |lines| &&
    forall i :: 0 <= i < |lines| ==>
      tails[i] == if |lines[i]| <= 64 * 1024 then lines[i] else lines[i][|lines[i]| - 64 * 1024..]
  }

  lemma HandedOf(output: Bytes, lines: seq<Bytes>, rest: Bytes)
    requires Lines(output) == lines && Pending(output) == rest
    ensures AreTails(Handed(output), if rest == [] then lines else lines + [rest])
  {
    TailsAre(lines, Tails(lines));
    LastIs(rest, Last(rest));
    OneMoreTail(lines, Tails(lines), rest, Last(rest));
    assert Tails(lines) + [] == Tails(lines);
  }

  lemma TailsAre(lines: seq<Bytes>, tails: seq<Bytes>)
    requires tails == Tails(lines)
    ensures AreTails(tails, lines)
  {
    forall i | 0 <= i < |lines|
      ensures tails[i] == if |lines[i]| <= 64 * 1024 then lines[i] else lines[i][|lines[i]| - 64 * 1024..]
    {
      LastIs(lines[i], tails[i]);
    }
  }

  lemma OneMoreTail(lines: seq<Bytes>, tails: seq<Bytes>, rest: Bytes, last: Bytes)
    requires AreTails(tails, lines) && last == if |rest| <= 64 * 1024 then rest else rest[|rest| - 64 * 1024..]
    ensures AreTails(tails + [last], lines + [rest])
  {
  }

  lemma LastIs(s: Bytes, last: Bytes)
    requires last == Last(s)
    ensures last == if |s| <= 64 * 1024 then s else s[|s| - 64 * 1024..]
  {
    SuffixIsSlice(s, LIMIT);
  }

  function Concatenated(chunks: seq<Bytes>): Bytes {
    if chunks == [] then [] else Concatenated(chunks[..|chunks| - 1]) + chunks[|chunks| - 1]
  }

  /** Whatever chunks the output arrives in, the same lines are handed on. */
  method WriteAll(chunks: seq<Bytes>, isStats: Bytes -> bool) returns (progress: seq<Bytes>, errOut: Bytes)
    ensures progress == Stats(Handed(Concatenated(chunks)), isStats)
    ensures errOut == Forwarded(Handed(Concatenated(chunks)), isStats)
  {
    var w := new StatsWriter(isStats);
    for i := 0 to |chunks|
      invariant fresh(w) && w.Valid() && w.isStats == isStats && w.written == Concatenated(chunks[..i])
    {
      assert chunks[..i + 1][..i] == chunks[..i];
      w.Write(chunks[i]);
    }
    assert chunks[..|chunks|] == chunks;
    w.Flush();
    return w.progress, w.errOut;
  }

  // ---- The ring buffer ----

  /** Where the k-th byte from `start` is stored. */
  function Slot(start: nat, k: nat): nat {
    if start + k < LIMIT then start + k else start + k - LIMIT
  }

  lemma SlotIsModular(start: nat, k: nat)
    requires start < LIMIT && k <= LIMIT
    ensures Slot(start, k) == (start + k) % LIMIT < LIMIT
  {
  }

  method Copy(dst: array<byte>, at: nat, src: Bytes)
    requires at + |src| <= dst.Length
    modifies dst
    ensures forall i :: 0 <= i < dst.Length ==> dst[i] == if at <= i < at + |src| then src[i - at] else old(dst[i])
  {
    forall k | 0 <= k < |src| {
      dst[at + k] := src[k];
    }
  }

  class CappedBuffer {
    var buf: array<byte>
    var start: nat
    var length: nat
    var truncated: bool
    ghost var written: Bytes

    ghost predicate Valid()
      reads this, buf
    {
      && (truncated <==> |written| > 64 * 1024)
      && ((IsUnallocated() && written == []) || Retains(Last(written)))
    }

    ghost predicate IsUnallocated()
      reads this
    {
      buf.Length == 0 && start == 0 && length == 0
    }

    constructor ()
      ensures Valid() && written == [] && fresh(buf)
    {
      buf := new byte[0];
      start, length, truncated, written := 0, 0, false, [];
    }

    /** The ring has been allocated and holds exactly s. */
    ghost predicate Retains(s: Bytes)
      requires |s| <= LIMIT
      reads this`buf, this`start, this`length, buf
    {
      buf.Length == LIMIT && start < LIMIT && length == |s| && Holds(buf[..], start, s)
    }

    method DropOldest(n: nat, ghost s: Bytes)
      requires n <= |s| <= LIMIT && Retains(s)
      modifies this`start, this`length
      ensures Retains(s[n..])
    {
      Advanced(buf[..], start, s, n);
      SlotIsModular(start, n);
      start := (start + n) % LIMIT;
      length := length - n;
    }

    /** Copies p to the ring from `index` on, round its end. */
    method CopyRound(p: Bytes, index: nat)
      requires buf.Length == LIMIT && index < LIMIT && |p| <= LIMIT
      modifies buf
      ensures WrittenAt(old(buf[..]), buf[..], index, p)
    {
      var first := buf.Length - index;
      if first > |p| {
        first := |p|;
      }
      ghost var before := buf[..];
      Copy(buf, index, p[..first]);
      if first < |p| {
        Copy(buf, 0, p[first..]);
      }
      WrittenRound(before, buf[..], index, p, first);
    }

    method Append(p: Bytes, ghost s: Bytes)
      requires p != [] && |s| + |p| <= LIMIT && Retains(s)
      modifies this`length, buf
      ensures Retains(s + p)
    {
      ghost var before := buf[..];
      SlotIsModular(start, length);
      CopyRound(p, (start + length) % LIMIT);
      Appended(before, buf[..], start, s, p);
      length := length + |p|;
    }

    method ReplaceAll(p: Bytes)
      requires buf.Length == LIMIT <= |p|
      modifies this`start, this`length, buf
      ensures Retains(p[|p| - LIMIT..])
    {
      Copy(buf, 0, p[|p| - LIMIT..]);
      start, length := 0, LIMIT;
      HoldsEach(buf[..], 0, p[|p| - LIMIT..], LIMIT);
    }

    method Allocate(ghost s: Bytes)
      requires (IsUnallocated() && s == []) || (|s| <= LIMIT && Retains(s))
      modifies this`buf
      ensures |s| <= LIMIT && Retains(s)
      ensures buf == old(buf) || fresh(buf)
    {
      if buf.Length == 0 {
        buf := new byte[LIMIT];
      }
    }

    method Absorb(p: Bytes, ghost s: Bytes)
      requires p != [] && |s| <= LIMIT && Retains(s)
      modifies this`start, this`length, this`truncated, buf
      ensures Retains(Last(s + p))
      ensures truncated <==> old(truncated) || |s| + |p| > LIMIT
    {
      LastOfBoth(s, p);
      if |p| >= LIMIT {
        if |p| > LIMIT || length > 0 {
          truncated := true;
        }
        ReplaceAll(p);
        return;
      }
      var overflow := length + |p| - LIMIT;
      if overflow > 0 {
        DropOldest(overflow, s);
        truncated := true;
        Append(p, s[overflow..]);
      } else {
        Append(p, s);
      }
    }

    method Write(p: Bytes) returns (n: nat)
      requires Valid()
      modifies this, buf
      ensures Valid() && written == old(written) + p && n == |p|
      ensures buf == old(buf) || fresh(buf)
    {
      n := |p|;
      if n == 0 {
        assert old(written) + p == old(written);
        return;
      }
      LastOfLast(written, p);
      Allocate(Last(written));
      Absorb(p, Last(written));
      written := written + p;
    }

    method ReadRing(ghost kept: Bytes) returns (s: Bytes)
      requires |kept| <= LIMIT && Retains(kept)
      ensures s == kept
    {
      var first := buf.Length - start;
      if first > length {
        first := length;
      }
      ReadRound(buf[..], start, kept, first);
      s := buf[..][start..start + first] + buf[..][..length - first];
    }

    method String() returns (s: Bytes)
      requires Valid()
      ensures s == Last(written)
      ensures s == if |written| <= 64 * 1024 then written else written[|written| - 64 * 1024..]
    {
      SuffixIsSlice(written, LIMIT);
      if length == 0 {
        return [];
      }
      s := ReadRing(Last(written));
    }
  }

  /** The first n bytes of s stand in the ring from `start` on. */
  predicate HoldsFirst(ring: Bytes, start: nat, s: Bytes, n: nat)
    requires |ring| == LIMIT && start < LIMIT && n <= |s| <= LIMIT
  {
    n == 0 || (HoldsFirst(ring, start, s, n - 1) && ring[Slot(start, n - 1)] == s[n - 1])
  }

  predicate Holds(ring: Bytes, start: nat, s: Bytes)
    requires |ring| == LIMIT && start < LIMIT && |s| <= LIMIT
  {
    HoldsFirst(ring, start, s, |s|)
  }

  lemma {:induction false} HoldsEach(ring: Bytes, start: nat, s: Bytes, n: nat)
    requires |ring| == LIMIT && start < LIMIT && n <= |s| <= LIMIT
    ensures HoldsFirst(ring, start, s, n) <==> forall k :: 0 <= k < n ==> ring[Slot(start, k)] == s[k]
  {
    if n > 0 {
      HoldsEach(ring, start, s, n - 1);
    }
  }

  lemma Advanced(ring: Bytes, start: nat, s: Bytes, n: nat)
    requires |ring| == LIMIT && start < LIMIT && |s| <= LIMIT && n <= |s| && Holds(ring, start, s)
    ensures n < LIMIT ==> Holds(ring, Slot(start, n), s[n..])
  {
    if n < LIMIT {
      HoldsEach(ring, start, s, |s|);
      forall k | 0 <= k < |s| - n
        ensures ring[Slot(Slot(start, n), k)] == s[n..][k]
      {
        assert Slot(Slot(start, n), k) == Slot(start, n + k);
      }
      HoldsEach(ring, Slot(start, n), s[n..], |s| - n);
    }
  }

  /** `p` written at `index`, going on at the front of the ring where it does not fit before its end. */
  ghost predicate WrittenAt(before: Bytes, after: Bytes, index: nat, p: Bytes)
    requires |before| == |after| == LIMIT && index < LIMIT && |p| <= LIMIT
  {
    && (forall k :: 0 <= k < |p| ==> after[Slot(index, k)] == p[k])
    && (forall i :: 0 <= i < LIMIT && !InRound(index, |p|, i) ==> after[i] == before[i])
  }

  /** Place i is one of the n places from `index` round. */
  predicate InRound(index: nat, n: nat, i: nat) {
    index <= i < index + n || i < index + n - LIMIT
  }

  /** What two copies leave at place i: p[..first] at `index`, then p[first..] at the front. */
  function PlacedAt(before: Bytes, p: Bytes, index: nat, first: nat, i: nat): byte
    requires i < |before| && first <= |p|
  {
    if i < |p| - first then p[first + i] else if index <= i < index + first then p[i - index] else before[i]
  }

  lemma WrittenRound(before: Bytes, after: Bytes, index: nat, p: Bytes, first: nat)
    requires |before| == |after| == LIMIT && index < LIMIT && |p| <= LIMIT
    requires first == if |p| < LIMIT - index then |p| else LIMIT - index
    requires forall i :: 0 <= i < LIMIT ==> after[i] == PlacedAt(before, p, index, first, i)
    ensures WrittenAt(before, after, index, p)
  {
    forall k | 0 <= k < |p|
      ensures after[Slot(index, k)] == p[k]
    {
      assert Slot(index, k) == if k < LIMIT - index then index + k else index + k - LIMIT;
    }
  }

  /** Writing behind the retained bytes leaves them where they are. */
  lemma Appended(before: Bytes, after: Bytes, start: nat, s: Bytes, p: Bytes)
    requires |before| == |after| == LIMIT && start < LIMIT && |s| + |p| <= LIMIT && |s| < LIMIT && Holds(before, start, s)
    requires WrittenAt(before, after, Slot(start, |s|), p)
    ensures Holds(after, start, s + p)
  {
    var index := Slot(start, |s|);
    HoldsEach(before, start, s, |s|);
    forall k | 0 <= k < |s| + |p|
      ensures after[Slot(start, k)] == (s + p)[k]
    {
      if k < |s| {
        assert !InRound(index, |p|, Slot(start, k));
      } else {
        assert Slot(start, k) == Slot(index, k - |s|);
      }
    }
    HoldsEach(after, start, s + p, |s| + |p|);
  }

  lemma ReadRound(ring: Bytes, start: nat, s: Bytes, first: nat)
    requires |ring| == LIMIT && start < LIMIT && |s| <= LIMIT && Holds(ring, start, s)
    requires first == if |s| < LIMIT - start then |s| else LIMIT - start
    ensures ring[start..start + first] + ring[..|s| - first] == s
  {
    var out := ring[start..start + first] + ring[..|s| - first];
    HoldsEach(ring, start, s, |s|);
    forall k | 0 <= k < |s|
      ensures out[k] == s[k]
    {
      assert Slot(start, k) == if k < first then start + k else k - first;
    }
  }
}
