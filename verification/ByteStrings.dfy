/** Bytes, and strings of them, shared by the modules that work on raw data. */
module ByteStrings {
  newtype byte = x: int | 0 <= x < 0x100

  type Bytes = seq<byte>

  const NEWLINE: byte := 10
  const RETURN: byte := 13

  /** Where a byte first occurs, or the length when it does not. */
  function Find(b: byte, s: Bytes): (i: nat)
    ensures i <= |s| && b !in s[..i]
    ensures i < |s| ==> s[i] == b
  {
    if s == [] || s[0] == b then 0
    else
      var i := 1 + Find(b, s[1..]);
      assert s[..i] == [s[0]] + s[1..][..i - 1];
      i
  }

  /** There is only one first occurrence. */
  lemma FindIs(b: byte, s: Bytes, i: nat)
    requires i <= |s| && b !in s[..i] && (i < |s| ==> s[i] == b)
    ensures Find(b, s) == i
  {
    var j := Find(b, s);
    assert forall k :: 0 <= k < i ==> s[k] == s[..i][k];
    assert forall k :: 0 <= k < j ==> s[k] == s[..j][k];
  }

  // ---- Decimal numbers ----

  const ZERO: byte := 48

  function Decimal(n: nat): (d: Bytes)
    ensures d != [] && forall i :: 0 <= i < |d| ==> ZERO <= d[i] < ZERO + 10
  {
    if n < 10 then [ZERO + n as byte] else Decimal(n / 10) + [ZERO + (n % 10) as byte]
  }

  function Value(d: Bytes): nat
    requires forall i :: 0 <= i < |d| ==> ZERO <= d[i] < ZERO + 10
  {
    if d == [] then 0 else 10 * Value(d[..|d| - 1]) + (d[|d| - 1] - ZERO) as nat
  }

  lemma {:induction false} DecimalReadsBack(n: nat)
    ensures Value(Decimal(n)) == n
  {
    var d := Decimal(n);
    if n < 10 {
      assert d[..0] == [];
    } else {
      DecimalReadsBack(n / 10);
      assert d[..|d| - 1] == Decimal(n / 10);
    }
  }

  /** A mark that does not occur in the first pieces splits a sequence in one way only. */
  lemma MarkSplits<T>(a: seq<T>, b: seq<T>, mark: T, s: seq<T>, t: seq<T>)
    requires mark !in a && mark !in b && a + [mark] + s == b + [mark] + t
    ensures a == b && s == t
  {
    var whole := a + [mark] + s;
    assert forall i :: 0 <= i < |a| ==> whole[i] == a[i];
    assert forall i :: 0 <= i < |b| ==> whole[i] == b[i];
    assert whole[|a|] == mark && whole[|b|] == mark;
    assert a == whole[..|a|] == b;
    assert s == whole[|a| + 1..] == t;
  }

  /** Seen from the end: a mark that does not occur in the last pieces. */
  lemma MarkSplitsEnd<T>(a: seq<T>, b: seq<T>, mark: T, s: seq<T>, t: seq<T>)
    requires mark !in s && mark !in t && a + [mark] + s == b + [mark] + t
    ensures a == b && s == t
  {
    var whole := a + [mark] + s;
    assert forall i :: |a| < i < |whole| ==> whole[i] == s[i - |a| - 1];
    assert forall i :: |b| < i < |whole| ==> whole[i] == t[i - |b| - 1];
    assert whole[|a|] == mark && whole[|b|] == mark;
    assert a == whole[..|a|] == b;
    assert s == whole[|a| + 1..] == t;
  }

  // ---- The newline split ----

  /** The lines a newline ends, without their newlines. */
  function Lines(data: Bytes): seq<Bytes>
    decreases |data|
  {
    var i := Find(NEWLINE, data);
    if i < |data| then [data[..i]] + Lines(data[i + 1..]) else []
  }

  /** What follows the last newline. */
  function Pending(data: Bytes): Bytes
    decreases |data|
  {
    var i := Find(NEWLINE, data);
    if i < |data| then Pending(data[i + 1..]) else data
  }

  function Rejoined(lines: seq<Bytes>): Bytes {
    if lines == [] then [] else lines[0] + [NEWLINE] + Rejoined(lines[1..])
  }

  lemma FirstLine(data: Bytes, i: nat)
    requires i < |data| && data[i] == NEWLINE
    ensures data == data[..i] + [NEWLINE] + data[i + 1..]
  {
  }

  /** Lines and rest give the data back. */
  lemma {:induction false} SplitRejoins(data: Bytes)
    ensures data == Rejoined(Lines(data)) + Pending(data)
    decreases |data|
  {
    var i := Find(NEWLINE, data);
    if i < |data| {
      var rest := data[i + 1..];
      SplitRejoins(rest);
      FirstLine(data, i);
      RejoinedStep(data[..i], Lines(rest), Pending(rest));
    }
  }

  lemma RejoinedStep(line: Bytes, lines: seq<Bytes>, end: Bytes)
    ensures Rejoined([line] + lines) + end == line + [NEWLINE] + (Rejoined(lines) + end)
  {
    assert ([line] + lines)[1..] == lines;
  }

  /** Neither the lines nor the rest hold a newline. */
  lemma {:induction false} SplitIsClean(data: Bytes)
    ensures NEWLINE !in Pending(data) && forall i :: 0 <= i < |Lines(data)| ==> NEWLINE !in Lines(data)[i]
    decreases |data|
  {
    var i := Find(NEWLINE, data);
    if i < |data| {
      SplitIsClean(data[i + 1..]);
    } else {
      assert data[..i] == data;
    }
  }

  /** One line at the front of the data. */
  lemma LineInFront(data: Bytes, i: nat, rest: Bytes)
    requires i < |data| && NEWLINE !in data[..i] && data[i] == NEWLINE && data[i + 1..] == rest
    ensures Lines(data) == [data[..i]] + Lines(rest) && Pending(data) == Pending(rest)
  {
    FindIs(NEWLINE, data, i);
  }

  lemma NoLine(data: Bytes)
    requires NEWLINE !in data
    ensures Lines(data) == [] && Pending(data) == data
  {
    assert data[..|data|] == data;
    FindIs(NEWLINE, data, |data|);
  }

  lemma CutOfBoth(data: Bytes, more: Bytes, i: nat)
    requires i < |data|
    ensures (data + more)[..i] == data[..i] && (data + more)[i + 1..] == data[i + 1..] + more
  {
  }

  /** More bytes without a newline lengthen the pending line. */
  lemma {:induction false} PendingGrows(data: Bytes, more: Bytes)
    requires NEWLINE !in more
    ensures Lines(data + more) == Lines(data) && Pending(data + more) == Pending(data) + more
    decreases |data|
  {
    var i := Find(NEWLINE, data);
    if i < |data| {
      PendingGrows(data[i + 1..], more);
      CutOfBoth(data, more, i);
      LineInFront(data + more, i, data[i + 1..] + more);
    } else {
      assert data[..i] == data;
      NoLine(data + more);
    }
  }

  /** A newline turns the pending line into the next line. */
  lemma {:induction false} NewlineEndsPending(data: Bytes)
    ensures Lines(data + [NEWLINE]) == Lines(data) + [Pending(data)]
    ensures Pending(data + [NEWLINE]) == []
    decreases |data|
  {
    var i := Find(NEWLINE, data);
    assert (data + [NEWLINE])[..i] == data[..i];
    if i < |data| {
      var rest := data[i + 1..];
      NewlineEndsPending(rest);
      LineInFront(data + [NEWLINE], i, rest + [NEWLINE]);
      Regroup([data[..i]], Lines(rest), [Pending(rest)]);
    } else {
      assert data[..i] == data;
      LineInFront(data + [NEWLINE], i, []);
    }
  }

  /** Text put together from lines comes apart into the same lines. */
  lemma {:induction false} JoinedSplits(lines: seq<Bytes>, rest: Bytes)
    requires 10 !in rest && forall i :: 0 <= i < |lines| ==> 10 !in lines[i]
    ensures Lines(Rejoined(lines) + rest) == lines && Pending(Rejoined(lines) + rest) == rest
  {
    if lines == [] {
      assert [] + rest == rest;
      NoLine(rest);
    } else {
      var more := Rejoined(lines[1..]) + rest;
      JoinedSplits(lines[1..], rest);
      LineAndMore(lines[0], Rejoined(lines[1..]), rest);
      LineInFront(Rejoined(lines) + rest, |lines[0]|, more);
      assert lines == [lines[0]] + lines[1..];
    }
  }

  lemma LineAndMore(line: Bytes, more: Bytes, rest: Bytes)
    ensures var data := line + [NEWLINE] + more + rest;
            && data[..|line|] == line && data[|line|] == NEWLINE && data[|line| + 1..] == more + rest
  {
  }

  lemma Regroup<T>(a: seq<T>, b: seq<T>, c: seq<T>)
    ensures a + b + c == a + (b + c)
  {
  }
}
