/**
 Streaming exporters under a byte budget: the budgeted writer, and the JSON array written with it.
 */
module Export {
  import opened ByteStrings

  /** How the row stream ends once its rows are delivered. */
  datatype Ending = Exhausted | RowCapped | Failed

  /** What an exporter returns: a closed document, the budget's own error, or the stream's. */
  datatype Outcome = Written(truncated: bool) | LimitError | StreamError

  class ExportWriter {
    var out: Bytes
    var remaining: nat
    const budget: nat

    ghost predicate Valid()
      reads this
    {
      |out| + remaining == budget
    }

    constructor (budget: nat)
      ensures Valid() && out == [] && this.budget == budget
    {
      out, remaining, this.budget := [], budget, budget;
    }

    predicate CanWrite(size: nat)
      reads this
    {
      size <= remaining
    }

    /** All of p, or nothing when it is over budget. */
    method Write(p: Bytes) returns (ok: bool)
      requires Valid()
      modifies this
      ensures Valid()
      ensures ok <==> |old(out)| + |p| <= budget
      ensures out == if ok then old(out) + p else old(out)
    {
      ok := CanWrite(|p|);
      if ok {
        out, remaining := out + p, remaining - |p|;
      }
    }
  }

  /** The first n parts with a separator between neighbours. */
  function Joined(parts: seq<Bytes>, separator: Bytes, n: nat): (b: Bytes)
    requires n <= |parts|
  {
    if n == 0 then [] else Joined(parts, separator, n - 1) + Chunk(parts, separator, n - 1)
  }

  /** What part n adds: itself, after a separator unless it comes first. */
  function Chunk(parts: seq<Bytes>, separator: Bytes, n: nat): Bytes
    requires n < |parts|
  {
    if n == 0 then parts[n] else separator + parts[n]
  }

  lemma {:induction false} JoinedGrows(parts: seq<Bytes>, separator: Bytes, m: nat, n: nat)
    requires m <= n <= |parts|
    ensures |Joined(parts, separator, m)| <= |Joined(parts, separator, n)|
  {
    if m < n {
      JoinedGrows(parts, separator, m, n - 1);
    }
  }

  /** Where part k begins when the parts stand one after another with a separator between neighbours. */
  function Start(parts: seq<Bytes>, separator: Bytes, k: nat): nat
    requires k <= |parts|
  {
    if k == 0 then 0 else Start(parts, separator, k - 1) + |parts[k - 1]| + |separator|
  }

  /** The text has part k where it begins, right after a separator unless it comes first. */
  ghost predicate Stands(text: Bytes, parts: seq<Bytes>, separator: Bytes, k: nat)
    requires k < |parts|
  {
    var i := Start(parts, separator, k);
    && i + |parts[k]| <= |text| && text[i..i + |parts[k]|] == parts[k]
    && (k > 0 ==> |separator| <= i && text[i - |separator|..i] == separator)
  }

  /** The text is the first n parts with a separator between neighbours, byte by byte, and nothing more. */
  ghost predicate Lists(text: Bytes, parts: seq<Bytes>, separator: Bytes, n: nat)
    requires n <= |parts|
  {
    && |text| == (if n == 0 then 0 else Start(parts, separator, n - 1) + |parts[n - 1]|)
    && forall k :: 0 <= k < n ==> Stands(text, parts, separator, k)
  }

  lemma {:induction false} JoinedLists(parts: seq<Bytes>, separator: Bytes, n: nat)
    requires n <= |parts|
    ensures Lists(Joined(parts, separator, n), parts, separator, n)
  {
    if n > 0 {
      JoinedLists(parts, separator, n - 1);
      OneMoreListed(Joined(parts, separator, n - 1), parts, separator, n - 1);
    }
  }

  lemma OneMoreListed(text: Bytes, parts: seq<Bytes>, separator: Bytes, n: nat)
    requires n < |parts| && Lists(text, parts, separator, n)
    ensures Lists(text + Chunk(parts, separator, n), parts, separator, n + 1)
  {
    forall k | 0 <= k < n
      ensures Stands(text + Chunk(parts, separator, n), parts, separator, k)
    {
      StandsStill(text, Chunk(parts, separator, n), parts, separator, k);
    }
    LastStands(text, parts, separator, n);
  }

  lemma StandsStill(text: Bytes, more: Bytes, parts: seq<Bytes>, separator: Bytes, k: nat)
    requires k < |parts| && Stands(text, parts, separator, k)
    ensures Stands(text + more, parts, separator, k)
  {
    var i := Start(parts, separator, k);
    assert (text + more)[i..i + |parts[k]|] == text[i..i + |parts[k]|];
    if k > 0 {
      assert (text + more)[i - |separator|..i] == text[i - |separator|..i];
    }
  }

  lemma LastStands(text: Bytes, parts: seq<Bytes>, separator: Bytes, k: nat)
    requires k < |parts|
    requires |text| == if k == 0 then 0 else Start(parts, separator, k - 1) + |parts[k - 1]|
    ensures Stands(text + Chunk(parts, separator, k), parts, separator, k)
  {
    var all := text + Chunk(parts, separator, k);
    if k > 0 {
      assert all == text + separator + parts[k];
      assert all[|text|..|text| + |separator|] == separator;
      assert all[|text| + |separator|..] == parts[k];
    }
  }

  // ---- The JSON array ----

  const OPEN: Bytes := [91, 10]
  const SEPARATOR: Bytes := [44, 10]
  const CLOSE: Bytes := [10, 93, 10]
  const EMPTY: Bytes := [91, 93, 10]

  /** The array of the first n rows. */
  function Document(rows: seq<Bytes>, n: nat): Bytes
    requires n <= |rows|
  {
    OPEN + Joined(rows, SEPARATOR, n) + CLOSE
  }

  predicate Fits(rows: seq<Bytes>, n: nat, budget: nat)
    requires n <= |rows|
  {
    |OPEN| + |Joined(rows, SEPARATOR, n)| + |CLOSE| <= budget
  }

  lemma FitsIsLength(rows: seq<Bytes>, n: nat, budget: nat)
    requires n <= |rows|
    ensures Fits(rows, n, budget) <==> |Document(rows, n)| <= budget
  {
  }

  /** The rows the exporter has to write before the stream can fail on its own. */
  predicate StreamFails(rows: seq<Bytes>, ending: Ending, budget: nat) {
    ending == Failed && (rows == [] || Fits(rows, |rows|, budget))
  }

  /** Writes row n unless the closing bracket would no longer fit. */
  method WriteRow(ew: ExportWriter, rows: seq<Bytes>, n: nat) returns (ok: bool)
    requires ew.Valid() && n < |rows| && ew.out == OPEN + Joined(rows, SEPARATOR, n)
    modifies ew
    ensures ew.Valid() && (ok <==> Fits(rows, n + 1, ew.budget))
    ensures ew.out == OPEN + Joined(rows, SEPARATOR, if ok then n + 1 else n)
  {
    var chunk := if n > 0 then SEPARATOR + rows[n] else rows[n];
    ok := ew.CanWrite(|chunk| + 3);
    if ok {
      var _ := ew.Write(chunk);
      Regroup(OPEN, Joined(rows, SEPARATOR, n), chunk);
    }
  }

  /** Opens the array with the first row and writes rows as long as the array can still be closed. */
  method WriteRows(ew: ExportWriter, rows: seq<Bytes>) returns (started: bool, exported: nat, limited: bool)
    requires ew.Valid() && ew.out == []
    modifies ew
    ensures ew.Valid()
    ensures started <==> rows != [] && |OPEN| <= ew.budget
    ensures exported <= |rows| && (limited <==> exported < |rows|)
    ensures ew.out == if started then OPEN + Joined(rows, SEPARATOR, exported) else []
    ensures exported > 0 ==> Fits(rows, exported, ew.budget)
    ensures limited ==> !Fits(rows, exported + 1, ew.budget) && !Fits(rows, |rows|, ew.budget)
  {
    started, exported, limited := false, 0, false;
    while exported < |rows|
      invariant ew.Valid() && exported <= |rows| && (started <==> exported > 0)
      invariant ew.out == if started then OPEN + Joined(rows, SEPARATOR, exported) else []
      invariant started ==> Fits(rows, exported, ew.budget)
    {
      if !started {
        var begun := ew.Write(OPEN);
        if !begun {
          NextDoesNotFit(rows, exported, ew.budget);
          return false, 0, true;
        }
        started := true;
        assert ew.out == OPEN + Joined(rows, SEPARATOR, 0);
      }
      var ok := WriteRow(ew, rows, exported);
      if !ok {
        NextDoesNotFit(rows, exported, ew.budget);
        return started, exported, true;
      }
      exported := exported + 1;
    }
  }

  method StreamFindingsJSON(budget: nat, rows: seq<Bytes>, ending: Ending)
    returns (out: Bytes, exported: nat, r: Outcome)
    ensures |out| <= budget
    ensures r.StreamError? <==> StreamFails(rows, ending, budget)
    ensures r.LimitError? <==> !StreamFails(rows, ending, budget) && budget < (if rows == [] then 3 else 5)
    ensures exported <= |rows|
    ensures r.Written? ==> out == if rows == [] then EMPTY else Document(rows, exported)
    ensures r.Written? && rows == [] ==> out == [91, 93, 10]
    ensures r.Written? && rows != [] ==>
              exists text :: out == [91, 10] + text + [10, 93, 10] && Lists(text, rows, [44, 10], exported)
    ensures r.Written? && exported < |rows| ==> !Fits(rows, exported + 1, budget)
    ensures r.Written? ==> (r.truncated <==> exported < |rows| || ending == RowCapped)
  {
    var ew := new ExportWriter(budget);
    var started, limited;
    started, exported, limited := WriteRows(ew, rows);
    if !limited && ending == Failed {
      return ew.out, exported, StreamError;
    }
    var closed := ew.Write(if started then CLOSE else EMPTY);
    JoinedLists(rows, SEPARATOR, exported);
    return ew.out, exported, if closed then Written(limited || ending == RowCapped) else LimitError;
  }

  /** A refused row would not have fitted, nor would all of them. */
  lemma NextDoesNotFit(rows: seq<Bytes>, n: nat, budget: nat)
    requires n < |rows| && !Fits(rows, n + 1, budget)
    ensures !Fits(rows, |rows|, budget)
  {
    JoinedGrows(rows, SEPARATOR, n + 1, |rows|);
  }

  /** Fewer rows are never longer, so the exported ones are the longest prefix that fits. */
  lemma LongestPrefix(rows: seq<Bytes>, n: nat, budget: nat)
    requires n < |rows| && !Fits(rows, n + 1, budget)
    ensures forall m :: n < m <= |rows| ==> !Fits(rows, m, budget)
  {
    forall m | n < m <= |rows|
      ensures !Fits(rows, m, budget)
    {
      JoinedGrows(rows, SEPARATOR, n + 1, m);
    }
  }

  /** Every row is exported exactly when the whole array fits. */
  lemma AllFitIff(rows: seq<Bytes>, exported: nat, budget: nat)
    requires exported <= |rows| && Fits(rows, exported, budget)
    requires exported < |rows| ==> !Fits(rows, exported + 1, budget)
    ensures exported == |rows| <==> |Document(rows, |rows|)| <= budget
  {
    FitsIsLength(rows, |rows|, budget);
    if exported < |rows| {
      LongestPrefix(rows, exported, budget);
    }
  }
}
