/**
 The registry of scanner nodes: the ranges of different nodes never overlap, so an address belongs to at
 most one node whatever order the nodes are listed in.
 */
module NodeRegistry {
  import opened Cidr
  import opened Wrappers

  type NodeId = nat

  datatype Node = Node(id: NodeId, name: string, ranges: seq<Range>) {
    predicate IsCatchAll() {
      ranges == []
    }
  }

  datatype Error = BadCidr | Overlap | Conflict | NotFound | LastCatchAll | SpansNodes | NoNodeForTarget

  predicate ValidRanges(ranges: seq<Range>) {
    forall i :: 0 <= i < |ranges| ==> ranges[i].Valid()
  }

  predicate Serves(n: Node, a: Addr)
    requires ValidRanges(n.ranges)
  {
    exists i :: 0 <= i < |n.ranges| && n.ranges[i].Contains(a)
  }

  ghost predicate Apart(r: seq<Range>, s: seq<Range>)
    requires ValidRanges(r) && ValidRanges(s)
  {
    forall i, j :: 0 <= i < |r| && 0 <= j < |s| ==> !Meet(r[i], s[j])
  }

  /** Distinct ids and names, and no address in the ranges of two nodes. */
  ghost predicate ValidNodes(nodes: seq<Node>) {
    && (forall i :: 0 <= i < |nodes| ==> ValidRanges(nodes[i].ranges))
    && (forall i, j :: 0 <= i < j < |nodes| ==> nodes[i].id != nodes[j].id && nodes[i].name != nodes[j].name)
    && (forall i, j :: 0 <= i < j < |nodes| ==> Apart(nodes[i].ranges, nodes[j].ranges))
  }

  lemma ApartIsSymmetric(r: seq<Range>, s: seq<Range>)
    requires ValidRanges(r) && ValidRanges(s) && Apart(r, s)
    ensures Apart(s, r)
  {
  }

  // ---- Writing ----

  /** The texts parsed: nothing when one of them is not a CIDR. */
  function ParseCidrs(cidrs: seq<Option<Range>>): (r: Option<seq<Range>>)
  {
    if cidrs == [] then Some([])
    else
      match ParseCidrs(cidrs[..|cidrs| - 1])
      case None => None
      case Some(init) =>
        match cidrs[|cidrs| - 1]
        case Some(last) => Some(init + [last])
        case None => None
  }

  /** It succeeds when every text is a CIDR, and then gives the range of each in its place. */
  lemma {:induction false} ParseIsPointwise(cidrs: seq<Option<Range>>)
    ensures ParseCidrs(cidrs).Some? <==> forall i :: 0 <= i < |cidrs| ==> cidrs[i].Some?
    ensures ParseCidrs(cidrs).Some? ==>
              var ranges := ParseCidrs(cidrs).value;
              |ranges| == |cidrs| && forall i :: 0 <= i < |cidrs| ==> cidrs[i] == Some(ranges[i])
  {
    if cidrs != [] {
      var init := cidrs[..|cidrs| - 1];
      ParseIsPointwise(init);
      assert forall i :: 0 <= i < |init| ==> init[i] == cidrs[i];
    }
  }

  predicate ValidTexts(cidrs: seq<Option<Range>>) {
    forall i :: 0 <= i < |cidrs| && cidrs[i].Some? ==> cidrs[i].value.Valid()
  }

  lemma {:induction false} ParsedAreValid(cidrs: seq<Option<Range>>)
    requires ValidTexts(cidrs)
    ensures var r := ParseCidrs(cidrs); r.Some? ==> ValidRanges(r.value) && |r.value| == |cidrs|
  {
    if cidrs != [] {
      ParsedAreValid(cidrs[..|cidrs| - 1]);
    }
  }

  /** The base-address test between every pair of ranges. */
  method AnyOverlap(r: seq<Range>, s: seq<Range>) returns (clash: bool)
    requires ValidRanges(r) && ValidRanges(s)
    ensures clash <==> !Apart(r, s)
  {
    for i := 0 to |r|
      invariant forall k, j :: 0 <= k < i && 0 <= j < |s| ==> !Meet(r[k], s[j])
    {
      for j := 0 to |s|
        invariant forall l :: 0 <= l < j ==> !Meet(r[i], s[l])
      {
        OverlapIsExact(r[i], s[j]);
        if r[i].Contains(s[j].Network()) || s[j].Contains(r[i].Network()) {
          return true;
        }
      }
    }
    return false;
  }

  /** No node other than `exclude` has an address in these ranges. */
  ghost predicate Free(nodes: seq<Node>, exclude: Option<NodeId>, ranges: seq<Range>)
    requires ValidNodes(nodes) && ValidRanges(ranges)
  {
    forall i :: 0 <= i < |nodes| && exclude != Some(nodes[i].id) ==> Apart(ranges, nodes[i].ranges)
  }

  method CheckOverlap(nodes: seq<Node>, exclude: Option<NodeId>, cidrs: seq<Option<Range>>)
    returns (r: Result<seq<Range>, Error>)
    requires ValidNodes(nodes) && ValidTexts(cidrs)
    ensures r.Err? && r.error == BadCidr <==> ParseCidrs(cidrs).None?
    ensures r.Ok? <==> ParseCidrs(cidrs).Some? && (ParsedAreValid(cidrs); Free(nodes, exclude, ParseCidrs(cidrs).value))
    ensures r.Ok? ==> Some(r.value) == ParseCidrs(cidrs) && ValidRanges(r.value)
    ensures r.Err? ==> r.error == BadCidr || r.error == Overlap
  {
    ParsedAreValid(cidrs);
    var parsed := ParseCidrs(cidrs);
    if parsed.None? {
      return Err(BadCidr);
    }
    if parsed.value == [] {
      return Ok([]);
    }
    for i := 0 to |nodes|
      invariant forall k :: 0 <= k < i && exclude != Some(nodes[k].id) ==> Apart(parsed.value, nodes[k].ranges)
    {
      if exclude == Some(nodes[i].id) {
        continue;
      }
      var clash := AnyOverlap(parsed.value, nodes[i].ranges);
      if clash {
        return Err(Overlap);
      }
    }
    return Ok(parsed.value);
  }

  predicate NameTaken(nodes: seq<Node>, exclude: Option<NodeId>, name: string) {
    exists i :: 0 <= i < |nodes| && exclude != Some(nodes[i].id) && nodes[i].name == name
  }

  function IndexOf(nodes: seq<Node>, id: NodeId): (i: nat)
    ensures i <= |nodes| && (i < |nodes| ==> nodes[i].id == id)
    ensures forall k :: 0 <= k < i ==> nodes[k].id != id
  {
    if nodes == [] || nodes[0].id == id then 0 else 1 + IndexOf(nodes[1..], id)
  }

  /** One pass over the nodes: where the one with this id stands, and how many are catch-alls. */
  method Survey(nodes: seq<Node>, id: NodeId) returns (target: nat, catchAlls: nat)
    requires ValidNodes(nodes)
    ensures target == IndexOf(nodes, id) && catchAlls == CatchAlls(nodes)
  {
    target, catchAlls := |nodes|, 0;
    for i := 0 to |nodes|
      invariant catchAlls == CatchAlls(nodes[..i])
      invariant target == |nodes| || (target < i && nodes[target].id == id)
      invariant target == |nodes| ==> forall k :: 0 <= k < i ==> nodes[k].id != id
    {
      assert nodes[..i + 1][..i] == nodes[..i];
      if nodes[i].IsCatchAll() {
        catchAlls := catchAlls + 1;
      }
      if nodes[i].id == id {
        target := i;
      }
    }
    assert nodes[..|nodes|] == nodes;
  }

  class Registry {
    var nodes: seq<Node>

    ghost predicate Valid()
      reads this
    {
      ValidNodes(nodes)
    }

    constructor ()
      ensures Valid() && nodes == []
    {
      nodes := [];
    }

    method Create(id: NodeId, name: string, cidrs: seq<Option<Range>>) returns (error: Option<Error>)
      requires Valid() && ValidTexts(cidrs) && IndexOf(nodes, id) == |nodes|
      modifies this
      ensures Valid()
      ensures error.Some? ==> nodes == old(nodes)
      ensures error.None? ==> exists ranges :: Some(ranges) == ParseCidrs(cidrs) && nodes == old(nodes) + [Node(id, name, ranges)]
      ensures error.None? <==> ParseCidrs(cidrs).Some? && (forall i :: 0 <= i < |old(nodes)| ==> old(nodes)[i].name != name) &&
                               (ParsedAreValid(cidrs); Free(old(nodes), None, ParseCidrs(cidrs).value))
      ensures error == Some(BadCidr) <==> ParseCidrs(cidrs).None?
      ensures error == Some(Overlap) <==>
              ParseCidrs(cidrs).Some? && (ParsedAreValid(cidrs); !Free(old(nodes), None, ParseCidrs(cidrs).value))
      ensures error.Some? ==> error.value in {BadCidr, Overlap, Conflict}
    {
      var r := CheckOverlap(nodes, None, cidrs);
      if r.Err? {
        return Some(r.error);
      }
      if NameTaken(nodes, None, name) {
        return Some(Conflict);
      }
      Added(nodes, Node(id, name, r.value));
      nodes := nodes + [Node(id, name, r.value)];
      return None;
    }

    method Update(id: NodeId, name: string, cidrs: seq<Option<Range>>) returns (error: Option<Error>)
      requires Valid() && ValidTexts(cidrs)
      modifies this
      ensures Valid()
      ensures error.Some? ==> nodes == old(nodes)
      ensures error.None? ==>
                var i := IndexOf(old(nodes), id);
                i < |old(nodes)| && exists ranges :: Some(ranges) == ParseCidrs(cidrs) && nodes == old(nodes)[i := Node(id, name, ranges)]
      ensures error.None? && HasCatchAll(old(nodes)) ==>
                (HasCatchAll(nodes) <==> cidrs == [] || HasCatchAllBut(old(nodes), IndexOf(old(nodes), id)))
      ensures error.None? <==> ParseCidrs(cidrs).Some? && IndexOf(old(nodes), id) < |old(nodes)| &&
                               (forall i :: 0 <= i < |old(nodes)| ==> old(nodes)[i].name == name ==> old(nodes)[i].id == id) &&
                               (ParsedAreValid(cidrs); Free(old(nodes), Some(id), ParseCidrs(cidrs).value))
      ensures error == Some(BadCidr) <==> ParseCidrs(cidrs).None?
      ensures error == Some(Overlap) <==>
              ParseCidrs(cidrs).Some? && (ParsedAreValid(cidrs); !Free(old(nodes), Some(id), ParseCidrs(cidrs).value))
      ensures error.Some? ==> error.value in {BadCidr, Overlap, NotFound, Conflict}
      ensures error == Some(NotFound) ==> forall i :: 0 <= i < |old(nodes)| ==> old(nodes)[i].id != id
      ensures error == Some(Conflict) ==> exists i :: 0 <= i < |old(nodes)| && old(nodes)[i].name == name && old(nodes)[i].id != id
    {
      var r := CheckOverlap(nodes, Some(id), cidrs);
      if r.Err? {
        return Some(r.error);
      }
      var i := IndexOf(nodes, id);
      if i == |nodes| {
        return Some(NotFound);
      }
      if NameTaken(nodes, Some(id), name) {
        return Some(Conflict);
      }
      Replaced(nodes, i, Node(id, name, r.value));
      UpdateKeepsCatchAllIff(nodes, i, Node(id, name, r.value));
      ParsedAreValid(cidrs);
      nodes := nodes[i := Node(id, name, r.value)];
      return None;
    }

    /** Refuses to delete the only catch-all node. */
    method Delete(id: NodeId) returns (error: Option<Error>)
      requires Valid()
      modifies this
      ensures Valid()
      ensures error.Some? ==> nodes == old(nodes)
      ensures error.None? ==>
                var i := IndexOf(old(nodes), id);
                i < |old(nodes)| && nodes == old(nodes)[..i] + old(nodes)[i + 1..]
      ensures error == Some(NotFound) <==> IndexOf(old(nodes), id) == |old(nodes)|
      ensures HasCatchAll(old(nodes)) ==> HasCatchAll(nodes)
      ensures error == Some(LastCatchAll) <==>
              var i := IndexOf(old(nodes), id);
              i < |old(nodes)| && old(nodes)[i].ranges == [] && !HasCatchAllBut(old(nodes), i)
    {
      var target, catchAlls := Survey(nodes, id);
      if target < |nodes| && nodes[target].IsCatchAll() {
        OnlyCatchAllIff(nodes, target);
      }
      if target == |nodes| {
        return Some(NotFound);
      }
      if nodes[target].IsCatchAll() && catchAlls == 1 {
        return Some(LastCatchAll);
      }
      CatchAllKept(nodes, target);
      WithoutIsValid(nodes, target);
      nodes := nodes[..target] + nodes[target + 1..];
      return None;
    }
  }

  predicate HasCatchAll(nodes: seq<Node>) {
    exists i :: 0 <= i < |nodes| && nodes[i].IsCatchAll()
  }

  function CatchAlls(nodes: seq<Node>): nat {
    if nodes == [] then 0
    else CatchAlls(nodes[..|nodes| - 1]) + if nodes[|nodes| - 1].IsCatchAll() then 1 else 0
  }

  lemma {:induction false} CatchAllsCount(nodes: seq<Node>)
    ensures CatchAlls(nodes) > 0 <==> HasCatchAll(nodes)
  {
    if nodes != [] {
      CatchAllsCount(nodes[..|nodes| - 1]);
    }
  }

  lemma {:induction false} CatchAllsWithout(nodes: seq<Node>, i: nat)
    requires i < |nodes|
    ensures CatchAlls(nodes) == CatchAlls(nodes[..i] + nodes[i + 1..]) + if nodes[i].IsCatchAll() then 1 else 0
  {
    var init, less := nodes[..|nodes| - 1], nodes[..i] + nodes[i + 1..];
    if i < |nodes| - 1 {
      CatchAllsWithout(init, i);
      assert less[..|less| - 1] == init[..i] + init[i + 1..];
    } else {
      assert less == init;
    }
  }

  lemma Added(nodes: seq<Node>, n: Node)
    requires ValidNodes(nodes) && ValidRanges(n.ranges) && Free(nodes, None, n.ranges)
    requires !NameTaken(nodes, None, n.name) && forall i :: 0 <= i < |nodes| ==> nodes[i].id != n.id
    ensures ValidNodes(nodes + [n])
  {
    forall i | 0 <= i < |nodes|
      ensures Apart(nodes[i].ranges, n.ranges)
    {
      ApartIsSymmetric(n.ranges, nodes[i].ranges);
    }
  }

  lemma Replaced(nodes: seq<Node>, i: nat, n: Node)
    requires ValidNodes(nodes) && i < |nodes| && nodes[i].id == n.id && ValidRanges(n.ranges)
    requires Free(nodes, Some(n.id), n.ranges) && !NameTaken(nodes, Some(n.id), n.name)
    ensures ValidNodes(nodes[i := n])
  {
    forall k | 0 <= k < |nodes| && k != i
      ensures Apart(nodes[k].ranges, n.ranges) && Apart(n.ranges, nodes[k].ranges)
    {
      ApartIsSymmetric(n.ranges, nodes[k].ranges);
    }
  }

  lemma CatchAllKept(nodes: seq<Node>, i: nat)
    requires i < |nodes| && !(nodes[i].IsCatchAll() && CatchAlls(nodes) == 1)
    ensures HasCatchAll(nodes) ==> HasCatchAll(nodes[..i] + nodes[i + 1..])
  {
    CatchAllsWithout(nodes, i);
    CatchAllsCount(nodes);
    CatchAllsCount(nodes[..i] + nodes[i + 1..]);
  }

  lemma WithoutIsValid(nodes: seq<Node>, i: nat)
    requires ValidNodes(nodes) && i < |nodes|
    ensures ValidNodes(nodes[..i] + nodes[i + 1..])
  {
    var less := nodes[..i] + nodes[i + 1..];
    assert forall k :: 0 <= k < |less| ==> less[k] == nodes[if k < i then k else k + 1];
  }

  /** A catch-all other than the i-th node. */
  predicate HasCatchAllBut(nodes: seq<Node>, i: nat) {
    exists k :: 0 <= k < |nodes| && k != i && nodes[k].IsCatchAll()
  }

  /** Counting one catch-all, this one, is the same as finding no other. */
  lemma {:induction false} OnlyCatchAllIff(nodes: seq<Node>, i: nat)
    requires i < |nodes| && nodes[i].IsCatchAll()
    ensures CatchAlls(nodes) >= 1 && (CatchAlls(nodes) == 1 <==> !HasCatchAllBut(nodes, i))
  {
    var init := nodes[..|nodes| - 1];
    if i < |init| {
      OnlyCatchAllIff(init, i);
      ButOneMore(nodes, i);
    } else {
      CatchAllsCount(init);
      assert HasCatchAll(init) <==> HasCatchAllBut(nodes, i);
    }
  }

  lemma ButOneMore(nodes: seq<Node>, i: nat)
    requires i < |nodes| - 1
    ensures HasCatchAllBut(nodes, i) <==> HasCatchAllBut(nodes[..|nodes| - 1], i) || nodes[|nodes| - 1].IsCatchAll()
  {
    var init := nodes[..|nodes| - 1];
    assert forall k :: 0 <= k < |init| ==> init[k] == nodes[k];
  }

  /** Unlike a deletion, an update may leave no catch-all: exactly when it gives ranges to the only one. */
  lemma UpdateKeepsCatchAllIff(nodes: seq<Node>, i: nat, n: Node)
    requires i < |nodes|
    ensures HasCatchAll(nodes[i := n]) <==> n.IsCatchAll() || HasCatchAllBut(nodes, i)
  {
    if n.IsCatchAll() {
      assert nodes[i := n][i].IsCatchAll();
    }
    if HasCatchAllBut(nodes, i) {
      var k :| 0 <= k < |nodes| && k != i && nodes[k].IsCatchAll();
      assert nodes[i := n][k].IsCatchAll();
    }
  }

  lemma ParseOne(r: Range)
    ensures ParseCidrs([Some(r)]) == Some([r])
  {
    var cidrs: seq<Option<Range>> := [Some(r)];
    assert cidrs[..0] == [] && [] + [r] == [r];
  }

  /** It happens: a registry whose only node is a catch-all, given one range, has no node for host names any more. */
  method UpdateLastCatchAll(registry: Registry, id: NodeId, name: string, r: Range)
    requires registry.Valid() && registry.nodes == [Node(id, name, [])] && r.Valid()
    modifies registry
    ensures registry.Valid() && registry.nodes == [Node(id, name, [r])] && !HasCatchAll(registry.nodes)
  {
    ParseOne(r);
    var error := registry.Update(id, name, [Some(r)]);
    assert error.None?;
  }

  // ---- Selecting a node ----

  /** The first listed node that serves the address. */
  method NodeForIp(nodes: seq<Node>, a: Addr) returns (n: Option<Node>)
    requires ValidNodes(nodes)
    ensures n.None? <==> forall i :: 0 <= i < |nodes| ==> !Serves(nodes[i], a)
    ensures n.Some? ==> n.value in nodes && Serves(n.value, a)
  {
    for i := 0 to |nodes|
      invariant forall k :: 0 <= k < i ==> !Serves(nodes[k], a)
    {
      for j := 0 to |nodes[i].ranges|
        invariant forall l :: 0 <= l < j ==> !nodes[i].ranges[l].Contains(a)
      {
        if nodes[i].ranges[j].Contains(a) {
          return Some(nodes[i]);
        }
      }
    }
    return None;
  }

  /** At most one node serves an address, so every listing order finds the same one. */
  lemma ServedByOne(nodes: seq<Node>, a: Addr, m: Node, n: Node)
    requires ValidNodes(nodes) && m in nodes && n in nodes && Serves(m, a) && Serves(n, a)
    ensures m == n
  {
    var i :| 0 <= i < |nodes| && nodes[i] == m;
    var j :| 0 <= j < |nodes| && nodes[j] == n;
    if i < j {
      ApartServeApart(m, n, a);
    } else if j < i {
      ApartServeApart(n, m, a);
    }
  }

  lemma ApartServeApart(m: Node, n: Node, a: Addr)
    requires ValidRanges(m.ranges) && ValidRanges(n.ranges) && Apart(m.ranges, n.ranges)
    ensures !(Serves(m, a) && Serves(n, a))
  {
    forall k, l | 0 <= k < |m.ranges| && 0 <= l < |n.ranges|
      ensures !(m.ranges[k].Contains(a) && n.ranges[l].Contains(a))
    {
      assert !Meet(m.ranges[k], n.ranges[l]);
    }
  }

  /** Targets are addresses, or names, which no range serves. */
  type Target = Option<Addr>

  predicate Hits(targets: seq<Target>, n: Node)
    requires ValidRanges(n.ranges)
  {
    exists i :: 0 <= i < |targets| && targets[i].Some? && Serves(n, targets[i].value)
  }

  /** What selection promises: the only node hit, or the first catch-all when none is. */
  ghost predicate IsSelected(nodes: seq<Node>, targets: seq<Target>, n: Node)
    requires ValidNodes(nodes)
  {
    && n in nodes
    && (Hits(targets, n) || n.IsCatchAll())
    && (forall i :: 0 <= i < |nodes| && Hits(targets, nodes[i]) ==> nodes[i] == n)
    && (n.IsCatchAll() ==> forall i :: 0 <= i < IndexOf(nodes, n.id) ==> !nodes[i].IsCatchAll())
  }

  ghost predicate Splits(nodes: seq<Node>, targets: seq<Target>)
    requires ValidNodes(nodes)
  {
    exists i, j :: 0 <= i < j < |nodes| && Hits(targets, nodes[i]) && Hits(targets, nodes[j])
  }

  method SelectNode(nodes: seq<Node>, targets: seq<Target>) returns (r: Result<Node, Error>)
    requires ValidNodes(nodes)
    ensures r.Ok? ==> IsSelected(nodes, targets, r.value)
    ensures r == Err(SpansNodes) <==> Splits(nodes, targets)
    ensures r == Err(NoNodeForTarget) <==>
            !HasCatchAll(nodes) && forall i :: 0 <= i < |nodes| ==> !Hits(targets, nodes[i])
    ensures r.Ok? || r == Err(SpansNodes) || r == Err(NoNodeForTarget)
  {
    var matched: Option<Node> := None;
    for t := 0 to |targets|
      invariant matched.None? ==> forall i :: 0 <= i < |nodes| ==> !Hits(targets[..t], nodes[i])
      invariant matched.Some? ==> OnlyHit(nodes, targets[..t], matched.value)
    {
      HitsOneMore(nodes, targets, t);
      if targets[t].None? {
        continue;
      }
      var n := NodeForIp(nodes, targets[t].value);
      if n.None? {
        continue;
      }
      ServedOnly(nodes, targets[t].value, n.value);
      if matched.None? {
        matched := n;
      } else if matched.value.id != n.value.id {
        SplitFound(nodes, targets, t, matched.value, n.value);
        return Err(SpansNodes);
      } else {
        SameId(nodes, matched.value, n.value);
      }
    }
    assert targets[..|targets|] == targets;
    if matched.Some? {
      return Ok(matched.value);
    }
    for i := 0 to |nodes|
      invariant forall k :: 0 <= k < i ==> !nodes[k].IsCatchAll()
    {
      if nodes[i].IsCatchAll() {
        return Ok(nodes[i]);
      }
    }
    return Err(NoNodeForTarget);
  }

  ghost predicate OnlyHit(nodes: seq<Node>, targets: seq<Target>, n: Node)
    requires ValidNodes(nodes)
  {
    && n in nodes && Hits(targets, n)
    && forall i :: 0 <= i < |nodes| && Hits(targets, nodes[i]) ==> nodes[i] == n
  }

  lemma HitsOneMore(nodes: seq<Node>, targets: seq<Target>, t: nat)
    requires ValidNodes(nodes) && t < |targets|
    ensures forall i :: 0 <= i < |nodes| ==>
                          (Hits(targets[..t + 1], nodes[i]) <==>
                           Hits(targets[..t], nodes[i]) || (targets[t].Some? && Serves(nodes[i], targets[t].value)))
  {
    forall i | 0 <= i < |nodes|
      ensures Hits(targets[..t + 1], nodes[i]) <==>
              Hits(targets[..t], nodes[i]) || (targets[t].Some? && Serves(nodes[i], targets[t].value))
    {
      assert targets[..t + 1] == targets[..t] + [targets[t]];
    }
  }

  lemma ServedOnly(nodes: seq<Node>, a: Addr, n: Node)
    requires ValidNodes(nodes) && n in nodes && Serves(n, a)
    ensures forall i :: 0 <= i < |nodes| && Serves(nodes[i], a) ==> nodes[i] == n
  {
    forall i | 0 <= i < |nodes| && Serves(nodes[i], a)
      ensures nodes[i] == n
    {
      ServedByOne(nodes, a, nodes[i], n);
    }
  }

  lemma SameId(nodes: seq<Node>, m: Node, n: Node)
    requires ValidNodes(nodes) && m in nodes && n in nodes && m.id == n.id
    ensures m == n
  {
  }

  lemma SplitFound(nodes: seq<Node>, targets: seq<Target>, t: nat, m: Node, n: Node)
    requires ValidNodes(nodes) && t < |targets| && targets[t].Some? && m.id != n.id
    requires m in nodes && n in nodes && Hits(targets[..t], m) && Serves(n, targets[t].value)
    ensures Splits(nodes, targets)
  {
    var i :| 0 <= i < |nodes| && nodes[i] == m;
    var j :| 0 <= j < |nodes| && nodes[j] == n;
    assert Hits(targets, m) by {
      var k :| 0 <= k < t && targets[..t][k].Some? && Serves(m, targets[..t][k].value);
      assert targets[k] == targets[..t][k];
    }
    assert Hits(targets, n);
  }

  /** Selection by coverage does not depend on the listing order: only the fallback does. */
  lemma HitIsOrderIndependent(nodes: seq<Node>, other: seq<Node>, targets: seq<Target>, m: Node, n: Node)
    requires ValidNodes(nodes) && ValidNodes(other) && multiset(nodes) == multiset(other)
    requires IsSelected(nodes, targets, m) && IsSelected(other, targets, n) && Hits(targets, m)
    ensures m == n
  {
    assert m in multiset(other);
    var i :| 0 <= i < |other| && other[i] == m;
  }
}
