/**
 Address ranges in CIDR notation (section 3.1 of RFC 4632), when two of them overlap, and which scan
 targets lie inside an approved scope.
 */
module Cidr {
  import opened Wrappers

  datatype Family = V4 | V6

  function Width(f: Family): nat {
    match f
    case V4 => 32
    case V6 => 128
  }

  function Pow2(n: nat): (p: nat)
    ensures p >= 1
  {
    if n == 0 then 1 else 2 * Pow2(n - 1)
  }

  datatype Addr = Addr(family: Family, value: nat) {
    predicate Valid() {
      value < Pow2(Width(family))
    }
  }

  /** A network: its address with the host bits cleared, and how many leading bits name it. */
  datatype Range = Range(family: Family, base: nat, bits: nat) {
    predicate Valid() {
      bits <= Width(family) && base % Size() == 0 && base + Size() <= Pow2(Width(family))
    }

    function Size(): nat
      requires bits <= Width(family)
    {
      Pow2(Width(family) - bits)
    }

    /** The address masked to the network bits is the network. */
    predicate Contains(a: Addr)
      requires bits <= Width(family)
    {
      a.family == family && a.value - a.value % Size() == base
    }

    function Network(): Addr {
      Addr(family, base)
    }
  }

  /** How many addresses there are, and in a range: one of full length, twice as many with each bit less. */
  lemma SizesAre(r: Range)
    requires r.bits <= Width(r.family)
    ensures Width(V4) == 32 && Pow2(32) == 0x1_0000_0000
    ensures Width(V6) == 128 && Pow2(128) == 0x1_0000_0000_0000_0000 * 0x1_0000_0000_0000_0000
    ensures r.Size() == (if r.bits == Width(r.family) then 1 else 2 * r.(bits := r.bits + 1).Size())
  {
    PowersAre(8, 32, 64, 128);
  }

  lemma PowersAre(a: nat, b: nat, c: nat, d: nat)
    requires a == 8 && b == 32 && c == 64 && d == 128
    ensures Pow2(b) == 0x1_0000_0000
    ensures Pow2(d) == 0x1_0000_0000_0000_0000 * 0x1_0000_0000_0000_0000
  {
    assert Pow2(8) == 0x100;
    Squared(a, 0x100);
    Squared(2 * a, 0x1_0000);
    Squared(b, 0x1_0000_0000);
    Squared(c, 0x1_0000_0000_0000_0000);
  }

  lemma Squared(n: nat, p: nat)
    requires Pow2(n) == p
    ensures Pow2(2 * n) == p * p
  {
    PowSplits(n, n);
    assert n + n == 2 * n;
  }

  // ---- Blocks ----

  lemma Multiple(v: nat, m: nat)
    requires m >= 1
    ensures v == m * (v / m) + v % m && 0 <= v % m < m
  {
  }

  /** Masking names the block of addresses from the base on. */
  lemma ContainsIsBlock(r: Range, a: Addr)
    requires r.Valid()
    ensures r.Contains(a) <==> a.family == r.family && r.base <= a.value < r.base + r.Size()
  {
    BlockOf(a.value, r.base, r.Size());
  }

  lemma BlockOf(v: nat, base: nat, size: nat)
    requires size >= 1 && base % size == 0
    ensures v - v % size == base <==> base <= v < base + size
  {
    Multiple(v, size);
    Multiple(base, size);
    var q, p := v / size, base / size;
    if base <= v < base + size {
      if q < p {
        SameFactor(size, q + 1, p);
      } else if q > p {
        SameFactor(size, p + 1, q);
      }
    }
  }

  lemma SameFactor(size: nat, m: nat, n: nat)
    requires m <= n
    ensures size * m <= size * n
  {
  }

  lemma {:induction false} PowSplits(m: nat, n: nat)
    ensures Pow2(m + n) == Pow2(m) * Pow2(n)
  {
    if n > 0 {
      PowSplits(m, n - 1);
      assert Pow2(m + n) == 2 * (Pow2(m) * Pow2(n - 1)) == Pow2(m) * (2 * Pow2(n - 1));
    }
  }

  lemma {:induction false} PowGrows(m: nat, n: nat)
    requires m < n
    ensures Pow2(m) < Pow2(n)
  {
    if m < n - 1 {
      PowGrows(m, n - 1);
    }
  }

  lemma LessFactor(size: nat, m: nat, n: nat)
    requires size * m < size * n
    ensures m < n
  {
    if n <= m {
      SameFactor(size, n, m);
    }
  }

  lemma Distribute(size: nat, p: nat, k: nat)
    ensures size * (p + k) == size * p + size * k
  {
  }

  /** Blocks of aligned sizes, counted in units of the smaller one. */
  lemma UnitBlocks(size: nat, q: nat, p: nat, k: nat)
    requires size * q < size * p + size * k && size * p < size * q + size
    ensures size * p <= size * q && size * q + size <= size * p + size * k
  {
    Distribute(size, p, k);
    Distribute(size, q, 1);
    LessFactor(size, q, p + k);
    LessFactor(size, p, q + 1);
    SameFactor(size, p, q);
    SameFactor(size, q + 1, p + k);
  }

  lemma Reassociate(size: nat, k: nat, m: nat)
    ensures size * k * m == size * (k * m)
  {
  }

  /** One size a multiple of the other: the smaller block lies inside the larger or apart from it. */
  lemma AlignedBlocks(base: nat, size: nat, outer: nat, k: nat)
    requires size >= 1 && k >= 1 && base % size == 0 && outer % (size * k) == 0
    requires base < outer + size * k && outer < base + size
    ensures outer <= base && base + size <= outer + size * k
  {
    Multiple(base, size);
    Multiple(outer, size * k);
    Reassociate(size, k, outer / (size * k));
    UnitBlocks(size, base / size, k * (outer / (size * k)), k);
  }

  ghost predicate Meet(a: Range, b: Range)
    requires a.Valid() && b.Valid()
  {
    exists x: Addr :: a.Contains(x) && b.Contains(x)
  }

  ghost predicate Inside(a: Range, b: Range)
    requires a.Valid() && b.Valid()
  {
    forall x: Addr :: a.Contains(x) ==> b.Contains(x)
  }

  lemma BaseIsContained(r: Range)
    requires r.Valid()
    ensures r.Contains(r.Network())
  {
  }

  lemma NarrowerIsInside(a: Range, b: Range, x: Addr)
    requires a.Valid() && b.Valid() && b.bits <= a.bits && a.Contains(x) && b.Contains(x)
    ensures Inside(a, b)
  {
    var k := Pow2(a.bits - b.bits);
    PowSplits(Width(a.family) - a.bits, a.bits - b.bits);
    assert b.Size() == a.Size() * k;
    ContainsIsBlock(a, x);
    ContainsIsBlock(b, x);
    AlignedBlocks(a.base, a.Size(), b.base, k);
    forall y: Addr | a.Contains(y)
      ensures b.Contains(y)
    {
      ContainsIsBlock(a, y);
      ContainsIsBlock(b, y);
    }
  }

  /** Two ranges are nested or have no address in common. */
  lemma NestedOrDisjoint(a: Range, b: Range)
    requires a.Valid() && b.Valid()
    ensures Inside(a, b) || Inside(b, a) || !Meet(a, b)
  {
    if Meet(a, b) {
      var x: Addr :| a.Contains(x) && b.Contains(x);
      if b.bits <= a.bits {
        NarrowerIsInside(a, b, x);
      } else {
        NarrowerIsInside(b, a, x);
      }
    }
  }

  /** Looking at the two base addresses is enough to tell whether ranges overlap. */
  lemma OverlapIsExact(a: Range, b: Range)
    requires a.Valid() && b.Valid()
    ensures a.Contains(b.Network()) || b.Contains(a.Network()) <==> Meet(a, b)
  {
    BaseIsContained(a);
    BaseIsContained(b);
    NestedOrDisjoint(a, b);
  }

  // ---- Scope ----

  datatype Asset = Host(name: string) | Ip(addr: Addr) | Subnet(prefix: Range) {
    predicate Valid() {
      match this
      case Host(_) => true
      case Ip(a) => a.Valid()
      case Subnet(r) => r.Valid()
    }
  }

  predicate Covers(a: Asset, t: Asset)
    requires a.Valid() && t.Valid()
  {
    match t
    case Ip(x) => a == t || (a.Subnet? && a.prefix.Contains(x))
    case Host(_) => a == t
    case Subnet(r) =>
      a.Subnet? && a.prefix.family == r.family && a.prefix.bits <= r.bits && a.prefix.Contains(r.Network())
  }

  /** What an approved entry means, as a set of single addresses or as a name. */
  ghost predicate Allows(a: Asset, x: Addr)
    requires a.Valid()
  {
    match a
    case Host(_) => false
    case Ip(y) => x == y
    case Subnet(r) => r.Contains(x)
  }

  /** A subnet is covered by an entry exactly when the entry is a subnet that contains all its addresses. */
  lemma SubnetCoveredIff(a: Asset, r: Range)
    requires a.Valid() && r.Valid()
    ensures Covers(a, Subnet(r)) <==> a.Subnet? && Inside(r, a.prefix)
  {
    BaseIsContained(r);
    if a.Subnet? {
      if Covers(a, Subnet(r)) {
        NarrowerIsInside(r, a.prefix, r.Network());
      }
      if Inside(r, a.prefix) {
        InsideIsNarrower(r, a.prefix);
      }
    }
  }

  lemma InsideIsNarrower(r: Range, s: Range)
    requires r.Valid() && s.Valid() && Inside(r, s)
    ensures s.family == r.family && s.bits <= r.bits && s.Contains(r.Network())
  {
    BaseIsContained(r);
    ContainsIsBlock(s, r.Network());
    var last := Addr(r.family, r.base + r.Size() - 1);
    ContainsIsBlock(r, last);
    ContainsIsBlock(s, last);
    if r.bits < s.bits {
      PowGrows(Width(s.family) - s.bits, Width(r.family) - r.bits);
    }
  }

  /** What an approved entry permits: its own name, its addresses, or subnets made of its addresses. */
  ghost predicate Grants(a: Asset, t: Asset)
    requires a.Valid() && t.Valid()
  {
    match t
    case Host(_) => t == a
    case Ip(x) => Allows(a, x)
    case Subnet(r) => a.Subnet? && Inside(r, a.prefix)
  }

  lemma CoversIsGrants(a: Asset, t: Asset)
    requires a.Valid() && t.Valid()
    ensures Covers(a, t) <==> Grants(a, t)
  {
    if t.Subnet? {
      SubnetCoveredIff(a, t.prefix);
    }
  }

  predicate AllValid(assets: seq<Asset>) {
    forall i :: 0 <= i < |assets| ==> assets[i].Valid()
  }

  ghost predicate Granted(t: Asset, approved: seq<Asset>)
    requires t.Valid() && AllValid(approved)
  {
    exists i :: 0 <= i < |approved| && Grants(approved[i], t)
  }

  method InScope(t: Asset, approved: seq<Asset>) returns (ok: bool)
    requires t.Valid() && AllValid(approved)
    ensures ok <==> Granted(t, approved)
  {
    for i := 0 to |approved|
      invariant forall j :: 0 <= j < i ==> !Grants(approved[j], t)
    {
      CoversIsGrants(approved[i], t);
      if Covers(approved[i], t) {
        return true;
      }
    }
    return false;
  }

  /** A parsed entry, or nothing for text that cannot be classified. */
  type Parsed = o: Option<Asset> | o.Some? ==> o.value.Valid() witness None

  function Readable(entries: seq<Parsed>): (r: seq<Asset>)
    ensures AllValid(r)
  {
    if entries == [] then []
    else
      var last := entries[|entries| - 1];
      Readable(entries[..|entries| - 1]) + if last.Some? then [last.value] else []
  }

  lemma {:induction false} ReadableIff(entries: seq<Parsed>, a: Asset)
    ensures a in Readable(entries) <==> Some(a) in entries
  {
    if entries != [] {
      ReadableIff(entries[..|entries| - 1], a);
      assert entries == entries[..|entries| - 1] + [entries[|entries| - 1]];
    }
  }

  /** What cannot be parsed is out of scope, and so is what no readable entry grants. */
  ghost predicate OutOfScope(target: Parsed, approved: seq<Parsed>) {
    target.None? || forall a: Asset :: Some(a) in approved && a.Valid() ==> !Grants(a, target.value)
  }

  lemma OutOfScopeIff(target: Parsed, approved: seq<Parsed>)
    ensures OutOfScope(target, approved) <==> target.None? || !Granted(target.value, Readable(approved))
  {
    var readable := Readable(approved);
    forall a
      ensures a in readable <==> Some(a) in approved
    {
      ReadableIff(approved, a);
    }
    if target.Some? && Granted(target.value, readable) {
      var i :| 0 <= i < |readable| && Grants(readable[i], target.value);
      assert readable[i] in readable;
    }
  }

  /** The positions of targets no approved entry grants; what cannot be parsed is out of scope. */
  method OutOfScopeHosts(approved: seq<Parsed>, targets: seq<Parsed>) returns (bad: seq<nat>)
    ensures forall k: nat :: k in bad <==> k < |targets| && OutOfScope(targets[k], approved)
    ensures forall i, j :: 0 <= i < j < |bad| ==> bad[i] < bad[j]
  {
    var parsed: seq<Asset> := [];
    for i := 0 to |approved|
      invariant parsed == Readable(approved[..i])
    {
      assert approved[..i + 1][..i] == approved[..i];
      if approved[i].Some? {
        parsed := parsed + [approved[i].value];
      }
    }
    assert approved[..|approved|] == approved;
    bad := [];
    for i := 0 to |targets|
      invariant forall k: nat :: k in bad <==> k < i && OutOfScope(targets[k], approved)
      invariant forall j, k :: 0 <= j < k < |bad| ==> bad[j] < bad[k]
    {
      OutOfScopeIff(targets[i], approved);
      var ok := false;
      if targets[i].Some? {
        ok := InScope(targets[i].value, parsed);
      }
      if !ok {
        assert forall j :: 0 <= j < |bad| ==> bad[j] in bad;
        bad := bad + [i];
      }
    }
  }
}
