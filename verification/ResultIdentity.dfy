/**
 The identity of a result and the key its lifecycle row is stored under: a canonical, length-prefixed
 encoding that is hashed, then joined to the template id and location by a separator.
 */
module ResultIdentity {
  import opened ByteStrings
  import opened Wrappers

  /** A string as its bytes: lengths and the sort order count bytes. */
  type Text = Bytes

  const COLON: byte := 58

  datatype Identity = Identity(matcherName: Text, extractorName: Text, extracted: seq<Text>)

  // ---- Decimal lengths ----

  /** A decimal number followed by a colon can be read off the front of a text in one way only. */
  lemma LengthPrefixIsUnique(m: nat, n: nat, s: Text, t: Text)
    requires Decimal(m) + [COLON] + s == Decimal(n) + [COLON] + t
    ensures m == n && s == t
  {
    MarkSplits(Decimal(m), Decimal(n), COLON, s, t);
    DecimalReadsBack(m);
    DecimalReadsBack(n);
  }

  // ---- The canonical form ----

  function Part(tag: Text, value: Text): Text {
    tag + Decimal(|value|) + [COLON] + value
  }

  function Parts(values: seq<Text>): Text {
    if values == [] then [] else Part([], values[0]) + Parts(values[1..])
  }

  const M: Text := [109]
  const E: Text := [101]
  const X: Text := [120]

  /** The number of values, then the values. */
  function Listing(values: seq<Text>): Text {
    X + (Decimal(|values|) + [COLON] + Parts(values))
  }

  function Encoded(matcher: Text, extractor: Text, values: seq<Text>): Text {
    Part(M, matcher) + (Part(E, extractor) + Listing(values))
  }

  function Canonical(id: Identity): Text {
    Encoded(id.matcherName, id.extractorName, Sorted(id.extracted))
  }

  lemma PartIsUnique(tag: Text, v: Text, w: Text, s: Text, t: Text)
    requires Part(tag, v) + s == Part(tag, w) + t
    ensures v == w && s == t
  {
    assert (Part(tag, v) + s)[|tag|..] == Decimal(|v|) + [COLON] + (v + s);
    assert (Part(tag, w) + t)[|tag|..] == Decimal(|w|) + [COLON] + (w + t);
    LengthPrefixIsUnique(|v|, |w|, v + s, w + t);
    assert v == (v + s)[..|v|] == (w + t)[..|w|] == w;
    assert s == (v + s)[|v|..] == (w + t)[|w|..] == t;
  }

  lemma {:induction false} PartsAreUnique(vs: seq<Text>, ws: seq<Text>)
    requires |vs| == |ws| && Parts(vs) == Parts(ws)
    ensures vs == ws
  {
    if vs != [] {
      PartIsUnique([], vs[0], ws[0], Parts(vs[1..]), Parts(ws[1..]));
      PartsAreUnique(vs[1..], ws[1..]);
    }
  }

  lemma ListingIsUnique(vs: seq<Text>, ws: seq<Text>)
    requires Listing(vs) == Listing(ws)
    ensures vs == ws
  {
    assert Listing(vs)[1..] == Decimal(|vs|) + [COLON] + Parts(vs);
    assert Listing(ws)[1..] == Decimal(|ws|) + [COLON] + Parts(ws);
    LengthPrefixIsUnique(|vs|, |ws|, Parts(vs), Parts(ws));
    PartsAreUnique(vs, ws);
  }

  lemma EncodedIsUnique(m: Text, e: Text, vs: seq<Text>, m': Text, e': Text, ws: seq<Text>)
    requires Encoded(m, e, vs) == Encoded(m', e', ws)
    ensures m == m' && e == e' && vs == ws
  {
    PartIsUnique(M, m, m', Part(E, e) + Listing(vs), Part(E, e') + Listing(ws));
    PartIsUnique(E, e, e', Listing(vs), Listing(ws));
    ListingIsUnique(vs, ws);
  }

  // ---- Sorting ----

  predicate LexLe(a: Text, b: Text) {
    a == [] || (b != [] && (a[0] < b[0] || (a[0] == b[0] && LexLe(a[1..], b[1..]))))
  }

  lemma {:induction false} LexTotal(a: Text, b: Text)
    ensures LexLe(a, b) || LexLe(b, a)
    ensures LexLe(a, b) && LexLe(b, a) ==> a == b
  {
    if a != [] && b != [] && a[0] == b[0] {
      LexTotal(a[1..], b[1..]);
      assert a == [a[0]] + a[1..] && b == [b[0]] + b[1..];
    }
  }

  lemma {:induction false} LexTransitive(a: Text, b: Text, c: Text)
    requires LexLe(a, b) && LexLe(b, c)
    ensures LexLe(a, c)
  {
    if a != [] && a[0] == b[0] == c[0] {
      LexTransitive(a[1..], b[1..], c[1..]);
    }
  }

  predicate Ordered(s: seq<Text>) {
    forall i, j :: 0 <= i < j < |s| ==> LexLe(s[i], s[j])
  }

  function Insert(v: Text, s: seq<Text>): (r: seq<Text>)
    requires Ordered(s)
    ensures Ordered(r) && multiset(r) == multiset{v} + multiset(s)
  {
    if s == [] then [v]
    else if LexLe(v, s[0]) then
      assert Ordered([v] + s) by {
        forall i | 0 <= i < |s|
          ensures LexLe(v, s[i])
        {
          if i > 0 { LexTransitive(v, s[0], s[i]); }
        }
      }
      [v] + s
    else
      var rest := Insert(v, s[1..]);
      assert s == [s[0]] + s[1..];
      assert Ordered([s[0]] + rest) by {
        LexTotal(v, s[0]);
        forall i | 0 <= i < |rest|
          ensures LexLe(s[0], rest[i])
        {
          assert rest[i] in multiset(rest);
          assert rest[i] == v || rest[i] in s[1..];
        }
      }
      [s[0]] + rest
  }

  /** The sorted copy, duplicates retained. */
  function Sorted(s: seq<Text>): (r: seq<Text>)
    ensures Ordered(r) && multiset(r) == multiset(s) && |r| == |s|
  {
    if s == [] then []
    else
      assert s == [s[0]] + s[1..];
      var r := Insert(s[0], Sorted(s[1..]));
      assert |multiset(r)| == |multiset(s)|;
      r
  }

  lemma SmallestFirst(s: seq<Text>, v: Text)
    requires Ordered(s) && v in s
    ensures LexLe(s[0], v)
  {
    LexTotal(v, v);
  }

  lemma HeadsAgree(a: seq<Text>, b: seq<Text>)
    requires Ordered(a) && Ordered(b) && multiset(a) == multiset(b) && a != []
    ensures b != [] && a[0] == b[0]
  {
    assert a[0] in multiset(b);
    assert b[0] in multiset(a);
    SmallestFirst(a, b[0]);
    SmallestFirst(b, a[0]);
    LexTotal(a[0], b[0]);
  }

  lemma TailsAgree<T>(a: seq<T>, b: seq<T>)
    requires a != [] && b != [] && a[0] == b[0] && multiset(a) == multiset(b)
    ensures multiset(a[1..]) == multiset(b[1..])
  {
    assert a == [a[0]] + a[1..] && b == [b[0]] + b[1..];
    assert multiset(a[1..]) == multiset(a) - multiset{a[0]};
    assert multiset(b[1..]) == multiset(b) - multiset{b[0]};
  }

  /** Only one ordered sequence has a given multiset of values. */
  lemma {:induction false} OrderedIsUnique(a: seq<Text>, b: seq<Text>)
    requires Ordered(a) && Ordered(b) && multiset(a) == multiset(b)
    ensures a == b
  {
    if a == [] {
      assert |multiset(b)| == 0;
    } else {
      HeadsAgree(a, b);
      TailsAgree(a, b);
      OrderedIsUnique(a[1..], b[1..]);
      assert a == [a[0]] + a[1..] && b == [b[0]] + b[1..];
    }
  }

  // ---- Equal encodings, equal identities ----

  /** Source order of the extracted results does not matter; their number of occurrences does. */
  predicate Same(a: Identity, b: Identity) {
    a.matcherName == b.matcherName && a.extractorName == b.extractorName && multiset(a.extracted) == multiset(b.extracted)
  }

  /** The canonical form identifies matcher, extractor and the multiset of extracted values, and nothing more. */
  lemma CanonicalIdentifies(a: Identity, b: Identity)
    ensures Canonical(a) == Canonical(b) <==> Same(a, b)
  {
    var vs, ws := Sorted(a.extracted), Sorted(b.extracted);
    if Canonical(a) == Canonical(b) {
      EncodedIsUnique(a.matcherName, a.extractorName, vs, b.matcherName, b.extractorName, ws);
      assert multiset(a.extracted) == multiset(vs);
    }
    if Same(a, b) {
      OrderedIsUnique(vs, ws);
    }
  }

  /** The text that is hashed, as stored digests depend on it. */
  lemma CanonicalText(id: Identity)
    ensures var sorted := Sorted(id.extracted);
            Canonical(id) ==
            [109] + Decimal(|id.matcherName|) + [58] + id.matcherName
            + ([101] + Decimal(|id.extractorName|) + [58] + id.extractorName
               + ([120] + (Decimal(|id.extracted|) + [58] + Parts(sorted))))
    ensures Parts([]) == []
    ensures forall values: seq<Text>, last: Text ::
              Parts(values + [last]) == Parts(values) + (Decimal(|last|) + [58] + last)
  {
    forall values: seq<Text>, last: Text
      ensures Parts(values + [last]) == Parts(values) + (Decimal(|last|) + [58] + last)
    {
      PartsOfBoth(values, last);
      assert [] + Decimal(|last|) == Decimal(|last|);
    }
  }

  /** The order is that of the bytes at the first difference, a proper prefix coming first. */
  lemma {:induction false} LexIff(a: Text, b: Text)
    ensures LexLe(a, b) <==> a <= b || exists k :: 0 <= k < |a| && k < |b| && a[..k] == b[..k] && a[k] < b[k]
  {
    if a != [] && b != [] {
      LexIff(a[1..], b[1..]);
      forall k | 0 < k < |a| && k < |b| && a[..k] == b[..k]
        ensures a[0] == b[0]
      {
        SameHead(a, b, k);
      }
      if a[0] == b[0] {
        DifferLater(a, b);
      } else {
        assert a[..0] == b[..0];
      }
    }
  }

  lemma SameHead(a: Text, b: Text, k: nat)
    requires 0 < k < |a| && k < |b| && a[..k] == b[..k]
    ensures a[0] == b[0]
  {
    assert a[..k][0] == a[0] && b[..k][0] == b[0];
  }

  lemma DifferLater(a: Text, b: Text)
    requires a != [] && b != [] && a[0] == b[0]
    ensures a <= b <==> a[1..] <= b[1..]
    ensures (exists k :: 0 <= k < |a| && k < |b| && a[..k] == b[..k] && a[k] < b[k]) <==>
            exists k :: 0 <= k < |a[1..]| && k < |b[1..]| && a[1..][..k] == b[1..][..k] && a[1..][k] < b[1..][k]
  {
    var s, t := a[1..], b[1..];
    assert a == [a[0]] + s && b == [b[0]] + t;
    if k :| 0 <= k < |a| && k < |b| && a[..k] == b[..k] && a[k] < b[k] {
      assert s[..k - 1] == a[..k][1..] == b[..k][1..] == t[..k - 1];
      assert s[k - 1] == a[k] && t[k - 1] == b[k];
    }
    if k :| 0 <= k < |s| && k < |t| && s[..k] == t[..k] && s[k] < t[k] {
      assert a[..k + 1] == [a[0]] + s[..k] == [b[0]] + t[..k] == b[..k + 1];
      assert a[k + 1] == s[k] && b[k + 1] == t[k];
    }
  }

  // ---- The discriminator ----

  predicate IsBlank(id: Identity) {
    id.matcherName == [] && id.extractorName == [] && id.extracted == []
  }

  /** The encoding as it is written part by part; the digest of an empty identity is the empty string. */
  method ResultDiscriminator(id: Identity, hash: Text -> string) returns (d: string)
    ensures d == Discriminator(id, hash)
  {
    var sorted := Sorted(id.extracted);
    if id.matcherName == [] && id.extractorName == [] && |sorted| == 0 {
      return "";
    }
    var canonical := Encode(id.matcherName, id.extractorName, sorted);
    d := hash(canonical);
  }

  method Encode(matcher: Text, extractor: Text, sorted: seq<Text>) returns (canonical: Text)
    ensures canonical == Encoded(matcher, extractor, sorted)
  {
    canonical := AppendIdentityPart([], M, matcher);
    canonical := AppendIdentityPart(canonical, E, extractor);
    canonical := canonical + (X + Decimal(|sorted|) + [COLON]);
    canonical := AppendValues(canonical, sorted);
    PartsRegroup([] + Part(M, matcher), Part(E, extractor), X, Decimal(|sorted|), [COLON], Parts(sorted));
  }

  lemma PartsRegroup(a: Text, b: Text, c: Text, d: Text, e: Text, f: Text)
    ensures a + b + (c + d + e) + f == a + (b + (c + (d + e + f)))
  {
  }

  method AppendValues(dst: Text, values: seq<Text>) returns (r: Text)
    ensures r == dst + Parts(values)
  {
    r := dst;
    for i := 0 to |values|
      invariant r == dst + Parts(values[..i])
    {
      r := AppendIdentityPart(r, [], values[i]);
      PartsOfFront(values, i);
      assert r == dst + (Parts(values[..i]) + Part([], values[i]));
    }
    assert values[..|values|] == values;
  }

  lemma PartsOfFront(values: seq<Text>, i: nat)
    requires i < |values|
    ensures Parts(values[..i + 1]) == Parts(values[..i]) + Part([], values[i])
  {
    assert values[..i + 1] == values[..i] + [values[i]];
    PartsOfBoth(values[..i], values[i]);
  }

  lemma {:induction false} PartsOfBoth(values: seq<Text>, last: Text)
    ensures Parts(values + [last]) == Parts(values) + Part([], last)
  {
    if values == [] {
      assert [last][1..] == [];
    } else {
      PartsOfBoth(values[1..], last);
      assert (values + [last])[1..] == values[1..] + [last];
    }
  }

  method AppendIdentityPart(dst: Text, tag: Text, value: Text) returns (r: Text)
    ensures r == dst + Part(tag, value)
  {
    r := dst + tag;
    r := r + Decimal(|value|);
    r := r + [COLON];
    r := r + value;
  }

  function Discriminator(id: Identity, hash: Text -> string): string {
    if IsBlank(id) then "" else hash(Canonical(id))
  }

  /** What is assumed of the hash: these two texts do not collide, and digests are printable and non-empty. */
  predicate NoCollision(hash: Text -> string, s: Text, t: Text) {
    && (hash(s) == hash(t) ==> s == t)
    && hash(s) != "" && Sanitized(hash(s)) == hash(s)
    && hash(t) != "" && Sanitized(hash(t)) == hash(t)
  }

  lemma DiscriminatorIdentifies(a: Identity, b: Identity, hash: Text -> string)
    requires NoCollision(hash, Canonical(a), Canonical(b))
    ensures Discriminator(a, hash) == Discriminator(b, hash) <==> Same(a, b)
    ensures Discriminator(a, hash) == "" <==> IsBlank(a)
  {
    CanonicalIdentifies(a, b);
    if Same(a, b) {
      assert |a.extracted| == |multiset(a.extracted)| == |multiset(b.extracted)| == |b.extracted|;
    }
  }

  // ---- The key ----

  const SEPARATOR: char := 0x1f as char

  predicate IsControl(c: char) {
    (c as int) < 0x20 || c as int == 0x7f
  }

  function Sanitized(s: string): (r: string)
    ensures SEPARATOR !in r
  {
    if s == "" then "" else (if IsControl(s[0]) then "" else [s[0]]) + Sanitized(s[1..])
  }

  /** The components joined by the separator; an absent discriminator leaves its separator out too. */
  function KeyText(template: string, location: string, discriminator: Option<string>): string {
    template + [SEPARATOR] + Ending(location, discriminator)
  }

  function Ending(location: string, discriminator: Option<string>): string {
    match discriminator
    case None => location
    case Some(d) => location + [SEPARATOR] + d
  }

  function DedupKey(templateId: string, matchedAt: string, discriminator: string): string {
    KeyText(Sanitized(templateId), Sanitized(matchedAt), Component(discriminator))
  }

  function Component(discriminator: string): (c: Option<string>)
    ensures c.None? <==> discriminator == ""
  {
    if discriminator == "" then None else Some(Sanitized(discriminator))
  }

  lemma EndingIsUnique(m: string, d: Option<string>, m': string, d': Option<string>)
    requires SEPARATOR !in m && SEPARATOR !in m' && Ending(m, d) == Ending(m', d')
    ensures m == m' && d == d'
  {
    EndingIsMarked(m, d);
    EndingIsMarked(m', d');
    if d.Some? && d'.Some? {
      MarkSplits(m, m', SEPARATOR, d.value, d'.value);
    }
  }

  lemma EndingIsMarked(m: string, d: Option<string>)
    requires SEPARATOR !in m
    ensures SEPARATOR in Ending(m, d) <==> d.Some?
  {
    if d.Some? {
      assert Ending(m, d)[|m|] == SEPARATOR;
    }
  }

  lemma JoinedIsUnique(t: string, m: string, d: Option<string>, t': string, m': string, d': Option<string>)
    requires SEPARATOR !in t && SEPARATOR !in t' && SEPARATOR !in m && SEPARATOR !in m'
    requires KeyText(t, m, d) == KeyText(t', m', d')
    ensures t == t' && m == m' && d == d'
  {
    MarkSplits(t, t', SEPARATOR, Ending(m, d), Ending(m', d'));
    EndingIsUnique(m, d, m', d');
  }

  lemma JoinedIdentifies(t: string, m: string, d: Option<string>, t': string, m': string, d': Option<string>)
    requires SEPARATOR !in t && SEPARATOR !in t' && SEPARATOR !in m && SEPARATOR !in m'
    ensures KeyText(t, m, d) == KeyText(t', m', d') <==> t == t' && m == m' && d == d'
  {
    if KeyText(t, m, d) == KeyText(t', m', d') {
      JoinedIsUnique(t, m, d, t', m', d');
    }
  }

  /**
   The key is injective on sanitised components; an absent discriminator differs from every present
   one, even from one that sanitises to nothing.
   */
  lemma DedupKeyIdentifies(t: string, m: string, d: string, t': string, m': string, d': string)
    ensures DedupKey(t, m, d) == DedupKey(t', m', d') <==>
            Sanitized(t) == Sanitized(t') && Sanitized(m) == Sanitized(m') && Component(d) == Component(d')
  {
    JoinedIdentifies(Sanitized(t), Sanitized(m), Component(d), Sanitized(t'), Sanitized(m'), Component(d'));
  }

  lemma DiscriminatorComponents(a: Identity, b: Identity, hash: Text -> string)
    requires NoCollision(hash, Canonical(a), Canonical(b))
    ensures Component(Discriminator(a, hash)) == Component(Discriminator(b, hash)) <==> Same(a, b)
  {
    DiscriminatorIdentifies(a, b, hash);
    ComponentOfDigest(a, hash);
    ComponentOfDigest(b, hash);
  }

  lemma ComponentOfDigest(id: Identity, hash: Text -> string)
    requires NoCollision(hash, Canonical(id), Canonical(id))
    ensures Component(Discriminator(id, hash)) ==
            if Discriminator(id, hash) == "" then None else Some(Discriminator(id, hash))
  {
  }

  /** Two results share a lifecycle row exactly when template, location and identity agree. */
  lemma SameRowIff(t: string, m: string, a: Identity, t': string, m': string, b: Identity, hash: Text -> string)
    requires NoCollision(hash, Canonical(a), Canonical(b))
    ensures DedupKey(t, m, Discriminator(a, hash)) == DedupKey(t', m', Discriminator(b, hash)) <==>
            Sanitized(t) == Sanitized(t') && Sanitized(m) == Sanitized(m') && Same(a, b)
  {
    DedupKeyIdentifies(t, m, Discriminator(a, hash), t', m', Discriminator(b, hash));
    DiscriminatorComponents(a, b, hash);
  }

  // What sanitising does, character by character.

  predicate Printable(s: string) {
    forall i :: 0 <= i < |s| ==> 0x20 <= s[i] as int && s[i] as int != 0x7f
  }

  /** Each character is kept or dropped by itself, and the kept ones stay in order. */
  lemma {:induction false} SanitizedByPart(s: string, c: char)
    ensures Sanitized(s + [c]) == Sanitized(s) + if c as int < 0x20 || c as int == 0x7f then "" else [c]
  {
    if |s| == 0 {
      SanitizedOne(s, c);
    } else {
      SanitizedByPart(s[1..], c);
      SanitizedRest(s, c);
    }
  }

  lemma SanitizedOne(s: string, c: char)
    requires |s| == 0
    ensures Sanitized(s + [c]) == Sanitized(s) + if c as int < 0x20 || c as int == 0x7f then "" else [c]
  {
    assert s + [c] == [c] && [c][1..] == s;
  }

  lemma SanitizedRest(s: string, c: char)
    requires s != ""
    ensures Sanitized(s) == (if IsControl(s[0]) then "" else [s[0]]) + Sanitized(s[1..])
    ensures Sanitized(s + [c]) == (if IsControl(s[0]) then "" else [s[0]]) + Sanitized(s[1..] + [c])
  {
    var t := s + [c];
    assert t[0] == s[0] && t[1..] == s[1..] + [c];
  }

  /** Only the control characters below 0x20 and 0x7f go. */
  lemma {:induction false} SanitizedHas(s: string, c: char)
    ensures c in Sanitized(s) <==> c in s && 0x20 <= c as int && c as int != 0x7f
  {
    if s != "" {
      SanitizedHas(s[1..], c);
      assert c in s <==> c == s[0] || c in s[1..];
    }
  }

  /** Text without control characters is its own sanitised form: there, nothing is merged by sanitising. */
  lemma {:induction false} CleanTextIsKept(s: string)
    ensures Sanitized(s) == s <==> Printable(s)
  {
    if s != "" {
      CleanTextIsKept(s[1..]);
      SanitizedIsShorter(s[1..]);
      PrintableRest(s);
      if Sanitized(s) == s && !IsControl(s[0]) {
        assert ([s[0]] + Sanitized(s[1..]))[1..] == Sanitized(s[1..]);
      }
    }
  }

  lemma PrintableRest(s: string)
    requires s != ""
    ensures Printable(s) <==> Printable(s[1..]) && 0x20 <= s[0] as int && s[0] as int != 0x7f
  {
    assert forall i :: 1 <= i < |s| ==> s[i] == s[1..][i - 1];
    assert forall i :: 0 <= i < |s[1..]| ==> s[1..][i] == s[i + 1];
  }

  /** On such text the key is the fields with 0x1f between them, and equal keys mean equal fields. */
  lemma PrintableKeys(t: string, m: string, d: string, t': string, m': string, d': string)
    requires Printable(t) && Printable(m) && Printable(d) && Printable(t') && Printable(m') && Printable(d')
    ensures DedupKey(t, m, d) == t + [0x1f as char] + m + if d == "" then "" else [0x1f as char] + d
    ensures DedupKey(t, m, d) == DedupKey(t', m', d') <==> t == t' && m == m' && d == d'
  {
    PrintableKey(t, m, d);
    PrintableFields(t, m, d);
    PrintableFields(t', m', d');
    DedupKeyIdentifies(t, m, d, t', m', d');
  }

  lemma PrintableFields(t: string, m: string, d: string)
    requires Printable(t) && Printable(m) && Printable(d)
    ensures Sanitized(t) == t && Sanitized(m) == m && Component(d) == if d == "" then None else Some(d)
  {
    CleanTextIsKept(t);
    CleanTextIsKept(m);
    CleanTextIsKept(d);
  }

  lemma PrintableKey(t: string, m: string, d: string)
    requires Printable(t) && Printable(m) && Printable(d)
    ensures DedupKey(t, m, d) == t + [0x1f as char] + m + if d == "" then "" else [0x1f as char] + d
  {
    PrintableFields(t, m, d);
    assert t + [SEPARATOR] + (m + [SEPARATOR] + d) == t + [SEPARATOR] + m + ([SEPARATOR] + d);
    assert t + [SEPARATOR] + m + "" == t + [SEPARATOR] + m;
  }

  lemma {:induction false} SanitizedIsShorter(s: string)
    ensures |Sanitized(s)| <= |s|
  {
    if s != "" {
      SanitizedIsShorter(s[1..]);
    }
  }
}
