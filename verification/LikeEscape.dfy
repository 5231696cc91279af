/** Escaping a value for LIKE, and what the escaped patterns then match. */
module LikeEscape {
  predicate IsMeta(c: char) {
    c == '\\' || c == '%' || c == '_'
  }

  /** Replaces every occurrence of one character. */
  function ReplaceAll(s: string, c: char, with: string): string {
    if s == [] then [] else (if s[0] == c then with else [s[0]]) + ReplaceAll(s[1..], c, with)
  }

  /** Three passes, the backslash first so the later escapes are not escaped again. */
  function EscapeLike(s: string): string {
    ReplaceAll(ReplaceAll(ReplaceAll(s, '\\', "\\\\"), '%', "\\%"), '_', "\\_")
  }

  /** One pass, character by character. */
  function EscapeEach(s: string): string {
    if s == [] then [] else (if IsMeta(s[0]) then ['\\', s[0]] else [s[0]]) + EscapeEach(s[1..])
  }

  lemma {:induction false} ReplaceAllConcat(a: string, b: string, c: char, with: string)
    ensures ReplaceAll(a + b, c, with) == ReplaceAll(a, c, with) + ReplaceAll(b, c, with)
  {
    if a == [] {
      assert a + b == b;
    } else {
      assert (a + b)[1..] == a[1..] + b;
      ReplaceAllConcat(a[1..], b, c, with);
    }
  }

  lemma ReplaceOne(x: char, c: char, with: string)
    ensures ReplaceAll([x], c, with) == if x == c then with else [x]
  {
    assert [x][1..] == [];
  }

  lemma ReplaceTwo(x: char, y: char, c: char, with: string)
    ensures ReplaceAll([x, y], c, with) == (if x == c then with else [x]) + (if y == c then with else [y])
  {
    assert [x, y][1..] == [y];
    ReplaceOne(y, c, with);
  }

  /** The three passes escape exactly the three metacharacters, once each. */
  lemma {:induction false} ThreePassesEscapeEach(s: string)
    ensures EscapeLike(s) == EscapeEach(s)
  {
    if s != [] {
      ThreePassesEscapeEach(s[1..]);
      var x, rest := s[0], s[1..];
      assert s == [x] + rest;
      ReplaceAllConcat([x], rest, '\\', "\\\\");
      ReplaceOne(x, '\\', "\\\\");
      var a, a' := ReplaceAll([x], '\\', "\\\\"), ReplaceAll(rest, '\\', "\\\\");
      ReplaceAllConcat(a, a', '%', "\\%");
      if x == '\\' { ReplaceTwo('\\', '\\', '%', "\\%"); } else { ReplaceOne(x, '%', "\\%"); }
      var b, b' := ReplaceAll(a, '%', "\\%"), ReplaceAll(a', '%', "\\%");
      ReplaceAllConcat(b, b', '_', "\\_");
      if |b| == 2 { ReplaceTwo('\\', x, '_', "\\_"); } else { ReplaceOne(x, '_', "\\_"); }
    }
  }

  /** LIKE with the default backslash escape; a pattern ending in a lone backslash matches nothing. */
  predicate Like(p: string, s: string)
    decreases |p| + |s|
  {
    if p == [] then s == []
    else if p[0] == '%' then Like(p[1..], s) || (s != [] && Like(p, s[1..]))
    else if s == [] then false
    else if p[0] == '\\' then |p| >= 2 && p[1] == s[0] && Like(p[2..], s[1..])
    else (p[0] == '_' || p[0] == s[0]) && Like(p[1..], s[1..])
  }

  ghost predicate Contains(s: string, v: string) {
    exists i: nat :: OccursAt(s, v, i)
  }

  predicate OccursAt(s: string, v: string, i: nat) {
    i + |v| <= |s| && s[i..i + |v|] == v
  }

  /** An escaped value matches itself and nothing else. */
  lemma {:induction false} EscapedMatchesLiterally(v: string, rest: string, s: string)
    ensures Like(EscapeEach(v) + rest, s) <==> v <= s && Like(rest, s[|v|..])
    decreases v
  {
    var p := EscapeEach(v) + rest;
    if v == [] {
      assert p == rest && s[0..] == s;
    } else if IsMeta(v[0]) {
      assert p == ['\\', v[0]] + (EscapeEach(v[1..]) + rest);
      assert p[2..] == EscapeEach(v[1..]) + rest;
      if s != [] {
        EscapedMatchesLiterally(v[1..], rest, s[1..]);
        if |v| <= |s| { assert s[1..][|v| - 1..] == s[|v|..]; }
        PrefixStep(v, s);
      }
    } else {
      assert p == [v[0]] + (EscapeEach(v[1..]) + rest);
      assert p[1..] == EscapeEach(v[1..]) + rest;
      if s != [] {
        EscapedMatchesLiterally(v[1..], rest, s[1..]);
        if |v| <= |s| { assert s[1..][|v| - 1..] == s[|v|..]; }
        PrefixStep(v, s);
      }
    }
  }

  lemma PrefixStep(v: string, s: string)
    requires v != [] && s != []
    ensures v <= s <==> v[0] == s[0] && v[1..] <= s[1..]
  {
    if v[0] == s[0] && v[1..] <= s[1..] {
      forall i | 0 <= i < |v|
        ensures v[i] == s[i]
      {
        if i > 0 { assert v[i] == v[1..][i - 1] && s[i] == s[1..][i - 1]; }
      }
    }
  }

  lemma {:induction false} PercentMatchesAll(s: string)
    ensures Like("%", s)
  {
    if s != [] {
      PercentMatchesAll(s[1..]);
    } else {
      assert "%"[1..] == [];
    }
  }

  /** Escaped value followed by a wildcard: exactly the strings starting with the value. */
  lemma PrefixPattern(v: string, s: string)
    ensures Like(EscapeLike(v) + "%", s) <==> v <= s
  {
    ThreePassesEscapeEach(v);
    EscapedMatchesLiterally(v, "%", s);
    if v <= s {
      PercentMatchesAll(s[|v|..]);
    }
  }

  lemma ContainsStep(s: string, v: string)
    ensures Contains(s, v) <==> v <= s || (s != [] && Contains(s[1..], v))
  {
    if Contains(s, v) {
      var i: nat :| OccursAt(s, v, i);
      if i > 0 && s != [] {
        assert s[1..][i - 1..i - 1 + |v|] == s[i..i + |v|];
        assert OccursAt(s[1..], v, i - 1);
      }
    }
    if v <= s {
      assert OccursAt(s, v, 0);
    }
    if s != [] && Contains(s[1..], v) {
      var i: nat :| OccursAt(s[1..], v, i);
      assert s[1..][i..i + |v|] == s[i + 1..i + 1 + |v|];
      assert OccursAt(s, v, i + 1);
    }
  }

  /** Escaped value between wildcards: exactly the strings containing the value. */
  lemma {:induction false} ContainsPattern(v: string, s: string)
    ensures Like("%" + EscapeLike(v) + "%", s) <==> Contains(s, v)
    decreases s
  {
    var p := "%" + EscapeLike(v) + "%";
    assert p[1..] == EscapeLike(v) + "%";
    PrefixPattern(v, s);
    ContainsStep(s, v);
    if s != [] {
      ContainsPattern(v, s[1..]);
    }
  }

  // ---- Case folding ----

  function Folded(fold: char -> char, s: string): string {
    seq(|s|, i requires 0 <= i < |s| => fold(s[i]))
  }

  /** A case folding leaves the metacharacters alone and maps nothing else to them. */
  ghost predicate IsFolding(fold: char -> char) {
    forall c :: (IsMeta(c) ==> fold(c) == c) && (IsMeta(fold(c)) ==> IsMeta(c))
  }

  /** ILIKE compares folded characters. */
  predicate ILike(fold: char -> char, p: string, s: string) {
    Like(Folded(fold, p), Folded(fold, s))
  }

  lemma {:induction false} EscapeFolded(fold: char -> char, v: string)
    requires IsFolding(fold)
    ensures Folded(fold, EscapeEach(v)) == EscapeEach(Folded(fold, v))
  {
    if v != [] {
      EscapeFolded(fold, v[1..]);
      assert Folded(fold, v) == [fold(v[0])] + Folded(fold, v[1..]);
    }
  }

  lemma WrapFolded(fold: char -> char, v: string)
    requires IsFolding(fold)
    ensures Folded(fold, "%" + EscapeLike(v) + "%") == "%" + EscapeLike(Folded(fold, v)) + "%"
    ensures Folded(fold, EscapeLike(v) + "%") == EscapeLike(Folded(fold, v)) + "%"
  {
    ThreePassesEscapeEach(v);
    ThreePassesEscapeEach(Folded(fold, v));
    EscapeFolded(fold, v);
  }
}
