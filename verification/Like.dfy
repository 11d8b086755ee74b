/** Keyword search: the escaped ILIKE pattern matches exactly the texts that contain the keyword. */
module Like {
  predicate Special(c: char) { c == '\\' || c == '%' || c == '_' }

  /** Backslash, percent and underscore each get a backslash in front. */
  function EscapeLike(s: string): string {
    if s == "" then ""
    else (if Special(s[0]) then ['\\', s[0]] else [s[0]]) + EscapeLike(s[1..])
  }

  /** The pattern that a keyword search sends. */
  function KeywordPattern(keyword: string): string {
    "%" + EscapeLike(keyword) + "%"
  }

  /** LIKE with ESCAPE '\': percent matches any run, underscore any one character, a backslash takes the
      next character literally. */
  predicate Matches(p: string, s: string)
    decreases |p| + |s|
  {
    if p == "" then s == ""
    else if p[0] == '%' then Matches(p[1..], s) || (s != "" && Matches(p, s[1..]))
    else if p[0] == '_' then s != "" && Matches(p[1..], s[1..])
    else if p[0] == '\\' then |p| >= 2 && s != "" && s[0] == p[1] && Matches(p[2..], s[1..])
    else s != "" && s[0] == p[0] && Matches(p[1..], s[1..])
  }

  /** No escape character is left without a character to escape. */
  predicate WellFormedPattern(p: string) {
    p == "" || (if p[0] == '\\' then |p| >= 2 && WellFormedPattern(p[2..]) else WellFormedPattern(p[1..]))
  }

  /** `t` starts with `k`, and the rest of the pattern takes the rest of the text. */
  predicate StartsThen(k: string, p: string, t: string) {
    k <= t && Matches(p, t[|k|..])
  }

  lemma Regroup(head: string, middle: string, p: string)
    ensures head + middle + p == head + (middle + p)
    ensures (head + middle + p)[|head|..] == middle + p
  {
  }

  lemma EscapeHead(k: string, p: string)
    requires k != ""
    ensures var e, rest := EscapeLike(k) + p, EscapeLike(k[1..]) + p;
            if Special(k[0]) then |e| >= 2 && e[0] == '\\' && e[1] == k[0] && e[2..] == rest
            else |e| >= 1 && e[0] == k[0] && e[1..] == rest
  {
    Regroup(if Special(k[0]) then ['\\', k[0]] else [k[0]], EscapeLike(k[1..]), p);
  }

  lemma {:induction false} EscapedIsLiteral(k: string, p: string, t: string)
    ensures Matches(EscapeLike(k) + p, t) <==> StartsThen(k, p, t)
  {
    if k == "" {
      assert EscapeLike(k) + p == p && t[0..] == t;
    } else {
      EscapeHead(k, p);
      if t != "" {
        EscapedIsLiteral(k[1..], p, t[1..]);
        assert k <= t <==> k[0] == t[0] && k[1..] <= t[1..];
        if k <= t { assert t[|k|..] == t[1..][|k[1..]|..]; }
      }
    }
  }

  /** A trailing percent takes whatever is left. */
  lemma {:induction false} PercentTakesAll(t: string)
    ensures Matches("%", t)
  {
    assert "%"[1..] == "";
    if t != "" { PercentTakesAll(t[1..]); }
  }

  /** What the pattern language means: percent is any run of characters, underscore is any one, a
      backslash makes the next character literal, every other character stands for itself. */
  lemma PatternMeaning(c: char, p: string, t: string)
    ensures Matches("%" + p, t) <==> exists i: nat :: i <= |t| && Matches(p, t[i..])
    ensures Matches("_" + p, t) <==> t != "" && Matches(p, t[1..])
    ensures Matches(['\\', c] + p, t) <==> t != "" && t[0] == c && Matches(p, t[1..])
    ensures c !in {'%', '_', '\\'} ==> (Matches([c] + p, t) <==> t != "" && t[0] == c && Matches(p, t[1..]))
    ensures Matches("", t) <==> t == ""
  {
    PercentIsAnyRun(p, t);
    assert ("_" + p)[1..] == p && (['\\', c] + p)[2..] == p && ([c] + p)[1..] == p;
  }

  lemma {:induction false} PercentIsAnyRun(p: string, t: string)
    ensures Matches("%" + p, t) <==> exists i: nat :: i <= |t| && Matches(p, t[i..])
  {
    assert ("%" + p)[1..] == p && t[0..] == t;
    if t != "" {
      PercentIsAnyRun(p, t[1..]);
      forall i: nat | i < |t| ensures t[1..][i..] == t[i + 1..] {}
      if Matches("%" + p, t[1..]) {
        var i: nat :| i <= |t[1..]| && Matches(p, t[1..][i..]);
        assert Matches(p, t[i + 1..]);
      }
      if i: nat :| i <= |t| && Matches(p, t[i..]) {
        if i > 0 { assert Matches(p, t[1..][i - 1..]); }
      }
    } else {
      assert forall i: nat :: i <= |t| ==> t[i..] == t;
    }
  }

  predicate ContainsAt(s: string, k: string, i: nat) {
    i + |k| <= |s| && s[i..i + |k|] == k
  }

  lemma {:induction false} KeywordMatches(k: string, s: string)
    ensures Matches(KeywordPattern(k), s) <==> exists i: nat :: ContainsAt(s, k, i)
  {
    var p := KeywordPattern(k);
    assert p[0] == '%' && p[1..] == EscapeLike(k) + "%";
    EscapedIsLiteral(k, "%", s);
    if k <= s {
      PercentTakesAll(s[|k|..]);
      assert ContainsAt(s, k, 0);
    } else {
      assert !ContainsAt(s, k, 0);
      if s != "" {
        KeywordMatches(k, s[1..]);
        ContainsShift(s, k);
      }
    }
  }

  /** A text that does not start with `k` contains it exactly when the text after its first character does. */
  lemma ContainsShift(s: string, k: string)
    requires s != "" && !(k <= s)
    ensures (exists i: nat :: ContainsAt(s, k, i)) <==> (exists i: nat :: ContainsAt(s[1..], k, i))
  {
    forall i: nat ensures ContainsAt(s[1..], k, i) <==> ContainsAt(s, k, i + 1) {
      if i + 1 + |k| <= |s| { assert s[1..][i..i + |k|] == s[i + 1..i + 1 + |k|]; }
    }
    assert !ContainsAt(s, k, 0);
    if i: nat :| ContainsAt(s, k, i) {
      assert ContainsAt(s[1..], k, i - 1);
    }
  }

  // ---------- case folding ----------

  function Folded(fold: char -> char, s: string): (r: string)
    ensures |r| == |s| && forall i | 0 <= i < |s| :: r[i] == fold(s[i])
  {
    seq(|s|, i requires 0 <= i < |s| => fold(s[i]))
  }

  /** A case folding changes no pattern character and turns nothing into one. */
  ghost predicate KeepsPatternChars(fold: char -> char) {
    forall c: char :: Special(fold(c)) || Special(c) ==> fold(c) == c
  }

  lemma {:induction false} EscapeFolds(fold: char -> char, k: string)
    requires KeepsPatternChars(fold)
    ensures Folded(fold, EscapeLike(k)) == EscapeLike(Folded(fold, k))
  {
    if k == "" {
      assert Folded(fold, k) == "";
    } else {
      EscapeFolds(fold, k[1..]);
      var head := if Special(k[0]) then ['\\', k[0]] else [k[0]];
      var f := Folded(fold, k);
      assert f[0] == fold(k[0]) && f[1..] == Folded(fold, k[1..]);
      assert fold('\\') == '\\';
      assert Folded(fold, head + EscapeLike(k[1..])) == Folded(fold, head) + Folded(fold, EscapeLike(k[1..]));
      assert Folded(fold, head) == if Special(f[0]) then ['\\', f[0]] else [f[0]];
    }
  }

  lemma {:induction false} EscapeIsWellFormed(k: string, p: string)
    requires WellFormedPattern(p)
    ensures WellFormedPattern(EscapeLike(k) + p)
  {
    if k == "" {
      assert EscapeLike(k) + p == p;
    } else {
      EscapeIsWellFormed(k[1..], p);
      EscapeHead(k, p);
    }
  }

  /** Literal search. For every keyword and text the folded pattern is well formed, and it matches the
      folded text exactly when the folded keyword occurs in it. */
  lemma KeywordSearchIsLiteral(fold: char -> char, k: string, s: string)
    requires KeepsPatternChars(fold)
    ensures WellFormedPattern(Folded(fold, KeywordPattern(k)))
    ensures Matches(Folded(fold, KeywordPattern(k)), Folded(fold, s)) <==>
            exists i: nat :: ContainsAt(Folded(fold, s), Folded(fold, k), i)
  {
    EscapeFolds(fold, k);
    assert fold('%') == '%';
    assert Folded(fold, KeywordPattern(k)) == KeywordPattern(Folded(fold, k));
    KeywordMatches(Folded(fold, k), Folded(fold, s));
    assert WellFormedPattern("") && "%"[1..] == "";
    EscapeIsWellFormed(Folded(fold, k), "%");
    var p := KeywordPattern(Folded(fold, k));
    assert p[1..] == EscapeLike(Folded(fold, k)) + "%";
  }
}
