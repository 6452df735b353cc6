/** escape_like_pattern, and what the escaped pattern means under SQL LIKE with ESCAPE '\'
    (section 8.5 of SQL-92). */
module LikePattern {
  import opened Sequences

  function ReplaceChar(x: char, c: char, put: string): string {
    if x == c then put else [x]
  }

  /** str.replace for a one-character search string. */
  function Replace(s: string, c: char, put: string): string {
    if s == [] then [] else ReplaceChar(s[0], c, put) + Replace(s[1..], c, put)
  }

  /** Backslash first, so that the backslashes added later stay single. */
  function EscapeLikePattern(pattern: string): string {
    if pattern == [] then pattern
    else Replace(Replace(Replace(pattern, '\\', "\\\\"), '%', "\\%"), '_', "\\_")
  }

  predicate Special(c: char) {
    c == '\\' || c == '%' || c == '_'
  }

  /** One pass: a backslash before every special character. */
  function Escaped(pattern: string): string {
    if pattern == [] then []
    else (if Special(pattern[0]) then ['\\', pattern[0]] else [pattern[0]]) + Escaped(pattern[1..])
  }

  /** Whether s is like pattern. A percent sign takes any substring, an underscore any
      character, a backslash makes the next character plain; a trailing one matches nothing. */
  ghost predicate Like(s: string, pattern: string)
    decreases |pattern|
  {
    if pattern == [] then s == []
    else if pattern[0] == '%' then exists i :: 0 <= i <= |s| && Like(s[i..], pattern[1..])
    else if pattern[0] == '_' then s != [] && Like(s[1..], pattern[1..])
    else if pattern[0] == '\\' then |pattern| >= 2 && s != [] && s[0] == pattern[1] && Like(s[1..], pattern[2..])
    else s != [] && s[0] == pattern[0] && Like(s[1..], pattern[1..])
  }

  lemma {:induction false} ReplaceConcat(s: string, t: string, c: char, put: string)
    ensures Replace(s + t, c, put) == Replace(s, c, put) + Replace(t, c, put)
  {
    if s == [] {
      assert s + t == t;
    } else {
      ReplaceConcat(s[1..], t, c, put);
      assert (s + t)[0] == s[0] && (s + t)[1..] == s[1..] + t;
      Associates(ReplaceChar(s[0], c, put), Replace(s[1..], c, put), Replace(t, c, put));
    }
  }

  lemma ReplaceOne(x: char, c: char, put: string)
    ensures Replace([x], c, put) == if x == c then put else [x]
  {
    assert Replace([x][1..], c, put) == [];
  }

  lemma ReplaceTwo(x: char, y: char, c: char, put: string)
    ensures Replace([x, y], c, put) == Replace([x], c, put) + Replace([y], c, put)
  {
    assert [x, y] == [x] + [y];
    ReplaceConcat([x], [y], c, put);
  }

  /** The chain of replacements on one character. */
  lemma ChainOnOne(x: char)
    ensures Replace(Replace(Replace([x], '\\', "\\\\"), '%', "\\%"), '_', "\\_") == Escaped([x])
  {
    assert Escaped([x]) == (if Special(x) then ['\\', x] else [x]) + Escaped([x][1..]);
    ReplaceOne(x, '\\', "\\\\");
    ReplaceOne(x, '%', "\\%");
    ReplaceOne(x, '_', "\\_");
    ReplaceOne('\\', '%', "\\%");
    ReplaceOne('\\', '_', "\\_");
    ReplaceOne('%', '_', "\\_");
    ReplaceTwo('\\', '\\', '%', "\\%");
    ReplaceTwo('\\', '\\', '_', "\\_");
    ReplaceTwo('\\', '%', '_', "\\_");
  }

  /** The three chained replacements are the one-pass escape. */
  lemma {:induction false} EscapeIsOnePass(pattern: string)
    ensures EscapeLikePattern(pattern) == Escaped(pattern)
  {
    if pattern == [] {
    } else {
      var head, tail := [pattern[0]], pattern[1..];
      EscapeIsOnePass(tail);
      ChainOnOne(pattern[0]);
      assert pattern == head + tail;
      var a, b := Replace(head, '\\', "\\\\"), Replace(tail, '\\', "\\\\");
      ReplaceConcat(head, tail, '\\', "\\\\");
      ReplaceConcat(a, b, '%', "\\%");
      ReplaceConcat(Replace(a, '%', "\\%"), Replace(b, '%', "\\%"), '_', "\\_");
      assert Escaped(head) == (if Special(pattern[0]) then ['\\', pattern[0]] else head) + Escaped(head[1..]);
    }
  }

  /** An escaped character takes exactly itself. */
  lemma EscapedCharacter(s: string, c: char, p: string)
    ensures Like(s, (if Special(c) then ['\\', c] else [c]) + p) <==> s != [] && s[0] == c && Like(s[1..], p)
  {
    var q := (if Special(c) then ['\\', c] else [c]) + p;
    if Special(c) {
      assert q[0] == '\\' && q[1] == c && q[2..] == p;
    } else {
      assert q[0] == c && q[1..] == p;
    }
  }

  lemma PrefixStep(s: string, c: char, tail: string)
    requires s != []
    ensures [c] + tail <= s <==> s[0] == c && tail <= s[1..]
    ensures [c] + tail <= s ==> s[1..][|tail|..] == s[1 + |tail|..]
  {
    if s[0] == c && tail <= s[1..] {
      assert s == [c] + s[1..];
    }
  }

  /** A string that starts with the literal text goes on against the rest of the pattern. */
  lemma {:induction false} EscapedMatchesPrefix(s: string, text: string, rest: string)
    ensures Like(s, Escaped(text) + rest) <==> text <= s && Like(s[|text|..], rest)
  {
    if text == [] {
      assert Escaped(text) + rest == rest && s[0..] == s;
    } else {
      var c, tail := text[0], text[1..];
      var p := Escaped(tail) + rest;
      assert Escaped(text) + rest == (if Special(c) then ['\\', c] else [c]) + p;
      EscapedCharacter(s, c, p);
      assert text == [c] + tail;
      if s != [] {
        EscapedMatchesPrefix(s[1..], tail, rest);
        PrefixStep(s, c, tail);
      }
    }
  }

  /** The escaped pattern matches its own text and nothing else. */
  lemma EscapedMatchesExactly(s: string, text: string)
    ensures Like(s, EscapeLikePattern(text)) <==> s == text
  {
    EscapeIsOnePass(text);
    EscapedMatchesPrefix(s, text, "");
    assert Escaped(text) + "" == Escaped(text);
  }

  ghost predicate ContainsAt(s: string, text: string, i: nat) {
    i + |text| <= |s| && s[i..i + |text|] == text
  }

  lemma PercentMatchesAll(s: string)
    ensures Like(s, "%")
  {
    assert "%"[1..] == "";
    assert Like(s[|s|..], "%"[1..]);
  }

  /** Between two percent signs it matches exactly the strings that contain the text. */
  lemma EscapedMatchesSubstring(s: string, text: string)
    ensures Like(s, "%" + EscapeLikePattern(text) + "%") <==> exists i: nat :: ContainsAt(s, text, i)
  {
    var p := "%" + EscapeLikePattern(text) + "%";
    EscapeIsOnePass(text);
    assert p[1..] == Escaped(text) + "%";
    forall i | 0 <= i <= |s| ensures Like(s[i..], p[1..]) <==> ContainsAt(s, text, i) {
      EscapedMatchesPrefix(s[i..], text, "%");
      if text <= s[i..] {
        PercentMatchesAll(s[i..][|text|..]);
        assert s[i..i + |text|] == s[i..][..|text|];
      }
      if ContainsAt(s, text, i) { assert s[i..][..|text|] == text; }
    }
    if exists i: nat :: ContainsAt(s, text, i) {
      var i: nat :| ContainsAt(s, text, i);
      assert Like(s[i..], p[1..]);
    }
  }

  // --- What escaping is for ---------------------------------------------------

  lemma {:induction false} PlainIsEscaped(text: string)
    requires forall i :: 0 <= i < |text| ==> !Special(text[i])
    ensures Escaped(text) == text
  {
    if text == [] {
    } else {
      PlainIsEscaped(text[1..]);
    }
  }

  /** A pattern that matches anything matches something no longer than itself. */
  lemma {:induction false} ShortMatch(s: string, pattern: string) returns (short: string)
    requires Like(s, pattern)
    ensures Like(short, pattern) && |short| <= |pattern|
    decreases |pattern|
  {
    if pattern == [] {
      short := [];
    } else if pattern[0] == '%' {
      var i :| 0 <= i <= |s| && Like(s[i..], pattern[1..]);
      short := ShortMatch(s[i..], pattern[1..]);
      assert short[0..] == short;
    } else {
      var rest := if pattern[0] == '\\' then pattern[2..] else pattern[1..];
      var tail := ShortMatch(s[1..], rest);
      short := [s[0]] + tail;
      assert short[1..] == tail;
    }
  }

  /** A special character makes some string match that is not the text, or the text not match. */
  lemma {:induction false} SpecialMisleads(text: string, k: nat) returns (s: string)
    requires k < |text| && Special(text[k])
    ensures Like(s, text) != (s == text)
    decreases k
  {
    var c, rest := text[0], if text[0] == '\\' && |text| >= 2 then text[2..] else text[1..];
    if !Special(c) {
      var tail := SpecialMisleads(text[1..], k - 1);
      s := [c] + tail;
      assert s[1..] == tail && text == [c] + text[1..];
    } else if t :| Like(t, rest) && (c == '\\' ==> |text| >= 2) {
      var short := ShortMatch(t, rest);
      if c == '%' {
        s := short;
        assert short[0..] == short;
      } else {
        var first := if c == '_' then 'a' else text[1];
        s := [first] + short;
        assert s[1..] == short;
      }
    } else {
      s := text;
    }
  }

  /** Without escaping, a text matches itself and nothing else exactly if it has no percent sign, no
      underscore and no backslash. */
  lemma UnescapedIsSafeExactly(text: string)
    ensures (forall s :: Like(s, text) <==> s == text) <==>
            forall i :: 0 <= i < |text| ==> text[i] != '%' && text[i] != '_' && text[i] != '\\'
  {
    if forall i :: 0 <= i < |text| ==> !Special(text[i]) {
      PlainIsEscaped(text);
      EscapeIsOnePass(text);
      forall s ensures Like(s, text) <==> s == text {
        EscapedMatchesExactly(s, text);
      }
    } else {
      var k :| 0 <= k < |text| && Special(text[k]);
      var s := SpecialMisleads(text, k);
    }
  }
}
