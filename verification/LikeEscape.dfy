/**
 `escape_ilike` of shared/sql_utils.py, against the LIKE predicate of SQL-92, section 8.5,
 with backslash as the escape character.

 `fold` is what the database compares characters by: the identity for LIKE, case folding
 for ILIKE.
 */
module LikeEscape {

  const ESCAPE: char := '\\'
  const ANY_RUN: char := '%'
  const ANY_ONE: char := '_'

  // str.replace with a one-character pattern.
  function Replace(s: string, c: char, r: string): string {
    if s == "" then "" else (if s[0] == c then r else [s[0]]) + Replace(s[1..], c, r)
  }

  // The code: three passes over the whole string, backslashes first.
  function EscapeIlike(s: string): string {
    Replace(Replace(Replace(s, ESCAPE, [ESCAPE, ESCAPE]), ANY_RUN, [ESCAPE, ANY_RUN]), ANY_ONE, [ESCAPE, ANY_ONE])
  }

  predicate IsSpecial(c: char) { c == ESCAPE || c == ANY_RUN || c == ANY_ONE }

  // What it means: one pass, a backslash before each special character.
  function EscapeEach(s: string): string {
    if s == "" then "" else (if IsSpecial(s[0]) then [ESCAPE, s[0]] else [s[0]]) + EscapeEach(s[1..])
  }

  lemma {:induction false} ReplaceConcat(s: string, t: string, c: char, r: string)
    ensures Replace(s + t, c, r) == Replace(s, c, r) + Replace(t, c, r)
  {
    if s == "" {
      assert s + t == t;
    } else {
      assert (s + t)[1..] == s[1..] + t;
      ReplaceConcat(s[1..], t, c, r);
    }
  }

  lemma ReplaceOne(c: char, d: char, r: string)
    ensures Replace([d], c, r) == if d == c then r else [d]
  {
    assert [d][1..] == "";
  }

  lemma ReplaceTwo(c: char, d: char, e: char, r: string)
    requires d != c
    ensures Replace([d, e], c, r) == [d] + if e == c then r else [e]
  {
    assert [d, e][1..] == [e];
    ReplaceOne(c, e, r);
  }

  // No pass touches what an earlier pass put in.
  lemma EscapeOneChar(d: char)
    ensures EscapeIlike([d]) == if IsSpecial(d) then [ESCAPE, d] else [d]
    ensures EscapeIlike([d]) == if d in ['\\', '%', '_'] then ['\\', d] else [d]
  {
    ReplaceOne(ESCAPE, d, [ESCAPE, ESCAPE]);
    if d == ESCAPE {
      ReplaceTwo(ANY_RUN, ESCAPE, ESCAPE, [ESCAPE, ANY_RUN]);
      ReplaceTwo(ANY_ONE, ESCAPE, ESCAPE, [ESCAPE, ANY_ONE]);
    } else {
      ReplaceOne(ANY_RUN, d, [ESCAPE, ANY_RUN]);
      ReplaceOne(ANY_ONE, d, [ESCAPE, ANY_ONE]);
      ReplaceTwo(ANY_ONE, ESCAPE, ANY_RUN, [ESCAPE, ANY_ONE]);
    }
  }

  lemma {:induction false} EscapeConcat(s: string, t: string)
    ensures EscapeIlike(s + t) == EscapeIlike(s) + EscapeIlike(t)
  {
    ReplaceConcat(s, t, ESCAPE, [ESCAPE, ESCAPE]);
    var s1, t1 := Replace(s, ESCAPE, [ESCAPE, ESCAPE]), Replace(t, ESCAPE, [ESCAPE, ESCAPE]);
    ReplaceConcat(s1, t1, ANY_RUN, [ESCAPE, ANY_RUN]);
    ReplaceConcat(Replace(s1, ANY_RUN, [ESCAPE, ANY_RUN]), Replace(t1, ANY_RUN, [ESCAPE, ANY_RUN]),
                  ANY_ONE, [ESCAPE, ANY_ONE]);
  }

  // The three successive replaces are one-pass escaping.
  lemma {:induction false} ThreePassesAreOne(s: string)
    ensures EscapeIlike(s) == EscapeEach(s)
  {
    if s != "" {
      assert s == [s[0]] + s[1..];
      EscapeConcat([s[0]], s[1..]);
      EscapeOneChar(s[0]);
      ThreePassesAreOne(s[1..]);
    }
  }

  // ----- The LIKE predicate

  // A pattern ending in a lone escape character is invalid and matches nothing here.
  predicate Like(fold: char -> char, pattern: string, t: string)
    decreases |pattern|, |t|
  {
    if pattern == "" then t == ""
    else if pattern[0] == ANY_RUN then
      Like(fold, pattern[1..], t) || (t != "" && Like(fold, pattern, t[1..]))
    else if pattern[0] == ANY_ONE then t != "" && Like(fold, pattern[1..], t[1..])
    else if pattern[0] == ESCAPE then
      |pattern| > 1 && t != "" && fold(pattern[1]) == fold(t[0]) && Like(fold, pattern[2..], t[1..])
    else t != "" && fold(pattern[0]) == fold(t[0]) && Like(fold, pattern[1..], t[1..])
  }

  // Equal up to folding, character by character.
  predicate SameText(fold: char -> char, s: string, t: string) {
    |s| == |t| && forall i :: 0 <= i < |s| ==> fold(s[i]) == fold(t[i])
  }

  predicate OccursAt(fold: char -> char, s: string, t: string, i: int) {
    0 <= i <= |t| - |s| && SameText(fold, s, t[i..i + |s|])
  }

  ghost predicate ContainsText(fold: char -> char, s: string, t: string) {
    exists i :: OccursAt(fold, s, t, i)
  }

  lemma EscapedHead(s: string, rest: string)
    requires s != ""
    ensures EscapeEach(s) + rest ==
            (if IsSpecial(s[0]) then [ESCAPE, s[0]] else [s[0]]) + (EscapeEach(s[1..]) + rest)
  {
  }

  lemma LikeLiteralHead(fold: char -> char, c: char, p: string, t: string)
    ensures Like(fold, (if IsSpecial(c) then [ESCAPE, c] else [c]) + p, t) <==>
            t != "" && fold(c) == fold(t[0]) && Like(fold, p, t[1..])
  {
    var head := if IsSpecial(c) then [ESCAPE, c] else [c];
    assert (head + p)[|head|..] == p;
  }

  // An escaped string followed by any pattern matches a text exactly when the string is at
  // the front and the pattern matches what follows.
  lemma {:induction false} EscapedPrefix(fold: char -> char, s: string, rest: string, t: string)
    ensures Like(fold, EscapeEach(s) + rest, t) <==>
            |s| <= |t| && SameText(fold, s, t[..|s|]) && Like(fold, rest, t[|s|..])
  {
    if s == "" {
      assert EscapeEach(s) + rest == rest && t[0..] == t;
    } else {
      EscapedHead(s, rest);
      LikeLiteralHead(fold, s[0], EscapeEach(s[1..]) + rest, t);
      if t != "" {
        EscapedPrefix(fold, s[1..], rest, t[1..]);
        if |s| <= |t| {
          assert t[1..][|s[1..]|..] == t[|s|..];
          assert t[1..][..|s| - 1] == t[1..|s|];
          assert SameText(fold, s, t[..|s|]) <==>
                 fold(s[0]) == fold(t[0]) && SameText(fold, s[1..], t[1..][..|s| - 1]) by {
            SameTextHead(fold, s, t[..|s|]);
            assert t[..|s|][1..] == t[1..][..|s| - 1];
          }
        }
      }
    }
  }

  lemma SameTextHead(fold: char -> char, s: string, t: string)
    requires |s| == |t| > 0
    ensures SameText(fold, s, t) <==> fold(s[0]) == fold(t[0]) && SameText(fold, s[1..], t[1..])
  {
    if fold(s[0]) == fold(t[0]) && SameText(fold, s[1..], t[1..]) {
      forall i | 0 <= i < |s| ensures fold(s[i]) == fold(t[i]) {
        assert i > 0 ==> s[1..][i - 1] == s[i] && t[1..][i - 1] == t[i];
      }
    }
  }

  // The escaped string, as a whole pattern, matches only the string itself.
  lemma EscapedMatchesOnlyItself(fold: char -> char, s: string, t: string)
    ensures Like(fold, EscapeIlike(s), t) <==> SameText(fold, s, t)
  {
    ThreePassesAreOne(s);
    EscapedPrefix(fold, s, "", t);
    assert EscapeEach(s) + "" == EscapeEach(s);
    assert |s| == |t| ==> t[..|s|] == t;
  }

  lemma {:induction false} TrailingAnyRun(fold: char -> char, t: string)
    ensures Like(fold, [ANY_RUN], t)
  {
    assert [ANY_RUN][1..] == "";
    if t != "" {
      TrailingAnyRun(fold, t[1..]);
    }
  }

  lemma {:induction false} AnyRunThen(fold: char -> char, p: string, t: string)
    ensures Like(fold, [ANY_RUN] + p, t) <==> exists i :: 0 <= i <= |t| && Like(fold, p, t[i..])
  {
    assert ([ANY_RUN] + p)[1..] == p && t[0..] == t;
    if t != "" {
      AnyRunThen(fold, p, t[1..]);
      if i :| 0 <= i <= |t| && Like(fold, p, t[i..]) {
        assert i > 0 ==> t[1..][i - 1..] == t[i..];
      }
      if i :| 0 <= i <= |t[1..]| && Like(fold, p, t[1..][i..]) {
        assert t[1..][i..] == t[i + 1..];
      }
    }
  }

  // Between two wildcards, as every caller uses it, it matches exactly the texts containing it.
  lemma WrappedMatchesContaining(fold: char -> char, s: string, t: string)
    ensures Like(fold, [ANY_RUN] + EscapeIlike(s) + [ANY_RUN], t) <==> ContainsText(fold, s, t)
  {
    ThreePassesAreOne(s);
    var p := EscapeEach(s) + [ANY_RUN];
    assert [ANY_RUN] + EscapeIlike(s) + [ANY_RUN] == [ANY_RUN] + p;
    AnyRunThen(fold, p, t);
    forall i | 0 <= i <= |t|
      ensures Like(fold, p, t[i..]) <==> OccursAt(fold, s, t, i)
    {
      EscapedPrefix(fold, s, [ANY_RUN], t[i..]);
      if |s| <= |t[i..]| {
        assert t[i..][..|s|] == t[i..i + |s|];
        TrailingAnyRun(fold, t[i..][|s|..]);
      }
    }
  }

  // Different strings get different patterns.
  lemma EscapingIsInjective(s: string, t: string)
    requires EscapeIlike(s) == EscapeIlike(t)
    ensures s == t
  {
    var id := (c: char) => c;
    EscapedMatchesOnlyItself(id, s, t);
    EscapedMatchesOnlyItself(id, t, t);
    assert SameText(id, t, t);
    assert forall i :: 0 <= i < |s| ==> id(s[i]) == s[i] && id(t[i]) == t[i];
  }
}
