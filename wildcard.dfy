/** Wildcard names: the probe name the tester resolves in place of a wildcard
    (`asterisk_to_anyname`, dsl-tester.rb lines 223-226) and the pattern a
    wildcard name becomes for the collision check (line 132): `.` literal,
    `*` as `.+`, anchored by `\A` and `\Z`. */
module Wildcard {
  import opened Text

  const AsteriskPrefix: string := "asterisk-of-wildcard"

  predicate IsAlnum(c: char) {
    'a' <= c <= 'z' || 'A' <= c <= 'Z' || '0' <= c <= '9'
  }

  /** The random string: eight characters drawn without repetition from
      `a`-`z`, `A`-`Z` and `0`-`9` (a shuffled alphabet cut to its first 8). */
  type RandomLabel = s: string | |s| == 8
    && (forall i :: 0 <= i < |s| ==> IsAlnum(s[i]))
    && (forall i, j :: 0 <= i < j < |s| ==> s[i] != s[j])
    witness "abcdefgh"

  /** `key[0]['*']`: the name contains an asterisk. */
  predicate IsWildcardName(name: string) {
    '*' in name
  }

  /** `gsub('*', rep)`. */
  function Substitute(s: string, rep: string): string {
    if s == [] then [] else (if s[0] == '*' then rep else [s[0]]) + Substitute(s[1..], rep)
  }

  lemma {:induction false} SubstituteAppend(a: string, b: string, rep: string)
    ensures Substitute(a + b, rep) == Substitute(a, rep) + Substitute(b, rep)
    decreases |a|
  {
    if a == [] {
      assert a + b == b;
    } else {
      assert (a + b)[1..] == a[1..] + b;
      SubstituteAppend(a[1..], b, rep);
    }
  }

  lemma {:induction false} SubstituteWithoutStar(s: string, rep: string)
    requires '*' !in s
    ensures Substitute(s, rep) == s
    decreases |s|
  {
    if s != [] {
      SubstituteWithoutStar(s[1..], rep);
    }
  }

  lemma {:induction false} SubstituteRemovesStars(s: string, rep: string)
    requires '*' !in rep
    ensures '*' !in Substitute(s, rep)
    decreases |s|
  {
    if s != [] {
      SubstituteRemovesStars(s[1..], rep);
    }
  }

  /** The text that replaces every asterisk. */
  function Replacement(rand: RandomLabel): (rep: string)
    ensures |rep| == |AsteriskPrefix| + 9 && '*' !in rep && '\n' !in rep && '.' !in rep
    ensures IsAlnum(rep[|rep| - 1])
  {
    AsteriskPrefix + "-" + rand
  }

  /** `asterisk_to_anyname(name)` with the random string supplied: the
      probe name never contains an asterisk, and a name without one is
      probed as it is. */
  function ProbeName(name: string, rand: RandomLabel): (probe: string)
    ensures !IsWildcardName(probe)
    ensures !IsWildcardName(name) ==> probe == name
  {
    var rep := Replacement(rand);
    SubstituteRemovesStars(name, rep);
    assert !IsWildcardName(name) ==> Substitute(name, rep) == name by {
      if !IsWildcardName(name) {
        SubstituteWithoutStar(name, rep);
      }
    }
    Substitute(name, rep)
  }

  /** The pattern `\A<p>\z` with `*` read as `.+` (one or more characters
      other than a newline) and every other character literal. */
  predicate Match(p: string, s: string)
    decreases |p|
  {
    if p == [] then s == []
    else if p[0] == '*' then
      exists k :: 1 <= k <= |s| && '\n' !in s[..k] && Match(p[1..], s[k..])
    else s != [] && s[0] == p[0] && Match(p[1..], s[1..])
  }

  /** The pattern built at line 132 is anchored by `\Z`, which also matches
      before a final newline of the subject. */
  /** Every character of the pattern, `*` included, consumes at least one
      character of the subject. */
  lemma {:induction false} MatchLength(p: string, s: string)
    requires Match(p, s)
    ensures |p| <= |s|
    decreases |p|
  {
    if p != [] {
      if p[0] == '*' {
        var k :| 1 <= k <= |s| && '\n' !in s[..k] && Match(p[1..], s[k..]);
        MatchLength(p[1..], s[k..]);
      } else {
        MatchLength(p[1..], s[1..]);
      }
    }
  }

  predicate GlobMatch(p: string, s: string): (r: bool)
    ensures r ==> |p| <= |s|
  {
    assert Match(p, s) ==> |p| <= |s| by {
      if Match(p, s) {
        MatchLength(p, s);
      }
    }
    assert s != [] && Match(p, s[..|s| - 1]) ==> |p| < |s| by {
      if s != [] && Match(p, s[..|s| - 1]) {
        MatchLength(p, s[..|s| - 1]);
      }
    }
    Match(p, s) || (s != [] && s[|s| - 1] == '\n' && Match(p, s[..|s| - 1]))
  }

  /** A pattern without asterisk, closed by `\Z`, matches its own text and
      that text followed by one newline, and nothing else. */
  lemma GlobMatchLiteral(p: string, s: string)
    requires '*' !in p
    ensures GlobMatch(p, s) <==> s == p || s == p + "\n"
  {
    MatchLiteral(p, s);
    if s != [] {
      MatchLiteral(p, s[..|s| - 1]);
      assert s == p + "\n" <==> s[|s| - 1] == '\n' && s[..|s| - 1] == p;
    }
  }

  /** Without asterisk the pattern matches exactly its own text. */
  lemma {:induction false} MatchLiteral(p: string, s: string)
    requires '*' !in p
    ensures Match(p, s) <==> s == p
    decreases |p|
  {
    if p != [] && s != [] {
      MatchLiteral(p[1..], s[1..]);
      assert s == [s[0]] + s[1..] && p == [p[0]] + p[1..];
    }
  }

  /** Every asterisk of `p` replaced by a non-empty, newline-free text gives
      a string the pattern of `p` matches. */
  lemma {:induction false} MatchSubstitute(p: string, rep: string)
    requires rep != [] && '\n' !in rep
    ensures Match(p, Substitute(p, rep))
    decreases |p|
  {
    if p != [] {
      var s := Substitute(p, rep);
      MatchSubstitute(p[1..], rep);
      if p[0] == '*' {
        assert s == rep + Substitute(p[1..], rep);
        assert s[..|rep|] == rep && s[|rep|..] == Substitute(p[1..], rep);
      } else {
        assert s == [p[0]] + Substitute(p[1..], rep);
      }
    }
  }

  lemma SubstituteLastChar(a: string, c: char, rep: string)
    requires c != '*'
    ensures Substitute(a + [c], rep) == Substitute(a, rep) + [c]
  {
    SubstituteAppend(a, [c], rep);
  }

  /** A replacement with neither dot nor newline keeps the last character's
      kind: the substituted name ends with a dot, or a newline, exactly when
      the name does. */
  lemma SubstituteLast(a: string, rep: string)
    requires rep != [] && '.' !in rep && '\n' !in rep && a != []
    ensures var s := Substitute(a, rep);
            s != [] && (s[|s| - 1] == '.' <==> a[|a| - 1] == '.') && (s[|s| - 1] == '\n' <==> a[|a| - 1] == '\n')
  {
    var c := a[|a| - 1];
    assert a == a[..|a| - 1] + [c];
    SubstituteAppend(a[..|a| - 1], [c], rep);
    assert Substitute([c], rep) == (if c == '*' then rep else [c]) + Substitute([], rep);
  }

  /** Removing the final dot of a name commutes with the substitution. */
  lemma ChompDotSubstitute(w: string, rep: string)
    requires rep != [] && '.' !in rep && '\n' !in rep
    ensures ChompDot(Substitute(w, rep)) == Substitute(ChompDot(w), rep)
  {
    if |w| >= 2 && w[|w| - 2] == '.' && w[|w| - 1] == '\n' {
      var a := w[..|w| - 2];
      assert w == (a + ['.']) + ['\n'];
      SubstituteLastChar(a + ['.'], '\n', rep);
      SubstituteLastChar(a, '.', rep);
      SubstituteLastChar(a, '\n', rep);
    } else if |w| >= 1 && w[|w| - 1] == '.' {
      var a := w[..|w| - 1];
      assert w == a + ['.'];
      SubstituteLastChar(a, '.', rep);
    } else if w != [] {
      ChompDotKeepsSubstitute(w, rep);
    }
  }

  lemma ChompDotKeepsSubstitute(w: string, rep: string)
    requires rep != [] && '.' !in rep && '\n' !in rep && w != [] && w[|w| - 1] != '.'
    requires !(|w| >= 2 && w[|w| - 2] == '.' && w[|w| - 1] == '\n')
    ensures ChompDot(Substitute(w, rep)) == Substitute(w, rep)
  {
    var s := Substitute(w, rep);
    SubstituteLast(w, rep);
    assert !(|s| >= 2 && s[|s| - 2] == '.' && s[|s| - 1] == '\n') by {
      if s[|s| - 1] == '\n' && |w| >= 2 {
        var a := w[..|w| - 1];
        assert w == a + ['\n'];
        SubstituteLastChar(a, '\n', rep);
        SubstituteLast(a, rep);
        assert s[|s| - 2] == Substitute(a, rep)[|Substitute(a, rep)| - 1];
      } else if s[|s| - 1] == '\n' {
        assert w == ['\n'];
        assert s == ['\n'] + Substitute([], rep);
      }
    }
  }


  /** The two sides of the collision check lose their final dot before
      matching; for a probe name this commutes with the substitution. */
  lemma ChompDotProbeName(w: string, rand: RandomLabel)
    ensures ChompDot(ProbeName(w, rand)) == ProbeName(ChompDot(w), rand)
  {
    ChompDotSubstitute(w, Replacement(rand));
  }

  /** The name probed for a wildcard is one its own collision pattern
      matches, final dots removed on both sides as at line 134. */
  lemma ProbeNameMatchesItsWildcard(w: string, rand: RandomLabel)
    ensures GlobMatch(ChompDot(w), ChompDot(ProbeName(w, rand)))
  {
    ChompDotProbeName(w, rand);
    MatchSubstitute(ChompDot(w), Replacement(rand));
  }
}
