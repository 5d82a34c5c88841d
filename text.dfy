/** The string operations the tester applies: Ruby's `strip`, `downcase`,
    `gsub(/\s+/, ' ')`, `sub(/\.\Z/, '')`, `split('.')`, and the anchored
    suffix and containment tests of its regular expressions. */
module Text {

  /** Characters Ruby's `strip` removes from either end. */
  predicate IsBlank(c: char) {
    c == ' ' || c == '\t' || c == '\n' || c == '\U{000B}' || c == '\U{000C}' || c == '\r' || c == '\0'
  }

  /** Characters matched by the regular-expression class `\s`. */
  predicate IsSpace(c: char) {
    c == ' ' || c == '\t' || c == '\n' || c == '\U{000B}' || c == '\U{000C}' || c == '\r'
  }

  function TrimStart(s: string): (r: string)
    ensures |r| <= |s| && r == s[|s| - |r|..]
    ensures forall i :: 0 <= i < |s| - |r| ==> IsBlank(s[i])
    ensures r == [] || !IsBlank(r[0])
  {
    if s != [] && IsBlank(s[0]) then TrimStart(s[1..]) else s
  }

  function TrimEnd(s: string): (r: string)
    ensures |r| <= |s| && r == s[..|r|]
    ensures forall i :: |r| <= i < |s| ==> IsBlank(s[i])
    ensures r == [] || !IsBlank(r[|r| - 1])
  {
    if s != [] && IsBlank(s[|s| - 1]) then TrimEnd(s[..|s| - 1]) else s
  }

  /** Number of blanks `strip` removes from the front of `s`. */
  function LeadingBlanks(s: string): (n: nat)
    ensures n <= |s| && forall i :: 0 <= i < n ==> IsBlank(s[i])
    ensures n == |s| || !IsBlank(s[n])
  {
    if s != [] && IsBlank(s[0]) then 1 + LeadingBlanks(s[1..]) else 0
  }

  /** Ruby's `String#strip`: the longest middle part of `s` that neither
      begins nor ends with a blank, everything cut off being blank. */
  function Strip(s: string): (r: string)
    ensures var a := LeadingBlanks(s);
            a + |r| <= |s| && r == s[a..a + |r|] && forall i :: a + |r| <= i < |s| ==> IsBlank(s[i])
    ensures r == [] || (!IsBlank(r[0]) && !IsBlank(r[|r| - 1]))
  {
    var t := TrimStart(s);
    TrimEnd(t)
  }

  lemma StripIdempotent(s: string)
    ensures Strip(Strip(s)) == Strip(s)
  {
    var r := Strip(s);
    assert LeadingBlanks(r) == 0;
    assert TrimEnd(r[0..]) == r by { assert r[0..] == r; }
  }

  /** Drops the leading run of `\s` characters. */
  function DropSpaces(s: string): (r: string)
    ensures |r| <= |s| && r == s[|s| - |r|..]
    ensures forall i :: 0 <= i < |s| - |r| ==> IsSpace(s[i])
    ensures r == [] || !IsSpace(r[0])
  {
    if s != [] && IsSpace(s[0]) then DropSpaces(s[1..]) else s
  }

  /** `gsub(/\s+/, ' ')`: every maximal run of `\s` becomes one space. */
  function Squeeze(s: string): (r: string)
    ensures s != [] && !IsSpace(s[0]) ==> r != [] && r[0] == s[0]
    ensures s != [] && IsSpace(s[0]) ==> r != [] && r[0] == ' '
    ensures s != [] && !IsSpace(s[|s| - 1]) ==> r != [] && r[|r| - 1] == s[|s| - 1]
    ensures s == [] <==> r == []
    decreases |s|
  {
    if s == [] then []
    else if IsSpace(s[0]) then [' '] + Squeeze(DropSpaces(s))
    else [s[0]] + Squeeze(s[1..])
  }

  /** No `\s` other than a single space, and never two in a row. */
  predicate Squeezed(s: string) {
    forall i :: 0 <= i < |s| && IsSpace(s[i]) ==> s[i] == ' ' && (i + 1 < |s| ==> !IsSpace(s[i + 1]))
  }

  lemma {:induction false} SqueezeIsSqueezed(s: string)
    ensures Squeezed(Squeeze(s))
    decreases |s|
  {
    if s == [] {
    } else if IsSpace(s[0]) {
      var d := DropSpaces(s);
      SqueezeIsSqueezed(d);
      var q := Squeeze(d);
      assert Squeeze(s) == [' '] + q;
      assert q != [] ==> !IsSpace(q[0]);
    } else {
      SqueezeIsSqueezed(s[1..]);
    }
  }

  lemma SqueezedTail(s: string)
    requires Squeezed(s) && s != []
    ensures Squeezed(s[1..])
  {
    forall i | 0 <= i < |s[1..]| && IsSpace(s[1..][i])
      ensures s[1..][i] == ' ' && (i + 1 < |s[1..]| ==> !IsSpace(s[1..][i + 1]))
    {
      assert s[i + 1] == s[1..][i];
    }
  }

  lemma SqueezedSpace(s: string)
    requires Squeezed(s) && s != [] && IsSpace(s[0])
    ensures s[0] == ' ' && DropSpaces(s) == s[1..]
  {
    assert s[1..] == [] || !IsSpace(s[1]);
    assert DropSpaces(s) == DropSpaces(s[1..]);
  }

  lemma {:induction false} SqueezeFixesSqueezed(s: string)
    requires Squeezed(s)
    ensures Squeeze(s) == s
    decreases |s|
  {
    if s != [] {
      SqueezedTail(s);
      SqueezeFixesSqueezed(s[1..]);
      if IsSpace(s[0]) {
        SqueezedSpace(s);
      }
      assert s == [s[0]] + s[1..];
    }
  }

  /** Collapsing whitespace twice is collapsing it once. */
  lemma SqueezeIdempotent(s: string)
    ensures Squeeze(Squeeze(s)) == Squeeze(s)
  {
    SqueezeIsSqueezed(s);
    SqueezeFixesSqueezed(Squeeze(s));
  }

  /** ASCII lower-casing of one character. */
  function Lower(c: char): (l: char)
    ensures 'A' <= c <= 'Z' ==> 'a' <= l <= 'z'
    ensures !('A' <= c <= 'Z') ==> l == c
  {
    if 'A' <= c <= 'Z' then (c as int + 32) as char else c
  }

  function Downcase(s: string): (r: string)
    ensures |r| == |s| && forall i :: 0 <= i < |s| ==> r[i] == Lower(s[i])
  {
    if s == [] then [] else [Lower(s[0])] + Downcase(s[1..])
  }

  lemma DowncaseAppend(a: string, b: string)
    ensures Downcase(a + b) == Downcase(a) + Downcase(b)
  {
    assert forall i :: 0 <= i < |a + b| ==> Downcase(a + b)[i] == (Downcase(a) + Downcase(b))[i];
  }

  lemma DowncaseIdempotent(a: string)
    ensures Downcase(Downcase(a)) == Downcase(a)
  {
    assert forall i :: 0 <= i < |a| ==> Downcase(Downcase(a))[i] == Downcase(a)[i];
  }

  /** `sub(/\.\Z/, '')`: removes a final dot, or a dot just before a final
      newline (`\Z` also matches before a string-final newline). */
  function ChompDot(s: string): (r: string)
    ensures |s| >= 1 && s[|s| - 1] == '.' ==> r == s[..|s| - 1]
    ensures |s| >= 2 && s[|s| - 2] == '.' && s[|s| - 1] == '\n' ==> r == s[..|s| - 2] + "\n"
    ensures !(|s| >= 1 && s[|s| - 1] == '.') && !(|s| >= 2 && s[|s| - 2] == '.' && s[|s| - 1] == '\n') ==> r == s
  {
    if |s| >= 2 && s[|s| - 2] == '.' && s[|s| - 1] == '\n' then s[..|s| - 2] + "\n"
    else if |s| >= 1 && s[|s| - 1] == '.' then s[..|s| - 1]
    else s
  }

  predicate StartsWith(s: string, p: string) {
    |p| <= |s| && s[..|p|] == p
  }

  predicate EndsWith(s: string, p: string) {
    |p| <= |s| && s[|s| - |p|..] == p
  }

  /** The regular expression `<p>\Z` matched anywhere in `s`: `s` ends with
      `p`, or does so once a final newline is set aside. */
  predicate EndsWithZ(s: string, p: string) {
    EndsWith(s, p) || (s != [] && s[|s| - 1] == '\n' && EndsWith(s[..|s| - 1], p))
  }

  /** Case-insensitive (ASCII) containment: `s =~ /<p>/i` for a literal `p`
      written in lower case. */
  predicate ContainsIgnoringCase(s: string, p: string) {
    StartsWith(Downcase(s), p) || (s != [] && ContainsIgnoringCase(s[1..], p))
  }

  /** Decimal digits of a natural number, as Ruby interpolates an Integer. */
  function NatToString(n: nat): (r: string)
    ensures r != [] && forall i :: 0 <= i < |r| ==> '0' <= r[i] <= '9'
  {
    if n < 10 then [(48 + n) as char] else NatToString(n / 10) + [(48 + n % 10) as char]
  }

  /** `Array#join(sep)`. */
  function Join(sep: string, parts: seq<string>): string {
    if parts == [] then [] else if |parts| == 1 then parts[0] else parts[0] + sep + Join(sep, parts[1..])
  }

  /** Every field of `s` between dots, empty ones included. */
  function SplitAll(s: string): (r: seq<string>)
    ensures |r| >= 1
    ensures forall i :: 0 <= i < |r| ==> '.' !in r[i]
  {
    if s == [] then [[]]
    else
      var rest := SplitAll(s[1..]);
      if s[0] == '.' then [[]] + rest else [[s[0]] + rest[0]] + rest[1..]
  }

  function DropTrailingEmpty(fs: seq<string>): (r: seq<string>)
    ensures |r| <= |fs| && r == fs[..|r|]
    ensures r == [] || r[|r| - 1] != []
  {
    if fs != [] && fs[|fs| - 1] == [] then DropTrailingEmpty(fs[..|fs| - 1]) else fs
  }

  /** Ruby's `split('.')`, which drops trailing empty fields. */
  function SplitDots(s: string): seq<string> {
    DropTrailingEmpty(SplitAll(s))
  }
}
