/** How a candidate's declared values and the live answers are turned into
    the two lists that are compared (dsl-tester.rb lines 58-71): both sides
    are stripped and SORTED first, and only then mapped through the
    per-type normalisation. */
module Normalize {
  import opened Types
  import opened Text
  import Sorting

  /** Types whose values are host names: compared lower-cased, without one final dot. */
  predicate IsHostType(rtype: string) {
    rtype == "NS" || rtype == "PTR" || rtype == "MX" || rtype == "CNAME"
  }

  /** Types whose values are character strings. */
  predicate IsTextType(rtype: string) {
    rtype == "TXT" || rtype == "SPF"
  }

  function MapSeq<T, U>(f: T -> U, s: seq<T>): (r: seq<U>)
    ensures |r| == |s|
  {
    if s == [] then [] else [f(s[0])] + MapSeq(f, s[1..])
  }

  lemma {:induction false} MapSeqAppend<T, U>(f: T -> U, a: seq<T>, b: seq<T>)
    ensures MapSeq(f, a + b) == MapSeq(f, a) + MapSeq(f, b)
    decreases |a|
  {
    if a != [] {
      assert (a + b)[1..] == a[1..] + b;
      MapSeqAppend(f, a[1..], b);
    } else {
      assert a + b == b;
    }
  }

  lemma {:induction false} MapSeqAt<T, U>(f: T -> U, s: seq<T>, i: nat)
    requires i < |s|
    ensures MapSeq(f, s)[i] == f(s[i])
    decreases i
  {
    if i > 0 { MapSeqAt(f, s[1..], i - 1); }
  }

  lemma MapSeqPair<T, U>(f: T -> U, x: T, y: T)
    ensures MapSeq(f, [x, y]) == [f(x), f(y)]
  {
    assert [x, y][1..] == [y];
  }

  lemma MultisetMapAppend<T, U>(f: T -> U, a: seq<T>, b: seq<T>)
    ensures multiset(MapSeq(f, a + b)) == multiset(MapSeq(f, a)) + multiset(MapSeq(f, b))
  {
    MapSeqAppend(f, a, b);
  }

  /** Mapping a rearranged list gives a rearrangement of the mapped list. */
  lemma {:induction false} MapSeqPermutation<T, U>(f: T -> U, a: seq<T>, b: seq<T>)
    requires multiset(a) == multiset(b)
    ensures multiset(MapSeq(f, a)) == multiset(MapSeq(f, b))
    decreases |a|
  {
    if a == [] {
      assert b == [] by { assert |multiset(b)| == 0; }
    } else {
      assert a[0] in multiset(b);
      var j :| 0 <= j < |b| && b[j] == a[0];
      var rest := b[..j] + b[j + 1..];
      assert a == [a[0]] + a[1..];
      assert b == b[..j] + ([b[j]] + b[j + 1..]);
      assert multiset(a[1..]) == multiset(rest) by {
        assert multiset(a) == multiset{a[0]} + multiset(a[1..]);
        assert multiset(b) == multiset(b[..j]) + multiset{b[j]} + multiset(b[j + 1..]);
        assert multiset(rest) == multiset(b[..j]) + multiset(b[j + 1..]);
        calc {
          multiset(a[1..]);
          multiset(a) - multiset{a[0]};
          multiset(b) - multiset{b[j]};
          multiset(rest);
        }
      }
      MapSeqPermutation(f, a[1..], rest);
      MultisetMapAppend(f, b[..j], [b[j]] + b[j + 1..]);
      MultisetMapAppend(f, [b[j]], b[j + 1..]);
      MultisetMapAppend(f, b[..j], b[j + 1..]);
      MultisetMapAppend(f, [a[0]], a[1..]);
    }
  }

  /** `i.downcase.sub(/\.\Z/, '')`. */
  function HostForm(v: string): string {
    ChompDot(Downcase(v))
  }

  /** A host name is compared case-blind and without one final dot. */
  lemma HostFormDropsCaseAndFinalDot(w: string)
    ensures HostForm(w + ".") == Downcase(w) == HostForm(Downcase(w) + ".")
  {
    assert Downcase(".") == ".";
    DowncaseAppend(w, ".");
    DowncaseAppend(Downcase(w), ".");
    DowncaseIdempotent(w);
  }

  /** Length of the run of non-quote characters `s` starts with. */
  function NonQuoteRun(s: string): (n: nat)
    ensures n <= |s| && forall i :: 0 <= i < n ==> s[i] != '"'
    ensures n == |s| || s[n] == '"'
  {
    if s != [] && s[0] != '"' then 1 + NonQuoteRun(s[1..]) else 0
  }

  /** `scan(/"([^"]+)"/)`: the contents of the non-empty quoted segments,
      left to right, each match resuming after its closing quote. */
  function Quoted(s: string): (parts: seq<string>)
    ensures forall i :: 0 <= i < |parts| ==> parts[i] != [] && '"' !in parts[i]
    decreases |s|
  {
    if s == [] then []
    else if s[0] == '"' then
      var n := NonQuoteRun(s[1..]);
      if n > 0 && 1 + n < |s| then [s[1..1 + n]] + Quoted(s[2 + n..]) else Quoted(s[1..])
    else Quoted(s[1..])
  }

  /** `Array#join` with no separator. */
  function Concat(parts: seq<string>): string {
    if parts == [] then [] else parts[0] + Concat(parts[1..])
  }

  /** Declared TXT/SPF value: `scan(...).join.strip.gsub(/\s+/, ' ')`. */
  function DeclaredTextForm(v: string): string {
    Squeeze(Strip(Concat(Quoted(v))))
  }

  /** Live TXT/SPF value: `strip.gsub(/\s+/, ' ')`. */
  function LiveTextForm(v: string): string {
    Squeeze(Strip(v))
  }

  /** Lines 64-67 and 68-69 on the declared side. */
  function NormalizeExpected(rtype: string, vs: seq<string>): seq<string> {
    if IsHostType(rtype) then MapSeq(HostForm, vs)
    else if IsTextType(rtype) then MapSeq(DeclaredTextForm, vs)
    else vs
  }

  /** Lines 64-67 and 68-70 on the live side. */
  function NormalizeActual(rtype: string, vs: seq<string>): seq<string> {
    if IsHostType(rtype) then MapSeq(HostForm, vs)
    else if IsTextType(rtype) then MapSeq(LiveTextForm, vs)
    else vs
  }

  /** The answer field the tester reads: `txt` for TXT/SPF, `value` otherwise. */
  function AnswerText(rtype: string, a: Answer): string {
    if IsTextType(rtype) then a.txt else a.value
  }

  function StrippedField(rtype: string): Answer -> string {
    a => Strip(AnswerText(rtype, a))
  }

  /** The stripped answer fields in answer order (also what the wildcard
      pre-probe stores, line 170). */
  function LiveValues(rtype: string, answers: seq<Answer>): seq<string> {
    MapSeq(StrippedField(rtype), answers)
  }

  /** `(record.resource_records || []).map { strip }`. */
  function DeclaredValues(r: Rrset): seq<string> {
    MapSeq(Strip, match r.resourceRecords case Some(vs) => vs case None => [])
  }

  /** `expected_value` after line 71: sorted raw, then normalised. */
  function ExpectedValues(rtype: string, declared: seq<string>): (r: seq<string>)
    ensures |r| == |declared|
    ensures !IsHostType(rtype) && !IsTextType(rtype) ==> Sorting.Sorted(r) && multiset(r) == multiset(declared)
  {
    var sorted := Sorting.Sort(declared);
    assert |sorted| == |declared| by {
      assert |multiset(sorted)| == |multiset(declared)|;
    }
    NormalizeExpected(rtype, sorted)
  }

  /** The live side of the comparison from the stripped answer fields. */
  function ActualFrom(rtype: string, live: seq<string>): seq<string> {
    NormalizeActual(rtype, Sorting.Sort(live))
  }

  /** `actual_value` after line 71: sorted raw, then normalised. */
  function ActualValues(rtype: string, answers: seq<Answer>): (r: seq<string>)
    ensures |r| == |answers|
    ensures !IsHostType(rtype) && !IsTextType(rtype) ==> Sorting.Sorted(r) && multiset(r) == multiset(LiveValues(rtype, answers))
  {
    var live := LiveValues(rtype, answers);
    var sorted := Sorting.Sort(live);
    assert |sorted| == |live| by {
      assert |multiset(sorted)| == |multiset(live)|;
    }
    assert ActualFrom(rtype, live) == NormalizeActual(rtype, sorted);
    ActualFrom(rtype, live)
  }

  /** Line 118: ordered list equality of the two normalised lists. */
  predicate ValuesMatch(rtype: string, declared: seq<string>, answers: seq<Answer>): (r: bool)
    ensures r ==> |declared| == |answers|
  {
    ExpectedValues(rtype, declared) == ActualValues(rtype, answers)
  }

  /** The outcome of the comparison does not depend on the order in which the
      values were declared nor on the order of the live answers. */
  lemma ValuesMatchIgnoresOrder(rtype: string, d1: seq<string>, d2: seq<string>, a1: seq<Answer>, a2: seq<Answer>)
    requires multiset(d1) == multiset(d2) && multiset(a1) == multiset(a2)
    ensures ExpectedValues(rtype, d1) == ExpectedValues(rtype, d2)
    ensures ActualValues(rtype, a1) == ActualValues(rtype, a2)
    ensures ValuesMatch(rtype, d1, a1) == ValuesMatch(rtype, d2, a2)
  {
    Sorting.SortDependsOnlyOnContents(d1, d2);
    MapSeqPermutation(StrippedField(rtype), a1, a2);
    Sorting.SortDependsOnlyOnContents(LiveValues(rtype, a1), LiveValues(rtype, a2));
  }

  lemma DeclaredExampleValues(hi: char, lo: char)
    requires 'A' <= hi <= 'Z' && 'a' <= lo < Lower(hi)
    ensures NormalizeExpected("NS", [[hi, '.'], [lo, '.']]) == ExpectedValues("NS", [[hi, '.'], [lo, '.']]) == [[Lower(hi)], [lo]]
  {
    assert HostForm([hi, '.']) == [Lower(hi)] && HostForm([lo, '.']) == [lo] by {
      HostFormDropsCaseAndFinalDot([hi]);
      HostFormDropsCaseAndFinalDot([lo]);
    }
    MapSeqPair(HostForm, [hi, '.'], [lo, '.']);
    Sorting.SortOrderedPair([hi, '.'], [lo, '.']);
  }

  lemma LiveExampleValues(hi: char, lo: char)
    requires 'A' <= hi <= 'Z' && 'a' <= lo < Lower(hi)
    ensures NormalizeActual("NS", [[lo, '.'], [Lower(hi), '.']]) == ActualFrom("NS", [[lo, '.'], [Lower(hi), '.']]) == [[lo], [Lower(hi)]]
  {
    var h := Lower(hi);
    assert HostForm([lo, '.']) == [lo] && HostForm([h, '.']) == [h] by {
      HostFormDropsCaseAndFinalDot([lo]);
      HostFormDropsCaseAndFinalDot([h]);
    }
    MapSeqPair(HostForm, [lo, '.'], [h, '.']);
    Sorting.SortOrderedPair([lo, '.'], [h, '.']);
  }

  lemma ExampleAgreesAsSets(hi: char, lo: char)
    requires 'A' <= hi <= 'Z' && 'a' <= lo < Lower(hi)
    ensures multiset(NormalizeExpected("NS", [[hi, '.'], [lo, '.']])) == multiset(NormalizeActual("NS", [[lo, '.'], [Lower(hi), '.']]))
  {
    DeclaredExampleValues(hi, lo);
    LiveExampleValues(hi, lo);
  }

  /** Because sorting happens before lower-casing, the comparison is not
      equality of the normalised values as sets: a declared upper-case name
      sorts before every lower-case one and keeps that place after
      lower-casing, while the live side is already lower-case (for instance
      declared `B.`, `a.` against live `a.`, `b.`). */
  lemma SortBeforeNormalizeIsNotSetEquality(hi: char, lo: char)
    requires 'A' <= hi <= 'Z' && 'a' <= lo < Lower(hi)
    ensures multiset(NormalizeExpected("NS", [[hi, '.'], [lo, '.']])) == multiset(NormalizeActual("NS", [[lo, '.'], [Lower(hi), '.']]))
    ensures ExpectedValues("NS", [[hi, '.'], [lo, '.']]) != ActualFrom("NS", [[lo, '.'], [Lower(hi), '.']])
  {
    ExampleAgreesAsSets(hi, lo);
    DeclaredExampleValues(hi, lo);
    LiveExampleValues(hi, lo);
    assert [Lower(hi)] != [lo];
  }

  /** A TXT value as it is declared: each segment in double quotes, the
      segments separated by one space. */
  function QuoteSegments(segs: seq<string>): string {
    if segs == [] then []
    else "\"" + segs[0] + "\"" + (if |segs| == 1 then [] else " " + QuoteSegments(segs[1..]))
  }

  lemma {:induction false} NonQuoteRunOfQuoted(x: string, t: string)
    requires '"' !in x
    ensures NonQuoteRun(x + "\"" + t) == |x|
    decreases |x|
  {
    if x != [] {
      assert (x + "\"" + t)[1..] == x[1..] + "\"" + t;
      NonQuoteRunOfQuoted(x[1..], t);
    }
  }

  /** One quoted segment at the front is scanned as one part. */
  lemma QuotedStep(x: string, t: string)
    requires x != [] && '"' !in x
    ensures Quoted("\"" + x + "\"" + t) == [x] + Quoted(t)
  {
    var s := "\"" + x + "\"" + t;
    assert s[0] == '"' && s[1..] == x + "\"" + t;
    assert NonQuoteRun(s[1..]) == |x| by {
      NonQuoteRunOfQuoted(x, t);
    }
    assert s[1..1 + |x|] == x && s[2 + |x|..] == t by {
      assert s == "\"" + x + "\"" + t;
    }
    assert Quoted(s) == [s[1..1 + |x|]] + Quoted(s[2 + |x|..]);
  }

  /** A separating space is skipped. */
  lemma QuotedSkipSpace(t: string)
    ensures Quoted(" " + t) == Quoted(t)
  {
    assert (" " + t)[1..] == t;
  }

  /** Scanning a declared TXT value gives back its segments. */
  lemma {:induction false} QuotedOfQuoteSegments(segs: seq<string>)
    requires forall i :: 0 <= i < |segs| ==> segs[i] != [] && '"' !in segs[i]
    ensures Quoted(QuoteSegments(segs)) == segs
    decreases |segs|
  {
    if segs != [] {
      var x := segs[0];
      var tail: string := if |segs| == 1 then [] else " " + QuoteSegments(segs[1..]);
      assert QuoteSegments(segs) == "\"" + x + "\"" + tail;
      QuotedStep(x, tail);
      if |segs| > 1 {
        QuotedSkipSpace(QuoteSegments(segs[1..]));
        QuotedOfQuoteSegments(segs[1..]);
      }
      assert segs == [x] + segs[1..];
    }
  }

  /** The declared and the live normalisations of TXT/SPF meet: a value
      declared as quoted segments normalises to what the live record, whose
      text is the segments run together, normalises to. */
  lemma DeclaredAndLiveTextAgree(segs: seq<string>)
    requires forall i :: 0 <= i < |segs| ==> segs[i] != [] && '"' !in segs[i]
    ensures DeclaredTextForm(QuoteSegments(segs)) == LiveTextForm(Concat(segs))
  {
    QuotedOfQuoteSegments(segs);
  }

  /** Normalising a live TXT/SPF value twice changes nothing more. */
  lemma LiveTextFormIdempotent(v: string)
    ensures LiveTextForm(LiveTextForm(v)) == LiveTextForm(v)
  {
    var t := Strip(v);
    var q := Squeeze(t);
    assert Strip(q) == q by {
      assert q == [] || (!IsBlank(q[0]) && !IsBlank(q[|q| - 1]));
      assert LeadingBlanks(q) == 0;
      assert q[0..] == q;
    }
    SqueezeIdempotent(t);
  }

  /** Host-name normalisation removes only ONE final dot, so applying it
      again can change the value further. */
  lemma HostFormNotIdempotent()
    ensures HostForm(HostForm("a..")) != HostForm("a..")
  {
    assert Downcase("a..") == "a..";
    assert HostForm("a..") == "a.";
    assert Downcase("a.") == "a.";
    assert HostForm("a.") == "a";
  }
}
