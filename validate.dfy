/** The `validate_record` lambda (dsl-tester.rb lines 40-153) as pure
    functions: the top-level query, the evaluation of one candidate record
    set, `rrs.any?` over the candidates, and the verdict for one group. */
module Validate {
  import opened Types
  import opened Text
  import opened Normalize
  import opened Wildcard
  import opened Alias

  /** The TTL an alias record is held to (line 59). */
  const AliasTtl: nat := 60

  /** What `query` (lines 228-239) gives back: the answer list, or nothing
      when the resolver raised, and the warnings it appended. */
  datatype Queried = Queried(response: Option<seq<Answer>>, warnings: seq<Warning>)

  /** `query(name, type, warning_messages)`; `collect` says whether a
      warning list was passed. */
  function Query(name: string, rtype: string, collect: bool, dns: Resolver): (q: Queried)
    ensures q.response.None? <==> dns(name, rtype, 0).Raised?
    ensures q.response.Some? ==> q.response.value == dns(name, rtype, 0).answer
    ensures q.warnings != [] <==> collect && q.response.None?
    ensures forall w :: w in q.warnings ==> w == QueryError(name, rtype, dns(name, rtype, 0).message)
  {
    match dns(name, rtype, 0)
    case Answered(answer) => Queried(Some(answer), [])
    case Raised(message) => Queried(None, if collect then [QueryError(name, rtype, message)] else [])
  }

  /** Everything a candidate is checked against: the probed name, the
      group's type, the live answer, the stored wildcard answers (absent
      for wildcard groups) and the resolver for nested queries. */
  datatype Context = Context(
    name: string,
    rtype: string,
    answers: seq<Answer>,
    wild: Option<seq<WildcardAnswer>>,
    dns: Resolver)

  /** `expected_ttl` (line 59). */
  function ExpectedTtl(r: Rrset): Option<nat> {
    if r.dnsName.Some? then Some(AliasTtl) else r.ttl
  }

  predicate AllTtlsWithin(answers: seq<Answer>, bound: nat) {
    forall i :: 0 <= i < |answers| ==> answers[i].ttl <= bound
  }

  /** Lines 121-125: the verdict after the TTL gate, or `None` when the gate
      raises (no expected TTL to compare a live TTL with). */
  function TtlGate(same: bool, expected: Option<nat>, answers: seq<Answer>): (r: Option<bool>)
    ensures r == Some(true) <==>
              same && (match expected case Some(bound) => AllTtlsWithin(answers, bound) case None => answers == [])
    ensures r.None? <==> same && expected.None? && answers != []
  {
    if !same then Some(false)
    else match expected
      case Some(bound) => Some(AllTtlsWithin(answers, bound))
      case None => if answers == [] then Some(true) else None
  }

  /** `is_same` before the TTL gate (lines 79-119): the alias check for an
      alias record, list equality otherwise. */
  function Sameness(c: Context, r: Rrset): Verdict {
    match r.dnsName
    case Some(target) => VerifyAlias(c.name, c.rtype, target, c.answers, c.dns)
    case None => Verdict(ValuesMatch(c.rtype, DeclaredValues(r), c.answers), [])
  }

  /** `"#{ttl}"`: `nil` interpolates as the empty string. */
  function TtlText(t: Option<nat>): string {
    match t
    case Some(n) => NatToString(n)
    case None => ""
  }

  function WithTtl(v: string, ttl: string): string {
    v + "(" + ttl + ")"
  }

  /** `values.map { "#{v}(#{ttl})" }`: every value with the same TTL. */
  function Annotate(values: seq<string>, ttl: string): (r: seq<string>)
    ensures |r| == |values| && forall i :: 0 <= i < |values| ==> r[i] == WithTtl(values[i], ttl)
  {
    if values == [] then [] else [WithTtl(values[0], ttl)] + Annotate(values[1..], ttl)
  }

  /** `values.zip(ttls).map { "#{v}(#{t})" }`: the i-th value with the i-th
      TTL, `nil` once the TTLs run out. */
  function ZipTtls(values: seq<string>, ttls: seq<nat>): (r: seq<string>)
    ensures |r| == |values|
    ensures forall i :: 0 <= i < |values| ==>
              r[i] == WithTtl(values[i], if i < |ttls| then NatToString(ttls[i]) else "")
  {
    if values == [] then []
    else
      var rest := ZipTtls(values[1..], if ttls == [] then [] else ttls[1..]);
      [WithTtl(values[0], if ttls == [] then "" else NatToString(ttls[0]))] + rest
  }

  function TtlsOf(answers: seq<Answer>): (r: seq<nat>)
    ensures |r| == |answers| && forall i :: 0 <= i < |answers| ==> r[i] == answers[i].ttl
  {
    if answers == [] then [] else [answers[0].ttl] + TtlsOf(answers[1..])
  }

  /** `expected_message` (line 73): a record set with values lists them,
      sorted and normalised, each with the expected TTL; one without lists
      its alias target, which is shown with TTL 60. */
  function ExpectedMessage(rtype: string, r: Rrset): (m: string)
    ensures r.resourceRecords.Some? && r.resourceRecords.value != [] ==>
              StartsWith(m, WithTtl(ExpectedValues(rtype, DeclaredValues(r))[0], TtlText(ExpectedTtl(r))))
    ensures r.resourceRecords.None? && r.dnsName.Some? ==> m == r.dnsName.value + "(60)"
  {
    assert NatToString(60) == "60";
    var ttl := TtlText(ExpectedTtl(r));
    match r.resourceRecords
    case Some(_) =>
      var parts := Annotate(ExpectedValues(rtype, DeclaredValues(r)), ttl);
      assert parts != [] ==> StartsWith(Join(",", parts), parts[0]) by {
        if parts != [] {
          JoinStarts(",", parts);
        }
      }
      Join(",", parts)
    case None => (match r.dnsName case Some(d) => d case None => "") + "(" + ttl + ")"
  }

  /** `Array#join` begins with the first element. */
  lemma JoinStarts(sep: string, parts: seq<string>)
    requires parts != []
    ensures StartsWith(Join(sep, parts), parts[0])
  {
    if |parts| > 1 {
      assert Join(sep, parts) == parts[0] + (sep + Join(sep, parts[1..]));
    }
  }

  /** `actual_message` (line 74): the sorted, normalised values zipped with
      the TTLs in answer order, so the first value listed, the least, is
      shown with the TTL of the first answer rather than its own. */
  function ActualMessage(rtype: string, answers: seq<Answer>): (m: string)
    ensures answers == [] ==> m == []
    ensures answers != [] ==> StartsWith(m, WithTtl(ActualValues(rtype, answers)[0], NatToString(answers[0].ttl)))
  {
    var parts := ZipTtls(ActualValues(rtype, answers), TtlsOf(answers));
    assert parts != [] ==> StartsWith(Join(",", parts), parts[0]) by {
      if parts != [] {
        JoinStarts(",", parts);
      }
    }
    Join(",", parts)
  }

  /** The two lines printed for a candidate that does not match: the
      expected and the actual side, each labelled. */
  function Diagnose(rtype: string, r: Rrset, answers: seq<Answer>): (d: Diagnostic)
    ensures StartsWith(d.expected, "expected=") && d.expected[9..] == ExpectedMessage(rtype, r)
    ensures StartsWith(d.actual, "actual=") && d.actual[7..] == ActualMessage(rtype, answers)
  {
    Diagnostic("expected=" + ExpectedMessage(rtype, r), "actual=" + ActualMessage(rtype, answers))
  }

  /** Line 134 for one stored wildcard: the anchored glob of the wildcard
      name matches the probed name (final dots removed on both sides) and
      some compared value is among the wildcard's stored answers. */
  predicate Collides(name: string, actual: seq<string>, w: WildcardAnswer) {
    GlobMatch(ChompDot(w.key.name), ChompDot(name)) && exists v :: v in actual && v in w.answers
  }

  /** One "same as" warning for each stored wildcard that `hit` picks, in
      the order the wildcards were stored. */
  function SameAsWhere(name: string, rtype: string, hit: WildcardAnswer -> bool, ws: seq<WildcardAnswer>): (r: seq<Warning>)
    ensures |r| <= |ws|
  {
    if ws == [] then []
    else (if hit(ws[0]) then [SameAs(name, rtype, ws[0].key.name)] else []) + SameAsWhere(name, rtype, hit, ws[1..])
  }

  /** Lines 130-137: one "same as" warning per stored wildcard that
      collides, in the order the wildcards were stored. */
  function Collisions(name: string, rtype: string, actual: seq<string>, ws: seq<WildcardAnswer>): (r: seq<Warning>)
    ensures |r| <= |ws|
  {
    SameAsWhere(name, rtype, w => Collides(name, actual, w), ws)
  }

  lemma CollisionsAre(name: string, rtype: string, actual: seq<string>, ws: seq<WildcardAnswer>)
    ensures var r := Collisions(name, rtype, actual, ws);
            (forall x :: x in r ==> x.SameAs? && x.name == name && x.rtype == rtype)
            && (forall i :: 0 <= i < |ws| && Collides(name, actual, ws[i]) ==> SameAs(name, rtype, ws[i].key.name) in r)
            && (forall x :: x in r ==> exists i :: 0 <= i < |ws| && Collides(name, actual, ws[i]) && x.wildcard == ws[i].key.name)
  {
    var hit := w => Collides(name, actual, w);
    SameAsWhereNamesTheProbe(name, rtype, hit, ws);
    SameAsWhereComplete(name, rtype, hit, ws);
    SameAsWhereSound(name, rtype, hit, ws);
  }

  lemma {:induction false} SameAsWhereNamesTheProbe(name: string, rtype: string, hit: WildcardAnswer -> bool, ws: seq<WildcardAnswer>)
    ensures forall x :: x in SameAsWhere(name, rtype, hit, ws) ==> x.SameAs? && x.name == name && x.rtype == rtype
  {
    if ws != [] {
      SameAsWhereNamesTheProbe(name, rtype, hit, ws[1..]);
    }
  }

  lemma {:induction false} SameAsWhereComplete(name: string, rtype: string, hit: WildcardAnswer -> bool, ws: seq<WildcardAnswer>)
    ensures forall i :: 0 <= i < |ws| && hit(ws[i]) ==> SameAs(name, rtype, ws[i].key.name) in SameAsWhere(name, rtype, hit, ws)
  {
    if ws != [] {
      SameAsWhereComplete(name, rtype, hit, ws[1..]);
      var rest := SameAsWhere(name, rtype, hit, ws[1..]);
      forall i | 1 <= i < |ws| && hit(ws[i])
        ensures SameAs(name, rtype, ws[i].key.name) in SameAsWhere(name, rtype, hit, ws)
      {
        assert ws[i] == ws[1..][i - 1];
        assert SameAs(name, rtype, ws[i].key.name) in rest;
      }
    }
  }

  lemma {:induction false} SameAsWhereSound(name: string, rtype: string, hit: WildcardAnswer -> bool, ws: seq<WildcardAnswer>)
    ensures forall x :: x in SameAsWhere(name, rtype, hit, ws) ==>
              x.SameAs? && exists i :: 0 <= i < |ws| && hit(ws[i]) && x.wildcard == ws[i].key.name
  {
    if ws != [] {
      SameAsWhereSound(name, rtype, hit, ws[1..]);
      var head: seq<Warning> := if hit(ws[0]) then [SameAs(name, rtype, ws[0].key.name)] else [];
      var rest := SameAsWhere(name, rtype, hit, ws[1..]);
      assert SameAsWhere(name, rtype, hit, ws) == head + rest;
      forall x | x in head + rest
        ensures x.SameAs? && exists i :: 0 <= i < |ws| && hit(ws[i]) && x.wildcard == ws[i].key.name
      {
        if x in rest {
          var j :| 0 <= j < |ws[1..]| && hit(ws[1..][j]) && x.wildcard == ws[1..][j].key.name;
          assert ws[j + 1] == ws[1..][j];
        }
      }
    }
  }

  /** What evaluating one candidate inside `rrs.any?` yields: its verdict,
      the diagnostic lines built for it and the warnings it appended, or a
      crash of the whole run. */
  datatype Outcome = Outcome(same: bool, diag: Diagnostic, warnings: seq<Warning>) | CandidateCrash

  /** The block of lines 58-140 for candidate `r`: it crashes when its
      alias check raises, or when it matches and a live TTL must be compared
      with a missing one; it passes when it matches and every live TTL is
      within the expected one; its first warnings are those of its alias
      check. */
  function EvalCandidate(c: Context, r: Rrset): (o: Outcome)
    ensures var v := Sameness(c, r);
            (o == CandidateCrash <==> v.AliasCrash? || (v.same && ExpectedTtl(r).None? && c.answers != []))
            && (o.Outcome? && o.same <==>
                  v.Verdict? && v.same
                  && match ExpectedTtl(r) case Some(bound) => AllTtlsWithin(c.answers, bound) case None => c.answers == [])
            && (o.Outcome? ==> v.warnings <= o.warnings)
  {
    var v := Sameness(c, r);
    if v.AliasCrash? then CandidateCrash
    else match TtlGate(v.same, ExpectedTtl(r), c.answers)
      case None => CandidateCrash
      case Some(same) =>
        Outcome(same, Diagnose(c.rtype, r, c.answers), v.warnings + WildCollisions(c))
  }

  /** Lines 128-137: the "same as" warnings, only when stored wildcard
      answers are given. */
  function WildCollisions(c: Context): seq<Warning> {
    match c.wild
    case None => []
    case Some(ws) => Collisions(c.name, c.rtype, ActualValues(c.rtype, c.answers), ws)
  }

  predicate Passes(o: Outcome) { o.Outcome? && o.same }

  predicate Fails(o: Outcome) { o.Outcome? && !o.same }

  /** A record set without alias target passes exactly when the normalised
      lists are equal and every live TTL is within its TTL; it crashes when
      it has no TTL yet its values match a non-empty answer. */
  lemma LiteralCandidate(c: Context, r: Rrset)
    requires r.dnsName.None?
    ensures EvalCandidate(c, r) == CandidateCrash <==>
              r.ttl.None? && c.answers != [] && ValuesMatch(c.rtype, DeclaredValues(r), c.answers)
    ensures Passes(EvalCandidate(c, r)) <==>
              ValuesMatch(c.rtype, DeclaredValues(r), c.answers)
              && (match r.ttl case Some(t) => AllTtlsWithin(c.answers, t) case None => c.answers == [])
  {
  }

  /** An alias candidate never passes with a live TTL above 60, whatever
      its target; it crashes only through a nested query. */
  lemma AliasCandidateTtl(c: Context, r: Rrset)
    requires r.dnsName.Some?
    ensures Passes(EvalCandidate(c, r)) ==> AllTtlsWithin(c.answers, AliasTtl)
    ensures EvalCandidate(c, r) == CandidateCrash <==> Sameness(c, r) == AliasCrash
  {
  }

  /** An alias target the tester cannot verify passes exactly when every
      live TTL is at most 60, with a "cannot check" warning first. */
  lemma UnverifiableAliasStillGated(c: Context, r: Rrset)
    requires r.dnsName.Some? && Classify(r.dnsName.value) == Unverifiable
    ensures EvalCandidate(c, r).Outcome?
    ensures Passes(EvalCandidate(c, r)) <==> AllTtlsWithin(c.answers, AliasTtl)
    ensures EvalCandidate(c, r).warnings[0] == CannotCheck(c.name, c.rtype, r.dnsName.value)
  {
  }

  /** The collision check only adds warnings: with or without stored
      wildcard answers the candidate crashes alike, gets the same verdict and
      the same diagnostic, and the warnings without are a prefix of those
      with. */
  lemma CollisionsNeverChangeVerdict(c: Context, r: Rrset, ws: seq<WildcardAnswer>)
    ensures var o, o' := EvalCandidate(c.(wild := None), r), EvalCandidate(c.(wild := Some(ws)), r);
            (o.Outcome? <==> o'.Outcome?)
            && (o.Outcome? ==> o.same == o'.same && o.diag == o'.diag && o.warnings <= o'.warnings)
  {
  }

  /** What `rrs.any?` leaves behind: whether some candidate matched, the
      diagnostics of the candidates that did not match before it (the
      `errors` list), and the warnings appended meanwhile. */
  datatype Matching = Matching(valid: bool, diags: seq<Diagnostic>, warnings: seq<Warning>) | MatchCrash

  /** `rrs.any?` (line 57) over the outcomes of the candidates in order:
      evaluation stops at the first candidate that passes or crashes. */
  function Decide(os: seq<Outcome>): (m: Matching)
    ensures m.Matching? && m.valid <==>
              exists i :: 0 <= i < |os| && Passes(os[i]) && forall j :: 0 <= j < i ==> Fails(os[j])
    ensures m == MatchCrash <==>
              exists i :: 0 <= i < |os| && os[i] == CandidateCrash && forall j :: 0 <= j < i ==> Fails(os[j])
    ensures m.Matching? && !m.valid <==> forall i :: 0 <= i < |os| ==> Fails(os[i])
    ensures m.Matching? && !m.valid ==> |m.diags| == |os| && forall i :: 0 <= i < |os| ==> m.diags[i] == os[i].diag
  {
    if os == [] then Matching(false, [], [])
    else
      var o := os[0];
      if o.CandidateCrash? then MatchCrash
      else if o.same then Matching(true, [], o.warnings)
      else
        DecideShift(os);
        match Decide(os[1..])
        case MatchCrash => MatchCrash
        case Matching(valid, diags, warnings) => Matching(valid, [o.diag] + diags, o.warnings + warnings)
  }

  predicate PassesFirst(os: seq<Outcome>) {
    exists i :: 0 <= i < |os| && Passes(os[i]) && forall j :: 0 <= j < i ==> Fails(os[j])
  }

  predicate CrashesFirst(os: seq<Outcome>) {
    exists i :: 0 <= i < |os| && os[i] == CandidateCrash && forall j :: 0 <= j < i ==> Fails(os[j])
  }

  predicate AllFail(os: seq<Outcome>) {
    forall i :: 0 <= i < |os| ==> Fails(os[i])
  }

  /** After a failing candidate, `any?` goes on with the rest. */
  lemma DecideShift(os: seq<Outcome>)
    requires os != [] && Fails(os[0])
    ensures PassesFirst(os) <==> PassesFirst(os[1..])
    ensures CrashesFirst(os) <==> CrashesFirst(os[1..])
    ensures AllFail(os) <==> AllFail(os[1..])
  {
    ShiftPasses(os);
    ShiftCrashes(os);
    ShiftAllFail(os);
  }

  lemma ShiftPrefix(os: seq<Outcome>, i: nat)
    requires os != [] && Fails(os[0]) && i < |os|
    ensures (forall j :: 0 <= j < i + 1 ==> Fails(os[j])) <==> (forall j :: 0 <= j < i ==> Fails(os[1..][j]))
  {
    var t := os[1..];
    if forall j :: 0 <= j < i ==> Fails(t[j]) {
      forall j | 0 <= j < i + 1 ensures Fails(os[j]) {
        if j > 0 { assert os[j] == t[j - 1]; }
      }
    }
    if forall j :: 0 <= j < i + 1 ==> Fails(os[j]) {
      forall j | 0 <= j < i ensures Fails(t[j]) {
        assert t[j] == os[j + 1];
      }
    }
  }

  lemma ShiftPasses(os: seq<Outcome>)
    requires os != [] && Fails(os[0])
    ensures PassesFirst(os) <==> PassesFirst(os[1..])
  {
    var t := os[1..];
    if PassesFirst(t) {
      var i :| 0 <= i < |t| && Passes(t[i]) && forall j :: 0 <= j < i ==> Fails(t[j]);
      ShiftPrefix(os, i + 1);
      assert os[i + 1] == t[i];
    }
    if PassesFirst(os) {
      var i :| 0 <= i < |os| && Passes(os[i]) && forall j :: 0 <= j < i ==> Fails(os[j]);
      assert i > 0;
      ShiftPrefix(os, i);
      assert t[i - 1] == os[i];
    }
  }

  lemma ShiftCrashes(os: seq<Outcome>)
    requires os != [] && Fails(os[0])
    ensures CrashesFirst(os) <==> CrashesFirst(os[1..])
  {
    var t := os[1..];
    if CrashesFirst(t) {
      var i :| 0 <= i < |t| && t[i] == CandidateCrash && forall j :: 0 <= j < i ==> Fails(t[j]);
      ShiftPrefix(os, i + 1);
      assert os[i + 1] == t[i];
    }
    if CrashesFirst(os) {
      var i :| 0 <= i < |os| && os[i] == CandidateCrash && forall j :: 0 <= j < i ==> Fails(os[j]);
      assert i > 0;
      ShiftPrefix(os, i);
      assert t[i - 1] == os[i];
    }
  }

  lemma ShiftAllFail(os: seq<Outcome>)
    requires os != [] && Fails(os[0])
    ensures AllFail(os) <==> AllFail(os[1..])
  {
    ShiftPrefix(os, |os| - 1);
  }

  /** The outcome every candidate would have, in order; only those up to
      the first that passes or crashes are ever evaluated. */
  function Outcomes(c: Context, rrs: seq<Rrset>): (os: seq<Outcome>)
    ensures |os| == |rrs| && forall i :: 0 <= i < |rrs| ==> os[i] == EvalCandidate(c, rrs[i])
  {
    if rrs == [] then [] else [EvalCandidate(c, rrs[0])] + Outcomes(c, rrs[1..])
  }

  /** `rrs.any?` over the candidates of a group: no candidate means no
      match; a match is made by some candidate that passes; when none
      matched, every candidate left its diagnostic, in order. */
  function MatchCandidates(c: Context, rrs: seq<Rrset>): (m: Matching)
    ensures rrs == [] ==> m == Matching(false, [], [])
    ensures m.Matching? && m.valid ==> exists i :: 0 <= i < |rrs| && Passes(EvalCandidate(c, rrs[i]))
    ensures m.Matching? && !m.valid ==>
              |m.diags| == |rrs| && forall i :: 0 <= i < |rrs| ==> m.diags[i] == Diagnose(c.rtype, rrs[i], c.answers)
  {
    Decide(Outcomes(c, rrs))
  }

  /** Candidate `i` is the first that passes or crashes. */
  predicate FirstDecisive(os: seq<Outcome>, i: nat) {
    i < |os| && !Fails(os[i]) && forall j :: 0 <= j < i ==> Fails(os[j])
  }

  lemma {:induction false} DecideStopsAtFirstDecisive(os: seq<Outcome>, i: nat)
    requires FirstDecisive(os, i)
    ensures Decide(os) == Decide(os[..i + 1])
    decreases i
  {
    if i > 0 {
      assert FirstDecisive(os[1..], i - 1);
      DecideStopsAtFirstDecisive(os[1..], i - 1);
      assert os[1..][..i] == os[..i + 1][1..];
    }
  }

  /** Matching short-circuits: once a candidate passes or crashes, the
      candidates after it add no diagnostics, no warnings and no crash. */
  lemma LaterCandidatesIgnored(c: Context, rrs: seq<Rrset>, i: nat)
    requires i < |rrs| && !Fails(EvalCandidate(c, rrs[i]))
    requires forall j :: 0 <= j < i ==> Fails(EvalCandidate(c, rrs[j]))
    ensures MatchCandidates(c, rrs) == MatchCandidates(c, rrs[..i + 1])
  {
    var os := Outcomes(c, rrs);
    assert FirstDecisive(os, i);
    OutcomesPrefix(c, rrs, i + 1);
    DecideOfPrefix(os, Outcomes(c, rrs[..i + 1]), i);
  }

  lemma DecideOfPrefix(os: seq<Outcome>, pre: seq<Outcome>, i: nat)
    requires FirstDecisive(os, i) && pre == os[..i + 1]
    ensures Decide(os) == Decide(pre)
  {
    DecideStopsAtFirstDecisive(os, i);
  }

  lemma OutcomesPrefix(c: Context, rrs: seq<Rrset>, n: nat)
    requires n <= |rrs|
    ensures Outcomes(c, rrs)[..n] == Outcomes(c, rrs[..n])
  {
    forall k | 0 <= k < n ensures Outcomes(c, rrs)[..n][k] == Outcomes(c, rrs[..n])[k] {
      assert rrs[..n][k] == rrs[k];
    }
  }

  /** One error message per diagnostic, tagged with the group. */
  function Tag(name: string, rtype: string, diags: seq<Diagnostic>): (r: seq<ErrorMessage>)
    ensures |r| == |diags| && forall i :: 0 <= i < |diags| ==> r[i] == ErrorMessage(name, rtype, diags[i])
  {
    if diags == [] then [] else [ErrorMessage(name, rtype, diags[0])] + Tag(name, rtype, diags[1..])
  }

  /** What validating one group contributes to the run: whether it counts
      as a failure, its error messages and its warnings; or a crash. */
  datatype GroupResult = GroupResult(failed: bool, errors: seq<ErrorMessage>, warnings: seq<Warning>) | GroupCrash

  /** `validate_record.call(key, rrs, wild)` with `rand` the random string
      drawn for the probe name. */
  function ValidateGroup(key: Key, rrs: seq<Rrset>, wild: Option<seq<WildcardAnswer>>, rand: RandomLabel, dns: Resolver): (g: GroupResult)
    ensures var name := ProbeName(key.name, rand);
            dns(name, key.rtype, 0).Raised? ==>
              g == GroupResult(true, [], [QueryError(name, key.rtype, dns(name, key.rtype, 0).message)])
    ensures g.GroupResult? && !g.failed ==> g.errors == []
    ensures g.GroupResult? && g.failed && dns(ProbeName(key.name, rand), key.rtype, 0).Answered? ==>
              |g.errors| == |rrs|
              && forall e :: e in g.errors ==> e.name == ProbeName(key.name, rand) && e.rtype == key.rtype
  {
    var name := ProbeName(key.name, rand);
    var q := Query(name, key.rtype, true, dns);
    match q.response
    case None => GroupResult(true, [], q.warnings)
    case Some(answers) =>
      match MatchCandidates(Context(name, key.rtype, answers, wild, dns), rrs)
      case MatchCrash => GroupCrash
      case Matching(valid, diags, warnings) =>
        GroupResult(!valid, if valid then [] else Tag(name, key.rtype, diags), q.warnings + warnings)
  }

  /** A group counts as a failure exactly when its query raised or every
      candidate was evaluated without one passing (lines 51-55, 143-147). */
  lemma GroupFailsIff(key: Key, rrs: seq<Rrset>, wild: Option<seq<WildcardAnswer>>, rand: RandomLabel, dns: Resolver)
    ensures var name := ProbeName(key.name, rand);
            var resp := dns(name, key.rtype, 0);
            var g := ValidateGroup(key, rrs, wild, rand, dns);
            g.GroupResult? ==>
              (g.failed <==>
                 resp.Raised?
                 || forall i :: 0 <= i < |rrs| ==> Fails(EvalCandidate(Context(name, key.rtype, resp.answer, wild, dns), rrs[i])))
  {
  }

  /** A group crashes exactly when some candidate is evaluated and crashes. */
  lemma GroupCrashIff(key: Key, rrs: seq<Rrset>, wild: Option<seq<WildcardAnswer>>, rand: RandomLabel, dns: Resolver)
    ensures var name := ProbeName(key.name, rand);
            var resp := dns(name, key.rtype, 0);
            ValidateGroup(key, rrs, wild, rand, dns) == GroupCrash <==>
              resp.Answered?
              && exists i :: 0 <= i < |rrs| && EvalCandidate(Context(name, key.rtype, resp.answer, wild, dns), rrs[i]) == CandidateCrash
                            && forall j :: 0 <= j < i ==> Fails(EvalCandidate(Context(name, key.rtype, resp.answer, wild, dns), rrs[j]))
  {
    var name := ProbeName(key.name, rand);
    var resp := dns(name, key.rtype, 0);
    if resp.Answered? {
      var os := Outcomes(Context(name, key.rtype, resp.answer, wild, dns), rrs);
      assert ValidateGroup(key, rrs, wild, rand, dns) == GroupCrash <==> Decide(os) == MatchCrash;
    }
  }

  /** Every warning `rrs.any?` leaves behind was appended while evaluating
      one of the candidates. */
  lemma {:induction false} DecideWarnings(os: seq<Outcome>)
    ensures Decide(os).Matching? ==>
              forall x :: x in Decide(os).warnings ==> exists i :: 0 <= i < |os| && os[i].Outcome? && x in os[i].warnings
    decreases |os|
  {
    if os != [] && os[0].Outcome? && !os[0].same {
      DecideWarnings(os[1..]);
      var m := Decide(os);
      forall x | m.Matching? && x in m.warnings
        ensures exists i :: 0 <= i < |os| && os[i].Outcome? && x in os[i].warnings
      {
        if x !in os[0].warnings {
          var i :| 0 <= i < |os| - 1 && os[1..][i].Outcome? && x in os[1..][i].warnings;
          assert os[i + 1] == os[1..][i];
        }
      }
    }
  }

  /** Line 135: a "same as" warning of a candidate names the probed group
      and a stored wildcard answer; without stored answers there is none. */
  lemma CandidateSameAs(c: Context, r: Rrset)
    ensures var o := EvalCandidate(c, r);
            o.Outcome? ==>
              forall x :: x in o.warnings && x.SameAs? ==>
                c.wild.Some? && x.name == c.name && x.rtype == c.rtype
                && exists w :: w in c.wild.value && x.wildcard == w.key.name
  {
    var o := EvalCandidate(c, r);
    if o.Outcome? {
      CandidateWarnings(c, r);
      SamenessNoSameAs(c, r);
      CollisionsSameAs(c, Sameness(c, r).warnings, o.warnings);
    }
  }

  /** A "same as" warning among a sameness check's warnings followed by the
      collisions names the probed group and a stored wildcard. */
  lemma CollisionsSameAs(c: Context, first: seq<Warning>, ws: seq<Warning>)
    requires forall x :: x in first ==> !x.SameAs?
    requires ws == first + WildCollisions(c)
    ensures forall x :: x in ws && x.SameAs? ==>
              c.wild.Some? && x.name == c.name && x.rtype == c.rtype
              && exists w :: w in c.wild.value && x.wildcard == w.key.name
  {
    if c.wild.Some? {
      CollisionsAre(c.name, c.rtype, ActualValues(c.rtype, c.answers), c.wild.value);
    }
  }

  /** A candidate's warnings are those of its sameness check followed by its
      collisions. */
  lemma CandidateWarnings(c: Context, r: Rrset)
    ensures var o := EvalCandidate(c, r);
            o.Outcome? ==> o.warnings == Sameness(c, r).warnings + WildCollisions(c)
  {
  }

  /** The sameness check itself adds at most a "cannot check" warning. */
  lemma SamenessNoSameAs(c: Context, r: Rrset)
    ensures var v := Sameness(c, r);
            v.Verdict? ==> forall x :: x in v.warnings ==> !x.SameAs?
  {
  }

  /** The same for a whole group: its query warnings are query errors and
      the rest come from its candidates. */
  lemma SameAsNeedsWildcardAnswers(key: Key, rrs: seq<Rrset>, wild: Option<seq<WildcardAnswer>>, rand: RandomLabel, dns: Resolver)
    ensures var g := ValidateGroup(key, rrs, wild, rand, dns);
            g.GroupResult? ==>
              forall x :: x in g.warnings && x.SameAs? ==>
                wild.Some? && x.name == ProbeName(key.name, rand) && x.rtype == key.rtype
                && exists w :: w in wild.value && x.wildcard == w.key.name
  {
    var name := ProbeName(key.name, rand);
    var resp := dns(name, key.rtype, 0);
    var g := ValidateGroup(key, rrs, wild, rand, dns);
    if resp.Answered? && g.GroupResult? {
      var c := Context(name, key.rtype, resp.answer, wild, dns);
      var os := Outcomes(c, rrs);
      var m := Decide(os);
      assert g.warnings == Query(name, key.rtype, true, dns).warnings + m.warnings;
      DecideWarnings(os);
      forall x | x in m.warnings && x.SameAs?
        ensures wild.Some? && x.name == name && x.rtype == key.rtype
                && exists w :: w in wild.value && x.wildcard == w.key.name
      {
        var i :| 0 <= i < |os| && os[i].Outcome? && x in os[i].warnings;
        CandidateSameAs(c, rrs[i]);
      }
    }
  }

  /** A host name written with exactly one final dot. */
  predicate DotTerminated(v: string) {
    |v| >= 2 && v[|v| - 1] == '.' && v[|v| - 2] != '.'
  }

  lemma HostFormOfDotTerminated(v: string)
    requires DotTerminated(v)
    ensures HostForm(v) != [] && HostForm(v)[|HostForm(v)| - 1] != '.'
  {
    var d := Downcase(v);
    assert d[|d| - 1] == '.' && d[|d| - 2] == Lower(v[|v| - 2]) != '.';
  }

  /** The collision check compares normalised values with stored values
      that were only stripped: for host-name types, a group whose live
      values each end in one dot never collides with a wildcard whose stored
      values all end in a dot, even when both name the same host. */
  lemma HostValuesMissDottedWildcardAnswers(c: Context, w: WildcardAnswer)
    requires IsHostType(c.rtype)
    requires forall m :: 0 <= m < |c.answers| ==> DotTerminated(Strip(AnswerText(c.rtype, c.answers[m])))
    requires forall v :: v in w.answers ==> v != [] && v[|v| - 1] == '.'
    ensures !Collides(c.name, ActualValues(c.rtype, c.answers), w)
  {
    var live := LiveValues(c.rtype, c.answers);
    LiveValuesDotTerminated(c.rtype, c.answers);
    var sorted := Sorting.Sort(live);
    forall v | v in sorted ensures DotTerminated(v) {
      assert v in multiset(sorted);
    }
    HostFormsUndotted(sorted);
    assert ActualValues(c.rtype, c.answers) == MapSeq(HostForm, sorted);
  }

  lemma LiveValuesDotTerminated(rtype: string, answers: seq<Answer>)
    requires forall m :: 0 <= m < |answers| ==> DotTerminated(Strip(AnswerText(rtype, answers[m])))
    ensures forall v :: v in LiveValues(rtype, answers) ==> DotTerminated(v)
  {
    forall v | v in LiveValues(rtype, answers) ensures DotTerminated(v) {
      var m :| 0 <= m < |answers| && LiveValues(rtype, answers)[m] == v;
      MapSeqAt(StrippedField(rtype), answers, m);
    }
  }

  lemma HostFormsUndotted(vs: seq<string>)
    requires forall v :: v in vs ==> DotTerminated(v)
    ensures forall x :: x in MapSeq(HostForm, vs) ==> x != [] && x[|x| - 1] != '.'
  {
    forall x | x in MapSeq(HostForm, vs) ensures x != [] && x[|x| - 1] != '.' {
      var k :| 0 <= k < |vs| && MapSeq(HostForm, vs)[k] == x;
      MapSeqAt(HostForm, vs, k);
      assert vs[k] in vs;
      HostFormOfDotTerminated(vs[k]);
    }
  }
}
