/** `Tester#test` (dsl-tester.rb lines 33-200): the declared record sets are
    grouped, wildcard groups are split off and probed once, then every
    group is validated, wildcard groups first, and the run reports the
    number of groups and of failed groups together with the error and
    warning messages it collected.

    The random strings are supplied by `nonce`: the n-th string drawn during
    the run is `nonce(n)`. */
module Tester {
  import opened Types
  import opened Normalize
  import opened Wildcard
  import opened Validate
  import opened Records

  type Nonce = nat -> RandomLabel

  /** The random string number `n`. */
  function Draw(nonce: Nonce, n: nat): RandomLabel {
    nonce(n)
  }

  /** The three accumulators `validate_record` closes over. */
  datatype Tally = Tally(failures: nat, errors: seq<ErrorMessage>, warnings: seq<Warning>)

  /** `[records_length, failures]` and the messages printed after the run. */
  datatype Report = Report(total: nat, failures: nat, errors: seq<ErrorMessage>, warnings: seq<Warning>)

  /** A run either completes or ends with the exception a crashed candidate
      raised. */
  datatype RunResult = Completed(report: Report) | Crashed

  /** The answers of the probes of `keys`, the first drawing random string
      number `draw` (lines 162-168). */
  function Probes(keys: seq<Key>, draw: nat, nonce: Nonce, dns: Resolver): (rs: seq<Response>)
    ensures |rs| == |keys|
  {
    seq(|keys|, i requires 0 <= i < |keys| => dns(ProbeName(keys[i].name, nonce(draw + i)), keys[i].rtype, 0))
  }


  /** What the pre-probe stores for one wildcard key given its probe's
      answer (lines 169-171): the stripped answer values when the query was
      answered, nothing when it raised. */
  function Entry(key: Key, resp: Response): seq<WildcardAnswer> {
    if resp.Answered? then [WildcardAnswer(key, LiveValues(key.rtype, resp.answer))] else []
  }

  /** One step of the pre-probe: the probe name is resolved through `query`
      without a warning list, so a raised query leaves no trace. */
  function ProbeOne(key: Key, rand: RandomLabel, dns: Resolver): (r: seq<WildcardAnswer>)
    ensures r == Entry(key, dns(ProbeName(key.name, rand), key.rtype, 0))
  {
    var q := Query(ProbeName(key.name, rand), key.rtype, false, dns);
    match q.response
    case None => []
    case Some(answers) => [WildcardAnswer(key, LiveValues(key.rtype, answers))]
  }

  lemma ProbeOneQueries(key: Key, rand: RandomLabel, dns: Resolver, q: Queried)
    requires q == Query(ProbeName(key.name, rand), key.rtype, false, dns)
    ensures ProbeOne(key, rand, dns) == if q.response.Some? then [WildcardAnswer(key, LiveValues(key.rtype, q.response.value))] else []
  {
  }

  lemma AppendTakeOneMore<T>(a: seq<T>, s: seq<T>, j: nat)
    requires j < |s|
    ensures a + s[..j] + [s[j]] == a + s[..j + 1]
  {
    assert s[..j + 1] == s[..j] + [s[j]];
  }

  /** `ValidateGroup` in terms of the query of the probe name and, when it
      was answered, the matching of the candidates. */
  lemma ValidateGroupSteps(key: Key, rrs: seq<Rrset>, wild: Option<seq<WildcardAnswer>>, rand: RandomLabel, dns: Resolver,
                           q: Queried, m: Matching)
    requires q == Query(ProbeName(key.name, rand), key.rtype, true, dns)
    requires q.response.Some? ==> m == MatchCandidates(Context(ProbeName(key.name, rand), key.rtype, q.response.value, wild, dns), rrs)
    ensures ValidateGroup(key, rrs, wild, rand, dns)
         == if q.response.None? then GroupResult(true, [], q.warnings)
            else if m.MatchCrash? then GroupCrash
            else GroupResult(!m.valid, if m.valid then [] else Tag(ProbeName(key.name, rand), key.rtype, m.diags), q.warnings + m.warnings)
  {
  }

  /** The accounting of one group from its query and its matching. */
  lemma StepAccounts(acc: Tally, g: GroupResult, q: Queried, m: Matching, name: string, rtype: string, crashed: bool, after: Tally)
    requires q.response.None? ==> g == GroupResult(true, [], q.warnings)
    requires q.response.Some? ==> q.warnings == []
    requires q.response.Some? ==>
               g == if m.MatchCrash? then GroupCrash
                    else GroupResult(!m.valid, if m.valid then [] else Tag(name, rtype, m.diags), q.warnings + m.warnings)
    requires q.response.None? ==> !crashed && after == Tally(acc.failures + 1, acc.errors, acc.warnings + q.warnings)
    requires q.response.Some? ==>
               crashed == m.MatchCrash?
               && (m.Matching? ==>
                     after == Tally(acc.failures + (if m.valid then 0 else 1),
                                    acc.errors + (if m.valid then [] else Tag(name, rtype, m.diags)),
                                    acc.warnings + m.warnings))
    ensures Apply(acc, g) == if crashed then None else Some(after)
  {
    assert acc.errors + [] == acc.errors;
    if q.response.Some? && m.Matching? {
      assert q.warnings + m.warnings == m.warnings;
    }
  }

  /** One call of `validate_record` as the method performs it, in terms
      of the query of the probe name and the matching of the candidates. */
  lemma RecordStep(acc: Tally, key: Key, rrs: seq<Rrset>, wild: Option<seq<WildcardAnswer>>, rand: RandomLabel, dns: Resolver,
                   check: Validator, q: Queried, m: Matching, crashed: bool, after: Tally)
    requires Implements(check, dns)
    requires q == Query(ProbeName(key.name, rand), key.rtype, true, dns)
    requires q.response.Some? ==> m == MatchCandidates(Context(ProbeName(key.name, rand), key.rtype, q.response.value, wild, dns), rrs)
    requires q.response.None? ==> !crashed && after == Tally(acc.failures + 1, acc.errors, acc.warnings + q.warnings)
    requires q.response.Some? ==>
               crashed == m.MatchCrash?
               && (m.Matching? ==>
                     after == Tally(acc.failures + (if m.valid then 0 else 1),
                                    acc.errors + (if m.valid then [] else Tag(ProbeName(key.name, rand), key.rtype, m.diags)),
                                    acc.warnings + m.warnings))
    ensures Apply(acc, check(key, rrs, wild, rand)) == if crashed then None else Some(after)
  {
    assert check(key, rrs, wild, rand) == ValidateGroup(key, rrs, wild, rand, dns);
    ValidateGroupSteps(key, rrs, wild, rand, dns, q, m);
    StepAccounts(acc, ValidateGroup(key, rrs, wild, rand, dns), q, m, ProbeName(key.name, rand), key.rtype, crashed, after);
  }

  /** `RecordStep` when the query of the probe name raised. */
  lemma RecordUnanswered(acc: Tally, key: Key, rrs: seq<Rrset>, wild: Option<seq<WildcardAnswer>>, rand: RandomLabel, dns: Resolver,
                         check: Validator, q: Queried)
    requires Implements(check, dns)
    requires q == Query(ProbeName(key.name, rand), key.rtype, true, dns) && q.response.None?
    ensures Apply(acc, check(key, rrs, wild, rand)) == Some(Tally(acc.failures + 1, acc.errors, acc.warnings + q.warnings))
  {
    RecordStep(acc, key, rrs, wild, rand, dns, check, q, MatchCrash, false, Tally(acc.failures + 1, acc.errors, acc.warnings + q.warnings));
  }

  /** `RecordStep` when the query of the probe name was answered. */
  lemma RecordAnswered(acc: Tally, key: Key, rrs: seq<Rrset>, wild: Option<seq<WildcardAnswer>>, rand: RandomLabel, dns: Resolver,
                       check: Validator, q: Queried, crashed: bool, after: Tally)
    requires Implements(check, dns)
    requires q == Query(ProbeName(key.name, rand), key.rtype, true, dns) && q.response.Some?
    requires var m := MatchCandidates(Context(ProbeName(key.name, rand), key.rtype, q.response.value, wild, dns), rrs);
             crashed == m.MatchCrash?
             && (m.Matching? ==>
                   after == Tally(acc.failures + (if m.valid then 0 else 1),
                                  acc.errors + (if m.valid then [] else Tag(ProbeName(key.name, rand), key.rtype, m.diags)),
                                  acc.warnings + m.warnings))
    ensures Apply(acc, check(key, rrs, wild, rand)) == if crashed then None else Some(after)
  {
    var m := MatchCandidates(Context(ProbeName(key.name, rand), key.rtype, q.response.value, wild, dns), rrs);
    RecordStep(acc, key, rrs, wild, rand, dns, check, q, m, crashed, after);
  }

  /** The entries stored for `keys` with probe answers `resps`, in order. */
  function Collect(keys: seq<Key>, resps: seq<Response>): (r: seq<WildcardAnswer>)
    requires |keys| == |resps|
    ensures |r| <= |keys|
  {
    if keys == [] then []
    else
      var n := |keys| - 1;
      Collect(keys[..n], resps[..n]) + Entry(keys[n], resps[n])
  }

  lemma CollectSnoc(keys: seq<Key>, resps: seq<Response>, i: nat)
    requires |keys| == |resps| && i < |keys|
    ensures Collect(keys[..i + 1], resps[..i + 1]) == Collect(keys[..i], resps[..i]) + Entry(keys[i], resps[i])
  {
    assert keys[..i + 1][..i] == keys[..i] && resps[..i + 1][..i] == resps[..i];
  }

  lemma CollectAll(keys: seq<Key>, resps: seq<Response>)
    requires |keys| == |resps|
    ensures Collect(keys[..|keys|], resps[..|keys|]) == Collect(keys, resps)
  {
    assert keys[..|keys|] == keys && resps[..|keys|] == resps;
  }

  /** The entry of the `i`-th probe is what `ProbeOne` stores for it. */
  lemma ProbeAt(keys: seq<Key>, draw: nat, nonce: Nonce, dns: Resolver, i: nat)
    requires i < |keys|
    ensures Entry(keys[i], Probes(keys, draw, nonce, dns)[i]) == ProbeOne(keys[i], Draw(nonce, draw + i), dns)
  {
  }

  /** `asterisk_answers` after the pre-probe of `keys`. */
  function ProbeAnswers(keys: seq<Key>, draw: nat, nonce: Nonce, dns: Resolver): seq<WildcardAnswer> {
    Collect(keys, Probes(keys, draw, nonce, dns))
  }

  /** A key whose probe was answered has an entry holding the stripped
      answer values. */
  lemma {:induction false} CollectComplete(keys: seq<Key>, resps: seq<Response>)
    requires |keys| == |resps|
    ensures forall i :: 0 <= i < |keys| && resps[i].Answered? ==>
              WildcardAnswer(keys[i], LiveValues(keys[i].rtype, resps[i].answer)) in Collect(keys, resps)
    decreases |keys|
  {
    if keys != [] {
      var n := |keys| - 1;
      CollectComplete(keys[..n], resps[..n]);
      var front := Collect(keys[..n], resps[..n]);
      assert Collect(keys, resps) == front + Entry(keys[n], resps[n]);
      forall i | 0 <= i < n && resps[i].Answered?
        ensures WildcardAnswer(keys[i], LiveValues(keys[i].rtype, resps[i].answer)) in front
      {
        assert keys[..n][i] == keys[i] && resps[..n][i] == resps[i];
      }
    }
  }

  /** Every entry belongs to a key whose probe was answered and holds that
      answer's stripped values. */
  lemma {:induction false} CollectSound(keys: seq<Key>, resps: seq<Response>)
    requires |keys| == |resps|
    ensures forall x :: x in Collect(keys, resps) ==>
              exists i :: 0 <= i < |keys| && x.key == keys[i] && resps[i].Answered?
                          && x.answers == LiveValues(keys[i].rtype, resps[i].answer)
    decreases |keys|
  {
    if keys != [] {
      var n := |keys| - 1;
      CollectSound(keys[..n], resps[..n]);
      forall x: WildcardAnswer | x in Collect(keys, resps)
        ensures exists i :: 0 <= i < |keys| && x.key == keys[i] && resps[i].Answered?
                            && x.answers == LiveValues(keys[i].rtype, resps[i].answer)
      {
        if x in Collect(keys[..n], resps[..n]) {
          var i :| 0 <= i < n && x.key == keys[..n][i] && resps[..n][i].Answered?
                   && x.answers == LiveValues(keys[..n][i].rtype, resps[..n][i].answer);
          assert keys[..n][i] == keys[i] && resps[..n][i] == resps[i];
        }
      }
    }
  }

  /** One call of `validate_record` folded into the accumulators; `None`
      once a candidate has crashed the run. */
  function Apply(acc: Tally, g: GroupResult): Option<Tally> {
    match g
    case GroupCrash => None
    case GroupResult(failed, errors, warnings) =>
      Some(Tally(acc.failures + (if failed then 1 else 0), acc.errors + errors, acc.warnings + warnings))
  }

  /** The number of groups among `gs` that failed. */
  function CountFailed(gs: seq<GroupResult>): (n: nat)
    ensures n <= |gs|
  {
    if gs == [] then 0
    else
      var n := |gs| - 1;
      CountFailed(gs[..n]) + (if gs[n].GroupResult? && gs[n].failed then 1 else 0)
  }

  /** The results of the groups, in order, folded into `acc`. */
  function Fold(acc: Tally, gs: seq<GroupResult>): Option<Tally> {
    if gs == [] then Some(acc)
    else
      var n := |gs| - 1;
      match Fold(acc, gs[..n])
      case None => None
      case Some(t) => Apply(t, gs[n])
  }

  /** What `validate_record.call(key, rrs, wild)` yields for one group,
      given the random string drawn for its probe name. */
  type Validator = (Key, seq<Rrset>, Option<seq<WildcardAnswer>>, RandomLabel) -> GroupResult

  /** The lambda `validate_record` (line 40), closing over the resolver. */
  function GroupCheck(dns: Resolver): Validator {
    (key: Key, rrs: seq<Rrset>, wild: Option<seq<WildcardAnswer>>, rand: RandomLabel) => ValidateGroup(key, rrs, wild, rand, dns)
  }

  /** `check` yields, for every group, what `ValidateGroup` yields. */
  ghost predicate Implements(check: Validator, dns: Resolver) {
    forall key, rrs, wild, rand {:trigger ValidateGroup(key, rrs, wild, rand, dns)} ::
      check(key, rrs, wild, rand) == ValidateGroup(key, rrs, wild, rand, dns)
  }

  lemma GroupCheckImplements(dns: Resolver)
    ensures Implements(GroupCheck(dns), dns)
  {
  }

  /** What the accounting of a run relies on in a group's verdict: a group
      that did not fail reports no error message, and a "same as" warning
      only comes from stored wildcard answers and names the group's own
      probe. */
  ghost predicate WellBehaved(check: Validator) {
    forall key, rrs, wild, rand {:trigger check(key, rrs, wild, rand)} ::
      var g := check(key, rrs, wild, rand);
      g.GroupResult? ==>
        (!g.failed ==> g.errors == [])
        && forall x :: x in g.warnings && x.SameAs? ==>
             wild.Some? && x.name == ProbeName(key.name, rand) && x.rtype == key.rtype
             && exists e :: e in wild.value && x.wildcard == e.key.name
  }

  /** The lambda `validate_record` keeps those promises. */
  lemma GroupCheckWellBehaved(dns: Resolver)
    ensures WellBehaved(GroupCheck(dns))
  {
    forall key, rrs, wild, rand
      ensures var g := GroupCheck(dns)(key, rrs, wild, rand);
              g.GroupResult? ==>
                (!g.failed ==> g.errors == [])
                && forall x :: x in g.warnings && x.SameAs? ==>
                     wild.Some? && x.name == ProbeName(key.name, rand) && x.rtype == key.rtype
                     && exists e :: e in wild.value && x.wildcard == e.key.name
    {
      SameAsNeedsWildcardAnswers(key, rrs, wild, rand, dns);
    }
  }

  /** `validate_record.call` on each group of `keys` in order, the `i`-th
      drawing random string number `draw + i`. */
  function Validations(keys: seq<Key>, groups: map<Key, seq<Rrset>>, wild: Option<seq<WildcardAnswer>>,
                       draw: nat, nonce: Nonce, check: Validator): (gs: seq<GroupResult>)
    requires Covers(keys, groups)
    ensures |gs| == |keys|
  {
    seq(|keys|, i requires 0 <= i < |keys| => check(keys[i], groups[keys[i]], wild, nonce(draw + i)))
  }

  /** A group that did not fail contributes no error message. */
  lemma ValidationsErrorFree(keys: seq<Key>, groups: map<Key, seq<Rrset>>, wild: Option<seq<WildcardAnswer>>,
                             draw: nat, nonce: Nonce, check: Validator)
    requires Covers(keys, groups) && WellBehaved(check)
    ensures var gs := Validations(keys, groups, wild, draw, nonce, check);
            forall i :: 0 <= i < |gs| && gs[i].GroupResult? && !gs[i].failed ==> gs[i].errors == []
  {
    forall i | 0 <= i < |keys|
      ensures var g := Validations(keys, groups, wild, draw, nonce, check)[i];
              g.GroupResult? && !g.failed ==> g.errors == []
    {
      assert Validations(keys, groups, wild, draw, nonce, check)[i] == check(keys[i], groups[keys[i]], wild, nonce(draw + i));
    }
  }

  /** `fetch_records(dsl)`, and its wildcard and literal parts. */
  function Declared(zones: seq<Zone>): (t: Table)
    ensures WellFormed(t)
  {
    GroupedPlacesEveryRecord(Flatten(zones));
    Grouped(Flatten(zones))
  }

  function WildPart(zones: seq<Zone>): (w: Table)
    ensures WellFormed(w)
  {
    PartitionSplitsKeys(Declared(zones));
    Select(Declared(zones), true)
  }

  function LiteralPart(zones: seq<Zone>): (l: Table)
    ensures WellFormed(l)
  {
    PartitionSplitsKeys(Declared(zones));
    Select(Declared(zones), false)
  }

  /** The stored wildcard answers: the pre-probe draws random strings
      `draw` onwards. */
  function Stored(zones: seq<Zone>, draw: nat, nonce: Nonce, dns: Resolver): seq<WildcardAnswer> {
    ProbeAnswers(WildPart(zones).keys, draw, nonce, dns)
  }

  /** `w` and `l` are the wildcard and the literal part (lines 155-160) of
      the table `t`, and all three are well formed. */
  predicate Split(t: Table, w: Table, l: Table) {
    WellFormed(t) && w == Select(t, true) && l == Select(t, false) && WellFormed(w) && WellFormed(l)
  }

  /** The wildcard pass (line 175): every wildcard group validated without
      stored answers, after the pre-probe drew random strings `draw` onwards. */
  function WildPass(w: Table, draw: nat, nonce: Nonce, check: Validator): (gs: seq<GroupResult>)
    requires Covers(w.keys, w.groups)
    ensures |gs| == |w.keys|
  {
    Validations(w.keys, w.groups, None, draw + |w.keys|, nonce, check)
  }

  /** The literal pass (line 179): every literal group validated against the
      stored answers, after the wildcard pass. */
  function LiteralPass(w: Table, l: Table, stored: seq<WildcardAnswer>, draw: nat, nonce: Nonce, check: Validator): (gs: seq<GroupResult>)
    requires Covers(l.keys, l.groups)
    ensures |gs| == |l.keys|
  {
    Validations(l.keys, l.groups, Some(stored), draw + 2 * |w.keys|, nonce, check)
  }

  /** The two passes over the table `t` that `fetch_records` builds and
      its wildcard and literal parts `w` and `l`, given the answers `stored`
      by the pre-probe, which drew random strings `draw` onwards. */
  function RunOn(t: Table, w: Table, l: Table, stored: seq<WildcardAnswer>, draw: nat, nonce: Nonce, check: Validator): (r: RunResult)
    requires Covers(w.keys, w.groups) && Covers(l.keys, l.groups)
    ensures r.Completed? ==>
              r.report.total == |t.keys|
              && r.report.failures == CountFailed(WildPass(w, draw, nonce, check)) + CountFailed(LiteralPass(w, l, stored, draw, nonce, check))
  {
    FoldFailures(Tally(0, [], []), WildPass(w, draw, nonce, check));
    match Fold(Tally(0, [], []), WildPass(w, draw, nonce, check))
    case None => Crashed
    case Some(a) =>
      FoldFailures(a, LiteralPass(w, l, stored, draw, nonce, check));
      match Fold(a, LiteralPass(w, l, stored, draw, nonce, check))
      case None => Crashed
      case Some(b) => Completed(Report(|t.keys|, b.failures, b.errors, b.warnings))
  }

  /** The whole of `test` from the random string number `draw`, each group
      validated by `check`. */
  function RunSpec(zones: seq<Zone>, draw: nat, nonce: Nonce, dns: Resolver, check: Validator): (r: RunResult)
    ensures r.Completed? ==> r.report.failures <= r.report.total == |KeysOf(Flatten(zones))|
  {
    PartitionSplitsKeys(Declared(zones));
    RunOn(Declared(zones), WildPart(zones), LiteralPart(zones), Stored(zones, draw, nonce, dns), draw, nonce, check)
  }

  /** `RunSpec` in terms of the table `fetch_records` builds and its two
      parts. */
  lemma RunSpecSteps(zones: seq<Zone>, draw: nat, nonce: Nonce, dns: Resolver, check: Validator,
                     t: Table, w: Table, l: Table)
    requires t == Grouped(Flatten(zones)) && w == Select(t, true) && l == Select(t, false)
    ensures Split(t, w, l)
    ensures RunSpec(zones, draw, nonce, dns, check) == RunOn(t, w, l, ProbeAnswers(w.keys, draw, nonce, dns), draw, nonce, check)
  {
    PartsOf(zones, t, w, l);
    StoredIs(zones, draw, nonce, dns, w);
  }

  /** The outcome of the two passes as the tester runs them: a crash in
      either ends the run; otherwise the report holds what the second pass
      left in the accumulators. */
  lemma PassesOutcome(t: Table, w: Table, l: Table, stored: seq<WildcardAnswer>, draw: nat, nonce: Nonce, check: Validator,
                      acc: Tally, c1: bool, a: Tally, c2: bool, b: Tally)
    requires Covers(w.keys, w.groups) && Covers(l.keys, l.groups)
    requires acc == Tally(0, [], [])
    requires Fold(acc, Validations(w.keys, w.groups, None, draw + |w.keys|, nonce, check)) == if c1 then None else Some(a)
    requires !c1 ==> Fold(a, Validations(l.keys, l.groups, Some(stored), draw + 2 * |w.keys|, nonce, check))
                     == if c2 then None else Some(b)
    ensures RunOn(t, w, l, stored, draw, nonce, check)
         == if c1 || c2 then Crashed else Completed(Report(|t.keys|, b.failures, b.errors, b.warnings))
  {
    var ws := WildPass(w, draw, nonce, check);
    assert ws == Validations(w.keys, w.groups, None, draw + |w.keys|, nonce, check);
    if c1 {
      assert Fold(acc, ws).None?;
    } else {
      var ls := LiteralPass(w, l, stored, draw, nonce, check);
      assert ls == Validations(l.keys, l.groups, Some(stored), draw + 2 * |w.keys|, nonce, check);
      assert Fold(acc, ws) == Some(a);
      assert Fold(a, ls) == if c2 then None else Some(b);
    }
  }

  lemma StoredIs(zones: seq<Zone>, draw: nat, nonce: Nonce, dns: Resolver, w: Table)
    requires w == WildPart(zones)
    ensures Stored(zones, draw, nonce, dns) == ProbeAnswers(w.keys, draw, nonce, dns)
  {
  }

  /** The tables computed step by step are the ones `RunSpec` names. */
  lemma PartsOf(zones: seq<Zone>, t: Table, w: Table, l: Table)
    requires t == Grouped(Flatten(zones)) && w == Select(t, true) && l == Select(t, false)
    ensures w == WildPart(zones) && l == LiteralPart(zones) && t == Declared(zones) && Split(t, w, l)
  {
  }

  lemma FoldPrefix(acc: Tally, gs: seq<GroupResult>, i: nat)
    requires i < |gs|
    ensures Fold(acc, gs[..i + 1]) == match Fold(acc, gs[..i]) case None => None case Some(t) => Apply(t, gs[i])
  {
    assert gs[..i + 1][..i] == gs[..i];
  }

  /** One more group validated: the fold over the first `i + 1` groups, and
      the fold over all of them when that group crashed. */
  lemma FoldStep(acc: Tally, keys: seq<Key>, groups: map<Key, seq<Rrset>>, wild: Option<seq<WildcardAnswer>>,
                 d0: nat, nonce: Nonce, check: Validator, i: nat, before: Tally, crashed: bool, after: Tally)
    requires Covers(keys, groups) && i < |keys|
    requires Fold(acc, Validations(keys, groups, wild, d0, nonce, check)[..i]) == Some(before)
    requires Apply(before, check(keys[i], groups[keys[i]], wild, nonce(d0 + i))) == if crashed then None else Some(after)
    ensures Fold(acc, Validations(keys, groups, wild, d0, nonce, check)[..i + 1]) == if crashed then None else Some(after)
    ensures crashed ==> Fold(acc, Validations(keys, groups, wild, d0, nonce, check)).None?
  {
    var gs := Validations(keys, groups, wild, d0, nonce, check);
    FoldPrefix(acc, gs, i);
    if crashed {
      CrashIsFinal(acc, gs, i + 1);
    }
  }

  /** A crash ends the run: once the fold of a prefix has crashed, so has
      the fold of the whole. */
  lemma {:induction false} CrashIsFinal(acc: Tally, gs: seq<GroupResult>, i: nat)
    requires i <= |gs| && Fold(acc, gs[..i]).None?
    ensures Fold(acc, gs).None?
    decreases |gs| - i
  {
    if i < |gs| {
      FoldPrefix(acc, gs, i);
      CrashIsFinal(acc, gs, i + 1);
    } else {
      assert gs[..i] == gs;
    }
  }

  /** A completed fold adds one failure per failed group. */
  lemma {:induction false} FoldFailures(acc: Tally, gs: seq<GroupResult>)
    ensures Fold(acc, gs).Some? ==> Fold(acc, gs).value.failures == acc.failures + CountFailed(gs)
    decreases |gs|
  {
    if gs != [] {
      FoldFailures(acc, gs[..|gs| - 1]);
    }
  }

  /** The accounting of the fold: it crashes exactly when some group
      crashes; otherwise it counts one failure per failed group, only ever
      appends to the error and warning lists, and adds no error message
      unless some group failed. */
  lemma {:induction false} FoldAccounts(acc: Tally, gs: seq<GroupResult>)
    requires forall i :: 0 <= i < |gs| && gs[i].GroupResult? && !gs[i].failed ==> gs[i].errors == []
    ensures var r := Fold(acc, gs);
            (r.None? <==> exists i :: 0 <= i < |gs| && gs[i].GroupCrash?)
            && (r.Some? ==>
                  r.value.failures == acc.failures + CountFailed(gs)
                  && acc.errors <= r.value.errors && acc.warnings <= r.value.warnings
                  && (r.value.failures == acc.failures <==> forall i :: 0 <= i < |gs| ==> gs[i].GroupResult? && !gs[i].failed)
                  && (r.value.failures == acc.failures ==> r.value.errors == acc.errors))
    decreases |gs|
  {
    FoldFailures(acc, gs);
    if gs != [] {
      var n := |gs| - 1;
      FoldAccounts(acc, gs[..n]);
      assert forall i :: 0 <= i < n ==> gs[..n][i] == gs[i];
    }
  }

  /** Every warning of the fold was already there or comes from one of the
      groups. */
  lemma {:induction false} FoldWarnings(acc: Tally, gs: seq<GroupResult>)
    ensures var r := Fold(acc, gs);
            r.Some? ==> forall x :: x in r.value.warnings ==>
              x in acc.warnings || exists i :: 0 <= i < |gs| && gs[i].GroupResult? && x in gs[i].warnings
    decreases |gs|
  {
    if gs != [] {
      var n := |gs| - 1;
      FoldWarnings(acc, gs[..n]);
      assert forall i :: 0 <= i < n ==> gs[..n][i] == gs[i];
    }
  }

  /** Both passes add an error message only for a failed group. */
  lemma PassesErrorFree(w: Table, l: Table, stored: seq<WildcardAnswer>, draw: nat, nonce: Nonce, check: Validator)
    requires Covers(w.keys, w.groups) && Covers(l.keys, l.groups) && WellBehaved(check)
    ensures var ws := WildPass(w, draw, nonce, check);
            forall i :: 0 <= i < |ws| && ws[i].GroupResult? && !ws[i].failed ==> ws[i].errors == []
    ensures var ls := LiteralPass(w, l, stored, draw, nonce, check);
            forall i :: 0 <= i < |ls| && ls[i].GroupResult? && !ls[i].failed ==> ls[i].errors == []
  {
    ValidationsErrorFree(w.keys, w.groups, None, draw + |w.keys|, nonce, check);
    ValidationsErrorFree(l.keys, l.groups, Some(stored), draw + 2 * |w.keys|, nonce, check);
  }

  /** A run crashes exactly when some group crashes: a crash in a wildcard
      group ends the run before any literal group is validated. */
  lemma RunCrashes(t: Table, w: Table, l: Table, stored: seq<WildcardAnswer>, draw: nat, nonce: Nonce, check: Validator)
    requires Covers(w.keys, w.groups) && Covers(l.keys, l.groups) && WellBehaved(check)
    ensures var ws, ls := WildPass(w, draw, nonce, check), LiteralPass(w, l, stored, draw, nonce, check);
            (RunOn(t, w, l, stored, draw, nonce, check).Crashed? <==>
               (exists i :: 0 <= i < |ws| && ws[i].GroupCrash?) || (exists i :: 0 <= i < |ls| && ls[i].GroupCrash?))
  {
    var ws, ls := WildPass(w, draw, nonce, check), LiteralPass(w, l, stored, draw, nonce, check);
    PassesErrorFree(w, l, stored, draw, nonce, check);
    var zero := Tally(0, [], []);
    FoldAccounts(zero, ws);
    var a := Fold(zero, ws);
    if a.Some? {
      FoldAccounts(a.value, ls);
    }
  }

  /** A completed run's total is the number of distinct `[name, type]`
      keys, wildcard and literal together; its failure count is the number
      of failed groups of both passes, so at most the total; it is zero
      exactly when no group failed, and then no error message is printed. */
  lemma RunCounts(t: Table, w: Table, l: Table, stored: seq<WildcardAnswer>, draw: nat, nonce: Nonce, check: Validator, rep: Report)
    requires Split(t, w, l) && WellBehaved(check)
    requires RunOn(t, w, l, stored, draw, nonce, check) == Completed(rep)
    ensures var ws, ls := WildPass(w, draw, nonce, check), LiteralPass(w, l, stored, draw, nonce, check);
            rep.total == |w.keys| + |l.keys|
            && rep.failures == CountFailed(ws) + CountFailed(ls)
            && rep.failures <= rep.total
            && (rep.failures == 0 <==>
                  (forall i :: 0 <= i < |ws| ==> ws[i].GroupResult? && !ws[i].failed)
                  && (forall i :: 0 <= i < |ls| ==> ls[i].GroupResult? && !ls[i].failed))
            && (rep.failures == 0 ==> rep.errors == [])
  {
    PartitionSplitsKeys(t);
    var ws, ls := WildPass(w, draw, nonce, check), LiteralPass(w, l, stored, draw, nonce, check);
    PassesErrorFree(w, l, stored, draw, nonce, check);
    var zero := Tally(0, [], []);
    var a := Fold(zero, ws).value;
    var b := Fold(a, ls).value;
    assert rep == Report(|t.keys|, b.failures, b.errors, b.warnings);
    FoldAccounts(zero, ws);
    FoldAccounts(a, ls);
    if rep.failures == 0 {
      assert a.failures == 0;
    }
  }

  /** The "same as" warnings of the `i`-th validated group, as
      `SameAsNeedsWildcardAnswers` states them. */
  lemma ValidationSameAs(keys: seq<Key>, groups: map<Key, seq<Rrset>>, wild: Option<seq<WildcardAnswer>>,
                         draw: nat, nonce: Nonce, check: Validator, i: nat)
    requires Covers(keys, groups) && i < |keys| && WellBehaved(check)
    ensures var g := Validations(keys, groups, wild, draw, nonce, check)[i];
            g.GroupResult? ==>
              forall x :: x in g.warnings && x.SameAs? ==>
                wild.Some? && x.name == ProbeName(keys[i].name, nonce(draw + i)) && x.rtype == keys[i].rtype
                && exists e :: e in wild.value && x.wildcard == e.key.name
  {
    assert Validations(keys, groups, wild, draw, nonce, check)[i] == check(keys[i], groups[keys[i]], wild, nonce(draw + i));
  }

  /** No "same as" warning among `ws`. */
  predicate NoSameAsIn(ws: seq<Warning>) {
    forall x :: x in ws ==> !x.SameAs?
  }

  /** No "same as" warning among a group's warnings. */
  predicate NoSameAs(g: GroupResult) {
    g.GroupResult? ==> NoSameAsIn(g.warnings)
  }

  /** No "same as" warning in a tally, if there is one. */
  predicate NoSameAsTally(f: Option<Tally>) {
    f.Some? ==> NoSameAsIn(f.value.warnings)
  }

  /** Folding groups without "same as" warnings adds none. */
  lemma FoldNoSameAs(acc: Tally, gs: seq<GroupResult>)
    requires NoSameAsIn(acc.warnings)
    requires forall i :: 0 <= i < |gs| ==> NoSameAs(gs[i])
    ensures NoSameAsTally(Fold(acc, gs))
  {
    FoldWarnings(acc, gs);
    if Fold(acc, gs).Some? {
      forall x | x in Fold(acc, gs).value.warnings ensures !x.SameAs? {
        if x !in acc.warnings {
          var i :| 0 <= i < |gs| && gs[i].GroupResult? && x in gs[i].warnings;
          assert NoSameAs(gs[i]);
        }
      }
    }
  }

  /** A group validated without stored answers reports no "same as"
      warning. */
  lemma UnstoredValidationsNoSameAs(keys: seq<Key>, groups: map<Key, seq<Rrset>>, draw: nat, nonce: Nonce,
                                    check: Validator)
    requires Covers(keys, groups) && WellBehaved(check)
    ensures var gs := Validations(keys, groups, None, draw, nonce, check);
            forall i :: 0 <= i < |gs| ==> NoSameAs(gs[i])
  {
    forall i | 0 <= i < |keys| ensures NoSameAs(Validations(keys, groups, None, draw, nonce, check)[i]) {
      ValidationSameAs(keys, groups, None, draw, nonce, check, i);
    }
  }

  /** Wildcard groups are validated without stored answers (line 175), so
      their tally holds no "same as" warning. */
  lemma WildGroupsReportNoSameAs(w: Table, draw: nat, nonce: Nonce, check: Validator)
    requires Covers(w.keys, w.groups) && WellBehaved(check)
    ensures NoSameAsTally(Fold(Tally(0, [], []), WildPass(w, draw, nonce, check)))
  {
    UnstoredValidationsNoSameAs(w.keys, w.groups, draw + |w.keys|, nonce, check);
    FoldNoSameAs(Tally(0, [], []), WildPass(w, draw, nonce, check));
  }

  /** A "same as" warning of a literal group names that group, probed under
      its own name, and a wildcard with a stored answer. */
  lemma LiteralSameAs(t: Table, w: Table, l: Table, stored: seq<WildcardAnswer>, draw: nat, nonce: Nonce, check: Validator, i: nat)
    requires Split(t, w, l) && WellBehaved(check) && i < |l.keys|
    ensures var g := LiteralPass(w, l, stored, draw, nonce, check)[i];
            g.GroupResult? ==>
              forall x :: x in g.warnings && x.SameAs? ==>
                Key(x.name, x.rtype) == l.keys[i] && exists e :: e in stored && x.wildcard == e.key.name
  {
    LiteralKeysAreLiteral(t, w, l, i);
    LiteralValidationSameAs(l.keys, l.groups, stored, draw + 2 * |w.keys|, nonce, check, i);
  }

  lemma LiteralKeysAreLiteral(t: Table, w: Table, l: Table, i: nat)
    requires Split(t, w, l) && i < |l.keys|
    ensures !IsWildcardName(l.keys[i].name)
  {
    PartitionSplitsKeys(t);
    assert l.keys[i] in l.groups;
  }

  lemma LiteralValidationSameAs(keys: seq<Key>, groups: map<Key, seq<Rrset>>, stored: seq<WildcardAnswer>,
                                draw: nat, nonce: Nonce, check: Validator, i: nat)
    requires Covers(keys, groups) && i < |keys| && !IsWildcardName(keys[i].name) && WellBehaved(check)
    ensures var g := Validations(keys, groups, Some(stored), draw, nonce, check)[i];
            g.GroupResult? ==>
              forall x :: x in g.warnings && x.SameAs? ==>
                Key(x.name, x.rtype) == keys[i] && exists e :: e in stored && x.wildcard == e.key.name
  {
    ValidationSameAs(keys, groups, Some(stored), draw, nonce, check, i);
  }

  /** Stored answers reach only the literal groups (lines 174-180): every
      "same as" warning of a completed run is about a literal group and
      names a wildcard whose probe was answered. */
  lemma SameAsOnlyForLiteralGroups(t: Table, w: Table, l: Table, draw: nat, nonce: Nonce, dns: Resolver, check: Validator, rep: Report)
    requires Split(t, w, l) && WellBehaved(check)
    requires RunOn(t, w, l, ProbeAnswers(w.keys, draw, nonce, dns), draw, nonce, check) == Completed(rep)
    ensures forall x :: x in rep.warnings && x.SameAs? ==>
              Key(x.name, x.rtype) in l.keys
              && exists i :: 0 <= i < |w.keys| && x.wildcard == w.keys[i].name && Probes(w.keys, draw, nonce, dns)[i].Answered?
  {
    var stored := ProbeAnswers(w.keys, draw, nonce, dns);
    var ls := LiteralPass(w, l, stored, draw, nonce, check);
    var a := Fold(Tally(0, [], []), WildPass(w, draw, nonce, check)).value;
    assert rep.warnings == Fold(a, ls).value.warnings;
    WildGroupsReportNoSameAs(w, draw, nonce, check);
    FoldWarnings(a, ls);
    CollectSound(w.keys, Probes(w.keys, draw, nonce, dns));
    forall x | x in rep.warnings && x.SameAs?
      ensures Key(x.name, x.rtype) in l.keys
              && exists i :: 0 <= i < |w.keys| && x.wildcard == w.keys[i].name && Probes(w.keys, draw, nonce, dns)[i].Answered?
    {
      var i :| 0 <= i < |ls| && ls[i].GroupResult? && x in ls[i].warnings;
      LiteralSameAs(t, w, l, stored, draw, nonce, check, i);
      var e :| e in stored && x.wildcard == e.key.name;
    }
  }

  /** A tester: the resolver and the random source are fixed when it is
      built, and so is the group validator it runs; `draws` counts the
      random strings drawn so far. The three accumulators are the locals of
      `test` that `validate_record` closes over (lines 36-38), kept here as
      fields so that the method modelling the closure can update them. */
  class Tester {
    const dns: Resolver
    const nonce: Nonce
    ghost const check: Validator
    var draws: nat
    var failures: nat
    var errorMessages: seq<ErrorMessage>
    var warningMessages: seq<Warning>

    constructor(dns: Resolver, nonce: Nonce)
      ensures this.dns == dns && this.nonce == nonce && check == GroupCheck(dns)
      ensures Implements(check, dns)
      ensures draws == 0 && failures == 0 && errorMessages == [] && warningMessages == []
    {
      this.dns := dns;
      this.nonce := nonce;
      check := GroupCheck(dns);
      draws := 0;
      failures := 0;
      errorMessages := [];
      warningMessages := [];
      GroupCheckImplements(dns);
    }

    /** `asterisk_to_anyname` (lines 223-226): draws the next random string
        and substitutes it for every asterisk of `name`. */
    method AsteriskToAnyname(name: string) returns (probe: string)
      modifies this
      ensures probe == ProbeName(name, Draw(nonce, old(draws)))
      ensures draws == old(draws) + 1
      ensures failures == old(failures) && errorMessages == old(errorMessages) && warningMessages == old(warningMessages)
    {
      probe := ProbeName(name, Draw(nonce, draws));
      draws := draws + 1;
    }

    /** The pre-probe (lines 162-172): each wildcard key is probed in order,
        and the stripped answer values are stored when its query did not
        raise. */
    method ProbeWildcards(keys: seq<Key>, ghost d0: nat) returns (stored: seq<WildcardAnswer>)
      requires draws == d0
      modifies this
      ensures stored == ProbeAnswers(keys, d0, nonce, dns)
      ensures draws == d0 + |keys|
      ensures failures == old(failures) && errorMessages == old(errorMessages) && warningMessages == old(warningMessages)
    {
      ghost var resps := Probes(keys, d0, nonce, dns);
      stored := [];
      for i := 0 to |keys|
        invariant draws == d0 + i
        invariant failures == old(failures) && errorMessages == old(errorMessages) && warningMessages == old(warningMessages)
        invariant stored == Collect(keys[..i], resps[..i])
      {
        var name := AsteriskToAnyname(keys[i].name);
        var q := Query(name, keys[i].rtype, false, dns);
        ProbeAt(keys, d0, nonce, dns, i);
        ProbeOneQueries(keys[i], Draw(nonce, d0 + i), dns, q);
        if q.response.Some? {
          stored := stored + [WildcardAnswer(keys[i], LiveValues(keys[i].rtype, q.response.value))];
        }
        CollectSnoc(keys, resps, i);
      }
      CollectAll(keys, resps);
    }

    /** `validate_record.call(key, rrs, wild)` (lines 40-153): the probe
        name takes the next random string; a raised query counts a failure
        and adds its warning; otherwise the candidates are matched.
        `crashed` reports the exception a nested query raises. */
    method ValidateRecord(key: Key, rrs: seq<Rrset>, wild: Option<seq<WildcardAnswer>>) returns (crashed: bool)
      requires Implements(check, dns)
      modifies this
      ensures draws == old(draws) + 1
      ensures Apply(Tally(old(failures), old(errorMessages), old(warningMessages)), check(key, rrs, wild, nonce(old(draws))))
           == if crashed then None else Some(Tally(failures, errorMessages, warningMessages))
    {
      ghost var acc := Tally(failures, errorMessages, warningMessages);
      ghost var rand := nonce(draws);
      var name := AsteriskToAnyname(key.name);
      var q := Query(name, key.rtype, true, dns);
      if q.response.None? {
        warningMessages := warningMessages + q.warnings;
        failures := failures + 1;
        crashed := false;
        RecordUnanswered(acc, key, rrs, wild, rand, dns, check, q);
      } else {
        crashed := MatchRecord(name, key.rtype, q.response.value, rrs, wild);
        RecordAnswered(acc, key, rrs, wild, rand, dns, check, q, crashed, Tally(failures, errorMessages, warningMessages));
      }
    }

    /** Lines 57-152 once the query is answered: the candidates are matched
        in order and their warnings kept; when none passed, the group counts
        as a failure and one error message per evaluated candidate is
        recorded. */
    method MatchRecord(name: string, rtype: string, answers: seq<Answer>, rrs: seq<Rrset>, wild: Option<seq<WildcardAnswer>>)
      returns (crashed: bool)
      modifies this
      ensures draws == old(draws)
      ensures var m := MatchCandidates(Context(name, rtype, answers, wild, dns), rrs);
              crashed == m.MatchCrash?
              && (m.Matching? ==>
                    failures == old(failures) + (if m.valid then 0 else 1)
                    && errorMessages == old(errorMessages) + (if m.valid then [] else Tag(name, rtype, m.diags))
                    && warningMessages == old(warningMessages) + m.warnings)
    {
      var m := MatchCandidates(Context(name, rtype, answers, wild, dns), rrs);
      if m.MatchCrash? {
        return true;
      }
      RecordMatching(name, rtype, m);
      return false;
    }

    /** Lines 143-152: the warnings of a completed matching are kept; when
        no candidate passed, the group counts as a failure and its
        diagnostics become error messages. */
    method RecordMatching(name: string, rtype: string, m: Matching)
      requires m.Matching?
      modifies this
      ensures draws == old(draws)
      ensures failures == old(failures) + (if m.valid then 0 else 1)
      ensures errorMessages == old(errorMessages) + (if m.valid then [] else Tag(name, rtype, m.diags))
      ensures warningMessages == old(warningMessages) + m.warnings
    {
      warningMessages := warningMessages + m.warnings;
      if !m.valid {
        failures := failures + 1;
        RecordErrors(name, rtype, m.diags);
      } else {
        assert errorMessages == old(errorMessages) + [];
      }
    }

    /** Lines 149-151: one error message per diagnostic, in order. */
    method RecordErrors(name: string, rtype: string, diags: seq<Diagnostic>)
      modifies this
      ensures errorMessages == old(errorMessages) + Tag(name, rtype, diags)
      ensures draws == old(draws) && failures == old(failures) && warningMessages == old(warningMessages)
    {
      ghost var tagged := Tag(name, rtype, diags);
      for j := 0 to |diags|
        invariant errorMessages == old(errorMessages) + tagged[..j]
        invariant draws == old(draws) && failures == old(failures) && warningMessages == old(warningMessages)
      {
        errorMessages := errorMessages + [ErrorMessage(name, rtype, diags[j])];
        AppendTakeOneMore(old(errorMessages), tagged, j);
      }
      assert tagged[..|diags|] == tagged;
    }

    /** The groups of `keys` validated in order, stopping at the first
        crash (lines 174-180). */
    method ValidateAll(keys: seq<Key>, groups: map<Key, seq<Rrset>>, wild: Option<seq<WildcardAnswer>>,
                       ghost d0: nat, ghost acc: Tally)
      returns (crashed: bool)
      requires Implements(check, dns)
      requires Covers(keys, groups) && draws == d0 && acc == Tally(failures, errorMessages, warningMessages)
      modifies this
      ensures Fold(acc, Validations(keys, groups, wild, d0, nonce, check))
           == if crashed then None else Some(Tally(failures, errorMessages, warningMessages))
      ensures !crashed ==> draws == d0 + |keys|
    {
      ghost var gs := Validations(keys, groups, wild, d0, nonce, check);
      for i := 0 to |keys|
        invariant draws == d0 + i
        invariant Fold(acc, gs[..i]) == Some(Tally(failures, errorMessages, warningMessages))
      {
        ghost var before := Tally(failures, errorMessages, warningMessages);
        crashed := ValidateRecord(keys[i], groups[keys[i]], wild);
        FoldStep(acc, keys, groups, wild, d0, nonce, check, i, before, crashed, Tally(failures, errorMessages, warningMessages));
        if crashed {
          return;
        }
      }
      assert gs[..|keys|] == gs;
      crashed := false;
    }

    /** Lines 174-180: with the answers `stored` by the pre-probe, the
        wildcard groups are validated without stored answers, then the
        literal groups against them; a crash ends the run. */
    method RunPasses(t: Table, w: Table, l: Table, stored: seq<WildcardAnswer>, ghost d0: nat) returns (result: RunResult)
      requires Implements(check, dns)
      requires Covers(w.keys, w.groups) && Covers(l.keys, l.groups)
      requires draws == d0 + |w.keys| && failures == 0 && errorMessages == [] && warningMessages == []
      modifies this
      ensures result == RunOn(t, w, l, stored, d0, nonce, check)
      ensures result.Completed? ==>
                failures == result.report.failures && errorMessages == result.report.errors
                && warningMessages == result.report.warnings
    {
      ghost var acc := Tally(failures, errorMessages, warningMessages);
      var crashed := ValidateAll(w.keys, w.groups, None, d0 + |w.keys|, acc);
      ghost var a := Tally(failures, errorMessages, warningMessages);
      if crashed {
        PassesOutcome(t, w, l, stored, d0, nonce, check, acc, true, a, false, a);
        return Crashed;
      }
      crashed := ValidateAll(l.keys, l.groups, Some(stored), d0 + 2 * |w.keys|, a);
      PassesOutcome(t, w, l, stored, d0, nonce, check, acc, false, a, crashed, Tally(failures, errorMessages, warningMessages));
      if crashed {
        return Crashed;
      }
      result := Completed(Report(|t.keys|, failures, errorMessages, warningMessages));
    }

    /** `test(dsl)` (lines 33-193): on completion, the report holds the
        number of groups, the failure count and the messages collected. */
    method Test(zones: seq<Zone>) returns (result: RunResult)
      requires Implements(check, dns)
      modifies this
      ensures result == RunSpec(zones, old(draws), nonce, dns, check)
      ensures result.Completed? ==>
                failures == result.report.failures && errorMessages == result.report.errors
                && warningMessages == result.report.warnings
    {
      ghost var d0 := draws;
      var records := FetchRecords(zones);
      failures, errorMessages, warningMessages := 0, [], [];
      var wild, literal := Partition(records);
      RunSpecSteps(zones, d0, nonce, dns, check, records, wild, literal);
      var stored := ProbeWildcards(wild.keys, d0);
      result := RunPasses(records, wild, literal, stored, d0);
    }
  }
}
