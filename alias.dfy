/** Verification of alias candidates (dsl-tester.rb lines 81-116): the alias
    target, final dot removed, is classified by host pattern, in this order,
    and each managed-endpoint family has its own indirect check. */
module Alias {
  import opened Types
  import opened Text

  datatype Target = Elb | S3Website | CloudFront | Unverifiable

  const ElbMark: string := ".elb.amazonaws.com"
  const S3Head: string := "s3-website-"
  const S3Tail: string := ".amazonaws.com"
  const CloudFrontTail: string := ".cloudfront.net"
  const ComputePtrTail: string := ".compute.amazonaws.com."
  const CloudFrontPtrTail: string := ".cloudfront.net."

  /** `\As3-website-(?:[^.]+)\.amazonaws\.com` ending the string. */
  predicate S3WebsiteExact(t: string) {
    |t| > |S3Head| + |S3Tail| && StartsWith(t, S3Head) && EndsWith(t, S3Tail)
    && '.' !in t[|S3Head|..|t| - |S3Tail|]
  }

  /** The same pattern closed by `\Z`. */
  predicate IsS3WebsiteHost(t: string) {
    S3WebsiteExact(t) || (t != [] && t[|t| - 1] == '\n' && S3WebsiteExact(t[..|t| - 1]))
  }

  /** The `case` of line 83: the target, final dot removed, belongs to the
      first family whose pattern it matches, ELB containment
      (case-insensitive) first, then the anchored S3-website host, then the
      CloudFront suffix; a target matching none cannot be checked. */
  function Classify(dnsName: string): (target: Target)
    ensures var t := ChompDot(dnsName);
            (target == Elb <==> ContainsIgnoringCase(t, ElbMark))
            && (target == S3Website <==> !ContainsIgnoringCase(t, ElbMark) && IsS3WebsiteHost(t))
            && (target == CloudFront <==> !ContainsIgnoringCase(t, ElbMark) && !IsS3WebsiteHost(t) && EndsWithZ(t, CloudFrontTail))
            && (target == Unverifiable <==> !ContainsIgnoringCase(t, ElbMark) && !IsS3WebsiteHost(t) && !EndsWithZ(t, CloudFrontTail))
  {
    var t := ChompDot(dnsName);
    if ContainsIgnoringCase(t, ElbMark) then Elb
    else if IsS3WebsiteHost(t) then S3Website
    else if EndsWithZ(t, CloudFrontTail) then CloudFront
    else Unverifiable
  }

  lemma {:induction false} ContainsIgnoringCaseSuffix(h: string, p: string)
    requires forall i :: 0 <= i < |p| ==> !('A' <= p[i] <= 'Z')
    ensures ContainsIgnoringCase(h + p, p)
    decreases |h|
  {
    if h == [] {
      assert h + p == p;
      assert Downcase(p)[..|p|] == p;
    } else {
      assert (h + p)[1..] == h[1..] + p;
      ContainsIgnoringCaseSuffix(h[1..], p);
    }
  }

  /** Any host under `.elb.amazonaws.com` is checked as a load balancer,
      whatever else it looks like. */
  lemma ElbTargetsAreElb(h: string)
    ensures Classify(h + ElbMark + ".") == Elb
  {
    assert ChompDot(h + ElbMark + ".") == h + ElbMark;
    ContainsIgnoringCaseSuffix(h, ElbMark);
  }

  /** A CloudFront distribution host is checked as CloudFront unless it
      also contains the load-balancer mark. */
  lemma CloudFrontTargetsAreCloudFront(h: string)
    requires !ContainsIgnoringCase(h + CloudFrontTail, ElbMark)
    ensures Classify(h + CloudFrontTail + ".") == CloudFront
  {
    var t := h + CloudFrontTail;
    assert ChompDot(t + ".") == t;
    assert t[|t| - 1] == 't';
    assert !IsS3WebsiteHost(t) by {
      assert t[|t| - |S3Tail|..][|S3Tail| - 1] == 't' != S3Tail[|S3Tail| - 1];
    }
    assert EndsWith(t, CloudFrontTail) by { assert t[|t| - |CloudFrontTail|..] == CloudFrontTail; }
  }

  /** An S3 website endpoint `s3-website-<region>.amazonaws.com` is checked
      as one unless it also contains the load-balancer mark. */
  lemma S3WebsiteTargetsAreS3(region: string)
    requires region != [] && '.' !in region
    requires !ContainsIgnoringCase(S3Head + region + S3Tail, ElbMark)
    ensures Classify(S3Head + region + S3Tail + ".") == S3Website
  {
    var t := S3Head + region + S3Tail;
    assert ChompDot(t + ".") == t;
    assert t[..|S3Head|] == S3Head;
    assert t[|t| - |S3Tail|..] == S3Tail;
    assert t[|S3Head|..|t| - |S3Tail|] == region;
  }

  /** A target matching none of the three patterns cannot be checked. */
  lemma OtherTargetsUnverifiable(h: string)
    requires h == [] || h[|h| - 1] != '\n'
    requires !ContainsIgnoringCase(h, ElbMark) && !EndsWith(h, S3Tail) && !EndsWith(h, CloudFrontTail)
    ensures Classify(h + ".") == Unverifiable
  {
    NeitherS3NorCloudFront(h);
    ChompFinalDot(h);
    UnverifiableWhenNoneMatch(h + ".");
  }

  lemma NeitherS3NorCloudFront(h: string)
    requires h == [] || h[|h| - 1] != '\n'
    requires !EndsWith(h, S3Tail) && !EndsWith(h, CloudFrontTail)
    ensures !IsS3WebsiteHost(h) && !EndsWithZ(h, CloudFrontTail)
  {
  }

  lemma UnverifiableWhenNoneMatch(d: string)
    requires var t := ChompDot(d);
             !ContainsIgnoringCase(t, ElbMark) && !IsS3WebsiteHost(t) && !EndsWithZ(t, CloudFrontTail)
    ensures Classify(d) == Unverifiable
  {
  }

  lemma ChompFinalDot(h: string)
    ensures ChompDot(h + ".") == h
  {
    var d := h + ".";
    assert d[..|d| - 1] == h;
  }

  /** Every PTR answer of a response ends with `<suffix>\Z`. */
  predicate PtrsEndWith(resp: Response, suffix: string) {
    resp.Answered? && forall p :: p in resp.answer ==> EndsWithZ(p.value, suffix)
  }

  /** The outcome of a check that issues nested queries: a nested query that
      raises ends the whole run (`.answer` is called on nil). */
  datatype Check = Checked(ok: bool) | Crash

  /** Lines 85-89 and 108-112: `response.answer.all?` over a reverse lookup
      of every answer value, stopping at the first answer that fails. */
  function PtrCheck(answers: seq<Answer>, suffix: string, dns: Resolver): (r: Check)
    ensures r == Checked(true) <==> forall i :: 0 <= i < |answers| ==> PtrsEndWith(dns(answers[i].value, "PTR", 0), suffix)
    ensures r == Crash <==> exists i :: 0 <= i < |answers| && dns(answers[i].value, "PTR", 0).Raised?
                                  && forall j :: 0 <= j < i ==> PtrsEndWith(dns(answers[j].value, "PTR", 0), suffix)
  {
    if answers == [] then Checked(true)
    else
      var resp := dns(answers[0].value, "PTR", 0);
      if resp.Raised? then Crash
      else if !PtrsEndWith(resp, suffix) then Checked(false)
      else
        var rest := PtrCheck(answers[1..], suffix, dns);
        assert forall i :: 1 <= i < |answers| ==> answers[i] == answers[1..][i - 1];
        rest
  }

  /** `ip.split('.').slice(0, 2)`. */
  function LeadingOctets(ip: string): seq<string> {
    var fs := SplitDots(ip);
    if |fs| <= 2 then fs else fs[..2]
  }

  /** `response_answer_ip_1_2` (line 91); `uniq` does not change membership. */
  function AnswerPrefixes(answers: seq<Answer>): (r: seq<seq<string>>)
    ensures |r| == |answers| && forall i :: 0 <= i < |answers| ==> r[i] == LeadingOctets(answers[i].value)
  {
    if answers == [] then [] else [LeadingOctets(answers[0].value)] + AnswerPrefixes(answers[1..])
  }

  /** One attempt succeeds (lines 101-105): the target resolved to at least
      one address whose first two octets some answer address shares. */
  predicate S3Hit(resp: Response, prefixes: seq<seq<string>>) {
    resp.Answered? && resp.answer != []
    && exists a :: a in resp.answer && LeadingOctets(a.value) in prefixes
  }

  /** One attempt is answered but does not succeed. */
  predicate S3Miss(resp: Response, prefixes: seq<seq<string>>) {
    resp.Answered? && !S3Hit(resp, prefixes)
  }

  const S3Attempts: nat := 3

  /** Attempts `n`, `n+1`, ... of `(0...3).any?` (lines 94-106). */
  function S3From(target: string, prefixes: seq<seq<string>>, dns: Resolver, n: nat): (r: Check)
    requires n <= S3Attempts
    ensures n < S3Attempts && S3Hit(dns(target, "A", n), prefixes) ==> r == Checked(true)
    ensures n < S3Attempts && dns(target, "A", n).Raised? ==> r == Crash
    ensures r == Checked(false) ==> MissesBetween(target, prefixes, dns, n, S3Attempts)
    decreases S3Attempts - n
  {
    if n == S3Attempts then Checked(false)
    else
      var resp := dns(target, "A", n);
      if resp.Raised? then Crash
      else if S3Hit(resp, prefixes) then Checked(true)
      else S3From(target, prefixes, dns, n + 1)
  }

  /** Attempts `n` up to `k` (excluded) were answered without success. */
  predicate MissesBetween(target: string, prefixes: seq<seq<string>>, dns: Resolver, n: nat, k: nat) {
    forall m :: n <= m < k ==> S3Miss(dns(target, "A", m), prefixes)
  }

  /** The attempts from `n` on succeed exactly when some attempt hits after
      only answered misses, crash exactly when some attempt raises after
      only answered misses, and fail exactly when every attempt misses. */
  lemma {:induction false} S3FromOutcome(target: string, prefixes: seq<seq<string>>, dns: Resolver, n: nat)
    requires n <= S3Attempts
    ensures var r := S3From(target, prefixes, dns, n);
            (r == Checked(true) <==> exists k :: n <= k < S3Attempts && S3Hit(dns(target, "A", k), prefixes)
                                      && MissesBetween(target, prefixes, dns, n, k))
            && (r == Crash <==> exists k :: n <= k < S3Attempts && dns(target, "A", k).Raised?
                                      && MissesBetween(target, prefixes, dns, n, k))
            && (r == Checked(false) <==> MissesBetween(target, prefixes, dns, n, S3Attempts))
    decreases S3Attempts - n
  {
    if n < S3Attempts {
      S3FromOutcome(target, prefixes, dns, n + 1);
      var resp := dns(target, "A", n);
      assert MissesBetween(target, prefixes, dns, n, n);
      forall k | n < k <= S3Attempts
        ensures MissesBetween(target, prefixes, dns, n, k) <==> S3Miss(resp, prefixes) && MissesBetween(target, prefixes, dns, n + 1, k)
      {
        if S3Miss(resp, prefixes) && MissesBetween(target, prefixes, dns, n + 1, k) {
          forall m | n <= m < k ensures S3Miss(dns(target, "A", m), prefixes) {
            if m > n {
              assert n + 1 <= m < k;
            }
          }
        }
      }
    } else {
      assert MissesBetween(target, prefixes, dns, n, S3Attempts);
    }
  }

  /** The S3-website check of one candidate: the target is re-queried as
      written, final dot included (line 100). */
  function S3Check(target: string, answers: seq<Answer>, dns: Resolver): (r: Check)
    ensures S3Hit(dns(target, "A", 0), AnswerPrefixes(answers)) ==> r == Checked(true)
    ensures dns(target, "A", 0).Raised? ==> r == Crash
    ensures r == Checked(false) ==> forall k :: 0 <= k < S3Attempts ==> S3Miss(dns(target, "A", k), AnswerPrefixes(answers))
  {
    S3From(target, AnswerPrefixes(answers), dns, 0)
  }

  /** At most three attempts: the verdict depends on nothing the resolver
      says about the target after the third round. */
  lemma S3CheckUsesThreeRounds(target: string, answers: seq<Answer>, dns: Resolver, dns': Resolver)
    requires forall k :: 0 <= k < S3Attempts ==> dns(target, "A", k) == dns'(target, "A", k)
    ensures S3Check(target, answers, dns) == S3Check(target, answers, dns')
  {
    var p := AnswerPrefixes(answers);
    var r, r' := S3From(target, p, dns, 0), S3From(target, p, dns', 0);
    S3FromOutcome(target, p, dns, 0);
    S3FromOutcome(target, p, dns', 0);
    if r == Checked(true) {
      var k :| 0 <= k < S3Attempts && S3Hit(dns(target, "A", k), p) && MissesBetween(target, p, dns, 0, k);
      assert S3Hit(dns'(target, "A", k), p) && MissesBetween(target, p, dns', 0, k);
    } else if r == Crash {
      var k :| 0 <= k < S3Attempts && dns(target, "A", k).Raised? && MissesBetween(target, p, dns, 0, k);
      assert dns'(target, "A", k).Raised? && MissesBetween(target, p, dns', 0, k);
    } else {
      assert MissesBetween(target, p, dns', 0, S3Attempts);
    }
  }

  /** What an alias candidate's check yields. */
  datatype Verdict = Verdict(same: bool, warnings: seq<Warning>) | AliasCrash

  function FromCheck(c: Check): Verdict {
    match c
    case Checked(ok) => Verdict(ok, [])
    case Crash => AliasCrash
  }

  /** Lines 83-116 for a candidate of group `name type` with target `dnsName`. */
  function VerifyAlias(name: string, rtype: string, dnsName: string, answers: seq<Answer>, dns: Resolver): (v: Verdict)
    ensures v.Verdict? && v.warnings != [] <==> Classify(dnsName) == Unverifiable
    ensures Classify(dnsName) == Unverifiable ==> v == Verdict(true, [CannotCheck(name, rtype, dnsName)])
    ensures v == AliasCrash ==> Classify(dnsName) != Unverifiable
  {
    match Classify(dnsName)
    case Elb => FromCheck(PtrCheck(answers, ComputePtrTail, dns))
    case S3Website => FromCheck(S3Check(dnsName, answers, dns))
    case CloudFront => FromCheck(PtrCheck(answers, CloudFrontPtrTail, dns))
    case Unverifiable => Verdict(true, [CannotCheck(name, rtype, dnsName)])
  }
}
