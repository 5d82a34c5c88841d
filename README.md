# Roadworker DNS tester — a Dafny model

Roadworker's tester (`lib/roadworker/dsl-tester.rb`) checks a declared set of
Route53 record sets against live DNS after a deployment. This project models
the decision procedure under its network calls and console output, and proves
what it computes:

- `fetch_records` groups the declared record sets of all hosted zones by
  `[name, type]`, keeping declaration order.
- `test` moves every key whose name contains `*` into a separate wildcard
  table. It resolves each wildcard once under a probe name and stores the
  answers.
- `test` then validates every wildcard group, then every literal group, and
  returns `[records_length, failures]` (line 192). The error and warning
  messages it collects are only logged (lines 184-190); the model keeps them
  in the run's report as well, so that properties can be stated about them.
- Validating a group (the `validate_record` lambda) works like this:
  - It queries the probe name.
  - A query that raises counts as a failure and adds a warning.
  - Otherwise it evaluates the candidate record sets in order until one
    matches (`rrs.any?`).
- A literal candidate matches when two lists are equal: its values and the
  live values, each stripped, sorted, then normalised per type.
- An alias candidate is checked by target family:
  - a load balancer or CloudFront target by reverse lookups;
  - an S3 website target by up to three A-queries;
  - any other target passes with a "cannot check" warning.
- Every candidate is then held to a TTL gate: 60 for aliases, the declared
  TTL otherwise.
- For literal groups, each evaluated candidate also adds a "same as" warning
  for every stored wildcard whose glob matches the group's name and shares a
  value with it.

Live DNS is the `Resolver` oracle `(name, type, round) -> Response`. A response
is `Answered(answers)` or `Raised(message)`. Every query is made in round 0
except the S3-website retries, whose round is the attempt number, so DNS can
change between attempts. The random string of `asterisk_to_anyname` is
supplied by `Nonce = nat -> RandomLabel`: the n-th string drawn in a run is
`nonce(n)`. Nested queries (lines 86, 100, 109) are not nil-checked in the
source. Their failure, and a TTL comparison against a missing TTL, raise out of
`test`; the model reports this as a `Crashed` run.

Modules:
- `Types`: declared record sets, answers, warnings.
- `Text`: Ruby string operations.
- `Sorting`: `Array#sort` on strings.
- `Normalize`: the value lists that are compared.
- `Wildcard`: probe names and glob matching.
- `Alias`: alias dispatch and checks.
- `Records`: `fetch_records` and the partition.
- `Validate`: one group, as pure functions.
- `Tester`: the run as a class whose methods update the accumulators, proved
  against the run specification `RunSpec`.

Points where the code behaves differently from what one might expect, all
modelled as the code is written:
- Values are sorted before they are normalised, and line 118 compares ordered
  lists, not sets.
- The pre-probe stores answers that are only stripped (line 170), not
  normalised. Line 134 compares them with the normalised live values.
- A failed nested query aborts the run instead of counting as a failed group.
- A failed group adds one error message per evaluated candidate, not one block
  per group.
- The collision check runs inside `rrs.any?` for each evaluated candidate, and
  it does not compare record types.
- A record set may have values, an alias target, both or neither. Line 81
  decides by `dns_name` alone.

## Model

| member | source | states |
|---|---|---|
| Records.FetchRecords | lib/roadworker/dsl-tester.rb:209-221 | the loop builds exactly `Grouped(Flatten(zones))`, a table whose key list is duplicate-free and equals its map's domain |
| Records.AddZone | lib/roadworker/dsl-tester.rb:213-217 | the inner loop turns the grouping of the record sets seen so far into the grouping of those plus the zone's record sets, in order |
| Records.Grouped | lib/roadworker/dsl-tester.rb:209-221 | the grouping has exactly one group per listed key, never more keys than record sets, and no key iff there is no record set |
| Records.GroupedPlacesEveryRecord | lib/roadworker/dsl-tester.rb:212-216 | every record set is in the group of its own `[name, type]` and only there; every group is non-empty |
| Records.GroupOfAppend | lib/roadworker/dsl-tester.rb:212-216 | grouping splits along concatenation: within a group, the earlier zones' record sets come first, in declaration order |
| Records.GroupedSnoc | lib/roadworker/dsl-tester.rb:214-216 | one `record_list[key] \|\|= []; << record` step turns the grouping of a prefix into the grouping of the prefix plus that record |
| Records.Partition | lib/roadworker/dsl-tester.rb:155-160 | deleting each wildcard key from `records` while copying it to `asterisk_records` leaves exactly the literal part and builds exactly the wildcard part, both well formed |
| Records.PartitionSplitsKeys | lib/roadworker/dsl-tester.rb:158-160 | every wildcard key is in the wildcard part and none in the literal part; the parts are disjoint, cover every original key with its group unchanged, and their sizes add up |
| Wildcard.Replacement | lib/roadworker/dsl-tester.rb:224-225 | the replacement `asterisk-of-wildcard-<r>` is 29 characters long with no `*`, dot or newline, and ends alphanumeric |
| Wildcard.ProbeName | lib/roadworker/dsl-tester.rb:223-226 | a probe name never contains `*`, and a name without `*` is probed unchanged |
| Wildcard.GlobMatch | lib/roadworker/dsl-tester.rb:132 | the anchored pattern `\A…\Z` only matches a name at least as long as the pattern |
| Wildcard.MatchLength | lib/roadworker/dsl-tester.rb:132 | `.+` consumes at least one character, so a matched name is at least as long as its pattern |
| Wildcard.GlobMatchLiteral | lib/roadworker/dsl-tester.rb:132 | a pattern without `*` matches exactly its own text, or its text followed by one newline (what `\Z` allows) |
| Wildcard.MatchLiteral | lib/roadworker/dsl-tester.rb:132 | a pattern without `*` matches exactly its own text |
| Wildcard.ChompDotProbeName | lib/roadworker/dsl-tester.rb:132-134 | removing the final dot commutes with probe-name substitution |
| Wildcard.ProbeNameMatchesItsWildcard | lib/roadworker/dsl-tester.rb:132-134 | a wildcard's own glob, final dots removed, matches every probe name made from it |
| Text.Strip | lib/roadworker/dsl-tester.rb:58 | `strip` returns the middle of the string with only blanks cut at either end, and it neither begins nor ends with a blank |
| Text.StripIdempotent | lib/roadworker/dsl-tester.rb:70 | stripping an already stripped value changes nothing |
| Text.SqueezeIdempotent | lib/roadworker/dsl-tester.rb:69-70 | `gsub(/\s+/, ' ')` applied twice is applied once |
| Text.ChompDot | lib/roadworker/dsl-tester.rb:66-67 | `sub(/\.\Z/, '')` removes a final dot, or a dot before a final newline, and nothing else |
| Sorting.Sort | lib/roadworker/dsl-tester.rb:58 | `sort` returns an ordered rearrangement of its input |
| Sorting.SortDependsOnlyOnContents | lib/roadworker/dsl-tester.rb:58 | lists holding the same strings sort to the same list |
| Normalize.HostFormDropsCaseAndFinalDot | lib/roadworker/dsl-tester.rb:65-67 | NS/PTR/MX/CNAME values are compared case-blind and without one final dot |
| Normalize.HostFormNotIdempotent | lib/roadworker/dsl-tester.rb:66-67 | only one final dot is removed, so normalising twice can change a value again |
| Normalize.QuotedOfQuoteSegments | lib/roadworker/dsl-tester.rb:69 | `scan(/"([^"]+)"/)` on a value written as quoted segments returns exactly the segments |
| Normalize.DeclaredAndLiveTextAgree | lib/roadworker/dsl-tester.rb:68-70 | a TXT/SPF value declared as quoted segments normalises to what the live text, the segments run together, normalises to |
| Normalize.LiveTextFormIdempotent | lib/roadworker/dsl-tester.rb:70 | live TXT/SPF normalisation applied twice is applied once |
| Normalize.ValuesMatchIgnoresOrder | lib/roadworker/dsl-tester.rb:58-61 | the comparison depends neither on the order values are declared in nor on the order of the live answers |
| Normalize.SortBeforeNormalizeIsNotSetEquality | lib/roadworker/dsl-tester.rb:58-71 | since sorting precedes lower-casing, declared `B.`,`a.` against live `a.`,`b.` (any such letters) agree as multisets yet the compared lists differ |
| Normalize.ExpectedValues | lib/roadworker/dsl-tester.rb:58-71 | the declared list keeps one entry per declared value; for types other than NS/PTR/MX/CNAME/TXT/SPF it is the sorted rearrangement of the stripped values |
| Normalize.ActualValues | lib/roadworker/dsl-tester.rb:61-71 | the live list keeps one entry per answer; for the other types it is the sorted rearrangement of the stripped answer fields |
| Normalize.ValuesMatch | lib/roadworker/dsl-tester.rb:118 | equal lists need as many declared values as live answers |
| Normalize.Quoted | lib/roadworker/dsl-tester.rb:69 | every part `scan(/"([^"]+)"/)` returns is non-empty and free of double quotes |
| Alias.ElbTargetsAreElb | lib/roadworker/dsl-tester.rb:83-84 | any target under `.elb.amazonaws.com.` is dispatched to the load-balancer check, whatever else it looks like |
| Alias.Classify | lib/roadworker/dsl-tester.rb:83-116 | the `case` on the target, final dot removed: load balancer iff the mark occurs in any case; S3 website iff not that and the whole name is an S3 website host; CloudFront iff neither and it ends in `.cloudfront.net`; otherwise unverifiable |
| Alias.S3WebsiteTargetsAreS3 | lib/roadworker/dsl-tester.rb:90 | `s3-website-<region>.amazonaws.com.` without the load-balancer mark is dispatched to the S3 website check |
| Alias.OtherTargetsUnverifiable | lib/roadworker/dsl-tester.rb:113-116 | a target that neither carries the load-balancer mark nor ends like an S3 website or CloudFront host falls into the `else` branch |
| Alias.CloudFrontTargetsAreCloudFront | lib/roadworker/dsl-tester.rb:83-107 | a `.cloudfront.net.` target without the load-balancer mark is dispatched to the CloudFront check |
| Alias.PtrCheck | lib/roadworker/dsl-tester.rb:85-112 | passes iff every answer's PTR records all end in the suffix; crashes iff some reverse lookup raises after only passing ones |
| Alias.S3FromOutcome | lib/roadworker/dsl-tester.rb:94-106 | the attempts succeed iff one hits after only answered misses, crash iff one raises after only answered misses, fail iff all three miss |
| Alias.S3From | lib/roadworker/dsl-tester.rb:94-106 | an attempt that hits ends the check with success, one that raises ends it with a crash, and failure means every remaining attempt missed |
| Alias.S3Check | lib/roadworker/dsl-tester.rb:94-106 | a hit at the first attempt passes, a raise at the first attempt crashes, and a failure means all three attempts missed |
| Alias.S3CheckUsesThreeRounds | lib/roadworker/dsl-tester.rb:94 | the verdict depends only on the first three rounds of A-queries of the target |
| Alias.VerifyAlias | lib/roadworker/dsl-tester.rb:83-116 | it warns iff the target is unverifiable, and then passes with exactly the "cannot check" warning; an unverifiable target never crashes |
| Validate.Query | lib/roadworker/dsl-tester.rb:228-239 | `nil` iff the resolver raised, else its answers; a warning is added iff a list was passed and the query raised, and it carries the name, type and message |
| Validate.ExpectedMessage | lib/roadworker/dsl-tester.rb:73 | with a non-empty value list, the message starts with the first normalised value and the expected TTL in parentheses; an alias without values gives its target followed by `(60)` |
| Validate.ActualMessage | lib/roadworker/dsl-tester.rb:74 | empty without answers; otherwise it starts with the first sorted live value paired with the first answer's TTL (the zip at line 74 pairs sorted values with unsorted TTLs) |
| Validate.Diagnose | lib/roadworker/dsl-tester.rb:73-76 | the diagnostic is `expected=` followed by the expected message and `actual=` followed by the actual message |
| Validate.TtlGate | lib/roadworker/dsl-tester.rb:121-125 | a same candidate stays same iff every live TTL is within its TTL; without a TTL that is only so for an empty answer, and a non-empty one raises |
| Validate.Collisions | lib/roadworker/dsl-tester.rb:129-137 | at most one "same as" warning per stored wildcard (the exact set is stated by `CollisionsAre`) |
| Validate.CollisionsAre | lib/roadworker/dsl-tester.rb:129-137 | every warning is a "same as" for the probed name and type, and there is one naming each colliding wildcard and none naming any other |
| Validate.LiteralCandidate | lib/roadworker/dsl-tester.rb:57-127 | a candidate without alias passes iff the lists are equal and every live TTL is within its TTL; it crashes iff it has no TTL yet matches a non-empty answer |
| Validate.EvalCandidate | lib/roadworker/dsl-tester.rb:57-140 | a candidate crashes iff its alias check crashes or it is same without a TTL against a non-empty answer; it passes iff it is same and passes the TTL gate; it keeps the warnings of its alias check |
| Validate.AliasCandidateTtl | lib/roadworker/dsl-tester.rb:59-125 | an alias candidate passes only if every live TTL is at most 60, and crashes only through its nested check |
| Validate.UnverifiableAliasStillGated | lib/roadworker/dsl-tester.rb:113-125 | an unverifiable alias passes iff every live TTL is at most 60, and its first warning is "cannot check" |
| Validate.CollisionsNeverChangeVerdict | lib/roadworker/dsl-tester.rb:129-140 | with or without stored wildcard answers a candidate crashes alike and gets the same verdict and diagnostic; only warnings are added |
| Validate.Decide | lib/roadworker/dsl-tester.rb:57-141 | `any?` is true iff some candidate passes after only failing ones; it crashes iff one crashes after only failing ones; it is false iff all fail, and then there is one diagnostic per candidate, in order |
| Validate.MatchCandidates | lib/roadworker/dsl-tester.rb:57 | no candidates give a completed, invalid matching with nothing recorded; valid means some candidate passed; invalid means one diagnostic per candidate, in order |
| Validate.LaterCandidatesIgnored | lib/roadworker/dsl-tester.rb:57 | once a candidate passes or crashes, the candidates after it change nothing |
| Validate.ValidateGroup | lib/roadworker/dsl-tester.rb:40-153 | a raised query gives a failure with only its warning; a passing group has no error; a failed answered group has one error per candidate, each tagged with the group |
| Validate.GroupFailsIff | lib/roadworker/dsl-tester.rb:49-152 | a group fails iff its query raised or every candidate failed |
| Validate.GroupCrashIff | lib/roadworker/dsl-tester.rb:57-141 | a group crashes iff its query was answered and some candidate crashes after only failing ones |
| Validate.SameAsNeedsWildcardAnswers | lib/roadworker/dsl-tester.rb:129-138 | a group's "same as" warnings need stored answers, name its probe name and type, and name a stored wildcard |
| Validate.HostValuesMissDottedWildcardAnswers | lib/roadworker/dsl-tester.rb:61-134 | raw-stripped stored host values ending in a dot never meet the normalised values of single-dot host answers, so no collision is reported |
| Tester.ProbeOne | lib/roadworker/dsl-tester.rb:163-171 | the pre-probe stores the stripped answer values when the probe was answered and nothing when it raised |
| Tester.CollectComplete | lib/roadworker/dsl-tester.rb:162-172 | every wildcard whose probe was answered has an entry holding its stripped answers |
| Tester.CollectSound | lib/roadworker/dsl-tester.rb:162-172 | every entry belongs to a wildcard whose probe was answered and holds that answer's stripped values |
| Tester.GroupCheckWellBehaved | lib/roadworker/dsl-tester.rb:40-153 | for the lambda, a passing group adds no error, and every "same as" warning needs stored answers and names the group's probe |
| Tester.CrashIsFinal | lib/roadworker/dsl-tester.rb:174-180 | once a group crashes, the run is crashed whatever follows |
| Tester.FoldAccounts | lib/roadworker/dsl-tester.rb:143-152 | accumulating crashes iff some group crashes; otherwise it adds one failure per failed group, only appends messages, and adds no error if no group failed |
| Tester.FoldWarnings | lib/roadworker/dsl-tester.rb:174-180 | every accumulated warning was already there or comes from one of the groups |
| Tester.RunOn | lib/roadworker/dsl-tester.rb:174-192 | a completed run's total is the size of the grouped table and its failures are the failed groups of both passes |
| Tester.RunSpec | lib/roadworker/dsl-tester.rb:33-193 | a completed run reports one total per distinct `[name, type]` key and never more failures than that total |
| Tester.RunCrashes | lib/roadworker/dsl-tester.rb:174-180 | a run crashes iff some wildcard or literal group crashes |
| Tester.RunCounts | lib/roadworker/dsl-tester.rb:35-192 | a completed run's total is the number of keys, wildcard and literal; its failures are exactly the failed wildcard groups plus the failed literal groups, so failures ≤ total; failures = 0 iff no group failed, and then no error was collected |
| Tester.WildGroupsReportNoSameAs | lib/roadworker/dsl-tester.rb:174-176 | wildcard groups are validated without stored answers and so add no "same as" warning |
| Tester.SameAsOnlyForLiteralGroups | lib/roadworker/dsl-tester.rb:129-180 | every "same as" warning of a completed run is about a literal key and names a wildcard whose probe was answered |
| Tester.Tester.constructor | lib/roadworker/dsl-tester.rb:28-31 | a tester fixes its resolver and random source and starts with nothing drawn and empty accumulators |
| Tester.Tester.AsteriskToAnyname | lib/roadworker/dsl-tester.rb:223-226 | the probe name is the name with the next random string substituted; one string is drawn; nothing else changes |
| Tester.Tester.ProbeWildcards | lib/roadworker/dsl-tester.rb:162-172 | the loop returns exactly the pre-probe's stored answers, draws one string per wildcard and touches no accumulator |
| Tester.Tester.RecordErrors | lib/roadworker/dsl-tester.rb:149-151 | appends one error message per diagnostic, in order, and nothing else |
| Tester.Tester.MatchRecord | lib/roadworker/dsl-tester.rb:57-152 | crashes iff matching crashes; otherwise it counts a failure iff no candidate passed, appends the tagged diagnostics then, and always appends the candidates' warnings |
| Tester.Tester.RecordMatching | lib/roadworker/dsl-tester.rb:143-152 | keeps the candidates' warnings; counts one failure and appends the tagged diagnostics iff no candidate passed; draws nothing |
| Tester.Tester.ValidateRecord | lib/roadworker/dsl-tester.rb:40-153 | one call draws one string and leaves the accumulators as the group's verdict, applied to their old values, prescribes, or reports the crash |
| Tester.Tester.ValidateAll | lib/roadworker/dsl-tester.rb:174-180 | validating the groups in order leaves the accumulators at the fold of their verdicts, or reports the crash |
| Tester.Tester.RunPasses | lib/roadworker/dsl-tester.rb:174-192 | wildcard groups first, then literal groups against the stored answers; the result is `RunOn`, and a completed report is what the accumulators hold |
| Tester.Tester.Test | lib/roadworker/dsl-tester.rb:33-193 | `test(dsl)` returns `RunSpec(zones, …)`; on completion the report's total, failures and messages are the tester's accumulators |

## Left out

- `create_resolver` (lines 197-207), `Net::DNS.const_get` and the resolver call (lines 229-233) are not modelled. The resolver is the `Resolver` parameter, and every record type is assumed known to `Net::DNS`.
- `sleep 3`, the retry log line, `log`, `puts`, `print_success`, `print_failure` and colouring (lines 47, 77, 95-98, 182-190, 241-247) are not modelled. They are timing and console output only.
- The `Socket::AF_INET6` patch and the `require`s (lines 3-12) are environment set-up.
- Real randomness is left out. `shuffle[0..7]` (line 224) becomes the `Nonce` parameter, whose strings are 8 distinct alphanumerics.
- `downcase` and `/i` are modelled on ASCII letters only, not full Unicode case mapping.
- Ruby regular expressions are modelled only through the patterns the tester uses. In a wildcard name, characters that are regex metacharacters other than `.` and `*` are read literally at line 132.
- `uniq` at line 91 is not modelled, because it does not change membership.
- Tester.Tester.Test: the accumulators after a crash are left unstated. The exception leaves `test` and nothing is printed.
- Tester.Tester.RunPasses: the accumulators after a crash are left unstated, for the same reason.
- Ruby's byte-wise string order is modelled as code-point order, which agrees on UTF-8.
- Resource-record values are plain strings, not `{value: ...}` hashes.
