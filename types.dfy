/** Values the tester works on: declared record sets, live DNS answers and
    the resolver seen as an oracle. */
module Types {

  datatype Option<+T> = None | Some(value: T)

  /** One declared Route53 record set (an rrset of a hosted zone). The TTL,
      the value list and the alias target are independent optional fields,
      as in the DSL object the tester reads. */
  datatype Rrset = Rrset(
    name: string,
    rtype: string,
    ttl: Option<nat>,
    resourceRecords: Option<seq<string>>,
    dnsName: Option<string>)

  /** A declared zone: its record sets in declaration order. */
  datatype Zone = Zone(rrsets: seq<Rrset>)

  /** The grouping key `[name, type]`. */
  datatype Key = Key(name: string, rtype: string)

  function KeyOf(r: Rrset): Key { Key(r.name, r.rtype) }

  /** One resource record of a live DNS response. */
  datatype Answer = Answer(value: string, txt: string, ttl: nat)

  /** What the resolver does for one question: answers, or raises with a message. */
  datatype Response = Answered(answer: seq<Answer>) | Raised(message: string)

  /** Live DNS as an oracle over (name, type, round). Every query is made in
      round 0 except the S3-website re-queries, whose round is the attempt
      number, so that DNS may change between retries. */
  type Resolver = (string, string, nat) -> Response

  /** Warnings the run collects, in the order it collects them. */
  datatype Warning =
    | QueryError(name: string, rtype: string, message: string)
    | CannotCheck(name: string, rtype: string, target: string)
    | SameAs(name: string, rtype: string, wildcard: string)

  /** The pair of diagnostic lines built for a non-matching candidate. */
  datatype Diagnostic = Diagnostic(expected: string, actual: string)

  /** One error message: a failed group and one of its non-matching candidates. */
  datatype ErrorMessage = ErrorMessage(name: string, rtype: string, diag: Diagnostic)

  /** What the wildcard pre-probe stored for one wildcard key. */
  datatype WildcardAnswer = WildcardAnswer(key: Key, answers: seq<string>)
}
