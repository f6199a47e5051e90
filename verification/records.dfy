/**
 * The values the resolver passes around: DNSNode (a host name with a record
 * type), RecordType and ResourceRecord. Their Java sources are not part of
 * this model; the shapes below are what the two core classes rely on.
 */
module Records {

  datatype RecordType = A | NS | CNAME | SOA | MX | AAAA | OTHER

  /** RecordType.getByCode: the six recognised type codes, OTHER for the rest. */
  function TypeFromCode(code: int): RecordType
  {
    if code == 1 then A
    else if code == 2 then NS
    else if code == 5 then CNAME
    else if code == 6 then SOA
    else if code == 15 then MX
    else if code == 28 then AAAA
    else OTHER
  }

  /** The wire code of a recognised record type. */
  function CodeOf(t: RecordType): (code: nat)
    requires t != OTHER
    ensures TypeFromCode(code) == t
  {
    match t
    case A => 1
    case NS => 2
    case CNAME => 5
    case SOA => 6
    case MX => 15
    case AAAA => 28
  }

  /** DNSNode: equality on both the host name and the type. */
  datatype Node = Node(host: string, rtype: RecordType)

  /**
   * What a ResourceRecord carries: an InetAddress (kept as the text it was
   * parsed from), a text result only, or the null InetAddress addToCache
   * copies from a record that has none.
   */
  datatype Value = Address(addr: string) | Text(text: string) | NullAddress

  datatype Record = Record(node: Node, ttl: int, value: Value)

  /** getInetResult() != null. */
  predicate HasAddress(r: Record)
  {
    r.value.Address?
  }

  /** getTextResult(). The text of a NullAddress record is not visible in the source; "" stands for it. */
  function TextOf(v: Value): string
  {
    match v
    case Address(a) => a
    case Text(t) => t
    case NullAddress => ""
  }
}
