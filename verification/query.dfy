/**
 * The encoding half of buildAndSendQuery: a 12-octet header (RFC 1035
 * section 4.1.1) followed by one question (section 4.1.2) for the host and
 * record type. The question is written into a 70-octet buffer and the unused
 * zero padding is trimmed off again by removeTrailingZeroes.
 *
 * The random value behind the transaction ID is a parameter; both ID octets
 * keep only their low seven bits, as the source masks them with 0x7F.
 */
module Query {
  import opened Wrappers
  import opened Octets
  import opened Text
  import opened DomainName

  const HeaderLength: nat := 12
  /** ByteBuffer.allocate(70) for the question section. */
  const QuestionCapacity: nat := 70

  /** The bytes handed to the socket and the ID the reply must carry. */
  datatype QueryMessage = QueryMessage(bytes: seq<byte>, transactionId: nat)

  /** A question longer than its 70-octet buffer: Java's BufferOverflowException. */
  datatype EncodeError = QuestionOverflow

  /** The two ID octets: the random value's high and low octets, each masked with 0x7F. */
  function QueryId(rnd: nat): (id: seq<byte>)
    ensures |id| == 2 && id[0] < 128 && id[1] < 128
  {
    [((rnd / 256) % 128) as byte, (rnd % 128) as byte]
  }

  /** ID, flags 0x0100 (RD set), QDCOUNT 1, and zero ANCOUNT, NSCOUNT and ARCOUNT. */
  function Header(rnd: nat): (h: seq<byte>)
    ensures |h| == HeaderLength && h[..2] == QueryId(rnd)
    ensures h[2] == 1 && h[3] == 0
    ensures DecodeTwoOctets(h[4], h[5]) == 1
    ensures DecodeTwoOctets(h[6], h[7]) == 0 && DecodeTwoOctets(h[8], h[9]) == 0 && DecodeTwoOctets(h[10], h[11]) == 0
  {
    QueryId(rnd) + [1, 0, 0, 1, 0, 0, 0, 0, 0, 0]
  }

  /** domainName.split("\\."): the host's labels. */
  function HostLabels(host: string): (labels: seq<string>)
    requires IsAscii(host)
    ensures AllAscii(labels)
  {
    JavaSplitAscii(host, '.');
    JavaSplit(host, '.')
  }

  /** QNAME from the host's labels, then QTYPE as the octets 0 and (byte) typeCode, then QCLASS IN. */
  function Question(labels: seq<string>, typeCode: int): (q: seq<byte>)
    requires AllAscii(labels)
    ensures |q| == |EncodeLabels(labels)| + 5 && q[|q| - 1] == 1
  {
    QName(labels) + [0, (typeCode % 256) as byte, 0, 1]
  }

  /**
   * The query message for host and the record type's code, given the random
   * value rnd drawn from [0, 65535). The question is padded to the buffer's
   * capacity and trimmed again, as the source does.
   */
  function EncodeQuery(rnd: nat, host: string, typeCode: int): (r: Result<QueryMessage, EncodeError>)
    requires rnd < 65535
    requires IsAscii(host)
    ensures r.Success? <==> |EncodeLabels(HostLabels(host))| + 5 <= QuestionCapacity
    ensures r.Success? ==>
              var m := r.value.bytes;
              |m| == HeaderLength + |EncodeLabels(HostLabels(host))| + 5 &&
              m[HeaderLength..] == QName(HostLabels(host)) + [0, (typeCode % 256) as byte, 0, 1]
    ensures r.Success? ==>
              var m := r.value.bytes;
              m[..HeaderLength] == [m[0], m[1], 1, 0, 0, 1, 0, 0, 0, 0, 0, 0] &&
              m[..2] == [((rnd / 256) % 128) as byte, (rnd % 128) as byte] &&
              m[0] <= 0x7F && m[1] <= 0x7F &&
              r.value.transactionId == DecodeTwoOctets(m[0], m[1])
  {
    var q := Question(HostLabels(host), typeCode);
    if |q| > QuestionCapacity then Failure(QuestionOverflow)
    else
      var id := QueryId(rnd);
      var m := Header(rnd) + Trimmed(q);
      assert m[HeaderLength..] == q;
      Success(QueryMessage(m, DecodeTwoOctets(id[0], id[1])))
  }

  /**
   * The octets the question for host takes, for any host: every field of
   * domainName.split("\\.") is written as a length octet and length()
   * characters, then come the zero octet, QTYPE and QCLASS.
   */
  function QuestionSize(host: string): nat
  {
    |Terminated(JavaSplit(host, '.'), '.')| + 5
  }

  /** The question fits its 70-octet buffer; otherwise buildAndSendQuery throws BufferOverflowException before sending. */
  predicate QuestionFits(host: string)
  {
    QuestionSize(host) <= QuestionCapacity
  }

  /** For an ASCII host the encoder succeeds exactly when the question fits. */
  lemma EncodesExactlyWhenFits(rnd: nat, host: string, typeCode: int)
    requires rnd < 65535 && IsAscii(host)
    ensures EncodeQuery(rnd, host, typeCode).Success? <==> QuestionFits(host)
  {
    EncodedLength(HostLabels(host));
  }

  /**
   * The question array as sent: the content padded with zeros to the buffer's
   * capacity, then cut back by removeTrailingZeroes. Since a question ends in
   * QCLASS's non-zero octet, exactly the padding is removed.
   */
  function Trimmed(q: seq<byte>): (t: seq<byte>)
    requires 0 < |q| <= QuestionCapacity && q[|q| - 1] != 0
    ensures t == q
  {
    var padded := q + Zeros(QuestionCapacity - |q|);
    RemovePadding(q, QuestionCapacity - |q|);
    RemoveTrailingZeroes(padded).value
  }

  /**
   * Round trip for queries: when the host's labels are non-empty ASCII
   * labels, the query fits exactly when the host has at most 64 characters,
   * and then the name at offset 12 decodes back to the host with the cursor
   * on the first QTYPE octet, followed by the type code's octet and class IN.
   */
  lemma QueryRoundTrip(rnd: nat, host: string, typeCode: int, fuel: nat)
    requires rnd < 65535 && IsAscii(host)
    requires ValidLabels(Split(host, '.'))
    ensures EncodeQuery(rnd, host, typeCode).Success? <==> |host| <= 64
    ensures EncodeQuery(rnd, host, typeCode).Success? ==>
              var m := EncodeQuery(rnd, host, typeCode).value.bytes;
              |m| == HeaderLength + |host| + 6 &&
              DecodeName(m, HeaderLength, "", fuel) == Success((host, |m| - 4)) &&
              m[|m| - 4..] == [0, (typeCode % 256) as byte, 0, 1]
  {
    HostLabelsOfValidHost(host);
    var r := EncodeQuery(rnd, host, typeCode);
    QuestionReadsBack(r, host, typeCode, fuel);
  }

  /** A host whose fields are valid labels is split into exactly those fields, one octet longer once encoded. */
  lemma HostLabelsOfValidHost(host: string)
    requires IsAscii(host) && ValidLabels(Split(host, '.'))
    ensures HostLabels(host) == Split(host, '.')
    ensures Join(Split(host, '.'), '.') == host
    ensures |EncodeLabels(Split(host, '.'))| == |host| + 1
  {
    var labels := Split(host, '.');
    JavaSplitOfNonEmptyFields(host, '.');
    JoinSplit(host, '.');
    EncodedLength(labels);
    TerminatedIsJoin(labels, '.');
  }

  /** A message whose question section is the host's QNAME, QTYPE and QCLASS reads the host back at offset 12. */
  lemma QuestionReadsBack(r: Result<QueryMessage, EncodeError>, host: string, typeCode: int, fuel: nat)
    requires IsAscii(host) && ValidLabels(Split(host, '.')) && Join(Split(host, '.'), '.') == host
    requires |EncodeLabels(Split(host, '.'))| == |host| + 1
    requires r.Success? ==>
               |r.value.bytes| >= HeaderLength &&
               r.value.bytes[HeaderLength..] == QName(Split(host, '.')) + [0, (typeCode % 256) as byte, 0, 1]
    ensures r.Success? ==>
              var m := r.value.bytes;
              |m| == HeaderLength + |host| + 6 &&
              DecodeName(m, HeaderLength, "", fuel) == Success((host, |m| - 4)) &&
              m[|m| - 4..] == [0, (typeCode % 256) as byte, 0, 1]
  {
    if r.Success? {
      var m := r.value.bytes;
      var labels := Split(host, '.');
      var q := QName(labels) + [0, (typeCode % 256) as byte, 0, 1];
      assert |m| == HeaderLength + |host| + 6;
      assert m[|m| - 4..] == q[|q| - 4..];
      assert m[HeaderLength..HeaderLength + |QName(labels)|] == q[..|QName(labels)|];
      assert At(m, HeaderLength, QName(labels));
      DecodeEncodedName(m, HeaderLength, labels, |m| - 4, fuel);
    }
  }
}
