/**
 * decodeAndCacheResponse and parseRecord of DNSQueryHandler: the reply's
 * header (RFC 1035 section 4.1.1), the one question it echoes (section
 * 4.1.2), and its resource records (section 4.1.3), whose RDATA is read per
 * type: A (section 3.4.1) as dotted decimal, AAAA (section 2.2 of RFC 3596)
 * as colon-separated hex groups, MX (section 3.3.9) as the exchange name
 * after the preference, and every other type as one name.
 *
 * InetAddress.getByName, which turns an A or AAAA text into an address, is a
 * parameter isAddress: it says which texts it accepts.
 */
module Response {
  import opened Wrappers
  import opened Octets
  import opened Text
  import opened Records
  import opened DomainName
  import opened Cache

  const TypeCodeA: nat := 1
  const TypeCodeMX: nat := 15
  const TypeCodeAAAA: nat := 28

  // ----- address texts -----

  /** Integer.toString of each octet. */
  function Decimals(bs: seq<byte>): (r: seq<string>)
    ensures |r| == |bs|
    ensures forall i :: 0 <= i < |bs| ==> r[i] == Decimal(bs[i] as nat)
  {
    if |bs| == 0 then [] else [Decimal(bs[0] as nat)] + Decimals(bs[1..])
  }

  /** The big-endian 16-bit groups of an even number of octets. */
  function Groups(bs: seq<byte>): (r: seq<nat>)
    requires |bs| % 2 == 0
    ensures |r| == |bs| / 2
  {
    seq(|bs| / 2, i requires 0 <= i < |bs| / 2 => DecodeTwoOctets(bs[2 * i], bs[2 * i + 1]))
  }

  /** Integer.toHexString of each group. */
  function Hexes(vs: seq<nat>): (r: seq<string>)
    ensures |r| == |vs|
    ensures forall i :: 0 <= i < |vs| ==> r[i] == Hex(vs[i])
  {
    if |vs| == 0 then [] else [Hex(vs[0])] + Hexes(vs[1..])
  }

  /** The A loop: every octet in decimal followed by '.', then the last '.' cut off. */
  function DottedDecimal(bs: seq<byte>): (s: string)
    ensures |bs| > 0 ==> s == Join(Decimals(bs), '.')
  {
    if |bs| > 0 then TerminatedIsJoin(Decimals(bs), '.'); DropLast(Terminated(Decimals(bs), '.'))
    else DropLast(Terminated(Decimals(bs), '.'))
  }

  /** The AAAA loop: every group in hex followed by ':', then the last ':' cut off. */
  function ColonHex(bs: seq<byte>): (s: string)
    requires |bs| % 2 == 0
    ensures |bs| > 0 ==> s == Join(Hexes(Groups(bs)), ':')
  {
    if |bs| > 0 then TerminatedIsJoin(Hexes(Groups(bs)), ':'); DropLast(Terminated(Hexes(Groups(bs)), ':'))
    else DropLast(Terminated(Hexes(Groups(bs)), ':'))
  }

  /** The octets as numbers. */
  function Values(bs: seq<byte>): (vs: seq<nat>)
    ensures |vs| == |bs| && forall i :: 0 <= i < |bs| ==> vs[i] == bs[i] as nat
  {
    seq(|bs|, i requires 0 <= i < |bs| => bs[i] as nat)
  }

  /** Numerals never contain a separator. */
  lemma NumeralsHaveNoSeparator(parts: seq<string>, base: nat, sep: char)
    requires base == 10 || base == 16
    requires sep == '.' || sep == ':'
    requires forall i :: 0 <= i < |parts| ==> forall k :: 0 <= k < |parts[i]| ==> IsDigit(parts[i][k], base)
    ensures forall i :: 0 <= i < |parts| ==> sep !in parts[i]
  {
  }

  /** Reading the A text back field by field gives the octets it was made from. */
  lemma DottedDecimalRoundTrip(bs: seq<byte>)
    requires |bs| > 0
    ensures NumeralValues(Split(DottedDecimal(bs), '.'), 10) == Values(bs)
  {
    var parts := Decimals(bs);
    TerminatedIsJoin(parts, '.');
    NumeralsHaveNoSeparator(parts, 10, '.');
    SplitJoin(parts, '.');
    forall i | 0 <= i < |bs|
      ensures NumeralValue(parts[i], 10) == bs[i] as nat
    {
      NumeralRoundTrip(bs[i] as nat, 10);
    }
  }

  /** Reading the AAAA text back field by field gives the 16-bit groups it was made from. */
  lemma ColonHexRoundTrip(bs: seq<byte>)
    requires |bs| > 0 && |bs| % 2 == 0
    ensures NumeralValues(Split(ColonHex(bs), ':'), 16) == Groups(bs)
  {
    var parts := Hexes(Groups(bs));
    TerminatedIsJoin(parts, ':');
    NumeralsHaveNoSeparator(parts, 16, ':');
    SplitJoin(parts, ':');
    forall i | 0 <= i < |parts|
      ensures NumeralValue(parts[i], 16) == Groups(bs)[i]
    {
      NumeralRoundTrip(Groups(bs)[i], 16);
    }
  }

  // ----- one resource record -----

  /**
   * The RDATA text of a record of the given type whose RDATA starts at p,
   * and the cursor after what was read. A reads RDLENGTH octets and AAAA
   * RDLENGTH / 2 groups; either fails when that yields nothing, where the
   * source's substring(0, -1) throws. MX skips the preference; every other
   * type reads one name and leaves the cursor after it, not at the end of
   * RDATA.
   */
  function RData(buf: seq<byte>, p: nat, typeCode: nat, rdLength: nat, fuel: nat): (r: Result<(string, nat), DecodeError>)
    ensures r.Success? ==> r.value.1 <= |buf|
    ensures typeCode == TypeCodeA ==>
              (r.Success? <==> 0 < rdLength && p + rdLength <= |buf|) &&
              (r.Success? ==> r.value == (DottedDecimal(buf[p..p + rdLength]), p + rdLength))
    ensures typeCode == TypeCodeAAAA ==>
              (r.Success? <==> 2 <= rdLength && p + rdLength / 2 * 2 <= |buf|) &&
              (r.Success? ==> r.value.1 == p + rdLength / 2 * 2)
    ensures typeCode == TypeCodeMX ==> r == DecodeName(buf, p + 2, "", fuel)
    ensures typeCode !in {TypeCodeA, TypeCodeAAAA, TypeCodeMX} ==> r == DecodeName(buf, p, "", fuel)
  {
    if typeCode == TypeCodeA then
      if p + rdLength > |buf| then Failure(Truncated)
      else if rdLength == 0 then Failure(EmptyAddress)
      else Success((DottedDecimal(buf[p..p + rdLength]), p + rdLength))
    else if typeCode == TypeCodeAAAA then
      var end := p + rdLength / 2 * 2;
      if end > |buf| then Failure(Truncated)
      else if rdLength < 2 then Failure(EmptyAddress)
      else Success((ColonHex(buf[p..end]), end))
    else if typeCode == TypeCodeMX then
      DecodeName(buf, p + 2, "", fuel)
    else
      DecodeName(buf, p, "", fuel)
  }

  /** An A or AAAA text the address parser accepts becomes an address; anything else stays text. */
  function ValueOf(typeCode: nat, text: string, isAddress: string -> bool): (v: Value)
    ensures v.Address? <==> (typeCode == TypeCodeA || typeCode == TypeCodeAAAA) && isAddress(text)
    ensures TextOf(v) == text
  {
    if (typeCode == TypeCodeA || typeCode == TypeCodeAAAA) && isAddress(text) then Address(text) else Text(text)
  }

  /**
   * parseRecord at pos: NAME, then TYPE, CLASS (ignored), TTL and RDLENGTH,
   * then RDATA; the record and the cursor after it.
   */
  function ParseRecord(buf: seq<byte>, pos: nat, fuel: nat, isAddress: string -> bool): (r: Result<(Record, nat), DecodeError>)
    ensures r.Success? ==> pos < r.value.1 <= |buf|
    ensures r.Success? ==>
              var name := DecodeName(buf, pos, "", fuel);
              name.Success? && r.value.0.node.host == name.value.0 && name.value.1 + 10 <= |buf|
    ensures r.Success? ==> -(TwoTo31 as int) <= r.value.0.ttl < TwoTo31
    ensures r.Success? && r.value.0.value.Address? ==> r.value.0.node.rtype in {A, AAAA}
  {
    var name :- DecodeName(buf, pos, "", fuel);
    ParseAfterName(buf, name.0, name.1, fuel, isAddress)
  }

  /** The rest of parseRecord once the owner name has been read up to p: the fixed fields, then RDATA. */
  function ParseAfterName(buf: seq<byte>, host: string, p: nat, fuel: nat, isAddress: string -> bool): (r: Result<(Record, nat), DecodeError>)
    ensures r.Success? ==> p + 10 <= |buf| && p < r.value.1 <= |buf|
    ensures r.Success? ==> r.value.0.node.host == host && -(TwoTo31 as int) <= r.value.0.ttl < TwoTo31
    ensures r.Success? && r.value.0.value.Address? ==> r.value.0.node.rtype in {A, AAAA}
  {
    if p + 10 > |buf| then Failure(Truncated)
    else
      var typeCode := DecodeTwoOctets(buf[p], buf[p + 1]);
      var ttl := DecodeTTL(buf[p + 4], buf[p + 5], buf[p + 6], buf[p + 7]);
      var rdLength := DecodeTwoOctets(buf[p + 8], buf[p + 9]);
      var data :- RData(buf, p + 10, typeCode, rdLength, fuel);
      var record := Record(Node(host, TypeFromCode(typeCode)), ttl, ValueOf(typeCode, data.0, isAddress));
      Success((record, data.1))
  }

  /** An AAAA value is its 2 * (RDLENGTH / 2) octets printed as colon-separated hex groups. */
  lemma AAAAText(buf: seq<byte>, p: nat, rdLength: nat, fuel: nat)
    requires RData(buf, p, TypeCodeAAAA, rdLength, fuel).Success?
    ensures RData(buf, p, TypeCodeAAAA, rdLength, fuel) == Success((ColonHex(buf[p..p + rdLength / 2 * 2]), p + rdLength / 2 * 2))
  {
  }

  // ----- sections -----

  /** The records read from one or more sections, where reading stopped, and the error that stopped it early. */
  datatype Parsed = Parsed(records: seq<Record>, next: nat, error: Option<DecodeError>)

  /** Reads one record at a cursor: parseRecord over a fixed buffer. */
  type Reader = nat -> Result<(Record, nat), DecodeError>

  function RecordReader(buf: seq<byte>, fuel: nat, isAddress: string -> bool): Reader
  {
    p => ParseRecord(buf, p, fuel, isAddress)
  }

  /**
   * count records read one after the other from pos, as each of the
   * source's three loops does; reading stops at the first record that fails.
   */
  function ParseRecords(read: Reader, pos: nat, count: nat): (r: Parsed)
    ensures r.error.None? ==> |r.records| == count
    ensures r.error.Some? ==> |r.records| < count
    ensures count > 0 && read(pos).Failure? ==> r == Parsed([], pos, Some(read(pos).error))
    ensures count > 0 && read(pos).Success? ==> |r.records| > 0 && r.records[0] == read(pos).value.0
    decreases count
  {
    if count == 0 then Parsed([], pos, None)
    else
      match read(pos)
      case Failure(e) => Parsed([], pos, Some(e))
      case Success((record, next)) =>
        var rest := ParseRecords(read, next, count - 1);
        Parsed([record] + rest.records, rest.next, rest.error)
  }

  /** Reading one more section after what has been read, unless reading already failed. */
  function Then(first: Parsed, read: Reader, count: nat): Parsed
  {
    if first.error.Some? then first
    else
      var second := ParseRecords(read, first.next, count);
      Parsed(first.records + second.records, second.next, second.error)
  }

  /** Reading a + b records is reading a records, then b more from where those ended. */
  lemma {:induction false} ParseRecordsSplit(read: Reader, pos: nat, a: nat, b: nat)
    ensures ParseRecords(read, pos, a + b) == Then(ParseRecords(read, pos, a), read, b)
    decreases a
  {
    if a == 0 {
      var second := ParseRecords(read, pos, b);
      assert [] + second.records == second.records;
    } else if read(pos).Success? {
      var record, next := read(pos).value.0, read(pos).value.1;
      var n := a - 1;
      ParseRecordsSplit(read, next, n, b);
      FirstRecordRead(read, pos, a + b, n + b, record, next);
      FirstRecordRead(read, pos, a, n, record, next);
      var first := ParseRecords(read, next, n);
      var head := Parsed([record] + first.records, first.next, first.error);
      if first.error.None? {
        var second := ParseRecords(read, first.next, b);
        assert Then(head, read, b) == Parsed(head.records + second.records, second.next, second.error);
        assert [record] + (first.records + second.records) == head.records + second.records;
      } else {
        assert Then(first, read, b) == first && Then(head, read, b) == head;
      }
    }
  }

  /** A run that reads its first record: that record, then the rest of the run from where it ended. */
  lemma FirstRecordRead(read: Reader, pos: nat, count: nat, more: nat, record: Record, next: nat)
    requires count == more + 1 && read(pos) == Success((record, next))
    ensures var rest := ParseRecords(read, next, more);
            ParseRecords(read, pos, count) == Parsed([record] + rest.records, rest.next, rest.error)
  {
  }

  /** The answer, authority and additional sections, read in that order. */
  function Sections(read: Reader, start: nat, an: nat, ns: nat, ar: nat): Parsed
  {
    var answers := ParseRecords(read, start, an);
    var authority := Then(answers, read, ns);
    Then(authority, read, ar)
  }

  /** The three loops read exactly the records one loop over all counts would. */
  lemma SectionsAreOneRun(read: Reader, start: nat, an: nat, ns: nat, ar: nat)
    ensures Sections(read, start, an, ns, ar) == ParseRecords(read, start, an + ns + ar)
  {
    ParseRecordsSplit(read, start, an + ns, ar);
    ParseRecordsSplit(read, start, an, ns);
  }

  // ----- the whole reply -----

  /**
   * What decodeAndCacheResponse makes of a reply: null for a foreign
   * transaction ID or an error RCODE, the set of records on success, and an
   * escaping exception (with the records cached before it) when the reply is
   * malformed or runs past the end of the array.
   */
  datatype Outcome =
    | Mismatch
    | ErrorCode(rcode: nat)
    | Answers(records: seq<Record>)
    | Malformed(partial: seq<Record>, error: DecodeError)

  datatype Decoded = Decoded(outcome: Outcome, cache: Cache)

  /** The counts of the header: a big-endian 16-bit value at i. */
  function Count(buf: seq<byte>, i: nat): nat
    requires i + 1 < |buf|
  {
    DecodeTwoOctets(buf[i], buf[i + 1])
  }

  /** RCODE: the low nibble of the fourth octet. */
  function RCode(buf: seq<byte>): (rcode: nat)
    requires |buf| >= 4
    ensures rcode < 16
  {
    buf[3] as nat % 16
  }

  /** Where the answer section starts: after the echoed name and its QTYPE and QCLASS. */
  function QuestionEnd(buf: seq<byte>, fuel: nat): Result<nat, DecodeError>
  {
    var question :- DecodeName(buf, HeaderSize, "", fuel);
    if question.1 + 4 > |buf| then Failure(Truncated) else Success(question.1 + 4)
  }

  /**
   * The answers start four octets (QTYPE and QCLASS) past the echoed name,
   * so past the header and within the buffer; the question is unreadable
   * exactly when the name is, or when those four octets are missing.
   */
  lemma QuestionEndBounds(buf: seq<byte>, fuel: nat)
    ensures var name := DecodeName(buf, HeaderSize, "", fuel);
            QuestionEnd(buf, fuel).Success? <==> name.Success? && name.value.1 + 4 <= |buf|
    ensures var name := DecodeName(buf, HeaderSize, "", fuel);
            QuestionEnd(buf, fuel).Success? ==>
              QuestionEnd(buf, fuel).value == name.value.1 + 4 && HeaderSize + 5 <= QuestionEnd(buf, fuel).value <= |buf|
  {
  }

  const HeaderSize: nat := 12

  /** The size of the array buildAndSendQuery receives the reply into. */
  const ReceiveCapacity: nat := 1024

  /**
   * The array decodeAndCacheResponse reads: a fresh zero-filled 1024-octet
   * array with the datagram received into its start, cut to 1024 octets
   * when longer. Octets past the end of a shorter datagram read as zeros.
   */
  function ReceiveBuffer(datagram: seq<byte>): (buf: seq<byte>)
    ensures |buf| == ReceiveCapacity
    ensures forall i :: 0 <= i < ReceiveCapacity ==> buf[i] == if i < |datagram| then datagram[i] else 0
  {
    if |datagram| >= ReceiveCapacity then datagram[..ReceiveCapacity]
    else datagram + Zeros(ReceiveCapacity - |datagram|)
  }

  /**
   * decodeAndCacheResponse(transactionID, buf, cache), where buf is the
   * receive array (ReceiveBuffer of the datagram): every record read is
   * added to the cache in order, including those read before a failure.
   */
  function DecodeResponse(transactionId: nat, buf: seq<byte>, c: Cache, fuel: nat, isAddress: string -> bool): (d: Decoded)
    ensures d.outcome.Mismatch? <==> |buf| >= 2 && DecodeTwoOctets(buf[0], buf[1]) != transactionId
    ensures d.outcome.ErrorCode? <==>
              |buf| >= 4 && DecodeTwoOctets(buf[0], buf[1]) == transactionId && 1 <= RCode(buf) <= 5
    ensures d.outcome.ErrorCode? ==> d.outcome.rcode == RCode(buf)
    ensures d.outcome.Mismatch? || d.outcome.ErrorCode? ==> d.cache == c
    ensures d.outcome.Answers? ==>
              |buf| >= HeaderSize && QuestionEnd(buf, fuel).Success? &&
              d.outcome.records == ParseRecords(RecordReader(buf, fuel, isAddress), QuestionEnd(buf, fuel).value, Count(buf, 6) + Count(buf, 8) + Count(buf, 10)).records &&
              |d.outcome.records| == Count(buf, 6) + Count(buf, 8) + Count(buf, 10) &&
              d.cache == AddAll(c, d.outcome.records)
    ensures d.outcome.Malformed? ==> d.cache == AddAll(c, d.outcome.partial)
  {
    if |buf| < 2 then Decoded(Malformed([], Truncated), c)
    else if DecodeTwoOctets(buf[0], buf[1]) != transactionId then Decoded(Mismatch, c)
    else if |buf| < 4 then Decoded(Malformed([], Truncated), c)
    else if 1 <= RCode(buf) <= 5 then Decoded(ErrorCode(RCode(buf)), c)
    else if |buf| < HeaderSize then Decoded(Malformed([], Truncated), c)
    else
      match QuestionEnd(buf, fuel)
      case Failure(e) => Decoded(Malformed([], e), c)
      case Success(start) =>
        DecodeSections(RecordReader(buf, fuel, isAddress), start, Count(buf, 6), Count(buf, 8), Count(buf, 10), c)
  }

  /** The three section loops from start, every record read cached, and a failure escaping after them. */
  function DecodeSections(read: Reader, start: nat, an: nat, ns: nat, ar: nat, c: Cache): (d: Decoded)
    ensures d.outcome.Answers? || d.outcome.Malformed?
    ensures d.outcome.Answers? ==>
              d.outcome.records == ParseRecords(read, start, an + ns + ar).records &&
              |d.outcome.records| == an + ns + ar && d.cache == AddAll(c, d.outcome.records)
    ensures d.outcome.Malformed? ==> d.cache == AddAll(c, d.outcome.partial)
  {
    SectionsAreOneRun(read, start, an, ns, ar);
    var sections := Sections(read, start, an, ns, ar);
    match sections.error
    case Some(e) => Decoded(Malformed(sections.records, e), AddAll(c, sections.records))
    case None => Decoded(Answers(sections.records), AddAll(c, sections.records))
  }

  /** Past the header checks and the question, a reply decodes as its three sections. */
  lemma DecodesSections(id: nat, buf: seq<byte>, c: Cache, fuel: nat, isAddress: string -> bool, start: nat)
    requires |buf| >= HeaderSize && DecodeTwoOctets(buf[0], buf[1]) == id && !(1 <= RCode(buf) <= 5)
    requires QuestionEnd(buf, fuel) == Success(start)
    ensures DecodeResponse(id, buf, c, fuel, isAddress)
         == DecodeSections(RecordReader(buf, fuel, isAddress), start, Count(buf, 6), Count(buf, 8), Count(buf, 10), c)
  {
  }

  /**
   * The three loops decode as one run over the summed counts: the records
   * read before the first failure are cached, and that failure escapes with
   * them; without a failure, all of them are the answer.
   */
  lemma SectionsDecodeAsOneRun(read: Reader, start: nat, an: nat, ns: nat, ar: nat, c: Cache, d: Decoded)
    requires d == DecodeSections(read, start, an, ns, ar, c)
    ensures var run := ParseRecords(read, start, an + ns + ar);
            && d.cache == AddAll(c, run.records)
            && (run.error.Some? ==> d.outcome == Malformed(run.records, run.error.value))
            && (run.error.None? ==> d.outcome == Answers(run.records))
  {
    SectionsAreOneRun(read, start, an, ns, ar);
  }

  /**
   * A reply with a matching ID, no error RCODE and a readable question
   * decodes as one run of records from the end of the question: a malformed
   * one carries, and caches, exactly the records read before its error.
   */
  lemma DecodesAsOneRun(id: nat, buf: seq<byte>, c: Cache, fuel: nat, isAddress: string -> bool, start: nat, run: Parsed)
    requires |buf| >= HeaderSize && DecodeTwoOctets(buf[0], buf[1]) == id && !(1 <= RCode(buf) <= 5)
    requires QuestionEnd(buf, fuel) == Success(start)
    requires run == ParseRecords(RecordReader(buf, fuel, isAddress), start, Count(buf, 6) + Count(buf, 8) + Count(buf, 10))
    ensures DecodeResponse(id, buf, c, fuel, isAddress).cache == AddAll(c, run.records)
    ensures run.error.Some? ==> DecodeResponse(id, buf, c, fuel, isAddress).outcome == Malformed(run.records, run.error.value)
    ensures run.error.None? ==> DecodeResponse(id, buf, c, fuel, isAddress).outcome == Answers(run.records)
  {
    DecodesSections(id, buf, c, fuel, isAddress, start);
    SectionsDecodeAsOneRun(RecordReader(buf, fuel, isAddress), start, Count(buf, 6), Count(buf, 8), Count(buf, 10), c,
                           DecodeResponse(id, buf, c, fuel, isAddress));
  }

  /**
   * A reply that fails before its records, in the header or the question,
   * is malformed with no records and leaves the cache untouched; a header
   * cut off by the end of the buffer fails as Truncated.
   */
  lemma MalformedBeforeRecords(id: nat, buf: seq<byte>, c: Cache, fuel: nat, isAddress: string -> bool)
    ensures var d := DecodeResponse(id, buf, c, fuel, isAddress);
            |buf| < HeaderSize && d.outcome.Malformed? ==> d == Decoded(Malformed([], Truncated), c)
    ensures var d := DecodeResponse(id, buf, c, fuel, isAddress);
            |buf| >= HeaderSize && DecodeTwoOctets(buf[0], buf[1]) == id && !(1 <= RCode(buf) <= 5) && QuestionEnd(buf, fuel).Failure? ==>
              d == Decoded(Malformed([], QuestionEnd(buf, fuel).error), c)
  {
  }
}
