/**
 * The replies a name server writes (RFC 1035 sections 4.1.1 to 4.1.3), used
 * as the independent side of the decoder's round trips: a record or a whole
 * reply written here is read back by ParseRecord and DecodeResponse as the
 * records it describes.
 */
module ResponseEncoding {
  import opened Wrappers
  import opened Octets
  import opened Text
  import opened Records
  import opened DomainName
  import opened Cache
  import opened Response

  /** What a record's RDATA holds, by the way the decoder reads it. */
  datatype RDataSpec =
    | IPv4(octets: seq<byte>)
    | IPv6(octets: seq<byte>)
    | Exchange(preference: nat, exchange: seq<string>)
    | Host(typeCode: nat, target: seq<string>)

  datatype RecordSpec = RecordSpec(owner: seq<string>, ttl: int, data: RDataSpec)

  predicate ValidName(labels: seq<string>)
  {
    |labels| >= 1 && ValidLabels(labels) && |EncodeLabels(labels)| < 0x1000
  }

  predicate ValidData(d: RDataSpec)
  {
    match d
    case IPv4(o) => 0 < |o| < 0x1000
    case IPv6(o) => 2 <= |o| < 0x1000 && |o| % 2 == 0
    case Exchange(pref, x) => pref < TwoTo16 && ValidName(x)
    case Host(t, x) => t < TwoTo16 && t !in {TypeCodeA, TypeCodeAAAA, TypeCodeMX} && ValidName(x)
  }

  predicate ValidRecord(r: RecordSpec)
  {
    ValidName(r.owner) && -(TwoTo31 as int) <= r.ttl < TwoTo31 && ValidData(r.data)
  }

  function TypeCodeOf(d: RDataSpec): nat
  {
    match d
    case IPv4(_) => TypeCodeA
    case IPv6(_) => TypeCodeAAAA
    case Exchange(_, _) => TypeCodeMX
    case Host(t, _) => t
  }

  function RDataBytes(d: RDataSpec): (bs: seq<byte>)
    requires ValidData(d)
    ensures |bs| < TwoTo16
  {
    match d
    case IPv4(o) => o
    case IPv6(o) => o
    case Exchange(pref, x) => EncodeTwoOctets(pref) + QName(x)
    case Host(_, x) => QName(x)
  }

  /** NAME, TYPE, CLASS IN, TTL, RDLENGTH and RDATA. */
  function EncodeRecord(r: RecordSpec): seq<byte>
    requires ValidRecord(r)
  {
    var rdata := RDataBytes(r.data);
    QName(r.owner) + RecordFields(TypeCodeOf(r.data), r.ttl, |rdata|) + rdata
  }

  /** The ten octets between a record's name and its RDATA. */
  function RecordFields(typeCode: nat, ttl: int, rdLength: nat): (bs: seq<byte>)
    requires typeCode < TwoTo16 && rdLength < TwoTo16 && -(TwoTo31 as int) <= ttl < TwoTo31
    ensures |bs| == 10
  {
    EncodeTwoOctets(typeCode) + [0, 1] + EncodeTTL(ttl) + EncodeTwoOctets(rdLength)
  }

  /** The text the decoder builds from the RDATA. */
  function DataText(d: RDataSpec): string
    requires ValidData(d)
  {
    match d
    case IPv4(o) => DottedDecimal(o)
    case IPv6(o) => ColonHex(o)
    case Exchange(_, x) => Join(x, '.')
    case Host(_, x) => Join(x, '.')
  }

  /** The record a spec describes, as the decoder builds it. */
  function Expected(r: RecordSpec, isAddress: string -> bool): Record
    requires ValidRecord(r)
  {
    var code := TypeCodeOf(r.data);
    Record(Node(Join(r.owner, '.'), TypeFromCode(code)), r.ttl, ValueOf(code, DataText(r.data), isAddress))
  }

  /** The fixed fields read back as written. */
  lemma RecordFieldsRead(buf: seq<byte>, p: nat, typeCode: nat, ttl: int, rdLength: nat)
    requires typeCode < TwoTo16 && rdLength < TwoTo16 && -(TwoTo31 as int) <= ttl < TwoTo31
    requires At(buf, p, RecordFields(typeCode, ttl, rdLength))
    ensures p + 10 <= |buf|
    ensures DecodeTwoOctets(buf[p], buf[p + 1]) == typeCode
    ensures DecodeTTL(buf[p + 4], buf[p + 5], buf[p + 6], buf[p + 7]) == ttl
    ensures DecodeTwoOctets(buf[p + 8], buf[p + 9]) == rdLength
  {
    var f := RecordFields(typeCode, ttl, rdLength);
    assert buf[p..p + 10] == f;
    var t, l, e := EncodeTwoOctets(typeCode), EncodeTwoOctets(rdLength), EncodeTTL(ttl);
    assert buf[p] == f[0] == t[0] && buf[p + 1] == f[1] == t[1];
    assert buf[p + 8] == f[8] == l[0] && buf[p + 9] == f[9] == l[1];
    assert buf[p + 4] == e[0] && buf[p + 5] == e[1] && buf[p + 6] == e[2] && buf[p + 7] == e[3];
    TwoOctetsRoundTrip(typeCode);
    TwoOctetsRoundTrip(rdLength);
    TTLRoundTrip(ttl);
  }

  /** The RDATA reads back as the text the spec describes, with the cursor at its end. */
  lemma RDataRead(buf: seq<byte>, p: nat, d: RDataSpec, end: nat, fuel: nat)
    requires ValidData(d)
    requires At(buf, p, RDataBytes(d)) && end == p + |RDataBytes(d)|
    ensures RData(buf, p, TypeCodeOf(d), |RDataBytes(d)|, fuel) == Success((DataText(d), end))
  {
    match d
    case IPv4(o) =>
      DottedRead(buf, p, o, fuel);
    case IPv6(o) =>
      ColonHexRead(buf, p, o, fuel);
    case Exchange(pref, x) =>
      ExchangeRead(buf, p, pref, x, end, fuel);
    case Host(t, x) =>
      HostRead(buf, p, t, x, end, fuel);
  }

  /** Written MX data reads back as the exchange's dotted name, past the preference. */
  lemma ExchangeRead(buf: seq<byte>, p: nat, pref: nat, x: seq<string>, end: nat, fuel: nat)
    requires pref < TwoTo16 && ValidName(x)
    requires At(buf, p, EncodeTwoOctets(pref) + QName(x)) && end == p + 2 + |QName(x)|
    ensures RData(buf, p, TypeCodeMX, 2 + |QName(x)|, fuel) == Success((Join(x, '.'), end))
  {
    AtSplitAt(buf, p, EncodeTwoOctets(pref), QName(x), p + 2);
    DecodeEncodedName(buf, p + 2, x, end, fuel);
  }

  /** Written name-valued data reads back as the target's dotted name. */
  lemma HostRead(buf: seq<byte>, p: nat, t: nat, x: seq<string>, end: nat, fuel: nat)
    requires t !in {TypeCodeA, TypeCodeAAAA, TypeCodeMX} && ValidName(x)
    requires At(buf, p, QName(x)) && end == p + |QName(x)|
    ensures RData(buf, p, t, |QName(x)|, fuel) == Success((Join(x, '.'), end))
  {
    DecodeEncodedName(buf, p, x, end, fuel);
  }

  /** Written A data reads back as its dotted-decimal text. */
  lemma DottedRead(buf: seq<byte>, p: nat, o: seq<byte>, fuel: nat)
    requires 0 < |o| && At(buf, p, o)
    ensures RData(buf, p, TypeCodeA, |o|, fuel) == Success((DottedDecimal(o), p + |o|))
  {
    assert buf[p..p + |o|] == o;
  }

  /** Written AAAA data of an even length reads back as its colon-hex text. */
  lemma ColonHexRead(buf: seq<byte>, p: nat, o: seq<byte>, fuel: nat)
    requires 2 <= |o| && |o| % 2 == 0 && At(buf, p, o)
    ensures RData(buf, p, TypeCodeAAAA, |o|, fuel) == Success((ColonHex(o), p + |o|))
  {
    assert |o| / 2 * 2 == |o|;
    assert buf[p..p + |o|] == o;
  }

  /** A record written from a spec parses back as the record the spec describes, with the cursor after it. */
  lemma RecordRoundTrip(buf: seq<byte>, pos: nat, r: RecordSpec, end: nat, fuel: nat, isAddress: string -> bool)
    requires ValidRecord(r)
    requires At(buf, pos, EncodeRecord(r)) && end == pos + |EncodeRecord(r)|
    ensures ParseRecord(buf, pos, fuel, isAddress) == Success((Expected(r, isAddress), end))
  {
    var p := pos + |QName(r.owner)|;
    OwnerRead(buf, pos, r, p, end, fuel);
    FieldsRead(buf, pos, r, p, end);
    PayloadRead(buf, pos, r, p, end, fuel);
    ParseRecordOfParts(buf, pos, fuel, isAddress, Join(r.owner, '.'), p, TypeCodeOf(r.data), r.ttl, |RDataBytes(r.data)|, DataText(r.data), end);
  }

  /** The owner name of a written record reads back, up to its fixed fields. */
  lemma OwnerRead(buf: seq<byte>, pos: nat, r: RecordSpec, p: nat, end: nat, fuel: nat)
    requires ValidRecord(r)
    requires At(buf, pos, EncodeRecord(r)) && p == pos + |QName(r.owner)| && end == pos + |EncodeRecord(r)|
    ensures DecodeName(buf, pos, "", fuel) == Success((Join(r.owner, '.'), p))
  {
    RecordLayout(buf, pos, r, p, end);
    DecodeEncodedName(buf, pos, r.owner, p, fuel);
  }

  /** The fixed fields of a written record read back. */
  lemma FieldsRead(buf: seq<byte>, pos: nat, r: RecordSpec, p: nat, end: nat)
    requires ValidRecord(r)
    requires At(buf, pos, EncodeRecord(r)) && p == pos + |QName(r.owner)| && end == pos + |EncodeRecord(r)|
    ensures p + 10 <= |buf| && DecodeTwoOctets(buf[p], buf[p + 1]) == TypeCodeOf(r.data)
    ensures DecodeTTL(buf[p + 4], buf[p + 5], buf[p + 6], buf[p + 7]) == r.ttl
    ensures DecodeTwoOctets(buf[p + 8], buf[p + 9]) == |RDataBytes(r.data)|
  {
    RecordLayout(buf, pos, r, p, end);
    RecordFieldsRead(buf, p, TypeCodeOf(r.data), r.ttl, |RDataBytes(r.data)|);
  }

  /** The RDATA of a written record reads back, up to the record's end. */
  lemma PayloadRead(buf: seq<byte>, pos: nat, r: RecordSpec, p: nat, end: nat, fuel: nat)
    requires ValidRecord(r)
    requires At(buf, pos, EncodeRecord(r)) && p == pos + |QName(r.owner)| && end == pos + |EncodeRecord(r)|
    ensures RData(buf, p + 10, TypeCodeOf(r.data), |RDataBytes(r.data)|, fuel) == Success((DataText(r.data), end))
  {
    RecordLayout(buf, pos, r, p, end);
    RDataRead(buf, p + 10, r.data, end, fuel);
  }

  /** A written record is its owner name, then its fixed fields, then its RDATA. */
  lemma RecordLayout(buf: seq<byte>, pos: nat, r: RecordSpec, p: nat, end: nat)
    requires ValidRecord(r)
    requires At(buf, pos, EncodeRecord(r)) && p == pos + |QName(r.owner)| && end == pos + |EncodeRecord(r)|
    ensures At(buf, pos, QName(r.owner)) && At(buf, p, RecordFields(TypeCodeOf(r.data), r.ttl, |RDataBytes(r.data)|))
    ensures At(buf, p + 10, RDataBytes(r.data)) && end == p + 10 + |RDataBytes(r.data)|
  {
    var rdata := RDataBytes(r.data);
    var fields := RecordFields(TypeCodeOf(r.data), r.ttl, |rdata|);
    assert EncodeRecord(r) == QName(r.owner) + (fields + rdata);
    AtSplitAt(buf, pos, QName(r.owner), fields + rdata, p);
    AtSplitAt(buf, p, fields, rdata, p + 10);
  }

  /** A record whose name, fixed fields and RDATA each read back parses as the record they make up. */
  lemma ParseRecordOfParts(buf: seq<byte>, pos: nat, fuel: nat, isAddress: string -> bool,
                           host: string, p: nat, typeCode: nat, ttl: int, rdLength: nat, text: string, end: nat)
    requires DecodeName(buf, pos, "", fuel) == Success((host, p)) && p + 10 <= |buf|
    requires DecodeTwoOctets(buf[p], buf[p + 1]) == typeCode
    requires DecodeTTL(buf[p + 4], buf[p + 5], buf[p + 6], buf[p + 7]) == ttl
    requires DecodeTwoOctets(buf[p + 8], buf[p + 9]) == rdLength
    requires RData(buf, p + 10, typeCode, rdLength, fuel) == Success((text, end))
    ensures ParseRecord(buf, pos, fuel, isAddress) ==
              Success((Record(Node(host, TypeFromCode(typeCode)), ttl, ValueOf(typeCode, text, isAddress)), end))
  {
    FieldsOfParts(buf, fuel, isAddress, host, p, typeCode, ttl, rdLength, text, end);
  }

  /** The fixed fields and RDATA after a name, each read back, make up the record. */
  lemma FieldsOfParts(buf: seq<byte>, fuel: nat, isAddress: string -> bool,
                      host: string, p: nat, typeCode: nat, ttl: int, rdLength: nat, text: string, end: nat)
    requires p + 10 <= |buf|
    requires DecodeTwoOctets(buf[p], buf[p + 1]) == typeCode
    requires DecodeTTL(buf[p + 4], buf[p + 5], buf[p + 6], buf[p + 7]) == ttl
    requires DecodeTwoOctets(buf[p + 8], buf[p + 9]) == rdLength
    requires RData(buf, p + 10, typeCode, rdLength, fuel) == Success((text, end))
    ensures ParseAfterName(buf, host, p, fuel, isAddress) ==
              Success((Record(Node(host, TypeFromCode(typeCode)), ttl, ValueOf(typeCode, text, isAddress)), end))
  {
  }

  // ----- several records -----

  /** Chunks of octets written one after the other. */
  function Flatten(chunks: seq<seq<byte>>): seq<byte>
  {
    if |chunks| == 0 then [] else chunks[0] + Flatten(chunks[1..])
  }

  /** Each record written on its own. */
  function RecordChunks(rs: seq<RecordSpec>): (chunks: seq<seq<byte>>)
    requires forall i :: 0 <= i < |rs| ==> ValidRecord(rs[i])
    ensures |chunks| == |rs|
  {
    seq(|rs|, i requires 0 <= i < |rs| => EncodeRecord(rs[i]))
  }

  function EncodeRecords(rs: seq<RecordSpec>): seq<byte>
    requires forall i :: 0 <= i < |rs| ==> ValidRecord(rs[i])
  {
    Flatten(RecordChunks(rs))
  }

  function ExpectedAll(rs: seq<RecordSpec>, isAddress: string -> bool): (out: seq<Record>)
    requires forall i :: 0 <= i < |rs| ==> ValidRecord(rs[i])
    ensures |out| == |rs|
  {
    seq(|rs|, i requires 0 <= i < |rs| => Expected(rs[i], isAddress))
  }

  /** Records written one after the other are read back in order, with the cursor after the last. */
  lemma RecordsRoundTrip(buf: seq<byte>, pos: nat, rs: seq<RecordSpec>, end: nat, fuel: nat, isAddress: string -> bool)
    requires forall i :: 0 <= i < |rs| ==> ValidRecord(rs[i])
    requires At(buf, pos, EncodeRecords(rs)) && end == pos + |EncodeRecords(rs)|
    ensures ParseRecords(RecordReader(buf, fuel, isAddress), pos, |rs|) == Parsed(ExpectedAll(rs, isAddress), end, None)
  {
    EachChunkReadsBack(buf, rs, fuel, isAddress);
    ReadsSpecs(RecordReader(buf, fuel, isAddress), buf, pos, rs, end, isAddress);
  }

  /** RecordsRoundTrip for any reader that reads each record's chunk back as that record. */
  lemma ReadsSpecs(read: Reader, buf: seq<byte>, pos: nat, rs: seq<RecordSpec>, end: nat, isAddress: string -> bool)
    requires forall i :: 0 <= i < |rs| ==> ValidRecord(rs[i])
    requires At(buf, pos, Flatten(RecordChunks(rs))) && end == pos + |Flatten(RecordChunks(rs))|
    requires ChunksReadBack(read, buf, RecordChunks(rs), ExpectedAll(rs, isAddress))
    ensures ParseRecords(read, pos, |rs|) == Parsed(ExpectedAll(rs, isAddress), end, None)
  {
    var chunks, recs := RecordChunks(rs), ExpectedAll(rs, isAddress);
    assert |chunks| == |recs|;
    ReadsChunks(read, buf, pos, chunks, recs, end);
  }

  /** Each record's chunk reads back as that record, wherever it sits. */
  lemma EachChunkReadsBack(buf: seq<byte>, rs: seq<RecordSpec>, fuel: nat, isAddress: string -> bool)
    requires forall i :: 0 <= i < |rs| ==> ValidRecord(rs[i])
    ensures ChunksReadBack(RecordReader(buf, fuel, isAddress), buf, RecordChunks(rs), ExpectedAll(rs, isAddress))
  {
    forall i, p: nat {:trigger At(buf, p, RecordChunks(rs)[i])} | 0 <= i < |rs| && At(buf, p, RecordChunks(rs)[i])
      ensures RecordReader(buf, fuel, isAddress)(p) == Success((ExpectedAll(rs, isAddress)[i], p + |RecordChunks(rs)[i]|))
    {
      ChunkReadsBack(buf, p, rs, i, fuel, isAddress);
      ReaderApplies(buf, p, fuel, isAddress);
    }
  }

  lemma ReaderApplies(buf: seq<byte>, p: nat, fuel: nat, isAddress: string -> bool)
    ensures RecordReader(buf, fuel, isAddress)(p) == ParseRecord(buf, p, fuel, isAddress)
  {
  }

  /** RecordRoundTrip for the i-th record, through the reader the section loops use. */
  lemma ChunkReadsBack(buf: seq<byte>, p: nat, rs: seq<RecordSpec>, i: nat, fuel: nat, isAddress: string -> bool)
    requires forall i :: 0 <= i < |rs| ==> ValidRecord(rs[i])
    requires i < |rs| && At(buf, p, RecordChunks(rs)[i])
    ensures ParseRecord(buf, p, fuel, isAddress) == Success((ExpectedAll(rs, isAddress)[i], p + |RecordChunks(rs)[i]|))
  {
    var r := rs[i];
    assert ValidRecord(r);
    var chunk, rec := RecordChunks(rs)[i], ExpectedAll(rs, isAddress)[i];
    assert chunk == EncodeRecord(r) && rec == Expected(r, isAddress);
    RecordRoundTrip(buf, p, r, p + |chunk|, fuel, isAddress);
  }

  /** The reader reads each chunk back as its record, wherever the chunk sits in buf. */
  ghost predicate ChunksReadBack(read: Reader, buf: seq<byte>, chunks: seq<seq<byte>>, recs: seq<Record>)
    requires |chunks| == |recs|
  {
    forall i, p: nat {:trigger At(buf, p, chunks[i])} ::
      0 <= i < |chunks| && At(buf, p, chunks[i]) ==> read(p) == Success((recs[i], p + |chunks[i]|))
  }

  /**
   * A reader that reads each chunk back as its record, wherever the chunk
   * sits, reads the chunks written one after the other as the records in
   * order, with the cursor after the last.
   */
  lemma {:induction false} ReadsChunks(read: Reader, buf: seq<byte>, pos: nat, chunks: seq<seq<byte>>, recs: seq<Record>, end: nat)
    requires |chunks| == |recs|
    requires At(buf, pos, Flatten(chunks)) && end == pos + |Flatten(chunks)|
    requires ChunksReadBack(read, buf, chunks, recs)
    ensures ParseRecords(read, pos, |chunks|) == Parsed(recs, end, None)
    decreases |chunks|
  {
    if |chunks| > 0 {
      var mid := pos + |chunks[0]|;
      AtSplit(buf, pos, chunks[0], Flatten(chunks[1..]));
      ReadsChunks(read, buf, mid, chunks[1..], recs[1..], end);
      assert read(pos) == Success((recs[0], mid));
      ReadOneThenRest(read, pos, |chunks|, recs[0], mid, recs[1..], end);
      assert [recs[0]] + recs[1..] == recs;
    }
  }

  /** One record read at pos, then the rest read from where it ended. */
  lemma ReadOneThenRest(read: Reader, pos: nat, count: nat, rec: Record, mid: nat, rest: seq<Record>, end: nat)
    requires count > 0 && read(pos) == Success((rec, mid))
    requires ParseRecords(read, mid, count - 1) == Parsed(rest, end, None)
    ensures ParseRecords(read, pos, count) == Parsed([rec] + rest, end, None)
  {
  }

  /**
   * Every type other than A, AAAA and MX reads one name from the start of
   * RDATA and leaves the cursor after it, whatever RDLENGTH says: the rest
   * of an SOA's RDATA, for one, is not skipped.
   */
  lemma NameRDataIgnoresLength(buf: seq<byte>, p: nat, typeCode: nat, rdLength: nat, target: seq<string>, fuel: nat)
    requires typeCode !in {TypeCodeA, TypeCodeAAAA, TypeCodeMX}
    requires |target| >= 1 && ValidLabels(target) && At(buf, p, QName(target))
    ensures RData(buf, p, typeCode, rdLength, fuel) == Success((Join(target, '.'), p + |QName(target)|))
  {
    DecodeEncodedName(buf, p, target, p + |QName(target)|, fuel);
  }

  // ----- whole replies -----

  /** ID, flags 0x8180 (a response with RD and RA set and RCODE 0), QDCOUNT 1 and the three record counts. */
  function ResponseHeader(id: nat, an: nat, ns: nat, ar: nat): (h: seq<byte>)
    requires id < TwoTo16 && an < TwoTo16 && ns < TwoTo16 && ar < TwoTo16
    ensures |h| == HeaderSize
  {
    EncodeTwoOctets(id) + [0x81, 0x80, 0, 1] + EncodeTwoOctets(an) + EncodeTwoOctets(ns) + EncodeTwoOctets(ar)
  }

  predicate ValidRecords(rs: seq<RecordSpec>)
  {
    |rs| < TwoTo16 && forall i :: 0 <= i < |rs| ==> ValidRecord(rs[i])
  }

  /** A reply: header, the echoed question, then the answer, authority and additional records. */
  function EncodeResponse(id: nat, question: seq<string>, qtype: nat, an: seq<RecordSpec>, ns: seq<RecordSpec>, ar: seq<RecordSpec>): seq<byte>
    requires id < TwoTo16 && ValidName(question) && qtype < TwoTo16
    requires ValidRecords(an) && ValidRecords(ns) && ValidRecords(ar)
  {
    ResponseHeader(id, |an|, |ns|, |ar|) + (EchoedQuestion(question, qtype) + EncodeRecords(an + ns + ar))
  }

  /** The question section a server echoes: QNAME, QTYPE and class IN. */
  function EchoedQuestion(question: seq<string>, qtype: nat): seq<byte>
    requires ValidName(question) && qtype < TwoTo16
  {
    QName(question) + EncodeTwoOctets(qtype) + [0, 1]
  }

  /** The header fields of a written reply read back as written. */
  lemma ResponseHeaderRead(buf: seq<byte>, id: nat, an: nat, ns: nat, ar: nat)
    requires id < TwoTo16 && an < TwoTo16 && ns < TwoTo16 && ar < TwoTo16
    requires At(buf, 0, ResponseHeader(id, an, ns, ar))
    ensures |buf| >= HeaderSize
    ensures DecodeTwoOctets(buf[0], buf[1]) == id && RCode(buf) == 0
    ensures Count(buf, 6) == an && Count(buf, 8) == ns && Count(buf, 10) == ar
  {
    var h := ResponseHeader(id, an, ns, ar);
    assert buf[..HeaderSize] == h;
    var i, a, n, r := EncodeTwoOctets(id), EncodeTwoOctets(an), EncodeTwoOctets(ns), EncodeTwoOctets(ar);
    assert buf[0] == i[0] && buf[1] == i[1] && buf[3] == 0x80;
    assert buf[6] == a[0] && buf[7] == a[1] && buf[8] == n[0] && buf[9] == n[1] && buf[10] == r[0] && buf[11] == r[1];
    TwoOctetsRoundTrip(id);
    TwoOctetsRoundTrip(an);
    TwoOctetsRoundTrip(ns);
    TwoOctetsRoundTrip(ar);
  }

  /**
   * Round trip for replies: decoding a written reply under its own ID skips
   * the question and yields every record of the three sections in order,
   * all of them added to the cache, whatever octets follow the reply.
   */
  lemma ResponseRoundTrip(id: nat, question: seq<string>, qtype: nat, an: seq<RecordSpec>, ns: seq<RecordSpec>, ar: seq<RecordSpec>,
                          pad: seq<byte>, c: Cache, fuel: nat, isAddress: string -> bool)
    requires id < TwoTo16 && ValidName(question) && qtype < TwoTo16
    requires ValidRecords(an) && ValidRecords(ns) && ValidRecords(ar)
    ensures var records := ExpectedAll(an + ns + ar, isAddress);
            DecodeResponse(id, EncodeResponse(id, question, qtype, an, ns, ar) + pad, c, fuel, isAddress) == Decoded(Answers(records), AddAll(c, records))
  {
    var all := an + ns + ar;
    assert forall i :: 0 <= i < |all| ==> ValidRecord(all[i]);
    var reply := EncodeResponse(id, question, qtype, an, ns, ar);
    var buf := reply + pad;
    var header := ResponseHeader(id, |an|, |ns|, |ar|);
    var q := EchoedQuestion(question, qtype);
    var body := EncodeRecords(all);
    AtSplit(buf, 0, reply, pad);
    AtSplit(buf, 0, header, q + body);
    AtSplit(buf, HeaderSize, q, body);
    ReplyReadsBack(id, buf, question, qtype, |an|, |ns|, |ar|, all, c, fuel, isAddress);
  }

  /**
   * A reply of at most 1024 octets, received into the zero-filled receive
   * array, decodes to every record it carries.
   */
  lemma ReceivedReplyRoundTrip(id: nat, question: seq<string>, qtype: nat, an: seq<RecordSpec>, ns: seq<RecordSpec>, ar: seq<RecordSpec>,
                               c: Cache, fuel: nat, isAddress: string -> bool)
    requires id < TwoTo16 && ValidName(question) && qtype < TwoTo16
    requires ValidRecords(an) && ValidRecords(ns) && ValidRecords(ar)
    requires |EncodeResponse(id, question, qtype, an, ns, ar)| <= ReceiveCapacity
    ensures var records := ExpectedAll(an + ns + ar, isAddress);
            DecodeResponse(id, ReceiveBuffer(EncodeResponse(id, question, qtype, an, ns, ar)), c, fuel, isAddress) == Decoded(Answers(records), AddAll(c, records))
  {
    var reply := EncodeResponse(id, question, qtype, an, ns, ar);
    var pad := Zeros(ReceiveCapacity - |reply|);
    assert ReceiveBuffer(reply) == reply + pad;
    ResponseRoundTrip(id, question, qtype, an, ns, ar, pad, c, fuel, isAddress);
  }

  /** A buffer laid out as header, echoed question and records, followed by anything, decodes to those records. */
  lemma ReplyReadsBack(id: nat, buf: seq<byte>, question: seq<string>, qtype: nat, an: nat, ns: nat, ar: nat,
                       all: seq<RecordSpec>, c: Cache, fuel: nat, isAddress: string -> bool)
    requires id < TwoTo16 && ValidName(question) && qtype < TwoTo16
    requires an < TwoTo16 && ns < TwoTo16 && ar < TwoTo16 && |all| == an + ns + ar
    requires forall i :: 0 <= i < |all| ==> ValidRecord(all[i])
    requires At(buf, 0, ResponseHeader(id, an, ns, ar))
    requires At(buf, HeaderSize, EchoedQuestion(question, qtype))
    requires At(buf, HeaderSize + |EchoedQuestion(question, qtype)|, EncodeRecords(all))
    ensures var records := ExpectedAll(all, isAddress);
            DecodeResponse(id, buf, c, fuel, isAddress) == Decoded(Answers(records), AddAll(c, records))
  {
    var start := HeaderSize + |EchoedQuestion(question, qtype)|;
    ResponseHeaderRead(buf, id, an, ns, ar);
    QuestionSkipped(buf, question, qtype, fuel);
    RecordsAfterQuestion(id, buf, c, fuel, isAddress, start, all, start + |EncodeRecords(all)|);
  }

  /** Records written where the question ends, under a matching header, are the decoded answers. */
  lemma RecordsAfterQuestion(id: nat, buf: seq<byte>, c: Cache, fuel: nat, isAddress: string -> bool,
                             start: nat, all: seq<RecordSpec>, end: nat)
    requires |buf| >= HeaderSize && DecodeTwoOctets(buf[0], buf[1]) == id && RCode(buf) == 0
    requires QuestionEnd(buf, fuel) == Success(start)
    requires |all| == Count(buf, 6) + Count(buf, 8) + Count(buf, 10)
    requires forall i :: 0 <= i < |all| ==> ValidRecord(all[i])
    requires At(buf, start, EncodeRecords(all)) && end == start + |EncodeRecords(all)|
    ensures var records := ExpectedAll(all, isAddress);
            DecodeResponse(id, buf, c, fuel, isAddress) == Decoded(Answers(records), AddAll(c, records))
  {
    RecordsRoundTrip(buf, start, all, end, fuel, isAddress);
    ReadsAnswers(id, buf, c, fuel, isAddress, start, |all|, ExpectedAll(all, isAddress), end);
  }

  /**
   * The converse of the decoder's success case: a reply with the expected ID,
   * no error RCODE, a readable question and a complete run of records is
   * decoded to exactly those records, all of them cached.
   */
  lemma ReadsAnswers(id: nat, buf: seq<byte>, c: Cache, fuel: nat, isAddress: string -> bool,
                     start: nat, total: nat, records: seq<Record>, next: nat)
    requires |buf| >= HeaderSize && DecodeTwoOctets(buf[0], buf[1]) == id && !(1 <= RCode(buf) <= 5)
    requires QuestionEnd(buf, fuel) == Success(start)
    requires total == Count(buf, 6) + Count(buf, 8) + Count(buf, 10)
    requires ParseRecords(RecordReader(buf, fuel, isAddress), start, total) == Parsed(records, next, None)
    ensures DecodeResponse(id, buf, c, fuel, isAddress) == Decoded(Answers(records), AddAll(c, records))
  {
    var reader := RecordReader(buf, fuel, isAddress);
    DecodesSections(id, buf, c, fuel, isAddress, start);
    SectionsRead(reader, start, Count(buf, 6), Count(buf, 8), Count(buf, 10), records, next, c);
  }

  /** A run over the summed counts that reads without error is what the three loops decode. */
  lemma SectionsRead(read: Reader, start: nat, an: nat, ns: nat, ar: nat, records: seq<Record>, next: nat, c: Cache)
    requires ParseRecords(read, start, an + ns + ar) == Parsed(records, next, None)
    ensures DecodeSections(read, start, an, ns, ar, c) == Decoded(Answers(records), AddAll(c, records))
  {
    SectionsAreOneRun(read, start, an, ns, ar);
  }

  /** The echoed question is read past: the answers start right after its QTYPE and QCLASS. */
  lemma QuestionSkipped(buf: seq<byte>, question: seq<string>, qtype: nat, fuel: nat)
    requires ValidName(question) && qtype < TwoTo16
    requires At(buf, HeaderSize, EchoedQuestion(question, qtype))
    ensures QuestionEnd(buf, fuel) == Success(HeaderSize + |QName(question)| + 4)
  {
    var name := QName(question);
    AtSplit(buf, HeaderSize, name, EncodeTwoOctets(qtype) + [0, 1]);
    DecodeEncodedName(buf, HeaderSize, question, HeaderSize + |name|, fuel);
  }
}
