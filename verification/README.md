# DNS resolver core, modelled in Dafny

This project models the core of a small iterative DNS resolver written in Java
(package `ca.ubc.cs317.dnslookup`). The resolver has two layers:

- **Wire codec** (`DNSQueryHandler`). It builds a query message: a 12-octet
  header and one question. It reads a reply: header checks, a skipped
  question, then the answer, authority and additional records, each of them
  added to the cache. Domain names are decoded with the source's own
  compression rules.
- **Resolution logic** (`DNSLookupService`). It serves lookups from the cache,
  follows CNAMEs up to an indirection bound, and asks the root server on a
  miss. It follows referrals either to a glue address or by first resolving
  the name server itself.

Everything is pure. Decoders pass a cursor and return `Result` values. The
resolver threads a state through its calls: the cache plus a log of the
queries sent. It asks a server oracle for replies.

| file | module | what it holds |
|---|---|---|
| `wrappers.dfy` | `Wrappers` | `Option` and `Result` |
| `octets.dfy` | `Octets` | octets, the 16-bit and signed 32-bit readers, trimming of zero padding |
| `text.dfy` | `Text` | splitting and joining on a separator, Java's `split`, decimal and hex numerals, ASCII octets |
| `records.dfy` | `Records` | record types, nodes (host and type), record values |
| `domain_name.dfy` | `DomainName` | `decodeDomainName`, a reference reader for label text, the QNAME encoder, round trips |
| `query.dfy` | `Query` | the query encoder of `buildAndSendQuery` and its round trip |
| `cache.dfy` | `Cache` | the record cache as a map from node to records |
| `response.dfy` | `Response` | `parseRecord` and `decodeAndCacheResponse` |
| `response_encoding.dfy` | `ResponseEncoding` | a reply writer used to state round trips for records and whole replies |
| `lookup_service.dfy` | `LookupService` | `getResults`, `parseCName`, `addToCache`, `retrieveResultsFromServer`, `queryNextLevel` |

Quirks of the source that the model keeps as written:

- **Pointer octets.** An octet is a pointer when it is 128..192 unsigned, i.e. at most -64 as a signed byte.
- **Pointer offset.** The offset is the following octet alone.
- **Octets 193..255.** They are read as a negative label length: they consume only themselves and append a `.`.
- **Byte to char.** The `(char)` cast sign-extends, so octets 128..255 become U+FF80..U+FFFF.
- **Transaction ID.** Both octets are masked with 0x7F.
- **Question buffer.** It has 70 octets; a longer question fails. In a lookup the `BufferOverflowException` is not caught. The query whose question overflows is not sent, and the lookup fails with `QuestionOverflow`. Queries that an enclosing lookup sent earlier, before a CNAME chase or a name-server lookup reached the long name, stay sent.
- **Empty addresses.** A and AAAA values with no octets to print fail, as `substring(0, -1)` does.
- **AAAA cursor.** The cursor advances by `2 * (RDLENGTH / 2)` octets.
- **MX.** Two octets are skipped before the name is read.
- **Other types.** They read one name and ignore RDLENGTH.
- **Question count.** Exactly one question is skipped, whatever QDCOUNT says.
- **Null replies.** An ID mismatch or an RCODE of 1..5 yields null, and the resolver reads null as the empty set.

Foreign code becomes parameters:

- The random value behind the ID is `rnd`.
- `InetAddress.getByName` is `isAddress`, which decides whether a decoded A or AAAA text becomes an address.
- The network is `Env.respond`.
- Recursion that the source does not bound takes a `fuel` argument.

## Model

Paths are relative to the repository root.

| member | source | states |
|---|---|---|
| Octets.DecodeTwoOctets | src/ca/ubc/cs317/dnslookup/DNSQueryHandler.java:63-65 | the result is an unsigned 16-bit value (below 65536) |
| Octets.TwoOctetsDigits | src/ca/ubc/cs317/dnslookup/DNSQueryHandler.java:63-65 | the decoded value's high octet is the first octet and its low octet the second |
| Octets.TwoOctetsInverse | src/ca/ubc/cs317/dnslookup/DNSQueryHandler.java:63-65 | re-encoding a decoded pair gives back the two octets |
| Octets.TwoOctetsRoundTrip | src/ca/ubc/cs317/dnslookup/DNSQueryHandler.java:63-65 | decoding the two octets of any 16-bit value gives the value |
| Octets.DecodeTTL | src/ca/ubc/cs317/dnslookup/DNSQueryHandler.java:68-71 | the result is a signed 32-bit value |
| Octets.TTLSigned | src/ca/ubc/cs317/dnslookup/DNSQueryHandler.java:68-71 | the decoded TTL is congruent to the big-endian unsigned reading modulo 2^32, and negative exactly when the first octet's top bit is set |
| Octets.TTLRoundTrip | src/ca/ubc/cs317/dnslookup/DNSQueryHandler.java:68-71 | every signed 32-bit TTL written big-endian reads back unchanged |
| Octets.RemoveTrailingZeroes | src/ca/ubc/cs317/dnslookup/DNSQueryHandler.java:49-60 | fails (the index runs below 0) exactly when every octet is zero; otherwise returns a non-empty prefix ending in a non-zero octet, after which only zeros were dropped |
| Octets.RemovePadding | src/ca/ubc/cs317/dnslookup/DNSQueryHandler.java:49-60 | content ending in a non-zero octet, padded with any number of zeros, is trimmed back to exactly the content |
| Query.QueryId | src/ca/ubc/cs317/dnslookup/DNSQueryHandler.java:91-92 | both ID octets are below 128 |
| Query.Header | src/ca/ubc/cs317/dnslookup/DNSQueryHandler.java:88-107 | the ID octets come first, then flags with only RD set, QDCOUNT 1 and zero ANCOUNT, NSCOUNT and ARCOUNT |
| Query.Question | src/ca/ubc/cs317/dnslookup/DNSQueryHandler.java:110-139 | the question is the QNAME, then QTYPE and QCLASS, four octets longer than the encoded labels plus their zero, ending in QCLASS's non-zero low octet |
| Query.EncodeQuery | src/ca/ubc/cs317/dnslookup/DNSQueryHandler.java:88-149 | succeeds exactly when the question fits its 70-octet buffer; the header is [id0, id1, 1, 0, 0, 1, 0, 0, 0, 0, 0, 0] with both ID octets at most 0x7F; the transaction ID is decodeTwoOctets(id0, id1); after the header come the host's QNAME and [0, type, 0, 1] |
| Query.Trimmed | src/ca/ubc/cs317/dnslookup/DNSQueryHandler.java:110-149 | padding a question to the buffer's capacity and trimming it gives back exactly the question |
| Query.EncodesExactlyWhenFits | src/ca/ubc/cs317/dnslookup/DNSQueryHandler.java:110-129 | for an ASCII host, the query is built exactly when each field of the host's split, as a length octet and its characters, plus the zero octet, QTYPE and QCLASS fit 70 octets |
| Query.QueryRoundTrip | src/ca/ubc/cs317/dnslookup/DNSQueryHandler.java:113-219 | for a host whose labels are non-empty 7-bit ASCII below 128 characters, the query is built exactly when the host has at most 64 characters; the name at offset 12 then decodes to the host, with the cursor on the first QTYPE octet |
| Query.HostLabelsOfValidHost | src/ca/ubc/cs317/dnslookup/DNSQueryHandler.java:113-129 | Java's split of such a host gives its fields, which join back to the host, and their encoding is one octet longer than the host |
| Text.JoinSplit | src/ca/ubc/cs317/dnslookup/DNSQueryHandler.java:114 | joining the fields of a split gives back the string |
| Text.SplitJoin | src/ca/ubc/cs317/dnslookup/DNSQueryHandler.java:114 | splitting joined separator-free fields gives back the fields |
| Text.JavaSplitOfNonEmptyFields | src/ca/ubc/cs317/dnslookup/DNSQueryHandler.java:114 | when no field is empty, Java's split (which drops trailing empty fields) agrees with the plain split |
| Text.JavaSplit | src/ca/ubc/cs317/dnslookup/DNSQueryHandler.java:114 | the empty string yields one empty field; otherwise the fields are a prefix of the plain split, every field dropped is empty, and the last field kept is not |
| Text.ByteToChar | src/ca/ubc/cs317/dnslookup/DNSQueryHandler.java:213 | the char keeps the octet as its low eight bits; octets below 128 are their own code, and 128..255 sign-extend to U+FF80..U+FFFF |
| Text.NumeralRoundTrip | src/ca/ubc/cs317/dnslookup/DNSQueryHandler.java:332-348 | the decimal and hex numerals of Integer.toString and toHexString read back as the number |
| Text.CharsOfAsciiBytes | src/ca/ubc/cs317/dnslookup/DNSQueryHandler.java:120-126 | 7-bit characters written as UTF-8 octets and cast back to char give the same text |
| DomainName.DecodeName | src/ca/ubc/cs317/dnslookup/DNSQueryHandler.java:190-221 | a decoded name leaves the cursor strictly after its start and within the buffer |
| DomainName.DecodeNameIsLabelText | src/ca/ubc/cs317/dnslookup/DNSQueryHandler.java:190-221 | the accumulating decoder equals an independent reader: the accumulated prefix, then the label text read directly, minus its last character |
| DomainName.PointerIsTransparent | src/ca/ubc/cs317/dnslookup/DNSQueryHandler.java:200-206 | a pointer decodes exactly when its target does, to the same name, with the cursor two octets past the pointer |
| DomainName.NegativeLengthAppendsDot | src/ca/ubc/cs317/dnslookup/DNSQueryHandler.java:208-218 | an octet above 192 consumes only itself and appends a '.' |
| DomainName.EncodedLength | src/ca/ubc/cs317/dnslookup/DNSQueryHandler.java:116-129 | the encoded labels are as long as the labels each followed by a dot |
| DomainName.DecodeEncodedName | src/ca/ubc/cs317/dnslookup/DNSQueryHandler.java:190-221 | a QNAME written from valid labels decodes to the labels joined by '.', with the cursor just past its zero octet |
| DomainName.DecodeCompressedName | src/ca/ubc/cs317/dnslookup/DNSQueryHandler.java:190-221 | labels followed by a 0xC0 pointer to a QNAME decode to all labels joined, with the cursor just past the pointer |
| Response.Decimals | src/ca/ubc/cs317/dnslookup/DNSQueryHandler.java:332-339 | one decimal numeral per octet, in order |
| Response.DottedDecimal | src/ca/ubc/cs317/dnslookup/DNSQueryHandler.java:332-339 | for at least one octet, the decimal numerals joined by '.' |
| Response.DottedDecimalRoundTrip | src/ca/ubc/cs317/dnslookup/DNSQueryHandler.java:332-339 | splitting an A value's text on '.' and reading the numerals gives back the octets |
| Response.ColonHex | src/ca/ubc/cs317/dnslookup/DNSQueryHandler.java:341-348 | for at least one group, the hex numerals of the 16-bit groups joined by ':' |
| Response.ColonHexRoundTrip | src/ca/ubc/cs317/dnslookup/DNSQueryHandler.java:341-348 | splitting an AAAA value's text on ':' and reading the hex numerals gives back the 16-bit groups |
| Response.RData | src/ca/ubc/cs317/dnslookup/DNSQueryHandler.java:329-359 | A succeeds exactly when RDLENGTH is positive and in the buffer, with its octets in dotted decimal; AAAA exactly when RDLENGTH is at least 2 and 2*(RDLENGTH/2) octets are there, with the cursor after them; MX is the name two octets in; every other type is the name at the start of RDATA |
| Response.AAAAText | src/ca/ubc/cs317/dnslookup/DNSQueryHandler.java:341-348 | a successful AAAA read is its 2*(RDLENGTH/2) octets printed as colon-separated hex groups, with the cursor after them |
| Response.ValueOf | src/ca/ubc/cs317/dnslookup/DNSQueryHandler.java:361-371 | the value is an address exactly for an A or AAAA text the address parser accepts; its text is always the decoded text |
| Response.ParseRecord | src/ca/ubc/cs317/dnslookup/DNSQueryHandler.java:318-373 | the cursor advances within the buffer; the record's host is the name decoded at the start and its TTL a signed 32-bit value; only A and AAAA records carry addresses |
| Response.ParseRecords | src/ca/ubc/cs317/dnslookup/DNSQueryHandler.java:287-312 | a run without error reads exactly count records; one with an error fewer; the first record is the first read |
| Response.SectionsAreOneRun | src/ca/ubc/cs317/dnslookup/DNSQueryHandler.java:287-312 | reading ANCOUNT, then NSCOUNT, then ARCOUNT records equals one run over their sum |
| Response.QuestionEndBounds | src/ca/ubc/cs317/dnslookup/DNSQueryHandler.java:277-281 | the answers start after the echoed name and four octets of QTYPE and QCLASS, past the header and within the buffer; the question is unreadable exactly when the name is or those octets are missing |
| Response.ReceiveBuffer | src/ca/ubc/cs317/dnslookup/DNSQueryHandler.java:157-183 | the array decoded is 1024 octets: the datagram's octets first, zeros after them |
| Response.DecodeResponse | src/ca/ubc/cs317/dnslookup/DNSQueryHandler.java:235-315 | null for a foreign ID (both directions) and for an RCODE of 1..5 (both directions), leaving the cache alone; otherwise the records read after one question, exactly ANCOUNT+NSCOUNT+ARCOUNT of them, all added to the cache; a malformed reply caches exactly the records it carries (which records those are: DecodesAsOneRun and MalformedBeforeRecords) |
| Response.DecodesAsOneRun | src/ca/ubc/cs317/dnslookup/DNSQueryHandler.java:277-312 | with a matching ID, no error RCODE and a readable question, the outcome is one run of records from the end of the question: the cache gains exactly the records read before the first failure; a failure makes the reply malformed with those records and that error, and without one they are the answer |
| Response.MalformedBeforeRecords | src/ca/ubc/cs317/dnslookup/DNSQueryHandler.java:235-281 | a reply cut off inside its header that is malformed (not a foreign ID or an error RCODE) carries no records and the Truncated error; a matching reply whose question cannot be read is malformed with no records and the question's read error; both leave the cache untouched |
| ResponseEncoding.RecordRoundTrip | src/ca/ubc/cs317/dnslookup/DNSQueryHandler.java:318-373 | a written A, AAAA, MX or name-valued record parses to its owner, type, TTL and printed value, with the cursor after its RDATA |
| ResponseEncoding.RecordsRoundTrip | src/ca/ubc/cs317/dnslookup/DNSQueryHandler.java:287-312 | written records are read back in order without error, with the cursor after the last |
| ResponseEncoding.NameRDataIgnoresLength | src/ca/ubc/cs317/dnslookup/DNSQueryHandler.java:350-358 | for every type but A, AAAA and MX the cursor stops after the name, whatever RDLENGTH says |
| ResponseEncoding.ResponseRoundTrip | src/ca/ubc/cs317/dnslookup/DNSQueryHandler.java:235-315 | a written reply, followed by any octets, decoded under its own ID yields every record of its three sections in order, and caches them all |
| ResponseEncoding.ReceivedReplyRoundTrip | src/ca/ubc/cs317/dnslookup/DNSQueryHandler.java:157-183 | a written reply of at most 1024 octets, received into the zero-filled array, decodes to every record of its three sections, all cached |
| ResponseEncoding.ReadsAnswers | src/ca/ubc/cs317/dnslookup/DNSQueryHandler.java:235-315 | a matching ID, no error RCODE, a readable question and an error-free run of records decode to exactly those records |
| Cache.Add | src/ca/ubc/cs317/dnslookup/DNSQueryHandler.java:290 | the record is stored under its own node; other nodes are untouched; the node's values gain exactly the record's value |
| Cache.AddAllValues | src/ca/ubc/cs317/dnslookup/DNSQueryHandler.java:287-312 | after a batch, a node's values are its old values plus the batch's values for that node |
| Cache.AddAllPreserves | src/ca/ubc/cs317/dnslookup/DNSQueryHandler.java:287-312 | adding a batch keeps records under their own nodes with distinct values, and loses no value |
| LookupService.AddToCache | src/ca/ubc/cs317/dnslookup/DNSLookupService.java:204-208 | the node gains exactly the values of its results re-keyed to the node (address kept, none otherwise); other nodes unchanged; nothing lost |
| LookupService.Rekey | src/ca/ubc/cs317/dnslookup/DNSLookupService.java:206 | the copy is filed under the original node with the result's TTL; an address is kept, and a record without one gets none |
| LookupService.Nameservers | src/ca/ubc/cs317/dnslookup/DNSLookupService.java:226 | a null reply is the empty set; otherwise the reply's records |
| LookupService.GetResults | src/ca/ubc/cs317/dnslookup/DNSLookupService.java:165-185 | beyond level 10 the result is empty and the state untouched; a cached node is answered from the cache with no query; up to level 10 the results are exactly what the cache holds for the node afterwards; queries are only appended, and the cache loses nothing and stays well formed |
| LookupService.ParseCName | src/ca/ubc/cs317/dnslookup/DNSLookupService.java:187-201 | the results are exactly what the cache holds for the node afterwards; the state only grows |
| LookupService.ChaseCNames | src/ca/ubc/cs317/dnslookup/DNSLookupService.java:193-198 | the state only grows |
| LookupService.Retrieve | src/ca/ubc/cs317/dnslookup/DNSLookupService.java:212-234 | a host whose question overflows its 70-octet buffer fails with the overflow; otherwise the next query logged is the one to this server about this node, every record of a non-null reply is in the cache afterwards, and the state only grows |
| LookupService.QueryNextLevel | src/ca/ubc/cs317/dnslookup/DNSLookupService.java:242-271 | the state only grows |
| LookupService.Settles | src/ca/ubc/cs317/dnslookup/DNSLookupService.java:246 | a record of the node itself, or any CNAME, settles the delegation (used by SettledReplyStops) |
| LookupService.IsGlue | src/ca/ubc/cs317/dnslookup/DNSLookupService.java:252 | an A record that carries an address (used by AsksFirstGlue) |
| LookupService.Unresolved | src/ca/ubc/cs317/dnslookup/DNSLookupService.java:259 | a record without an address (used by ResolvesFirstNameServer) |
| LookupService.ResultsBelongToNode | src/ca/ubc/cs317/dnslookup/DNSLookupService.java:165-201 | with a well-formed cache every result is a record of the node asked about |
| LookupService.MissAsksRoot | src/ca/ubc/cs317/dnslookup/DNSLookupService.java:175-184 | with neither the node nor a CNAME cached, the first query sent is to the root about the node |
| LookupService.LongHostFails | src/ca/ubc/cs317/dnslookup/DNSLookupService.java:218-234 | a cache miss on a host whose question overflows fails with the overflow before any query is sent |
| LookupService.NullReplyStops | src/ca/ubc/cs317/dnslookup/DNSLookupService.java:222-271 | a null or empty reply logs the query, leaves the cache alone and sends nothing more |
| LookupService.SettledReplyStops | src/ca/ubc/cs317/dnslookup/DNSLookupService.java:245-249 | a reply holding a record of the node or any CNAME ends the delegation with the state unchanged |
| LookupService.AsksFirstGlue | src/ca/ubc/cs317/dnslookup/DNSLookupService.java:251-256 | otherwise the first A record with an address is asked about the original node, and the delegation continues from there alone |
| LookupService.ResolvesFirstNameServer | src/ca/ubc/cs317/dnslookup/DNSLookupService.java:258-269 | with no glue, the first record without an address is resolved as an A lookup from level 0; only its first result's address is then asked about the node, and nothing when that result has no address |
| LookupService.NoCandidateStops | src/ca/ubc/cs317/dnslookup/DNSLookupService.java:242-271 | a reply of addressed records none of which is an A record sends nothing |
| LookupService.ChaseAtBound | src/ca/ubc/cs317/dnslookup/DNSLookupService.java:170-197 | at the indirection bound no CNAME target is looked up: the state is unchanged |
| LookupService.ChaseFollowsFirst | src/ca/ubc/cs317/dnslookup/DNSLookupService.java:193-198 | each CNAME is looked up one level deeper than the one before, so a chase starting at level L gives the same outcome as the chase of only its first max(0, 10 - L) CNAMEs |
| LookupService.ChaseLevelRises | src/ca/ubc/cs317/dnslookup/DNSLookupService.java:194-197 | the level rises per CNAME: one below the bound, the first of two CNAMEs is followed with the original type and the second is not |
| LookupService.CNameFromCache | src/ca/ubc/cs317/dnslookup/DNSLookupService.java:189-198 | a host cached only as a CNAME to a cached target is answered without a query, with the target's values filed under the original node |
| LookupService.DelegationViaGlue | src/ca/ubc/cs317/dnslookup/DNSLookupService.java:175-256 | from an empty cache, a root referral with glue followed by an answer sends exactly two queries and returns the answer |
| LookupService.RetrieveAnswered | src/ca/ubc/cs317/dnslookup/DNSLookupService.java:222-249 | a reply that settles the node is cached and ends the delegation |
| LookupService.OracleMatchesDecoder | src/ca/ubc/cs317/dnslookup/DNSLookupService.java:222-226 | the oracle's reading of a decoded reply leaves the cache the decoder leaves, and it is null exactly on an ID mismatch or an error RCODE |

## Left out

- Socket handling, sending, the receive loop and retransmission on timeout: this is I/O with an unbounded retry and nothing to state about it. The reply is an input, or the oracle's answer.
- Random ID generation: the random value is a parameter below 65535.
- `InetAddress.getByName`: foreign address parsing, replaced by the `isAddress` parameter.
- Tracing, printing, the interactive command loop and the `p1Flag` test switch: output and argument handling only.
- `DNSCache`, `ResourceRecord`, `DNSNode`, `RecordType` and `DNSServerResponse` are not part of this model, because their sources are not available. The model assumes the cache keys records by node, stores a (node, value) pair once and rewrites it with the newer TTL, and lets nothing expire.
- The text a `ResourceRecord` with a null address reports is not visible. `Records.TextOf` uses "" for it.
- Java sets are modelled as sequences. The source iterates a `HashSet` whose order depends on `ResourceRecord.hashCode`, which is not available; the reply's wire order stands in for it, so the "first glue" and the "first name server" are the first on the wire. Duplicate records of one reply stay as separate entries.
- Non-ASCII host names: the UTF-8 length prefix mismatch and labels of 128 or more octets are outside the model. The round trips assume 7-bit labels.
- Exceptions that escape the decoder: a malformed reply is `Malformed` in the decoder. The resolver's oracle only returns replies decoded without an exception, so the escape of such errors out of a lookup is not modelled. A datagram shorter than its header counts promise is not one of them: the decoder reads the zero-filled 1024-octet receive array (`ReceiveBuffer`), so octets past the datagram read as zeros rather than failing.
- LookupService.ResolvesFirstNameServer: a first result without an address would make the source send to a null server. The model sends nothing then.
- Fuel: decoding a name follows at most `fuel` pointers, and a lookup nests re-entries of the resolver through CNAMEs and delegations at most `fuel` deep (the CNAMEs of one chase share the same fuel). Running out is a failure that the source, having no bound, does not have.
- The oracle answers each (server, node) pair the same way every time, so a server whose replies change over time is not modelled.
- LookupService.ChaseCNames: the contract states only that the state grows. The per-iteration level rise and the bound are stated by ChaseFollowsFirst, ChaseAtBound and ChaseLevelRises.
- Response.RData: the AAAA text is not in the function's own contract but in the lemma Response.AAAAText, because stating it at every use of RData makes the record round trips too expensive to verify.
- Whole-reply decoding relies on the records the writer can produce. It covers A, AAAA, MX and name-valued types; SOA RDATA beyond its first name is covered by NameRDataIgnoresLength instead.
