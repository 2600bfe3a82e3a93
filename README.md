# scitra in Dafny

A model of the `scitra` CoreDNS plugin. The plugin answers A and AAAA questions
for names that announce a SCION address. It answers with an IPv6 address in
the SCION-IP translation layout.

The plugin has three parts, and each is its own module here:

- **Codec** is the address encoder (`scion2ip`). It writes a 16-byte buffer:
  - byte 0 is the configured prefix octet;
  - bytes 1..4 are the ISD-AS pair packed into 32 bits, big-endian. The ISD
    takes the top 12 bits. The AS number is stored directly when it is below
    2^19. A public SCION AS number (2:0:0 to 2:7:ffff) is stored as a flag in
    bit 19 plus its low 19 bits;
  - bytes 5..7 are zero;
  - bytes 8..15 are the host: `00 00 ff ff` and the IPv4 address, or the low
    half of the IPv6 address. IPv4-mapped IPv6 hosts are unmapped first.

  `Encode` is the specification. `Scion2Ip` fills a zeroed array the way the
  plugin does, and is proved equal to `Encode`.
- **Resolver** is the lookup (`queryScionAddress`):
  - it sends a TXT sub-query to the next handler;
  - it returns the handler's error, if any;
  - it returns nothing on a non-success return code;
  - otherwise it returns the first TXT string, records first and strings
    second, that splits at its first `=` into the key `scion` and text that
    parses to an address with an IP host.

  `Lookup` is the specification. `QueryScionAddress` runs the loops and is
  proved equal to `Lookup`.
- **Handler** is the per-request decision (`ServeDNS`, `emptyResponse`).
  `Decide` maps a request to one of three outcomes: pass it on, return an
  error, or write a reply. `ServeDNS` composes the two methods above as the
  plugin does, and is proved equal to `Decide`.

Supporting modules:

- `NetIp` models IP addresses and unmapping.
- `ScionAddr` models SCION addresses.
- `Dns` models the message fields the plugin reads and writes. `SetReply`,
  `QName` and `QClass` follow the library calls the plugin makes.
- `Wrappers` provides `Option` and `Result`.

The sizes follow the source's Go types:

- `bv16` for the ISD and the record types;
- `bv64` for the AS number;
- `bv32` for the packed field;
- `bv8` for bytes.

A `uint32(asn)` conversion is written out as a truncation.

Two functions of the source stand as parameters of the model:

- the next handler in the plugin chain: `next: Msg -> Result<Captured, HandlerError>`.
  `Captured` holds the handler's return code and the message it wrote.
- the SCION address parser: `parse: string -> Option<Addr>`.

The source's test calls an AS number of the direct range "BGP-compatible".
`Codec.BgpCompatibleASN` keeps that name for the range below 2^19, which is
the part of the BGP AS numbers (0:0:0 to 0:ffff:ffff) that fits in 19 bits.
The public SCION range 2:0:0 to 2:7:ffff lies outside the BGP numbers.

## Model

| member | source | states |
|---|---|---|
| `NetIp.Unmap` | scitra.go:133 | An IPv4-mapped IPv6 address becomes the IPv4 address in its last four bytes. Any other address is returned unchanged. |
| `Dns.SetReply` | scitra.go:125-126 | A reply keeps the request's id and is marked as a response with a success code. It carries the first question and no answers, and is not authoritative. |
| `Dns.QName` | scitra.go:73 | The record name is the question's name. |
| `Dns.QClass` | scitra.go:73 | The record class is the question's class. |
| `Codec.BgpCompatibleASN` | scitra.go:145 | Definition of the direct range, AS numbers below 2^19. `Codec.PackIA` and `Codec.UnpackIA` state what it decides. |
| `Codec.PublicScionASN` | scitra.go:147 | Definition of the public range 0x2_0000_0000 to 0x2_0007_ffff. `Codec.PackIA` and `Codec.UnpackIA` state what it decides. |
| `Codec.Encodable` | scitra.go:141-151 | Definition: an ISD below 4096 and an AS number in one of the two ranges. `Codec.PackIA` and `Codec.Encode` succeed exactly on these pairs. |
| `Codec.PackIA` | scitra.go:139-151 | Packing succeeds exactly when the ISD is below 4096 and the AS number is in one of the two ranges. An ISD of 4096 or more fails with the ISD error, whatever the AS number. Otherwise an AS number outside both ranges fails with the AS error. |
| `Codec.UnpackIA` | scitra.go:145-148 | Reading a field back gives an ISD below 4096. Bit 19 clear gives a direct-range AS number; bit 19 set gives one in the public range. |
| `Codec.UnpackPack` | scitra.go:145-152 | Every encodable pair is read back unchanged from its packed field. Bit 19 is set exactly for public-range AS numbers, so the field is injective on encodable pairs. |
| `Codec.PackUnpack` | scitra.go:145-152 | Every 32-bit field is the packing of the pair read back from it. Packing is onto, and unpacking is its inverse. |
| `Codec.PutUint32BE` | scitra.go:152 | The four big-endian bytes read back as the word. |
| `Codec.Uint32BERoundTrip` | scitra.go:152 | Four bytes read as a big-endian word and written again are unchanged. |
| `Codec.HostSuffix` | scitra.go:163-171 | An IPv4 host gives 00 00 ff ff and its four bytes. An IPv6 host gives its bytes 8..15. |
| `Codec.SuffixIgnoresUnmap` | scitra.go:133-171 | Unmapping the host first does not change bytes 8..15. |
| `Codec.Layout` | scitra.go:132-171 | Byte 0 is the prefix, bytes 1..4 the field bytes, bytes 5..7 zero, bytes 8..15 the host suffix. |
| `Codec.Encode` | scitra.go:131-174 | Encoding succeeds exactly when the ISD-AS pair is encodable. Its error kinds are those of the packing. |
| `Codec.EncodeLayout` | scitra.go:132-171 | In a successful encoding, byte 0 is the prefix and bytes 1..4 read back as the ISD-AS pair. Bytes 5..7 are zero. Bytes 8..15 are the suffix of the host as given, mapped or not. |
| `Codec.EncodeInjectiveUpToSuffix` | scitra.go:131-174 | Two equal successful encodings have the same prefix, the same ISD-AS pair and the same host suffix. |
| `Codec.HighHalfDiscarded` | scitra.go:168-171 | Two IPv6 hosts that differ only in bytes 0..7 encode alike, so the whole encoding is not injective. |
| `Codec.MappedEncodesAsV4` | scitra.go:133 | An IPv4-mapped IPv6 host encodes exactly like the IPv4 host it carries. |
| `Codec.PutUint32` | scitra.go:152 | The method writes the big-endian bytes of the word at the offset and leaves every other element unchanged. |
| `Codec.Copy` | scitra.go:160 | The method copies the bytes to the offset and leaves every other element unchanged. |
| `Codec.PutHost` | scitra.go:154-171 | Bytes 5..7 become zero for an IPv6 host and are untouched for an IPv4 host. Bytes 8..15 become the host suffix. Bytes 0..4 are untouched. |
| `Codec.Scion2Ip` | scitra.go:131-174 | Building the address in a zeroed buffer gives exactly `Encode`'s result, including each error. |
| `Codec.BgpCompatibleVector` | scitra_test.go:21-26 | 1-0:0:fc02,10.128.1.1 under prefix fc encodes as fc00:10fc:200::ffff:a80:101. |
| `Codec.PublicScionVector` | scitra_test.go:27-32 | 64-2:0:9,10.0.0.0 encodes as fc04:800:900::ffff:a00:0. |
| `Codec.IPv6HostVector` | scitra_test.go:33-38 | 1-0:0:fc02,fd00::1 encodes as fc00:10fc:200::1. |
| `Codec.IsdTooLargeVector` | scitra_test.go:39-44 | ISD 4096 is refused with the ISD error. |
| `Codec.AsnTooLargeVector` | scitra_test.go:45-50 | AS number ff00:0:0 is refused with the AS error. |
| `Resolver.TxtQuery` | scitra.go:88-96 | The sub-query has id 1337 and exactly one question: the name, type TXT, class IN. |
| `Resolver.SplitFirst` | scitra.go:109 | There are two parts exactly when the separator occurs. The key holds no separator, and key, separator and value rebuild the string. |
| `Resolver.SplitFirstUnique` | scitra.go:109 | Any split whose key holds no separator is the one SplitFirst returns. |
| `Resolver.AttrSplit` | scitra.go:109-110 | The key is `scion` exactly when the string starts with `scion=`, and the value is then the rest of the string. |
| `Resolver.Candidate` | scitra.go:109-113 | A string announces an address exactly when it starts with `scion=` and the rest parses to an address with an IP host. The address is then that parse. |
| `Resolver.RecordStrings` | scitra.go:107-108 | Definition: a TXT record gives its strings, any other record none. `Resolver.TxtStringsMembers` states the consequence for a whole answer. |
| `Resolver.TxtStrings` | scitra.go:106-108 | Definition of the scan order: the strings of the records, record by record. `Resolver.TxtStringsAppend` and `Resolver.TxtStringsMembers` describe it. |
| `Resolver.TxtStringsAppend` | scitra.go:106-108 | The strings scanned over two runs of records are those of the first run followed by those of the second. |
| `Resolver.TxtStringsMembers` | scitra.go:106-108 | A string is scanned exactly when some TXT record holds it. Other records contribute nothing. |
| `Resolver.FirstMatch` | scitra.go:108-114 | A match always has an IP host. |
| `Resolver.FirstMatchIsFirst` | scitra.go:106-116 | The scan finds nothing exactly when no string is a candidate. Otherwise it returns a candidate, and no earlier string is one. |
| `Resolver.FirstMatchAppend` | scitra.go:106-116 | Scanning two runs gives the first run's match when it has one, and otherwise the second run's. |
| `Resolver.NotFoundIffNoCandidate` | scitra.go:105-120 | Nothing is found exactly when no string of any TXT record in the answer is a candidate. |
| `Resolver.Lookup` | scitra.go:84-121 | The lookup fails exactly when the next handler fails, and with its error. A found address has an IP host and comes from a success return code. |
| `Resolver.NoCandidateIn` | scitra.go:106-116 | Definition: no string of any TXT record announces an address. `Resolver.LookupFindsFirst` uses it. |
| `Resolver.FirstFoundAt` | scitra.go:106-116 | Definition: string j of record i announces the address, and no earlier record and no earlier string of record i does. `Resolver.LookupFindsFirst` uses it. |
| `Resolver.ScanFindsFirst` | scitra.go:106-116 | When the scan of an answer section finds an address, it is the one at some record i and string j with no candidate before it. |
| `Resolver.LookupFindsFirst` | scitra.go:99-120 | On a success code the lookup finds nothing exactly when no TXT string announces an address. Otherwise it finds the address at some record i and string j, with no candidate in an earlier record or earlier in record i. |
| `Resolver.ScanStrings` | scitra.go:108-116 | The inner loop returns exactly the first candidate among a record's strings. |
| `Resolver.QueryScionAddress` | scitra.go:84-121 | The nested loops with their early return give exactly `Lookup`'s result. |
| `Handler.EmptyResponse` | scitra.go:124-129 | The empty response is a success reply to the request with no records, and it is not authoritative. |
| `Handler.AnswerResponse` | scitra.go:68-75 | The answer is an authoritative reply to the request with one AAAA record. The record carries the question's name and class and the given address. |
| `Handler.AddressQuestion` | scitra.go:36-42 | Definition: exactly one question, of type A or AAAA. `Handler.OtherRequestsDelegated` and `Handler.RespondsIff` state what it decides. |
| `Handler.Decide` | scitra.go:30-80 | An error is returned only for a single A or AAAA question whose sub-query failed. |
| `Handler.ServeDNS` | scitra.go:30-80 | Running the lookup and encoder methods in the plugin's order gives exactly `Decide`'s outcome. |
| `Handler.OtherRequestsDelegated` | scitra.go:36-42 | A request without exactly one question, or whose question is neither A nor AAAA, is passed on. |
| `Handler.NextNotConsulted` | scitra.go:36-42 | For such a request the decision does not depend on the next handler's answers. No lookup is made. |
| `Handler.ErrorsPropagate` | scitra.go:44-47 | For a single A or AAAA question, the plugin returns an error exactly when the sub-query fails, and it is that error. |
| `Handler.UnmappableDelegated` | scitra.go:48-59 | A name without a SCION address is passed on. So is a name whose address cannot be encoded; an encoding failure never becomes an error. |
| `Handler.RespondsIff` | scitra.go:36-65 | The plugin replies exactly when there is a single A or AAAA question and the lookup finds an encodable address. |
| `Handler.AQuestionSuppressed` | scitra.go:61-65 | An A question for a SCION host gets a non-authoritative success reply with the request's id and question and no records. |
| `Handler.AAAAQuestionAnswered` | scitra.go:67-79 | An AAAA question for a SCION host gets an authoritative success reply with exactly one AAAA record. The record has the question's name and class. Its address has the prefix, a field that reads back as the host's ISD-AS pair, zeros in bytes 5..7 and the host suffix. |

## Left out

- setup.go's parsing of the plugin configuration is not modelled. `Handler.Scitra` holds the prefix octet, and `Handler.DefaultPrefix` is its default, the first byte of fc00::/8.
- Logging, request contexts and their cancellation, and concurrent requests are not modelled. They do not affect the decision.
- The next handler and the SCION address parser are foreign code. They are parameters. The textual notation of SCION addresses is not modelled.
- The message the next handler writes is always present in `Resolver.Captured`. The source would dereference a missing message after a success code; that case is not represented.
- `Handler.Delegate` stands for handing the unchanged request to the next handler. What that handler then writes is not modelled.
- `Handler.Respond` stands for writing the reply. An error from writing it is not modelled.
- The DNS wire format is not modelled. Neither are the opcode, recursion-desired and checking-disabled bits, or the TTL of the AAAA record (left at its zero value by the source). The sub-query's opcode and recursion-desired bit are also not modelled; its id (1337) and question are.
- `Dns.QName` returns the question name as it is. The textual normalisation CoreDNS applies to names is not modelled.
- The texts of error messages are not modelled, including the plugin or query name they mention. `Resolver.HandlerError` carries an uninterpreted string.
- Codec.Encode: requires an IP host. The source reads the host as an IP without checking its kind, and the lookup returns only IP hosts (`Resolver.FirstMatch`).
- Codec.Scion2Ip: the partially filled buffer that the source returns alongside an encoding error is dropped. The caller discards it.
- Reverse translation (IPv6 back to SCION) and non-zero values for bytes 5..7 are not modelled. The source has neither; `Codec.UnpackIA` exists only to state that the packed field loses nothing.
