# Protocol cores of a user-space network stack

A Dafny model of the algorithms among the socket plumbing of the repository: the checksums, the
address arithmetic, the codecs, the stream reassembly, the DNS server with its trie, the PTP path
protocol with its router, the multiplexer and the asynchronous forwarder. `dafny verify dfyconfig.toml`
checks all of it.

The source's loops, its cursors over buffers and the objects whose fields it updates are methods over
the same variables, each proved against a function or a predicate that says what it has to compute; what
the source writes as one expression or one case distinction, such as reading the text of a single action,
is a function. The lemmas are about those. Reads outside a buffer, shifts by too much, exceptions and
loops that never end are either an explicit outcome (`None`, `OutOfBuffer`, `Beyond`, `Endless`,
`Diverges`, `Crashed`, `ok` being false) or a precondition. The host is little-endian, as the casts in
the source need it to be.

| file | what it models |
|---|---|
| `Bytes` | octets, machine words, byte order, `memcpy` |
| `InternetChecksum`, `Ip4Header` | the Internet checksum against RFC 1071, and the IPv4 and ICMP senders that use it |
| `Crc32`, `CrcDivision`, `CrcResidue` | the table-driven frame check sequence against division of polynomials (IEEE 802.3, section 3.2.9) |
| `Ip4Address`, `Arp`, `ArpScan` | successor, subnets, the address resolution header (RFC 826), the scan's request loop |
| `DnsName`, `DnsExpand`, `DnsNameExact` | names on the wire, compression pointers, which names come back (RFC 1035, section 4.1.4) |
| `DnsRecord`, `DnsRecordExact`, `DnsMessage` | header, queries, resource records, whole messages (RFC 1035, section 4.1) |
| `DnsMx` | the data of mail exchange records (RFC 1035, section 3.3.9) |
| `Trie`, `DnsDatabase`, `DnsTool` | the index of names, the records under it, the query handler, the server from its files to a reply |
| `MsgBoundary` | messages over a byte stream |
| `Multiplexer` | handlers found by the values they require |
| `VarLenBytes`, `VarNum` | self-delimiting bytes and variable-length numbers |
| `PtpHeader`, `PtpNode`, `PtpReply` | the PTP codec, a node, paths back |
| `SplitStr`, `PtpText`, `PtpTextExact`, `PtpTextRead` | the text form of PTP paths, which paths come back from it, which strings are read at all |
| `PtpRouting` | longest-prefix routing |
| `CircularQueue`, `AsyncListener` | the ring buffer, and the forwarder as a machine of atomic steps |
| `SendMedium` | where packets go |

What goes over a wire is also stated octet by octet, without the functions that the writers and readers are
proved against: `BigEndian` in `Bytes` is the number that octets in network order stand for.

Where the code does less than it promises, the model keeps the code and a lemma says exactly when the
promise holds:

- a subnet test is the CIDR test only for masks of whole octets (`Ip4Address.InsideIsCidrIffWholeOctets`),
  and a scan visits a block of the right size only for those (`ArpScan.BlockIsSubnetIffWholeOctets`);
  the scan ends at all only if the mask has a bit (`ArpScan.ScanEndsIff`);
- an IPv4 header comes back only with its flags zero (`Ip4Header.ExtractOfImage`), a DNS header only
  with opcode 0 (`DnsRecord.HeaderRoundTrip`), a record only with a 16-bit ttl, an exact length and a
  good name (`DnsRecordExact.RecordRoundTrip`);
- a name is expanded as RFC 1035 says only if no byte of its labels can pass for an end or a pointer
  (`DnsNameExact.ExpandsIffPlain`, and `DnsNameExact.NameRoundTrip` for names the writer wrote; a single
  byte above 191 makes the reader run for ever in `DnsExpand.HighLabelByteLoops`);
- the message separator reads past a chunk if and only if some chunk ends inside a length field
  (`MsgBoundary.ReceiveAll`), which chunks of at least two bytes, as its class comment asks for, do not
  rule out (`MsgBoundary.DocumentedAssumptionTooWeak`);
- the checksum agrees with RFC 1071 only while the 32-bit accumulator does not wrap
  (`InternetChecksum.ChecksumOnTheWire`), though what it stores always checksums to zero
  (`InternetChecksum.StoredChecksumVerifies`);
- a PTP address comes back from text only if none of its octets is below 16
  (`PtpTextExact.AddrRoundTrip`);
- a path whose reversal throws ends the program that receives it (`PtpReply.CrashesIff`);
- the mail host of a record never goes out as itself, and arrives only if it is empty: its last letter is
  taken for its terminator (`DnsMx.HostNeverGoesOut`, `DnsMx.HostArrivesIffEmpty`).

## Model

| member | source | states |
|---|---|---|
| InternetChecksum.Compute | src/protocols/ip4/internet_checksum.cpp:3-18 | the accumulate-and-fold loop returns the complement of the end-around-carry fold of the native words' sum modulo 2^32 |
| InternetChecksum.TwoFoldsSuffice | src/protocols/ip4/internet_checksum.cpp:15-17 | for every 32-bit sum two folds reach the fully folded value and the truncation of the complement loses nothing |
| InternetChecksum.OcSumIsSwappedFold | src/protocols/ip4/internet_checksum.cpp:7-13 | RFC 1071 section 2(B): folding little-endian words gives the byte-swapped one's complement sum of big-endian words, odd lengths included |
| InternetChecksum.ChecksumOnTheWire | src/protocols/ip4/internet_checksum.cpp:3-18 | for data below 2^31 bytes the natively stored checksum is the RFC's two bytes if and only if the sum does not reach 2^32 |
| InternetChecksum.NoOverflowIffUpTo131074 | src/protocols/ip4/internet_checksum.cpp:7-13 | the sum stays below 2^32 for all buffers of a length if and only if that length is at most 131074 |
| InternetChecksum.ChecksumCompletesSum | src/protocols/ip4/internet_checksum.cpp:15-17 | for every buffer the sum modulo 2^32 and the checksum add up to a multiple of 65535 below 2^32, and the checksum is 65535 exactly where that sum is zero, which up to 131074 bytes means all-zero data |
| InternetChecksum.StoredChecksumVerifies | src/protocols/ip4/internet_checksum.cpp:3-18 | data of any size whose zeroed 16-bit field is replaced by its checksum checksums to zero, also where the sum wraps |
| Ip4Header.WriteHeader | src/protocols/ip4/ip4_header.cpp:23-48 | the twenty bytes of the header image, nothing behind them touched |
| Ip4Header.Send | src/protocols/ip4/ip4_protocol.cpp:9-27 | what reaches the surface is the header with its checksum filled in, then the data; a null surface sends nothing |
| Ip4Header.SentHeaderVerifies | src/protocols/ip4/ip4_protocol.cpp:9-27 | RFC 791 section 3.1: every header sent checksums to zero, and its checksum bytes are those of the big-endian computation |
| Ip4Header.SentOctets | src/protocols/ip4/ip4_header.cpp:23-48 | RFC 791 section 3.1, octet by octet: where each field stands in a packet sent, and the data behind |
| Ip4Header.ReadHeader | src/protocols/ip4/ip4_header.cpp:50-79 | the cursor over the twenty bytes ends behind them with the header they stand for |
| Ip4Header.ExtractOfImage | src/protocols/ip4/ip4_header.cpp:50-79 | a written header is read back with its flags zeroed, so unchanged if and only if they were zero |
| Ip4Header.WriteIcmpHeader | src/protocols/icmp/icmp_header.cpp:5-17 | the eight bytes of the ICMP header, nothing behind them touched |
| Ip4Header.ReadIcmpHeader | src/protocols/icmp/icmp_header.cpp:19-31 | the cursor over the eight bytes ends behind them with the header they stand for |
| Ip4Header.IcmpRoundTrip | src/protocols/icmp/icmp_header.cpp:5-31 | whatever follows, a written ICMP header is read back |
| Ip4Header.SentIcmpOctets | src/protocols/icmp/icmp_header.cpp:5-17 | RFC 792, octet by octet: type, code, the four octets behind the checksum in network order, and the data of every packet sent |
| Ip4Header.SendIcmp | src/protocols/icmp/icmp_protocol.cpp:8-26 | what reaches the surface is the packet checksummed over header and data |
| Ip4Header.SentIcmpVerifies | src/protocols/icmp/icmp_protocol.cpp:8-26 | RFC 792: every packet sent, of any size, checksums to zero; below 2^31 bytes its checksum bytes are those of the big-endian computation if and only if the sum does not reach 2^32 |
| Crc32.InitTable | src/protocols/ether2/ethernet2_header.cpp:23-30 | entry i is the byte i shifted out bit by bit |
| Crc32.CalcCrc | src/protocols/ether2/ethernet2_header.cpp:31-46 | the table loop returns the bit-at-a-time check sequence of every byte string |
| Crc32.TableStep | src/protocols/ether2/ethernet2_header.cpp:40-43 | one table step is eight bit steps, by linearity |
| Crc32.ShiftTimesLinear | src/protocols/ether2/ethernet2_header.cpp:26-27 | shifting out n bits commutes with xor |
| CrcDivision.FcsIsDivision | src/protocols/ether2/ethernet2_header.cpp:31-46 | IEEE 802.3 section 3.2.9: the result is the complemented remainder of the polynomial division of the frame with its first 32 coefficients complemented |
| CrcDivision.BurstIsDetected | src/protocols/ether2/ethernet2_header.cpp:31-46 | two frames that differ only within 32 consecutive bits, wherever these begin, never have the same check sequence |
| CrcDivision.ResidueIffIntact | src/protocols/ether2/ethernet2_header.cpp:31-46 | recomputing over data and four more octets gives one fixed residue if and only if those are the data's check sequence |
| CrcResidue.PolyNumber | src/protocols/ether2/ethernet2_header.cpp:21-21 | the generator's coefficient list is the number 0xEDB88320 |
| CrcResidue.ResidueNumber | src/protocols/ether2/ethernet2_header.cpp:31-46 | the fixed residue is the number 0x2144DF1C |
| CrcResidue.IntactIffNumber | src/protocols/ether2/ethernet2_header.cpp:31-46 | recomputing gives 0x2144DF1C if and only if the last four octets are the data's check sequence, low octet first |
| Ip4Address.GenerateNextIp | src/protocols/ip4/ip4_addr.cpp:38-51 | the big-endian successor modulo 2^32, whatever the uninitialised result held |
| Ip4Address.SmallestIpAddrInSubnet | src/protocols/ip4/ip4_addr.cpp:105-116 | the octets before the partial one, its low bits, zeros |
| Ip4Address.SmallestIsLeast | src/protocols/ip4/ip4_addr.cpp:105-116 | of the addresses that pass the subnet test the smallest is one, and the least |
| Ip4Address.LowBitsAreRemainder | src/protocols/ip4/ip4_addr.cpp:129-131 | the bits of the partial octet that are looked at are its remainder by a power of two |
| Ip4Address.IsInsideSubnet | src/protocols/ip4/ip4_addr.cpp:118-134 | equal leading octets and equal low bits of the partial octet |
| Ip4Address.InsideIsCidrIffWholeOctets | src/protocols/ip4/ip4_addr.cpp:118-134 | this is the CIDR test for all addresses if and only if the mask ends on an octet boundary |
| Ip4Address.PartialOctetDiffers | src/protocols/ip4/ip4_addr.cpp:129-131 | for every other mask there are a base and an address the two tests disagree on |
| Arp.WriteHeader | src/protocols/arp/arp_header.cpp:7-40 | the header's image, nothing behind it touched, or the abort at an address whose size is not the one announced |
| Arp.Send | src/protocols/arp/arp_protocol.cpp:6-13 | the image, filled up with zeros to the size of the object in memory, is sent if and only if the sizes match |
| Arp.ReadHeader | src/protocols/arp/arp_header.cpp:42-69 | the header, its addresses as long as it says, or a read past the end |
| Arp.RoundTrip | src/protocols/arp/arp_header.cpp:7-69 | whatever follows, a header that can be written is read back |
| Arp.ReadIsWritten | src/protocols/arp/arp_header.cpp:7-69 | whatever is read can be written, to the bytes it was read from |
| Arp.RequestOctets | src/tools/arp_tool/arp_tool.cpp:77-89 | RFC 826: the 28 octets of a request, for all addresses |
| ArpScan.ScanRequests | src/tools/arp_tool/arp_tool.cpp:67-102 | for masks of 1 to 31 bits the loop ends after one block of addresses from the smallest, and sends the requests for those not skipped, in order |
| ArpScan.VisitedMoves | src/tools/arp_tool/arp_tool.cpp:67-102 | each address visited is the successor of the one before, for every mask and number of rounds |
| ArpScan.ScanEndsIff | src/tools/arp_tool/arp_tool.cpp:67-102 | some address visited is outside of the subnet, so that the loop ends, if and only if the mask has at least one bit |
| ArpScan.RangeAscends | src/tools/arp_tool/arp_tool.cpp:67-102 | the addresses visited are distinct and ascending |
| ArpScan.ScanCoversSubnet | src/tools/arp_tool/arp_tool.cpp:67-102 | for masks of whole octets the addresses visited are exactly those of the CIDR subnet |
| ArpScan.BlockIsSubnetIffWholeOctets | src/tools/arp_tool/arp_tool.cpp:67-102 | the number of addresses visited is the subnet's if and only if the mask is of whole octets |
| ArpScan.RequestsAscend | src/tools/arp_tool/arp_tool.cpp:72-93 | the addresses asked for are some of those visited, in ascending order |
| ArpScan.RequestedIffNotSkipped | src/tools/arp_tool/arp_tool.cpp:72-93 | an address is asked for if and only if it is visited and not in the skip set |
| DnsName.EncodeDnsName | src/protocols/dns/dns.cpp:11-35 | each label of the text behind its length, then a zero; the text's last byte is dropped and lengths are cut to eight bits |
| DnsName.TwoPartsOnTheWire | src/protocols/dns/dns.cpp:11-35 | RFC 1035 section 3.1: two texts without a dot, a dot between and a NUL behind, go out as length and bytes twice, and a zero |
| DnsName.DecodeDnsName | src/protocols/dns/dns.cpp:37-60 | labels joined by dots up to the zero, or a read past the end |
| DnsName.JoinOfLabels | src/protocols/dns/dns.cpp:16-30 | the labels of a text, joined by dots, are the text, and none has a dot |
| DnsName.LabelsOfJoin | src/protocols/dns/dns.cpp:37-60 | dot-free labels come back from the text they are joined to |
| DnsName.DecodeOfWire | src/protocols/dns/dns.cpp:37-60 | labels of 1 to 255 bytes on the wire decode to their dotted text and a NUL, whatever follows |
| DnsName.DecodesIff | src/protocols/dns/dns.cpp:37-60 | for all bytes: they are decoded if and only if they begin with labels, each behind its length, up to a zero or their end, and then to these labels joined by dots, with a NUL if there was a zero |
| DnsExpand.ExtractEncodedName | src/protocols/dns/dns.cpp:62-95 | where the pointer chase ends, the expanded bytes and the count of bytes in place |
| DnsExpand.StepsSuffice | src/protocols/dns/dns.cpp:67-85 | a chase that has not ended after one step more than the packet has bytes never ends, and any that ends gives the same result by then |
| DnsExpand.PointerLeadsToOffset | src/protocols/dns/dns.cpp:70-75 | RFC 1035 section 4.1.4: a pointer to any 14-bit offset in network order gives what is read at that offset, or the same failure, and takes two bytes |
| DnsExpand.UnendedIsOutside | src/protocols/dns/dns.cpp:67-85 | a name that the packet ends in the middle of is a read past the end |
| DnsExpand.ReadsLabels | src/protocols/dns/dns.cpp:62-95 | where pointers go to before the run being read and label bytes are 1 to 191 the chase ends, by a lexicographic measure, with the labels the pointers stand for and the count of the bytes in place |
| DnsExpand.HighLabelByteLoops | src/protocols/dns/dns.cpp:67-85 | a one-label name with the byte 192 in it is never read to its end |
| DnsNameExact.ReadNameAt | src/protocols/dns/dns.cpp:213-217 | expand, then decode, with every way out of the packet |
| DnsNameExact.ExpandsIffPlain | src/protocols/dns/dns.cpp:62-95 | RFC 1035 section 4.1.4: for a name of labels of 1 to 63 bytes whose pointers go backwards, the expansion and the byte count are those of the RFC if and only if no byte of its labels is zero or above 191, and then the decoded text is the labels joined by dots |
| DnsNameExact.ReadNamesAreShort | src/protocols/dns/dns.cpp:62-95 | whatever is read ends in its only NUL, has no byte above 191 and no label of 192 bytes or more |
| DnsNameExact.NameReadBack | src/protocols/dns/dns.cpp:213-217 | if the name read where one was written is that name, it has labels of 1 to 191 such bytes and is read in its whole length, or it is the lone NUL and one byte is read |
| DnsNameExact.NameRoundTrip | src/protocols/dns/dns.cpp:197-226 | wherever a name is written in a packet, it and its length are read back if and only if it is one or more labels of 1 to 191 bytes, each byte 1 to 191, and a NUL |
| DnsRecord.WriteHeader | src/protocols/dns/dns.cpp:134-155 | the twelve bytes of the header, nothing behind them touched |
| DnsRecord.ReadHeader | src/protocols/dns/dns.cpp:157-186 | the cursor over the twelve bytes ends behind them with the header they stand for |
| DnsRecord.HeaderFields | src/protocols/dns/dns.cpp:157-186 | RFC 1035 section 4.1.1: for any twelve octets, the fields read put back together are the octets |
| DnsRecord.HeaderRoundTrip | src/protocols/dns/dns.cpp:157-186 | a header is read back with opcode 0, losing aa if its opcode was not 0, so unchanged if and only if it was |
| DnsRecord.WriteQuery | src/protocols/dns/dns.cpp:197-211 | the query's image behind what was there, and its length |
| DnsRecord.WriteAnswer | src/protocols/dns/dns.cpp:229-269 | the record's image behind what was there, and its length |
| DnsRecord.RecordOctets | src/protocols/dns/dns.cpp:197-269 | RFC 1035 sections 4.1.2 and 4.1.3, octet by octet: where each field of a written record stands; of the ttl the low half stands where the high one belongs |
| DnsRecord.TtlImageIsStored | src/protocols/dns/dns.cpp:242-242 | the native 32-bit store of the 16-bit swap puts the low half in network order first and two zeros behind |
| DnsRecord.ExtractQuery | src/protocols/dns/dns.cpp:213-226 | name, type and class, and the bytes taken, or a read past the end |
| DnsRecord.ExtractAnswer | src/protocols/dns/dns.cpp:271-296 | the whole record and the bytes taken, or a read past the end |
| DnsRecord.RecordFields | src/protocols/dns/dns.cpp:213-296 | for any packet: the fields of a record that is read stand behind its name in the standard's order, and it ends behind them |
| DnsRecordExact.RecordRoundTrip | src/protocols/dns/dns.cpp:197-296 | wherever a record is written in a packet, it and its length are read back if and only if its name is good, its ttl below 65536 and its data as long as it says |
| DnsRecordExact.RecordReadBack | src/protocols/dns/dns.cpp:213-296 | a reader at or behind the writer, with only zeros between, that reads the record written was at the writer's place and the record is well formed, or it ends up behind with only zeros between |
| DnsMessage.WriteMessage | src/protocols/dns/dns.cpp:384-419 | the message's image and its length, or the throw at the first count that differs from its list |
| DnsMessage.ImageInOrder | src/protocols/dns/dns.cpp:384-419 | RFC 1035 section 4.1: a message goes out as its header and then all records of the four sections in the standard's order, each behind the one before |
| DnsMessage.Send | src/protocols/dns/dns.cpp:551-556 | the image is sent if and only if the counts match |
| DnsMessage.ExtractMessage | src/protocols/dns/dns.cpp:421-452 | header and four sections, each record behind the one before, or the first failure |
| DnsMessage.ReadIffSections | src/protocols/dns/dns.cpp:421-452 | for every packet: a message is read if and only if its header is there and behind it four sections of as many records as the header says, each beginning where the one before ends |
| DnsMessage.SectionReadBack | src/protocols/dns/dns.cpp:427-449 | a section read as written was read in place and is well formed, or its reader falls behind |
| DnsMessage.MessageRoundTrip | src/protocols/dns/dns.cpp:384-452 | whatever follows it in the buffer, a written message and its byte count are read back if and only if its opcode is 0 and every record of its four sections is well formed |
| Trie.TrieNode.CreateChild | src/utils/trie.h:28-37 | the child there is, or a new one that is counted |
| Trie.TrieNode.RemoveChild | src/utils/trie.h:39-47 | the child is gone and no longer counted |
| Trie.TrieNode.Search | src/utils/trie.h:58-68 | the node under the string, if there is one; the letters that the walk gets to are below 128 |
| Trie.TrieNode.AddWord | src/utils/trie.h:70-83 | the word is stored, the others and all keys are as they were, and the invariant holds: children counted, links consistent, every node but the root marked or leading on |
| Trie.TrieNode.RemoveWord | src/utils/trie.h:85-109 | if the word was stored, exactly the stored words that do not begin with it are left; if not, nothing changes; the invariant holds |
| Trie.TrieNode.LowestAncestor | src/utils/trie.h:90-106 | whether the word is stored, and the lowest node above it that is the root, marked or branching, with only unmarked only children below |
| Trie.TrieNode.ContainsWord | src/utils/trie.h:112-115 | whether the word is stored |
| Trie.TrieNode.IsPrefix | src/utils/trie.h:118-120 | whether the string is empty or some stored word begins with it |
| Trie.TrieNode.ContainsPrefix | src/utils/trie.h:123-134 | whether the string begins with some stored word |
| Trie.WithoutExactly | src/utils/trie.h:85-109 | removing a stored word removes only it if and only if no stored word goes on from it |
| Trie.NodesArePrefixes | src/utils/trie.h:117-120 | a non-empty string leads to a node if and only if some stored word begins with it |
| Trie.ChainWords | src/utils/trie.h:94-108 | below a chain of unmarked only children the stored words are those that begin with the whole word |
| Trie.Prunes | src/utils/trie.h:39-47 | cutting a subtree off under the root, a marked or a branching node keeps the invariant |
| DnsDatabase.Database.AddRecordA | src/protocols/dns/dns_database.cpp:66-68 | the address is now under the name, and no other record has changed |
| DnsDatabase.Database.SearchRecordA | src/protocols/dns/dns_database.cpp:70-75 | the address under the name, if one was stored |
| DnsDatabase.Database.AddRecordMx | src/protocols/dns/dns_database.cpp:77-79 | the mail host is now under the name, and no other record has changed |
| DnsDatabase.Database.SearchRecordMx | src/protocols/dns/dns_database.cpp:81-86 | the mail host under the name, if one was stored |
| DnsDatabase.Database.LoadA | src/main/dns/dns_server.cpp:181-182 | from any state, after the loading loop each name added has the address of its last line, and the others have what they had |
| DnsDatabase.Database.LoadMx | src/main/dns/dns_server.cpp:189-190 | the same for the mail hosts |
| DnsDatabase.LastAdditionWins | src/protocols/dns/dns_database.cpp:66-75 | a name is found if and only if it was added, with what it was added with last |
| DnsMx.ConvertToRdata | src/protocols/dns/dns.cpp:299-310 | the preference in network order and the encoded host |
| DnsMx.ExtractMx | src/protocols/dns/dns.cpp:312-322 | preference and host, and the bytes taken, or a read past the end |
| DnsMx.MxRoundTrip | src/protocols/dns/dns.cpp:299-322 | wherever in a packet they are written, preference, host and length are read back if and only if the host is one or more labels of 1 to 191 bytes, each byte 1 to 191, and a NUL |
| DnsMx.HostNeverGoesOut | src/tools/dns/dns_tool.cpp:288-289 | for every host and preference, what goes out for the host passed without its NUL differs from what goes out for the host |
| DnsMx.HostArrivesIffEmpty | src/tools/dns/dns_tool.cpp:288-289 | a receiver reads the host that was meant if and only if it is empty, and the host without its last letter, in its place, if and only if that is a name that round-trips |
| DnsTool.HandleQuery | src/tools/dns/dns_tool.cpp:238-331 | the reply that the queries and the records determine; what it is, `DnsTool.Serve` and `DnsTool.AnswersFollowAdditions` say from the additions alone |
| DnsTool.OneRecordPerQuery | src/tools/dns/dns_tool.cpp:239-303 | answers and authority records together are as many as the queries |
| DnsTool.AnswersInOrder | src/tools/dns/dns_tool.cpp:239-303 | the answer to a query stands right behind the answers to the queries before it |
| DnsTool.AnswersAreAsked | src/tools/dns/dns_tool.cpp:239-303 | every answer is the answer to some query |
| DnsTool.AddressQueryAnswered | src/tools/dns/dns_tool.cpp:245-269 | after any additions an address query is answered if and only if its name was added, with the address added last |
| DnsTool.MailQueryAnswered | src/tools/dns/dns_tool.cpp:270-294 | after any additions a mail query is answered if and only if its name was added, with type 15, an hour, preference 10 and the encoded host added last |
| DnsTool.AnswersFollowAdditions | src/tools/dns/dns_tool.cpp:239-303 | among the answers there is a record for an address or mail query if and only if its name was added, and each such record is the one due for what was added last; no other query has one |
| DnsTool.Serve | src/main/dns/dns_server.cpp:178-193 | loading the files and handling a message: a response with the same id, the queries echoed and the counts there are; one record per query; for each address or mail query an answer if and only if the name was added, made of what was added last, and for the rest the start of authority |
| DnsTool.ReplyRoundTrip | src/tools/dns/dns_tool.cpp:305-330 | for queries with good names a reply can be written and is read back unchanged, byte count included |
| MsgBoundary.SendData | src/protocols/msg_boundary/msg_boundary_seperator.h:35-46 | the size cut to 16 bits, stored natively, and that much of the message |
| MsgBoundary.Separator.HandleCallback | src/protocols/msg_boundary/msg_boundary_seperator.h:52-84 | after a chunk the fields and the delivered list say exactly what all bytes taken so far mean: the messages completed, and the one begun, of which less than all is read; the length field is read past the chunk if and only if the chunk ends between its two bytes |
| MsgBoundary.Separator.BeginMessage | src/protocols/msg_boundary/msg_boundary_seperator.h:57-69 | a message begins with the length its two bytes say and nothing read |
| MsgBoundary.Separator.ContinueMessage | src/protocols/msg_boundary/msg_boundary_seperator.h:71-82 | as many bytes as are there and wanted are copied behind those read; a complete message is delivered |
| MsgBoundary.ParseConcat | src/protocols/msg_boundary/msg_boundary_seperator.h:52-84 | parsing a stream in two pieces, keeping the rest of the first, is parsing it whole |
| MsgBoundary.FramesParse | src/protocols/msg_boundary/msg_boundary_seperator.h:35-84 | frames parse back to the messages if and only if every message is shorter than 65536 bytes |
| MsgBoundary.ReceiveAll | src/protocols/msg_boundary/msg_boundary_seperator.h:52-84 | for any cutting into chunks below 65536 bytes the source stays within the chunks if and only if none ends inside a length field, and then the messages delivered are those the bytes complete |
| MsgBoundary.SendThenReceive | src/protocols/msg_boundary/msg_boundary_seperator.h:35-84 | messages sent, cut and received: the source stays within the chunks if and only if none ends inside a length field, and then nothing is pending and the messages have arrived, in order, if and only if each is shorter than 65536 bytes |
| MsgBoundary.DocumentedAssumptionTooWeak | src/protocols/msg_boundary/msg_boundary_seperator.h:11-11 | two chunks of at least two bytes each can split a length field |
| Multiplexer.Multiplexer.AppendNewEmptyHandler | src/utils/multiplexer.h:74-76 | a handler without requirements joins, nothing else changes |
| Multiplexer.Multiplexer.AddRequirementToLastHandler | src/utils/multiplexer.h:78-82 | the last handler has one more requirement, and the index stays exact |
| Multiplexer.Multiplexer.StreamArray | src/utils/multiplexer.h:84-90 | after any history of calls, each handler with at least one requirement, all of which the stream meets, is found exactly once, and no other is |
| Multiplexer.Multiplexer.RecStreamArray | src/utils/multiplexer.h:36-53 | each position adds the handlers listed under its value to this stream's counts, and counters of earlier streams never leak |
| Multiplexer.HitsCountMet | src/utils/multiplexer.h:46-48 | a handler is counted once per requirement met, so to its number of requirements exactly when all are |
| VarLenBytes.EncodeBytes | lib/var_len_encoding.cpp:3-25 | zeros doubled, the delimiter behind, and the length |
| VarLenBytes.DecodeBytes | lib/var_len_encoding.cpp:27-50 | the bytes up to the delimiter and the length taken, or a read past the end |
| VarLenBytes.RoundTrip | lib/var_len_encoding.cpp:3-50 | whatever follows, decoding gives back the bytes and takes their number plus their zeros plus two |
| VarLenBytes.ZeroFreeIsItself | lib/var_len_encoding.cpp:3-25 | bytes without a zero go out as they are, with 0, 1 behind |
| VarLenBytes.ZeroIsDoubled | lib/var_len_encoding.cpp:3-25 | a zero goes out as 0, 0, with what is before and behind it coded each for itself |
| VarLenBytes.NeedlessEscape | lib/var_len_encoding.cpp:27-50 | an escape in front of a byte above 1 is read, and changes nothing but the length |
| VarLenBytes.PrefixFree | lib/var_len_encoding.cpp:3-50 | no encoding is the beginning of another: followed by anything, equal bytes mean equal contents |
| VarLenBytes.ReencodeNeverGrows | lib/var_len_encoding.cpp:27-50 | encoding what was decoded takes no more room, and as much only if the bytes are the same |
| VarNum.VarLenEncodeNum | lib/var_len_encoding.h:14-35 | seven bits in a byte, lowest first, for unsigned numbers of any width, and the length |
| VarNum.VarLenDecodeNum | lib/var_len_encoding.h:37-62 | for a 32-bit number: its value modulo 2^32 and the bytes taken, a read past the end, or a shift by more bits than there are |
| VarNum.DecodedIff | lib/var_len_encoding.h:37-62 | for all bytes: which of the first five ends the number, if any, and so which outcome there is |
| VarNum.NumRoundTrip | lib/var_len_encoding.h:14-62 | whatever follows, a number and its length are read back into 32 bits if and only if it has no more |
| VarNum.ReencodesIff | lib/var_len_encoding.h:37-62 | encoding what was decoded gives the same bytes if and only if they do not end in a needless zero and no bit was lost |
| PtpHeader.WriteHeader | src/protocols/ptp/ptp_header.cpp:97-111 | the header's image from the buffer's start, nothing behind it touched, or the throw at 256 actions with nothing written |
| PtpHeader.ExtractHeader | src/protocols/ptp/ptp_header.cpp:113-127 | the header and the bytes taken, the throw at an unknown tag, or a read past the end |
| PtpHeader.ActionRoundTrip | src/protocols/ptp/ptp_header.cpp:7-56 | each of the three kinds of action is read back, whatever follows, and exactly its bytes are taken |
| PtpHeader.OneHopOctets | src/protocols/ptp/ptp_header.cpp:7-111 | the bytes of a path of start, hop or switch, end, for all addresses without a zero |
| PtpHeader.UnknownTagThrows | src/protocols/ptp/ptp_header.cpp:31-56 | a tag other than the three throws, whatever was read before |
| PtpHeader.HeaderRoundTrip | src/protocols/ptp/ptp_header.cpp:97-127 | any header of fewer than 256 actions is read back and exactly its bytes are taken |
| PtpHeader.HeaderNeverGrows | src/protocols/ptp/ptp_header.cpp:97-127 | writing a header that was read takes no more room than it was read from |
| PtpNode.WritePacket | src/protocols/ptp/ptp_protocol.cpp:4-14 | header and payload, or the throw at 256 actions |
| PtpNode.PacketRoundTrip | src/protocols/ptp/ptp_protocol.cpp:94-105 | a packet splits back into the header and the payload it was written from |
| PtpNode.Node.SetRecvAccess | src/protocols/ptp/ptp_protocol.h:286-288 | the end listener is the one given, or none if that is null |
| PtpNode.Node.HandlePacket | src/protocols/ptp/ptp_protocol.h:179-258 | the actions are followed to the outcome the specification gives, and a packet goes to the end listener exactly at an end action |
| PtpNode.Node.HandleRecv | src/protocols/ptp/ptp_protocol.h:260-269 | a packet off the network: its hop count goes up by one modulo 256, then its actions are followed |
| PtpNode.DeliversIff | src/protocols/ptp/ptp_protocol.h:179-258 | a node delivers if and only if some end action at or after the current one has only starts and hops to this node before it, from the current one on, and then with the current action there; it crashes if and only if all actions left are such |
| PtpNode.ReceivedOfPacket | src/protocols/ptp/ptp_protocol.cpp:94-105 | a written packet received is its header with one hop more, followed from its current action, payload unchanged |
| PtpReply.CreateReverseActions | src/protocols/ptp/ptp_header.cpp:157-191 | the reversed path, or the throw at an endpoint that is neither start nor end |
| PtpReply.ReversedTwice | src/protocols/ptp/ptp_header.cpp:157-191 | reversing twice gives the path back |
| PtpReply.ReversedKeepsPaths | src/protocols/ptp/ptp_header.cpp:157-191 | a path runs from start to end, and its hops and its switches connect, if and only if the reversed one's do |
| PtpReply.SendOn | src/protocols/ptp/ptp_protocol.h:77-91 | the packet sent has the path, current action 1, one hop, and the payload |
| PtpReply.SendRouted | src/protocols/ptp/ptp_protocol.cpp:16-44 | a packet sent on a path of 2 to 255 actions goes out on the route to where the second one leads if that is a hop, and else is an error; the other paths throw or have no such action |
| PtpReply.GeneratorRecv | src/protocols/ptp/ptp_protocol.h:132-151 | payload and reversed path of a packet at its end, nothing for any other, or one of the throws |
| PtpReply.CrashesIff | src/protocols/ptp/ptp_protocol.h:132-151 | for a written packet: the generator looks at it if and only if its current action is the last and an end, and then the reversal throws if and only if some endpoint of the path is neither start nor end |
| PtpReply.RequestArrives | src/protocols/ptp/ptp_protocol.h:132-151 | a packet on a path of hops gets through exactly the nodes all hops lead to, and is accepted there after two hops with its payload and the reversed path |
| PtpReply.RequestReply | src/protocols/ptp/ptp_protocol.h:132-151 | on start, a to b, end the request reaches b and no other node, the reply on the generated path reaches a and no other, both payloads unchanged |
| SplitStr.SplitString | lib/split_str.cpp:3-16 | the tokens between the leftmost occurrences of the delimiter |
| SplitStr.JoinOfSplit | lib/split_str.cpp:3-16 | for every non-empty delimiter the tokens joined are the string, and none contains the delimiter |
| SplitStr.SplitOfJoin | lib/split_str.cpp:3-16 | tokens come back from their join if and only if in each but the last the delimiter first occurs right behind it, and in the last not at all |
| PtpText.AddrToStr | src/protocols/ptp/local_conn/ptp_addr.cpp:76-88 | octets in unpadded hexadecimal, dots between |
| PtpText.AddrTextGrows | src/protocols/ptp/local_conn/ptp_addr.cpp:76-88 | one octet more is a dot and the octet's digits more |
| PtpText.StoulReads | src/protocols/ptp/local_conn/ptp_addr.cpp:63-71 | what `stoul` makes of two characters: digits of either case, one digit only, a plus, a minus, a space |
| PtpText.StrToAddr | src/protocols/ptp/local_conn/ptp_addr.cpp:49-74 | two characters at a time as `stoul` reads them, dots between, or a rejection |
| PtpText.AddrReadIff | src/protocols/ptp/local_conn/ptp_addr.cpp:49-74 | for all strings: they are read as an address if and only if they are pairs of characters with dots between, each pair read as its octet, or empty |
| PtpText.StrToNetId | src/protocols/ptp/net_switch/ptp_net_id.cpp:24-47 | watched for any number of rounds but none, the loop is decided by its first: the empty id, a rejection, or no end |
| PtpText.NetIdDecided | src/protocols/ptp/net_switch/ptp_net_id.cpp:30-44 | what has not ended after one round ends after no number of rounds, and what has ended is the same for any more; only the empty string is read, those that begin with an octet are never done, and the rest is rejected |
| PtpText.ActionListToStr | src/protocols/ptp/ptp_header.cpp:130-141 | the actions' texts joined, or nothing if one has no text |
| PtpText.OneHopText | src/protocols/ptp/ptp_header.cpp:59-141 | the text of a path of start, hop or switch, end, for all addresses |
| PtpText.StrToActionList | src/protocols/ptp/ptp_header.cpp:143-154 | the actions read from the left, or a rejection at the first that is not read |
| PtpTextExact.AddrRoundTrip | src/protocols/ptp/local_conn/ptp_addr.cpp:49-88 | an address comes back from its text if every octet is at least 16, and is rejected otherwise |
| PtpTextExact.TextRoundTrip | src/protocols/ptp/ptp_header.cpp:130-154 | a list of actions comes back from its text if and only if it is not empty, its endpoints are starts and ends, its hops' octets are at least 16 and its switches name no network |
| PtpTextRead.ActionReadIff | src/protocols/ptp/ptp_header.cpp:74-94 | for all strings: which are read as an action, and as which one |
| PtpTextRead.ListReadIff | src/protocols/ptp/ptp_header.cpp:143-154 | for all strings: they are read as a list if and only if they are texts of its actions, joined by semicolons that cut them apart |
| PtpRouting.IsInsideSubnet | src/protocols/ptp/local_conn/ptp_addr.cpp:117-125 | whether the prefix is a proper prefix of the address |
| PtpRouting.RoutingTable.AddRoutingRule | src/protocols/ptp/local_conn/ptp_local_conn_routing_table.h:34-36 | the rule is last |
| PtpRouting.RoutingTable.SetDefaultGateway | src/abstract/routing/routing_table.h:23-25 | the default route is the new one |
| PtpRouting.RoutingTable.ImplFindRoute | src/protocols/ptp/local_conn/ptp_local_conn_routing_table.h:12-31 | the route of the earliest rule of greatest length among those that match, or none |
| PtpRouting.RoutingTable.FindRoute | src/abstract/routing/routing_table.h:28-33 | that route, or the default gateway if no rule matches or the route is null |
| PtpRouting.GatewayServes | src/abstract/routing/routing_table.h:28-33 | what is found is the rules' route, and the default gateway exactly where they give none |
| PtpRouting.SomeRuleWins | src/protocols/ptp/local_conn/ptp_local_conn_routing_table.h:12-31 | where a rule matches, one wins |
| PtpRouting.RouteIsUnique | src/protocols/ptp/local_conn/ptp_local_conn_routing_table.h:12-31 | the rules determine the route |
| PtpRouting.OrderlessIffConsistent | src/protocols/ptp/local_conn/ptp_local_conn_routing_table.h:12-36 | the route does not depend on the order of the rules if and only if rules of the same prefix have the same route |
| PtpRouting.SendData | src/protocols/ptp/ptp_protocol.cpp:32-44 | a packet goes out on the route to where its current hop leads, or an error comes back, or the current action is out of range |
| CircularQueue.Queue.PushBack | src/utils/circular_queue.h:78-84 | the contents as a deque grow at the back unless it is full |
| CircularQueue.Queue.PushFront | src/utils/circular_queue.h:86-93 | the contents grow at the front unless it is full |
| CircularQueue.Queue.PopFront | src/utils/circular_queue.h:59-65 | the contents shrink at the front unless it is empty |
| CircularQueue.Queue.PopBack | src/utils/circular_queue.h:67-72 | the contents shrink at the back unless it is empty |
| CircularQueue.Queue.Front | src/utils/circular_queue.h:29-41 | the first item, or none |
| CircularQueue.Queue.Rear | src/utils/circular_queue.h:44-56 | the last item, or none |
| CircularQueue.Queue.Clear | src/utils/circular_queue.h:74-76 | the contents are empty |
| CircularQueue.ModuloIsSlot | src/utils/circular_queue.h:81-89 | the modular index is the slot counted round the ring |
| AsyncListener.Listener.HandleRecv | src/abstract/receiving/async_recv_listener.h:75-81 | refines the receive step: dropped while the ring is full, else last in it |
| AsyncListener.Listener.WorkerTake | src/abstract/receiving/async_recv_listener.h:55-59 | refines the take step: the first item of the ring, or none |
| AsyncListener.Listener.WorkerForward | src/abstract/receiving/async_recv_listener.h:61-64 | refines the forward step: the item held goes to the listener that is set, if any |
| AsyncListener.Listener.SetRecvListener | src/abstract/receiving/async_recv_listener.h:31-36 | refines the step that sets a listener; a null one changes nothing |
| AsyncListener.Listener.RemoveRecvListener | src/abstract/receiving/async_recv_listener.h:38-41 | refines the step that removes the listener |
| AsyncListener.Listener.Destroy | src/abstract/receiving/async_recv_listener.h:69-73 | refines the step that sets the stop flag |
| AsyncListener.Listener.WorkerCheckStop | src/abstract/receiving/async_recv_listener.h:46-46 | refines the step at the loop's top: the worker ends if the flag is set |
| AsyncListener.Listener.WorkerWakeUp | src/abstract/receiving/async_recv_listener.h:47-52 | refines the step out of the wait: only with the flag set or something in the ring |
| AsyncListener.Listener.WorkerCheckAgain | src/abstract/receiving/async_recv_listener.h:53-53 | refines the second look at the flag |
| AsyncListener.StepKeepsInv | src/abstract/receiving/async_recv_listener.h:43-81 | every step of either thread keeps the invariant |
| AsyncListener.RunKeepsInv | src/abstract/receiving/async_recv_listener.h:43-81 | in every state of every interleaving the items accepted are those handed over, the one held and the ring's contents, in this order |
| AsyncListener.ReceivedIsMerge | src/abstract/receiving/async_recv_listener.h:43-81 | in every interleaving the items received are an order-preserving merge of those dropped, each while the ring was full, and those handed over, held or in the ring |
| AsyncListener.AtMostOneAfterStop | src/abstract/receiving/async_recv_listener.h:69-73 | once the stop flag is set at most one more item is handed over, as long as the object lives |
| AsyncListener.ArrivalIsReceived | src/abstract/receiving/async_recv_listener.h:75-81 | in every run an item that arrives while none is held is received, into the ring if and only if there is room |
| AsyncListener.ListenerIsLastSet | src/abstract/receiving/async_recv_listener.h:31-41 | in every run the listener is the one that the events set last and have not removed; setting null is nothing |
| AsyncListener.ForwardReachesListener | src/abstract/receiving/async_recv_listener.h:61-64 | in every run the item held is handed to that listener |
| AsyncListener.TurnsDrainRing | src/abstract/receiving/async_recv_listener.h:45-65 | k turns of a worker that is left alone hand over the first k items of the ring, in order, to the listener that is set |
| AsyncListener.StopEndsWorker | src/abstract/receiving/async_recv_listener.h:45-65 | wherever the worker is when told to stop, its next steps end it, and nothing starts it again |
| AsyncListener.NothingForwardedWithoutListener | src/abstract/receiving/async_recv_listener.h:61-64 | while no listener is set everything taken is let go |

## Left out

- Sockets, pcap, BPF, TUN/TAP, the virtual network, hardware queries, command lines and printing.
- The clocks: waiting in `front` and `rear`, the pauses and retries of the ping, ARP and DNS loops, and the processing of replies to a scan.
- AsyncListener.AtMostOneAfterStop: speaks of the time in which the object lives; only the destructor sets the flag, and when it returns the queue, the mutexes and the listener that the detached worker uses are gone.
- AsyncListener.Listener.Destroy: sets the flag; the notification, the detaching of the worker and the end of the members' life are not modelled.
- AsyncListener.RunKeepsInv: safety over every run only; that the worker wakes up is not claimed, because the source notifies without the mutex the worker waits on.
- The contents of SOA records, which the source builds from pointers into unrelated variables: the record is a parameter of `DnsTool.HandleQuery`, assumed nowhere but in `DnsTool.ReplyRoundTrip`, which asks that it be well formed.
- The reserved bit of the DNS header, neither written nor read by the source, and the two reply bits it never assigns, which are parameters of the reply.
- The text names of DNS record types and classes, `make_dns_query`, and the client's request loop: tables and fixed sequences of calls, about which there is no law to state.
- Parsing the database files, which is stream input.
- DnsDatabase.Database.AddRecordA: ASCII, non-empty names only, because the source indexes an array with a negative `char`, and uses the null pointer that adding the empty word returns.
- Freeing the nodes that are cut out of a trie, and the destructor.
- The trie's index function, taken as the identity on letters 0 to 127; what the walk does with a negative `char` is outside of the model, and preconditions keep the walk from getting to one. `count_children`, which is not defined in the source, is read as the field `child_count`.
- Children of a trie node, bits of a register and the fields of the multiplexer are sequences and maps that are reassigned, not arrays: the source never shares them.
- Multiplexer.Multiplexer.StreamArray: the value types of the positions are folded into one, and the stream number does not wrap at 64 bits.
- AsyncListener.Listener.HandleRecv: each lock-protected region is one atomic step, so interleavings within a region are not modelled.
- The UDP and Ethernet header codecs: fixed layouts whose fields do not depend on each other.
- Which replies the receiver of ARP packets passes on, one comparison of the operation.
- The text form of the network ids of a switch beyond what reading them does, which is to reject or never to end for every id but the empty one: `PtpText.NetIdDecided`.
- PtpReply.RequestArrives: a hop to another node is not forwarded, because the source does not forward it.
- The ordering of PTP and IPv4 addresses, and the text form of IPv4 addresses.
- VarNum.VarLenDecodeNum: the result is 32 bits wide and shifts mean what C++20 says; for wider types the source shifts an `int` too far.
- ArpScan.ScanRequests: masks of 1 to 31 bits, because with 0 the source's loop never ends (`ArpScan.ScanEndsIff`) and with 32 it reads a fifth octet.
- The EAP, EMP and NSP headers and `src/utils/udata.h`, which repeat the same escape coding.
- The older direct connections, VPN, onion, proxy, session and firewall code: thin wrappers, partly commented out or depending on headers that are missing.
