# Verified model of the tcpip stack's own logic

tcpip runs lwIP inside WebAssembly and wraps it in TypeScript: streams over TCP, a routing table,
interfaces with addresses, ping, router advertisements, packet codecs, a DHCP server and DNS
messages. This project models that logic in Dafny and proves properties of it over whole runs. lwIP,
the stream and timer machinery of the platform and I/O appear only as the contracts listed below.

`dafny verify dfyconfig.toml` checks everything.

Each part has the same shape. What an operation does to the state is a function on values; the
objects that the program changes in place are classes whose methods, with the program's loops, are
proved equal to those functions; runs are sequences of events, and the properties are proved of every
run.

| file | part of the program |
|---|---|
| `DhcpServer.dfy`, `DhcpHistory.dfy` | leases and offers of the DHCP server; what they say about its past |
| `TcpStream.dfy`, `TcpSend.dfy` | receive buffer and readable stream of a TCP connection; send loop and waiters |
| `Bits.dfy`, `Bytes.dfy`, `Text.dfy`, `Buffers.dfy`, `Options.dfy`, `Ipv4Numbers.dfy` | JavaScript's 32-bit operators, text, byte buffers |
| `Checksum.dfy` | the internet checksum |
| `Ipv4Text.dfy`, `Ipv6Text.dfy`, `Ip.dfy` | address text, masks, CIDR notation |
| `Ipv6Compressed.dfy`, `AddressTexts.dfy` | compressing IPv6 text that was not printed; which texts are addresses |
| `Routes.dfy` | the routing table |
| `Interfaces.dfy`, `ConnectedRoutes.dfy`, `Attaching.dfy`, `UserRoutes.dfy`, `NetworkStack.dfy` | interfaces, their addresses and connected routes; attaching; routes of users; the stack object |
| `Icmp.dfy`, `Transport.dfy`, `Ipv4Packets.dfy`, `MacAddresses.dfy`, `ArpMessages.dfy`, `Ethernet.dfy` | packet codecs |
| `WireFormats.dfy`, `DnsFormats.dfy` | the bytes that are written, one by one |
| `Accepted.dfy`, `DnsAccepted.dfy` | which bytes are accepted, and as what |
| `Reserialized.dfy`, `DnsReserialized.dfy` | which accepted packets and messages are written again as they were |
| `DnsText.dfy`, `DnsRecords.dfy`, `DnsHeaders.dfy`, `DnsMessages.dfy`, `DnsPtr.dfy` | DNS messages and reverse names |
| `Ping.dfy`, `PingOutcomes.dfy` | echo probes; how each one ends |
| `RouterAdvertisement.dfy` | router advertisements |

## What is assumed of the environment

- `Map` iteration visits entries in some order; nothing depends on which one.
- Streams follow the WHATWG standard: `enqueue` and `close` settle pending reads or queue, `desiredSize`
  is the high water mark less the queued bytes, and `pull` is called synchronously from inside
  `enqueue` while a pull is not running, otherwise once more after it. Microtasks run in order.
- lwIP's `send_tcp_chunk` queues a prefix of what it is passed and returns its length, and lwIP
  delivers no more bytes than its receive window of 5840 bytes (`TCP_WND` of `lwipopts.h`) allows. After
  it has reported the remote close of a connection it delivers nothing more for it.
- Sums of JavaScript numbers stay below 2^53, so that they are exact.
- A clock reading never lies before an earlier one. Every `Date.now()` in a DHCP handler is a reading
  of its own; the statements about progress that need all readings of one message to be equal say so
  (`Single`).
- Timers do not fire before their time; router advertisement timers may be served late.
- An interface object, once created, is never created again.
- `TextEncoder` and `TextDecoder` extend ASCII; nothing else of UTF-8 is used.

Addresses in the DHCP model are numbers; `Ipv4Text.NumberRoundTrip` shows that canonical text and
numbers stand for each other. Keys of address maps and of routes are parsed CIDR values;
`Ip.CidrTextInjective` shows that canonical texts are equal exactly when these are.

## Where the code does less than it is for

- An offer that is still live is refused when the client's own older lease on the address lapses
  between two clock readings of the same message; `DhcpServer.OffersHonoured` says that this is the
  only exception, and `DhcpServer.OfferRefusedWhenLeaseLapses` is a run in which it happens.
- `serializeIPv4Packet` leaves TCP options out of the length in the pseudo header, so that a segment
  with options never passes its receiver's checksum test (`Ipv4Packets.OptionsAreRefused`), and a packet
  longer than 65535 bytes wraps in its length field (`Ipv4Packets.LongEchoIsRefused`);
  `Ipv4Packets.RoundTripIff` says that these are the only exceptions for well-formed packets.
- `calculateChecksum` loses the bits of the sum above the 31st when a buffer is longer than 65536 bytes;
  `Checksum.ChecksumRightIff` says exactly when its result is still right, and `Checksum.LongSumIsWrong`
  is a buffer for which it is not.
- A checksum of zero is not accepted in its other form, so that a UDP datagram whose checksum is zero, and
  which RFC 768 has sent with 0xffff, is refused (`Accepted.OtherZeroIsRefused`, `Accepted.ZeroChecksumDatagram`);
  `Accepted.VerifiesIff` says that this is the only difference to the test of RFC 1071.
- `parseIPv4Packet` sums up 20 bytes of the header however long it is: a packet with options passes only if
  these add up to zero (`Accepted.HeaderOptionsIff`).
- Options of an IPv4 header, and the bits of a TCP header that the parser ignores, are not written again
  (`Reserialized.EcnIsLost`, `Reserialized.EcnPacketIsChanged`), nor is padding behind an ARP message
  (`Reserialized.PaddedFrameIsCut`); `Reserialized.PacketParsedSerializesIff` and
  `Reserialized.FrameParsedSerializesIff` say exactly which accepted packets and frames are reproduced.
- The same goes for the reserved bits of a DNS header and other irregular encodings
  (`DnsReserialized.ReservedBitIsLost`); `DnsReserialized.MessageParsedSerializesIff` says exactly which
  messages are reproduced.
- `compressIPv6` of a text that has its `::` already can give a text with two of them, which is not
  readable (`Ipv6Compressed.CompressingTwiceFails`); `Ipv6Compressed.CompressedReadsIff` says exactly
  when the address is kept.
- `tcpip_ra_set` leaves traces when it refuses a prefix midway: on the advertising interface the prefixes
  copied by then are advertised on the old schedule (`RouterAdvertisement.AdvertisedOnSchedule`,
  `RouterAdvertisement.RefusedSetIsAdvertised`), on another one it ends the advertising
  (`RouterAdvertisement.RefusedElsewhereStops`).
- Ping sessions draw their identifiers at random, and nothing keeps two sessions to one host from having
  the same: closing one then also rejects the other's probes (`Ping.CloseTakesAnothersProbe`).
  `Ping.ClosesOnlyOwnIff` says exactly when a close stays with its own.
- `attach` given a list of initial addresses counts an address twice when it is listed twice, and
  keeps an address without a route when a user route stands in its way;
  `ConnectedRoutes.AttachCountsIff` says exactly when its counts are right, `ConnectedRoutes.AttachedTwice`
  and `ConnectedRoutes.ObstructedAttach` are attaches after which they are not. The stack itself passes
  at most one address.
- `serializeName` cuts labels that are empty or longer than 255 characters;
  `DnsText.NameRoundTripIff` says exactly which names survive, `DnsText.EmptyLabelIsLost` and
  `DnsText.LongLabelIsLost` are two that do not.

## Model

| member | source | states |
|---|---|---|
| DhcpServer.StepKeepsConsistent | packages/dhcp/src/dhcp-server.ts:113-132 | every message of every kind, with any clock readings, keeps: no address is allocated to two clients, as lease or offer, and every allocated address is in the range |
| DhcpServer.ReachableConsistent | packages/dhcp/src/dhcp-server.ts:113-337 | so in every reachable state |
| DhcpServer.GiftIsUnowned | packages/dhcp/src/dhcp-server.ts:134-241 | whoever is offered or acknowledged an address, nobody else has a live claim to it |
| DhcpServer.LeaseSurvives | packages/dhcp/src/dhcp-server.ts:194-246 | an acknowledged lease stays in the table until its client gives it up or a later message is handled after it has run out |
| DhcpServer.ExclusiveGrants | packages/dhcp/src/dhcp-server.ts:134-246 | once an address is acknowledged to a client, no run gets another client an offer or acknowledgement of it, unless the first gave it up or its lease has run out |
| DhcpServer.AcknowledgedIff | packages/dhcp/src/dhcp-server.ts:194-241 | a request for an address is acknowledged exactly if the address is in range, nobody else holds it and the client's own entry does not lapse while the message is handled; otherwise it is refused |
| DhcpServer.OfferSurvives | packages/dhcp/src/dhcp-server.ts:170-174 | other clients' messages leave a pending offer alone until it expires |
| DhcpServer.OffersHonoured | packages/dhcp/src/dhcp-server.ts:134-241 | a client that was offered an address and asks for it within 60 s is acknowledged, whatever others did in between, exactly unless its own lease on it lapses midway; always with one reading per message |
| DhcpServer.OfferRefusedWhenLeaseLapses | packages/dhcp/src/dhcp-server.ts:317-327 | a run of four messages in which that exception happens |
| DhcpServer.DiscoverComplete | packages/dhcp/src/dhcp-server.ts:134-168 | with one clock reading per message, DISCOVER goes unanswered exactly if every address of the range is held by others; the client is offered its own live lease, else its own live offer, else the lowest address that nobody holds |
| DhcpServer.DiscoverAnswer | packages/dhcp/src/dhcp-server.ts:134-192 | with any clock readings, the same order: own lease if still valid when looked at, else own offer if still valid, else the lowest address that nobody held at the purge, and no answer exactly if there is none |
| DhcpServer.ReleaseAndDecline | packages/dhcp/src/dhcp-server.ts:243-279 | a release gives up exactly its client's allocations, a decline exactly its client's offer |
| DhcpServer.UndecidedMessages | packages/dhcp/src/dhcp-server.ts:194-279 | a request for another server is ignored and one without an address refused, with no trace but the purge; INFORM changes nothing and is answered to the address it names; every answer goes to its sender |
| DhcpHistory.LeaseStemsFrom | packages/dhcp/src/dhcp-server.ts:194-246 | in every reachable state a client has a lease exactly if an acknowledgement gave it, it expires the lease duration after that very acknowledgement, and since then none was acknowledged to it, it did not release and no purge found it expired |
| DhcpHistory.OfferStemsFrom | packages/dhcp/src/dhcp-server.ts:164-279 | so has it an offer exactly if a reply made it, it expires a minute after that, and since then none was made, given back, declined or decided on and no purge found it expired |
| DhcpHistory.LiveIffClaimed | packages/dhcp/src/dhcp-server.ts:113-337 | who holds an address, at any time from the last message on, can be read off the replies: an acknowledgement or offer that nothing ended and whose time is not over |
| DhcpHistory.AcknowledgedByHistory | packages/dhcp/src/dhcp-server.ts:194-241 | with one clock reading, a request is acknowledged exactly if the address is in range and no acknowledgement or offer of it to another client still stands, and else refused |
| DhcpHistory.DiscoverByHistory | packages/dhcp/src/dhcp-server.ts:134-192 | so is a client offered what its standing acknowledgement says, else its standing offer, else the lowest address that nobody claims |
| DhcpServer.AllocationsFitRange | packages/dhcp/src/dhcp-server.ts:72-73 | never do more clients hold an allocation than the range has addresses |
| DhcpServer.LowestFree | packages/dhcp/src/dhcp-server.ts:156-161 | the search gives the first unused address of the range, or nothing exactly if all are used, up to 255.255.255.255 |
| DhcpServer.Server.DeleteExpiredAllocations | packages/dhcp/src/dhcp-server.ts:325-337 | the loops remove exactly the entries that have expired |
| DhcpServer.Server.FindAvailableIP | packages/dhcp/src/dhcp-server.ts:134-162 | the loop over the range finds the address of the specification |
| DhcpServer.Server.CanUseRequestedIP | packages/dhcp/src/dhcp-server.ts:300-323 | the scan of leases before offers decides as specified |
| DhcpServer.Server.HandleDiscover | packages/dhcp/src/dhcp-server.ts:164-192 | the new maps and the reply are those of the specification |
| DhcpServer.Server.HandleRequest | packages/dhcp/src/dhcp-server.ts:194-241 | the new maps and the reply are those of the specification, which `DhcpHistory.LeaseStemsFrom` and `DhcpServer.AcknowledgedIff` characterize |
| DhcpServer.Server.HandleDhcpMessage | packages/dhcp/src/dhcp-server.ts:113-132 | each message is one step of the protocol and keeps the invariant |
| TcpStream.StepKeeps | packages/tcpip/src/bindings/tcp.ts:499-612 | every event, with pulls re-entering from inside enqueue, keeps order, conservation, credit and wake-up invariants |
| TcpStream.EnqueueBufferKeeps | packages/tcpip/src/bindings/tcp.ts:571-612 | one call, with all the calls nested in it, keeps the invariant and leaves neither a missed pull nor a missed close |
| TcpStream.Conservation | packages/tcpip/src/bindings/tcp.ts:499-612 | the chunks read, queued, held back and not yet handled are, in this order, exactly the chunks delivered, and the credit sent equals the bytes handed to the stream |
| TcpStream.EndMeansEverything | packages/tcpip/src/bindings/tcp.ts:549-577 | a reader that sees the end has read every byte of the run |
| TcpStream.WritableOpenUntil | packages/tcpip/src/bindings/tcp.ts:571-611 | in every run the writable side has been errored exactly if the remote side has closed and nothing is held back, so never before every byte was handed over |
| TcpStream.EveryReadCounts | packages/tcpip/src/bindings/tcp.ts:499-612 | in every run the reads that got a chunk, that got the end and that wait add up to the reads made, and one waits only while nothing is queued |
| TcpStream.ClosedForGood | packages/tcpip/src/bindings/tcp.ts:549-558 | through every run a closed readable stays closed and empty, hands out no bytes, and answers each further read with the end |
| TcpStream.NoStall | packages/tcpip/src/bindings/tcp.ts:514-527 | when everything has settled, bytes are held back only while the stream has as many as it wants, and the end never is |
| TcpStream.HandsOverWhatFits | packages/tcpip/src/bindings/tcp.ts:588-601 | a call that the stream wants leaves chunks behind only if the next one and those it sent credit for exceed what the stream still wants |
| TcpStream.BufferBound | packages/tcpip/src/bindings/tcp.ts:579-606 | with non-empty chunks and lwIP's window respected, every credit fits 16 bits and the stream queue stays below the high water mark plus the longest chunk |
| TcpStream.VirtualTcpConnection.EnqueueBufferNow | packages/tcpip/src/bindings/tcp.ts:571-612 | the loop, re-entered by pulls in its middle, does to the fields what the function does to the state, also to both sides of the stream |
| TcpStream.VirtualTcpConnection.EnqueueChunksNow | packages/tcpip/src/bindings/tcp.ts:588-601 | the loop alone, with its byte count |
| TcpStream.VirtualTcpConnection.ReadNow | packages/tcpip/src/bindings/tcp.ts:514-527 | a read takes the first chunk, closes a drained stream, or waits and may pull |
| TcpStream.VirtualTcpConnection.Handle | packages/tcpip/src/bindings/tcp.ts:499-527 | every event on the object is one step of the protocol |
| TcpSend.SettledOnceByFirst | packages/tcpip/src/bindings/tcp.ts:155-162 | each acknowledgement, close or connect waiter is settled exactly if a matching event follows, and by the first one: an event of its handle or the disposal |
| TcpSend.SettledWithIff | packages/tcpip/src/bindings/tcp.ts:136-347 | a send or close waiter is resolved with the length of the first acknowledgement of its handle, a connect waiter with the first connection of its handle, and each is rejected exactly if the disposal comes first |
| TcpSend.SettledForGood | packages/tcpip/src/bindings/tcp.ts:341-347 | no promise is settled twice: its outcome never changes |
| TcpSend.OnlyWaitersSettle | packages/tcpip/src/bindings/tcp.ts:136-162 | only promises that were waited for are ever settled |
| TcpSend.TcpBindings.SentTcpChunk | packages/tcpip/src/bindings/tcp.ts:341-347 | both waiter maps of the handle are emptied and exactly their waiters resolved with the length |
| TcpSend.TcpBindings.ConnectedTcpConnection | packages/tcpip/src/util.ts:101-114 | setting a key resolves exactly the listeners of that key |
| TcpSend.TcpBindings.Wait | packages/tcpip/src/util.ts:93-99 | a waiter is added to the set of its handle, unless the bindings are disposed |
| TcpSend.TcpBindings.DisposeAll | packages/tcpip/src/bindings/tcp.ts:136-144 | every remaining waiter of the three maps is rejected |
| TcpSend.SendBuffer.Send | packages/tcpip/src/bindings/tcp.ts:214-236 | what is queued is always a prefix of the data, as long as all the space offered, and on return all of it |
| TcpSend.CloseConnection | packages/tcpip/src/bindings/tcp.ts:164-178 | closing is retried exactly as long as lwIP is out of memory |
| Checksum.SumWords | packages/wire/src/util.ts:11-21 | the running sum is the sum of the 16-bit words, and for up to 65536 bytes it stays below 2^31 |
| Checksum.WordSumIs | packages/wire/src/util.ts:11-21 | what is summed: bytes at even places, the last one of an odd length among them, count 256 times, those at odd places once, those of the checksum field not at all |
| Checksum.OddIsPadded | packages/wire/src/util.ts:11-29 | a buffer of odd length has the checksum of the buffer with a zero behind it |
| Checksum.FoldIsOnesSum | packages/wire/src/util.ts:7-30 | summing first and folding afterwards is addition with end-around carry word by word, as section 1 of RFC 1071 defines it |
| Checksum.CalculateChecksum | packages/wire/src/util.ts:7-30 | for a buffer of any length folding with 32-bit shifts ends, and the result is that of the specification |
| Checksum.ChecksumIsComplement | packages/wire/src/util.ts:7-30 | which for up to 65536 bytes is the complement of the one's complement sum |
| Checksum.ChecksumRightIff | packages/wire/src/util.ts:23-29 | and for longer buffers exactly if what the shifts lose is a multiple of 65535 and zero keeps its form |
| Checksum.LongSumIsWrong | packages/wire/src/util.ts:11-26 | as it does not for 65538 bytes of 255 |
| Checksum.FoldOnceKeeps | packages/wire/src/util.ts:23-26 | a round of folding, on any sum, leaves 17 bits at most and keeps the folded value of its signed 32-bit form |
| Checksum.WrittenChecksumVerifies | packages/wire/src/util.ts:7-30 | a buffer of up to 65536 bytes sums to zero exactly if its field holds the checksum, or the other zero of one's complement |
| Text.ParseUint | packages/wire/src/util.ts:43-61 | accepts exactly the non-empty strings of decimal digits, and gives their number |
| Text.ParseHex | packages/wire/src/util.ts:74-97 | the shifts give the number of the hexadecimal digits, wrapped to a signed 32-bit integer, or an error |
| Ipv4Text.RoundTrip | packages/wire/src/ipv4.ts:221-260 | printed addresses are read back |
| Ipv4Text.SerializeIPv4Address | packages/wire/src/ipv4.ts:232-260 | the loop over the octets gives the four bytes or the error of the specification |
| Ipv4Text.NumberRoundTrip | packages/dhcp/src/util.ts:6-29 | canonical text and 32-bit numbers stand for each other up to 255.255.255.255, through signed shifts |
| Ipv6Text.RoundTrip | packages/wire/src/ipv6.ts:6-147 | reading the compressed text of any sixteen bytes gives them back |
| Ipv6Text.CompressIsRecommended | packages/wire/src/ipv6.ts:56-109 | compressed text is the form of sections 4.1 to 4.3 of RFC 5952: shortest lower-case groups, `::` for the chosen zero run if it has two groups or more |
| Ipv6Text.LongestRunIsFirst | packages/wire/src/ipv6.ts:69-86 | the chosen run is a longest one, the first on ties |
| Ipv6Text.ChosenOnce | packages/wire/src/ipv6.ts:69-86 | there is only one such run |
| Ipv6Text.CanonicalIffEqual | packages/tcpip/src/ip.ts:34-37 | canonical texts are equal exactly when the bytes are |
| Ipv6Text.ExpandedRoundTrip | packages/wire/src/ipv6.ts:114-147 | expanding a canonical text first does not change what it is read as |
| Ipv6Text.LongestZeroRun | packages/wire/src/ipv6.ts:69-86 | the counting loop finds the run of the specification |
| Ipv6Text.ReplaceRun | packages/wire/src/ipv6.ts:88-105 | splicing in place gives a list whose joined text is the groups before the run, `::`, and the groups behind it |
| Ipv6Text.CompressIPv6 | packages/wire/src/ipv6.ts:56-109 | the loops compute the compressed text |
| Ipv6Text.SerializeIPv6Address | packages/wire/src/ipv6.ts:21-51 | the loop fills sixteen bytes, or stops at the first bad group |
| Ipv6Compressed.CompressedReadsIff | packages/wire/src/ipv6.ts:56-147 | any readable text, compressed, is read as the same address exactly if the run that is cut out has all the empty groups between colons, or none is cut; otherwise the result is not readable |
| Ipv6Compressed.CompressingTwiceFails | packages/wire/src/ipv6.ts:56-109 | compressing the compressed text `1::2:0:0:3` gives such a result |
| Ip.MaskByteIsAnd | packages/tcpip/src/ip.ts:80-83 | the shifted mask clears exactly the low bits of a byte |
| Ip.MaskAddress | packages/tcpip/src/ip.ts:75-92 | the loop clears everything behind the prefix |
| Ip.MatchesByBytes | packages/tcpip/src/ip.ts:94-110 | comparing whole bytes and then the masked one agrees with equality of the masked addresses |
| Ip.PrefixMatches | packages/tcpip/src/ip.ts:94-110 | so does the loop |
| Ip.MaskIdempotent | packages/tcpip/src/ip.ts:75-92 | a network address is its own network address |
| Ip.MatchedNetworkUnique | packages/tcpip/src/ip.ts:94-110 | two networks of one length that match the same address are the same |
| Ip.FormatRoundTrip | packages/tcpip/src/ip.ts:26-37 | formatted addresses of both families are read back |
| AddressTexts.Ipv4ReadIff | packages/wire/src/ipv4.ts:232-260 | a text is read as an IPv4 address exactly if it is its four bytes as decimal numbers of one to three digits with dots between |
| AddressTexts.Ipv6ReadIff | packages/wire/src/ipv6.ts:21-51 | a text is read as an IPv6 address exactly if its groups of at most four digits, with `::` for the missing zeros, are its eight numbers |
| AddressTexts.CidrReadIff | packages/tcpip/src/ip.ts:39-73 | a text is read as a CIDR value exactly if it is an address, a slash and a decimal number of at most its bits; a route's needs clear host bits besides |
| Ip.CidrRoundTrip | packages/tcpip/src/ip.ts:39-73 | so is CIDR text; the text of a network passes as a route destination |
| Ip.CidrTextInjective | packages/tcpip/src/ip.ts:65-72 | CIDR texts are equal exactly when address and length are |
| Routes.LookupIsLongestPrefixMatch | packages/tcpip/src/routes.ts:70-121 | a lookup gives the one applying route of longest prefix, then least metric, then greatest age; nothing exactly if none applies; it is the first applying entry of the listing |
| Routes.LookupOnInterface | packages/tcpip/src/routes.ts:81-97 | a lookup on an interface is the lookup among the routes that lead to it |
| Routes.LookupAfterAdd | packages/tcpip/src/routes.ts:26-58 | an added route takes over exactly the lookups for which it applies and ranks before the old answer |
| Routes.LookupAfterRemoval | packages/tcpip/src/routes.ts:62-66 | disposing a handle or removing an interface changes only the lookups that its routes answered |
| Routes.LongestShareDestination | packages/tcpip/src/routes.ts:81-97 | all applying routes of the longest length have the same destination |
| Routes.ListIsTheSorting | packages/tcpip/src/routes.ts:70-75 | the listing has exactly the routes of the table and is their only sorted order |
| Routes.AddKeepsProper | packages/tcpip/src/routes.ts:26-68 | an added route is a network, differs from all others and is the youngest |
| Routes.FilterKeepsProper | packages/tcpip/src/routes.ts:62-66 | so does any removal |
| Routes.RouteTable.AddRoute | packages/tcpip/src/routes.ts:26-68 | host bits, bad metrics and duplicates are refused without change; else the route is appended and its handle returned |
| Routes.RouteTable.Dispose | packages/tcpip/src/routes.ts:62-66 | exactly the route of the handle goes |
| Routes.RouteTable.Remove | packages/tcpip/src/routes.ts:110-112 | exactly the routes of the interface go |
| Interfaces.StepKeepsOwned | packages/tcpip/src/stack.ts:155-237 | every operation, also a failing one, keeps: routes lead to listed interfaces, attached ones are listed, handles belong to the routes they were given for |
| Interfaces.LookupGivesOwned | packages/tcpip/src/stack.ts:84-86 | in every run no lookup gives an interface that is not listed |
| Interfaces.RemovedForGood | packages/tcpip/src/stack.ts:155-175 | once removed, an interface is never listed or routed to again |
| Interfaces.ListedUntil | packages/tcpip/src/stack.ts:155-237 | a new interface is listed from its registration exactly until it is removed or the stack is disposed |
| Interfaces.MtuSetIff | packages/tcpip/src/bindings/network-interface.ts:206-221 | an MTU is set exactly on an attached interface, from 68 to 65535, from 1280 with an IPv6 address, if lwIP accepts it; nothing else changes |
| Interfaces.MtuIsLastSet | packages/tcpip/src/bindings/network-interface.ts:206-221 | in every run the MTU is the one last set, or else that of the attach |
| Interfaces.DisposedForGood | packages/tcpip/src/stack.ts:213-237 | after dispose the route table is empty for good |
| ConnectedRoutes.StepAgreesIff | packages/tcpip/src/bindings/network-interface.ts:103-221 | each operation keeps counts, connected routes and limits in agreement, exactly unless it attaches an address whose route a user route obstructs |
| ConnectedRoutes.ObstructedAttach | packages/tcpip/src/bindings/network-interface.ts:103-132 | such an attach: in the run before it a user adds the route of the address's network, for every IPv4 address |
| ConnectedRoutes.CountsMatchRoutes | packages/tcpip/src/bindings/network-interface.ts:328-351 | in every run without such attaches a network's count is the number of addresses on it, the table holds one connected route to it exactly if that is positive; at most one IPv4 address; MTU at least 1280 with IPv6 |
| ConnectedRoutes.AttachCountsIff | packages/tcpip/src/bindings/network-interface.ts:103-132 | attaching a list of addresses leaves right counts exactly if none is listed twice and no user route is in the way |
| Attaching.AttachSucceedsIff | packages/tcpip/src/bindings/network-interface.ts:103-132 | attaching succeeds exactly on a listed interface that never was attached, with readable addresses and unobstructed routes; then it has these addresses and connected routes to their networks, and nothing else has changed |
| ConnectedRoutes.AttachedTwice | packages/tcpip/src/bindings/network-interface.ts:103-132 | listing an address twice, in any state, leaves wrong counts |
| ConnectedRoutes.AcquireSucceedsIff | packages/tcpip/src/bindings/network-interface.ts:328-341 | a connected route can be had exactly if the network has one or no user route is in the way |
| ConnectedRoutes.FailureChangesNothing | packages/tcpip/src/bindings/network-interface.ts:154-221 | an operation that throws changes nothing, but for an attach that fails on its address, which changes no route and no other interface |
| ConnectedRoutes.AddSucceedsIff | packages/tcpip/src/bindings/network-interface.ts:154-193 | adding an address succeeds exactly if it is there already, or fits the others, is accepted by lwIP and its route is not obstructed |
| ConnectedRoutes.AddressAdded | packages/tcpip/src/bindings/network-interface.ts:154-193 | then the interface has it and is connected to its network, and no other address, interface or route changes |
| ConnectedRoutes.AddressRemoved | packages/tcpip/src/bindings/network-interface.ts:195-204 | removing takes exactly the address, and the connected route exactly if no other address is on the network |
| ConnectedRoutes.RemovalIsLocal | packages/tcpip/src/stack.ts:155-175 | removing an interface takes its routes and state and leaves all others |
| ConnectedRoutes.RemoveUndoesAdd | packages/tcpip/src/bindings/network-interface.ts:154-204 | removing an address just added restores addresses, counts and routes |
| UserRoutes.UserRouteAdded | packages/tcpip/src/routes.ts:26-68 | adding a route succeeds exactly for a network, a safe metric and a listed interface, unless there is the same; it adds this route under a new handle and nothing else |
| UserRoutes.UserRouteDisposed | packages/tcpip/src/routes.ts:60-67 | disposing of a user's handle takes exactly its route out of the table and changes nothing else |
| UserRoutes.UserRouteStaysUntil | packages/tcpip/src/stack.ts:84-237 | in every run a user's route is in the table exactly until its handle is disposed of, its interface is removed or the stack is disposed |
| UserRoutes.DisposedForGood | packages/tcpip/src/routes.ts:60-121 | once a handle is disposed of, no lookup in any later run answers with its route |
| NetworkStack.Stack.AttachInterface | packages/tcpip/src/bindings/network-interface.ts:103-132 | the loop over the initial addresses does what the specification says, up to the first failure |
| NetworkStack.Stack.DisposeAll | packages/tcpip/src/bindings/network-interface.ts:147-149 | the loop of detach takes exactly the interface's connected routes out |
| NetworkStack.Stack.DetachInterface | packages/tcpip/src/bindings/network-interface.ts:134-152 | addresses, counts and connected routes of the interface go, and nothing else |
| NetworkStack.Stack.AddInterfaceAddress | packages/tcpip/src/bindings/network-interface.ts:154-193 | checks, route and address map, in the order of the program |
| NetworkStack.Stack.RemoveInterfaceAddress | packages/tcpip/src/bindings/network-interface.ts:195-204 | the address and its share of the route go |
| NetworkStack.Stack.SetInterfaceMtu | packages/tcpip/src/bindings/network-interface.ts:206-221 | the MTU is set unless out of bounds or too small for IPv6 |
| NetworkStack.Stack.RemoveNetworkInterface | packages/tcpip/src/stack.ts:155-175 | detaching comes first, then the routes, then the listing |
| NetworkStack.Stack.Terminate | packages/tcpip/src/stack.ts:213-237 | the loop over the interfaces, in any order, leaves no route |
| Icmp.TypesMatch | packages/wire/src/icmp.ts:60-88 | the type tables undo each other |
| Icmp.CodesMatch | packages/wire/src/icmp.ts:90-162 | the code tables undo each other for every type |
| Icmp.RoundTrip | packages/wire/src/icmp.ts:16-58 | the byte strings that parse are exactly the serialized well-formed messages |
| WireFormats.IcmpBytes | packages/wire/src/icmp.ts:43-162 | the written bytes are those of RFC 792: numbers of type and code, identifier, sequence number, payload, and all words add up to minus zero |
| Icmp.SerializeIcmpMessage | packages/wire/src/icmp.ts:43-58 | the buffer that is filled in place is that serialization |
| Transport.SealedVerifies | packages/wire/src/udp.ts:83-98 | a checksum over pseudo header and data verifies, whatever the field held before |
| Transport.UdpRoundTrip | packages/wire/src/udp.ts:18-106 | under any pseudo header the byte strings that parse are exactly the serialized well-formed datagrams |
| WireFormats.UdpBytes | packages/wire/src/udp.ts:66-106 | the written bytes are those of RFC 768: ports, length, payload, and with the pseudo header all words add up to minus zero |
| Transport.SerializeUdpDatagram | packages/wire/src/udp.ts:66-106 | the buffer that is filled in place is that serialization |
| Transport.FlagsParse | packages/wire/src/tcp.ts:118-126 | the six flags are read back from their byte |
| Transport.OffsetParses | packages/wire/src/tcp.ts:115-115 | so are data offset and reserved bits |
| Transport.TcpRoundTrip | packages/wire/src/tcp.ts:33-151 | under any pseudo header a segment with any legal options is read back |
| WireFormats.TcpBytes | packages/wire/src/tcp.ts:100-154 | the written bytes are those of RFC 9293: every field at its place, every flag at its bit, and with the pseudo header all words add up to minus zero |
| Accepted.SegmentAcceptedIff | packages/wire/src/tcp.ts:33-98 | a segment is accepted exactly if it has 20 bytes, the right checksum and claims a header of 20 bytes or more; its fields are then what its bytes say, also where the header is longer than the segment |
| Accepted.VerifiesIff | packages/wire/src/tcp.ts:45-60 | the test of a checksum is that all words add up to minus zero, but that it refuses the other zero |
| Accepted.OtherZeroIsRefused | packages/wire/src/udp.ts:27-38 | so a datagram whose checksum is zero, sent with 0xffff, is refused |
| Accepted.ZeroChecksumDatagram | packages/wire/src/udp.ts:27-38 | and there is one |
| Transport.SerializeTcpSegment | packages/wire/src/tcp.ts:100-154 | the buffer that is filled in place is that serialization |
| Ipv4Packets.RoundTripIff | packages/wire/src/ipv4.ts:66-216 | a well-formed packet passes every test and is read back, exactly unless it is longer than 65535 bytes or carries TCP options: then it is refused |
| Ipv4Packets.RightlySealedIsRead | packages/wire/src/ipv4.ts:66-159 | a packet with a segment whose checksum covers its true length, options and all, is accepted and read back |
| WireFormats.PacketBytes | packages/wire/src/ipv4.ts:164-216 | the written header is that of RFC 791, field by field; its words add up to minus zero and the payload is behind it |
| Accepted.PacketAcceptedIff | packages/wire/src/ipv4.ts:66-159 | a packet is accepted exactly if it has 20 bytes that check, gives its own length, and has behind its header an accepted message, segment or datagram; its fields are then what its bytes say |
| Accepted.HeaderOptionsIff | packages/wire/src/ipv4.ts:66-74 | a rightly summed header with options passes exactly if these add up to zero |
| Ipv4Packets.LongEchoIsRefused | packages/wire/src/ipv4.ts:76-90 | an echo request from any address is read back exactly up to 65507 bytes |
| Ipv4Packets.OptionsAreRefused | packages/wire/src/ipv4.ts:171-177 | a SYN with an option, from any address, is refused |
| Ipv4Packets.WrongLengthFails | packages/wire/src/tcp.ts:45-60 | a wrong length in the pseudo header is noticed |
| Ipv4Packets.SerializeIPv4Packet | packages/wire/src/ipv4.ts:164-216 | the buffer that is filled in place is the serialization |
| Ipv4Packets.SerializeIPv4PseudoHeader | packages/wire/src/ipv4.ts:330-350 | the pseudo header is source, destination, protocol and length |
| WireFormats.PseudoBytes | packages/wire/src/ipv4.ts:330-350 | byte by byte |
| WireFormats.Ipv4TextIs | packages/wire/src/ipv4.ts:221-227 | an address is printed as its four numbers in the order of its bytes |
| MacAddresses.MacRoundTrip | packages/wire/src/ethernet.ts:96-125 | printed MAC addresses are read back through `parseInt` |
| WireFormats.MacTextIs | packages/wire/src/ethernet.ts:96-108 | a MAC address is printed as two digits for each byte, in order, with colons between |
| ArpMessages.AcceptedIff | packages/wire/src/arp.ts:27-67 | the byte strings that parse are exactly those whose first 28 bytes, with 6 and 4 for the two lengths, are a serialized well-formed message |
| WireFormats.ArpBytes | packages/wire/src/arp.ts:52-67 | the written bytes are those of RFC 826, field by field |
| ArpMessages.ParsedSerializesIff | packages/wire/src/arp.ts:27-67 | they are written again as they were exactly if they have 28 bytes and those lengths |
| ArpMessages.SerializeArpMessage | packages/wire/src/arp.ts:52-67 | the buffer that is filled in place is that serialization |
| Ethernet.FrameRoundTripIff | packages/wire/src/ethernet.ts:36-91 | all layers together: a well-formed frame with a packet or an ARP message is read back, exactly unless its packet is too long or carries TCP options |
| WireFormats.FrameBytes | packages/wire/src/ethernet.ts:69-91 | the written bytes are destination, source, type and payload |
| Accepted.FrameAcceptedIff | packages/wire/src/ethernet.ts:36-64 | a frame is accepted exactly if it has 14 bytes and, as its type says, an accepted packet or ARP message behind them |
| Ethernet.SerializeEthernetFrame | packages/wire/src/ethernet.ts:69-91 | the buffer that is filled in place is the serialization |
| Reserialized.TcpParsedSerializesIff | packages/wire/src/tcp.ts:33-154 | the bytes of an accepted segment are written again as they were exactly if the bits that the parser ignores are clear and the header ends within the data |
| Reserialized.PacketParsedSerializesIff | packages/wire/src/ipv4.ts:66-216 | so are the bytes of an accepted packet, exactly if its header has no options and a TCP payload has none either and its ignored bits are clear |
| Reserialized.FrameParsedSerializesIff | packages/wire/src/ethernet.ts:36-91 | so are those of an accepted frame, exactly if its packet is or its ARP message has 28 bytes and the right lengths |
| Reserialized.EcnIsLost | packages/wire/src/tcp.ts:100-154 | a SYN with the bits for explicit congestion notification is accepted under any pseudo header, and written without them |
| Reserialized.EcnPacketIsChanged | packages/wire/src/ipv4.ts:66-216 | so is a whole packet with such a SYN |
| Reserialized.PaddedFrameIsCut | packages/wire/src/ethernet.ts:36-91 | every ARP frame that is padded to 60 bytes is read as the frame and written without its padding |
| DnsText.NameRoundTripIff | packages/dns/src/wire.ts:26-73 | an ASCII name is read back exactly if it is the root or its labels have 1 to 255 characters |
| DnsText.EmptyLabelIsLost | packages/dns/src/wire.ts:26-73 | a name with an empty label that is not |
| DnsText.LongLabelIsLost | packages/dns/src/wire.ts:26-73 | a name with a label of 256 characters that is not |
| DnsText.NameParses | packages/dns/src/wire.ts:26-48 | and reading goes on behind it |
| DnsText.TxtParses | packages/dns/src/wire.ts:211-267 | an ASCII value of any length, in character-strings of 255, is read back |
| DnsFormats.NameBytes | packages/dns/src/wire.ts:55-73 | a name is written as its labels one behind the other, each behind its length, and a zero |
| DnsFormats.TxtBytes | packages/dns/src/wire.ts:240-267 | a value is written in pieces of 255 characters, each behind its length |
| DnsText.ParseNameAt | packages/dns/src/wire.ts:26-48 | the loop over the labels |
| DnsText.SerializeNameBytes | packages/dns/src/wire.ts:55-73 | the loops that fill the buffer, which is large enough |
| DnsText.ParseTxtValue | packages/dns/src/wire.ts:211-233 | the loop over the character-strings |
| DnsText.SerializeTxtValue | packages/dns/src/wire.ts:240-267 | the loops that cut the value and write the parts |
| DnsRecords.TypesMatch | packages/dns/src/wire.ts:78-98 | type names and codes stand for each other |
| DnsRecords.QuestionParses | packages/dns/src/wire.ts:178-206 | a question is read back from where it stands |
| DnsRecords.RecordParses | packages/dns/src/wire.ts:272-360 | so is an A, AAAA, TXT or PTR record |
| DnsFormats.QuestionBytes | packages/dns/src/wire.ts:194-206 | a question is written as name, number of its type, and class 1 |
| DnsFormats.RecordBytesAre | packages/dns/src/wire.ts:314-360 | a record is written as name, number of its type, class 1, time to live, length and data in the form of its type |
| DnsAccepted.QuestionAcceptedIff | packages/dns/src/wire.ts:178-192 | a question is accepted exactly if its fixed bytes are there, its type is known and its class is IN |
| DnsAccepted.RecordAcceptedIff | packages/dns/src/wire.ts:272-312 | a record is accepted exactly if its fixed bytes are there, its class is IN, and it is A with four bytes, AAAA with sixteen, TXT or PTR; its fields are then what its bytes say |
| DnsHeaders.HeaderParses | packages/dns/src/wire.ts:365-418 | so is a header with all its flags and codes |
| DnsFormats.HeaderBytesAre | packages/dns/src/wire.ts:395-418 | a header is written as in section 4.1.1 of RFC 1035, every flag at its bit |
| DnsAccepted.HeaderAcceptedIff | packages/dns/src/wire.ts:365-393 | a header is accepted exactly if its codes are known; its fields are then what its bits say |
| DnsMessages.MessageRoundTrip | packages/dns/src/wire.ts:423-545 | a message with ASCII names, canonical addresses and TXT values that fit is read back with its counts filled in, whatever follows its bytes |
| DnsMessages.ParseDnsMessage | packages/dns/src/wire.ts:423-473 | the loops over the sections |
| DnsMessages.WriteParts | packages/dns/src/wire.ts:491-542 | adding up the sizes and writing part behind part gives all parts in order, and nothing is left over |
| DnsMessages.MessageObject.SerializeDnsMessage | packages/dns/src/wire.ts:478-545 | the bytes of the counted message, whose counts are set in the object of the caller, also on failure |
| DnsReserialized.NameExact | packages/dns/src/wire.ts:26-73 | an ASCII name stands as it is written exactly if its labels have no dots and end, with the root, within the data |
| DnsReserialized.TxtExact | packages/dns/src/wire.ts:211-267 | an ASCII value stands as it is written, under its length field, exactly if it is cut into pieces as long as possible |
| DnsReserialized.RecordExact | packages/dns/src/wire.ts:272-360 | a record does exactly if its name and data do and its length field is that of the data |
| DnsReserialized.MessageParsedSerializesIff | packages/dns/src/wire.ts:423-545 | an accepted message of such records is written again as it was exactly if its reserved bits are clear and nothing follows it |
| DnsReserialized.ReservedBitIsLost | packages/dns/src/wire.ts:365-418 | a query with a reserved bit set that is not |
| DnsPtr.PtrRoundTripV4 | packages/dns/src/util.ts:28-92 | the reverse name of a printed IPv4 address stands for it |
| DnsPtr.PtrRoundTripV6 | packages/dns/src/util.ts:28-92 | the reverse name of a canonical IPv6 address stands for it |
| DnsFormats.PtrNameV4Is | packages/dns/src/util.ts:28-60 | the reverse name of an IPv4 address has its four numbers in reverse order |
| DnsFormats.PtrNameV6Is | packages/dns/src/util.ts:28-60 | that of an IPv6 address has its 32 digits in reverse order |
| Ping.KeyTextInjective | packages/tcpip/src/bindings/icmp.ts:263-265 | key texts are equal exactly if host, identifier and number are, also for IPv6 hosts |
| Ping.StepKeeps | packages/tcpip/src/bindings/icmp.ts:88-227 | every event keeps: timers and entries match, and each probe waits, has its reply queued or has been settled once |
| Ping.TimerRunsIffPending | packages/tcpip/src/bindings/icmp.ts:175-189 | in every run a timer runs exactly for the probes with an entry |
| Ping.SettledOnce | packages/tcpip/src/bindings/icmp.ts:88-227 | in every run a probe is settled at most once, and has been exactly if it neither waits nor has its reply queued |
| Ping.OutcomeIsFinal | packages/tcpip/src/bindings/icmp.ts:88-227 | what it was settled with never changes |
| PingOutcomes.SettledIff | packages/tcpip/src/bindings/icmp.ts:88-226 | in every run a probe is fulfilled exactly if the microtask of its reply runs before dispose, times out exactly if its timer runs out while it waits, fails exactly if it cannot be sent, and is rejected exactly by a close of its host and identifier while it waits or by dispose |
| PingOutcomes.RepliedOnlyByOwn | packages/tcpip/src/bindings/icmp.ts:99-136 | a fulfilled probe was made by a call with some key and payload, and answered while it waited by a reply with this very key and payload |
| PingOutcomes.OtherRepliesChangeNothing | packages/tcpip/src/bindings/icmp.ts:115-119 | a reply with a key or payload that nobody waits for changes nothing |
| PingOutcomes.ClosedIff | packages/tcpip/src/bindings/icmp.ts:299-338 | in every run a session keeps host and identifier and is closed exactly once `close` was called |
| PingOutcomes.ClosedSessionIsSilent | packages/tcpip/src/bindings/icmp.ts:314-331 | from then on its calls change nothing |
| PingOutcomes.NothingMadeAfterDispose | packages/tcpip/src/bindings/icmp.ts:88-165 | after dispose no session and no probe is made |
| PingOutcomes.LongestPayload | packages/tcpip/src/bindings/icmp.ts:272-276 | a payload is short enough exactly if its echo request fits an IPv4 packet |
| Ping.TimeoutTakesOwnEntry | packages/tcpip/src/bindings/icmp.ts:175-178 | a timer deletes the entry of its own probe and no other, so not that of a later probe with the same number |
| Ping.AcceptedProbeWaits | packages/tcpip/src/bindings/icmp.ts:160-213 | a probe that is not refused waits under its key with a timer of its own; no other is touched |
| Ping.ReplyReachesProbe | packages/tcpip/src/bindings/icmp.ts:99-136 | a matching reply frees the key, cancels the timer and fulfils the probe once the queued microtasks have run |
| Ping.CloseSettlesIff | packages/tcpip/src/bindings/icmp.ts:215-226 | in every run closing an open session rejects a waiting probe exactly if the session that made it has the same host and identifier; any other stays as it was |
| Ping.ClosesOnlyOwnIff | packages/tcpip/src/bindings/icmp.ts:215-226 | so it rejects only its own probes exactly if no other session of that host and identifier waits for one |
| Ping.CloseTakesAnothersProbe | packages/tcpip/src/bindings/icmp.ts:257-261 | a run of four calls, with two sessions that drew the same identifier, in which it rejects another's |
| Ping.DisposedForGood | packages/tcpip/src/bindings/icmp.ts:88-96 | from dispose on no probe waits and no timer runs; only queued replies are left to settle |
| Ping.NumbersCount | packages/tcpip/src/bindings/icmp.ts:333-337 | sequence numbers count the calls modulo 65536 |
| Ping.IcmpBindings.SendProbe | packages/tcpip/src/bindings/icmp.ts:160-213 | a probe is refused, fails at once and is taken back, or waits with a timer |
| Ping.IcmpBindings.ReceiveEchoReply | packages/tcpip/src/bindings/icmp.ts:99-136 | only the entry of the same key and payload is taken |
| Ping.IcmpBindings.PayloadEquals | packages/tcpip/src/bindings/icmp.ts:279-291 | the loop decides equality |
| Ping.IcmpBindings.CloseHook | packages/tcpip/src/bindings/icmp.ts:215-226 | exactly the entries of the session are rejected and deleted |
| Ping.IcmpBindings.DisposeBindings | packages/tcpip/src/bindings/icmp.ts:88-96 | every entry is rejected |
| Ping.VirtualPingSession.PingHost | packages/tcpip/src/bindings/icmp.ts:314-322 | a call takes the next number, unless the session is closed |
| RouterAdvertisement.OneTimerInEveryRun | packages/tcpip/wasm/ipv6_helpers.c:106-174 | in every run exactly one timer is armed if an interface advertises, and none otherwise |
| RouterAdvertisement.AdvertisedOnSchedule | packages/tcpip/wasm/ipv6_helpers.c:106-174 | after each accepted set, until the next one, the stop of the interface or a set of prefixes for another: gaps of 2 s, 2 s, then 600 s; the first three times, and to solicitations before the third, all prefixes in force are sent, later those not for the start only, and nothing else is; where sending is not possible that turn is left out; sets refused midway put the prefixes they have copied in force |
| RouterAdvertisement.RefusedSetIsAdvertised | packages/tcpip/wasm/ipv6_helpers.c:150-156 | a run of three events in which a prefix of a refused set is advertised |
| RouterAdvertisement.RefusedElsewhereStops | packages/tcpip/wasm/ipv6_helpers.c:149-156 | a set that is refused midway on another interface leaves no timer armed, and nothing is sent until a set is accepted |
| RouterAdvertisement.SetAcceptedIff | packages/tcpip/wasm/ipv6_helpers.c:133-158 | a set is accepted exactly for 1 to 8 prefixes with preferred lifetime at most the valid one |
| RouterAdvertisement.SetAnswers | packages/tcpip/wasm/ipv6_helpers.c:120-158 | which sets are refused and which of these change nothing; a set without prefixes stops the advertising of its interface and leaves any other alone |
| RouterAdvertisement.SilentUntilSet | packages/tcpip/wasm/ipv6_helpers.c:106-131 | while no interface advertises nothing is sent |
| RouterAdvertisement.RouterAdvertiser.TcpipRaSet | packages/tcpip/wasm/ipv6_helpers.c:133-174 | the globals change as specified, also where it gives up midway |
| RouterAdvertisement.RouterAdvertiser.RaTimer | packages/tcpip/wasm/ipv6_helpers.c:106-118 | the timer sends, counts down and arms itself again |
| RouterAdvertisement.RouterAdvertiser.SendRa | packages/tcpip/wasm/ipv6_helpers.c:36-104 | the loops over the prefixes pick those to advertise; nothing is sent without one |
| RouterAdvertisement.RouterAdvertiser.RaStop | packages/tcpip/wasm/ipv6_helpers.c:120-131 | the timer is cancelled and the globals are cleared |

## Left out

- lwIP, WebAssembly memory, WASI, hooks and pointers: foreign code; only the contracts above are used.
- HTTP, the v86 adapter, DNS sockets, file loading and stream utilities: wiring around I/O.
- MAC generation, `generateNetmask` and `getPrefixLength` are not modelled.
- DHCP messages as bytes: the server is modelled from parsed messages to replies; option parsing and writing are not part of this model.
- TCP connections closed or disposed locally, cancelled readers, and of the writable side of the stream all but the send loop and when the remote close errors it.
- `send_tcp_chunk` reporting less than it queued when `tcp_output` fails.
- `setRouterAdvertisements` of the interface object: its checks of prefixes and lifetimes; the C function behind it is modelled.
- Clocks that run backwards, and changes to the public `leases` map from outside.
- User routes that are marked as connected by their user.
- A `ReadableStream` with more than one reader at a time.
- Text outside ASCII: lower-casing of IPv6 text, DNS labels and TXT values; white space other than ASCII before the digits of a MAC address, and MAC segments of more than 13 digits.
- DNS messages that are views into a larger buffer.
- DnsReserialized.MessageParsedSerializesIff: stated for messages whose names and TXT values are ASCII bytes, as nothing is known of how others are decoded.
- TcpSend.SendBuffer.Send: one call of `send` by itself; calls on the same connection are not interleaved.
- DhcpServer.OffersHonoured: stated for requests addressed to this server or to none.
- Routes.RouteTable.AddRoute: takes the parsed destination; reading its text is `Ip.ParseInterfaceCidr` and part of `NetworkStack.Stack.AddRoute`.
- Re-entry of lwIP callbacks from inside a foreign call, for the ping bindings: a reply is never received while its request is being sent.
- Interface identity: interfaces are numbers, and two stacks do not share one.
