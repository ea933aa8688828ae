# Verified model of netlink_exporter

`netlink_exporter` turns octets from the kernel into metric samples and prints them as one text body for Prometheus. This
project models that path in Dafny and proves what it keeps.

* **Bytes, Wire** - integers of the wire formats, the aligned attribute iterator, `push_nla`, trees of nested attributes.
* **Framing, Dump, Sockets** - the netlink message framer (section 2.3.2 of RFC 3549) walking a receive buffer, the dump with
  its single overflow retry, the restart loops, single requests. The kernel is an arbitrary list of events: a datagram, an
  overflow, another error. Guarantees speak of what was received since the last send, because no reader checks sequence numbers.
* **DropMonitor, Conntrack, Nftables, Ipvs, PeerId, Wireguard, Tc, SockDiag** - the collectors that parse, accumulate,
  aggregate or hash: each imperative parser is proved equal to what its attribute list says, and encoders are inverted.
* **Text, Registry, Exposition, KeyText, Series** - the text encoder, a reader of format 0.0.4, what a series key says of its
  labels, and when two samples are one series.
* **Scrape, ScrapeReading, Snapshot, HttpServer** - collector isolation and error totals over many scrapes and in the bodies
  they store, interleaved requests that share one snapshot, the chunked header reader, the accept pauses.
* **Netstat** - the paired-line parser of `/proc/net/snmp` and `/proc/net/netstat`.

Loops of the source are loops here, objects with updated fields are classes, and every method is proved against a
specification function whose own properties are proved as lemmas. What layouts, codes, labels and orders mean is stated once
more in literal octets, numbers and texts, apart from the functions that read them (`ErrorCode`, `MsgInOctets`,
`AttrInOctets`, `RequestInOctets`, `FrameInOctets`, `BlockInText` and their like). Hosts are little-endian. Additions that the
release build lets wrap are written out modulo 2^64. Lemmas switch Dafny's automatic induction off, so every induction is
spelled out.

## Where the code and its documentation differ

The model follows the code.

* `crates/nlx-netlink/src/transport.rs:353` logs an overrun message as "treat as ENOBUFS", but it ends the dump without a retry.
* `crates/nlx-metrics/src/registry.rs:124-125` says label sets are sorted within a group; they stand in first-occurrence order.
* `crates/nlx-metrics/src/registry.rs:134-135` says the guard makes the body always valid; `CoincideIff` says exactly when it
  does not.
* `crates/nlx-netlink/src/collectors/wireguard.rs:477` speaks of SHA-256; the identifier is the 64-bit FNV-1a hash.
* `crates/nlx-procfs/src/netstat.rs:104` says unpaired lines are skipped; `OrphanIsHarmlessIff` says when one swallows a block.
* A dump that fails after growing the receive buffer leaves the recorded size one doubling behind the kernel's; the exact
  condition is `RecordedFallsBehindIff`.
* With one constant, the loops that test it before counting (`nft_dump`, `dump_flows`, `dump_expectations_raw`) make nine
  attempts, those that count first or count attempts make eight.
* A retry may return what an interrupted answer left in the socket instead of its own answer (`RetryReadsLeftovers`).

Promises that hold only under a condition are stated with that condition as an if-and-only-if: the 16-bit attribute length
(`PushNlaSurvivesIff`), a failing reply to a single request cut into datagrams (`SingleFailingIff`), the order of conntrack
attributes (`StatusMattersIff`), the IPVS protocol names and numbers, the zero mark and the address family (`V4Survives`,
`ProtocolSurvivesIff`, `MarkSurvivesIff`, `FamilySurvivesIff`), leftovers of an interrupted dump (`LeftoversHarmlessIff`),
octets that are no text (`LosslessIff`), rules with one comment (`RuleLineDroppedIff`), separators inside label values
(`KeysEqualIff`, `KeptAreFirstsIff`), control characters in label values (`CoincideIff`), unknown socket states
(`LabelsCoincideIff`), read boundaries beyond the header cap and behind the headers (`AcceptedIff`,
`ChunkingDoesNotMatterIff`), orphaned headers (`OrphanIsHarmlessIff`, `OrphanInFileIff`).

## Model

| member | source | states |
|---|---|---|
| Bytes.IntegerRoundTrip | crates/nlx-netlink/src/wire.rs:163-220 | little- and big-endian encodings lose nothing on any integer that fits n octets |
| Bytes.ReadersInvertWriters | crates/nlx-netlink/src/wire.rs:157-220 | a reader of n octets sees the value written at the front of a payload, whatever follows; shorter payloads give None |
| Bytes.OctetWeights | crates/nlx-netlink/src/wire.rs:157-220 | the weights of the octets of 16- and 32-bit integers, in both orders |
| Bytes.BitAmongOthers | crates/nlx-netlink/src/transport.rs:340-343 | a flag is found whatever bits stand above and below it, and not found without its bit |
| Wire.NlaIter.Next | crates/nlx-netlink/src/wire.rs:66-98 | one step yields exactly the head of the attribute list and leaves the rest; None exactly when no attribute starts; every yield shrinks the buffer |
| Wire.Collect | crates/nlx-netlink/src/wire.rs:66-150 | draining the iterator gives the whole attribute list, so the collectors' loops may be read as loops over it |
| Wire.PushNla | crates/nlx-netlink/src/collectors/drop_monitor.rs:329-336 | appends exactly one encoded attribute, the length cast to 16 bits, with zero padding to four octets |
| Wire.AttrsOfEncoded | crates/nlx-netlink/src/wire.rs:66-98 | what `push_nla` wrote is read back with its flag bits cleared and no padding in the payload, then whatever follows |
| Wire.AttrInOctets | crates/nlx-netlink/src/wire.rs:66-98 | an attribute octet by octet: length and type least significant octet first, the three upper type bits ignored, padding skipped |
| Wire.NoAttrsIff | crates/nlx-netlink/src/wire.rs:66-80 | nothing is read exactly when no header is left, or its length is below four or beyond the end |
| Wire.PushNlaSurvivesIff | crates/nlx-netlink/src/collectors/drop_monitor.rs:329-336 | a written attribute reads back exactly when header and payload fit 16 bits |
| Wire.AttrTypesMasked | crates/nlx-netlink/src/wire.rs:81-84 | every yielded type is below 2^13: bit 13 is lost with the two flag bits |
| Wire.TreeRoundTrip | crates/nlx-netlink/src/wire.rs:66-150 | a forest of nested attributes of any depth and shape comes back with the same types, payloads and order |
| Wire.LastMeans | crates/nlx-netlink/src/collectors/ipvs.rs:448-476 | "assign on every match" keeps the last attribute of a type, and None exactly when there is none |
| Wire.InnerWeight | crates/nlx-netlink/src/wire.rs:147-149 | descending into containers never gains octets |
| Framing.InterpretAppend | crates/nlx-netlink/src/transport.rs:317-382 | interpretation runs on over a concatenation of messages exactly when the first part did not end it |
| Framing.Dispatch | crates/nlx-netlink/src/transport.rs:339-376 | one message pushes its payload, skips, or ends the parse, in the order the checks stand: interrupted, NOOP, DONE, OVERRUN, ERROR |
| Framing.MessageMeans | crates/nlx-netlink/src/transport.rs:339-376 | a parse ends well exactly at type 3, or at type 2 with four zero octets in front; it goes on exactly after type 1 and the types that are data; type 4 is an overflow, and a set interrupt bit comes before all of that |
| Framing.ErrorCode | crates/nlx-netlink/src/transport.rs:355-372 | an error message with code e, negated as the kernel sends it, ends the parse with exactly that error, and only code 0 is an acknowledgement |
| Framing.ParseDatagram | crates/nlx-netlink/src/transport.rs:317-382 | the in-place walk equals framing everything first and interpreting the list: same payloads pushed, same verdict, malformed tail only when nothing ended before it |
| Framing.FramePacked | crates/nlx-netlink/src/transport.rs:317-382 | messages packed back to back, aligned, the last one padded or bare, are framed as the same list, whatever their sequence numbers |
| Framing.MsgInOctets | crates/nlx-netlink/src/transport.rs:321-378 | a message octet by octet: length, type and flags least significant octet first, the sequence number and port ignored, padding skipped |
| Framing.FramingStops | crates/nlx-netlink/src/transport.rs:321-337 | framing stops without a whole header, at a length below 16, which is an error, and at one beyond the end, which is not |
| Framing.BuildRequest | crates/nlx-netlink/src/transport.rs:292-305 | the built octets are one bare message with the request bit set and the next sequence number, and the counter steps modulo 2^32 |
| Framing.RequestReadsBack | crates/nlx-netlink/src/transport.rs:292-305 | the framer reads a built request as the one message asked for, no other flag changed |
| Dump.ReceiveLoop | crates/nlx-netlink/src/transport.rs:733-762 | the receive loop over one reused 32 KiB buffer takes exactly the events of the recursive specification and gives its result |
| Dump.ReceiveShape | crates/nlx-netlink/src/transport.rs:733-762 | an attempt takes datagrams, and an event of another kind only as its last |
| Dump.LongDatagramIsCut | crates/nlx-netlink/src/transport.rs:733-762 | what a datagram holds beyond 32 KiB is not received |
| Dump.ReceiveRefinesList | crates/nlx-netlink/src/transport.rs:733-762 | for every trace the receive loop refines the list specification: lay out all messages, then read off the answer |
| Dump.PackingDoesNotMatter | crates/nlx-netlink/src/transport.rs:733-762 | however well-formed messages are packed into datagrams of at most 32 KiB, the answer is that of the message list |
| Dump.CompleteIff | crates/nlx-netlink/src/transport.rs:317-382 | an attempt is complete exactly when some message is of type 3, or of type 2 with code zero, and every one before it is of type 1 or data, none interrupted; and it holds exactly the data payloads before it |
| Dump.BlockingDump | crates/nlx-netlink/src/transport.rs:712-764 | send, receive, grow once and resend: result and every call on the kernel equal the specification |
| Dump.SingleSendSafe | crates/nlx-netlink/src/transport.rs:712-764 | a dump that does not resend consumes only datagrams but for its last event, and an Ok result is held by what it received |
| Dump.SecondSendSafe | crates/nlx-netlink/src/transport.rs:740-755 | the second attempt starts right behind the overflow that ended the first |
| Dump.DumpSafety | crates/nlx-netlink/src/transport.rs:712-764 | over every trace a dump sends the same octets once or twice, again only after an overflow, and an Ok result holds exactly the data payloads received since the last send up to a clean end |
| Sockets.RefusedDump | crates/nlx-netlink/src/transport.rs:712-764 | a dump the kernel refuses with code e fails with exactly that error after one send, whatever data came before and whatever comes later |
| Sockets.CleanDump | crates/nlx-netlink/src/transport.rs:712-764 | a complete answer, in any packing, is the outcome after one send, at the size as it was |
| Sockets.OverflowThenClean | crates/nlx-netlink/src/transport.rs:735-755 | after an overflow everything received is forgotten, the buffer doubles up to 16 MiB, the request is sent again, and the outcome is the answer behind the overflow alone |
| Sockets.OverflowTwice | crates/nlx-netlink/src/transport.rs:735-755 | a second overflow is reported as one, after two sends |
| Sockets.BrokenDump | crates/nlx-netlink/src/transport.rs:733-762 | a failing receive or a datagram with an impossible length ends the dump with that error |
| Sockets.DumpKeepsSizes | crates/nlx-netlink/src/transport.rs:735-752 | a dump keeps recorded and kernel sizes in step or one doubling apart, shrinks neither, doubles at most once; at 16 MiB the first overflow is reported without a resend |
| Sockets.RecordedFallsBehindIff | crates/nlx-netlink/src/transport.rs:398-426 | from equal sizes a dump leaves the recorded size behind the kernel's exactly when the request was sent, the first attempt overflowed, there was room to double, growing succeeded, and then the second send failed or what was left of the trace did not complete |
| Sockets.RecordedFallsBehind | crates/nlx-netlink/src/transport.rs:735-752 | it happens: an overflow and then a receive error leave 4 MiB recorded where the kernel has 8 MiB |
| Sockets.SizesOverRuns | crates/nlx-netlink/src/transport.rs:398-426 | over any run of dumps the recorded size is 4, 8 or 16 MiB, never shrinks, and grows exactly as often as headroom was used: at most twice |
| Sockets.RestartSafety | crates/nlx-netlink/src/collectors/nftables.rs:308-328 | a restart loop of n dumps, eight or nine in the collectors, sends between once and 2n times, its Ok result was received since its last send, and it gives up as interrupted only after n interrupted dumps |
| Sockets.RetryReadsLeftovers | crates/nlx-netlink/src/collectors/nftables.rs:308-328 | received since its last send, but not always in answer to it: a retry first reads what the interrupted answer left in the socket; complete leftovers are its result, failing ones its failure, and only leftovers without payload and end leave it what comes later |
| Sockets.LeftoversHarmlessIff | crates/nlx-netlink/src/transport.rs:733-762 | an attempt answers as if leftover packets had not been there, whatever comes later, exactly when they hold no data payload and no end |
| Sockets.NetlinkSocket.Dump | crates/nlx-netlink/src/transport.rs:398-426 | a dump updates the recorded size only on success and takes one sequence number |
| Sockets.RequestInOctets | crates/nlx-netlink/src/transport.rs:292-305 | a dump request octet by octet: length, type, flags 0x301, sequence number, no port, payload |
| Sockets.DumpFlagsMean | crates/nlx-netlink/src/transport.rs:398-408 | the two dump bits are set and no other flag is touched |
| Sockets.NetlinkSocket.NftDump | crates/nlx-netlink/src/collectors/nftables.rs:308-328 | nine dumps at most, so at most 18 sends; the result is that of the restart specification and held since the last send |
| Sockets.NetlinkSocket.DumpWithRetries | crates/nlx-netlink/src/collectors/tc.rs:86-106 | eight dumps at most, so at most 16 sends; same specification |
| Sockets.NetlinkSocket.DumpOneFamily | crates/nlx-netlink/src/collectors/sockdiag.rs:396-425 | the counted form of the loop equals the eight-dump restart specification |
| Sockets.BlockingRequestSingle | crates/nlx-netlink/src/transport.rs:798-832 | one send, then the first datagram with a frame or an end decides |
| Sockets.SingleReplyIgnoresPacking | crates/nlx-netlink/src/transport.rs:798-832 | when no message of the reply fails, packing does not matter to a single request: the first data payload, or None |
| Sockets.SingleFailingIff | crates/nlx-netlink/src/transport.rs:798-832 | when some message fails, the first data payload is the answer exactly when some whole datagrams in front hold a payload and end nothing; otherwise the answer is the failure |
| Sockets.SinglePackingMattersIff | crates/nlx-netlink/src/transport.rs:798-832 | a failing reply that fits one datagram is answered differently when each message comes alone exactly when a data payload stands in front of the failure |
| Sockets.SingleBreaks | crates/nlx-netlink/src/transport.rs:798-832 | behind datagrams without payload and end, an overflow or a failing receive is the answer |
| Sockets.BuildFamilyRequest | crates/nlx-netlink/src/transport.rs:473-486 | the family request is one NUL-terminated name attribute behind the generic header |
| Sockets.ReadFamilyReply | crates/nlx-netlink/src/transport.rs:488-518 | ENOENT means not loaded, the first id attribute decides, anything short of an id is an error |
| Sockets.FamilyReadsBack | crates/nlx-netlink/src/transport.rs:488-518 | a controller's reply with the name in front gives the id it carries |
| DropMonitor.ParseSummaryAlert | crates/nlx-netlink/src/collectors/drop_monitor.rs:537-576 | software total: counts of the first min(entries, (len-4)/12) points of every point list; hardware total: trap counts through two nesting levels; each saturated |
| DropMonitor.AlertTotalsExact | crates/nlx-netlink/src/collectors/drop_monitor.rs:537-576 | no alert that fits the 64 KiB buffer can saturate |
| DropMonitor.AlertRoundTrip | crates/nlx-netlink/src/collectors/drop_monitor.rs:529-576 | an alert in the kernel's layout is read as the sum of its point counts and the sum of its trap counts |
| DropMonitor.AlertCounts | crates/nlx-netlink/src/collectors/drop_monitor.rs:746-768 | and moves the software total by its point counts and the hardware total by its trap counts |
| DropMonitor.AlertDatagramCounts | crates/nlx-netlink/src/collectors/drop_monitor.rs:736-768 | so does any datagram of at most 64 KiB holding it: the listener's two counters move by exactly those sums |
| DropMonitor.OthersDoNotCount | crates/nlx-netlink/src/collectors/drop_monitor.rs:746-760 | another message type, another command, or less than a generic header moves nothing |
| DropMonitor.NothingToCount | crates/nlx-netlink/src/collectors/drop_monitor.rs:529-768 | nor do overflows, failing receives, attributes of other types, counts too short to read, and what a datagram holds beyond 64 KiB |
| DropMonitor.PointsAnnounced | crates/nlx-netlink/src/collectors/drop_monitor.rs:537-560 | of n announced points and any number of whole ones, the first of both count; a torn one never |
| DropMonitor.DropCounters.CountDatagram | crates/nlx-netlink/src/collectors/drop_monitor.rs:746-768 | a datagram moves the counters by the sums of its complete alerts of the family, modulo 2^64; other messages by nothing |
| DropMonitor.DropCounters.RecvLoop | crates/nlx-netlink/src/collectors/drop_monitor.rs:736-768 | until an error: overflows are skipped, the counters move by the tally of the events taken |
| DropMonitor.DropCounters.Listen | crates/nlx-netlink/src/collectors/drop_monitor.rs:610-617 | over any trace of datagrams, overflows and errors each counter ends at its start plus the sum over all alerts, modulo 2^64 |
| Conntrack.ParseFlowFrame | crates/nlx-netlink/src/collectors/conntrack.rs:292-390 | a flow frame gives exactly what its attribute list says: last protocol through three levels, last counters, state by the rules of order |
| Conntrack.UnknownIgnored | crates/nlx-netlink/src/collectors/conntrack.rs:377 | an unknown attribute anywhere at top level changes nothing |
| Conntrack.StatusMattersIff | crates/nlx-netlink/src/collectors/conntrack.rs:306-349 | a status attribute, whatever stands before and behind it, changes the flow exactly when no TCP tuple precedes it, it is readable, it says something new there, and no later attribute sets the state |
| Conntrack.TcpIgnoresStatus | crates/nlx-netlink/src/collectors/conntrack.rs:324-335 | behind a TCP tuple a status changes nothing, whatever follows |
| Conntrack.StatusBeforeTupleShows | crates/nlx-netlink/src/collectors/conntrack.rs:306-349 | in front of any TCP tuple a status stays visible: attribute order is part of what the parser needs |
| Conntrack.FlowRoundTrip | crates/nlx-netlink/src/collectors/conntrack.rs:292-390 | an encoded flow, its tuple first and with any addresses and ports, is recovered, the other blocks in any order and number, unknown ones among them |
| Conntrack.LabelsInText | crates/nlx-netlink/src/collectors/conntrack.rs:231-262 | every protocol and state number has its own label, every other number "other" |
| Conntrack.TcpStateIsProtoInfo | crates/nlx-netlink/src/collectors/conntrack.rs:336-349 | the state of an encoded TCP flow is decided by its protocol-info blocks alone |
| Conntrack.CpuStatSum.Add | crates/nlx-netlink/src/collectors/conntrack.rs:126-143 | one attribute moves exactly its own statistic, wrapping; an optional one appears |
| Conntrack.SumCpuStats | crates/nlx-netlink/src/collectors/conntrack.rs:158-179 | every field is the sum of its statistic over all frames modulo 2^64; an optional one is absent exactly when no frame carries it |
| Conntrack.StatisticCounts | crates/nlx-netlink/src/collectors/conntrack.rs:126-143 | a statistic in the kernel's layout adds its value to the total of its type and to no other |
| Conntrack.FramesInOctets | crates/nlx-netlink/src/collectors/conntrack.rs:158-179 | the first four octets of each frame are passed over, and a frame below four altogether |
| Conntrack.SumsInNumbers | crates/nlx-netlink/src/collectors/conntrack.rs:126-143 | which attribute type ends up in which field |
| Nftables.ExtractRuleComment | crates/nlx-netlink/src/collectors/nftables.rs:438-462 | the loop over the userdata gives the first comment of its complete records, and ends |
| Nftables.FirstCommentMeans | crates/nlx-netlink/src/collectors/nftables.rs:447-458 | that is the first type-0 record with something left once a trailing NUL is gone; None exactly when there is none |
| Nftables.CommentInOctets | crates/nlx-netlink/src/collectors/nftables.rs:447-458 | a comment is what precedes the trailing NUL of a type-0 record; an empty one is passed over |
| Nftables.RecordsRoundTrip | crates/nlx-netlink/src/collectors/nftables.rs:438-462 | records come back as written, a torn one at the end is ignored |
| Nftables.FindCounter | crates/nlx-netlink/src/collectors/nftables.rs:490-530 | the expression walk stops at the first list element named "counter" and gives its values |
| Nftables.ParseRuleFrame | crates/nlx-netlink/src/collectors/nftables.rs:472-545 | a rule frame gives exactly what its attributes say through four nesting levels |
| Nftables.ReportedIff | crates/nlx-netlink/src/collectors/nftables.rs:465-545 | with one userdata and one expression list a rule is reported exactly when a comment record exists and the first counter carries both values |
| Nftables.RuleRoundTrip | crates/nlx-netlink/src/collectors/nftables.rs:472-545 | an encoded rule is recovered: names, first comment among any records, values of the first counter among any expressions |
| Nftables.LaterAttributeDecides | crates/nlx-netlink/src/collectors/nftables.rs:472-530 | a later expression list replaces the counter only if it holds one; a later userdata replaces the comment anyway |
| Nftables.BuildRuleMetrics | crates/nlx-netlink/src/collectors/nftables.rs:937-975 | the first 1000 rules in order, two samples each, then the number of the others if any |
| Nftables.RuleMetricsAt | crates/nlx-netlink/src/collectors/nftables.rs:937-955 | rule i below the cap yields its octets as nft_rule_counter_bytes_total and its packets as nft_rule_counter_packets_total, both under its own chain, comment and table |
| Nftables.OverflowInText | crates/nlx-netlink/src/collectors/nftables.rs:957-975 | beyond the cap exactly one more sample follows, the number of rules left out |
| Nftables.RuleMetricsAccountForAll | crates/nlx-netlink/src/collectors/nftables.rs:937-975 | rule samples emitted plus rules reported as dropped is the number of parsed rules, and nothing is reported below the cap |
| Nftables.RuleLineDroppedIff | crates/nlx-netlink/src/collectors/nftables.rs:937-955 | a sample is not yet a line: the encoder drops a rule's line exactly when two of the first 1000 rules have decoded table, chain and comment with the same key |
| Nftables.PlainRulesShareKeyIff | crates/nlx-netlink/src/collectors/nftables.rs:937-955 | for UTF-8 texts without U+0002 that means the same table, chain and comment |
| Nftables.LossyCommentsCollide | crates/nlx-netlink/src/collectors/nftables.rs:447-455 | otherwise not: the comments 0xFF and 0xFE are decoded to the same text, so one of the two lines is dropped |
| Ipvs.BuildDestRequest | crates/nlx-netlink/src/collectors/ipvs.rs:306-366 | the request octets are the generic header and one nest of the key attributes the text names |
| Ipvs.TcpRequestInOctets | crates/nlx-netlink/src/collectors/ipvs.rs:306-366 | the key of an IPv4 TCP service octet by octet: family 2, protocol 6, address, port most significant octet first |
| Ipvs.MarkRequestInOctets | crates/nlx-netlink/src/collectors/ipvs.rs:337-341 | a mark goes out as family 2 and type 5, and nothing else |
| Ipvs.ParseStats | crates/nlx-netlink/src/collectors/ipvs.rs:387-432 | a statistics nest gives the last value of each of ten statistics, 64 or 32 bits wide, octet counts always 64 |
| Ipvs.StatsRoundTrip | crates/nlx-netlink/src/collectors/ipvs.rs:387-432 | ten statistics of either width come back, each in its own field |
| Ipvs.ParseService | crates/nlx-netlink/src/collectors/ipvs.rs:438-517 | a service's attributes give exactly what they say: last values, network-order port, mark before address, scheduler name, 64-bit statistics before 32-bit ones |
| Ipvs.ServiceRoundTrip | crates/nlx-netlink/src/collectors/ipvs.rs:438-517 | a service in the kernel's layout comes back: key, scheduler, and the 64-bit statistics rather than the 32-bit ones |
| Ipvs.DefaultsInText | crates/nlx-netlink/src/collectors/ipvs.rs:438-517 | what a service does not say |
| Ipvs.ShortInText | crates/nlx-netlink/src/collectors/ipvs.rs:387-517 | what is too short to read counts as zero |
| Ipvs.V4RoundTrip | crates/nlx-netlink/src/collectors/ipvs.rs:589-593 | dotted quads are read as they are printed |
| Ipvs.RequestNest | crates/nlx-netlink/src/collectors/ipvs.rs:361-366 | the kernel finds one nest, holding the key attributes |
| Ipvs.V4Survives | crates/nlx-netlink/src/collectors/ipvs.rs:306-366 | the text of address and port of an IPv4 service always comes back; the whole text key exactly for the names tcp, udp, sctp and unknown |
| Ipvs.MarkSurvivesIff | crates/nlx-netlink/src/collectors/ipvs.rs:337-341 | a mark comes back with an empty address and unknown protocol, exactly when it is not zero |
| Ipvs.RequestKeepsKey | crates/nlx-netlink/src/collectors/ipvs.rs:306-517 | whatever the kernel said of a service, the request built from the parsed key reads back as the same text key: address, port, and the name of the protocol unless the service is known by its mark |
| Ipvs.RequestFields | crates/nlx-netlink/src/collectors/ipvs.rs:306-366 | and on the wire, field by field: the service's mark, its port unless a mark is set, and the family, address and protocol the text stands for |
| Ipvs.ProtocolSurvivesIff | crates/nlx-netlink/src/collectors/ipvs.rs:309-345 | the protocol number asked for is the service's own exactly when that is 0, or 6, 17 or 132 and no mark is set |
| Ipvs.UnnamedProtocolIsLost | crates/nlx-netlink/src/collectors/ipvs.rs:309-345 | a service of protocol 50 is asked for as protocol 0 |
| Ipvs.RequestAddress | crates/nlx-netlink/src/collectors/ipvs.rs:347-353 | the address octets asked for are the first 4 or 16 of the service's, by family; none when there are fewer, the family is another, or a mark is set |
| Ipvs.FamilySurvivesIff | crates/nlx-netlink/src/collectors/ipvs.rs:329-341 | but its address family is the service's own exactly for IPv4, and for IPv6 with a whole address and no mark |
| Ipvs.MarkLosesFamily | crates/nlx-netlink/src/collectors/ipvs.rs:329-341 | an IPv6 service known by its mark is asked for as IPv4 |
| PeerId.StepIsBijection | crates/nlx-netlink/src/collectors/wireguard.rs:488-491 | for a fixed octet a hash step permutes the 64-bit states, with an explicit inverse |
| PeerId.StepSeparatesOctets | crates/nlx-netlink/src/collectors/wireguard.rs:488-491 | from a fixed state different octets lead to different states |
| PeerId.HexInjective | crates/nlx-netlink/src/collectors/wireguard.rs:492 | n hexadecimal digits determine every number of 4n bits |
| PeerId.PubkeyHash | crates/nlx-netlink/src/collectors/wireguard.rs:483-493 | the loop computes the identifier, always 16 characters |
| PeerId.PublishedHashes | crates/nlx-netlink/src/collectors/wireguard.rs:483-493 | the hash of nothing and of one octet are the published FNV-1a values |
| PeerId.PublishedText | crates/nlx-netlink/src/collectors/wireguard.rs:492 | and the text has lower-case digits, most significant first |
| PeerId.IdsCollideIff | crates/nlx-netlink/src/collectors/wireguard.rs:483-493 | keys that agree from some point on share an identifier exactly when the hashes in front of it collide |
| PeerId.OneOctetSeparates | crates/nlx-netlink/src/collectors/wireguard.rs:483-493 | keys of equal length that differ in exactly one octet always have different identifiers |
| Wireguard.ParsePeer | crates/nlx-netlink/src/collectors/wireguard.rs:413-476 | a peer's attributes give exactly what they say; none without a public key; a zero handshake second means never |
| Wireguard.PeerRoundTrip | crates/nlx-netlink/src/collectors/wireguard.rs:413-476 | an encoded peer comes back: received and sent octets, last handshake, keepalive, endpoint, each from its own type |
| Wireguard.SilentPeer | crates/nlx-netlink/src/collectors/wireguard.rs:359-476 | what a peer or device does not say, or too shortly, is zero, never, or no endpoint |
| Wireguard.NeededIff | crates/nlx-netlink/src/collectors/wireguard.rs:396-476 | a peer is lost exactly without a public key, a device exactly without a name |
| Wireguard.ParseDevice | crates/nlx-netlink/src/collectors/wireguard.rs:359-406 | a device's attributes give its last name, port and mark and the peers of all containers in order; none without a name |
| Wireguard.MergeDeviceFrames | crates/nlx-netlink/src/collectors/wireguard.rs:312-335 | frames merge to the first name, the first non-zero port and mark, and all peers in order |
| Wireguard.MergeTwo | crates/nlx-netlink/src/collectors/wireguard.rs:312-335 | of two frames the first gives the name, and port and mark unless they are zero |
| Wireguard.SplitDoesNotMatter | crates/nlx-netlink/src/collectors/wireguard.rs:309-335 | however peers are split over frames, and whichever frames carry port and mark, the merged device is the same: its port, its mark, and all peers once, in order |
| Tc.ParseTcaStats2 | crates/nlx-netlink/src/collectors/tc.rs:204-267 | the last basic and queue statistics that are long enough, field by field; none without basic statistics |
| Tc.StatsRoundTrip | crates/nlx-netlink/src/collectors/tc.rs:204-267 | encoded statistics come back, each from its own offset |
| Tc.ParseQdiscFrame | crates/nlx-netlink/src/collectors/tc.rs:282-310 | index, last kind ("unknown" without one, or when it is not UTF-8) and statistics of a frame |
| Tc.FrameRoundTrip | crates/nlx-netlink/src/collectors/tc.rs:282-310 | a discipline in the kernel's layout comes back: index at octet 4, kind, statistics |
| Tc.AggStats.Add | crates/nlx-netlink/src/collectors/tc.rs:193-201 | each field moves by its own statistic and saturates |
| Tc.Aggregate | crates/nlx-netlink/src/collectors/tc.rs:399-415 | every total is min(2^64-1, exact sum) over all frames of its device and kind, and exists exactly when some frame has statistics for it |
| Tc.OrderDoesNotMatter | crates/nlx-netlink/src/collectors/tc.rs:399-415 | permuting the frames changes no total |
| Tc.FramesAdd | crates/nlx-netlink/src/collectors/tc.rs:399-415 | over more frames each of the five totals sums up on its own |
| Tc.SamplesOfFrame | crates/nlx-netlink/src/collectors/tc.rs:318-358 | each statistic of a frame is emitted under its own name, for its own device and kind |
| Tc.EmitAll | crates/nlx-netlink/src/collectors/tc.rs:417-420 | five samples for each device and kind, in the order of the map's keys |
| Tc.EmissionIsCanonical | crates/nlx-netlink/src/collectors/tc.rs:399-420 | the totals alone decide that order: the keys of a map can be visited in exactly one way |
| Tc.SeriesAreDistinct | crates/nlx-netlink/src/collectors/tc.rs:318-358 | no two emitted samples are the same series |
| SockDiag.StatesAreDistinct | crates/nlx-netlink/src/collectors/sockdiag.rs:190-226 | kernel states map to distinct states, and only unknown ones share a printed name |
| SockDiag.StatesInText | crates/nlx-netlink/src/collectors/sockdiag.rs:152-226 | the names of the kernel's states; a closed UDP socket is unconnected |
| SockDiag.FrameInOctets | crates/nlx-netlink/src/collectors/sockdiag.rs:431-466 | the state is the second octet, the queues the words at 56 and 60 |
| SockDiag.AttributesInOctets | crates/nlx-netlink/src/collectors/sockdiag.rs:468-504 | drops are the word at 32 of attribute 7, retransmits the word at 100 of attribute 2, of TCP alone |
| SockDiag.ParseFrame | crates/nlx-netlink/src/collectors/sockdiag.rs:431-504 | one frame keeps the maps equal to the sums over the frames so far, modulo 2^64 |
| SockDiag.Aggregate | crates/nlx-netlink/src/collectors/sockdiag.rs:300-324 | over a whole scrape: buckets, drops and retransmits are the sums, with an entry exactly where a frame put one |
| SockDiag.FramesAdd | crates/nlx-netlink/src/collectors/sockdiag.rs:439-466 | over more frames count and queues of a bucket sum up each on its own |
| SockDiag.BucketsConserve | crates/nlx-netlink/src/collectors/sockdiag.rs:431-466 | over any distinct buckets that cover the frames, the exact counts and queues sum to those of all complete frames |
| SockDiag.TotalsConserve | crates/nlx-netlink/src/collectors/sockdiag.rs:431-504 | in the map a scrape ends with, the counts sum to the number of complete frames and the queues to the sums of theirs, modulo 2^64, and exactly when those fit |
| SockDiag.GrandCount | crates/nlx-netlink/src/collectors/sockdiag.rs:439-443 | the count of all complete frames is the number of frames of at least 72 octets |
| SockDiag.LabelsCoincideIff | crates/nlx-netlink/src/collectors/sockdiag.rs:331-362 | two buckets print the same labels exactly when they are two unknown states of one protocol |
| Text.NumeralRoundTrip | crates/nlx-metrics/src/registry.rs:282-285 | parsing inverts printing for every integer of the width |
| Text.NumeralByDigits | crates/nlx-metrics/src/registry.rs:282-285 | the last digit of a numeral is the remainder, the rest the numeral of the quotient |
| Text.LosslessIff | crates/nlx-netlink/src/collectors/nftables.rs:288-296 | decoding octets to text and encoding that text gives the octets back exactly when they are UTF-8 (section 4 of RFC 3629) |
| Text.DecodedInNumbers | crates/nlx-netlink/src/collectors/nftables.rs:288-296 | sequences of one to four octets and their characters |
| Text.ReplacedInNumbers | crates/nlx-netlink/src/collectors/nftables.rs:288-296 | one replacement for a torn sequence, one for each octet that begins none |
| Registry.EscapeLabelValue | crates/nlx-metrics/src/registry.rs:245-258 | the loop computes the escaped value |
| Registry.EscapeHelp | crates/nlx-metrics/src/registry.rs:223-233 | the loop computes the escaped help text |
| Registry.EscapedStripped | crates/nlx-metrics/src/registry.rs:245-258 | control characters other than newline leave no trace in an escaped value, and no newline does |
| Registry.EscapesInText | crates/nlx-metrics/src/registry.rs:223-258 | what becomes of each character in a label value and in a help text |
| Registry.WriteSampleLine | crates/nlx-metrics/src/registry.rs:261-291 | appends name, labels in braces when there are any, value and newline |
| Registry.NamesMean | crates/nlx-metrics/src/registry.rs:142-156 | the group names are exactly the sample names, ascending, once each |
| Registry.FirstDifferenceDecides | crates/nlx-metrics/src/registry.rs:142-156 | ascending means: the first differing character decides, the smaller one first |
| Registry.PrefixComesFirst | crates/nlx-metrics/src/registry.rs:142-156 | and a name comes before its continuations |
| Registry.EncodeSamples | crates/nlx-metrics/src/registry.rs:142-174 | the imperative encoder produces the specified body: groups by ascending name, HELP and TYPE of the first sample, kept lines in order |
| Registry.BodyOfOne | crates/nlx-metrics/src/registry.rs:142-174 | the body of one sample, as text |
| Exposition.QuotedReadsBack | crates/nlx-metrics/src/registry.rs:245-258 | a quoted value reads back as the value without its control characters, whatever follows |
| Exposition.HelpReadsBack | crates/nlx-metrics/src/registry.rs:223-233 | every help text reads back unchanged |
| Exposition.SampleReadsBack | crates/nlx-metrics/src/registry.rs:261-291 | a sample line reads back as its name, stripped labels and value |
| Exposition.BodyReadsBack | crates/nlx-metrics/src/registry.rs:142-174 | for any samples with identifier names and keys, a 0.0.4 reader recovers from the body, per ascending name, one HELP, one TYPE and the kept observations in order |
| Series.LabelMapIsCanonical | crates/nlx-metrics/src/registry.rs:188-197 | in key order a label set has only one sequence |
| Series.KeyInjective | crates/nlx-metrics/src/registry.rs:188-197 | the key separates label sets whose values hold no U+0002 |
| Series.KeyCollision | crates/nlx-metrics/src/registry.rs:184-197 | with a U+0002 in a value it does not |
| KeyText.KeysEqualIff | crates/nlx-metrics/src/registry.rs:188-197 | in general two label sets share their key exactly when they cut into the same pieces, a value being cut where U+0002, an identifier and U+0001 follow each other |
| KeyText.CutsItselfIff | crates/nlx-metrics/src/registry.rs:184-197 | and a label set is its own only piece list exactly when no value has such a place |
| Series.HeadsEqualIff | crates/nlx-metrics/src/registry.rs:261-280 | two samples print the same `name{labels}` exactly when name and stripped labels agree |
| Series.KeyAndLineAgree | crates/nlx-metrics/src/registry.rs:188-291 | on clean values key, label set and printed text agree about what is the same series |
| Series.KeptAreFirstsIff | crates/nlx-metrics/src/registry.rs:150-154 | keeping by key is keeping the first sample of each label set exactly when no two label sets of the metric share a key |
| Series.KeptAreFirsts | crates/nlx-metrics/src/registry.rs:150-154 | so it is when no value holds a U+0002 |
| Series.CleanBodyReadsBack | crates/nlx-metrics/src/registry.rs:142-174 | on clean values the round trip is exact: the first sample of every series, grouped and ordered |
| Series.CoincideIff | crates/nlx-metrics/src/registry.rs:128-136 | for all samples the encoder takes, the body repeats a series of a metric exactly when two of its samples, each the first of its key, have different labels that differ only in control characters |
| Series.CoincideIffSeparatorFree | crates/nlx-metrics/src/registry.rs:128-136 | without U+0002 in values any two samples of the metric count |
| Series.GuardMissesControls | crates/nlx-metrics/src/registry.rs:128-136 | so the guard does not make every body valid: one control character other than newline is enough, whichever it is |
| Series.DuplicateSeries | crates/nlx-metrics/src/registry.rs:202-211 | reports, ascending, exactly the metrics for which the encoder drops a line |
| Series.PrometheusRegistryAdapter.UpdateSamples | crates/nlx-metrics/src/registry.rs:89-108 | replaces the whole body by the encoding and names the metrics that lost a line |
| Scrape.ScrapeService.FanOut | crates/netlink_exporter/src/scrape.rs:202-282 | samples of the successful collectors in order, a result for each collector, and counters moved by the failures under each name |
| Scrape.ScrapeService.Scrape | crates/netlink_exporter/src/scrape.rs:202-366 | the whole scrape: delivered samples, two samples about the exporter, four about each collector with the counters as they are after the fan-out; the body stored is its encoding |
| Scrape.RunScrapes | crates/netlink_exporter/src/scrape.rs:172-366 | over any number of scrapes with unique names each scrape is exactly: the successful collectors' samples, two about the exporter, and four about each collector with the number of scrapes so far in which it was available and failed or timed out, modulo 2^64 |
| Scrape.DeliveredOrCounted | crates/netlink_exporter/src/scrape.rs:248-268 | over any run the failed and the delivered scrapes of an available collector add up to all of them, a timeout being a failure; one that is not available is never counted |
| Scrape.FailsMeans | crates/netlink_exporter/src/scrape.rs:243-268 | an available collector fails exactly with an error or a timeout, and delivers its samples exactly otherwise |
| Scrape.TelemetryInText | crates/netlink_exporter/src/scrape.rs:285-366 | the names and values of the four samples about a collector |
| Scrape.ExporterInText | crates/netlink_exporter/src/scrape.rs:278-300 | the two samples about the exporter |
| Scrape.ScrapedInOrder | crates/netlink_exporter/src/scrape.rs:202-366 | the delivered samples come first, then liveness, then the build, then four samples for each collector |
| Scrape.AtMostOneFailure | crates/netlink_exporter/src/scrape.rs:255-265 | with unique names one scrape counts a collector at most once |
| Scrape.FailureIsIsolated | crates/netlink_exporter/src/scrape.rs:243-265 | a failing collector removes exactly its own block of samples |
| ScrapeReading.MetricReadsBack | crates/nlx-metrics/src/registry.rs:142-174 | of all the groups of a body, exactly one is about a metric that has samples |
| ScrapeReading.TelemetryReadsBack | crates/netlink_exporter/src/scrape.rs:285-366 | whatever was delivered, reading a stored body gives per telemetry metric one group: delivered samples of that name, then one line for each collector whose key none of them has taken |
| ScrapeReading.AllUntakenIff | crates/netlink_exporter/src/scrape.rs:285-366 | every collector keeps its line exactly when no delivered sample of the metric has the key of one of them |
| ScrapeReading.CleanTelemetryReadsBack | crates/netlink_exporter/src/scrape.rs:285-366 | without delivered samples of that name, the group is exactly one line for each collector, in order, with its value |
| ScrapeReading.ErrorTotalsReadBack | crates/netlink_exporter/src/scrape.rs:172-366 | so the body stored by any scrape of a run reads back as the failed scrapes so far of each collector |
| Snapshot.StepKeepsInv | crates/nlx-http/src/server.rs:251-281 | every step of every interleaved request keeps the log of stores, the shared body and all requests explained by a history of what each request collected and described |
| Snapshot.ServedBodiesAreSnapshots | crates/nlx-http/src/server.rs:251-281 | over any interleaving every stored body encodes exactly what its own request collected, for every collector, with the counters as they were when that request described them; each request stores once, and every response carries a body stored no earlier than the responder's own |
| Snapshot.RequestCanFinish | crates/nlx-http/src/server.rs:251-281 | whatever the other requests did, an open request can be carried on to its response by steps of its own |
| Snapshot.LoadTakesNewest | crates/nlx-http/src/server.rs:251-281 | a request loads the body stored last, and there is one |
| Snapshot.NoFailureIsLost | crates/netlink_exporter/src/scrape.rs:137-143 | interleaved scrapes lose no increment: each counter moves by the number of failing collects, modulo 2^64 |
| HttpServer.ReadHeaders | crates/nlx-http/src/server.rs:207-236 | the loop returns the octets of the first read with a blank line below the cap, None exactly when there is no such read; after none of its reads, accepted or not, does the buffer hold more than 8703 octets |
| HttpServer.AcceptedIff | crates/nlx-http/src/server.rs:207-236 | a stream whose first blank line ends at e is accepted exactly when no read ends between 8192 and e |
| HttpServer.AcceptedByLength | crates/nlx-http/src/server.rs:207-236 | up to 8192 every chunking is accepted; beyond 8703, or without a blank line, none is |
| HttpServer.ChunkingDecides | crates/nlx-http/src/server.rs:207-236 | in between the cut decides: every stream whose first blank line ends in 8193..8703 is dropped in full reads and accepted after a shorter first read |
| HttpServer.ChunkingDoesNotMatterIff | crates/nlx-http/src/server.rs:238-316 | an accepted chunking gives the path of the octets up to the blank line exactly when all it received is UTF-8, or that path is "/" anyway; so always on an ASCII stream |
| HttpServer.SplitCharacterLosesPath | crates/nlx-http/src/server.rs:310-316 | of two accepted chunkings of one stream one gives the path of the headers, the other "/", as its read takes along half a character behind the blank line |
| HttpServer.RequestPath | crates/nlx-http/src/server.rs:310-316 | the path of a request line is its second word |
| HttpServer.LineEndings | crates/nlx-http/src/server.rs:310-316 | a line ends at a line feed, with or without a carriage return in front |
| HttpServer.WholeRequest | crates/nlx-http/src/server.rs:207-316 | a scraper's request in one read is accepted and its path found |
| HttpServer.Serve | crates/nlx-http/src/server.rs:147-178 | the pause after a failing accept is min(1000, 10 * 2^k) ms after k failures directly before it |
| HttpServer.PausesInNumbers | crates/nlx-http/src/server.rs:147-178 | that is 10, 20, 40, ... 640 ms, then a second |
| Netstat.IntRoundTrip | crates/nlx-procfs/src/netstat.rs:160-165 | every signed 64-bit integer parses back from its text |
| Netstat.ParsePairedLines | crates/nlx-procfs/src/netstat.rs:105-185 | the loop over peeked lines emits one gauge for each triple of the recursive reading of the lines, in order |
| Netstat.FileRoundTrip | crates/nlx-procfs/src/netstat.rs:110-185 | printing any list of protocol blocks and parsing the text gives exactly their triples, in order |
| Netstat.BlockInText | crates/nlx-procfs/src/netstat.rs:110-185 | two lines as text give one gauge for each field: name, labels and value |
| Netstat.AllColonsGo | crates/nlx-procfs/src/netstat.rs:118-135 | all colons at the end of a protocol are cut off |
| Netstat.OddPairs | crates/nlx-procfs/src/netstat.rs:136-170 | lines of different lengths are passed over together, a value that is no integer alone |
| Netstat.OrphanIsHarmlessIff | crates/nlx-procfs/src/netstat.rs:136-156 | an unpaired header leaves the following block intact exactly when it is of another protocol |
| Netstat.OrphanInFileIff | crates/nlx-procfs/src/netstat.rs:110-185 | the same in a file, between any printed blocks: the triples of all the blocks come out exactly when the orphan and the block behind it are of different protocols |

## Left out

- io_uring rings, sockets, `dup`, capabilities, threads and timers: foreign calls, replaced by event lists and outcomes.
- Configuration, command line, tracing, `main.rs`, packaging: plumbing.
- procfs and sysfs file access and the parsers besides `netstat.rs`: easier copies of it.
- devlink, ethtool, xfrm, conntrack_expect, rt, rt_extended: they reuse the attribute lemmas and add only easy members.
- Kernel label tables besides those of conntrack and socket states (`family_label`, `hook_label`, `stat_name` and the like): a
  reading settles them.
- The samples made of conntrack statistics, IPVS services, WireGuard peers and socket buckets: one constant name per field.
- Floats: a float is the text it is printed as, so `write_f64` and the conversions to `f64` are not modelled.
- Lengths beyond the machine word: buffers are far below 2^62 octets, so `align4` cannot wrap and is not modelled to.
- IPVS destinations (`parse_destination`): last-value readers like `parse_service`.
- nftables chains, sets, objects and flowtables: last-value readers like `parse_rule_frame`.
- WireGuard interface discovery, the peer cap and the age of handshakes: a filter, a `take`, and the wall clock.
- The drop monitor's privileged setup and its overflow query: foreign calls and a two-level last-value reader.
- HTTP response headers, `/healthz` and `/ready`: constants. A 500 answer is not modelled, as scrape and encoding never fail.
- RequestKeepsKey: the text form of IPv6 addresses is a parameter, any printer with a parser that inverts it.
- SeriesAreDistinct: about names and labels as emitted; what the encoder makes of control characters in them is `CoincideIff`.
- Scrape: the durations and the outcomes of collectors, the timer's included, are inputs.
- ServedBodiesAreSnapshots: a step of a request is atomic, as on the single-threaded executor; requests that are never
  answered are allowed, though each can be (`RequestCanFinish`).
- Concurrent updates of the drop counters by a reader: `collect` only loads them.
