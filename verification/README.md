# 5gpn-next: verified model

This project models the core logic of the 5gpn-next gateway in Dafny and proves what it is for.
Sockets, disks, clocks, ciphers, system libraries and external commands are parameters or
abstract outcomes; everything between them follows the Go code branch by branch.

Code that changes things in place is modelled in that form: the SNI decoder, the domain trie, the
CIDR set, the policy engine, the statistics store, the trace recorder, the sample rings, the alert
state and the peeking reader are classes whose methods are proved against specification functions;
parsers and scans are methods with loops. The concurrent parts (QUIC sessions, flushes, the update
transaction) are state machines over atomic steps, and their theorems hold for every run.

## Components

- **QUIC Initial SNI** (`Varint`, `QuicFrames`, `CryptoStream`, `CryptoOverlap`, `InitialPacket`, `ClientHello`,
  `QuicSni`, `SniRecovery`): every layer has its encoder, and the decoder inverts it; end to end a name is reported
  exactly when the received fragments cover the ClientHello. Standards: sections 16, 17.2.2, 19.3 and 19.6 of RFC
  9000, sections 5.2 and 5.4 of RFC 9001, section 3 of RFC 9369, section 4.1.2 of RFC 8446, section 3 of RFC 6066.
- **TCP sniffing** (`ClientHello`, `HttpHost`, `ByteText`): the second SNI parser, compared with the first, and the
  incremental HTTP Host peek.
- **QUIC sessions** (`QuicSessions`, `QuicServer`, `QuicDelivery`): reader, connectors, pumps, finishers and janitor
  interleaving over one table; an atomic step is one mutex-protected region or one call outside a lock. Nothing is
  lost on the way to the remote but what the limits and failed writes lose.
- **Rule indexes** (`LineText`, `DomainIndex`, `DomainRules`, `DomainLines`, `CidrIndex`, `CidrLines`): a
  reversed-label trie and a binary search with a bounded back-scan, each against a naive scan of the added rules, and
  what each form of line in a rule list means.
- **Policy** (`Policy`, `PolicyLayers`, `BuiltinStrip`, `PolicyMeaning`): first match, the compilation of a
  configuration into six layers, what the layers guarantee for every user rule list, where a configuration sends every
  target, and exactly when dropping repeated built-in lines changes a decision.
- **Statistics** (`Stats`, `StatsRuns`, `StatsTally`, `StatsSummary`): the flush protocol under I/O failures, every
  counter equal to what it counts, summaries.
- **Trace log, monitor** (`TraceFiles`, `TraceStartup`, `TraceRotation`, `Rings`, `Alerts`): which file a rotation
  loses, bounded buffers equal to the end of an unbounded history, and the alert automaton over whole probe histories.
- **Self-update** (`Versions`, `ReleaseTags`, `Transaction`, `TransactionTrail`): version order, retention, and the
  install, verify and roll-back script running beside the cleanup of the restarted service.
- **Firewall and SOCKS5 UDP** (`Firewall`, `Socks5Udp`): the ordered chain of packet rules, and the UDP header codec.
- `Bytes`, `Text`, `Lists`, `MapSum`, `Common`: byte strings, ASCII text, insertion, sums over maps, result types.

## Where the code departs from what it promises

The members named state the exact condition or a concrete witness; the other remarks say what the model follows.

- `pruneVersions` slices the sorted list at `keep` without a check, so it panics exactly when there are fewer
  backups than that (`Versions.PruneVersions`).
- The CIDR back-scan looks at 64 entries only; `CidrIndex.AgreesIff` says exactly when that is enough and
  `CidrIndex.CrowdedMisses` shows a miss.
- The comment on the QUIC replay promises the order of arrival; a datagram written through by the reader can
  overtake it (`QuicServer.InOrderIff`, `QuicServer.ReplayOvertaken`).
- The limit of eight Initial packets is looked at once per datagram, so one datagram can carry more
  (`SniRecovery.PacketLimitKeptIff`, `SniRecovery.AllPacketsCounted`).
- Overlapping CRYPTO slices may cover a stretch that is never assembled, because a slice is found only where the one
  before it ends and a second slice at an offset is dropped; `CryptoOverlap.AssemblyReachesIff` says exactly how far
  the assembly gets (`CryptoStream.OverlapCanStall`, `CryptoOverlap.LongerSliceDropped`).
- The TCP SNI parser ignores the entry type (`ClientHello.AgreeExactly`, `ClientHello.EntryTypeSplitsPaths`).
- `normalizeHost` is documented to strip ports but does not; the model follows the code (`DomainRules.PortHidesHost`).
  A line of dots is counted as a rule that cannot hit (`DomainIndex.DotsRuleIsDead`, `DomainRules.DeadRuleIff`).
- Dropping user lines that repeat a built-in one is meant as a mere migration, but lines of the trailing layers stood in
  front of other rules (`BuiltinStrip.MigrationChangesIff`, `BuiltinStrip.RepeatedDownloadLine`).
- A fallback egress with a comma in its name is cut in the Google lines (`PolicyLayers.GoogleFollowsFinal`).
- An outage whose decisive failure falls inside the alert cooldown is never reported (`Alerts.OutageReportedIff`).
- The rule change for QUIC takeover promises that client QUIC is never neither accepted nor rejected;
  `Firewall.NoGapIff` says exactly when that is so. An accept left from an earlier client network and a drop in front of
  the accept break it (`Firewall.StaleAcceptLeavesGap`, `Firewall.DropLeavesGap`).
- The cleanup of a starting service is to spare an update that is under way; a failing lookup of its directory or of its
  script makes it prune the fallback or remove the directory (`Transaction.SurviveIff`,
  `Transaction.LookupFailureLosesFallback`, `Transaction.ScriptFailureLosesStaging`).
- The SOCKS5 UDP reader refuses replies shorter than ten bytes, which tiny replies from names of one or two letters
  are (`Socks5Udp.RoundTripIff`).
- Compaction at startup keeps the end of the active file behind the older archives, so the log can have a gap there
  (`TraceStartup.NoGapIff`, `TraceStartup.StartupLeavesGap`), and if its last removal fails the next start archives the
  same tail again (`TraceStartup.PlacedLog`, `TraceStartup.TailArchivedAgain`).
- The host ranking of the summary panics for a negative length, which its callers do not pass (`StatsSummary.TopHosts`).

## Model

| member | source | states |
|---|---|---|
| Varint.ReadVarint | internal/ingress/quicsni/sni.go:467-480 | The shift-and-add loop reads exactly the integer of section 16 of RFC 9000, reports its width, fails on a short buffer, and stays below 2^62 so that no shift loses a bit |
| Varint.ReadPut | internal/ingress/quicsni/sni.go:467-480 | Reading undoes writing at all four widths, whatever bytes follow |
| Varint.EncodingMeaning | internal/ingress/quicsni/sni.go:466-480 | Section 16 of RFC 9000: the two top bits of the first byte are the base-2 logarithm of the length, the other bits of all bytes are the value |
| QuicFrames.SkipAckBody | internal/ingress/quicsni/sni.go:259-293 | The ACK body is skipped: ranges, delay and the optional three ECN counts, with an error on any short field |
| QuicFrames.SkipEncodedAck | internal/ingress/quicsni/sni.go:259-293 | The skipper stops exactly at the end of every encoded ACK frame, with or without ECN counts |
| QuicFrames.CutCrypto | internal/ingress/quicsni/sni.go:189-205 | One CRYPTO frame is cut off the payload with its offset and data, or refused when its length runs past the end |
| QuicFrames.ParseInvertsPut | internal/ingress/quicsni/sni.go:164-216 | For every list of PADDING, PING, ACK and CRYPTO frames the parser offers exactly the CRYPTO frames in order and goes on with whatever follows the list |
| QuicFrames.ParseWholePayload | internal/ingress/quicsni/sni.go:164-216 | An encoded frame list is consumed to its last byte without error |
| QuicFrames.OtherFrameEnds | internal/ingress/quicsni/sni.go:208-215 | A frame of any other type, CONNECTION_CLOSE included, ends the walk without an error |
| QuicFrames.ShortCryptoFails | internal/ingress/quicsni/sni.go:189-202 | A CRYPTO frame that announces more data than there is ends it with an error |
| CryptoStream.AddKeepsValid | internal/ingress/quicsni/sni.go:218-232 | Every insertion keeps the stored bytes equal to the counter and within 64 KiB, with no empty segment |
| CryptoStream.AssembledIsPrefix | internal/ingress/quicsni/sni.go:218-256 | For any slices of one stream, overlapping or not and in any order, what is assembled is a prefix of that stream, and a reported hello is the one the stream starts with |
| CryptoStream.AssembledContiguous | internal/ingress/quicsni/sni.go:235-256 | For a cut of a stream delivered in any order with retransmissions, the assembled bytes are the fragments before the first missing one |
| CryptoStream.HelloExactlyWhenCovered | internal/ingress/quicsni/sni.go:218-256 | For any cut and any delivery order the hello comes out as soon as the fragments contiguous from offset 0 cover it, and nothing comes out before |
| CryptoStream.OverlapCanStall | internal/ingress/quicsni/sni.go:235-243 | Two overlapping slices that together cover ten bytes are assembled only up to the fifth: a segment is found only at the exact end of the previous one |
| CryptoOverlap.FirstsStored | internal/ingress/quicsni/sni.go:218-232 | Within the byte budget the buffer holds the first offer with data at every offset and nothing else |
| CryptoOverlap.AssemblyReachesIff | internal/ingress/quicsni/sni.go:218-256 | For all slices of one stream within the budget, overlapping or not and in any order: the assembly is a prefix of the stream and reaches byte n if and only if a chain of slices from offset 0 does, each the first at its offset and each starting exactly where the one before it ends |
| CryptoOverlap.LongerSliceDropped | internal/ingress/quicsni/sni.go:226-231 | A longer slice at an offset already stored is dropped: ten bytes have arrived, five are assembled |
| InitialPacket.LawsAreConsistent | internal/ingress/quicsni/sni.go:367-417 | The laws assumed of key derivation, header mask and AEAD can hold together |
| InitialPacket.BuildNonce | internal/ingress/quicsni/sni.go:398-403 | The nonce loop, for every 12-byte IV and packet number: the first four bytes are those of the IV, byte 4 + k is that of the IV xored with byte k of the number in 64 bits, and taking the IV off the nonce leaves the number |
| InitialPacket.NonceIsPadded | internal/ingress/quicsni/sni.go:398-403 | For every packet number below 2^64 that is the nonce of section 5.3 of RFC 9001, which the encoder uses: the IV xored with the number left-padded to twelve bytes |
| Bytes.XorByteMeaning | internal/ingress/quicsni/sni.go:376-403 | The exclusive or of two bytes has exactly the bits set that are set in one of them |
| InitialPacket.UnmaskNumber | internal/ingress/quicsni/sni.go:382-391 | The packet-number loop yields the unmasked number and the header as it was before protection |
| InitialPacket.WalkFields | internal/ingress/quicsni/sni.go:320-359 | The index walk over connection identifiers, token and length accepts exactly the packets the layout allows |
| InitialPacket.OpenPacket | internal/ingress/quicsni/sni.go:359-418 | The second half of packet decryption, from sample to opened payload; the later bounds checks follow from the length field being at least 20 |
| InitialPacket.DecryptInitial | internal/ingress/quicsni/sni.go:296-418 | The whole of packet decryption equals its specification on every input, errors included |
| InitialPacket.HeaderRead | internal/ingress/quicsni/sni.go:296-359 | The header fields of every encoded v1 or v2 Initial packet are read back, with the offsets of number and end |
| InitialPacket.OpenInvertsSeal | internal/ingress/quicsni/sni.go:359-418 | Header protection comes off a protected packet and its payload opens under the original header |
| InitialPacket.DecryptInvertsProtect | internal/ingress/quicsni/sni.go:296-418 | For every v1 or v2 Initial packet, whatever follows it in the datagram, decryption returns the payload and consumes exactly that packet; the packet is sealed under the nonce of section 5.3 of RFC 9001 |
| InitialPacket.ProtectedStart | internal/ingress/quicsni/sni.go:296-318 | A protected packet starts with a long header, the Initial type of its version and the version number of section 15 of RFC 9000 or section 3.1 of RFC 9369 |
| InitialPacket.HeaderErrors | internal/ingress/quicsni/sni.go:296-359 | Which error a packet gets: no Initial packet if it is too short, has no long header with the fixed bit, or is of another type; an unsupported version; malformed for everything else |
| QuicSni.Decoder.AddSegment | internal/ingress/quicsni/sni.go:218-232 | Adds a fragment as the reassembly specification does, keeping the byte budget |
| QuicSni.Decoder.CollectCrypto | internal/ingress/quicsni/sni.go:164-216 | The frame loop adds the offers of the payload in order and reports the parse error, offers made before an error included |
| QuicSni.Decoder.AssembleHello | internal/ingress/quicsni/sni.go:235-256 | The lookup loop from offset 0 terminates and returns the complete ClientHello, if there is one |
| QuicSni.Decoder.Feed | internal/ingress/quicsni/sni.go:117-161 | One datagram: state and result are those of the specification, the walk over coalesced packets terminates |
| QuicSni.AbsorbKeepsValid | internal/ingress/quicsni/sni.go:128-146 | Absorbing any datagram keeps the reassembly buffer within its budget |
| QuicSni.FirstPacketDecides | internal/ingress/quicsni/sni.go:128-138 | A datagram whose first packet does not open is refused and changes nothing; a later packet that does not open is no error |
| SniRecovery.AbsorbDatagram | internal/ingress/quicsni/sni.go:128-146 | A datagram of Initial packets and a trailing packet that does not open is walked to its end, collecting the CRYPTO frames of every packet in order |
| SniRecovery.FedDatagram | internal/ingress/quicsni/sni.go:117-161 | What a waiting decoder does with such a datagram |
| SniRecovery.NameReportedExactlyWhenCovered | internal/ingress/quicsni/sni.go:117-161 | One datagram fed to a decoder that holds some fragments of a cut ClientHello: the lower-cased host is reported exactly when the fragments contiguous from offset 0 now cover the hello, else the decoder holds the new ones too |
| SniRecovery.DeliveryAnswered | internal/ingress/quicsni/sni.go:111-161 | Any list of datagrams carrying fragments of a cut ClientHello, fed to a new decoder: where the decoder stands after each, and what it answers, nothing after the name and an error after eight packets without it |
| SniRecovery.HostReportedAtFirstCovering | internal/ingress/quicsni/sni.go:111-161 | End to end: of any such list the host is reported at exactly the first datagram with which the fragments cover the hello, provided fewer than eight Initial packets came before it |
| SniRecovery.PacketLimitKeptIff | internal/ingress/quicsni/sni.go:117-146 | The limit of eight Initial packets is kept by a datagram if and only if it does not itself carry too many: the limit is checked once per datagram |
| SniRecovery.AllPacketsCounted | internal/ingress/quicsni/sni.go:121-138 | One datagram of any number of coalesced packets, nine for instance, is decrypted and counted whole by a new decoder |
| SniRecovery.SerialisedIsComplete | internal/ingress/quicsni/sni.go:244-256 | A serialised ClientHello is recognised as complete with its own length |
| ClientHello.IsValidHost | internal/ingress/quicsni/sni.go:572-586 | The byte loop accepts exactly the host names the source allows: 1 to 253 bytes of letters, digits, dot, hyphen and underscore |
| ClientHello.ParseServerNameExt | internal/ingress/quicsni/sni.go:543-569 | The entry loop returns the first host_name entry, or the error the source gives |
| ClientHello.ParseQuicSni | internal/ingress/quicsni/sni.go:485-541 | The index walk of the QUIC parser equals its specification on every byte string |
| ClientHello.ParseTcpExtensions | internal/ingress/sniff/sniff.go:432-456 | The extension loop of the TCP parser equals its specification |
| ClientHello.ParseTcpSni | internal/ingress/sniff/sniff.go:397-457 | The TCP parser equals its specification, its late bounds checks included |
| ClientHello.QuicReadsSerialised | internal/ingress/quicsni/sni.go:485-541 | On every serialised ClientHello the QUIC parser reads the first server_name extension, whatever precedes it |
| ClientHello.TcpReadsSerialised | internal/ingress/sniff/sniff.go:397-457 | So does the TCP parser, also when more bytes follow the message |
| ClientHello.NamesRead | internal/ingress/quicsni/sni.go:543-569 | Of a written server name list the QUIC parser takes the first host_name entry and the TCP parser the first entry of any type |
| ClientHello.BothRecoverHost | internal/ingress/sniff/sniff.go:397-457 | For any session id, cipher suites, compression methods and other extensions both parsers return the lower-cased host when it is the first entry |
| ClientHello.AgreeExactly | internal/ingress/sniff/sniff.go:439-453 | Both parsers name the same host if and only if the first host_name entry is valid and the very first entry reads the same |
| ClientHello.EntryTypeSplitsPaths | internal/ingress/sniff/sniff.go:439-453 | One complete message, its list naming x under another type and then the host y: the QUIC parser answers y, the TCP parser x |
| HttpHost.HostFromHeaderText | internal/ingress/sniff/sniff.go:501-511 | The line loop returns the first line with a non-empty Host value |
| HttpHost.Reader.Peek | internal/ingress/sniff/sniff.go:470-499 | Peeking never consumes: it gives the first bytes of the stream, or all of it at the end of the stream |
| HttpHost.PeekHttpHost | internal/ingress/sniff/sniff.go:470-499 | However the request is segmented the answer is that of one pass over the whole stream, nothing is consumed, and every round waits for at least one more byte |
| HttpHost.FindInPrefix | internal/ingress/sniff/sniff.go:476-488 | A header terminator found in a prefix is the one found in the whole |
| HttpHost.HostOfRequest | internal/ingress/sniff/sniff.go:470-511 | For every request whose header ends within the first 4096 bytes the answer is the first non-empty Host value among its lines |
| HttpHost.NoHeader | internal/ingress/sniff/sniff.go:483-485 | A request that starts with the header end names no host |
| ByteText.LowerMeaning | internal/ingress/sniff/sniff.go:505 | The capital letters become the small ones, one by one, and no other byte changes |
| ByteText.HostByteMeaning | internal/ingress/quicsni/sni.go:572-586 | Exactly the letters, digits, dot, hyphen and underscore may stand in a host name |
| ByteText.HostMeaning | internal/ingress/quicsni/sni.go:572-586 | A host name has 1 to 253 of these |
| ByteText.HostLineMeaning | internal/ingress/sniff/sniff.go:501-511 | A line that starts with Host: in any case gives its value without the spaces around it, in small letters; every other line gives nothing |
| ByteText.FirstHostMeaning | internal/ingress/sniff/sniff.go:501-511 | The host of a request is the value of its first Host line that has one |
| QuicSessions.DeliverKept | internal/ingress/quicfwd/quicfwd.go:240-298 | Handing a datagram to a session keeps all its invariants, in every state of its tasks |
| QuicSessions.FinishKept | internal/ingress/quicfwd/quicfwd.go:440-475 | So does each caller of finish |
| QuicSessions.ConnectKept | internal/ingress/quicfwd/quicfwd.go:370-384 | So does publishing the dialled remote, or discarding it because the session was closed meanwhile |
| QuicSessions.ReplayTraffic | internal/ingress/quicfwd/quicfwd.go:391-401 | Each write of the replay sends the first datagram left and goes on with the rest, or stops after a failure; the wire is in order exactly while none was replayed late |
| QuicSessions.GoodKept | internal/ingress/quicfwd/quicfwd.go:240-475 | Every step of every task keeps every invariant of its session |
| QuicServer.StepKept | internal/ingress/quicfwd/quicfwd.go:196-233 | Every step of reader, connectors, pumps, finishers and janitor keeps the invariant of the whole server |
| QuicServer.InvariantOfRuns | internal/ingress/quicfwd/quicfwd.go:137-548 | The invariant holds after every run, in any interleaving |
| QuicServer.TableBounded | internal/ingress/quicfwd/quicfwd.go:208-211 | In every run the table holds at most 512 entries, and an entry leads to a session of its key |
| QuicServer.DeletesOwnEntry | internal/ingress/quicfwd/quicfwd.go:465-467 | Whenever finish comes to delete an entry, the key still leads to the session being finished, even if its sender has come back |
| QuicServer.ConnectsOnce | internal/ingress/quicfwd/quicfwd.go:293-297 | In every run connect is started at most once per session, and its pump at most once |
| QuicServer.ReportedOnce | internal/ingress/quicfwd/quicfwd.go:379-388 | In every run a session is reported at most once, and once nothing is pending exactly when it was counted |
| QuicServer.RemoteAccounted | internal/ingress/quicfwd/quicfwd.go:358-384 | Every dialled remote belongs to one session and is in exactly one place: held by the open session, in the hands of its connect or finish, or closed, once |
| QuicServer.NothingLeaks | internal/ingress/quicfwd/quicfwd.go:440-475 | When all tasks of a session have ended its remote has been closed |
| QuicServer.BufferBounded | internal/ingress/quicfwd/quicfwd.go:307-313 | In every run the waiting datagrams, and likewise those still to be replayed, are an in-order subsequence of the arrivals, within 16 datagrams and 32 KiB |
| QuicServer.InOrderIff | internal/ingress/quicfwd/quicfwd.go:391-401 | The remote receives the datagrams in order of arrival if and only if no buffered one is replayed after one written through |
| QuicServer.ReplayOvertaken | internal/ingress/quicfwd/quicfwd.go:391-401 | A run in which the second datagram reaches the remote before the first, against the comment that replay keeps the order of arrival |
| QuicDelivery.DispatchMeaning | internal/ingress/quicfwd/quicfwd.go:196-233 | In every run a datagram is brought to the registered session of its sender, or else, with a long header and room in the table, to a new one |
| QuicDelivery.DeliveryMeaning | internal/ingress/quicfwd/quicfwd.go:240-313 | In every run a datagram brought to an open session without a remote is buffered behind those already there unless 16 datagrams or 32 KiB would be exceeded, the first one to name the host starts the connection, and with a remote the reader goes on to write it |
| QuicDelivery.WriteMeaning | internal/ingress/quicfwd/quicfwd.go:249-258 | Only the write itself takes the reader away from that datagram, and a write that succeeds puts it at the end of the wire |
| QuicDelivery.KeptWhileWaiting | internal/ingress/quicfwd/quicfwd.go:307-313 | Until its remote is published an open session loses nothing it has buffered |
| QuicDelivery.EverythingReplayed | internal/ingress/quicfwd/quicfwd.go:370-401 | Over every run in which no write of the replay fails: from the moment the remote of an open session is published, the datagrams buffered until then are on the wire, in order and once each, up to those still to be replayed, and all of them once the replay has ended |
| QuicDelivery.BufferedReachesRemote | internal/ingress/quicfwd/quicfwd.go:240-401 | From end to end: a datagram buffered at any time before that has then reached the remote or waits its turn, and has reached it when the pump runs |
| QuicDelivery.FailureEndsReplay | internal/ingress/quicfwd/quicfwd.go:392-401 | After a failed write of the replay nothing more of the buffer is ever sent |
| QuicDelivery.FinishMeaning | internal/ingress/quicfwd/quicfwd.go:440-475 | In every run only the first caller of finish closes the session: it drops what waits, takes the remote away to be closed, and reports the session exactly if it was not counted and its host and action are known |
| QuicDelivery.ConnectMeaning | internal/ingress/quicfwd/quicfwd.go:370-404 | In every run an open session takes the dialled remote and hands what it buffered to the replay, a closed one gives the remote up; after the replay the pump runs; a remote given up is closed |
| QuicDelivery.TasksAdvance | internal/ingress/quicfwd/quicfwd.go:316-475 | Each step of connect and of finish brings it nearer to its end, connect within 21 steps, and no other step takes it back |
| QuicDelivery.NeverStuck | internal/ingress/quicfwd/quicfwd.go:316-475 | No task is ever stuck: a connect under way, the rest of a finish, a pump and the janitor always have a step they can take |
| DomainIndex.DomainSet.Descend | internal/ruleset/domain.go:110-121 | One step of the insertion loop: the child is found or made, the trie stays a finite tree, and no terminal mark changes |
| DomainIndex.DomainSet.InsertPath | internal/ruleset/domain.go:110-121 | The insertion loop reaches the node of the reversed non-empty labels and keeps the trie a finite tree |
| DomainIndex.DomainSet.AddSuffix | internal/ruleset/domain.go:104-126 | The end of the path becomes terminal and is counted if it was not |
| DomainIndex.DomainSet.AddRule | internal/ruleset/domain.go:53-102 | After every line the index is faithful to the list of rules added, each line read as DomainLines.LineRead says |
| DomainIndex.DomainSet.SuffixRulesInTrie | internal/ruleset/domain.go:142-153 | A non-empty prefix of the reversed labels ends at a terminal node if and only if some suffix rule hits the host |
| DomainIndex.DomainSet.HitBySort | internal/ruleset/domain.go:129-161 | A hit is by an exact rule, a suffix rule or a keyword, and by nothing else |
| DomainIndex.DomainSet.WalkTrie | internal/ruleset/domain.go:142-153 | The cursor walk finds exactly the terminal prefixes |
| DomainIndex.DomainSet.Match | internal/ruleset/domain.go:129-161 | The index answers exactly as a naive scan of all added rules |
| DomainIndex.DomainSet.Len | internal/ruleset/domain.go:46-50 | The length is the number of counted rules, a repeated suffix rule counting once |
| DomainIndex.CountedIff | internal/ruleset/domain.go:53-126 | The length is positive exactly when some line was a rule |
| DomainIndex.DotsRuleIsDead | internal/ruleset/domain.go:104-126 | A line of three dots is counted but can never hit |
| DomainRules.DeadRuleIff | internal/ruleset/domain.go:53-160 | Of all lines that are counted as a rule, exactly those read as a suffix rule without a label can hit no host |
| DomainRules.PortHidesHost | internal/ruleset/domain.go:163-170 | Every host name made of labels is hit by its own suffix rule, and with a port behind it is not: the port is not stripped |
| DomainIndex.Step | internal/ruleset/domain.go:112-121 | From a node on the path either the child carries on, or no longer path exists |
| DomainLines.LineRead | internal/ruleset/domain.go:53-102 | Every line, in any case, between spaces and with a comment behind it: full: and a host is the rule for that host alone; the host, also behind a dot, +. or domain:, is the suffix rule of its labels; keyword: and a word is that keyword; a comment or blank line is no rule |
| DomainLines.BelowHost | internal/ruleset/domain.go:104-126 | The labels of a host end in given labels exactly when it is the host they spell or ends in a dot and that host |
| DomainLines.ListMeaning | internal/ruleset/domain.go:129-161 | For every list of such lines and every host asked for: the list matches exactly if one line lists the normalised host in full, or as the host itself or one it lies below, or has a keyword that occurs in it |
| DomainLines.ParseDomains | internal/ruleset/loader.go:37-45 | The loader adds every line of the file in order |
| DomainLines.AnswerFromList | internal/ruleset/loader.go:37-45 | The index built from such a list answers just so |
| DomainLines.AskedAs | internal/ruleset/domain.go:163-170 | A host is found in any case, between spaces, with a final dot or in brackets |
| CidrIndex.NestedIncludes | internal/ruleset/cidr.go:107-111 | A nested prefix holds only addresses of the outer one |
| CidrIndex.NestedOrDisjoint | internal/ruleset/cidr.go:107-111 | Two prefixes of a family that share an address are nested one way or the other |
| CidrIndex.EntryRange | internal/ruleset/cidr.go:60-68 | A masked prefix holds exactly one range of addresses |
| CidrIndex.MaskedIsEntry | internal/ruleset/cidr.go:60 | Masking keeps the set of addresses |
| CidrIndex.Search | internal/ruleset/cidr.go:104-106 | The binary search returns the first index whose entry starts after the address |
| CidrIndex.Lookup | internal/ruleset/cidr.go:97-112 | Search and back-scan accept exactly when one of the last 64 entries starting at or before the address holds it |
| CidrIndex.WindowSound | internal/ruleset/cidr.go:107-112 | No address outside every listed prefix is accepted |
| CidrIndex.MissedIff | internal/ruleset/cidr.go:107-112 | A covered address is missed if and only if 64 further entries start between the last entry that holds it and the address |
| CidrIndex.AgreesIff | internal/ruleset/cidr.go:97-112 | The search agrees with the linear scan on every address if and only if no entry reaches, unaided by later ones, past the start of the entry 64 places on |
| CidrIndex.ShallowComplete | internal/ruleset/cidr.go:97-112 | If no listed prefix has more than 63 others nested inside it, every covered address is found, whatever order the sort gave equal starts |
| CidrIndex.ShallowPermuted | internal/ruleset/cidr.go:79-83 | That condition does not depend on the order of the list |
| CidrIndex.CrowdedMisses | internal/ruleset/cidr.go:107-112 | One /8 with 64 nested /24 blocks: an address of the /8 is not found |
| CidrIndex.CIDRSet.AddRule | internal/ruleset/cidr.go:31-69 | A line that parses adds its masked prefix to the list of its family, any other line adds nothing |
| CidrIndex.CIDRSet.Finalize | internal/ruleset/cidr.go:72-83 | Both lists are sorted, nothing is lost or added |
| CidrIndex.CIDRSet.Match | internal/ruleset/cidr.go:86-113 | A finalized set accepts only addresses of added prefixes of their own family, and all of them when nesting is shallow; mapped addresses are unmapped first, zoned ones never match |
| CidrLines.LineMeaning | internal/ruleset/cidr.go:31-69 | Every line, between spaces and with a comment behind it: a prefix, alone or behind a rule type and a comma, stands for that prefix with its host bits cleared, a bare address for the prefix of that address only |
| CidrLines.NoRuleInLine | internal/ruleset/cidr.go:32-38 | A comment line and a blank one stand for nothing |
| CidrLines.ParseCIDRs | internal/ruleset/loader.go:47-56 | The loader yields a set that holds what the lines stand for and is ready to be searched |
| CidrLines.UnmapMeaning | internal/ruleset/cidr.go:90 | Of the sixteen-byte addresses exactly those that start with ten zero bytes and two bytes 255 are unmapped, to the four bytes they end in |
| CidrLines.MatchMeaning | internal/ruleset/cidr.go:86-113 | An address is in the set if it agrees with a listed prefix of its family in the first bits; one with a zone is in none |
| Policy.DecisionIsUnique | internal/policy/policy.go:280-298 | First match determines the decision |
| Policy.NormalizeAnswers | internal/policy/policy.go:352-367 | Answers are unmapped and listed once each, first occurrences in order |
| Policy.OrderIrrelevant | internal/policy/policy.go:370-380 | Whether a rule matches depends only on which addresses were answered |
| Policy.RuleMatches | internal/policy/policy.go:369-409 | The rule and its scan over the addresses match exactly as specified, kind by kind |
| Policy.Engine.AddRule | internal/policy/policy.go:169-215 | A rule is compiled and appended, sets the fallback, or is refused; nothing else changes |
| Policy.Engine.DomesticRulesReady | internal/policy/policy.go:160-166 | Ready exactly when both domestic sets are registered and not empty |
| Policy.Engine.MatchResolved | internal/policy/policy.go:276-298 | The first rule that matches decides, else the fallback |
| Policy.GoogleFixFor | cmd/5gpnd/main.go:211-218 | The loop appends the configured egress to every Google line |
| Policy.BuiltinAdBlock | internal/config/config.go:215-228 | The allow-list lines come before the blocking line; unusable entries are dropped |
| Policy.ApplyRules | cmd/5gpnd/main.go:197-254 | Fails exactly when a line has fewer than three fields; otherwise the engine holds the compiled layers in order and the fallback that PolicyMeaning.FallbackMeaning describes |
| PolicyLayers.Layered | cmd/5gpnd/main.go:222-227 | The compiled program is the six layers one after another |
| PolicyLayers.PlainLine | cmd/5gpnd/main.go:228-235 | A line with plain fields is read back as its fields |
| PolicyLayers.PrivateBlocks | internal/config/config.go:300-308 | The five literals are exactly the five private address ranges |
| PolicyLayers.PrivateAlwaysDirect | internal/config/config.go:300-308 | For every configuration: a target with a private address, literal or resolved, is decided direct by the first layer, and only such targets are |
| PolicyLayers.DoHAlwaysBlocked | internal/config/config.go:340-351 | For every configuration: a DNS-over-HTTPS host without a private address is blocked, and that layer decides nothing else |
| PolicyLayers.DoHReportAgrees | internal/config/config.go:356-359 | On the hosts targets carry, IsBuiltinDoHBlocked names exactly those the blocking layer matches |
| PolicyLayers.FinalLineInert | cmd/5gpnd/main.go:237-252 | A FINAL line anywhere in the user rules changes neither the rules nor the fallback |
| PolicyLayers.ProxyNeedsRuleOrSets | cmd/5gpnd/main.go:248-252 | With either domestic set missing or empty nothing is proxied except by a rule that matched |
| PolicyLayers.FinalChangesOnlyFallback | cmd/5gpnd/main.go:211-252 | Configurations that differ only in Final decide every target by the same rule or both by the fallback, and differ at most in the egress of a Google rule |
| PolicyLayers.GoogleRules | internal/config/config.go:319-338 | Every Google line compiles to a proxy rule for its domain with the egress of the fallback up to its first comma |
| PolicyLayers.GoogleFollowsFinal | cmd/5gpnd/main.go:211-218 | The Google lines follow the configured egress if and only if its name has no comma |
| PolicyLayers.CommaCutsEgress | cmd/5gpnd/main.go:211-218 | An egress with a comma in its name is cut there in the Google lines |
| PolicyLayers.AllowListWins | internal/config/config.go:212-228 | A host under a valid allow-list entry is never blocked by the ad-blocking layer |
| PolicyMeaning.ActionMeaning | cmd/5gpnd/main.go:256-269 | direct, block, reject and proxy mean what they say, proxy: and a name is that egress, and so is any other text; spaces around it do not matter |
| PolicyMeaning.ReadyMeaning | internal/policy/policy.go:160-166 | Ready means that both domestic sets are registered and each holds something |
| PolicyMeaning.FallbackMeaning | cmd/5gpnd/main.go:248-252 | Whichever way the fallback is written, it is in force as written, except that a proxy becomes direct while a domestic set is missing or empty |
| PolicyMeaning.LineMeaning | cmd/5gpnd/main.go:228-235 | A rule line is read field by field, whatever the spaces around a field and whatever follows a third comma |
| PolicyMeaning.WellFormedMeaning | cmd/5gpnd/main.go:228-231 | A configuration is refused exactly if one of its lines has fewer than two commas |
| PolicyMeaning.RuleMeaning | internal/policy/policy.go:369-409 | For every rule line of each of the six kinds: it selects exactly the targets its kind and value say, and leads them where its action says |
| PolicyMeaning.OtherLines | internal/policy/policy.go:203-209 | A line of kind FINAL is no rule, and one of any other kind is refused |
| PolicyMeaning.DecisionNames | internal/policy/policy.go:282-297 | A decision names the first rule that matches, by place and by text, or is the fallback |
| PolicyMeaning.HeldMeaning | internal/policy/policy.go:395-402 | A loaded address set holds no address outside its prefixes, and every one inside if no prefix has 64 others nested in it |
| PolicyMeaning.AllowEntryMeaning | internal/config/config.go:215-228 | An allow-list entry stands for the domain it names, with or without a dot in front, and for nothing if that contains a comma, a slash or a space |
| PolicyMeaning.RouteMeaning | cmd/5gpnd/main.go:197-254 | For every configuration and target, where the target goes: direct for a private address, blocked for a DNS-over-HTTPS host, then as the user rules say, direct for an allowed host, blocked for one in the advertising set, through the proxy for the Google hosts, direct for a domestic host or address, and else the fallback |
| PolicyMeaning.RegisteredMeaning | cmd/5gpnd/main.go:142-192 | After loading, a name leads to the last rule set loaded under it |
| PolicyMeaning.LoadRuleSets | cmd/5gpnd/main.go:142-192 | The loop registers every rule set that could be read under its name |
| PolicyMeaning.Route | cmd/5gpnd/main.go:127-140 | From loaded files to a decision: setup and match send the target where RouteMeaning says |
| BuiltinStrip.NormalFields | internal/config/config.go:386-392 | The fields of a line can be read off its normal form, up to case |
| BuiltinStrip.SameNormalForm | internal/config/config.go:386-392 | A line with the normal form of a built-in line is compiled with its type and, up to case, its value |
| BuiltinStrip.StripBuiltin | internal/config/config.go:363-384 | The loop drops exactly the user lines whose normal form is that of a built-in line |
| BuiltinStrip.RepeatDead | internal/config/config.go:363-384 | A user line that repeats a line of the two leading layers never decides anything |
| BuiltinStrip.StrippingKeepsDecisions | internal/config/config.go:363-384 | Dropping every such repetition changes no decision: same action, egress and rule for every target |
| BuiltinStrip.MigrationChangesIff | internal/config/config.go:363-384 | Per target: stripping as the source does it changes the outcome if and only if no leading layer matches, the first matching user line repeats a line of the trailing layers, and what is left decides otherwise |
| BuiltinStrip.RepeatedDownloadLine | internal/config/config.go:363-384 | A configuration and a host for which it does: the repeated Google line proxied the host in front of a user rule that now blocks it |
| BuiltinStrip.MigrationKeepsDecisions | internal/config/config.go:363-384 | So it changes no decision when no user line repeats one of the trailing layers |
| BuiltinStrip.TrailingRepeatMatters | internal/config/config.go:363-384 | A repeated GEOIP line in front of another user rule decides direct before stripping and leaves the decision to that rule afterwards |
| Stats.Store.Conn | internal/stats/stats.go:250-267 | Counts one connection on its day by action and outcome, and marks the store dirty |
| Stats.Store.Traffic | internal/stats/stats.go:272-292 | Adds the clamped byte counts to the day and to the host, unless the host is empty or an address; does nothing for no bytes |
| Stats.Store.AdBlockSuccess | internal/stats/stats.go:316-346 | Counts one hit for its day, in total and for its host, and keeps the last 100 hits |
| Stats.Store.FlushBegin | internal/stats/stats.go:121-138 | Does nothing when clean; otherwise prunes, takes the snapshot and clears the flag, or only prunes if encoding fails |
| Stats.Store.FlushEnd | internal/stats/stats.go:140-157 | The file becomes the snapshot, or stays and the store is dirty again, whichever of the three file operations failed |
| Stats.PruneDays | internal/stats/stats.go:188-197 | Exactly the 90 latest days stay |
| Stats.KeepTop | internal/stats/stats.go:198-229 | Exactly 400 hosts stay, and each outranks every one that was dropped: by traffic, or for blocked hosts by hits and then by name |
| Stats.TopIsUnique | internal/stats/stats.go:219-229 | So which blocked hosts stay is determined |
| Stats.Prune | internal/stats/stats.go:187-235 | Pruning keeps the latest days, the top hosts and the last 100 hits, and touches no total |
| StatsRuns.StepKept | internal/stats/stats.go:121-158 | Every recording, flush step, failure and restart keeps the invariant |
| StatsRuns.FileHoldsData | internal/stats/stats.go:118-158 | In every run: with no flush in flight and no unsaved change the file, if there is one, is the data, and without a file nothing was recorded since the start |
| StatsRuns.FinalFlushPersists | internal/stats/stats.go:94-158 | After a flush that succeeds with no write during it, a restart finds exactly the retained data |
| StatsRuns.CountersConserved | internal/stats/stats.go:250-346 | In every run each day has direct + proxy + blocked at most conns and failed at most conns; the ad total is the number of hits, at least the daily and the per-host sums, equal until pruning drops something; the recent list is the last 100 hits |
| StatsRuns.RunsAreFlushes | internal/stats/stats.go:121-158 | The flush steps of the runs are those of the store |
| StatsTally.CountersAreTallies | internal/stats/stats.go:94-346 | In every run, whatever failed and however often the process was restarted, every entry of the data, and of the file, is exactly the tally of the recordings it goes back to: for a day the connections by action and failure, the bytes and the blocked requests, for a host its bytes or its blocked requests |
| StatsTally.RunIsTallied | internal/stats/stats.go:250-346 | Without a restart, and as long as pruning does not drop the entry, that is the tally of the whole run |
| StatsTally.HostKeyMeaning | internal/stats/stats.go:301-311 | A host is counted in small letters, without the spaces around it and without a final dot |
| StatsTally.RetentionMeaning | internal/stats/stats.go:187-235 | Pruning leaves at most 90 days, 400 hosts, 400 blocked hosts and 100 hits, and drops none while there are no more |
| StatsTally.SumsExact | internal/stats/stats.go:187-346 | As long as pruning drops no day and no blocked host, the sums over days and over hosts are exactly the ad total |
| StatsTally.NewStore | internal/stats/stats.go:75-98 | A new store is clean and empty and has no file |
| StatsTally.PruningIsUnique | internal/stats/stats.go:187-235 | Which days and which blocked hosts stay is determined |
| StatsTally.AdSinceMeaning | internal/stats/stats.go:316-330 | The ad statistics date from the first blocked request |
| StatsSummary.TotalRemove | internal/stats/stats.go:486-495 | The total does not depend on the order in which days are added |
| StatsSummary.Summarize | internal/stats/stats.go:439-472 | One loop over the days, latest first, yields the all-time, 30-day and 7-day totals and the recent days |
| StatsSummary.TopHosts | internal/stats/stats.go:474-483 | The hosts with most traffic, in order, none left out that has more than one listed; cutting at a negative length panics, and only that |
| StatsSummary.WindowsNested | internal/stats/stats.go:458-468 | 7 days at most 30 days at most all time, in every field |
| StatsSummary.TotalBalanced | internal/stats/stats.go:486-495 | Balanced days sum to balanced totals |
| TraceFiles.ShiftArchives | internal/trace/recorder.go:167-177 | The renaming loop, whichever rename fails: exactly which slot holds which file afterwards |
| TraceFiles.ShiftLosesOldest | internal/trace/recorder.go:162-178 | Whatever fails, of the log at most the file in the oldest slot is lost |
| TraceFiles.ShiftLosesExactly | internal/trace/recorder.go:166-177 | When the oldest archive is removed first, it and nothing else is lost |
| TraceFiles.FileCount | internal/trace/recorder.go:162-178 | At most backups + 1 files |
| TraceRotation.RotateArchives | internal/trace/recorder.go:162-178 | Exactly what stays after any failure; without one every archive stands one slot higher, the active name is free and only the oldest archive is gone |
| TraceRotation.NewRecorder | internal/trace/recorder.go:38-66 | Startup: defaults for size and backups, the compaction of an oversized file, the active file opened and measured; or the error, with the files as they then are |
| TraceRotation.Recorder.constructor | internal/trace/recorder.go:63-65 | A new recorder is open on the files as they are, its invariant established |
| TraceRotation.Recorder.OpenAppend | internal/trace/recorder.go:139-152 | Opening changes no content; a missing file is created empty |
| TraceRotation.Recorder.MoveAside | internal/trace/recorder.go:123-128 | The archives move up or the rotation fails, with at most the oldest file lost and the active one untouched by a failure |
| TraceRotation.Recorder.Rotate | internal/trace/recorder.go:116-137 | For every pattern of failures at most the oldest file of the log is lost; a rotation that fails before the new file is created keeps the active one; without failures the files are exactly the moved ones and an empty active one |
| TraceRotation.Recorder.Record | internal/trace/recorder.go:68-99 | For every pattern of failures the log gains a prefix of the line at its end and loses at most its oldest file; no file exceeds the limit for lines within it; without failures the whole line is written, after a rotation exactly when it would not fit |
| TraceRotation.Recorder.Append | internal/trace/recorder.go:91-98 | The bytes taken are appended to the active file, nothing else changes |
| TraceRotation.SlotsOfRun | internal/trace/recorder.go:68-99 | Over any fault-free run, after r rotations the first r slots hold files rotated for being within one line of the limit, and the earlier archives stand r slots further on |
| TraceRotation.NothingLost | internal/trace/recorder.go:68-99 | As long as rotations reach only free slots, the log is what it was followed by every line written |
| TraceRotation.FreshRun | internal/trace/recorder.go:68-99 | Over every fault-free run on a log without archives: everything written is still there if and only if there were no more rotations than slots; otherwise every slot is filled by a file of more than the limit minus one line |
| TraceRotation.Recorder.Close | internal/trace/recorder.go:101-114 | A recorder whose file is not open does not become closed |
| TraceStartup.TailIsLongest | internal/trace/recorder.go:214-248 | For any file over the limit, torn or not: startup keeps lines from their beginning and as many as fit under the limit, and nothing exactly if none fits |
| TraceStartup.RotateOversized | internal/trace/recorder.go:180-212 | Exactly what is on disk after any failure: until the compacted tail is in place the active file is untouched, then the tail is the first archive and the active file goes |
| TraceStartup.PlacedLog | internal/trace/recorder.go:208-211 | The log then ends with the tail, and with the whole active file behind it, and so with the tail twice, exactly if the last removal fails |
| TraceStartup.StartupSafe | internal/trace/recorder.go:180-212 | Whatever fails: a file under the limit is left alone, the active file stays unchanged until its compacted tail is the first archive, and it is gone if all went well |
| TraceStartup.StartupOkIff | internal/trace/recorder.go:180-212 | A start with an oversized file succeeds exactly if no lookup, copy, archive move, rename or removal of the active file fails; a failure before the tail is in place leaves the active file untouched |
| TraceStartup.StartupMeaning | internal/trace/recorder.go:180-212 | What a start that succeeds makes of an oversized file: without archives it goes, with them its tail becomes the first and every archive stands one slot further on |
| TraceStartup.NoGapIff | internal/trace/recorder.go:195-211 | The log after a start is the end of the log before it if and only if the archives that stay are also what stood right before the tail: so when nothing is cut off or no archive stays, and not when archives and cut part end differently |
| TraceStartup.StartupLeavesGap | internal/trace/recorder.go:195-211 | Three lines in an archive and an oversized file: the middle one is gone afterwards |
| TraceStartup.TailArchivedAgain | internal/trace/recorder.go:208-211 | After a failed last removal the next start archives the same tail again, right behind the first |
| Rings.Ring.Add | internal/monitor/monitor.go:123-129 | The ring holds the end of its history after every add |
| Rings.Ring.All | internal/monitor/monitor.go:132-140 | After any adds the samples are the last min(n, capacity), oldest first |
| Rings.Ring.Since | internal/monitor/monitor.go:142-150 | Those of the held samples that are not older than the time, in order |
| Rings.SinceMeaning | internal/monitor/monitor.go:142-150 | Exactly the samples not older than the time, in their order |
| Rings.Refill | internal/monitor/persist.go:99-121 | Loading appends exactly the samples newer than the cut-off, in order |
| Rings.SaveThenLoad | internal/monitor/persist.go:43-128 | Saving a ring and loading it yields exactly the samples newer than 25 hours, in the same order |
| Rings.NewerIsSuffix | internal/monitor/persist.go:99-121 | In time order nothing but the oldest samples is lost |
| Rings.Summarize | internal/monitor/monitor.go:196-225 | Counts, mean, maximum and last failure of the samples, and a 95th percentile with the rank it should have |
| Alerts.Monitor.RecordProbe | internal/monitor/monitor.go:358-391 | Only the probed egress changes, by the automaton step |
| Alerts.Monitor.ForgetEgress | internal/monitor/monitor.go:433-446 | The forgotten egress starts over, others are untouched |
| Alerts.TrackMeaning | internal/monitor/monitor.go:371-385 | The remembered state is what the history says: the failure streak, the last alarm, and whether this streak has been alarmed |
| Alerts.AlarmIff | internal/monitor/monitor.go:377-385 | An alarm is sent exactly for the alertAfter-th failure of an unbroken streak, if the last alarm is at least a cooldown ago |
| Alerts.RecoveryIff | internal/monitor/monitor.go:371-376 | A recovery is sent exactly for the success that ends an alarmed streak |
| Alerts.Alternate | internal/monitor/monitor.go:371-385 | Alarms and recoveries strictly alternate, starting with an alarm |
| Alerts.AlarmsApart | internal/monitor/monitor.go:379-383 | Two alarms of an egress are at least the cooldown apart |
| Alerts.OutageReportedIff | internal/monitor/monitor.go:377-385 | An outage is reported if and only if its alertAfter-th failure comes a cooldown after the last alarm; otherwise it stays silent however long it lasts |
| Alerts.RelapseIsSilent | internal/monitor/monitor.go:377-385 | With the defaults, a link that drops for good a few minutes after an alarm is not reported again |
| ReleaseTags.TagRead | internal/update/update.go:463-483 | Every tag, with or without a v, with one to three decimal numbers, with or without a suffix, is read as its numbers and its suffix, a number left out being 0 |
| ReleaseTags.NewerMeaning | internal/update/update.go:446-462 | Of any two such tags the first is newer exactly if at the first difference its number is the greater one, or if the numbers are the same and it alone has no suffix or its suffix is the greater string |
| Text.LessMeaning | internal/update/update.go:461 | One string is less than another exactly if they agree up to a place where it ends or has the smaller character |
| Versions.NewerIsWeakOrder | internal/update/update.go:446-483 | Newer is a strict weak order on all tag strings, ties being exactly tags that parse alike |
| Versions.ReleaseNewerThanPreRelease | internal/update/update.go:446-483 | A release tag is newer than the same tag with any suffix |
| Versions.FirstIsTotalOrder | internal/update/update.go:295-302 | With the name tie-break the comparator is a strict total order on names |
| Versions.OrderIsUnique | internal/update/maintenance.go:94-102 | So the sorted listing is determined |
| Versions.PruneVersions | internal/update/maintenance.go:77-116 | Panics if and only if there are fewer backups than are to be kept; otherwise keeps the first of the sorted listing and whatever could not be removed |
| Versions.KeptAreGreatest | internal/update/maintenance.go:103-111 | Every kept backup ranks above every deleted one |
| Versions.CleanupState | internal/update/maintenance.go:24-70 | Exactly the stale staging directories go; backups are pruned only when no update is seen to be live, and then exactly as the sorted listing says |
| Versions.LiveSurvives | internal/update/maintenance.go:48-56 | A live staging directory is never removed |
| Versions.BackupsMeaning | internal/update/maintenance.go:77-92 | The backups are the files, not directories, whose names start with 5gpnd- |
| Versions.PruningMeaning | internal/update/maintenance.go:103-116 | Of a sorted listing the first ones stay, as many as are to be kept, and those of the others that cannot be removed; a negative number counts as none |
| Versions.StaysMeaning | internal/update/maintenance.go:35-56 | The cleanup removes exactly the directories named update- that can be looked up and are older than an hour or hold no script, unless the removal fails; a younger one with a script counts as an update under way |
| Transaction.StepKept | internal/update/transaction.go:67-104 | Every step of the script, of a service cleanup and of time keeps the invariant |
| Transaction.OutcomeTruthful | internal/update/transaction.go:78-104 | When the script has exited exactly one status is written, it is true of the installed binary, and the exit code agrees |
| Transaction.AtMostOneStatus | internal/update/transaction.go:67-104 | No status is ever written twice |
| Transaction.CleanupKeepsIff | internal/update/maintenance.go:35-65 | Exactly when the cleanup of a starting service spares the staging directory of an update, and when it spares its fallback |
| Transaction.SurviveIff | internal/update/maintenance.go:35-65 | Over every run of script, cleanups and time: the fallback is there if and only if every cleanup spared it, and so is the staging directory until the script has ended |
| Transaction.ProtectedForAnHour | internal/update/maintenance.go:48-65 | If no cleanup fails to look up the staging directory and to see its script, neither directory nor fallback is taken from a running transaction within the first hour |
| Transaction.RollbackFindsFallback | internal/update/transaction.go:93-101 | A rollback that copies and renames installs the fallback if and only if every cleanup spared it, and fails otherwise |
| Transaction.LookupFailureLosesFallback | internal/update/maintenance.go:39-43 | With six backups, a cleanup that cannot look up the staging directory prunes the fallback in the middle of an update, and the rollback fails |
| Transaction.ScriptFailureLosesStaging | internal/update/maintenance.go:48-56 | A cleanup for which the script cannot be looked up removes a fresh staging directory, and the update fails |
| Transaction.QuoteRoundTrip | internal/update/transaction.go:108-110 | The shell reads a quoted value back unchanged, whatever it contains |
| TransactionTrail.OutcomeExact | internal/update/transaction.go:78-104 | Over every run of script, cleanups and time the one status is the one called for: success exactly if the new binary was installed and came up as asked for, rolled_back exactly if it did not and the old one was installed and did, install_failed exactly if nothing was replaced, rollback_failed otherwise |
| TransactionTrail.TrailMeaning | internal/update/transaction.go:67-104 | At every moment what has been done and how it went says where the script is |
| TransactionTrail.NeverStuck | internal/update/transaction.go:67-104 | Until it has exited the script can go on, whatever the cleanups took from it |
| TransactionTrail.Advances | internal/update/transaction.go:67-104 | Each of its steps brings it nearer to its report, within seven; cleanups and time do not move it |
| TransactionTrail.AgeMeaning | internal/update/maintenance.go:42-48 | The staging directory is as old as the time that has passed |
| Firewall.CleanPorts | internal/fw/nft.go:116-131 | The valid ports, once each, ascending |
| Firewall.FirstPortMeaning | internal/fw/nft.go:133-140 | The first of the ports from 1 to 65535, or 0 |
| Firewall.AllowedMeaning | internal/fw/nft.go:56-102 | The comments by which a port counts as let in: its own, those of the installer, and for the first TCP port that of the panel |
| Firewall.DeniedMeaning | internal/fw/nft.go:56-103 | Those by which it counts as closed to everyone else |
| Firewall.QuicRulesMeaning | internal/fw/nft.go:161-174 | The rules the takeover looks for: an accept with its own comment, and the rejects of the installer, by their handles |
| Firewall.RestrictPorts | internal/fw/nft.go:56-112 | The loop puts missing allow rules in front and missing deny rules at the end |
| Firewall.RestrictedDecides | internal/fw/nft.go:32-114 | Which packets the restricted chain decides differently: clients are let in where the allow rule was missing, undecided packets are dropped where the deny rule was, everything else is as before |
| Firewall.EnsureIngress | internal/fw/nft.go:28-114 | Both loops over one listing, each over its valid ports once |
| Firewall.IngressDecides | internal/fw/nft.go:28-114 | What both loops together change for a packet |
| Firewall.IngressTwice | internal/fw/nft.go:28-114 | Running both loops again on their own result changes nothing |
| Firewall.EnsureQuicAccept | internal/fw/nft.go:149-186 | The accept is added before the rejects are deleted one by one; any command may fail, and every chain on the way is known |
| Firewall.NoGapIff | internal/fw/nft.go:172-185 | In every chain a packet can meet client QUIC is accepted or rejected, if and only if it is so in the listed chain and either no accept is listed or the first matching rule that is not a deleted reject accepts or rejects it |
| Firewall.InsertedDecides | internal/fw/nft.go:172-185 | Without an accept listed, client QUIC is accepted from the moment one is inserted, however many rejects are gone |
| Firewall.DropLeavesGap | internal/fw/nft.go:161-185 | A reject, the drop for the public and an accept behind it: once the reject is deleted client QUIC is dropped without an answer |
| Firewall.AcceptedAtOnce | internal/fw/nft.go:259-264 | A newly added accept decides at once |
| Firewall.StaleAcceptLeavesGap | internal/fw/nft.go:161-185 | An accept left from another client network keeps the new one out: the reject goes and client QUIC is left undecided |
| Socks5Udp.Wrap | internal/egress/udp.go:238-266 | The datagram is the header of section 7 of RFC 1928 and the payload; names over 255 bytes are refused |
| Socks5Udp.HeaderMeaning | internal/egress/udp.go:238-261 | The header byte by byte: three zero bytes, the address type 1, 4 or 3, the address, and the port in network byte order |
| Socks5Udp.Unwrap | internal/egress/udp.go:269-296 | The payload behind the header, cut to the buffer, or the error of the first check that fails |
| Socks5Udp.RoundTripIff | internal/egress/udp.go:238-296 | A reply with the header Write uses gives its payload back if and only if header and payload together have ten bytes |

## Left out

- InitialPacket.DecryptInvertsProtect: key derivation, header mask and AEAD are parameters with the laws that sealing
  adds 16 bytes and opening undoes it; AES, GCM, SHA-256 and HKDF themselves are not modelled.
- InitialPacket.OpenPacket: the bounds checks behind the length check are asserted facts, not branches, because a length
  of at least 20 implies them.
- DomainIndex.DomainSet.AddRule: text is ASCII; Unicode case folding and Unicode white space are not modelled.
- DomainLines.ParseDomains: the splitting of the file into lines, with its limit of 1 MiB a line, is left out.
- CidrLines.ParseCIDRs: so it is here.
- CidrLines.UnmapMeaning: an address is the number its bytes make; `netip` itself is not modelled.
- PolicyMeaning.LoadRuleSets: download, cache and reading of the rule set files are left out, and so is a set of
  unknown kind, which the source refuses.
- ClientHello.ParseTcpExtensions: names are trimmed and lower-cased as ASCII, where the source uses the Unicode
  functions on text that need not be valid UTF-8.
- ClientHello.ParseTcpSni: trims and lower-cases names as ASCII in the same way.
- ClientHello.AgreeExactly: compares the first entry under ASCII trimming and lower-casing only.
- HttpHost.HostFromHeaderText: Host values are trimmed and lower-cased as ASCII only.
- CidrIndex.CIDRSet.AddRule: the address parsers and the printer of `netip` are parameters.
- CidrIndex.CIDRSet.Finalize: `sort.Slice` is any ordered rearrangement, so the results hold for every sort.
- Policy.Engine.MatchResolved: the engine refers to its named sets by value, as their indexes answer for them after
  loading; sharing of the set objects, the resolver with its cache and timeout, and `ParseTarget` are not modelled.
- Policy.ApplyRules: reading and defaulting of the configuration file are not modelled.
- BuiltinStrip.MigrationKeepsDecisions: says nothing of lines that repeat the trailing layers, because for those it is
  false; `BuiltinStrip.MigrationChangesIff` says exactly when.
- PolicyLayers.PrivateAlwaysDirect: assumes that the prefix parser reads the five built-in literals as the five blocks.
- QuicServer.InvariantOfRuns: sessions are values in a sequence rather than heap objects, time is absent (the janitor
  may finish any session at any moment), and traffic callbacks and the trace are left out.
- QuicServer.ReportedOnce: what the callback does, and a hint table that answers with an empty host, are outside the
  model.
- Stats.Store.FlushEnd: JSON encoding is taken to be lossless; 64-bit overflow of counters and a crash inside a file
  operation are not modelled.
- Stats.Store.Traffic: whether a host is an address literal is a parameter.
- StatsSummary.Summarize: the host ranking is `StatsSummary.TopHosts`; the ad-block summary, built in the same way, is
  left out.
- TraceRotation.Recorder.Record: the rate-limited warning and a file changed by another process are left out.
- TraceStartup.NoGapIff: for archives and a cut part that end alike the condition compares their bytes; nothing simpler
  decides that case.
- TraceRotation.FreshRun: runs with failures are covered call by call, by `TraceRotation.Recorder.Record`.
- Rings.SaveThenLoad: JSON encoding and the millisecond samples of old snapshots are left out; traffic totals are copied
  as they are.
- Rings.Summarize: round-trip times are not negative; formatting and the snapshot over all egresses are left out.
- Alerts.Monitor.RecordProbe: concurrent probes of one egress are taken in the order of the lock; texts are left out.
- Versions.PruneVersions: the names in a directory are distinct.
- Transaction.RollbackFindsFallback: the jobs are updates, whose new binary lies in the staging directory; in a
  rollback by hand it is one of the backups.
- Transaction.OutcomeTruthful: writing the result file is taken to succeed; when it fails no status exists.
- Firewall.NoGapIff: the rules with the comment of the QUIC reject are taken to be rejects, which is how the
  program writes them (internal/fw/nft.go:211-214).
- Firewall.EnsureQuicAccept: parsing the listing is left out, and `RestoreQUICReject` mirrors it.
- Firewall.RestrictPorts: a failing command leaves the rules inserted so far; only complete runs are stated.
- Socks5Udp.Unwrap: the control connection, the association handshake and `fixRelayAddr` are left out.
- Connection limits of the TCP listener (`acquire`, `release`), dial paths, share links, bot, panel, profiles and DNS
  serving: foreign effects or simple bookkeeping.
