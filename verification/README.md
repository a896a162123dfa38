# Verified models of the tunnel, bridge and login cores

A Dafny model of the self-contained algorithms and protocols of trzsz-ssh for RootShell: the capture proxy of
`vpntunnel/` (HTTP/1.x engine, DNS packets, host matcher, caches, fake addresses, peeked connections, SOCKS5 dialer),
the mobile bridge of `iosbridge/` (discard-marker filter, handle tables racing with Close, port forwarder, SOCKS5
server) and two pieces of `tssh/` (UDP mode over jump hosts, OpenSSH time values).

Objects that the program updates in place are classes (`FakeIPPool`, `LruTable`, `CertMinter`, `PeekedConn`,
`DiscardMarkerFilter`, `Buffer`, `PortForwarder`, `Transport`, ...); loops are methods with invariants; each is proved
equal to a specification function, and what the program is for is proved about that function. Concurrent protocols
are state machines whose steps are the atomic operations and critical sections of the source, proved over every
interleaving; the classes beside them are those critical sections, each tied to one step. Go strings and byte slices
are sequences of bytes; integer widths are written out wherever they matter. Automatic induction is switched off on
every lemma, so that each inductive step is in its body.

`dafny verify dfyconfig.toml` checks the whole project.

| module | what it is about |
|---|---|
| `Bytes`, `Text`, `BufReader`, `NetAddr`, `Recency` | shared: byte strings, text functions, the buffered reader, addresses, the LRU table |
| `HostMatch`, `HostRules` | glob matching with one backtrack point; the rule list, from the texts of its lines to the answers |
| `UdpPacket` | ones'-complement checksums (RFC 1071), packet building and parsing (RFC 791, RFC 768, RFC 8200) |
| `DiscardFilter` | stripping discard markers from a stream read in pieces |
| `CertCache`, `DnsCache` | the single-flight certificate cache and the DNS name cache |
| `HandleTables`, `Forwarder` | handles racing with Close; the life of port forwards |
| `Socks5`, `Socks5Wire` | both ends of the handshake (RFC 1928), and what they make of any bytes |
| `UdpLogin`, `SshTime` | UDP mode and the global timeout over jump hosts; time values |
| `HttpHead`, `HttpParse`, `HttpBody`, `HttpFraming`, `HttpMessage`, `SpillBuffer` | reading, parsing and writing heads; forwarding bodies; how a body is framed; streams of messages; the buffer that gives up (RFC 9112) |
| `PeekConn`, `FakeIp` | peek, record and replay; the address rings |

## What is exact rather than unconditional

Where a law does not hold on every input, the code is modelled as it is and the law is proved to hold if and only if a
condition on the input holds:

- The glob matcher tests for a literal before it tests for a star. It has the declared meaning on a subject, for every
  pattern, exactly when the subject holds no `*` (`HostMatch.GlobExactIff`).
- Cutting a stream right after a caret that closes a marker, with its echo partner next, lets that partner through,
  first of all in the output of the read it starts; everything else is the same, and with no such cut the cuts do not
  matter (`DiscardFilter.ReadBoundaries`).
- A head with a line longer than the reader's buffer is cut short when the last piece of that line looks like a blank
  line; otherwise, and up to 64 KiB, it is read back exactly (`HttpHead.ReadBackIff`).
- A parsed head is the written head exactly for heads without line breaks, stray colons and untrimmed values
  (`HttpParse.RequestRoundTripIff`, `HttpParse.ResponseRoundTripIff`).
- A built packet parses back exactly when both addresses are of one family and the payload fits the 16-bit lengths
  (`UdpPacket.RoundTripIff`).
- The SOCKS5 server reads the requested target exactly when a name has at most 255 bytes, because its length is cut to
  one byte (`Socks5.RequestUnderstoodIff`).
- A login that is not refused reaches its UDP hops through UDP hops only, in every configuration; it is refused exactly
  when a proxy whose mode shows only after parsing, and which has no multiplexed connection, stands right behind one
  without any mode (`UdpLogin.ReachedOverUdp`, `UdpLogin.RefusedIff`). The global timeout is set at most once in every
  configuration; it is asked for at most once under a condition of its own (`UdpLogin.SetOnce`, `UdpLogin.TimeoutOf`,
  `UdpLogin.AsksOnceIff`).
- A replay delivers the stream exactly when at most 64 KiB were consumed (`PeekConn.PeekedConn.Replay`).
- A fake address resolves exactly when the name is not empty, and at every moment of a run, names asked for again
  included, exactly if at most 8191 names of the run were new (`FakeIp.ResolvesIffNamed`,
  `FakeIp.AlwaysResolvesIff`).
- A body is framed exactly as the texts of the header fields say, and a request is turned down exactly if they say
  nothing (`HttpFraming.RequestFramingIff`, `HttpFraming.ResponseFramingIff`). Names are compared up to Unicode case
  folding and codings in Unicode lower case, so U+017F for an s and U+212A for a k select chunked framing as well
  (`HttpFraming.OddLettersFrame`).
- No write to the destination of a spill buffer follows one that failed, if and only if after the first failed write
  there is no raw write, when that was a write behind the spill, and no payload write beyond the limit, when it was the
  spill itself (`SpillBuffer.StopsWritingIff`). Both ways of breaking it are runs of the code: the head goes out twice,
  or a hole is left (`SpillBuffer.HeadSentTwice`, `SpillBuffer.HoleAfterFault`).
- The successful starts of a forward are accounted for if and only if an undo has deleted the id as often as it was
  inserted with an unknown direction (`Forwarder.StartsAccountedIff`); an insert that is stopped before its undo is
  called back without a start (`Forwarder.UnknownDirectionCallsBack`).
- A failed worker removes by id, and so does an undo. Each removes its own forward if and only if that has not been
  started again since (`Forwarder.RemovesItsOwnIff`, `Forwarder.UndoesItsOwnIff`); otherwise it removes the successor
  (`Forwarder.StaleWorkerRemovesSuccessor`, `Forwarder.UndoDeletesSuccessor`).
- The comment on discard markers calls a raw marker eight bytes long. It is exactly when no caret in its index is
  followed by a possible partner (`DiscardFilter.RawMarkerIff`).

## Model

| member | source | states |
|---|---|---|
| `HostMatch.GlobMatch` | vpntunnel/hostmatch.go:140-164 | the two loops terminate and answer what the loop function does on every input, and the declared meaning of `*` and `?` on every subject without `*` |
| `HostMatch.RunAnswersOwed` | vpntunnel/hostmatch.go:143-159 | from every loop state the loop answers what is still owed: a match from here, or from any later restart of the last star |
| `HostMatch.BacktrackStep` | vpntunnel/hostmatch.go:152-155 | moving the mark by one loses no match: single backtracking is enough |
| `HostMatch.StarStep` | vpntunnel/hostmatch.go:148-151 | forgetting the previous star at a new one loses no match |
| `HostMatch.PeelPiece` | vpntunnel/hostmatch.go:145-147 | a star-free piece matches byte by byte, whatever follows it |
| `HostMatch.GlobIsMatches` | vpntunnel/hostmatch.go:139-164 | for every pattern and every subject without `*`, matcher and declarative meaning agree |
| `HostMatch.GlobExactIff` | vpntunnel/hostmatch.go:144-151 | the agreement holds for all patterns if and only if the subject holds no `*` |
| `HostMatch.RuleForms` | vpntunnel/hostmatch.go:33-40 | the documented rule texts, host alone, host and port, and either excluded, give exactly that rule, for every lower-casing that leaves printable ASCII without capitals alone |
| `HostMatch.CompileHostRules` | vpntunnel/hostmatch.go:54-88 | for any lower-casing function, the rules of the lines that hold one, in order, and the port set and any-port flag of exactly the include rules |
| `HostMatch.Match` | vpntunnel/hostmatch.go:117-131 | for any lower-casing function, a hit is exactly a non-empty host whose first applicable rule, on the name in lower case without its last dot, is an include rule |
| `HostMatch.InterceptedIsPeeked` | vpntunnel/hostmatch.go:105-137 | whatever a matcher compiled from any lines accepts is on port 443 or a port that the port test reports |
| `HostRules.FirstLineWins` | vpntunnel/hostmatch.go:34-131 | from the texts of any list of documented lines: a name without `*` is intercepted on a port if and only if the first line that applies, by its pattern and by port 443, its own port or any port, does not exclude |
| `HostRules.OneLine` | vpntunnel/hostmatch.go:34-131 | a single line `h` intercepts exactly on port 443, `h:n` exactly on port n, `h:0` on every port, `-h` never |
| `HostRules.ExcludedFirst` | vpntunnel/hostmatch.go:34-131 | an excluding line in front keeps a name from every line behind it |
| `HostRules.PeekedIff` | vpntunnel/hostmatch.go:133-137 | a port is reported if and only if an including line names it or port 0 |
| `HostRules.SeveralColons` | vpntunnel/hostmatch.go:90-103 | an address literal with several colons has no port of its own |
| `HostRules.Bracketed` | vpntunnel/hostmatch.go:90-95 | in brackets it has none either, and the brackets are not part of the pattern |
| `HostRules.BracketedPort` | vpntunnel/hostmatch.go:90-95 | the port stands behind the brackets |
| `HostRules.BadPort` | vpntunnel/hostmatch.go:66-71 | what is no port number stays part of the pattern |
| `HostRules.DotAtEnd` | vpntunnel/hostmatch.go:65 | a dot at the end does not count |
| `HostRules.SpacesAround` | vpntunnel/hostmatch.go:57-64 | white space around a line and behind its minus sign does not count |
| `HostRules.NoRule` | vpntunnel/hostmatch.go:58-60 | blank lines and comments hold no rule |
| `UdpPacket.ChecksumAdd` | vpntunnel/dnspacket.go:115-124 | the loop adds the exact big-endian word sum, odd last byte included, modulo 2^32 |
| `UdpPacket.ChecksumFold` | vpntunnel/dnspacket.go:108-113 | the folding loop terminates with the complement of the folded sum |
| `UdpPacket.FoldQuotient` | vpntunnel/dnspacket.go:108-113 | folding takes off multiples of 65535 only, and only the sum zero folds to zero bits |
| `UdpPacket.FoldZeroIff` | vpntunnel/dnspacket.go:108-113 | a sum checks if and only if it is a positive multiple of 65535 |
| `UdpPacket.ComplementChecks` | vpntunnel/dnspacket.go:108-113 | storing the folded complement in a zero word makes the sum check, and so does 0xffff in place of a folded zero |
| `UdpPacket.CopyInto` | vpntunnel/dnspacket.go:127-167 | writing into the buffer replaces exactly that part of it |
| `UdpPacket.FillHeader4` | vpntunnel/dnspacket.go:133-141 | the stores into a zeroed buffer give the IPv4 header with its checksum, and leave the rest zero |
| `UdpPacket.FillHeader6` | vpntunnel/dnspacket.go:145-152 | the stores give the IPv6 header, and leave the rest zero |
| `UdpPacket.FillDatagram` | vpntunnel/dnspacket.go:156-165 | ports, length, payload and then the checksum over pseudo-header and datagram |
| `UdpPacket.FinishPacket` | vpntunnel/dnspacket.go:142-165 | the pseudo-header sum is taken over the addresses already stored in the header |
| `UdpPacket.BuildUDPPacket` | vpntunnel/dnspacket.go:127-167 | the buffer built in place is the packet of the specification for every source, destination and payload |
| `UdpPacket.HeaderChecks4` | vpntunnel/dnspacket.go:133-141 | the IPv4 header re-sums to zero without a 32-bit wrap |
| `UdpPacket.ExactChecksum` | vpntunnel/dnspacket.go:153-161 | within the length bounds no accumulator wraps, so the stored checksum is that of the exact sum |
| `UdpPacket.DatagramChecks` | vpntunnel/dnspacket.go:156-165 | the datagram with its pseudo-header re-sums to zero, including the zero-to-0xffff case |
| `UdpPacket.ChecksumsVerify` | vpntunnel/dnspacket.go:108-167 | every packet within the length bounds verifies at a receiver that sums the packet's own bytes; the stored UDP checksum is never zero |
| `UdpPacket.PseudoHeader` | vpntunnel/dnspacket.go:142-165 | what the receiver adds up is the sum over the pseudo-header bytes and the datagram |
| `UdpPacket.Layout4` | vpntunnel/dnspacket.go:133-141 | the header bytes: version and length, no options, not fragmented, 64 hops, protocol 17 |
| `UdpPacket.Layout6` | vpntunnel/dnspacket.go:145-152 | the same for IPv6 |
| `UdpPacket.ParseIPPacket` | vpntunnel/dnspacket.go:51-94 | defined on every input; what it calls the transport part lies inside the packet |
| `UdpPacket.Read4` | vpntunnel/dnspacket.go:57-94 | byte by byte, what is read from an IPv4 packet with any options: addresses, protocol, transport part, and ports exactly for TCP and UDP in a first fragment of at least eight bytes |
| `UdpPacket.Read6` | vpntunnel/dnspacket.go:76-94 | the same for IPv6 |
| `UdpPacket.ReadIff` | vpntunnel/dnspacket.go:51-89 | a packet is accepted if and only if its version, header length and total length fit its bytes |
| `UdpPacket.ParsedBound` | vpntunnel/dnspacket.go:51-106 | a parsed payload fits its 16-bit length field, and both addresses are of one family |
| `UdpPacket.RoundTrip` | vpntunnel/dnspacket.go:51-167 | parsing a built packet gives back addresses, ports and payload |
| `UdpPacket.RoundTripIff` | vpntunnel/dnspacket.go:51-167 | it does so if and only if the addresses are of one family and the payload is within the length bound |
| `DiscardFilter.IndexEnd` | iosbridge/transport.go:981-999 | four logical index bytes end where the data ends at the latest, and take at least four bytes |
| `DiscardFilter.ConsumeMarkerIndex` | iosbridge/transport.go:981-999 | the loop counts exactly the bytes of the logical index, or -1 when the data runs out |
| `DiscardFilter.PartnerIff` | iosbridge/transport.go:978-993 | the partners of a caret are exactly the bytes with which a terminal echoes a control byte |
| `DiscardFilter.CaretPair` | iosbridge/transport.go:986-995 | a caret and a byte from `?` to `_` are one index byte, a caret with anything else is one by itself |
| `DiscardFilter.Scrub` | iosbridge/transport.go:1025-1078 | the scanning loop lets through and holds back what one pass of the specification does |
| `DiscardFilter.DiscardMarkerFilter.Filter` | iosbridge/transport.go:1002-1079 | one call, fast path included, is one feed of the specification on top of what is held |
| `DiscardFilter.NoMagicPasses` | iosbridge/transport.go:1013-1023 | the fast path agrees with the full scan |
| `DiscardFilter.HoldbackBound` | iosbridge/transport.go:974-1079 | never more than ten bytes are held back |
| `DiscardFilter.HoldbackTight` | iosbridge/transport.go:974-1079 | ten bytes can be held back |
| `DiscardFilter.IndexEndExtends` | iosbridge/transport.go:981-999 | more data changes the length of a complete index only if it ends in a caret whose partner comes next, and then by one |
| `DiscardFilter.SplitRead` | iosbridge/transport.go:1002-1079 | two reads against one read of both: same bytes held, and same output but for the partner of a caret, first in the output of the second read, exactly if the boundary cuts that pair |
| `DiscardFilter.ReadBoundaries` | iosbridge/transport.go:974-1079 | for every way of cutting a stream into reads: same bytes held, the output of one read once the cut-off partner is dropped from the front of each read that starts with one, equality if and only if there is none, holdback at most ten |
| `DiscardFilter.StripsExactlyMarkers` | iosbridge/transport.go:970-973 | any mix of text and markers, each index byte raw or as a terminal echoes it, comes out as the text alone |
| `DiscardFilter.MarkerSkipped` | iosbridge/transport.go:1002-1079 | the magic with any four index bytes other than a caret, raw or echoed, is stripped exactly, whatever follows |
| `DiscardFilter.UnmarkedPasses` | iosbridge/transport.go:1025-1063 | bytes without the magic all come out, 0xFF included, but for the longest beginning of the magic at their end, which is held |
| `DiscardFilter.RawMarkerIff` | iosbridge/transport.go:970-999 | a raw marker is stripped as eight bytes if and only if no caret in its index is followed by a possible partner |
| `Recency.TableAnswers` | vpntunnel/dnscache.go:55-87 | after any run of puts and lookups a bounded table answers exactly for the keys among the `cap` most recently used, with the value last put |
| `Recency.TableIsFront` | vpntunnel/dnscache.go:72-87 | evicting after every put keeps exactly the front of the list in which nothing is ever evicted |
| `Recency.UnboundedOrdered` | vpntunnel/dnscache.go:55-87 | that list holds the keys used, in the order of their last use |
| `Recency.LruTable.Get` | vpntunnel/dnscache.go:65-69 | a hit answers and moves to the front, a miss changes nothing; map and list stay in bijection |
| `Recency.LruTable.Push` | vpntunnel/certmint.go:143-148 | pushes to the front and evicts from the back down to the limit, as the recency list does |
| `Recency.LruTable.Put` | vpntunnel/dnscache.go:76-86 | replaces in place or pushes; either way one put of the recency list, map and list still in bijection |
| `Recency.LruTable.MoveToFront` | vpntunnel/dnscache.go:66 | the list element moves and nothing else changes |
| `Recency.LruTable.DropBack` | vpntunnel/dnscache.go:83-85 | the last element leaves list and map together |
| `DnsCache.DnsNameCache.constructor` | vpntunnel/dnscache.go:51-53 | starts with an empty history |
| `DnsCache.DnsNameCache.Lookup` | vpntunnel/dnscache.go:55-70 | answers the name last put for the address exactly when it is among the 2048 most recently used, and the empty name otherwise |
| `DnsCache.DnsNameCache.Put` | vpntunnel/dnscache.go:72-87 | adds one put of the unmapped address to the history that the table reflects |
| `NetAddr.UnmapIdentifies` | vpntunnel/dnscache.go:65-73 | two addresses share a cache key if and only if they are the same address in sixteen-byte form |
| `CertCache.CertMinter.Enter` | vpntunnel/certmint.go:122-136 | the first critical section is one step of the machine: hit, joined call or new call, and where that leaves the caller |
| `CertCache.CertMinter.Publish` | vpntunnel/certmint.go:140-150 | the second critical section is one step: the call leaves, a minted certificate enters the cache, a failed one does not |
| `CertCache.CertMinter.Minted` | vpntunnel/certmint.go:138 | what the leader mints is left in its call, outside the lock, as one step |
| `CertCache.CertMinter.Finish` | vpntunnel/certmint.go:151-152 | closing the channel is one step, and the leader returns its result |
| `CertCache.CertMinter.Await` | vpntunnel/certmint.go:131-132 | a waiter that goes on returns what the leader left, as one step |
| `CertCache.InvKept` | vpntunnel/certmint.go:121-153 | every step of every caller keeps the invariant of the whole state |
| `CertCache.SingleFlight` | vpntunnel/certmint.go:121-153 | in every interleaving at most one mint per name, none for a cached name, cached and minting names disjoint, at most 64 distinct cached names |
| `CertCache.SharedResult` | vpntunnel/certmint.go:129-152 | everyone who returns through a call returns the same result for the same name |
| `CertCache.RightCertificate` | vpntunnel/certmint.go:121-153 | a returned certificate was minted for the name asked for, however it was obtained |
| `CertCache.NoLostWaiter` | vpntunnel/certmint.go:129-152 | a caller that cannot step waits for a leader that can |
| `CertCache.CacheIsHistory` | vpntunnel/certmint.go:121-153 | in every reachable state the cache is what the lookups and puts of the run make of an empty table |
| `CertCache.AnsweredIff` | vpntunnel/certmint.go:121-137 | in every reachable state a caller is answered from the cache if and only if its name is among the 64 most recently used, with the certificate last put in; otherwise it joins the mint under way or leads a new one |
| `CertCache.PublishedIsServed` | vpntunnel/certmint.go:121-153 | once a certificate is published, the next call for that name returns it without a mint, in every interleaving in which fewer than 64 other names are used in between |
| `HandleTables.Transport.LoadClosed` | iosbridge/dial.go:63-84 | reading the flag, before dialing and after registering, is one step and answers the flag |
| `HandleTables.Transport.NextRef` | iosbridge/streamlocal.go:281 | the counter hands out the next reference of its kind |
| `HandleTables.Transport.Register` | iosbridge/streamlocal.go:282-287 | files the connection under its reference in its table |
| `HandleTables.Transport.TakeStreamLocal` | iosbridge/streamlocal.go:264-275 | a known handle leaves its table and is the caller's to close; an unknown one is silent success |
| `HandleTables.Transport.TakeExec` | iosbridge/exec.go:335-346 | the same for an exec channel |
| `HandleTables.Transport.SetClosed` | iosbridge/transport.go:669-671 | exactly one Close wins the flag |
| `HandleTables.Transport.Drain` | iosbridge/exec.go:367-374 | empties a table and returns exactly its connections, in every reachable state each once |
| `HandleTables.Snapshot` | iosbridge/streamlocal.go:329-333 | the copying loop collects exactly the connections of a table |
| `HandleTables.InvKept` | iosbridge/dial.go:62-93 | every step of every open, close and shutdown keeps the invariant that places each connection |
| `HandleTables.NeverClosedTwice` | iosbridge/streamlocal.go:262-289 | in every interleaving, at every moment, no connection has been closed twice |
| `HandleTables.NeverStuck` | iosbridge/transport.go:668-693 | whoever is not finished can take a step |
| `HandleTables.NothingLeaks` | iosbridge/exec.go:170-190 | once Close has been called and everyone is done, both tables are empty and everything ever opened was closed exactly once |
| `HandleTables.OpenGivesHandle` | iosbridge/exec.go:103-193 | an open that nothing interrupts ends with a handle that was not there before, for the connection it dialed |
| `HandleTables.HandleLasts` | iosbridge/exec.go:103-379 | in every interleaving a handle stands for its connection until someone is asked to close it or Close drains its table |
| `Forwarder.PortForwarder.Insert` | iosbridge/forward.go:134-167 | the tests and the inserting section are one start step; it inserts exactly when the machine does |
| `Forwarder.PortForwarder.TakeBack` | iosbridge/forward.go:176-179 | taking back the insert of an unknown direction is one undo step |
| `Forwarder.PortForwarder.TakeOne` | iosbridge/forward.go:188-196 | the section of StopForward takes out exactly the forward that callbacks are then owed for |
| `Forwarder.PortForwarder.TakeAll` | iosbridge/forward.go:204-211 | the section of StopAll takes out all forwards and owes a callback for each |
| `Forwarder.PortForwarder.CloseAll` | iosbridge/forward.go:221-233 | the section of Close does so once, and for ever |
| `Forwarder.PortForwarder.RemoveForward` | iosbridge/forward.go:640-648 | a failed worker's removal owes a callback exactly if the id was there |
| `Forwarder.BalanceKept` | iosbridge/forward.go:134-241 | every step keeps the balance of inserts, callbacks, debts and running forwards |
| `Forwarder.StartsIff` | iosbridge/forward.go:134-167 | a forward is put in the map if and only if it has an id that is free, a port if it is remote, and nothing is closed |
| `Forwarder.StopTakes` | iosbridge/forward.go:188-241 | StopForward takes out that forward and no other; StopAll and the first Close take out all, and owe a callback for each |
| `Forwarder.StoppedForGood` | iosbridge/forward.go:188-241 | once whoever stopped a forward is through, in whatever interleaving, it has been cancelled and called back for |
| `Forwarder.Conservation` | iosbridge/forward.go:134-241 | in every reachable state the inserts of an id equal its callbacks, owed callbacks, deletions by an undo and one if it runs |
| `Forwarder.StartsAccountedIff` | iosbridge/forward.go:134-241 | in every reachable state the successful starts of an id equal its callbacks, owed callbacks and one if it runs, if and only if an undo has deleted it as often as it was inserted with an unknown direction |
| `Forwarder.RemovesItsOwnIff` | iosbridge/forward.go:640-648 | in every reachable state what a failed worker removes is its own forward if and only if that was not started again, and nothing if the id is not running |
| `Forwarder.UndoesItsOwnIff` | iosbridge/forward.go:176-181 | in every reachable state an undo deletes exactly its id, and thereby its own insert if and only if the id was not started again |
| `Forwarder.StartsAreStopped` | iosbridge/forward.go:134-241 | with the three supported directions the successful starts are always accounted for |
| `Forwarder.ClosedForever` | iosbridge/forward.go:221-241 | after Close the map is empty and stays empty whatever happens |
| `Forwarder.UnknownDirectionCallsBack` | iosbridge/forward.go:166-182 | a run in which an unknown direction is called back without a start |
| `Forwarder.UndoDeletesSuccessor` | iosbridge/forward.go:166-182 | a run in which an undo deletes a supported forward that was started since, which nobody then owes a cancel or a callback |
| `Forwarder.StaleWorkerRemovesSuccessor` | iosbridge/forward.go:640-648 | a run in which a failed worker removes the forward that replaced its own |
| `Socks5.ServeHandshake` | iosbridge/forward.go:510-591 | on every input stream the server ends, replies and leaves unread what its machine does; after a failed write it has sent a prefix of that |
| `Socks5.Negotiate` | iosbridge/forward.go:511-536 | the method negotiation, with its answer for a client that does not offer the method, and with failed writes |
| `Socks5.ReadHost` | iosbridge/forward.go:555-582 | the three address types, and what happens when the stream ends inside one |
| `Socks5.ReadTarget` | iosbridge/forward.go:543-590 | the CONNECT request from its header to its port |
| `Socks5.DialHandshake` | vpntunnel/dialer.go:134-220 | on every answer stream the dialer writes, ends and leaves unread what its machine does; after a failed write it gives up with a prefix written |
| `Socks5.ReadReply` | vpntunnel/dialer.go:182-219 | the reply header and the bound address of any type |
| `Socks5.Conn.ReadFull` | vpntunnel/dialer.go:223-233 | the read loop, over reads of any size, returns all bytes asked for exactly when that many arrive |
| `Socks5.RequestUnderstoodIff` | vpntunnel/dialer.go:158-176 | the server reads the requested host and port back, with every later byte unread, if and only if the host fits its length byte |
| `Socks5Wire.ServedIff` | iosbridge/forward.go:510-591 | a stream is understood as a request for a target if and only if it is, byte for byte, a greeting that offers no authentication and a CONNECT request for it |
| `Socks5Wire.RequestReadIff` | iosbridge/forward.go:543-590 | the request alone: version, command, any reserved byte, an address of type 1, 3 or 4, and the port |
| `Socks5Wire.GreetingTurnedDown` | iosbridge/forward.go:511-536 | the answers to every greeting: none for another version, 0xFF without the method, 0x00 with it |
| `Socks5Wire.RequestTurnedDown` | iosbridge/forward.go:543-581 | the reply codes: 1 for another version, 7 for another command, 8 for another address type |
| `Socks5Wire.BrokenOff` | iosbridge/forward.go:511-590 | a good handshake that breaks off anywhere is turned down, without a reply during the greeting and with reply 1 during the request |
| `Socks5Wire.ReplyReadIff` | vpntunnel/dialer.go:182-219 | the dialer is connected if and only if the reply is a success with a bound address of any type, and it reads no further |
| `Socks5.LongNameMisread` | vpntunnel/dialer.go:173 | a name over 255 bytes is never the host the server ends up with |
| `Socks5.HandshakeAgrees` | iosbridge/forward.go:469-498 | in every interleaving of both ends the server never refuses and never learns another target; at rest both ends agree and every byte has been read |
| `Socks5.MovesRunOut` | vpntunnel/dialer.go:134-220 | every move of either end brings the handshake nearer to its end |
| `UdpLogin.AssignModes` | tssh/login.go:642-654 | the backward loop assigns each proxy the mode of the specification and asks for the timeout when it does |
| `UdpLogin.AssignedIs` | tssh/login.go:643-653 | the mode of a proxy is its own written mode; else the required one; else that of the last proxy behind it that has one; else none |
| `UdpLogin.ListAsksOnce` | tssh/login.go:646-652 | the backward pass asks for the timeout once, for the proxy nearest the target with a written mode, or not at all |
| `UdpLogin.ThroughProxies` | tssh/login.go:641-669 | the proxies are logged in to one after the other, each through the one before, and then the target |
| `UdpLogin.SshLogin` | tssh/login.go:671-696 | the recursive login has the events, in order, and the path or refusal of the specification |
| `UdpLogin.RequiredLogin` | tssh/login.go:606-696 | a login that must use UDP is never refused, uses it on every hop, at any depth, and only the asking hop asks for the timeout |
| `UdpLogin.ReachedOverUdp` | tssh/udp.go:226-232 | for every tree: the path of a login that is not refused has UDP hops only behind UDP hops, and ends with the mode of the target, or the required one if it has none |
| `UdpLogin.PathOf` | tssh/login.go:606-696 | for every tree: the path of a login that is not refused, hop by hop, each with its own parsed mode or the one assigned to it, from the last multiplexed proxy on |
| `UdpLogin.RefusedIff` | tssh/udp.go:226-232 | for every tree: a login is refused if and only if a proxy whose mode shows only after parsing, and which is not multiplexed, stands right behind one without any mode |
| `UdpLogin.SetOnce` | tssh/udp.go:194-201 | whatever is asked, and in whatever order, the timeout is set at most once, by the first to ask |
| `UdpLogin.AskedFirst` | tssh/udp.go:272-276 | the first event of a login is an ask, so no UDP session finds the timeout unset |
| `UdpLogin.TimeoutOf` | tssh/login.go:606-696 | for every tree: which hop's configuration the timeout comes from |
| `UdpLogin.AsksOnceIff` | tssh/udp.go:194-201 | for every tree: the timeout is asked for at most once if and only if no proxy out of reach of a written mode speaks up a second time |
| `UdpLogin.AgreementKeepsPromise` | tssh/login.go:606-696 | whenever written and parsed modes agree no login is refused, UDP hops are behind UDP hops, and the timeout is asked for at most once |
| `UdpLogin.SurpriseIsRefused` | tssh/udp.go:226-232 | a mode that shows only after parsing, behind a hop without one, is refused |
| `UdpLogin.RepeatedAskIsHarmless` | tssh/udp.go:194-198 | the same behind a UDP hop asks twice, and the timeout stays that of the first ask |
| `SshTime.ConvertSshTime` | tssh/comm.go:483-537 | the loops compute the unbounded total and reject exactly what is malformed or beyond 32 bits |
| `SshTime.AddSegment` | tssh/comm.go:499-533 | the division and subtraction tests are exact: no product or sum wraps, and none is refused that fits |
| `SshTime.OverflowTest` | tssh/comm.go:526-528 | the division test says exactly whether the product exceeds 32 bits |
| `SshTime.AcceptsIff` | tssh/comm.go:483-537 | a text converts to `t` if and only if it is a non-empty list of numbers with units, the last unit optional, worth `t`, and `t` fits |
| `SshTime.RejectsIff` | tssh/comm.go:483-537 | a text is rejected if and only if it has no such reading or its true total is too large |
| `SshTime.UnitWorth` | tssh/comm.go:503-524 | what a number is worth with each of the ten unit letters, and that no other byte is a unit |
| `SshTime.EitherCase` | tssh/comm.go:503-524 | letter case never matters |
| `SshTime.FormatSshTime` | tssh/comm.go:539-569 | the loop writes the specified text |
| `SshTime.FormatIs` | tssh/comm.go:539-569 | the text is weeks, days, hours, minutes and seconds in this order, each as many as fit, with none that is zero |
| `SshTime.RoundTrip` | tssh/comm.go:483-569 | converting a formatted number gives it back, for every 32-bit number |
| `HttpHead.ReadHead` | vpntunnel/http1.go:143-170 | the loop returns the head and leaves the rest, or the error, of the specification, skipping blank lines first and passing on a read error |
| `HttpHead.ReadOneLine` | vpntunnel/http1.go:145-169 | a line of any length is gathered whole, and ends the head exactly if its last piece is blank |
| `HttpHead.LastPieceBlank` | vpntunnel/http1.go:163-168 | which lengths leave a last piece that looks blank |
| `HttpHead.ReadBackIff` | vpntunnel/http1.go:141-170 | proper lines and a blank line, followed by anything, are read back exactly if and only if at most 64 KiB and no line looks blank at its end |
| `HttpHead.TooLargeRefused` | vpntunnel/http1.go:143-170 | a head of more than 64 KiB whose lines do not end it early is turned down as too large |
| `HttpHead.TooLargeOnlyIf` | vpntunnel/http1.go:159-162 | only more than 64 KiB are too large |
| `HttpHead.EofIff` | vpntunnel/http1.go:146-157 | a stream counts as ended rather than broken off if and only if nothing but line ends was left |
| `HttpHead.BlankSkipped` | vpntunnel/http1.go:156-158 | blank lines before a head are skipped |
| `HttpParse.SplitHeadLines` | vpntunnel/http1.go:172-196 | the loop, with folded lines and errors, computes the specified first line and headers |
| `HttpParse.SerializeHead` | vpntunnel/http1.go:230-242 | the loop writes the first line, one line per header and the closing blank line |
| `HttpParse.HeaderLineIff` | vpntunnel/http1.go:179-194 | one written header line is read back as that header if and only if the header is good |
| `HttpParse.HeadersIff` | vpntunnel/http1.go:172-242 | a list of headers is read back from its lines if and only if every header is good |
| `HttpParse.MalformedIff` | vpntunnel/http1.go:172-196 | a head is malformed if and only if some header line is neither blank, nor a continuation, nor a name and a colon |
| `HttpParse.FoldIsOneLine` | vpntunnel/http1.go:184-188 | a header that goes on in a spaced line is the header with both parts on one line |
| `HttpParse.RequestParsesIff` | vpntunnel/http1.go:198-208 | on every text: which request it is read as, if any |
| `HttpParse.ResponseParsesIff` | vpntunnel/http1.go:210-228 | on every text: which response it is read as, if any |
| `Text.SignedDecimal` | vpntunnel/http1.go:219 | a status text with either sign or none is its number, and a sign alone or with other bytes is none |
| `Text.SpaceFirst` | vpntunnel/http1.go:193 | the white space trimmed off a value is exactly that of Unicode |
| `HttpParse.RequestRoundTripIff` | vpntunnel/http1.go:198-246 | a request survives being written and parsed if and only if it is good |
| `HttpParse.ResponseRoundTripIff` | vpntunnel/http1.go:210-254 | a response survives being written and parsed if and only if it is good |
| `HttpParse.ReadSerializedIff` | vpntunnel/http1.go:143-242 | a written head followed by anything is read back exactly if and only if it fits |
| `HttpParse.RequestArrives` | vpntunnel/http1.go:143-246 | written, sent, read and parsed, a good request that fits arrives unchanged and leaves the rest of the stream |
| `HttpParse.ResponseArrives` | vpntunnel/http1.go:143-254 | the same for a response |
| `HttpBody.ReadLine` | vpntunnel/http1.go:394-403 | a line with its newline, or nothing if it does not fit the buffer or the stream ends |
| `HttpBody.CopyN` | vpntunnel/http1.go:329-340 | copies exactly `n` bytes to both writers in any pieces; the destination is never ahead of the sink; short input and failed writes included |
| `HttpBody.CopyChunk` | vpntunnel/http1.go:381-390 | the data of a chunk and its closing line, verbatim to the destination, data alone to the sink |
| `HttpBody.CopyTrailers` | vpntunnel/http1.go:367-380 | trailer lines up to and including the blank one go to the destination only |
| `HttpBody.CopySizeLine` | vpntunnel/http1.go:352-366 | a size line is checked before it is forwarded; a bad one is not forwarded |
| `HttpBody.CopyChunked` | vpntunnel/http1.go:350-392 | the loop does what the specification does, and whatever fails, the destination has received a prefix of the source |
| `HttpBody.CopyBody` | vpntunnel/http1.go:331-348 | every framing forwards what its specification says, read errors included, and a prefix of the source whatever fails |
| `HttpBody.ChunksConserve` | vpntunnel/http1.go:350-392 | on every source, however broken, what is forwarded is a prefix, and with what is left unread all of it when the copy succeeds |
| `HttpBody.SizeOfGoodLine` | vpntunnel/http1.go:356-363 | a numeral with blanks and an extension gives the number it denotes |
| `HttpBody.ChunkSizeIff` | vpntunnel/http1.go:356-363 | a line states a size if and only if its text is a base-16 numeral of it in digits of either case, of at most 63 bits; a sign passes where it means nothing |
| `HttpBody.HexTextIsSize` | vpntunnel/http1.go:356-363 | the numeral of n by division by sixteen, in either case and with any leading zeros, states n |
| `HttpBody.HexAppend` | vpntunnel/http1.go:360 | digits are positional: appending b multiplies by the power of sixteen of its length |
| `HttpBody.GoodBodyCopied` | vpntunnel/http1.go:350-392 | a chunked body whose size lines are numerals of the sizes of their data, followed by anything, is copied verbatim, its data in order to the sink, and exactly the body is consumed |
| `HttpBody.BrokenOffNoticed` | vpntunnel/http1.go:350-392 | a well-formed chunked body that breaks off anywhere is never taken for whole |
| `HttpBody.ChunksExtend` | vpntunnel/http1.go:350-392 | a copy that succeeded on the beginning of a source does the same on all of it |
| `HttpBody.WholeIff` | vpntunnel/http1.go:331-348 | a body with a length is whole if and only if that many bytes came, one without if and only if the stream ended without an error |
| `HttpFraming.FieldTokens` | vpntunnel/http1.go:75-87 | the loops collect the trimmed tokens of every field of a name, compared up to Unicode case folding |
| `HttpFraming.EndsInIff` | vpntunnel/http1.go:75-87 | the last token reads a coding in lower case if and only if the last part that is not blank, of the last field that has one, does |
| `HttpFraming.ReadContentLength` | vpntunnel/http1.go:265-284 | the loop gives the one length that all fields agree on, nothing, or an error |
| `HttpFraming.ContentLengthIff` | vpntunnel/http1.go:265-284 | the length is n if and only if one field reads n, those before it are empty and those behind it read the same; there is none if and only if all fields are empty |
| `HttpFraming.RequestFramingIff` | vpntunnel/http1.go:286-301 | a request has a framing if and only if the texts of its fields say so: a last coding chunked, else an agreed length, else no length |
| `HttpFraming.ResponseFramingIff` | vpntunnel/http1.go:303-327 | a response has a framing if and only if its method, its status and the texts of its fields say so |
| `HttpFraming.ChooseRequestFraming` | vpntunnel/http1.go:286-301 | returns a framing exactly if the texts of the fields say it, and an error if they say none |
| `HttpFraming.ChooseResponseFraming` | vpntunnel/http1.go:303-327 | the same for responses |
| `HttpFraming.LengthFramed` | vpntunnel/http1.go:265-327 | without a transfer coding, any number of Content-Length fields with the decimal text of n, 0 < n < 2^63, frame n bytes |
| `HttpFraming.ChunkedFramed` | vpntunnel/http1.go:286-327 | a last Transfer-Encoding field that ends in chunked, in any letter case, frames chunks, whatever stands before it |
| `HttpFraming.UnframedBody` | vpntunnel/http1.go:286-327 | with neither field a request has no body, and a response ends with the connection |
| `HttpFraming.WordsAreSpelled` | vpntunnel/http1.go:198-327 | the field names and words that are compared with, as they are spelled |
| `HttpFraming.OddLettersFrame` | vpntunnel/http1.go:75-87 | a field name with U+017F and a coding with U+212A select chunked framing |
| `HttpMessage.ForwardNext` | vpntunnel/proxy_h1.go:73-172 | reading, parsing, framing and copying take the next request off the stream and write it out, head as read and body as framed; if that fails, at most a prefix of the bytes from its head on has been written, and nothing without a head |
| `HttpMessage.ForwardAll` | vpntunnel/proxy_h1.go:72-172 | request after request, failed writes included: the requests whose heads are returned are the first ones of the stream, all of them if no write failed, and what has been written out is exactly those in order and then a prefix of the bytes behind them, from a head on |
| `HttpMessage.GoodMessageTaken` | vpntunnel/http1.go:143-348 | a request whose body is framed as the texts of its fields say is taken off the stream exactly, whatever follows |
| `HttpMessage.TakenApart` | vpntunnel/http1.go:143-348 | a stream of any number of good requests is taken apart at exactly their boundaries, whatever follows |
| `HttpMessage.Unambiguous` | vpntunnel/http1.go:143-348 | two lists of good requests with the same bytes are the same list |
| `HttpMessage.AnswerTaken` | vpntunnel/http1.go:303-348 | what follows a good response head is copied by exactly the framing that its method, status and field texts say |
| `HttpMessage.ChunkedAnswerTaken` | vpntunnel/http1.go:303-392 | a response whose fields say chunked, followed by anything, is taken off the stream exactly |
| `SpillBuffer.Buffer.SpillAll` | vpntunnel/http1.go:423-439 | head, then raw bytes, then payload; a failure at either write is remembered and leaves the buffers |
| `SpillBuffer.Buffer.WriteRaw` | vpntunnel/http1.go:443-457 | a raw write buffers, spills first, or streams, for every way the destination may fail |
| `SpillBuffer.Buffer.WriteData` | vpntunnel/http1.go:461-476 | a payload write buffers, spills after, or goes to the sink |
| `SpillBuffer.SpillConserves` | vpntunnel/http1.go:405-476 | for every interleaving of writes nothing is lost or repeated, the buffers keep their bounds, and the buffer has given up if and only if a bound was exceeded |
| `SpillBuffer.StopsWritingIff` | vpntunnel/http1.go:423-476 | for every run, stopping or not: no destination write follows a failed one, if and only if the writer is careful after its first failed write |
| `SpillBuffer.CarefulSendsPrefix` | vpntunnel/http1.go:423-476 | a careful run has sent a prefix of head and raw bytes |
| `SpillBuffer.FaultsSendPrefix` | vpntunnel/http1.go:423-476 | whatever the destination does, a run that stops at the first error has sent a prefix of head and raw bytes, and writes nothing more |
| `SpillBuffer.HeadSentTwice` | vpntunnel/http1.go:461-476 | a payload write after a failed spill sends the head again |
| `SpillBuffer.HoleAfterFault` | vpntunnel/http1.go:453-455 | a raw write after a failed one goes out, and leaves a hole |
| `SpillBuffer.ForwardedUnchanged` | vpntunnel/proxy_h1.go:318-347 | a well-formed chunked body that no rewrite changes arrives as head and body, buffered or spilled, however it was cut into writes |
| `PeekConn.RecordedIff` | vpntunnel/flows.go:146-151 | the record is all that was handed out if and only if that is at most 64 KiB |
| `PeekConn.ReplayIff` | vpntunnel/flows.go:169-174 | record and rest make up the stream if and only if at most 64 KiB were handed out |
| `PeekConn.PeekedConn.Peek` | vpntunnel/flows.go:120-135 | the next bytes without consuming any; on failure whatever has arrived |
| `PeekConn.PeekedConn.Read` | vpntunnel/flows.go:137-153 | buffered bytes first, each byte once and in order; recorded unless the record would overflow, and then reported |
| `PeekConn.PeekedConn.StartRecording` | vpntunnel/flows.go:162-165 | the recording point is what is unread now |
| `PeekConn.PeekedConn.Replay` | vpntunnel/flows.go:169-174 | after any peeks and reads the new connection delivers the stream from the recording point on if and only if at most 64 KiB were consumed |
| `FakeIp.FakeIPPool.constructor` | vpntunnel/fakeip.go:49-57 | an empty ring whose index and slots are inverse |
| `FakeIp.FakeIPPool.Assign` | vpntunnel/fakeip.go:66-80 | one insertion into the ring, and the address of the slot the name has |
| `FakeIp.FakeIPPool.Host` | vpntunnel/fakeip.go:83-96 | the name in the slot an address stands for; nothing for a foreign address or a free slot |
| `FakeIp.PoolInvariant` | vpntunnel/fakeip.go:49-96 | over every run of non-empty names: index and slots inverse, live names at distinct addresses in 198.18.0.0/15, each resolving to its name |
| `FakeIp.SlotAddress` | vpntunnel/fakeip.go:36-64 | the addresses are those from 198.18.0.2 on, one after the other |
| `FakeIp.RetainedIff` | vpntunnel/fakeip.go:66-80 | a key keeps its slot through any run, in which it may come again itself, while the new keys do not exceed the slots still ahead of it; and if it does not come again, only then |
| `FakeIp.NeverGoneIff` | vpntunnel/fakeip.go:66-80 | a key is there at every moment of a run if and only if the new keys do not exceed the slots still ahead of it |
| `FakeIp.StillResolvesIff` | vpntunnel/fakeip.go:66-96 | a new name still resolves after any further names of which at most 8191 were new; and if it is not asked for again, only then |
| `FakeIp.AlwaysResolvesIff` | vpntunnel/fakeip.go:66-96 | a new name resolves at every moment of a run if and only if at most 8191 names of the run were new |
| `FakeIp.ResolvesIffNamed` | vpntunnel/fakeip.go:72-95 | a new name's address resolves to it if and only if the name is not empty |
| `FakeIp.RecentIPs.Add` | vpntunnel/fakeip.go:113-126 | one insertion of the unmapped address into the ring, whose index and slots stay inverse |
| `FakeIp.RecentIPs.Contains` | vpntunnel/fakeip.go:128-133 | true exactly when the unmapped address is in one of the slots |
| `FakeIp.RememberedIff` | vpntunnel/fakeip.go:98-126 | an address just added is remembered through any others while fewer of them are new than there are slots; and if it is not added again, only then |
| `FakeIp.AlwaysRememberedIff` | vpntunnel/fakeip.go:98-126 | it is remembered at every moment of a run if and only if fewer addresses of the run are new than there are slots |

## Left out

- HostMatch.CompileHostRules: the flag for IP literals, which matching does not use, is not modelled; the library's lower-casing is a parameter here and in HostMatch.Match.
- HttpFraming.FieldTokens: keeps the tokens as they are written; they are lower-cased where they are compared.
- HttpMessage.ForwardNext: models a request that no rewrite rule touches, forwarded on its own; the response that is awaited meanwhile is not modelled.
- HttpMessage.ForwardAll: goes on as long as requests can be forwarded; the keep-alive test after each response, which may end it earlier, is not modelled.
- HandleTables.Transport.Drain: stands for both tables; the stream forwarders that closeAllStreamLocal also closes are not modelled, since they do not register and recheck.
- Socks5.Negotiate: agrees on no authentication only; the method of RFC 1929 is not modelled.
- Socks5.ServeHandshake: serves without a password; the exchange of RFC 1929 and the error texts are not modelled.
- Socks5.DialHandshake: takes the target as a host and a port; splitting and formatting address texts belong to library code.
- Socks5.Conn.ReadFull: a read that returns bytes together with an error is not modelled.
- SpillBuffer.ForwardedUnchanged: covers the branch in which no rewrite rule applies; the rewriting code is not part of this model.
- FakeIp.FakeIPPool.Assign: models the state and the answer; the lock around it makes calls atomic and is not modelled itself.
- UdpLogin.SshLogin: models the refusal of a UDP session behind a TCP one; other login errors end the chain and leave nothing to state.
- Header list editing (set and del).
- Stream-local forwarding with its accept loop and Transport.Abandon: they do not follow the register-then-recheck protocol.
- The contents of certificates, TLS, DNS messages, the IP stack and the remote server: called code, abstract here.
- Deadlines, keep-alive loops, idle timers and sleeps: wall-clock behaviour; a read that times out is a read that may fail.
- Cancelling all forwards at once in Close through the root context: the machine cancels them one by one, which allows more runs.
- Zones of IPv6 addresses.
- Terminal user interface, prompts, configuration lookup, known hosts, keys and authentication.
