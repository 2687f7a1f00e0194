# ndhcpd: a verified model

ndhcpd is a DHCPv4 server with an HTTP-managed configuration and an IPv6 Router
Advertisement builder. This project models its packet handlers, the in-memory
database they work on, the DHCP wire codec, the checksum and frame builder, the
subnet registry and the Router Advertisement builder, and proves what they
promise for all inputs and all runs. Run `dafny verify dfyconfig.toml`.

## Structure

| file | module | models |
|---|---|---|
| `Prelude.dfy` | `Prelude` | machine integers, `filter` and `find` over vectors |
| `Bits.dfy` | `Bits` | bitwise `and`, `or`, shifts, defined bit by bit |
| `Cidr.dfy` | `Cidr` | prefix masks and overlap |
| `Subnets.dfy` | `Subnets` | creating and deleting subnets over HTTP |
| `Checksum.dfy` | `Checksum` | Internet checksum and raw UDP frames |
| `RouterAdvertisement.dfy` | `RouterAdvertisement` | Router Advertisements |
| `Utf8.dfy` | `Utf8` | UTF-8 text and its lossy decoding |
| `MacAddress.dfy` | `MacAddress` | hardware addresses and their text form |
| `DhcpOption.dfy`, `DhcpPacket.dfy` | `DhcpOptions`, `DhcpPackets` | the DHCP codec |
| `Models.dfy`, `Database.dfy` | `Models`, `Database` | stored records and the in-memory database class |
| `Engine.dfy` | `Engine` | the server as a state machine over timed events |
| `Server.dfy` | `Server` | the handlers as methods with loops over the database, proved to take the steps of `Engine` |
| `Invariant.dfy` | `Invariant` | what every step keeps; no address leased twice |
| `Exclusivity.dfy` | `Exclusivity` | who holds an address over a whole run |
| `PurgeInvisible.dfy` | `PurgeInvisible` | purging changes no answer |
| `DynamicScan.dfy` | `DynamicScan` | the dynamic scan is first fit and complete |
| `Bindings.dfy` | `Bindings` | the lease list refines a map from addresses to holders |
| `Promises.dfy`, `Offers.dfy` | `Promises`, `Offers` | reservations, honoured offers, stable addresses |
| `Answers.dfy` | `Answers` | who is answered what, from bytes to bytes |
| `Counterexamples.dfy` | `Counterexamples` | an offer that is refused, a purge that comes too early |
| `Replies.dfy` | `Replies` | the answers as the client reads them |

The server handles one packet at a time, but a handler suspends between two
accesses to the lease table. `Engine.Step` therefore takes a REQUEST in up to
three steps (read the active leases, expire the client's own lease, write the
new one), a DISCOVER and a RELEASE in up to two. The purge task and edits of the
configuration may come between any two steps. Every event carries the clock
reading that its table access uses; a step without one can be given the time of
its access. The readings of the handlers never go back (`Engine.Enabled`). A
purge may carry any reading, because the purge task and a handler both read the
clock some time before they access the table. On a clock that never goes back a
purge can so be ahead of the next reading of the handlers, but not of any later
one (`Engine.CausalPurges`). Results that depend on this timing say so; the
others hold for purges of any readings.

Arithmetic on `u8`, `u16` and `u32` wraps as in a release build, so prefixes
above 32, long option lists and large lease times behave as they do there.
Text is the sequence of its UTF-8 bytes. Clock readings, packets, interface
addresses and the instants at which the purge task runs are inputs.

## What the code does not guarantee

Each of these was found false as a general claim; the lemma gives the exact condition.

- A reserved address is not taken out of the dynamic ranges: another client can
  be granted exactly those reserved addresses that lie in an enabled range of an
  existing subnet (`Promises.ReservationStolenIff`).
- A client may hold several leases: a grant leaves it with one exactly when it
  had none active elsewhere (`Offers.SingleLeaseIff`, `Offers.TwoLeasesForOneClient`).
- DISCOVER passes over a reservation on a subnet out of reach, REQUEST refuses
  the client: an offer is honoured exactly when there is no such reservation
  (`Offers.OffersHonouredIff`; a refused offer is `Counterexamples.OfferIsRefused`).
- A purge may read the clock ahead of a handler that has read it but not yet the
  table. The handlers see what they would see without purges exactly when no
  purge takes a lease still active at their next reading
  (`PurgeInvisible.PurgesUnseenIff`); otherwise a REQUEST that would be refused can
  be granted (`Counterexamples.EarlyPurgeChangesAnswer`). Even then the new lease
  starts no earlier than the old one ends (`Exclusivity.Exclusivity`).
- T2 is wrong exactly for lease times above 613566756 seconds (`Replies.RebindingTimeIff`).
- A packet reads back exactly when its options fit one length byte and raw
  options are not mistaken for others (`DhcpPackets.RoundTrip`); a frame up to
  65507 bytes of payload (`Checksum.FrameReceived`); an advertisement up to 127
  name servers (`RouterAdvertisement.AdvertisementRoundTrip`).

Two places where code and text differ, and the code is followed: a comment calls
the refusal of a wrong reserved address a NAK, but nothing is sent
(crates/ndhcpd/src/dhcp/server.rs:726-731), and the repository's README.md says
that Router Advertisements are left to another daemon, but they are built
(crates/ndhcpd/src/ra/packet.rs:16-77).

## Model

| member | source | states |
|---|---|---|
| Cidr.MaskValue | crates/ndhcpd/src/dhcp/server.rs:920-927 | the mask of any `u8` prefix is `2^32 - 2^h`, with `h = 32 - prefix` host bits for prefixes up to 32 |
| Cidr.BlockBounds | crates/ndhcpd/src/utils/network.rs:10-23 | masking with `and`/`or` yields the first and last address of the aligned block of `2^h` addresses |
| Cidr.MatchesIffInBlock | crates/ndhcpd/src/dhcp/server.rs:957-965 | an interface address agrees with a subnet under its mask iff it lies between the block's first and last address |
| Cidr.OverlapIffShared | crates/ndhcpd/src/utils/network.rs:4-25 | `subnets_overlap` holds iff some address matches both prefixes |
| Cidr.OverlapIffNested | crates/ndhcpd/src/utils/network.rs:3-25 | equivalently, iff one block contains the other |
| Subnets.HandleCreateSubnet | crates/ndhcpd/src/handlers/subnets.rs:39-75 | the loop with early return and the insertion take exactly the creation step of the registry |
| Subnets.HandleDeleteSubnet | crates/ndhcpd/src/handlers/subnets.rs:151-164 | the handler takes exactly the deletion step of the registry |
| Subnets.RegisteredSubnetsDisjoint | crates/ndhcpd/src/handlers/subnets.rs:43-64 | after any run of creations and deletions no two registered subnets share an address, and ids differ |
| Subnets.RefusedIffShared | crates/ndhcpd/src/handlers/subnets.rs:49-58 | a creation is refused iff the new subnet shares an address with a registered one, and then nothing changes |
| Subnets.DeleteRemovesOne | crates/ndhcpd/src/db/memory.rs:82-86 | a deletion removes the one subnet with that id and keeps all others |
| Subnets.AcceptedIsStored | crates/ndhcpd/src/handlers/subnets.rs:60-64 | an accepted subnet is appended to the registry under the id that is answered, and the counter moves on |
| Subnets.AcceptedExcludesOthers | crates/ndhcpd/src/handlers/subnets.rs:49-64 | after a creation answered with an id, and until that id is deleted, every creation that shares an address with the subnet is refused |
| Checksum.IpChecksum | crates/ndhcpd/src/utils/network.rs:99-113 | the two loops and the odd byte compute the complement of the folded, wrapping word sum |
| Checksum.FoldMeaning | crates/ndhcpd/src/utils/network.rs:109-111 | folding carries keeps the sum modulo 65535 and gives zero only for zero |
| Checksum.NoOverflowIff | crates/ndhcpd/src/utils/network.rs:100-108 | the 32-bit accumulator overflows for no data of length `n` iff `n <= 131074` |
| Checksum.VerifiesIff | crates/ndhcpd/src/utils/network.rs:99-113 | the checksum over complete data is zero iff the 32-bit word sum is a positive multiple of 65535; up to 131074 bytes, iff the true sum is |
| Checksum.StoredChecksumVerifies | crates/ndhcpd/src/utils/network.rs:153-155 | storing the checksum in a zeroed aligned field makes data of any length verify, also where the sum wraps |
| Checksum.BuildL2UdpFrame | crates/ndhcpd/src/utils/network.rs:120-165 | appending the headers and patching the checksum in place builds the frame with truncated lengths |
| Checksum.FrameReceived | crates/ndhcpd/src/utils/network.rs:120-165 | a receiver that checks header, checksum and both lengths recovers every field and the payload iff the payload has at most 65507 bytes |
| Checksum.OddBytePadded | crates/ndhcpd/src/utils/network.rs:106-108 | an odd last byte counts as if a zero byte followed |
| Checksum.FrameLayout | crates/ndhcpd/src/utils/network.rs:135-163 | every byte of the Ethernet, IPv4 and UDP headers, in numbers |
| RouterAdvertisement.BuildRouterAdvertisement | crates/ndhcpd/src/ra/packet.rs:16-77 | what the loops build lists, in some order, every server of any prefix once; a host reads back all prefixes, exactly these servers and the largest lifetime iff there are at most 127 servers |
| RouterAdvertisement.InSomeOrder | crates/ndhcpd/src/ra/packet.rs:54-59 | iterating over the hash set yields every element exactly once |
| RouterAdvertisement.WalkPrefixes | crates/ndhcpd/src/ra/packet.rs:39-50 | walking by the length field recovers every prefix in order and continues right behind |
| RouterAdvertisement.WalkRdnss | crates/ndhcpd/src/ra/packet.rs:61-74 | the RDNSS option is recovered, ending with the buffer, iff it lists at most 127 servers |
| RouterAdvertisement.AdvertisementRoundTrip | crates/ndhcpd/src/ra/packet.rs:16-77 | a host decodes header, flags, prefixes and servers as they were given iff there are at most 127 distinct servers |
| RouterAdvertisement.MaxIsLargest | crates/ndhcpd/src/ra/packet.rs:65-65 | the RDNSS lifetime is the largest of the prefixes' lifetimes |
| RouterAdvertisement.FlagBits | crates/ndhcpd/src/ra/packet.rs:32-33 | bit 7 of the flags tells `managed`, bit 6 tells `other`, and no other combination arises |
| RouterAdvertisement.HeaderLayout | crates/ndhcpd/src/ra/packet.rs:25-36 | every byte of the fixed part, in numbers |
| RouterAdvertisement.FlagByteValue | crates/ndhcpd/src/ra/packet.rs:32-33 | the flag byte is 128 for `managed` plus 64 for `other` |
| RouterAdvertisement.PrefixLayout | crates/ndhcpd/src/ra/packet.rs:39-50 | every byte of a Prefix Information option |
| RouterAdvertisement.RdnssLayout | crates/ndhcpd/src/ra/packet.rs:61-74 | every byte of the RDNSS option |
| Utf8.TextIsEncodedCharacters | crates/dhcp-proto/src/option.rs:43-43 | a string is exactly a sequence of characters encoded as RFC 3629 says |
| Utf8.SpanIsMaximal | crates/dhcp-proto/src/option.rs:66-66 | a replaced span is as long as some character can begin |
| Utf8.ReplacementCharacter | crates/dhcp-proto/src/option.rs:66-66 | the replacement is U+FFFD |
| Utf8.LossyWellFormed | crates/dhcp-proto/src/option.rs:43-43 | lossy decoding always yields a valid string |
| Utf8.LossyIdentity | crates/dhcp-proto/src/option.rs:66-66 | it changes nothing iff the bytes are valid UTF-8 |
| MacAddress.MacTextInjective | crates/dhcp-proto/src/mac.rs:29-34 | different hardware addresses have different text forms |
| MacAddress.MacTextDigits | crates/dhcp-proto/src/mac.rs:29-34 | two lower-case hexadecimal digits for each byte, high half first, separated by colons |
| MacAddress.LowerAt | crates/ndhcpd/src/db/memory.rs:176-184 | the comparison ignores the case of the letters A to Z and nothing else |
| MacAddress.MacTextIsLower | crates/dhcp-proto/src/mac.rs:29-34 | the text form is its own lower-case form, so lookups compare the stored strings |
| DhcpOptions.ParseOption | crates/dhcp-proto/src/option.rs:24-69 | the parser, with its address loops, decodes as specified |
| DhcpOptions.OptionToBytes | crates/dhcp-proto/src/option.rs:72-142 | the serializer, pushing byte by byte, encodes as specified with truncated length bytes |
| DhcpOptions.BigEndian | crates/dhcp-proto/src/option.rs:27-63 | addresses and words travel in network byte order |
| DhcpOptions.MessageTypeCodes | crates/dhcp-proto/src/option.rs:51-57 | the message types are the codes 1 to 8 |
| DhcpOptions.OptionBytes | crates/dhcp-proto/src/option.rs:72-142 | code, length and payload of each option, in numbers |
| DhcpOptions.WordReadings | crates/dhcp-proto/src/option.rs:24-64 | word options are read from exactly four bytes, and stay raw otherwise |
| DhcpOptions.CodeIsSent | crates/dhcp-proto/src/option.rs:72-142 | the code by which an answer's reader finds an option is the first byte sent |
| DhcpOptions.ListReadings | crates/dhcp-proto/src/option.rs:29-43 | lists and texts are read from a payload of any length |
| DhcpOptions.MessageTypeReading | crates/dhcp-proto/src/option.rs:51-57 | the message type is read from one byte with a known value, and stays raw otherwise |
| DhcpOptions.UnknownReadings | crates/dhcp-proto/src/option.rs:67-67 | every other code stays raw |
| DhcpOptions.AddressAt | crates/dhcp-proto/src/option.rs:29-42 | a list is read as its complete groups of four bytes, in order |
| DhcpOptions.PayloadRoundTrip | crates/dhcp-proto/src/option.rs:24-142 | the payload of every canonical option decodes to the option |
| DhcpOptions.DecodedIsCanonical | crates/dhcp-proto/src/option.rs:24-69 | whatever is parsed from at most 255 bytes is canonical, unless replacement characters made its text longer than 255 bytes |
| DhcpPackets.ParseOptions | crates/dhcp-proto/src/packet.rs:64-91 | the index loop stays in bounds, terminates and computes the recursive option grammar |
| DhcpPackets.Parse | crates/dhcp-proto/src/packet.rs:46-108 | parsing any bytes gives the specified packet or error |
| DhcpPackets.ToBytes | crates/dhcp-proto/src/packet.rs:111-142 | filling the 240-byte header in place and appending options gives the specified bytes |
| DhcpPackets.GetMessageType | crates/dhcp-proto/src/packet.rs:145-152 | the loop returns the first message type option |
| DhcpPackets.FirstMessageType | crates/dhcp-proto/src/packet.rs:145-152 | the message type is that of the first such option |
| DhcpPackets.HalfIsBigEndian | crates/dhcp-proto/src/packet.rs:51-52 | 16-bit fields travel in network byte order |
| DhcpPackets.MessageLayout | crates/dhcp-proto/src/packet.rs:111-142 | where each field stands, the cookie 99, 130, 83, 99, zeros in between, and the end marker |
| DhcpPackets.OptionsBehindCookie | crates/dhcp-proto/src/packet.rs:46-64 | fewer than 240 bytes are refused; options are read behind the cookie only |
| DhcpPackets.OptionGrammar | crates/dhcp-proto/src/packet.rs:66-90 | code 0 is skipped, code 255 ends the list, any other carries its length in the next byte, and a cut-off one ends the list |
| DhcpPackets.NonCanonicalIsLost | crates/dhcp-proto/src/option.rs:80-139 | an option outside the canonical set is never read back as itself, whatever follows it |
| DhcpPackets.RoundTrip | crates/dhcp-proto/src/packet.rs:46-142 | decoding the encoding gives the same header and the options in order with one end marker iff all options are canonical |
| DhcpPackets.Normalisation | crates/dhcp-proto/src/packet.rs:46-142 | re-encoding any parsed packet reads back as itself up to its end marker iff no text option exceeds 255 bytes |
| DhcpPackets.EndIsLast | crates/dhcp-proto/src/packet.rs:68-71 | a parsed list has an end marker in last place only |
| DhcpPackets.OnlyEssentialBytesMatter | crates/dhcp-proto/src/packet.rs:66-90 | padding between options, bytes after the end marker and a cut-off tail do not change the options |
| DhcpPackets.Truncation | crates/dhcp-proto/src/packet.rs:46-91 | cutting a message anywhere from byte 240 on keeps the header and yields a prefix of the options |
| Database.InMemoryDatabase.constructor | crates/ndhcpd/src/db/memory.rs:24-38 | tables are empty and counters start at 1 |
| Database.InMemoryDatabase.CreateLease | crates/ndhcpd/src/db/memory.rs:163-174 | appends the lease under the next id |
| Database.FirstActiveLease | crates/ndhcpd/src/db/memory.rs:176-184 | the lookup gives the first active lease of the client, ignoring case, and nothing iff each of its leases has ended |
| Database.ActiveLeasesInOrder | crates/ndhcpd/src/db/memory.rs:186-194 | the listing selects exactly the rows that end strictly after now, each once and in table order |
| Database.FirstSubnet | crates/ndhcpd/src/db/memory.rs:63-66 | the first subnet with the id, and none iff there is no such subnet |
| Database.FirstReservation | crates/ndhcpd/src/db/memory.rs:139-146 | the client's first reservation, ignoring case, and none iff it has none |
| Database.InMemoryDatabase.ExpireLease | crates/ndhcpd/src/db/memory.rs:196-200 | removes the rows with that id |
| Database.InMemoryDatabase.DeleteExpiredLeases | crates/ndhcpd/src/db/memory.rs:202-208 | keeps the leases that end now or later and counts the others |
| Engine.ServeIsRun | crates/ndhcpd/src/dhcp/server.rs:461-494 | serving a packet is the run of its reception and at most two resumptions, and ends idle |
| Engine.ServedRequest | crates/ndhcpd/src/dhcp/server.rs:677-820 | the table and reply of a REQUEST served with purges between its stages |
| Engine.ServedDiscover | crates/ndhcpd/src/dhcp/server.rs:593-675 | the table and reply of a DISCOVER served with purges before its scan |
| Server.DhcpServer.HandlePacket | crates/ndhcpd/src/dhcp/server.rs:558-591 | the dispatching handler, purges interleaved, leaves the tables and sends the reply of the state machine |
| Server.DhcpServer.HandleDatagram | crates/ndhcpd/src/dhcp/server.rs:481-494 | a datagram that does not parse changes nothing; any other is served and its answer serialized |
| Server.DhcpServer.HandleDiscover | crates/ndhcpd/src/dhcp/server.rs:593-675 | reservation, own lease, then scan, each with its early return |
| Server.DhcpServer.ScanForFreeAddress | crates/ndhcpd/src/dhcp/server.rs:646-671 | the nested loops compute the specified scan |
| Server.DhcpServer.FindMatchingRange | crates/ndhcpd/src/dhcp/server.rs:743-766 | the loop finds the first range that serves the address, with its subnet |
| Server.DhcpServer.HandleRequest | crates/ndhcpd/src/dhcp/server.rs:677-820 | reservation check, range check, holder check, expiry and creation as specified |
| Server.DhcpServer.HandleRelease | crates/ndhcpd/src/dhcp/server.rs:822-830 | removes the client's first active lease, if any |
| Invariant.StepKeepsInv | crates/ndhcpd/src/dhcp/server.rs:775-813 | every step keeps ids increasing, periods on one address consecutive, and the suspended handler's assumptions true |
| Invariant.ActiveIsUnique | crates/ndhcpd/src/db/memory.rs:186-194 | under the invariant an address has at most one active lease at any later time |
| Invariant.HolderInTable | crates/ndhcpd/src/dhcp/server.rs:784-796 | the first active lease found on an address decides about it alone |
| Invariant.NoAddressLeasedTwice | crates/ndhcpd/src/dhcp/server.rs:775-813 | in every reachable state, with purges of any readings and configuration edits between the stages of a REQUEST, no two active leases share an address and ids are unique |
| Exclusivity.Exclusivity | crates/ndhcpd/src/dhcp/server.rs:784-819 | if a run grants an address to two clients in turn, the second grant is stamped no earlier than the first lease's end, or the first client's RELEASE was processed in between, even with purges that slip between a reading of the clock and the table access |
| Exclusivity.Isolation | crates/ndhcpd/src/dhcp/server.rs:784-813 | a lease survives unaltered any run in which its own client neither renews nor releases and no purge reads a time past its end |
| Exclusivity.ExpireRemovesOneRow | crates/ndhcpd/src/db/memory.rs:196-200 | expiring an id removes at most one row and keeps every other |
| Exclusivity.RenewalNeverShortens | crates/ndhcpd/src/dhcp/server.rs:792-807 | the lease written by a renewal ends no earlier than the one it replaces |
| PurgeInvisible.PurgesAreInvisible | crates/ndhcpd/src/dhcp/server.rs:416-430 | erasing every purge from any run leaves every reply identical, if no purge reads the clock ahead of a handler after it |
| PurgeInvisible.PurgesUnseenIff | crates/ndhcpd/src/dhcp/server.rs:416-430 | with purges of any readings, the handlers see the same leases as without purges iff no purge takes a lease active at their next reading, and then all replies are the same |
| PurgeInvisible.PurgeSeenIff | crates/ndhcpd/src/db/memory.rs:202-208 | a purge changes what a reading sees iff it removes a lease still active at that reading |
| DynamicScan.ScanIsFirstFit | crates/ndhcpd/src/dhcp/server.rs:646-671 | the scan returns the first unleased address of the pool listed by subnet, range and ascending address |
| DynamicScan.ScanIsComplete | crates/ndhcpd/src/dhcp/server.rs:637-674 | it offers a free address of an enabled range of a reachable subnet, and nothing iff all of them are leased |
| DynamicScan.ScanIsShort | crates/ndhcpd/src/dhcp/server.rs:663-669 | one range is searched past at most as many addresses as are leased |
| DynamicScan.EnoughAddressesMeansOffer | crates/ndhcpd/src/dhcp/server.rs:637-674 | with fewer active leases than distinct pool addresses there is an offer |
| Bindings.BindingsMembers | crates/ndhcpd/src/db/memory.rs:186-194 | the active leases are exactly the entries of the map |
| Bindings.StepRefinesMap | crates/ndhcpd/src/dhcp/server.rs:593-830 | each step changes at most one key: a grant binds a free one, a renewal and a release unbind one of the client's |
| Bindings.RequestGrantedIff | crates/ndhcpd/src/dhcp/server.rs:734-791 | a REQUEST without reservation is granted iff its address is in an enabled range of a reachable subnet and free or the client's own |
| Bindings.RequestSetsOneKey | crates/ndhcpd/src/dhcp/server.rs:784-819 | granted, it sets exactly that key to the client and the new end; refused, it changes nothing |
| Bindings.ReleaseRemovesOneKey | crates/ndhcpd/src/dhcp/server.rs:822-830 | a RELEASE removes exactly one of the client's bindings if it has any, and nothing else |
| Bindings.OthersKeepMap | crates/ndhcpd/src/dhcp/server.rs:568-590 | DISCOVER and every other message leave the map alone |
| Promises.AckSources | crates/ndhcpd/src/dhcp/server.rs:714-819 | an acknowledged address is the client's reservation or comes with a written lease |
| Promises.AckIffGrant | crates/ndhcpd/src/dhcp/server.rs:798-819 | to a client without reservation, acknowledging an address and writing a lease of it are the same step |
| Promises.AcknowledgedExclusively | crates/ndhcpd/src/dhcp/server.rs:784-819 | if two clients without reservation are acknowledged one address in turn, in between the first lease time ran out or the first client's RELEASE arrived and was carried out |
| Promises.ReservedClientIsServed | crates/ndhcpd/src/dhcp/server.rs:601-732 | after any run a client with a reachable reservation is offered and acknowledged that address with the parameters of its subnet, and no lease changes |
| Promises.ReservedRequestIff | crates/ndhcpd/src/dhcp/server.rs:713-732 | a client with a reservation is acknowledged iff it asks for that address where its subnet is reachable, and no lease is written |
| Promises.GrantsNeverClash | crates/ndhcpd/src/dhcp/server.rs:714-770 | with reservations unique and outside enabled ranges, no run acknowledges an address that another client has reserved or actively leased |
| Promises.ReservedClientsHoldNoLease | crates/ndhcpd/src/dhcp/server.rs:713-732 | no client with a reservation ever holds a lease |
| Promises.ReservationStolenIff | crates/ndhcpd/src/dhcp/server.rs:734-770 | some run gives a client without reservation a given address reserved for another iff that address lies in an enabled range of an existing subnet |
| Offers.OffersAreHonoured | crates/ndhcpd/src/dhcp/server.rs:602-819 | an offered address is acknowledged when requested on the same interface before another client is served, however late and with purges in between |
| Offers.OfferStandsIff | crates/ndhcpd/src/dhcp/server.rs:775-796 | after any run between OFFER and REQUEST without configuration edits, a client without reservation is acknowledged the offered address iff no other client has an active lease of it |
| Offers.OffersHonouredIff | crates/ndhcpd/src/dhcp/server.rs:602-612 | an offer is honoured iff the client has no reservation on a subnet out of reach |
| Answers.ReachedIff | crates/ndhcpd/src/dhcp/server.rs:957-965 | an interface reaches a subnet iff any of its addresses lies in the subnet's block |
| Answers.AskedAddress | crates/ndhcpd/src/dhcp/server.rs:686-702 | the first option 50 decides, then `ciaddr`; a packet with neither asks for nothing |
| Answers.PoolIsOffered | crates/ndhcpd/src/dhcp/server.rs:593-674 | a client with neither reservation nor lease in reach is offered a free pool address, and nothing iff all are leased |
| Answers.FirstInPool | crates/ndhcpd/src/dhcp/server.rs:646-671 | that address is the first free one of the pool |
| Answers.NewClientIsOffered | crates/ndhcpd/src/dhcp/server.rs:593-674 | the same for any client without reservation whose leases are over |
| Answers.OwnLeaseIsOffered | crates/ndhcpd/src/dhcp/server.rs:614-625 | a client with an active lease in reach is offered that address, whatever the pool holds |
| Answers.MissingSubnetSilences | crates/ndhcpd/src/dhcp/server.rs:602-616 | a reservation or lease whose subnet is gone leaves the DISCOVER unanswered |
| Answers.GrantWrites | crates/ndhcpd/src/dhcp/server.rs:743-819 | a granted REQUEST names the first range that serves the address and appends one lease with that subnet, the client, both times and the first host name |
| Answers.RenewalIsAcked | crates/ndhcpd/src/dhcp/server.rs:696-819 | a client that renews its address by `ciaddr` is acknowledged it |
| Answers.NothingAskedNothingSent | crates/ndhcpd/src/dhcp/server.rs:686-702 | a REQUEST that names no address changes nothing and is not answered |
| Answers.ReleaseDropsFirst | crates/ndhcpd/src/dhcp/server.rs:822-830 | a RELEASE removes the row of the client's first active lease and no other |
| Answers.ServingRuns | crates/ndhcpd/src/dhcp/server.rs:461-494 | any packet can be served at any time, with any purges, as long as the readings go up |
| Answers.GrantSettles | crates/ndhcpd/src/dhcp/server.rs:784-819 | after a grant that leaves it with one lease a client is in the state from which its address is stable |
| Answers.BareDiscoverIsOffered | crates/ndhcpd/src/dhcp/server.rs:481-494 | 244 bytes of a DISCOVER from a new client yield the bytes of an OFFER, unless the pool is exhausted |
| Answers.BareRenewalIsAcked | crates/ndhcpd/src/dhcp/server.rs:481-494 | 244 bytes of a renewing REQUEST yield the bytes of an ACK of the same address |
| Counterexamples.RemoteReservationBreaksOffer | crates/ndhcpd/src/dhcp/server.rs:602-731 | on a fresh server a client whose reservation is out of reach is offered the first pool address and then refused it |
| Counterexamples.OfferIsRefused | crates/ndhcpd/src/dhcp/server.rs:602-731 | a configuration of two disjoint subnets, one range and one reservation where this happens |
| Counterexamples.EarlyPurgeChangesAnswer | crates/ndhcpd/src/db/memory.rs:186-208 | a purge between a REQUEST's reading of the clock and of the leases turns its refusal into an acknowledgement; the first lease runs at that reading and has ended at the next |
| Offers.OfferAndAckAgree | crates/ndhcpd/src/dhcp/server.rs:646-773 | with disjoint subnets and one interface address, OFFER and ACK are built from the same subnet |
| Offers.OneReachableSubnet | crates/ndhcpd/src/dhcp/server.rs:957-965 | disjoint subnets: one address reaches at most one |
| Offers.AddressIsStable | crates/ndhcpd/src/dhcp/server.rs:614-625 | a client that only renews its address is offered it by every DISCOVER until it releases, the lease ends or a purge reads a time past its end, whatever others do |
| Offers.SingleLeaseIff | crates/ndhcpd/src/dhcp/server.rs:784-813 | a grant adds one active lease, and it is the only one iff the client had none on another address |
| Offers.TwoLeasesForOneClient | crates/ndhcpd/src/dhcp/server.rs:784-813 | two requests for different addresses leave one client with two active leases |
| Replies.OfferAnnounces | crates/ndhcpd/src/dhcp/server.rs:832-871 | an OFFER echoes the transaction and carries each parameter of the subnet exactly once |
| Replies.AckAnnounces | crates/ndhcpd/src/dhcp/server.rs:873-918 | an ACK does so too, with both timers |
| Replies.OfferReadsBack | crates/ndhcpd/src/dhcp/server.rs:832-871 | an OFFER decodes to itself plus an end marker iff the subnet has at most 63 name servers and a domain of at most 255 bytes |
| Replies.AckReadsBack | crates/ndhcpd/src/dhcp/server.rs:873-918 | the same for an ACK |
| Replies.OfferDeliveredIff | crates/ndhcpd/src/dhcp/server.rs:335-353 | framed as raw Ethernet, an OFFER reaches the client and decodes to itself under the same condition |
| Replies.AckDeliveredIff | crates/ndhcpd/src/dhcp/server.rs:335-353 | the same for an ACK |
| Replies.RebindingTimeIff | crates/ndhcpd/src/dhcp/server.rs:898-900 | T2 is seven eighths of the lease time iff the lease time is at most 613566756 |

## Left out

- Edits of the configuration between two reads of subnets and ranges within one stretch of a handler; edits between stretches are modelled.
- The SQLite backend: its queries order leases differently, so the results are about the in-memory backend.
- `update_subnet` does not check overlaps again, and two concurrent creations can pass the check together; the registry results cover atomic creations and deletions.
- Database errors, which the in-memory backend never returns.
- Overflow of the 64-bit ids and timestamps.
- Sockets, interface lookup, ancillary data, packet filters, the choice of destination address and the loop that sends advertisements.
- Lower-casing is modelled for ASCII letters, which is what hardware addresses contain.
- The database operations that edit ranges and reservations: an edit is an arbitrary replacement of the configuration (`Engine.Reconfigure`).
- IPv6 prefix storage, tokens, REST routing, the command line client, configuration files and logging.
- Text forms of IP addresses, whose parser belongs to the standard library.
