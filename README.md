# libtribe core in Dafny

libtribe is a small C++ library for cluster membership over gossip. This
project models four of its parts and proves what they do:

1. **The peer membership reducer.** `tribe::update(PeersModel, Action)`
   applies one of eight actions to a snapshot of what a node knows about its
   seeds and fellow members, and returns the new snapshot. Each member
   carries a liveness estimate: a probability of being alive, a ttl counter,
   and a state that moves Alive → Suspected → Dead as time passes. Dead
   members whose ttl has run out are purged. Files: `membership.dfy`,
   `membership_lemmas.dfy`, and `node_info.dfy` for node identities.
2. **The broadcast group reducer.** `tribe::update(BroadcastModel,
   BroadcastAction)` joins and leaves UDP broadcast groups, counts down
   their remaining rounds (an `int32` ttl), and overwrites that count. File:
   `broadcast_model.dfy`.
3. **Network addresses.** `tryParseAddress` turns `host:port` or
   `[ipv6]:port` text into an address. The model also covers address
   equality and the address hash. Files: `network_address.dfy` and
   `address_lemmas.dfy`, with `text.dfy` (the model's reading of Solace
   StringView's trim and split, whose code is not part of this model)
   and `inet_text.dfy` (the text forms that `inet_pton` accepts).
4. **The gossip wire codec.** Its parts are:
   - the one-byte message tags (`gossip.dfy`);
   - the cursor-based `Decoder` (`decoder.dfy`);
   - the appending `Encoder` with its `protocolSize` functions (`encoder.dfy`);
   - the `MessageParser` (`message_parser.dfy`);
   - the fluent `MessageWriter` (`message_writer.dfy`);
   - the byte buffers they share (`bytes.dfy`).

   `round_trip.dfy` states what the parser makes of what the writer writes.
   `trailing.dfy` proves that bytes after a message are never looked at.

Integer widths are subset types (`ints.dfy`). Wrap-around is written out
wherever the source relies on it (`uint16` ttl, `int32` broadcast ttl).

How the model is built:
- Each reducer is a function on values. It is specified action by action,
  with "nothing else changes" clauses.
- The loops of `decayPeerInfo`, `findRedirectAddress`, `hashAddress` and
  `tryParseAddress` are methods with loop invariants. Each is proved equal
  to, or to satisfy, a specification function.
- The byte reader and writer, `Decoder`, `Encoder` and `MessageWriter` are
  classes, whose methods advance a cursor or append to a buffer.
- Every `Decoder::read` and every `parseX` method is tied to a decoding
  function on the remaining bytes (`Follows` and `Yields`). The round-trip
  lemmas are stated about those functions.

Where the writer and the parser do not agree, the model proves the
disagreement:
- `ping` and `pong` are written without the ttl byte that the parser reads;
- the parser drops the reason text of a rejection or redirect;
- the address encoding writes no bytes.

## Model

| member | source | states |
|---|---|---|
| NodeIdentity.EqualityIsValueIdentity | include/tribe/nodeInfo.hpp:40-46 | NodeID `==` holds exactly when the values are equal; `!=` is its negation |
| NodeIdentity.GroupEqualityIsValueIdentity | include/tribe/nodeInfo.hpp:53-59 | the same for GroupID |
| NodeIdentity.LessIsStrictTotalOrder | include/tribe/nodeInfo.hpp:48-50 | NodeID `<` is irreflexive, asymmetric and transitive; two ids are incomparable exactly when they are equal |
| NodeIdentity.HashRespectsEquality | include/tribe/nodeInfo.hpp:74-81 | equal ids hash equally |
| Membership.ViewsAgree | include/tribe/model.hpp:106-115 | suspectedPeers, deadPeers and expiredPeers list member ids only; every expired peer is dead; no peer is both suspected and dead; a member in neither of the first two is Alive |
| Membership.InsertSeed | src/model.cpp:85-90 | the address becomes a seed with the given ttl only when it was absent; an existing seed keeps its ttl; members, node and settings do not change |
| Membership.DropSeed | src/model.cpp:92-97 | exactly that address leaves the seeds; the other seeds and all members do not change |
| Membership.InsertPeer | src/model.cpp:100-113 | a peer with the node's own id, or an id already known, leaves the model unchanged; otherwise exactly that id is added as a new peer: Alive with probability 0.97, the given ttl, generation and address, and zero sequence, capacity and peer count |
| Membership.DropPeer | src/model.cpp:116-121 | exactly that id leaves the members; every other member and the seeds do not change |
| Membership.PronounceDead | src/model.cpp:124-132 | a known peer's state becomes Dead and nothing else of it changes; other peers, the key set and the seeds do not change |
| Membership.UpdatePeerInfo | src/model.cpp:134-148 | a known peer with generation ≤ gen gets that generation, the given ttl and probability 0.97, and keeps its state and address; a lower gen or an unknown id changes nothing |
| Membership.UpdateAddress | src/model.cpp:150-158 | a known peer gets the new address and nothing else changes; an unknown id changes nothing |
| Membership.ExpDecay | src/model.cpp:42-48 | the value drops by k·value·dt, and stays within [0, value] when k·dt ∈ [0, 1] |
| Membership.DecayTtlAsWritten | src/model.cpp:57-59 | the ttl subtraction as written: 0 stays 0; dt ≤ ttl gives ttl − dt; dt > ttl > 0 wraps to ttl − dt + 65536 |
| Membership.DecayTtl | src/model.cpp:57-59 | the ttl update the model uses, clamped as test/test_model.cpp:283 expects: never larger than ttl, 0 exactly when dt ≥ ttl, otherwise ttl − dt |
| Membership.DecayTtlAgrees | src/model.cpp:57-59 | when dt ≤ ttl, the subtraction as written and the clamped one agree |
| Membership.DecayTtlUnderflow | src/model.cpp:57-59 | ttl 3 decayed by 15: as written it wraps to 65524, clamped it is 0 |
| Membership.DecayLiveness | src/model.cpp:51-78 | the probability is ExpDecay over dt·decayTime/1000 seconds; the ttl is DecayTtl; the state moves at most one step forward (Alive never becomes Dead in one step); Alive becomes Suspected exactly when the new probability is below 0.65; Suspected becomes Dead exactly when the new ttl is 0 |
| Membership.DecayedModel | src/model.cpp:161-181 | after a decay step, an id remains exactly when it was a member whose decayed record is not expired; every remaining member has its decayed record, in which only the liveness differs from before; node, settings and seeds do not change |
| Membership.DecayPeers | src/model.cpp:161-181 | the two loops (decay every member, then erase the expired) compute DecayedModel |
| Membership.Update | src/model.cpp:199-221 | no action changes the node or the settings; seed actions change only the seeds; peer actions leave the seeds alone |
| Membership.FindRedirectAddress | src/model.cpp:187-196 | the search returns nothing exactly when no member is healthy; otherwise it returns the address of the healthy member with the least id |
| MembershipLemmas.UpdateKeepsSelfExcluded | src/model.cpp:102-104 | a model that does not list its own node among its members keeps that property under every action |
| MembershipLemmas.GenerationNeverDecreases | src/model.cpp:134-148 | no action lowers a surviving member's generation |
| MembershipLemmas.DeadStaysDead | src/model.cpp:63-75 | a dead member that survives an action is still dead |
| MembershipLemmas.DecayLeavesNoExpired | src/model.cpp:172-178 | after a decay step no member is expired |
| MembershipLemmas.DecayRemoves | src/model.cpp:161-181 | a decay step keeps every Alive member, drops every member that was already expired, and drops only members that were Suspected or Dead |
| MembershipLemmas.UpdateKeepsProbabilitiesValid | src/model.cpp:199-221 | every action keeps all probabilities in [0, 1], provided a decay action's rate times its elapsed time lies in [0, 1] |
| MembershipLemmas.DecayKeepsProbabilitiesValid | src/model.cpp:161-181 | the same for a single decay step |
| MembershipLemmas.SeedAddForget | test/test_model.cpp:38-68 | adding a seed twice is adding it once; adding then forgetting an address leaves the other seeds; forgetting an unknown seed changes nothing |
| MembershipLemmas.RedirectTargetUnique | src/model.cpp:187-196 | at most one member is the redirect target |
| MembershipLemmas.RedirectAfterAdd | test/test_model.cpp:289-298 | after adding one peer to an empty model, no member is healthy when its ttl is 0; with ttl > 0 that peer is the redirect target, with the address it was added with |
| MembershipLemmas.DecayScenario | test/test_model.cpp:249-269 | the three-peer decay from the test: the expired peer goes, the other two remain, the seeds stay, and peer 1 is Suspected with probability 0.9·0.65, since the test's rate takes 0.97 to 90% of the 0.65 threshold in one second |
| MembershipLemmas.DecayOfThree | test/test_model.cpp:249-269 | the same facts for any model with those three members |
| MembershipLemmas.SuspectedAfterOneTick | src/model.cpp:63-75 | an Alive peer at probability 0.97, decayed one tick of one second at the test's rate, becomes Suspected with probability 0.9·0.65 and the decayed ttl |
| MembershipLemmas.DecayUnderflowScenario | test/test_model.cpp:271-286 | a peer with ttl 3 decayed by 15 ticks remains, with ttl 0, Suspected |
| BroadcastGroups.DefaultRounds | include/tribe/broadcastModel.hpp:71-74 | Broadcast{a} with its default count takes exactly one round off a joined group with rounds left and leaves a group without rounds alone; UpdateBroadcastRounds{a} with its default leaves the group one round; an address not joined is untouched |
| BroadcastGroups.AddGroup | src/broadcastModel.cpp:26-30 | the address joins with the default group {1, 3, 2000} only when it was absent; existing groups do not change |
| BroadcastGroups.DropGroup | src/broadcastModel.cpp:33-36 | exactly that address leaves; the other groups do not change |
| BroadcastGroups.ApplyBroadcast | src/broadcastModel.cpp:39-49 | the key set does not change, nor does any other group; a group with ttl ≤ 0 (or an unknown address) is left alone; otherwise only the ttl changes, to ttl − rounds modulo 2^32 |
| BroadcastGroups.UpdateRounds | src/broadcastModel.cpp:52-60 | a joined group's ttl becomes the given count and its hops and period stay; the key set and the other groups do not change |
| BroadcastGroups.Update | src/broadcastModel.cpp:64-79 | an action changes at most the entry for its own address; Broadcast and UpdateBroadcastRounds never change the key set |
| BroadcastGroups.JoinLeave | test/test_broadcastModel.cpp:48-60 | joining twice is joining once; join then leave removes the address; on an address not joined before, join then leave is the identity |
| BroadcastGroups.BroadcastCountsDown | src/broadcastModel.cpp:39-49 | on a group with rounds left, up to 2^31 rounds are subtracted exactly |
| BroadcastGroups.BroadcastWraps | src/broadcastModel.cpp:39-49 | 3 − 5 gives −2, and 3 − (2^32 − 1) wraps to 4 |
| BroadcastGroups.BroadcastStops | src/broadcastModel.cpp:43 | n single-round broadcasts take a ttl t ≥ 0 to t − n, stopping at 0: once the ttl is 0, further broadcasts change nothing |
| BroadcastGroups.JoinTwoGroups | test/test_broadcastModel.cpp:36-77 | joining two groups gives two; leaving a group not joined changes nothing |
| NetworkAddress.Sockaddr | include/tribe/networkAddress.hpp:32-52 | the storage an address occupies is exactly its size (0, 16 or 28 bytes) |
| NetworkAddress.SockaddrDecodes | src/networkAddress.cpp:138-171 | the storage holds the family (2 or 10), the port in network order, and the address bytes at their offsets |
| NetworkAddress.EqualIsIdentity | src/networkAddress.cpp:34-41 | `==` holds exactly when the addresses are the same; `!=` is its negation |
| NetworkAddress.HashAddress | src/networkAddress.cpp:44-67 | the loop computes AddressHash: for IPv4 the hash of the address word, for IPv6 the 16-step fold `h ^= (h << 5) + b + (h >> 2)` seeded from the port, and otherwise the hash of the size |
| NetworkAddress.HashRespectsEquality | include/tribe/networkAddress.hpp:66-71 | equal addresses hash equally |
| NetworkAddress.HashIgnoresIPv4Port | src/networkAddress.cpp:46-49 | two IPv4 addresses that differ only in port are different yet hash the same |
| NetworkAddress.AnyAddressByPort | src/networkAddress.cpp:125-136 | anyAddress(p) is a 16-byte IPv4 socket address whose address bytes are 0.0.0.0; two of them are equal exactly when their ports are; all of them hash to 0 |
| NetworkAddress.AsAddressKeepsParts | src/networkAddress.cpp:138-171 | an IPv4 address gives a 16-byte socket address holding its 4 bytes, an IPv6 one a 28-byte one holding its 16 bytes; two results are equal exactly when their addresses and ports are |
| NetworkAddress.CString | src/networkAddress.cpp:90-108 | what `inet_pton` sees of copied text is the part before the first NUL |
| NetworkAddress.TryParseIP4 | src/networkAddress.cpp:90-108 | empty text fails with 0 and only it does; text of 16 characters or more fails with 1; otherwise it succeeds exactly when the dotted-quad reading of the text before the first NUL does, with that value, and fails with 1 when it does not |
| NetworkAddress.TryParseIP6 | src/networkAddress.cpp:70-88 | the same for IPv6: 46 characters or more fail with 1, otherwise the result is what the IPv6 text reading of the text before the first NUL gives |
| NetworkAddress.ParseIPAddress | src/networkAddress.cpp:112-121 | the text is IPv4 exactly when tryParseIP4 takes it; otherwise it is the IPv6 address that tryParseIP6 gives; it fails with InvalidInput only when both fail |
| NetworkAddress.StrToUL | src/networkAddress.cpp:216-223 | strtoul's value is never above ULONG_MAX; AddressLemmas.StrToULValue gives the value when a sign or a digit follows the white space, and AddressLemmas.StrToULNoDigits gives 0 otherwise |
| NetworkAddress.TryParseAddress | src/networkAddress.cpp:173-227 | the split loop, with its overwritten host and port, computes AddressFromText |
| AddressLemmas.StrToULValue | src/networkAddress.cpp:216-219 | white space, an optional sign, decimal digits and then anything that is not a digit read as the digits' value; ULONG_MAX when that is too large; after a minus sign the value negated modulo 2^64 |
| AddressLemmas.StrToULNoDigits | src/networkAddress.cpp:216-219 | white space followed by nothing, or by a character that is no sign, digit or white space, reads as 0 (strtoul converts nothing) |
| AddressLemmas.StrToULOfDigits | src/networkAddress.cpp:216-223 | a numeral is read as its decimal value, saturated at ULONG_MAX |
| AddressLemmas.StrToULOfDecimal | src/networkAddress.cpp:216-223 | strtoul reads back a printed number |
| AddressLemmas.IPv4AddressRoundTrip | src/networkAddress.cpp:173-227 | parsing `a.b.c.d:port` gives back that IPv4 address and port, for every address and port |
| AddressLemmas.V4Texts | src/networkAddress.cpp:211-223 | a dotted quad and a printed port give that address |
| AddressLemmas.NonNumericPort | src/networkAddress.cpp:207-227 | the port text is never checked to be a number: a valid IPv4 host, ':' and a colon-free port text that starts with no sign, digit or white space and ends in no white space parse as that host with port 0 |
| AddressLemmas.NonNumericTexts | src/networkAddress.cpp:217-227 | a valid IPv4 host text and such a port text make the address with port 0 |
| AddressLemmas.PortOverflow | src/networkAddress.cpp:217-223 | a valid IPv4 host with a port above 65535 fails with Overflow |
| AddressLemmas.OverflowTexts | src/networkAddress.cpp:217-223 | the same, once the host and port texts are split |
| AddressLemmas.ErrorOrder | src/networkAddress.cpp:207-223 | an empty port is InvalidInput; a bad host is InvalidInput however large the port; Overflow only comes with a valid host and a port above 65535 |
| AddressLemmas.LeadingPiecesIgnored | src/networkAddress.cpp:192-205 | any colon-free text before `host:port` is overwritten and does not change the result |
| AddressLemmas.JunkHostPort | src/networkAddress.cpp:192-205 | with three pieces, the host is the middle one and the port the last |
| AddressLemmas.PiecesOfThree | src/networkAddress.cpp:192-205 | the same, stated for any unbracketed, trimmed text that splits into three pieces |
| AddressLemmas.LastTwoPieces | src/networkAddress.cpp:192-205 | unbracketed text that splits at ':' into two or more pieces has the next-to-last piece as host text and the last as port text |
| AddressLemmas.PlainHostPort | src/networkAddress.cpp:192-205 | unbracketed `host:port` with a single colon parses as those two texts do |
| AddressLemmas.NoColonNoPort | src/networkAddress.cpp:192-209 | unbracketed text without a colon has no port text and fails with InvalidInput |
| AddressLemmas.BracketedTexts | src/networkAddress.cpp:178-191 | for `[h]:p` where neither h nor p holds "]:", the host text is h (the '[' dropped) and the port text is p |
| AddressLemmas.BracketedAddress | src/networkAddress.cpp:178-227 | such text parses as the texts h and p do |
| AddressLemmas.UnclosedBracket | src/networkAddress.cpp:179-209 | text that starts with '[' and holds no ']' has no port text and fails with InvalidInput |
| AddressLemmas.IPv6AddressRoundTrip | src/networkAddress.cpp:173-227 | parsing `[eight groups]:port` gives back that IPv6 address and port, for every address and port |
| AddressLemmas.IPv6TextRoundTrip | src/networkAddress.cpp:70-121 | tryParseIP6 reads the eight-group text of sixteen bytes back, and parseIPAddress takes it for that IPv6 address |
| AddressLemmas.CompressedHost | src/networkAddress.cpp:112-121 | groups, "::" and groups, seven groups at most, are taken for the IPv6 address the text reading gives |
| AddressLemmas.FullHost | src/networkAddress.cpp:112-121 | the same for eight groups joined by ':' |
| AddressLemmas.OneGroupIsNoAddress | src/networkAddress.cpp:112-121 | a single hexadecimal group is neither an IPv4 nor an IPv6 address |
| AddressLemmas.DottedRejected | src/networkAddress.cpp:112-121 | dotted text without a colon that is no dotted quad is no address |
| AddressLemmas.ExampleIPv4 | test/test_address.cpp:22 | "238.255.0.1:5670" parses to that address |
| AddressLemmas.ExampleIPv4Broadcast | test/test_address.cpp:23 | "255.255.255.255:5670" parses to that address |
| AddressLemmas.ExampleNoPort | test/test_address.cpp:25 | "0.0.0.1" fails with InvalidInput |
| AddressLemmas.ExamplePortOverflow | test/test_address.cpp:26 | "10.1.1.1:56705670" fails with Overflow |
| AddressLemmas.ExampleTwoSeparators | test/test_address.cpp:30 | "32.x.0.1:5670:321" takes "5670" as the host and fails with InvalidInput |
| AddressLemmas.ExampleNoColon | test/test_address.cpp:27 | "some-rangom long string ?!" fails with InvalidInput |
| AddressLemmas.ExampleHostIsNumber | test/test_address.cpp:28 | "8761:0.0.0.1" fails with InvalidInput |
| AddressLemmas.ExampleBadOctet | test/test_address.cpp:29 | "32.x.0.1:5670" fails with InvalidInput |
| AddressLemmas.ExampleIPv6 | test/test_address.cpp:35 | "[ff02::1]:5678" parses to ff02::1 on port 5678 |
| AddressLemmas.ExampleIPv6Full | test/test_address.cpp:36 | "[2001:db8:85a3:8d3:1319:8a2e:370:7348]:5670" parses |
| AddressLemmas.ExampleIPv6LinkLocal | test/test_address.cpp:37 | "[fe80::27ae:adff:dfa1:743e]:5670" parses |
| AddressLemmas.ExampleIPv6PortOverflow | test/test_address.cpp:39 | "[fe80::27ae:adff:dfa1:743e]:1235670" fails with Overflow |
| AddressLemmas.ExampleIPv6TwoSeparators | test/test_address.cpp:40 | "[fe80::27ae:adff:dfa1:743e]:235670:327" reads the port as 235670 and fails with Overflow |
| AddressLemmas.ExampleIPv6Unbracketed | test/test_address.cpp:41-42 | "fe80::27ae:adff:dfa1:743e" takes "dfa1" as the host and fails with InvalidInput |
| AddressLemmas.ExampleIPv6Unclosed | test/test_address.cpp:43 | "[ff02::1678" fails with InvalidInput |
| AddressLemmas.ExampleIPv6Repeated | test/test_address.cpp:44 | "fe80::27ae:adff:dfa1:743e:fe80::27ae:adff" takes "27ae" as the host and fails with InvalidInput |
| AddressLemmas.IPv4Rejects5670 | src/networkAddress.cpp:90-108 | "5670" is not an IPv4 address |
| AddressLemmas.IPv6Rejects5670 | src/networkAddress.cpp:70-88 | "5670" is not an IPv6 address |
| InetText.IPv4RoundTrip | src/networkAddress.cpp:90-108 | the dotted-decimal text of four bytes parses back to those bytes |
| InetText.IPv6RoundTrip | src/networkAddress.cpp:70-88 | the text of sixteen bytes as eight four-digit hexadecimal groups parses back to those bytes |
| InetText.FullGroups | src/networkAddress.cpp:70-88 | any eight hexadecimal groups joined by ':' parse, to the bytes of the groups |
| InetText.CompressedGroups | src/networkAddress.cpp:70-88 | groups, "::" and groups, seven groups at most, parse to the leading groups' bytes, zeros for the groups left out, then the trailing groups' bytes |
| Text.SplitJoin | src/networkAddress.cpp:179-205 | gluing the pieces of a split back with the separator gives the text |
| Text.JoinAppend | src/networkAddress.cpp:179-205 | joining two runs of pieces is joining each and gluing them with the separator |
| Text.JoinSplit | src/networkAddress.cpp:179-205 | splitting pieces glued with a separator gives the pieces back, when no piece holds the separator's first character |
| Gossip.FromCode | include/tribe/protocol/gossip.hpp:96-106 | a byte names a message type exactly when it is one of 63, 64, 65, 66, 67, 68, 250 |
| Gossip.CodeRoundTrip | include/tribe/protocol/gossip.hpp:96-106 | every type is recognised from its tag, and only from its tag |
| Gossip.CodesDistinct | include/tribe/protocol/gossip.hpp:96-106 | the seven tags are distinct |
| Bytes.FromToLE | src/protocol/decoder.cpp:26-45 | reading back a little-endian encoding gives the value |
| Bytes.ToFromLE | src/protocol/decoder.cpp:26-45 | re-encoding the value read gives the bytes |
| Bytes.ByteReader.ReadLE | src/protocol/decoder.cpp:26-45 | with enough bytes left, the cursor moves by the width and the value is those bytes little-endian; otherwise nothing is read and the cursor stays |
| Bytes.ByteReader.Advance | src/protocol/decoder.cpp:53-54 | the cursor moves by n exactly when n bytes remain, and otherwise stays |
| Bytes.ByteWriter.Write | src/protocol/encoder.hpp:79-88 | the bytes are appended and earlier contents are unchanged |
| Decoding.DecodeU8 | src/protocol/decoder.cpp:26-29 | succeeds exactly when a byte remains, using 1 byte |
| Decoding.DecodeU16 | src/protocol/decoder.cpp:32-35 | succeeds exactly when 2 bytes remain, using 2 bytes read little-endian |
| Decoding.DecodeU32 | src/protocol/decoder.cpp:37-40 | the same with 4 bytes |
| Decoding.DecodeU64 | src/protocol/decoder.cpp:42-45 | the same with 8 bytes |
| Decoding.DecodeView | src/protocol/decoder.cpp:47-74 | succeeds exactly when a 2-byte length n and then n bytes remain; it then uses 2 + n bytes and yields those n bytes |
| Decoding.DecodeNodeID | src/protocol/decoder.hpp:44 | a NodeID is a little-endian uint32 |
| Decoding.DecodeNodeInfo | src/protocol/decoder.hpp:48-51 | a NodeInfo is an id and then a generation, 8 bytes |
| Decoding.DecodeAddress | src/protocol/decoder.hpp:46 | an address is what the supplied reader gives, provided it stays within the bytes left |
| Decoding.Decoder.ReadU8 | src/protocol/decoder.cpp:26-29 | the method reads what DecodeU8 says and advances the cursor by the bytes used |
| Decoding.Decoder.ReadU16 | src/protocol/decoder.cpp:32-35 | the same for DecodeU16 |
| Decoding.Decoder.ReadU32 | src/protocol/decoder.cpp:37-40 | the same for DecodeU32 |
| Decoding.Decoder.ReadU64 | src/protocol/decoder.cpp:42-45 | the same for DecodeU64 |
| Decoding.Decoder.ReadStringView | src/protocol/decoder.cpp:47-59 | the same for DecodeView |
| Decoding.Decoder.ReadMemoryView | src/protocol/decoder.cpp:61-74 | the same for DecodeView; a length beyond the bytes left fails without a value |
| Decoding.Decoder.ReadNodeID | src/protocol/decoder.hpp:44 | the same for DecodeNodeID |
| Decoding.Decoder.ReadNodeInfo | src/protocol/decoder.hpp:48-51 | the same for DecodeNodeInfo; the generation is not read when the id fails |
| Decoding.Decoder.ReadAddress | src/protocol/decoder.hpp:46 | the same for DecodeAddress |
| Encoding.ProtocolSizeU8 | src/protocol/encoder.cpp:23-26 | the size is the number of bytes the encoder writes |
| Encoding.ProtocolSizeU16 | src/protocol/encoder.cpp:28-31 | the same |
| Encoding.ProtocolSizeU32 | src/protocol/encoder.cpp:33-36 | the same |
| Encoding.ProtocolSizeU64 | src/protocol/encoder.cpp:38-41 | the same |
| Encoding.ProtocolSizeView | src/protocol/encoder.cpp:43-47 | the same for views of at most 65533 bytes; above that the 16-bit size falls short |
| Encoding.ProtocolSizeNodeID | src/protocol/encoder.cpp:50-53 | the same |
| Encoding.ProtocolSizeAddress | src/protocol/encoder.cpp:56-59 | the same (0 for the address stub) |
| Encoding.ProtocolSizeNodeInfo | src/protocol/encoder.cpp:61-65 | the same |
| Encoding.UintRoundTrip | src/protocol/decoder.cpp:26-45 | a little-endian integer is decoded back, whatever follows it |
| Encoding.U8RoundTrip | src/protocol/decoder.cpp:26-29 | the same for uint8 |
| Encoding.U16RoundTrip | src/protocol/decoder.cpp:32-35 | the same for uint16 |
| Encoding.U32RoundTrip | src/protocol/decoder.cpp:37-40 | the same for uint32 |
| Encoding.U64RoundTrip | src/protocol/decoder.cpp:42-45 | the same for uint64 |
| Encoding.ViewRoundTrip | src/protocol/encoder.hpp:83-84 | a length-prefixed view of at most 65535 bytes is decoded back whole, using 2 + length bytes |
| Encoding.ViewTruncated | src/protocol/encoder.hpp:83-84 | a longer view has its length written modulo 65536, so only that many bytes come back |
| Encoding.NodeIDRoundTrip | src/protocol/encoder.cpp:68-71 | a NodeID is decoded back from its 4 bytes |
| Encoding.NodeInfoRoundTrip | src/protocol/encoder.cpp:80-84 | a NodeInfo is decoded back from its 8 bytes |
| Encoding.NodeInfoDecodedIsEncoded | src/protocol/decoder.hpp:48-51 | the 8 bytes a NodeInfo is read from are its encoding |
| Encoding.ViewDecodedIsEncoded | src/protocol/decoder.cpp:47-59 | the bytes a view is read from are its encoding |
| Encoding.Encoder.WriteU8 | src/protocol/encoder.hpp:79-82 | appends the encoding and returns the same encoder |
| Encoding.Encoder.WriteU16 | src/protocol/encoder.hpp:79-82 | the same |
| Encoding.Encoder.WriteU32 | src/protocol/encoder.hpp:79-82 | the same |
| Encoding.Encoder.WriteU64 | src/protocol/encoder.hpp:79-82 | the same |
| Encoding.Encoder.WriteView | src/protocol/encoder.hpp:83-84 | appends the length-prefixed view and returns the same encoder |
| Encoding.Encoder.WriteNodeID | src/protocol/encoder.cpp:68-71 | appends the id's 4 bytes |
| Encoding.Encoder.WriteAddress | src/protocol/encoder.cpp:74-77 | appends nothing and returns the same encoder |
| Encoding.Encoder.WriteNodeInfo | src/protocol/encoder.cpp:80-84 | appends id then generation |
| MessageParser.ParseHeader | src/protocol/messageParser.cpp:157-165 | the header is read exactly when a byte remains, and is that byte |
| MessageParser.ParseJoinRequest | src/protocol/messageParser.cpp:28-42 | on success it is a join request using no more than the bytes left |
| MessageParser.ParseJoinAck | src/protocol/messageParser.cpp:45-58 | succeeds exactly when 8 bytes remain, and uses 8 |
| MessageParser.ParseJoinRedirect | src/protocol/messageParser.cpp:60-84 | on success it is a redirect whose reason text is empty |
| MessageParser.ParseConnectRejected | src/protocol/messageParser.cpp:87-107 | on success it is a rejection whose reason text is empty |
| MessageParser.ParseBroadcastMessage | src/protocol/messageParser.cpp:108-120 | succeeds exactly when 8 bytes remain, and uses 8 |
| MessageParser.ParsePingMessage | src/protocol/messageParser.cpp:123-137 | succeeds exactly when 9 bytes remain; uses 9, the last being the ttl |
| MessageParser.ParsePongMessage | src/protocol/messageParser.cpp:139-152 | succeeds exactly when 13 bytes remain; uses 13, the last being the ttl |
| MessageParser.ParseBody | src/protocol/messageParser.cpp:198-219 | a body never uses more than the bytes left |
| MessageParser.ParseMessage | src/protocol/messageParser.cpp:198-219 | a successful parse starts with a known tag and uses between 1 byte and the whole buffer |
| MessageParser.ReadJoinRequest | src/protocol/messageParser.cpp:28-42 | the method yields what ParseJoinRequest says and advances the cursor by the bytes used |
| MessageParser.ReadJoinAck | src/protocol/messageParser.cpp:45-58 | the same for ParseJoinAck |
| MessageParser.ReadJoinRedirect | src/protocol/messageParser.cpp:60-84 | the same for ParseJoinRedirect |
| MessageParser.ReadConnectRejected | src/protocol/messageParser.cpp:87-107 | the same for ParseConnectRejected |
| MessageParser.ReadBroadcastMessage | src/protocol/messageParser.cpp:108-120 | the same for ParseBroadcastMessage |
| MessageParser.ReadPingMessage | src/protocol/messageParser.cpp:123-137 | the same for ParsePingMessage |
| MessageParser.ReadPongMessage | src/protocol/messageParser.cpp:139-152 | the same for ParsePongMessage |
| MessageParser.ParseMessageHeader | src/protocol/messageParser.cpp:157-195 | the same for ParseHeader |
| MessageParser.Parse | src/protocol/messageParser.cpp:198-219 | the same for ParseMessage |
| MessageWriter.WriteHeader | src/protocol/messageWriter.cpp:32-37 | appends the one tag byte |
| MessageWriter.MessageWriter.constructor | include/tribe/protocol/messageWriter.hpp:32-34 | the writer appends to the given byte buffer |
| MessageWriter.MessageWriter.Build | src/protocol/messageWriter.cpp:26-29 | build() gives the buffer the writer has appended to, the one writer() also returns |
| MessageWriter.MessageWriter.Join | src/protocol/messageWriter.cpp:39-42 | appends the join request with empty token and auth, and returns itself |
| MessageWriter.MessageWriter.JoinWith | src/protocol/messageWriter.cpp:45-55 | appends 63, the node info, the token and the auth |
| MessageWriter.MessageWriter.JoinAck | src/protocol/messageWriter.cpp:57-65 | appends 64 and the node info |
| MessageWriter.MessageWriter.JoinRedirect | src/protocol/messageWriter.cpp:68-79 | appends 65, the address, the domain, the code and the text |
| MessageWriter.MessageWriter.JoinNack | src/protocol/messageWriter.cpp:81-91 | appends 66, the domain, the code and the text |
| MessageWriter.MessageWriter.Advertise | src/protocol/messageWriter.cpp:94-102 | appends 250 and the node info |
| MessageWriter.MessageWriter.Ping | src/protocol/messageWriter.cpp:105-113 | appends 67, the requestor id and the target id |
| MessageWriter.MessageWriter.Pong | src/protocol/messageWriter.cpp:115-123 | appends 68, the requestor id and the node info |
| GossipRoundTrip.Framed | src/protocol/messageParser.cpp:198-219 | a buffer that starts with a type's tag parses as that type's body, one byte further on |
| GossipRoundTrip.JoinRoundTrip | src/protocol/messageWriter.cpp:45-55 | parsing join(n, t, a) gives the join request {n, t, a} using all its bytes, for views of at most 65535 bytes, whatever follows |
| GossipRoundTrip.JoinBody | src/protocol/messageParser.cpp:28-42 | the join body parses to its node, token and auth |
| GossipRoundTrip.JoinWithoutToken | src/protocol/messageWriter.cpp:39-42 | join(n) is the 13 bytes 63, id, generation, 0, 0, 0, 0 |
| GossipRoundTrip.JoinAckRoundTrip | src/protocol/messageWriter.cpp:57-65 | parsing joinAck(n) gives the acknowledgement of n, using 9 bytes |
| GossipRoundTrip.AdvertiseRoundTrip | src/protocol/messageWriter.cpp:94-102 | parsing advertise(n) gives the broadcast message of n, using 9 bytes |
| GossipRoundTrip.JoinNackRoundTrip | src/protocol/messageWriter.cpp:81-91 | parsing joinNack(r) gives a rejection with r's domain and code and an empty text, using all its bytes |
| GossipRoundTrip.RejectedBody | src/protocol/messageParser.cpp:87-107 | a rejection body parses to its domain and code, and the text is dropped |
| GossipRoundTrip.RedirectWithoutAddress | src/protocol/messageWriter.cpp:68-79 | joinRedirect(r, a) is 65 followed by the bytes of joinNack(r): the address adds nothing |
| GossipRoundTrip.JoinNackKeepsReasonIffNoText | src/protocol/messageParser.cpp:102-104 | a rejection comes back as sent exactly when its reason has no text |
| GossipRoundTrip.PingShortfall | src/protocol/messageWriter.cpp:105-113 | ping writes 9 bytes; the parse succeeds exactly when one more byte follows, and takes that byte as the ttl |
| GossipRoundTrip.PingBody | src/protocol/messageParser.cpp:123-137 | the ping body needs one byte past the two ids |
| GossipRoundTrip.PingAloneFails | src/protocol/messageWriter.cpp:105-113 | the bytes of a ping alone do not parse |
| GossipRoundTrip.PongShortfall | src/protocol/messageWriter.cpp:115-123 | pong writes 13 bytes; the parse succeeds exactly when one more byte follows, and takes it as the ttl |
| GossipRoundTrip.PongBody | src/protocol/messageParser.cpp:139-152 | the pong body needs one byte past the id and node info |
| GossipRoundTrip.PongAloneFails | src/protocol/messageWriter.cpp:115-123 | the bytes of a pong alone do not parse |
| GossipRoundTrip.ExamplePing | src/protocol/messageParser.cpp:123-137 | [67,1,0,0,0,2,0,0,0,5] parses to the ping {1, 2, 5} using 10 bytes |
| GossipRoundTrip.EmptyBufferFails | src/protocol/messageParser.cpp:157-165 | an empty buffer does not parse |
| GossipRoundTrip.ZeroBufferFails | test/test_protocol.cpp:30-38 | 128 zero bytes do not parse |
| GossipRoundTrip.JoinSize | src/protocol/encoder.hpp:29-33 | the size the fields of a join report adds up to the bytes join writes |
| TrailingBytes.UintExtends | src/protocol/decoder.cpp:26-45 | bytes after an integer do not change how it reads |
| TrailingBytes.ViewExtends | src/protocol/decoder.cpp:47-74 | bytes after a view do not change how it reads |
| TrailingBytes.NodeInfoExtends | src/protocol/decoder.hpp:48-51 | bytes after a node info do not change how it reads |
| TrailingBytes.JoinRequestExtends | src/protocol/messageParser.cpp:28-42 | bytes after a join request do not change its parse |
| TrailingBytes.JoinRedirectExtends | src/protocol/messageParser.cpp:60-84 | the same for a redirect, given an address reader that looks only at a prefix |
| TrailingBytes.RejectedExtends | src/protocol/messageParser.cpp:87-107 | the same for a rejection |
| TrailingBytes.PingExtends | src/protocol/messageParser.cpp:123-137 | the same for a ping |
| TrailingBytes.PongExtends | src/protocol/messageParser.cpp:139-152 | the same for a pong |
| TrailingBytes.TrailingIgnored | src/protocol/messageParser.cpp:198-219 | a message that parses parses the same whatever follows it: there is no total-length check |

## Left out

- The CLI example (examples/message_decoder.cpp) and the ostream printers: file and console I/O.
- The update overload with an observer callback (include/tribe/model.hpp:166-167): it is declared without a definition.
- eraseIf (src/model.cpp:34-40): it is never called.
- MembershipSettings defaults (1300 ms, rate 0.3, ttl 8, 128 peers, sampling 3) and BroadcastGroup defaults (1, 3, 2000): recorded as the constants `Membership.DefaultSettings` and `BroadcastGroups.DefaultGroup`, which carry no contract of their own.
- `seeds` is a map from address to ttl. The header declares a vector of seed peers, but the reducer inserts and erases seeds by address.
- Floating point: probabilities, rates and times are exact reals, so float32 rounding in expDecay is not modelled.
- Membership.IsHealthy: the predicate has no definition in the source. It is taken as Alive with ttl > 0, which fits test/test_model.cpp:296-297.
- Test assertions that contradict the code are not proved:
  - DecayPeerInfo empties the seeds in test/test_model.cpp:261 and 278, but the reducer leaves them alone, and so does the model;
  - test/test_model.cpp:131-150 uses a generation-guarded UpdatePeerAddress, where the code makes an unconditional, id-keyed update.
- The ttl clamp is covered under Findings.
- inet_pton is modelled concretely:
  - IPv4 as four dotted decimal fields of at most 255 with no leading zeros;
  - IPv6 as the text form of section 2.2 of RFC 4291.
  Locale and platform variations are not modelled.
- NetworkAddress.StrToUL: strtoul stops at the end of the text. The source hands it a view that is not NUL-terminated, so where the C function could read past the port text, the model does not.
- NetworkAddress.Sockaddr: uninitialised storage is zero in the model: sin_zero, the tail of the storage, and the sin6_flowinfo and sin6_scope_id fields that asAddress leaves unset (src/networkAddress.cpp:155-164). So memcmp equality is structural equality and hashing ignores garbage, which the C++ does not guarantee.
- `std::hash` of an integer is the identity (as in libstdc++), and host byte order is little-endian. Other platforms are not modelled.
- The address wire format: the encoder's address writer is a stub, and `Decoder::read(Address*)` has no definition. Decoding an address is therefore a caller-supplied function (`Decoding.AddressReader`), and no redirect round trip is claimed.
- The commented-out header fields (message size and tag) in the parser and writer are not active code.
- Solace's ByteReader and ByteWriter are a byte sequence with a cursor and an append-only buffer:
  - a writer's capacity and its write errors are not modelled;
  - decoder-level reads (Decoding.Follows) make no claim about the cursor after a failure; ByteReader's own reads keep it unchanged;
  - Solace::Error domain and code are taken as uint64.
- MemoryView is a byte sequence. Address texts (StringView) are Dafny strings, one character per byte; character encoding is not modelled.
- Text.Trim, Text.Split and NetworkAddress.HostPiece: Solace's StringView trim, split, startsWith and substring, which tryParseAddress uses (src/networkAddress.cpp:175-205), are not part of this model, so their meanings are assumed:
  - trim strips ' ' and the characters 9 to 13 at both ends, so "\t1.2.3.4:80" parses as 1.2.3.4:80;
  - split cuts from left to right at non-overlapping occurrences of the delimiter, keeps empty pieces, and its count is the number of occurrences plus one;
  - `substring(1)` of an empty piece after a bracket (as in "[a]:]:80") is the empty view, not a range error.
- The message tags are the enum's values in include/tribe/protocol/gossip.hpp, among them PingDirect 67 and PongDirect 68.
- The encoder's operator<< for integers and views is only declared (src/protocol/encoder.hpp:79-84). The bytes it writes, little-endian integers and views behind a uint16 length, are taken from what the decoder reads (src/protocol/decoder.cpp:27-70).
- Definitions without a row of their own, whose properties the rows of other members state: Membership.NewPeer (InsertPeer), the views SuspectedPeers, DeadPeers and ExpiredPeers (ViewsAgree), Membership.DecayPeer (DecayedModel, DecayPeers), BroadcastGroups.BroadcastOnce and UpdateRoundsToOne (DefaultRounds), NetworkAddress.AnyAddress (AnyAddressByPort), NetworkAddress.AsAddress (AsAddressKeepsParts), MessageWriter.MessageWriter.Writer (Build), InetText.ParseIPv4Text and ParseIPv6Text (the round trips and group lemmas).

## Findings

| source | as written | input that shows it | evidently intended | confidence | as-written member | corrected member |
|---|---|---|---|---|---|---|
| src/model.cpp:57-59 | the ttl is reduced by `ttl - dt` in uint16 whenever ttl > 0, which wraps when dt > ttl (the code carries a FIXME there) | ttl 3 decayed by 15 gives 65524 | the ttl stops at 0, as test/test_model.cpp:283 expects | not executed | Membership.DecayTtlAsWritten, Membership.DecayTtlUnderflow | Membership.DecayTtl, Membership.DecayTtlAgrees |
