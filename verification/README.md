# Verified model of the P4TC example programs

The repository holds P4 programs compiled to C for the tc/BPF datapath. This project models
what that C does to packet bytes and proves properties of it for every packet, every table
and every run:

* the arithmetic kernel each generated header carries: the two CRC routines, the table of
  `crc32.h`, and the ones'-complement checksum;
* the pipelines of `ipip`, `routing`, the IPv4 and the IPv6 flow tracker and `calc`: a goto
  parser with a bit cursor, the match-action control, and a deparser that writes headers into
  a packet buffer with byte and partial-byte writes;
* the flow table as a state machine shared by CPUs and timers;
* the calculator's client, from the line typed to the request.

## How it is built

Each pipeline has four layers. A module named `...P4` gives the meaning of the program on P4
headers: parse, control, emit, as functions on packets. The module with the program's name is
the generated C: a class `HdrMd` whose fields the parser states, the control and the deparser
change, and an `array<bv8>` that is written in place. Its method `Node` is proved equal to the
P4 meaning. A module named `...Bytes` holds a reference for the same program on packet
bytes and table entries alone, without parser, headers or structs, and proves that the
program meets it for every input. Lemmas in `...Theorems` then speak about the P4 meaning over
two nodes or over whole runs; `NodeRuns` and `FlowRuns.TrackRun` take such runs with the C.

| file | contents |
|---|---|
| `Iteration`, `Crc`, `Crc32`, `Crc32Constants`, `Crc32Streaming`, `Crc32Bursts`, `Crc16`, `CheckInput` | generic folds; the reference register; slice-by-8; the numbers of the table; chunk lengths that stream; bursts in bits; the 16-bit loop; the input of the check values |
| `Checksum`, `InternetHeader`, `HeaderChecksum` | the algebra; IPv4 header words; the inlined checksum code |
| `Bytes`, `Endian`, `WordArithmetic`, `WireFormat`, `HeaderLayout`, `HeaderStructs`, `Ipv6Structs`, `HeaderCodec` | loads, swaps and writes; words as numbers; bit layout of headers and their rows as numbers; C structs, extraction and emission |
| `TrafficControl`, `Wrappers`, `Ipv4Packets`, `PacketChecksum` | socket buffer and metadata; option type; packets as byte strings; the checksum over all ihl * 4 bytes |
| `IpipP4`, `Ipip`, `IpipTheorems`, `IpipBytes` | the tunnel |
| `RoutingP4`, `Routing`, `RoutingTheorems`, `RoutingBytes` | the router |
| `FlowTrackerP4`, `FlowTracker`, `FlowTable`, `FlowTheorems`, `FlowBytes`, `FlowRuns` | both trackers, as one program over an address family |
| `CalcP4`, `Calc`, `CalcClient`, `CalcTheorems`, `CalcBytes` | the calculator and its client |
| `NodeRuns` | packets through the code of several nodes |

Fields of packets are bit-vectors of their exact width; checksum accumulators are integers
below 65536 with the wrap-around of `u16` written out. The little-endian branch of
`bpf_endian.h` is used.

## Where the code and its description differ

* The P4 tables drop (ipip, routing, calc) or add a flow (trackers) on a miss. The C does so
  only when the kernel returns the default action; when the lookup returns nothing at all, no
  action runs. `IpipTheorems.NullLookupExactly`, `RoutingTheorems.HopPatches` and
  `CalcTheorems.DroppedExactly` say exactly when that shows, `IpipTheorems.NullLookupDiffers`
  gives a packet, and `FlowTable.KeyIsKept` says what it means for the table.
* `crc32_update` ignores its `poly` argument, and both CRC routines consume data of at most
  8 bytes last byte first, so only some chunk lengths stream (`Crc32Streaming.StreamsExactly`) and
  the bit order in which bursts are detected turns round (`Crc32Bursts.LowFirstExactly`,
  `Crc32Bursts.HighFirstExactly`).
* `crc16_update` detects bursts only for polynomials with bit 15 set
  (`Crc16.DetectsExactly`, `Crc16.BijectiveExactly`).
* The incremental checksum update keeps a wrong checksum wrong, and otherwise it can differ
  from recomputation in the choice of zero;
  `Checksum.IncrementalEqualsFull` and `InternetHeader.DecrementEqualsRecomputed` give the
  exact cases and `InternetHeader.EdgeDiffers` one such header. The ttl guard of routing
  excludes them, and so does a version or a length in the header; ipip has no guard, and lowers
  a ttl of 0 to 255.
* `op_parser` raises `NumParseError`, never the `OpParseError` declared for it
  (`CalcClient.RaisedExactly`), and labels operators as numbers.
* The IPv4 tracker reads ports 20 bytes into the header whatever `ihl` says, so the key is
  wrong for some packets of every header length with options
  (`FlowTheorems.PortsReadExactly`).

## Model

| member | source | states |
|---|---|---|
| Crc32.Crc32Update | tunnels/ipip/generated/ipip_parser.h:108-175 | for every register, data of any length and any `poly`: the slice-by-8 rounds, the byte-swapped 8-byte round and both bytewise tails together compute the bit-at-a-time register fed with the data, last byte first up to 8 bytes and first byte first above |
| Crc32.SliceRounds | tunnels/ipip/generated/ipip_parser.h:123-150 | after the rounds the register is that of a whole number of 8-byte blocks, and `current` points at the first unread byte (for data other than 8 bytes) |
| Crc32.BytewiseTail | tunnels/ipip/generated/ipip_parser.h:151-173 | the tail finishes the remaining bytes in either direction |
| Crc32.SliceMeaning | include/crc32.h:2-344 | entry b of slice k is the byte b after 8(k+1) shifts, derived from the table recurrence |
| Crc32.EightLookupsFeed | tunnels/ipip/generated/ipip_parser.h:130-148 | one round of eight table lookups equals 64 single shifts over eight bytes |
| Crc32.LookupFeeds | tunnels/ipip/generated/ipip_parser.h:157-161 | one table lookup equals eight single shifts of one byte |
| Crc32.RoundReversed | tunnels/ipip/generated/ipip_parser.h:125-129 | the round on exactly 8 bytes with both words byte-swapped consumes the bytes in reverse order |
| Crc32.UpdateDetectsBursts | tunnels/ipip/generated/ipip_parser.h:108-175 | inputs of one length that differ only inside 4 consecutive bytes always leave different registers |
| Crc32.UpdateBijective | tunnels/ipip/generated/ipip_parser.h:108-175 | for fixed data every register value is reached from exactly one starting register |
| Crc32.UpdateStreams | tunnels/ipip/generated/ipip_parser.h:123-173 | for two chunks longer than 8 bytes, one update after the other equals one update over the concatenation |
| Crc32Streaming.StreamsExactly | tunnels/ipip/generated/ipip_parser.h:108-175 | chunks of m and n bytes stream for every register and all data if and only if one is empty, or m + n > 8 and each is 1 or more than 8 bytes |
| Crc32Bursts.BitBurstDetected | tunnels/ipip/generated/ipip_parser.h:108-175 | in consumption order, low bit of each byte first, a difference inside 32 consecutive bits always changes the register, also when it spans five bytes |
| Crc32Bursts.LowFirstExactly | tunnels/ipip/generated/ipip_parser.h:108-175 | counted from the low bit of each byte, bursts of 32 bits in n bytes are always detected if and only if n is not 5 to 8; a lost pair is given |
| Crc32Bursts.HighFirstExactly | tunnels/ipip/generated/ipip_parser.h:108-175 | counted from the high bit, if and only if n is at most 8; a lost pair is given |
| Crc32.BuildTable | include/crc32.h:2-344 | builds 2048 entries: bit by bit for the first slice, by one lookup per entry for the others |
| Crc32Constants.TableFromPowers | include/crc32.h:2-344 | every one of the 2048 entries is the GF(2) sum of the entries of its bits, with the 64 numbers of the powers of two written out |
| Crc32Constants.PowerEntriesAreSteps | include/crc32.h:2-344 | the 64 numbers are what the shift register gives |
| Crc32Constants.CheckValue | tunnels/ipip/generated/ipip_parser.h:108-178 | update from all ones and finalize give 0xCBF43926 for "123456789", the check value of CRC-32 |
| CrcSpec.StepsLinear | tunnels/ipip/generated/ipip_parser.h:108-175 | shifting the register is linear over GF(2) |
| CrcSpec.StepsByLookup | tunnels/ipip/generated/ipip_parser.h:157-161 | eight shifts are a function of the low byte plus a plain shift |
| CrcSpec.CrcOfWord | tunnels/ipip/generated/ipip_parser.h:125-129 | feeding up to four bytes singly equals feeding them as one little-endian word |
| CrcSpec.CrcBijective | tunnels/ipip/generated/ipip_parser.h:108-175 | an explicit inverse runs the register back over any data |
| CrcSpec.BurstDetected | tunnels/ipip/generated/ipip_parser.h:108-175 | bursts of at most 4 bytes change the reference CRC |
| Crc16.Crc16Update | tunnels/ipip/generated/ipip_parser.h:88-102 | for every polynomial and data, the loop computes the bitwise register fed in the consumption order |
| Crc16.CrcBijective | tunnels/ipip/generated/ipip_parser.h:88-102 | with bit 15 of the polynomial set, an explicit inverse runs the register back |
| Crc16.DetectsExactly | tunnels/ipip/generated/ipip_parser.h:88-102 | 2-byte bursts are detected for all data if and only if bit 15 of the polynomial is set |
| Crc16.BijectiveExactly | tunnels/ipip/generated/ipip_parser.h:88-102 | for nonempty data the update is injective in the register if and only if bit 15 is set |
| Crc16.CheckValue | tunnels/ipip/generated/ipip_parser.h:88-105 | from register 0 with the polynomial 0xA001, "123456789" gives 0xBB3D, the check value of CRC-16/ARC |
| Checksum.FoldIsNorm | tunnels/ipip/generated/ipip_parser.h:179-186 | folding csum16_add over any words from any start gives 0 for integer sum 0 and ((S - 1) mod 65535) + 1 otherwise |
| Checksum.FoldIsInternetSum | tunnels/ipip/generated/ipip_parser.h:179-183 | the fold equals the end-around-carry sum of section 2 of RFC 1071 over the integer sum |
| Checksum.FoldPermutation | tunnels/ipip/generated/ipip_parser.h:179-183 | the fold does not depend on word order |
| Checksum.FoldGrouping | tunnels/ipip/generated/ipip_parser.h:179-183 | partial folds may be added up |
| Checksum.SubUndoesAdd | tunnels/ipip/generated/ipip_parser.h:184-186 | csum16_sub undoes csum16_add if and only if the accumulator is not 0 |
| Checksum.FullChecksumVerifies | tunnels/ipip/generated/ipip_control_blocks.c:158-188 | words with their from-scratch checksum put anywhere among them sum to 0xFFFF |
| Checksum.IncrementalEqualsFull | routing/generated/routing_parser.h:162-169 | for all words, equation 3 of section 3 of RFC 1624 gives the recomputed checksum bit for bit if and only if the words summed to a multiple of 65535 before, outside one family with new word 0 |
| Checksum.IncrementalKeepsVerdict | routing/generated/routing_control_blocks.c:187-211 | for all words: the update keeps whether they verify, right or wrong, exactly unless they are all zero before it and not after, or after it and not before |
| Checksum.IncrementalKeepsResidue | routing/generated/routing_control_blocks.c:187-211 | for all words the update leaves their sum modulo 65535 where it was |
| InternetHeader.ComputedVerifies | tunnels/ipip/generated/ipip_control_blocks.c:158-188 | any header with its recomputed checksum verifies |
| InternetHeader.DecrementEqualsRecomputed | routing/generated/routing_control_blocks.c:187-211 | for every IPv4 header the TTL update leaves the checksum recomputation would if and only if the ten words sum to a multiple of 65535 and not (ttl = 1, protocol = 0 and all other words are 0): a wrong checksum is never repaired |
| InternetHeader.VersionedDecrement | routing/generated/routing_control_blocks.c:187-211 | for a nonzero version and any ttl the update leaves the recomputed checksum, bit for bit, if and only if the header verified |
| InternetHeader.GuardedDecrement | routing/generated/routing_control_blocks.c:187-211 | the same for every header with ttl above 1 |
| InternetHeader.EdgeDiffers | tunnels/ipip/generated/ipip_control_blocks.c:190-214 | one verifying header (ttl 1, checksum 0xFEFF, else zero) for which the update leaves checksum 0 and a header that no longer verifies, where recomputing gives 0xFFFF |
| InternetHeader.DecrementKeepsVerdict | routing/generated/routing_control_blocks.c:187-211 | for every ttl: whether the header verifies is kept if and only if it is not one of two headers that are zero but for a ttl of at most 1 and its checksum |
| InternetHeader.WordsOfHeader | tunnels/ipip/generated/ipip_control_blocks.c:158-188 | the ten big-endian words of the serialized header are the words the checksum is defined on |
| HeaderChecksum.FullHeaderChecksum | tunnels/ipip/generated/ipip_control_blocks.c:158-188 | the field-by-field additions of the C code give the complement of the internet sum of the wire words, checksum excluded |
| HeaderChecksum.DecrementTtl | tunnels/ipip/generated/ipip_control_blocks.c:190-214 | the C update of ttl and checksum is `ip_ttl_dec` on the header it stands for, and keeps fields in range |
| Endian.Swab16ReversesMemory | include/bpf/bpf_endian.h:13-17 | the macro reverses the bytes in memory |
| Endian.Swab32ReversesMemory | include/bpf/bpf_endian.h:19-23 | the macro reverses the bytes in memory |
| Endian.Swab64ReversesMemory | include/bpf/bpf_endian.h:25-33 | the macro reverses the bytes in memory |
| Bytes.SwabHalf | include/ebpf_kernel.h:41 | load_half reads a big-endian value |
| Bytes.SwabWord | include/ebpf_kernel.h:42 | load_word reads a big-endian value |
| Bytes.WriteField | tunnels/ipip/generated/ipip_parser.h:12 | the byte writes of a field replace exactly its bytes |
| WireFormat.EthernetRoundTripBytes | tunnels/ipip/ipip_parser.p4:10-14 | serializing the Ethernet header read from 14 bytes gives them back |
| WireFormat.Ipv4RoundTrip | tunnels/ipip/ipip_parser.p4:16-29 | reading a serialized IPv4 header (section 3.1 of RFC 791) gives the header back, bit fields included |
| WireFormat.Ipv4RoundTripBytes | tunnels/ipip/ipip_parser.p4:16-29 | serializing what was read from any 20 bytes gives them back |
| WireFormat.ChangedTtlBytes | routing/generated/routing_control_blocks.c:199-211 | changing ttl and checksum changes bytes 8, 10 and 11 of the header and no others |
| WireFormat.Ipv6RoundTrip | stateful-progs/flowtracker_ipv6/flowtracker_ipv6_parser.p4:16-25 | reading a serialized IPv6 header (section 3 of RFC 8200) gives the header back |
| WireFormat.Ipv6RoundTripBytes | stateful-progs/flowtracker_ipv6/flowtracker_ipv6_parser.p4:16-25 | serializing what was read from any 40 bytes gives them back |
| HeaderLayout.MacLayout | tunnels/ipip/ipip_parser.p4:10-14 | a MAC address is the number its six bytes spell in base 256, most significant first |
| HeaderLayout.Ipv4Layout | tunnels/ipip/ipip_parser.p4:16-29 | each row of 20 bytes, as a base-256 number, is the weighted sum of the fields of the row (section 3.1 of RFC 791) |
| HeaderLayout.Ipv6Layout | stateful-progs/flowtracker_ipv6/flowtracker_ipv6_parser.p4:16-25 | both rows of numbers likewise, and the addresses in bytes 8 to 39 (section 3 of RFC 8200) |
| Ipv4Packets.PatchedIsLowered | routing/generated/routing_control_blocks.c:187-211 | the patch both forwarding programs make is: new MAC in front, byte 22 one lower, bytes 24 and 25 updated for it; no other byte |
| HeaderStructs.ExtractEthernet | tunnels/ipip/generated/ipip_parser.c:137-157 | the struct stands for the P4 header of the 14 bytes; the cursor moves 112 bits |
| HeaderStructs.ExtractIpv4 | tunnels/ipip/generated/ipip_parser.c:33-79 | the struct stands for the P4 header of the 20 bytes, its narrow fields in range; the cursor moves 160 bits |
| HeaderStructs.EmitEthernet | tunnels/ipip/generated/ipip_control_blocks.c:245-285 | the first 14 bytes become the serialized header, the rest is kept |
| HeaderStructs.EmitIpv4 | tunnels/ipip/generated/ipip_control_blocks.c:286-364 | twenty bytes become the serialized P4 header whatever they held, the rest is kept |
| HeaderStructs.EmitFragment | tunnels/ipip/generated/ipip_control_blocks.c:318-330 | four partial writes put the 3-bit flags and the 13-bit offset into two bytes |
| HeaderCodec.EmitOfParsed | stateful-progs/flowtracker/generated/flowtracker_control_blocks.c:214-292 | writing back the parsed IPv4 struct restores the buffer |
| HeaderCodec.ParseOfEmitted | stateful-progs/flowtracker/generated/flowtracker_control_blocks.c:214-292 | parsing an emitted IPv4 struct with fields in range restores every field, whatever the buffer held |
| HeaderCodec.ViewDetermines | tunnels/ipip/generated/ipip_parser.h:27-41 | within range, the P4 header determines the struct |
| HeaderCodec.EmitOfParsed6 | stateful-progs/flowtracker_ipv6/generated/flowtracker_ipv6_control_blocks.c:217-318 | writing back the parsed IPv6 struct restores the buffer |
| HeaderCodec.ParseOfEmitted6 | stateful-progs/flowtracker_ipv6/generated/flowtracker_ipv6_control_blocks.c:217-318 | parsing an emitted IPv6 struct with fields in range restores every field |
| HeaderCodec.SpillsExactly | tunnels/ipip/generated/ipip_parser.h:11 | write_partial does not mask: a byte keeps its first nibble exactly when the bits that spill over are in it already |
| Ipv6Structs.ExtractIpv6 | stateful-progs/flowtracker_ipv6/generated/flowtracker_ipv6_parser.c:33-98 | loads that start inside a byte give version, traffic class and flow label of the P4 header |
| Ipv6Structs.EmitIpv6 | stateful-progs/flowtracker_ipv6/generated/flowtracker_ipv6_control_blocks.c:217-318 | the nibble writes give the serialized P4 header whatever the bytes held |
| Ipip.RunParser | tunnels/ipip/generated/ipip_parser.c:31-177 | the goto parser accepts, rejects and sets headers and cursor as the P4 parser does, on every packet |
| Ipip.MainControl | tunnels/ipip/generated/ipip_control_blocks.c:63-134 | headers, metadata, drop flag and port are those of the P4 control |
| Ipip.PushHeader | tunnels/ipip/generated/ipip_control_blocks.c:143-215 | the new outer and inner structs stand for `ipip_push`, `ip_checksum` and `ip_ttl_dec`; `IpipBytes.PushedFields` says what these leave in the packet |
| Ipip.Deparse | tunnels/ipip/generated/ipip_control_blocks.c:220-446 | resize and emit replace the old headers by the new ones in front of the untouched payload; only a failing resize stops it |
| Ipip.Node | tunnels/ipip/generated/ipip_control_blocks.c:448-475 | for every packet, entry and kernel answer the buffer is what the P4 program serializes; the verdict is `Shot` for a dropped packet, `ToHost` for port 0, `Redirect(port)` otherwise |
| IpipP4.ParsedFits | tunnels/ipip/generated/ipip_parser.c:33-177 | on every accepting path the cursor is the summed width of the valid headers and fits the packet |
| IpipP4.ResizeIsOneHeader | tunnels/ipip/generated/ipip_control_blocks.c:223-244 | the deparser asks for -20 bytes exactly for a tunnelled packet, +20 exactly for a plain one at a set_ipip entry, else 0 |
| IpipBytes.RunExpected | tunnels/ipip/generated/ipip_control_blocks.c:63-446 | on bytes, for every packet and every entry or none: every other ether type is dropped; the entry decides drop, port and MAC; a tunnelled packet loses its 20 outer bytes; a plain one at a set_ipip entry gets the header written out in `Encapsulated`, with the entry's addresses |
| IpipBytes.PushedFields | tunnels/ipip/generated/ipip_control_blocks.c:143-215 | the pushed header byte by byte: source and destination of the entry, ttl 64, protocol 4, total length + 20, the rest of the first ten bytes copied; inside it the old packet one ttl lower |
| IpipTheorems.TunnelInverse | tunnels/ipip/generated/ipip_control_blocks.c:66-443 | for every IPv4 packet without two whole IPv4 headers: set_ipip at one node and set_nh at the next give the packet back but for destination MAC, ttl - 1 mod 256 and its checksum |
| IpipTheorems.TunnelChecksum | tunnels/ipip/generated/ipip_control_blocks.c:190-214 | for an IPv4 packet with nonzero version and every ttl, the header leaving the tunnel is the original at ttl - 1 mod 256 with the checksum computed from scratch if and only if the 20 header bytes verified going in |
| IpipTheorems.TunnelChecksumOverOptions | tunnels/ipip/generated/ipip_control_blocks.c:190-214 | the same over all ihl * 4 bytes, where the verdict is also kept |
| IpipTheorems.PushedHeaderVerifies | tunnels/ipip/generated/ipip_control_blocks.c:148-364 | the 20 bytes emitted for a pushed header read as ten words sum to 0xFFFF |
| IpipTheorems.NestingStep | tunnels/ipip/generated/ipip_control_blocks.c:92-133 | a node lowers nesting depth 2 or more by one, and takes depth 1 to 2 exactly at a set_ipip entry |
| IpipTheorems.NestingBounded | tunnels/ipip/generated/ipip_parser.c:81-86 | over any run nesting falls by one per hop down to 2 and never rises above 2 again |
| NodeRuns.ThroughTunnel | tunnels/ipip/generated/ipip_control_blocks.c:448-475 | two runs of the node code, set_ipip then set_nh: in between, bytes 14 to 33 are the pushed header with the addresses `Mem32(entry.src)` and `Mem32(entry.dst)`; at the end the packet is what it was, one ttl lower, with the second MAC; both verdicts are `ToHost` for port 0 and `Redirect` of the port of the entry otherwise |
| NodeRuns.OneTunnelNode | tunnels/ipip/generated/ipip_control_blocks.c:448-475 | the node code on a buffer, with bytes and verdict of the byte-level reference, for every packet and entry |
| IpipTheorems.NullLookupExactly | tunnels/ipip/generated/ipip_control_blocks.c:83-91 | code and P4 differ when a lookup returns nothing: exactly for an unrejected packet with an outer header whose drop flag is clear |
| IpipTheorems.NullLookupDiffers | tunnels/ipip/generated/ipip_control_blocks.c:83-126 | one packet that the design drops and the code sends on unchanged when the lookup returns nothing |
| Routing.RunParser | routing/generated/routing_parser.c:31-124 | the goto parser agrees with the P4 parser on every packet |
| Routing.MainControl | routing/generated/routing_control_blocks.c:77-179 | TTL guard, both lookups, MAC, drop flag and egress port agree with the P4 control; `RoutingBytes.RunExpected` says on bytes what they are |
| Routing.Process | routing/generated/routing_control_blocks.c:77-360 | return code, port and bytes of control, checksum update and emit are those of the P4 program |
| Routing.Node | routing/generated/routing_control_blocks.c:361-388 | one router leaves the bytes of the P4 program for every packet and table, and never resizes; the verdict is `Shot`, `ToHost` for port 0 or `Redirect(port)` |
| RoutingP4.ParsedFits | routing/generated/routing_parser.c:33-124 | the cursor is the summed width of the valid headers |
| RoutingP4.NoResize | routing/generated/routing_control_blocks.c:218-236 | the emitted headers are as long as the parsed ones |
| RoutingTheorems.HopPatches | routing/generated/routing_control_blocks.c:81-217 | a packet is sent if and only if it is a whole IPv4 packet with ttl above 1 and a next hop that does not drop, and then changes only in destination MAC, ttl and checksum; it leaves by the port of its next hop, or, if the entry names none, by the one it came with |
| RoutingBytes.RunExpected | routing/generated/routing_control_blocks.c:77-360 | on bytes, for every packet and any two tables: the FIB is asked for bytes 30 to 33 and 0 is looked up when it gives no index; a set_nh entry fixes MAC and port; what is dropped is dropped exactly for length, type, ttl or entry |
| RoutingTheorems.HopChecksumIsRecomputed | routing/generated/routing_control_blocks.c:187-211 | a forwarded packet leaves with the checksum recomputed from scratch, bit for bit, if and only if its 20 header bytes verified |
| RoutingTheorems.HopChecksumOverOptions | routing/generated/routing_control_blocks.c:187-211 | the same over all ihl * 4 bytes, options included, where the verdict is also kept |
| RoutingTheorems.RunChecksum | routing/generated/routing_control_blocks.c:81-217 | after any chain of hops the checksum is the one recomputed over all ihl * 4 bytes if and only if the header checked out at the start |
| PacketChecksum.PatchKeepsVerdict | routing/generated/routing_control_blocks.c:187-211 | the check over all ihl * 4 bytes, options included, has the same outcome before and after the update, for every ttl and every ihl |
| PacketChecksum.PatchRecomputes | tunnels/ipip/generated/ipip_control_blocks.c:190-214 | for every ttl, the update leaves the checksum recomputed over all ihl * 4 bytes if and only if the header checked out over them |
| RoutingTheorems.RoutingSafety | routing/generated/routing_control_blocks.c:81-217 | after n hops through arbitrary tables ttl is exactly n lower and at least 1, and everything outside MAC, ttl and checksum is unchanged; so at most t - 1 hops |
| NodeRuns.ThroughRouters | routing/generated/routing_control_blocks.c:361-388 | the router code run over a chain of routers in one buffer: the packet at the end is that of the run, and the verdict of every router reached is the one the byte-level reference gives |
| NodeRuns.OneRouter | routing/generated/routing_control_blocks.c:361-388 | one router on a packet in its buffer, with bytes and verdict of the byte-level reference |
| FlowTracker.RunParser | stateful-progs/flowtracker/generated/flowtracker_parser.c:31-169 | for both families the goto parser agrees with the P4 parser on every packet; `FlowBytes.TrackedExactly` says on bytes which ones it accepts |
| FlowTracker.BuildKey | stateful-progs/flowtracker_ipv6/generated/flowtracker_ipv6_control_blocks.c:77-87 | the key struct in memory is that of the flow of the parsed headers, absent headers counting as zeros |
| FlowTracker.KeyMemory | stateful-progs/flowtracker/generated/flowtracker_control_blocks.c:77-87 | the struct built field by field has the byte layout of the key |
| FlowTracker.ApplyFlowTable | stateful-progs/flowtracker/generated/flowtracker_control_blocks.c:88-133 | lookup, and create exactly on a miss that the kernel answers |
| FlowTracker.EmitHeaders | stateful-progs/flowtracker_ipv6/generated/flowtracker_ipv6_control_blocks.c:143-363 | the valid headers are written in order from the front; no bounds check fires |
| FlowTracker.Node | stateful-progs/flowtracker/generated/flowtracker_control_blocks.c:58-364 | a tracker never changes a byte of any packet; a rejected packet is `Shot` and leaves no trace in the table, any other is tracked once, dropped or not, and unless dropped goes `ToHost` for port 0 and `Redirect(port)` otherwise |
| FlowTrackerP4.EmitRestores | stateful-progs/flowtracker_ipv6/generated/flowtracker_ipv6_control_blocks.c:217-318 | deparsing what was parsed restores the packet, truncated packets included |
| FlowTrackerP4.ParsedFits | stateful-progs/flowtracker_ipv6/generated/flowtracker_ipv6_parser.c:33-187 | the cursor is the summed width of the valid headers, and never both TCP and UDP are valid |
| FlowTrackerP4.KeyInjective | stateful-progs/flowtracker/generated/flowtracker_control_blocks.c:60-87 | key bytes are equal exactly when port, addresses, protocol and effective ports are |
| FlowTrackerP4.KeySizeIsFieldWidth | stateful-progs/flowtracker_ipv6/generated/flowtracker_ipv6_control_blocks.c:10-19 | 136 and 328 are the summed key field widths in bits, and the struct is a multiple of 8 bytes |
| FlowBytes.TrackedExactly | stateful-progs/flowtracker/generated/flowtracker_parser.c:33-126 | a packet is tracked if and only if it is shorter than 14 bytes, or its type bytes are those of the family and it ends before the network header does or has protocol byte 6 or 17 |
| FlowBytes.KeyExpected | stateful-progs/flowtracker_ipv6/generated/flowtracker_ipv6_control_blocks.c:60-87 | the key in bytes, for every tracked packet: size, zeros, ingress port, addresses, protocol and ports as they stand in the packet, zeros for what it is too short for |
| FlowTheorems.SameKeySameBytes | stateful-progs/flowtracker/generated/flowtracker_control_blocks.c:60-87 | complete packets share an entry exactly when port, protocol byte and the bytes of addresses and ports agree; IPv4 options are not skipped |
| FlowTheorems.PortsReadExactly | stateful-progs/flowtracker/generated/flowtracker_parser.c:88-126 | for IPv4 headers of length ihl >= 5 the key always has the ports that stand behind the whole header if and only if ihl = 5; a wrong key is given for each longer header |
| FlowTheorems.PortsReadWhen | stateful-progs/flowtracker/generated/flowtracker_parser.c:88-126 | for one packet: exactly if the bytes 34 to 37 equal those behind the header |
| FlowTheorems.SameKeySameFlow | stateful-progs/flowtracker_ipv6/generated/flowtracker_ipv6_control_blocks.c:60-87 | any two accepted packets share an entry exactly when they are of one flow |
| FlowRuns.OneEntryPerFlow | stateful-progs/flowtracker/generated/flowtracker_control_blocks.c:73-133 | after any sequence of packets the table lists the distinct flows in order of first arrival, one entry each |
| FlowRuns.TrackRun | stateful-progs/flowtracker/generated/flowtracker_control_blocks.c:58-364 | the tracker code run on one packet after the other: the table lists the byte-level keys of the packets tracked on bytes where they occur first; these leave unchanged, `ToHost` for port 0 and else `Redirect`, the others are `Shot` |
| FlowTable.AnyInterleaving | stateful-progs/flowtracker/generated/flowtracker_control_blocks.c:73-133 | under any interleaving of lookups and creates of many CPUs with deletions and failures: every key belongs to a packet, no key appears twice, entries are those created and not removed |
| FlowTable.KeyIsKept | stateful-progs/flowtracker/generated/flowtracker_control_blocks.c:73-133 | a key that no deletion or failure concerns is in the table or pending exactly when a packet had it |
| FlowTable.QuietTable | stateful-progs/flowtracker/generated/flowtracker_control_blocks.c:73-133 | without deletions and failures, once nothing is pending the table is the set of keys seen and each was created once |
| FlowTable.TrackedInOrder | stateful-progs/flowtracker/generated/flowtracker_control_blocks.c:88-133 | one packet after the other, the table lists first occurrences in order |
| FlowTable.TrackOneIsTwoSteps | stateful-progs/flowtracker/generated/flowtracker_control_blocks.c:88-133 | what one packet does is a lookup step and a create step of the interleaved machine |
| Calc.Lookahead | calc/generated/calc_parser.c:37-71 | a lookahead reads the header and restores the cursor, found or too short |
| Calc.SignatureIsMark | calc/generated/calc_parser.c:145-147 | the 24-bit value tested is reached by P, 4 and version 1 and by nothing else |
| Calc.CheckP4calcState | calc/generated/calc_parser.c:36-150 | one mark from each of three lookaheads decides; a short packet ends with the cursor after the Ethernet header |
| Calc.RunParser | calc/generated/calc_parser.c:33-227 | every packet is accepted, with the headers and cursor of the P4 parser |
| Calc.SendBackTo | calc/generated/calc_control_blocks.c:100-107 | the addresses are swapped through the byte-swapped temporary, the result is stored, the packet returns to its port |
| Calc.ApplyEntry | calc/generated/calc_control_blocks.c:96-178 | each table entry does what its P4 action does |
| Calc.Process | calc/generated/calc_control_blocks.c:68-305 | bytes, drop and port of control and emit are those of the P4 program; it never resizes |
| Calc.Node | calc/generated/calc_control_blocks.c:307-334 | one calculator leaves the bytes of the P4 program for every packet and table; the verdict is `Shot`, `ToHost` for port 0 or `Redirect(port)` |
| CalcP4.ParsedFits | calc/generated/calc_parser.c:36-227 | on every path, failed lookaheads included, the cursor is the summed width of the valid headers |
| CalcP4.P4calcRoundTrip | calc/calc_parser.p4:67-75 | reading a serialized calculator header gives every field back |
| CalcP4.P4calcRoundTripBytes | calc/calc_parser.p4:67-75 | serializing what was read from any 16 bytes gives them back |
| CalcP4.NoResize | calc/generated/calc_control_blocks.c:188-199 | the emitted headers are as long as the parsed ones |
| CalcTheorems.AnsweredExactly | calc/calc.p4:32-37 | with the template entries a packet is answered if and only if it is a calculation with one of the five operators, else dropped |
| CalcTheorems.DroppedExactly | calc/generated/calc_control_blocks.c:71-185 | for any table, exactly which packets are dropped; a lookup without answer lets a packet through |
| CalcTheorems.ReplyIs | calc/generated/calc_control_blocks.c:96-302 | the answer differs from the request in the swapped addresses and the result field only |
| CalcTheorems.AskedTwice | calc/generated/calc_control_blocks.c:96-302 | a reply sent back to the calculator returns as the request with the result filled in |
| CalcTheorems.EndToEnd | calc/calc.py:39-82 | for every line of number x, operator, number y below 2^32 with any white space, bytes 26 to 29 of the answer are in base 256 (x + y) mod 2^32, (x - y) mod 2^32, or the operation on the 32-bit words with the values x and y; the MACs are swapped and it leaves by the port it came in on |
| CalcTheorems.RequestOnBytes | calc/calc.py:80-87 | the 31 bytes of a request: MACs, type, marks, the character of the operator, both numbers in base 256 with the most significant byte first, zero result, one blank |
| CalcTheorems.SameOperators | calc/generated/calc.template:37-41 | the characters the client accepts are exactly those the template has operations for |
| CalcTheorems.ThreeComesBack | calc/calc.py:75-94 | asked "1 + 2", 3 comes back |
| CalcBytes.RunExpected | calc/generated/calc_control_blocks.c:71-305 | on bytes, for every packet and any table: what is not a calculation is dropped; an operation swaps the addresses and fills in sum or difference mod 2^32 in base 256 or the logical operation; else the entry decides |
| WordArithmetic.PlusValue | calc/generated/calc_control_blocks.c:101 | 32-bit addition is addition of the values modulo 2^32 |
| WordArithmetic.MinusValue | calc/generated/calc_control_blocks.c:112 | 32-bit subtraction is subtraction of the values modulo 2^32 |
| WordArithmetic.BigEndianOfRow | include/ebpf_kernel.h:42 | a word in network order is its value in base 256, most significant byte first |
| CalcTheorems.RequestExactly | calc/calc.py:39-82 | a line leads to a request if and only if it begins with number, operator, number, both below 2^32 |
| NodeRuns.Ask | calc/calc.py:75-94 | the client code, the node code on the packet buffer, and reading the result field: a number comes back exactly for lines that ask something, and its value is the sum or difference mod 2^32 or the operation on the words |
| NodeRuns.OneCalculator | calc/generated/calc_control_blocks.c:307-334 | the node code on a buffer, with bytes and verdict of the byte-level reference, for every packet and table |
| CalcClient.NumParser | calc/calc.py:39-45 | on a match the digits are appended to the shared list, otherwise the list is unchanged and the error is raised |
| CalcClient.OpParser | calc/calc.py:48-54 | as for numbers; the exception is NumParseError with the operator message |
| CalcClient.ParseLine | calc/calc.py:57-66 | three parsers on one shared list compute what the composed parsers return |
| CalcClient.LineIsAccepted | calc/calc.py:39-66 | every well-formed line gives its three tokens |
| CalcClient.AcceptedIsLine | calc/calc.py:39-66 | an accepted line is well-formed |
| CalcClient.DecimalOfDigits | calc/calc.py:80-82 | every number has a numeral that int() reads back |
| CalcClient.DecimalIsPositional | calc/calc.py:80-82 | int() is positional: what stands in front counts ten times more for each digit behind it |
| CalcClient.Request | calc/calc.py:75-87 | a line becomes the request or the first error of the composed parsers; `CalcTheorems.RequestOnBytes` gives its bytes |
| CalcClient.RaisedExactly | calc/calc.py:45-54 | the operator message is raised exactly when a number is followed by no operator, and OpParseError never is |

## Left out

- Kernel functions (`bpf_p4tc_tbl_read`, `bpf_p4tc_entry_create_on_miss`, `bpf_skb_adjust_room`, `bpf_redirect`, map lookup): contracts only; what they return and what new room holds are inputs. Prefix selection, entry aging and table permissions are the kernel's.
- `hdr_md_cpumap` is taken to hold an entry for the CPU, as its declaration says; the branch for a missing entry only drops.
- Ether-type restoration from `data_meta`, the `pass_to_kernel` second pass and the recirculation mark of `tc_ingress_func`: they depend on kernel behaviour not in this repository.
- IPv4 options on encapsulation: the push copies `ihl`, so the outer checksum covers the 20 emitted bytes, which is the whole header for `ihl` = 5; `totalLen` + 20 wraps at 16 bits as in the code.
- The deparser swaps multi-byte struct fields in place before writing them; the structs are not used again, so the model writes the swapped value without keeping it.
- Tables of one node are functions of the key during one packet; entries changing between two lookups of one packet are modelled for the flow table only.
- FlowTracker.Node: lookup and create of one packet follow each other with nothing in between; what other CPUs and timers do between them is the state machine of `FlowTable`.
- The CRC routines update a register through a pointer; the model passes it in and returns it.
- Sixteen byte-wise loads or writes of an IPv6 address are one slice or one field write.
- The per-CPU scratch fields, `hit` and the trace macro have no effect on packets; neither has `parser_error`, which is set as in the code and which no program reads, so no contract mentions its value.
- `crc16_finalize` is the identity.
- The regular-expression engine, the prompt loop, packet transmission and matching of answers in `calc.py`; numerals longer than Python converts by default raise an error there that is not modelled.
- `simple_l3`, `redirect_l2`, `arp_responder`: weaker instances of the same parser and emit pattern.
- `bpf_p4tc_extern_random`, vendored headers other than `bpf_endian.h`, tc templates beyond the entries of the calculator, JSON, yml and setup scripts.
