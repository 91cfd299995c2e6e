# avr-common network stack and peripherals, modelled in Dafny

This project models the core of avr-common, a C library for AVR
microcontrollers, and proves properties of the model. The parts modelled are:

- **The network stack of `modules/nw-stack.c`.**
  - It works on one shared 256-byte packet buffer. Every layer reads the received frame there and rewrites it in place into its reply.
  - The Ethernet, IP, ARP, ICMP, UDP, NTP and TCP handlers are modelled, together with the header codecs of `include/` they use.
  - The 3-entry ARP cache with LRU reuse is modelled.
  - So are the IPv4 header and TCP/UDP pseudo-header checksums (RFC 1071) and the incremental ICMP echo checksum (RFC 1624).
  - The 4-entry TCP connection table runs a small HTTP-on-port-80 server with the state names of RFC 793.
  - The SNTP client (RFC 4330) has one outstanding request and a retry task.
- **The socket layer of `modules/nw-stack2.c`.** This covers allocation, bind, connect, state, send and close. It also covers the ARP resolution that matches pending entries and the TIME-WAIT expiry.
- **The scheduler of `modules/task.c`.**
- **The DS1307 clock driver of `modules/rtc-ds1307.c`.** This is the NTP-to-calendar breakdown, the BCD registers and their decode.
- **The UART line assembler of `modules/uart0.c`.**
- **The 1-Wire code of `modules/one-wire.c`.** This is the LSB-first byte transfer, Match ROM and the Search ROM pass.
- **Small codecs.** These are the ENC28J60 register codes and instructions, the Picaso colour byte and the assigned MAC addresses.

Code that changes state in place is modelled as classes over arrays, with methods proved against specification functions:

- the stack (`NwStack.Stack`, which owns the packet buffer);
- the ARP cache, the TCP table, the socket table and the scheduler table;
- the UART buffer and the 1-Wire scanner.

The field macros and the pure arithmetic are modelled as functions, with lemmas about them.

The outside world is given as parameters:

- the 10 ms clock tick;
- a frame received;
- the answer of the HTTP handler and the callbacks of tasks;
- the results of I2C transfers;
- the bits read from the 1-Wire bus.

A frame handed to the controller is returned as the buffer and the length asked for. Bits and characters sent are returned as sequences.

Module layout:

| file | module | models |
|---|---|---|
| wrappers.dfy | Wrappers | the Option type |
| bytes.dfy | Bytes | include/nw-stack2.h: byte and big-endian word access, IP_MATCH, IP_COPY, MAC_COPY |
| eth.dfy, ip.dfy, arp_header.dfy, udp.dfy, ntp_header.dfy, tcp_header.dfy | Eth, Ip, ArpHeader, Udp, NtpHeader, TcpHeader | the header macros of include/ |
| checksum.dfy | Checksum | ip_make_checksum, tcpudp_make_checksum |
| icmp.dfy | Icmp | the echo reply checksum adjustment |
| reply.dfy | Reply | eth_make_reply, ip_make_reply, tcp_make_reply, the ARP and echo reply rewrites |
| requests.dfy | Requests | the frames of send_arp_request and send_sntp_request |
| arp_cache.dfy | ArpCache | the ARP cache of both stack variants |
| tcp_conn.dfy | TcpConn | the TCP connection table and its state machine |
| dispatch.dfy | Dispatch | the decisions the layer handlers take on a received frame |
| stack.dfy | NwStack | the stack object and its handlers |
| sockets.dfy | Sockets | the socket table of nw-stack2.c |
| task.dfy | Task | task.c |
| rtc.dfy | Rtc | rtc-ds1307.c |
| uart.dfy | Uart | uart0.c |
| one_wire.dfy | OneWire | one-wire.c |
| enc28j60.dfy | Enc28j60 | include/enc28j60.h and the bank switch of modules/enc28j60.c |
| picaso.dfy | Picaso | include/uvga-picaso.h |
| ether_assign.dfy | EtherAssign | include/ethernet-assign.h |

## Model

| member | source | states |
|---|---|---|
| Bytes.ByteOf | include/nw-stack2.h:10-13 | the `(uint8_t)` cast keeps the value modulo 256 |
| Bytes.Read2Byte | include/nw-stack2.h:7-8 | a big-endian 16-bit read is below 2^16 |
| Bytes.Read4Byte | include/nw-stack2.h:21-22 | a big-endian 32-bit read is below 2^32 |
| Bytes.Read2ByteBytes | include/nw-stack2.h:7-8 | the high byte of the read is the byte at the offset, the low byte the next one |
| Bytes.Read4ByteHalves | include/nw-stack2.h:21-22 | a 32-bit read is the high 16-bit word times 2^16 plus the low word |
| Bytes.Encode16 | include/nw-stack2.h:15-19 | the two stored bytes read back as the value modulo 2^16, high byte first |
| Bytes.Encode32 | include/nw-stack2.h:24-30 | the four stored bytes read back as the value modulo 2^32, and as its two 16-bit halves |
| Bytes.Split16 | include/nw-stack2.h:15-19 | the masked high and low bytes recombine to the value modulo 2^16 |
| Bytes.Split32 | include/nw-stack2.h:24-30 | the four masked bytes recombine to the value modulo 2^32 |
| Bytes.WriteByte | include/nw-stack2.h:10-13 | only the addressed byte changes, and it holds the value modulo 256 |
| Bytes.Write2Byte | include/nw-stack2.h:15-19 | only the two addressed bytes change; they read back as the value modulo 2^16 |
| Bytes.Write4Byte | include/nw-stack2.h:24-30 | only the four addressed bytes change; they read back as the value modulo 2^32 |
| Bytes.Put2 | include/nw-stack2.h:15-19 | storing two bytes leaves the rest of the buffer and reads back as stored |
| Bytes.Put4 | include/nw-stack2.h:24-30 | storing four bytes leaves the rest of the buffer and reads back as stored |
| Bytes.Read2Outside | include/nw-stack2.h:7-8 | a 16-bit field outside the bytes a write touched reads the same |
| Bytes.Read4Outside | include/nw-stack2.h:21-22 | a 32-bit field outside the bytes a write touched reads the same |
| Bytes.IpMatchIsPrefixEquality | include/nw-stack2.h:32-33 | IP_MATCH holds exactly when the four-byte prefixes are equal, so it is reflexive and symmetric |
| Bytes.CopyInto | include/nw-stack2.h:35-47 | the copy loop stores the source bytes at the target and changes nothing else |
| Bytes.IpCopy | include/nw-stack2.h:35-40 | after IP_COPY the four target bytes match the source under IP_MATCH, nothing else changes |
| Bytes.MacCopy | include/nw-stack2.h:42-47 | after MAC_COPY the six target bytes equal the source, nothing else changes |
| Eth.EthSetType | include/eth.h:33-34 | the type reads back as the value modulo 2^16; both MAC addresses and every other byte are kept |
| Eth.EthTypeBytes | include/eth.h:33-38 | the type is read big-endian, so it is ETH_PROTOCOL_IP exactly for bytes 08 00 and ETH_PROTOCOL_ARP exactly for 08 06 |
| Udp.Offset | include/udp.h:14-27 | every header word lies on an even offset inside the 8-byte header |
| Udp.FieldsDisjoint | include/udp.h:14-27 | distinct header words occupy disjoint byte pairs |
| Udp.Set | include/udp.h:15-27 | the word reads back as the value modulo 2^16, every other word is kept, no other byte changes |
| Udp.OthersUnchanged | include/udp.h:14-27 | a write confined to one word leaves every other word as it reads |
| NtpHeader.Offset | include/ntp.h:23-54 | every 32-bit word is 4-aligned and lies in bytes 4-47 of the 48-byte header |
| NtpHeader.FieldAt | include/ntp.h:23-54 | every byte from 4 to 47 lies in some 32-bit word |
| NtpHeader.FieldsTile | include/ntp.h:23-54 | a byte from 4 to 47 lies in exactly one word |
| NtpHeader.FieldsDisjoint | include/ntp.h:23-54 | distinct words occupy disjoint byte ranges |
| NtpHeader.SetLiVnMode | include/ntp.h:11-12 | only byte 0 changes, to the given value |
| NtpHeader.Set | include/ntp.h:24-54 | the word reads back as the value modulo 2^32, every other word is kept, no other byte changes |
| NtpHeader.OthersUnchanged | include/ntp.h:23-54 | a write confined to one word leaves every other word as it reads |
| ArpHeader.Offset | include/arp.h:9-13 | the hardware, protocol and opcode words lie before the sender address and miss the two length bytes |
| ArpHeader.AddressLayout | include/arp.h:7-18 | the four address fields follow each other without gap or overlap up to the 28-byte header end |
| ArpHeader.FieldsDisjoint | include/arp.h:9-13 | distinct 16-bit words occupy disjoint byte pairs |
| ArpHeader.DstIpIsUsIffAddress | include/arp.h:41-46 | ARP_DST_IP_IS_US holds exactly when bytes 24-27 equal the address |
| ArpHeader.SetHwLen | include/arp.h:29 | only byte 4 changes, to the given value |
| ArpHeader.SetPrLen | include/arp.h:33 | only byte 5 changes, to the given value |
| ArpHeader.Set | include/arp.h:21-37 | the word reads back as the value modulo 2^16, every other word is kept, no other byte changes |
| ArpHeader.OthersUnchanged | include/arp.h:20-37 | a write confined to one word leaves every other word as it reads |
| ArpHeader.Store4 | include/arp.h:48-64 | the four byte stores put the address at the offset and change nothing else |
| ArpHeader.PutAddress | include/arp.h:48-64 | four single-byte updates equal writing the address slice, with the rest kept |
| ArpHeader.SetSrcProtocolAddr | include/arp.h:48-55 | the sender IP becomes the address; only bytes 14-17 change |
| ArpHeader.SetDstProtocolAddr | include/arp.h:57-64 | the target IP becomes the address, so ARP_DST_IP_IS_US holds for it; only bytes 24-27 change |
| Ip.SetVersionByte | include/ip.h:20-25 | the version reads back as the low nibble of the value (exactly, below 16) and the header length is kept |
| Ip.SetHdrLenByte | include/ip.h:29-34 | the header length reads back as the low nibble; a value of 16 or more also ORs its high nibble into the version |
| Ip.SetFragFlagsByte | include/ip.h:57-61 | bits 0-4 are kept and the three flag bits read back as the value's low three bits |
| Ip.ClearFlagsByte | include/ip.h:67 | no flag is left and bits 0-4 are kept |
| Ip.SetFlagByte | include/ip.h:68 | the flag is ORed into those already set and bits 0-4 are kept |
| Ip.FragFlagsMissesMoreFragments | include/ip.h:55-69 | the 0xd0 mask of IP_GET_FRAG_FLAGS never reports more-fragments, and differs from IP_GET_FLAGS exactly when that flag is set |
| Ip.NoFlagsBelow32 | include/ip.h:69 | a byte below 32 carries no flag |
| Ip.IpSetVersion | include/ip.h:21-25 | only byte 0 changes, to the byte IP_SET_VERSION computes |
| Ip.IpSetHdrLen | include/ip.h:30-34 | only byte 0 changes, to the byte IP_SET_HDR_LEN computes |
| Ip.IpSetFragFlags | include/ip.h:57-61 | only byte 6 changes, to the byte IP_SET_FRAG_FLAGS computes |
| Ip.IpClearFlags | include/ip.h:67 | only byte 6 changes, to the byte with no flag |
| Ip.IpSetFlag | include/ip.h:68 | only byte 6 changes, to the byte with the flag added |
| Ip.IpSetFragOffset | include/ip.h:72-73 | the offset reads back as the value modulo 2^13 and, because the whole word is written, every flag is cleared |
| Ip.FragOffsetWord | include/ip.h:72-73 | a word below 2^13 reads back unchanged and has no flag bit in its high byte |
| Ip.IpSetTos | include/ip.h:39 | only byte 1 changes, to the given value |
| Ip.IpSetTtl | include/ip.h:77 | only byte 8 changes, to the given value |
| Ip.IpSetProtocol | include/ip.h:81 | only byte 9 changes, to the given value |
| Ip.IpSetLength | include/ip.h:45 | the total length reads back as the value modulo 2^16; only bytes 2-3 change |
| Ip.IpSetId | include/ip.h:51 | the identification reads back as the value modulo 2^16; only bytes 4-5 change |
| Ip.IpSetCksum | include/ip.h:90 | the checksum reads back as the value modulo 2^16; only bytes 10-11 change |
| TcpHeader.Offset16 | include/tcp.h:12-58 | every 16-bit word lies inside the 20-byte header and misses bytes 12-13 |
| TcpHeader.Offset32 | include/tcp.h:22-27 | both 32-bit words lie before byte 12 |
| TcpHeader.WordsDisjoint | include/tcp.h:12-58 | no two header words share a byte |
| TcpHeader.SetDataOffsetByte | include/tcp.h:30-34 | the low nibble is kept and the data offset reads back as the value's low nibble (exactly, below 16) |
| TcpHeader.ClearFlagsByte | include/tcp.h:44-46 | no flag is left and bits 6-7 are kept |
| TcpHeader.SetFlagByte | include/tcp.h:45-46 | the flag bits are ORed into those set; a flag below 64 keeps bits 6-7 |
| TcpHeader.ClearThenSet | include/tcp.h:44-46 | clearing and then setting a flag set below 64 leaves exactly that set |
| TcpHeader.FlagsAreDistinctBits | include/tcp.h:37-46 | the six flags are distinct bits that together fill the six-bit flag field |
| TcpHeader.Set16 | include/tcp.h:13-58 | the word reads back as the value modulo 2^16, every other word is kept, no other byte changes |
| TcpHeader.Set32 | include/tcp.h:23-27 | the word reads back as the value modulo 2^32, every other word is kept, no other byte changes |
| TcpHeader.Others16Unchanged | include/tcp.h:12-58 | a write confined to one 16-bit word leaves every other word as it reads |
| TcpHeader.Others32Unchanged | include/tcp.h:12-58 | a write confined to one 32-bit word leaves every other word as it reads |
| TcpHeader.SetDataOffset | include/tcp.h:31-34 | only byte 12 changes, to the byte TCP_SET_DATA_OFFSET computes |
| TcpHeader.ClearFlags | include/tcp.h:44 | only byte 13 changes, to the byte with no flag |
| TcpHeader.SetFlag | include/tcp.h:45 | only byte 13 changes, to the byte with the flag added |
| Checksum.Fold | modules/nw-stack.c:617-619 | the end-around-carry fold is below 2^16, non-zero for a non-zero sum and the identity below 2^16 |
| Checksum.FoldResidue | modules/nw-stack.c:617-619 | folding keeps the sum's residue modulo 0xffff |
| Checksum.FoldStep | modules/nw-stack.c:618-619 | one fold step lowers a sum of 2^16 or more and keeps its residue, so the loop ends |
| Checksum.ComplementVerifies | modules/nw-stack.c:159-178 | adding the stored complement to the sum folds to all ones, which is the receiver's check |
| Checksum.TwoStepFold | modules/nw-stack.c:172-173 | the two fixed folding steps of ip_make_checksum give the full fold for any header of up to 30 words |
| Checksum.WordSumBound | modules/nw-stack.c:169-170 | a sum of n words is at most n times 0xffff |
| Checksum.WordSumUpdate | modules/nw-stack.c:169-170 | replacing one word changes the sum by the difference of the two words |
| Checksum.WordSumAtLeast | modules/nw-stack.c:169-170 | the sum is at least any one of its words |
| Checksum.FoldAllOnes | modules/nw-stack.c:617-619 | a sum folds to 0xffff exactly when it is a non-zero multiple of 0xffff |
| Checksum.WordSumSame | modules/nw-stack.c:169-170 | the sum depends only on the bytes of its range |
| Checksum.SumWords | modules/nw-stack.c:159-178 | the loop returns the sum of the big-endian words of the range |
| Checksum.StoredComplementVerifies | modules/nw-stack.c:162-177 | zeroing a word, summing, folding and storing the complement there makes the range fold to all ones |
| Checksum.HdrWords | modules/nw-stack.c:167 | a header is at most 30 words long |
| Checksum.IpMakeChecksum | modules/nw-stack.c:159-178 | only the checksum field changes, and a header of at least six words then passes the receiver's check |
| Checksum.IpChecksumOutside | modules/nw-stack.c:159-178 | a header that passes the receiver's verification still passes after bytes beyond it change |
| Checksum.SetCksumVerifies | modules/nw-stack.c:162-177 | storing the complement of the folded sum of the zeroed header makes it pass the receiver's verification |
| Checksum.PaddedSumSame | modules/nw-stack.c:611-615 | the padded segment sum reads only the segment's own bytes |
| Checksum.SegmentSumVersusPadded | modules/nw-stack.c:611-615 | for an even length the loop's sum is the padded sum; for an odd length it also adds the byte after the segment |
| Checksum.TcpUdpMakeChecksum | modules/nw-stack.c:594-625 | only the checksum word changes; it holds the complement of the folded SourceSum of the buffer with that word zeroed, and when the segment holds the word and follows the IP header the pseudo-header and segment then fold to all ones |
| Checksum.LastIndex | modules/nw-stack.c:614 | `pktlen - 1` in unsigned 16-bit arithmetic: one less than a non-zero length, 0xffff for 0 |
| Checksum.TailSum | modules/nw-stack.c:614-615 | the step after the word loop adds the segment's second byte as a high byte exactly for an empty segment, and nothing otherwise |
| Checksum.EmptySegmentAddsSecondByte | modules/nw-stack.c:601-615 | the source's sum equals the pseudo-header and segment sum for every non-zero length; for length 0 it exceeds it by the second byte times 256, so they agree exactly when that byte is 0 |
| Checksum.FoldedSum | modules/nw-stack.c:601-619 | the result is the fold of the pseudo-header and segment sum plus the tail step's term |
| Checksum.SegmentCksumVerifies | modules/nw-stack.c:594-625 | storing the complement of that fold in the zeroed checksum word makes the segment pass the receiver's verification |
| ArpCache.Find | modules/nw-stack.c:254-274 | the scan returns the first entry it accepts for the address, or -1 when it accepts none |
| ArpCache.FirstFree | modules/nw-stack.c:286-289 | the first unallocated entry, every entry before it allocated, or -1 when all are allocated |
| ArpCache.Lru | modules/nw-stack.c:291-295 | the entry with the smallest last access, the first such one on a tie |
| ArpCache.Slot | modules/nw-stack.c:281-303 | the slot chosen is an index of the table |
| ArpCache.SlotChoice | modules/nw-stack.c:281-303 | with a free entry the lowest one is returned and the table is unchanged; otherwise the least recently used entry is cleared and nothing else changes |
| ArpCache.OperationsKeepConsistent | modules/nw-stack.c:241-375 | a lookup stamp, slot selection, a claim and a reply all keep "only an allocated entry is valid" |
| ArpCache.ResolveAtMostOne | modules/nw-stack.c:347-372 | a reply completes at most one entry, one pending for the sender, which becomes valid with the sender's MAC; it changes the table exactly when such an entry exists |
| ArpCache.PendingLookupMisses | modules/nw-stack.c:252-275 | a pending entry is invisible to the lookup of nw-stack.c, so a second request for the address claims a second slot |
| ArpCache.ResolveIsSingleFlight | modules/nw-stack2.c:500-515 | nw-stack2.c claims a slot only when no allocated entry has the address, so each address holds at most one entry and the next lookup finds it |
| ArpCache.TouchKeepsLookups | modules/nw-stack.c:269 | stamping the last access changes no later lookup and keeps addresses unique |
| ArpCache.ClaimFinds | modules/nw-stack.c:449-454 | the slot just claimed is found by a scan for allocated entries |
| ArpCache.Cache.Init | modules/nw-stack.c:241-245 | every entry is left neither allocated nor valid, and nothing else of the entries changes |
| ArpCache.Cache.Lookup | modules/nw-stack.c:252-275 | returns the first valid entry for the address, or -1, and stamps only that entry |
| ArpCache.Cache.LookupAllocated | modules/nw-stack2.c:290-307 | returns the first allocated entry for the address, pending or valid, or -1, and stamps only that entry |
| ArpCache.Cache.GetSlot | modules/nw-stack.c:281-303 | returns the slot the LRU choice names and leaves the table as that choice does |
| ArpCache.Cache.ClaimSlot | modules/nw-stack.c:449-454 | the slot records the address and becomes allocated; no other entry changes |
| ArpCache.Cache.Complete | modules/nw-stack.c:347-372 | the table becomes the one a reply resolves |
| Icmp.FoldOnce | modules/nw-stack.c:484-487 | a sum below 2^16 + 0xffff folds in at most one step |
| Icmp.ReplyCksum | modules/nw-stack.c:483-487 | the intended adjustment is non-zero, below 2^16, and the old checksum plus 0x0800 with the end-around carry |
| Icmp.AdjustAsWritten | modules/nw-stack.c:484-487 | the adjustment as written stays below 2^16 |
| Icmp.AdjustAsWrittenIff | modules/nw-stack.c:484-487 | the adjustment as written equals the intended one exactly unless the high byte overflows while the low byte is 0xff |
| Icmp.AdjustAsWrittenDropsCarry | modules/nw-stack.c:484-487 | a checksum of 0xf8ff becomes 0x0000 where 0x0100 is due |
| Icmp.EchoReplyVerifies | modules/nw-stack.c:480-487 | with the intended adjustment the reply passes the receiver's check exactly when the request did |
| Icmp.EchoReplySums | modules/nw-stack.c:480-487 | the sums of request and reply differ by exactly the type and checksum changes |
| Icmp.MakeEchoReply | modules/nw-stack.c:480-487 | the type becomes echo reply and the checksum the adjustment as written; only bytes 0, 2 and 3 change |
| Icmp.EchoAdjustKeepsValidity | modules/nw-stack.c:480-487 | outside the losing input the rewrite keeps the message's validity both ways |
| Icmp.AdjustCksum | modules/nw-stack.c:484-487 | only the two checksum bytes change, to the adjustment as written |
| Dispatch.RouteOf | modules/nw-stack.c:92-108 | an ARP frame of at least 14 bytes goes to the ARP layer with the rest of the frame; an IPv4 frame goes on as the IP layer routes it; anything else is dropped |
| Dispatch.IpConsumed | modules/nw-stack.c:190-191 | the header bytes skipped, `20 + (hdr_len - 5) * 4` in 16-bit arithmetic, are twice the header's word count and at most 60 |
| Dispatch.IpRoute | modules/nw-stack.c:184-206 | a packet of at least 20 bytes goes to ICMP, TCP or UDP behind its `4 * hdr_len`-byte header, where the largest header the handler reads still fits the buffer |
| Dispatch.ArpExchange | modules/nw-stack.c:307-457 | the request one host of this stack broadcasts is answered by the target host, and its answer reaches the asker and teaches it exactly the target's addresses |
| Dispatch.SntpRequestRoutes | modules/nw-stack.c:909-946 | the SNTP request frame reaches the NTP layer with one NTP header of payload and, being in client mode, is never accepted as the answer |
| Dispatch.UnpackPackIp | modules/nw-stack.c:1036-1103 | the retry task unpacks exactly the server address that was packed into its data word |
| TcpConn.Match | modules/nw-stack.c:672-687 | the first block, not in LISTEN, whose local port, remote port and remote address are the segment's, or -1 with no such block |
| TcpConn.LastListen | modules/nw-stack.c:674-675 | the last LISTEN block of the scanned prefix, or -1 with none |
| TcpConn.Select | modules/nw-stack.c:672-691 | the block chosen is an index of the table, or -1 |
| TcpConn.Add32 | modules/nw-stack.c:708-755 | 32-bit sequence arithmetic stays below 2^32 |
| TcpConn.StepTracksSequenceSpace | modules/nw-stack.c:703-815 | every reply acknowledges and carries the block's sequence number, which then advances by exactly the reply's data plus one for SYN and for FIN; without a reply it stays |
| TcpConn.StepStaysInServedStates | modules/nw-stack.c:703-815 | CLOSED, SYN-SENT and CLOSE-WAIT are never entered, and a step never changes a block's ports or address |
| TcpConn.ListenNeedsExactSyn | modules/nw-stack.c:703-716 | LISTEN moves, to SYN-RECEIVED, exactly on a bare SYN, answering SYN and ACK for its sequence number plus one |
| TcpConn.EstablishedAlwaysCloses | modules/nw-stack.c:724-760 | ESTABLISHED always answers ACK and FIN: a FIN leads to LAST-ACK acknowledging data and FIN, anything else to FIN-WAIT-1 with the handler's reply |
| TcpConn.TimeWaitRestartsTimer | modules/nw-stack.c:805-809 | a segment received in TIME-WAIT is not answered and sets the timer to 30 seconds after the current tick |
| TcpConn.StepKeepsTimerOutsideTimeWait | modules/nw-stack.c:701-815 | no transition from a state other than TIME-WAIT touches the timer |
| TcpConn.TimeWaitEntryExpiresAtOnce | modules/nw-stack.c:760-803 | a block claimed with timer 0 that enters TIME-WAIT returns to LISTEN at the next expiry sweep, whatever the clock |
| TcpConn.TimeWaitLastsFullPeriod | modules/nw-stack.c:760-809 | with the timer set on entry, a block entering TIME-WAIT at tick `now` is kept by every sweep before `now + 3000` and freed by any sweep from then on; replies and all other effects are those of the step as written |
| TcpConn.SelectChoosesConnectionThenLastListen | modules/nw-stack.c:672-691 | an existing connection is chosen first, otherwise the last LISTEN block; none is chosen exactly when neither exists |
| TcpConn.RefusedSegments | modules/nw-stack.c:667-822 | a segment for another port, or one with neither its connection nor a LISTEN block, changes no block and is refused with RST and ACK |
| TcpConn.ClaimStartsAtClock | modules/nw-stack.c:688-701 | a claimed LISTEN block takes the segment's connection, starts its sequence number at the clock and clears its timer |
| TcpConn.AnswersIffDataReply | modules/nw-stack.c:738-758 | the HTTP handler is asked exactly when the reply is ACK and FIN acknowledging the data without a FIN; only that reply carries data |
| TcpConn.ReplyFlagsFit | modules/nw-stack.c:707-822 | every reply's flags fit the six flag bits |
| TcpConn.ExpiryMovesOnlyDueTimeWait | modules/nw-stack.c:573-580 | expiry moves exactly the due TIME-WAIT blocks to LISTEN, changes nothing else, and is idempotent |
| TcpConn.Table.Expire | modules/nw-stack.c:568-581 | every block becomes its expired self |
| TcpConn.Table.Find | modules/nw-stack.c:667-701 | returns the block the selection chooses and claims it for the connection when no block served it |
| TcpConn.Table.ProcessSegment | modules/nw-stack.c:667-822 | the table and the reply are those of the whole segment step; the handler is asked exactly when the step says so, and its reply then acknowledges the data |
| TcpConn.Table.Advance | modules/nw-stack.c:703-815 | the block and the reply are those of the state step; no other block changes |
| TcpConn.LastListenExtends | modules/nw-stack.c:672-691 | when the scan finds no connection, the choice is the last LISTEN block of the whole table |
| Reply.TakeOver | modules/nw-stack.c:79-89 | the destination field takes the old source bytes and the source field ours; nothing outside the two fields changes |
| Reply.EthMakeReply | modules/nw-stack.c:79-89 | the destination MAC becomes the old source and the source MAC ours; only bytes 0-11 change |
| Reply.IpMakeReply | modules/nw-stack.c:135-153 | the addresses are swapped with ours as the source, TTL becomes 64 and the whole fragment word 0, so the don't-fragment flag just set is cleared again; only bytes 6-19 change |
| Reply.ArpMakeReply | modules/nw-stack.c:307-331 | the frame becomes the ARP reply our addresses make of the request: opcode 2, hardware and protocol addresses swapped with ours as sender; nothing past the ARP header changes |
| Reply.ArpSwapAddresses | modules/nw-stack.c:321-330 | the target addresses take the old sender addresses and the sender addresses ours; only bytes 8-27 of the ARP packet change |
| Reply.TcpMakeReply | modules/nw-stack.c:584-591 | the source and destination ports trade places; only the first four header bytes change |
| Reply.TcpFillHeader | modules/nw-stack.c:638-644 | the flags are exactly those given, the numbers read back modulo 2^32 and the data offset is 5; only bytes 4-13 change |
| Reply.EthIpOutside | modules/nw-stack.c:628-646 | the Ethernet and IP reply headers survive the IP checksum write and any write past the IP header |
| Reply.TcpOutside | modules/nw-stack.c:636-647 | the TCP reply header survives a write outside its first 14 bytes |
| Reply.EthIpReply | modules/nw-stack.c:631-634 | the Ethernet and IP headers are the reply's, with total length 40 plus the data; nothing past the IP header changes |
| Reply.TcpHeaderReply | modules/nw-stack.c:636-644 | the TCP header is the reply's; only its first 14 bytes change |
| Reply.AnsweredAcrossWrite | modules/nw-stack.c:628-651 | the reply depends only on the received addresses and ports, so a write to the payload before it does not change what is answered, and the payload survives |
| Reply.TcpRewrite | modules/nw-stack.c:628-644 | the headers are rewritten into the reply; nothing past the TCP header changes |
| Reply.TcpReply | modules/nw-stack.c:628-648 | the frame is send_reply's answer with both checksums verifying; nothing past the TCP header changes |
| Reply.TcpChecksums | modules/nw-stack.c:646-647 | the IP header then passes its check and the segment its check, each write confined to its checksum word |
| Reply.EchoHeaders | modules/nw-stack.c:476-478 | the Ethernet and IP headers are the echo reply's, with the IP checksum verifying; nothing past the IP header changes |
| Reply.EchoHeadersOutside | modules/nw-stack.c:476-487 | the echo headers survive a write past the IP header |
| Reply.EchoReply | modules/nw-stack.c:467-492 | the frame is the echo reply handle_echo_request makes of the request; nothing past the ICMP header changes |
| Reply.EchoReplyComposed | modules/nw-stack.c:476-487 | the echo headers and the rewritten ICMP header together make the echo reply |
| Reply.EchoIcmpKept | modules/nw-stack.c:476-478 | rewriting the headers leaves the ICMP message, and so its validity, as it was received |
| Requests.FillArpRequest | modules/nw-stack.c:412-443 | the first 42 bytes become a broadcast ARP request from our MAC and IP asking for the requested IP (hardware Ethernet, protocol IPv4, lengths 6 and 4, opcode request, target MAC zero); nothing after those bytes changes |
| Requests.ArpRequestAddresses | modules/nw-stack.c:417-424 | after the address loop the Ethernet destination is all 0xff, the Ethernet and ARP sender MACs are ours and the ARP target MAC is zero; the bytes between them keep their values |
| Requests.ArpRequestWords | modules/nw-stack.c:425-435 | the Ethernet type is ARP and the hardware, protocol, length and opcode fields hold the request values; only bytes 12 to 21 of the ARP header range change |
| Requests.SntpId | modules/nw-stack.c:980 | the IP identification derived from the clock is a 16-bit value |
| Requests.FillSntpRequest | modules/nw-stack.c:957-1012 | the first 90 bytes become an SNTP client request from our MAC and IP to the server's: every Ethernet, IP, UDP and NTP field as set, and both the IP header checksum and the UDP checksum verify; nothing after the frame changes |
| Requests.FillSntpHeaders | modules/nw-stack.c:959-1006 | after zeroing and the field setters the Ethernet, IP, UDP and NTP headers hold the request values and the IP header length is 5 words |
| Requests.NtpBodyKept | modules/nw-stack.c:959-961 | the NTP bytes after the first keep the zero the clearing loop wrote, through all later header writes |
| Requests.ZeroPrefix | modules/nw-stack.c:960-961 | the first n bytes are zero and the rest of the buffer is unchanged |
| Requests.SntpEth | modules/nw-stack.c:966-971 | the Ethernet header goes to the server's MAC, from ours, with type IPv4; only the 14 header bytes change |
| Requests.SntpIpWords | modules/nw-stack.c:976-984 | IP bytes 0 to 9 hold version 4, header length 5, TOS 0, total length 76, the identification, zero flags and offset, TTL 64 and protocol UDP; nothing else changes |
| Requests.SntpIpHead | modules/nw-stack.c:976-980 | version, header length, TOS, total length and identification as set; only IP bytes 0 to 5 change |
| Requests.SntpIpTail | modules/nw-stack.c:981-984 | flags and fragment offset zero (the offset write clears the don't-fragment flag), TTL 64, protocol UDP; only IP bytes 6 to 9 change |
| Requests.SntpUdpNtp | modules/nw-stack.c:999-1006 | both UDP ports are 123, the UDP length is 56 and the NTP mode byte says version 3 client; only those bytes change |
| Rtc.DaysInYear | modules/rtc-ds1307.c:10-11 | a Gregorian year has 365 or 366 days |
| Rtc.DaysInMonth | modules/rtc-ds1307.c:12-15 | a month has 28 to 31 days |
| Rtc.MonthsMakeYear | modules/rtc-ds1307.c:10-15 | the twelve month lengths add up to the year's length, leap or not |
| Rtc.YearsAtLeast | modules/rtc-ds1307.c:10-11 | any run of years has at least 365 days per year |
| Rtc.YearWalkSplits | modules/rtc-ds1307.c:55-60 | the year loop ends in a year whose start lies the day count back less the days left over; with the strict comparison the days left can equal the year's length, with the intended one they are fewer |
| Rtc.MonthWalkSplits | modules/rtc-ds1307.c:61-66 | started within the year, the month loop ends in a month of that year whose start lies the days back less the days left over; the days left can equal the month's length as written and are fewer when fixed |
| Rtc.CalendarBounds | modules/rtc-ds1307.c:42-67 | the breakdown gives seconds and minutes below 60, hours below 24, a weekday below 7, a year from 1970, a month 1 to 12 and a day from 1 to one past the month's length (within the length when the loops are fixed), and the date counts exactly the days since 1970-01-01 |
| Rtc.YearFits | modules/rtc-ds1307.c:46-59 | a 32-bit Unix time never passes the year 2106, so the 16-bit year does not wrap |
| Rtc.FirstOfFebruary | modules/rtc-ds1307.c:56-67 | Unix day 31 comes out as 1970-01-32 as written and as 1970-02-01 with the fixed loops |
| Rtc.BcdOfSmall | modules/rtc-ds1307.c:74-80 | for a value below 100 the register byte holds the tens in the high nibble and the units in the low one |
| Rtc.DecodeHolds | modules/rtc-ds1307.c:121-139 | a BCD byte decodes to its value whenever the mask keeps all of its tens digit |
| Rtc.BcdRoundTrip | modules/rtc-ds1307.c:74-80 | decoding the register byte written for a value gives the value back, for every mask the read side uses and every value it can hold |
| Rtc.Registers | modules/rtc-ds1307.c:72-81 | eight registers are written; their values are characterised by Rtc.RegistersHoldDate and Rtc.YearRegister |
| Rtc.YearOffset | modules/rtc-ds1307.c:80 | `y - 2000` in unsigned 16-bit arithmetic: the difference from 2000 on, and the wrapped value 2^16 + y - 2000 before 2000 |
| Rtc.BcdByteValue | modules/rtc-ds1307.c:74-80 | for any non-negative value the register byte is `16 * (v / 10) + v % 10` cut to eight bits |
| Rtc.YearRegister | modules/rtc-ds1307.c:80 | for every 16-bit year the year register is the byte of `16 * (u / 10) + u % 10` with `u` the unsigned offset from 2000 |
| Rtc.YearBeforeMillennium | modules/rtc-ds1307.c:80 | a date in 1999 stores 0x95 in the year register |
| Rtc.UnixTime | modules/rtc-ds1307.c:36 | the 32-bit subtraction of the 1900-to-1970 offset stays 32-bit and is exact for times from 1970 on |
| Rtc.Breakdown | modules/rtc-ds1307.c:36-67 | the loops compute the calendar date of the Unix time with the comparisons as written |
| Rtc.SetTimeFromNtp | modules/rtc-ds1307.c:31-81 | the registers prepared for a 32-bit NTP time are those of its calendar date as written |
| Rtc.RegistersHoldDate | modules/rtc-ds1307.c:74-81 | for a date from 2000 to 2099 every register holds its field in BCD, the weekday register holds the weekday counted from 1 and the control register is 0 |
| Rtc.DecodeRegisters | modules/rtc-ds1307.c:120-139 | registers holding a date in BCD decode field by field to that date |
| Rtc.GetTime | modules/rtc-ds1307.c:104-147 | the status is 0 exactly when the start, the address byte and the repeated start all succeed, and 1 otherwise; values are read only on success |
| Rtc.GetTimeOfDate | modules/rtc-ds1307.c:120-143 | a successful read of registers holding a date returns that date, with the weekday taken from the low three bits |
| Rtc.GetAfterSet | modules/rtc-ds1307.c:31-147 | reading back what was written for a time from 2000 to 2099 gives its date, the weekday counted from 1 and the year after 2000 |
| Rtc.Init | modules/rtc-ds1307.c:150-170 | the status is 0 exactly when the start and both byte sends succeed, and the byte written to the seconds register has its oscillator-halt bit clear |
| Sockets.FirstFree | modules/nw-stack2.c:1329-1347 | the slot found is free and every slot before it is taken; -1 only when every slot from the start is taken |
| Sockets.Wake | modules/nw-stack2.c:401-410 | waking keeps the table's size |
| Sockets.ReportCases | modules/nw-stack2.c:1408-1432 | a state code is reported unreachable exactly when it is undefined, ready exactly when idle, listening or established, in progress exactly when waiting for ARP, SYN-received or SYN-sent, and closed otherwise |
| Sockets.ExpiryMovesOnlyDueTimeWait | modules/nw-stack2.c:630-635 | expiry changes a socket exactly when it is in TIME-WAIT and its 30 seconds are up, and then changes only its state, to LISTEN |
| Sockets.WakeMovesOnlyWaiting | modules/nw-stack2.c:401-410 | waking changes exactly the sockets waiting for the resolved address, to idle for UDP and LISTEN otherwise (both reported ready), and leaves every other socket as it was |
| Sockets.ReplyLeavesSocketWaiting | modules/nw-stack2.c:409 | a socket waiting for the address just resolved still reports in progress after the reply as written, where the intended update would report it ready |
| Sockets.Table.AllocSocket | modules/nw-stack2.c:1327-1348 | the lowest free slot is cleared and returned; ENOSOCK exactly when every slot is taken, and then nothing changes |
| Sockets.Table.Bind | modules/nw-stack2.c:1354-1368 | the lowest free slot becomes an idle socket with the given protocol, local port and callback; ENOSOCK exactly when every slot is taken, and then nothing changes |
| Sockets.Table.ArpResolve | modules/nw-stack2.c:500-515 | the result is 0 exactly when the cache holds a valid entry for the address; an existing entry, pending or valid, is only stamped, and only with no entry at all is an ARP request built and a slot claimed, so afterwards the cache always has an entry for the address and stays consistent with each address at most once |
| Sockets.Table.Connect | modules/nw-stack2.c:1374-1400 | the lowest free slot gets the protocol, the remote end, the callback and local port 16384 plus its index, and is idle when the address is already resolved or waits for ARP stamped with the tick otherwise; TCP gives ENOTYET; with no free slot the result is ENOSOCK and nothing changes |
| Sockets.Table.SockState | modules/nw-stack2.c:1403-1433 | a handle outside the table is closed; otherwise ready exactly when the socket is idle, listening or established, and unreachable only for an undefined state code |
| Sockets.Table.Send | modules/nw-stack2.c:1436-1451 | EINVAL exactly for a handle outside the table or a free socket, ENOTREADY exactly for an allocated socket that is not idle |
| Sockets.Table.Close | modules/nw-stack2.c:1454-1477 | EINVAL exactly for a handle outside the table or a free socket, and then nothing changes; otherwise the socket is cleared and free again and the result is 0 |
| Sockets.Table.ExpireConnections | modules/nw-stack2.c:623-636 | every socket becomes its expired form: TIME-WAIT sockets whose 30 seconds are up move to LISTEN |
| Sockets.Table.HandleArpReply | modules/nw-stack2.c:377-416 | a reply to our address completes the sender's pending cache entry, and no socket changes |
| Sockets.Table.HandleArpReplyWaking | modules/nw-stack2.c:377-416 | the cache is completed as in the reply handler, and when a pending entry was completed every socket waiting for the sender's address moves on as waking says |
| NwStack.Payload | modules/nw-stack.c:1305-1308 | a frame covers its requested length of the buffer, cut off at the buffer's end |
| NwStack.Stack.SetMacAddress | modules/nw-stack.c:1285-1296 | the stack's MAC address becomes the one given |
| NwStack.Stack.SetIpAddress | modules/nw-stack.c:1299-1302 | the stack's IP address becomes the one given |
| NwStack.Stack.SetNtpReplyHandler | modules/nw-stack.c:1026-1029 | an NTP reply handler is set exactly when one is given |
| NwStack.Stack.SetHttpRequestHandler | modules/nw-stack.c:837-840 | an HTTP request handler is set exactly when one is given |
| NwStack.Stack.NetworkInit | modules/nw-stack.c:1311-1322 | every ARP cache entry is free and not valid afterwards, so the cache is consistent |
| NwStack.Stack.HandleArpRequest | modules/nw-stack.c:307-335 | a request for our address is turned in place into the reply from our MAC and IP, only the 42 frame bytes change and 42 bytes are sent; any other request changes nothing and sends nothing |
| NwStack.Stack.HandleArpReply | modules/nw-stack.c:339-375 | a reply addressed to us completes the pending cache entry for the sender's IP with the sender's MAC; otherwise the cache is unchanged |
| NwStack.Stack.ArpProcessPacket | modules/nw-stack.c:378-400 | a message shorter than an ARP header or not Ethernet/IPv4 is ignored; a request for us is answered and a reply to us is learned, as the ARP action decides, and a consistent cache stays consistent |
| NwStack.Stack.SendArpRequest | modules/nw-stack.c:406-457 | the buffer holds the broadcast request for the address and the 42 bytes are sent; the slot arp_get_cache_slot picks becomes a pending entry for the address, and a consistent cache stays consistent |
| NwStack.Stack.HandleEchoRequest | modules/nw-stack.c:467-492 | an echo request to our IP is turned in place into its reply and sent with the 16-bit length of the headers and the message; anything else changes nothing and sends nothing |
| NwStack.Stack.IcmpProcessPacket | modules/nw-stack.c:496-507 | only an echo request at least a header long is answered, as handle_echo_request does; everything else is ignored |
| NwStack.Stack.NtpProcessPacket | modules/nw-stack.c:909-946 | a reply from the server asked, from port 123, in server mode, with a handler set, hands its transmit seconds to the handler and clears the request address so no later reply is taken; anything else changes nothing |
| NwStack.Stack.UdpProcessPacket | modules/nw-stack.c:516-532 | a datagram of at least a header sent to port 123 goes to the NTP layer without its UDP header; anything else is ignored |
| NwStack.Stack.SendSntpRequest | modules/nw-stack.c:949-1020 | the buffer holds the SNTP request to the server with both checksums verifying, 90 bytes are sent, and the server becomes the only address whose reply is taken |
| NwStack.Stack.NtpRequestRetry | modules/nw-stack.c:1032-1058 | with the server's address valid in the ARP cache the request is sent to the cached MAC and the scheduled task ends; otherwise nothing is sent and the scheduled task asks to run again 10 ticks later |
| NwStack.Stack.NetworkSendNtpRequest | modules/nw-stack.c:1064-1109 | on a cache hit the SNTP request goes out at once and no task is queued; on a miss an ARP request for the server is broadcast, a pending entry claimed and a retry task queued 10 ticks on with 20 attempts and the server address as its data |
| NwStack.Stack.QueueNtpRetry | modules/nw-stack.c:1082-1105 | the ARP request for the server is broadcast, its pending entry claimed and the retry task queued 10 ticks on with 20 attempts |
| NwStack.Stack.TcpExpireConnections | modules/nw-stack.c:568-581 | every connection becomes its expired form at the tick given |
| NwStack.Stack.SendReply | modules/nw-stack.c:628-651 | nothing past the reply changes and the headers plus the reply length are sent; when the IP header is at least 5 words long, the received segment is turned in place into the reply with the flags, sequence and acknowledgement numbers given |
| NwStack.Stack.TcpSegment | modules/nw-stack.c:659-819 | the connection table moves as the TCP state machine says, the HTTP handler, when set and asked, writes its answer behind the received header and nothing else changes in the buffer, and the acknowledgement number of the reply re-reads the sequence number from the buffer |
| NwStack.Stack.AnswerSegment | modules/nw-stack.c:628-651 | the frame sent is the headers plus the reply length; when the IP header is at least 5 words long and the received data offset is at least 5, it is the reply to the segment received and an answer the handler wrote behind the header is still in place |
| NwStack.Stack.TcpProcessPacket | modules/nw-stack.c:654-825 | a segment shorter than a header is ignored; otherwise the table moves as the state machine says and its reply, if any, is sent; its bytes, with the answer still behind the header, are stated when the IP header is at least 5 words long and the data offset is at least 5 |
| NwStack.Stack.ProcessFullSegment | modules/nw-stack.c:665-825 | for a segment that holds a whole header, the table moves as the state machine says and the reply, if any, is sent; its bytes, with the answer still behind the header, are stated when the IP header is at least 5 words long and the data offset is at least 5 |
| NwStack.Stack.IpProcessPacket | modules/nw-stack.c:184-206 | a packet goes to the ICMP, TCP or UDP handler its route names, and nothing the other handlers own changes; a dropped packet changes nothing |
| NwStack.Stack.EthProcessPacket | modules/nw-stack.c:92-108 | an ARP frame does what the ARP action decides and touches no TCP or NTP state; any other frame leaves the ARP cache alone and is delivered along its IP route |
| Task.FirstFree | modules/task.c:39-52 | the slot found has no valid flag and every slot before it has one; -1 only when every slot is valid |
| Task.Calls | modules/task.c:58-64 | the slots whose callback is called are exactly the valid slots due strictly before the tick, in increasing order |
| Task.SubmitFillsLowestFree | modules/task.c:37-53 | submitting fills the lowest slot without the valid flag with the scheduled task and changes no other slot; with every slot valid the scheduled task is dropped and nothing changes |
| Task.RunChangesOnlyDueSlots | modules/task.c:56-81 | a slot that is not due is untouched; a due slot is deleted or runs next at the time its callback returned; an unbounded task whose callback asks to run again stays valid and unbounded |
| Task.RetriesBoundCalls | modules/task.c:66-78 | a task submitted with a retry count of at least 1 is called at most that many times over any sequence of runs, whatever its callback returns |
| Task.Scheduler.Init | modules/task.c:29-34 | every slot loses its valid flag and keeps its other fields |
| Task.Scheduler.Submit | modules/task.c:37-53 | the table becomes the table with the scheduled task in its lowest free slot, or is unchanged when every slot is taken |
| Task.Scheduler.RunReady | modules/task.c:56-81 | every slot becomes its run form at the tick and the callbacks called are exactly the due slots, in order |
| Task.Scheduler.RunSlot | modules/task.c:60-79 | the callback is called exactly when the slot is due, the slot becomes its run form and no other slot changes |
| Uart.Step | modules/uart0.c:84-125 | from any reachable state a received character leads to a reachable one: a pending line shorter than the buffer, nothing pending while a line is ready, no NUL stored |
| Uart.Run | modules/uart0.c:84-125 | any run of received characters keeps the assembler in a reachable state |
| Uart.IgnoredWhileReady | modules/uart0.c:88-89 | while a line waits to be collected every character is ignored, with no echo and no change |
| Uart.TypedCharacters | modules/uart0.c:111-116 | ordinary characters that still fit are appended to the pending line and echoed unchanged |
| Uart.TypedLine | modules/uart0.c:103-109 | a line shorter than the buffer followed by a newline or a return becomes the ready line, and the echo is the line and one newline |
| Uart.FullLine | modules/uart0.c:113-123 | thirty-two ordinary characters complete the line by themselves, and the echo is the line and a newline |
| Uart.RunOne | modules/uart0.c:84-125 | a run of one character is one step of the handler |
| Uart.RunSplits | modules/uart0.c:84-125 | handling two runs of characters one after the other is handling their concatenation, and the echoes concatenate |
| Uart.BackspaceUndoes | modules/uart0.c:91-100 | a backspace or delete right after an ordinary character that did not fill the line restores the state before it |
| Uart.LineOf | modules/uart0.c:139-145 | the line read from the buffer is its prefix before the first NUL and contains no NUL |
| Uart.LineOfEndsAt | modules/uart0.c:106 | a NUL written after NUL-free bytes ends the line exactly there |
| Uart.GetChar | modules/uart0.c:40-53 | the result is EOF exactly when nothing was received, -2 exactly when a byte came with a receive error, and the byte itself otherwise |
| Uart.LineBuffer.Complete | modules/uart0.c:106-108 | the NUL goes at the end of the pending characters, the pointer returns to 0 and the flag is set, so the ready line is exactly the characters typed |
| Uart.LineBuffer.IntrHandler | modules/uart0.c:84-125 | the buffer moves as one step of the line discipline, the characters written to the port are the step's echo, and only the byte at the old pointer and the terminator slot can change |
| Uart.LineBuffer.LineReceived | modules/uart0.c:131-134 | true exactly when a line is ready |
| Uart.LineBuffer.GetLine | modules/uart0.c:140-145 | the flag is cleared and the buffer handed back; when a line was ready its C string is that line and the assembler is empty again |
| OneWire.BitsOfFromBits | modules/one-wire.c:158-173 | the bits of the value assembled from some bits are those bits |
| OneWire.FromBitsOfBits | modules/one-wire.c:110-123 | a value below 2^n is the value of its low n bits, so nothing is lost by sending it bit by bit |
| OneWire.BitsAreTests | modules/one-wire.c:114-122 | the i-th bit sent is the test of x against the mask 2^i |
| OneWire.HighBitClear | modules/one-wire.c:167 | below 2^k bit k is clear, so ORing in the mask 2^k adds 2^k and clearing it changes nothing |
| OneWire.FromBitsAppend | modules/one-wire.c:164-170 | a bit received at the top adds its place value |
| OneWire.SendByte | modules/one-wire.c:110-123 | the bits written are the byte's eight bits, least significant first |
| OneWire.RecvByte | modules/one-wire.c:159-173 | the byte returned is the value of the eight bits read, the first the least significant, and stays below 256 |
| OneWire.ByteRoundTrip | modules/one-wire.c:110-173 | receiving the bits of a sent byte gives the byte, and sending a received byte repeats its bits |
| OneWire.MatchRom | modules/one-wire.c:303-312 | the bits written are the Match ROM command byte followed by the 64 bits of the ROM code, least significant first |
| OneWire.AppendBit | modules/one-wire.c:242-266 | the next bit of the ROM code being built is clear, and setting or clearing it appends a 1 or a 0 |
| OneWire.TestBitOfFromBits | modules/one-wire.c:269-272 | the bit tested and sent back after a choice is the bit chosen |
| OneWire.WalkFacts | modules/one-wire.c:225-277 | from any prefix of choices that keeps the pass's facts the rest of the walk keeps them and extends the prefix |
| OneWire.SearchFacts | modules/one-wire.c:198-286 | in every pass each bit without a clash is the bit the devices answered, a clash takes the 1 branch exactly at the last discrepancy, a pass is abandoned only on a (1, 1) pair, and a complete pass marks 0 or the highest clash above the last discrepancy, where the 0 branch was taken |
| OneWire.ChooseBit | modules/one-wire.c:237-267 | one step extends the ROM code with the bit the search chooses and moves the marker exactly when a clash above the last discrepancy is passed on the 0 branch |
| OneWire.FoundRomMatches | modules/one-wire.c:283-312 | the ROM code a complete pass returns is a 64-bit value whose bits, sent by Match ROM, are the bits the pass chose |
| OneWire.Scanner.ScanInit | modules/one-wire.c:191-195 | the last discrepancy and the done flag are both cleared |
| OneWire.Scanner.ScanNext | modules/one-wire.c:198-286 | after the last pass it returns 0 and clears the done flag; with no presence pulse it returns 0 and resets the search; otherwise it writes the Search ROM command and the chosen bits, returns 0 and resets on a (1, 1) pair, and on a complete pass returns 1 with the ROM code, records the marker and sets the done flag exactly when the marker is 0 |
| OneWire.Scanner.ScanFirst | modules/one-wire.c:289-295 | a pass from the top of the tree whatever the previous passes left, with the same results as a scan after reset |
| Enc28j60.DecodeRegcode | include/enc28j60.h:37-48 | a code built from a register number below 32, a bank below 4 and the MAC/MII flag decodes back to each of them |
| Enc28j60.RegcodeOfParts | include/enc28j60.h:30-39 | every code is rebuilt from its decoded register, bank and flag, so the decoders lose nothing |
| Enc28j60.Opcode | include/enc28j60.h:18-23 | each register instruction's opcode fits in the top three bits |
| Enc28j60.InstrFields | include/enc28j60.h:18-23 | an instruction byte carries the register number in its low five bits and the opcode in its top three, whatever bank or flag bits the code has |
| Enc28j60.InstrInjective | include/enc28j60.h:18-23 | two register instructions are the same byte only for the same opcode and register number |
| Enc28j60.CommonRegisters | include/enc28j60.h:81-108 | EIE, EIR, ESTAT, ECON2 and ECON1 are numbered from FIRST_COMMON_REGISTER up and are not MAC or MII registers |
| Enc28j60.Bank0Pointers | include/enc28j60.h:55-70 | the buffer pointer registers are plain registers of bank 0 below the common range |
| Enc28j60.Bank0Dma | include/enc28j60.h:71-78 | the DMA registers are plain registers of bank 0 below the common range |
| Enc28j60.Bank1And3Registers | include/enc28j60.h:119-185 | the Ethernet registers of banks 1 and 3 lack the MAC/MII flag and lie below the common range |
| Enc28j60.Bank2MacMiiRegisters | include/enc28j60.h:132-164 | the MAC and MII registers of bank 2 carry the MAC/MII flag |
| Enc28j60.Bank3MacMiiRegisters | include/enc28j60.h:167-177 | the station address registers and MISTAT of bank 3 carry the MAC/MII flag |
| Enc28j60.BankSwitch | modules/enc28j60.c:24-31 | a switch, when needed, goes to the register's own bank, which is below 4 |
| Enc28j60.SelectBank | modules/enc28j60.c:43 | the ECON1 value written holds the bank in bits 1..0 and the six other bits as read |
| Enc28j60.BankSwitchCases | modules/enc28j60.c:31 | a common register never causes a switch, a banked one does exactly when another bank is selected, and none is needed once its bank is selected |
| Enc28j60.Controller.SetBank | modules/enc28j60.c:22-52 | when a switch is needed ECON1 gets the new bank bits and current_bank follows, otherwise nothing changes; afterwards the bank selected is the register's bank for every banked register, and the driver's copy still matches ECON1 |
| Picaso.MakeColour | include/uvga-picaso.h:4-5 | the colour byte holds the low three bits of red in bits 0-2, of green in bits 3-5 and the low two bits of blue in bits 6-7 |
| Picaso.ColourOfComponents | include/uvga-picaso.h:4-5 | every byte is the colour of its own components, so all 256 colours can be made |
| Picaso.MakeColourInjective | include/uvga-picaso.h:4-5 | two colours are equal exactly when their masked components are |
| EtherAssign.MacByte | include/ethernet-assign.h:19-24 | every address byte fits in eight bits |
| EtherAssign.Mac | include/ethernet-assign.h:19-24 | the address has six bytes, byte i being ETHER_MAC_i of the ID |
| EtherAssign.OuiBytes | include/ethernet-assign.h:7-21 | the first three bytes are the OUI 52:43:42 whatever the ID |
| EtherAssign.IdBytes | include/ethernet-assign.h:22-24 | the last three bytes recombine to the low 24 bits of the ID |
| EtherAssign.MacInjective | include/ethernet-assign.h:19-24 | two IDs give the same address exactly when their low 24 bits agree |
| EtherAssign.AssignedDistinct | include/ethernet-assign.h:12-14 | the three boards' assigned addresses are pairwise distinct |

## Left out

- The ENC28J60 driver (SPI transactions, the receive and transmit buffers, `enc28j60_send_packet` and `network_read_packet`) is hardware I/O. A frame sent is returned as the buffer and the length asked for. A frame received is whatever the packet buffer holds. Only the bank switch of the driver is modelled.
- The I2C bus is the bus driver. For `rtc_get_time` and `rtc_init` the outcome of each transfer is a parameter. For `rtc_set_time_from_ntp` the register bytes are returned and the write itself is not modelled.
- The 1-Wire bus (`onewire_reset`, `onewire_send_bit`, `onewire_recv_bit`, the `_delay_us` timing, `onewire_wait_until_done`) is hardware. The presence pulse is a parameter, bits read are an input sequence and bits written an output sequence.
- UART character output (`push_char`) and `uart0_open_stdout`/`uart0_open_stdin` are port I/O. The echo is returned as a sequence of characters.
- `cli`/`sei` and interrupt context are left out because they are a concurrency concern. Every handler runs to completion.
- The 10 ms clock tick is a parameter. Clock wrap-around is not handled, as in the source.
- Application callbacks are left out as foreign code:
  - the NTP reply handler receives the transmit seconds, which are returned;
  - the HTTP request handler's answer is a parameter of at most 121 bytes, the most the buffer holds behind the largest headers;
  - a task callback is a function of the callback number, the run time and the data word, so it cannot itself submit or cancel tasks.
- NwStack.Stack.TcpSegment: when no HTTP handler is set the reply length of the source is uninitialised. The model takes it as the parameter's length, whatever the handler would have answered.
- NwStack.Stack.TcpProcessPacket: the reply bytes are stated only for a segment whose data offset is at least 5 and whose IP header is at least 5 words long. When the handler's answer overlaps the received header (data offset below 2), the acknowledgement number is stated only as the sequence number re-read from the buffer.
- NwStack.Stack.SendReply: the rewritten flags, numbers and headers are stated only when the IP header is at least 5 words long. For a shorter IP header the Ethernet and IP rewrites overlap the TCP header, and the model states only the frame sent and that nothing past the reply changes.
- NwStack.Stack.AnswerSegment: the reply bytes and the surviving answer are stated only when the IP header is at least 5 words long and the received data offset is at least 5. The source sends its in-place reply for every header length; for shorter headers the model states only the frame sent.
- NwStack.Stack.ProcessFullSegment: as for TcpProcessPacket, the reply bytes and the answer behind the header are stated only for a data offset of at least 5 and an IP header of at least 5 words; the state step and the frame sent are stated for every header length.
- NwStack.Stack.HandleEchoRequest: the rewritten message is stated only when the IP header length is at least 5 words. For a shorter header the model states only which bytes may change.
- Checksum.TcpUdpMakeChecksum: for an odd length the loop reads the byte after the segment, as written. The checksum it establishes therefore covers that byte, not a zero pad (see Checksum.SegmentSumVersusPadded). The step after the loop compares with `pktlen - 1` in unsigned 16-bit arithmetic, so it runs exactly when `pktlen` is 0. It then adds the segment's second byte as a high byte. The model computes this (Checksum.TailSum), and Checksum.EmptySegmentAddsSecondByte shows its effect. No caller passes a length below 20. A `pktlen` above 32766 would overflow the 16-bit `int` loop counter; this is not modelled.
- icmp.h, nw-stack.h and http.h are not part of this model. The ICMP header length 8, echo request type 8 and echo reply type 0 are those of RFC 792. The buffer macros are taken to be those of include/nw-stack2.h.
- The features `PROCESS_ARP_REQUESTS` and ICMP echo are taken as enabled.
- All `#if 0` code is not modelled: syslog and `network_send_http_request` in both stack variants.
- The TCP path of nw-stack2.c is not modelled because it does not compile. The TCP machine is taken from nw-stack.c.
- Sockets.Table.Connect: the source returns no value for a UDP socket, so the result is left unstated there. The socket and cache changes are stated.
- Sockets.Table.Send: the source tests an undeclared `protocol` and then returns no value. The model drops the test and returns 0 for an idle socket. No data is sent.
- Sockets.Table.Close: the undeclared `protocol` test is dropped. A closed socket is freed whatever its protocol.
- Rtc.SetTimeFromNtp: the register values are stated through Rtc.Registers. Their BCD form is proved only for dates from 2000 to 2099 (Rtc.RegistersHoldDate). Before 2000 the year register holds the byte the AVR's unsigned 16-bit arithmetic gives, characterised by Rtc.YearRegister (1999 stores 0x95, Rtc.YearBeforeMillennium).
- OneWire: `uint8_t` and `uint64_t` values are modelled as naturals below 256 and 2^64. The search pass follows the code. Below the last discrepancy it takes the 0 branch at every clash, because `serial` is rebuilt from 0 on each pass. This is not the previous pass's path, as the Maxim algorithm has it. The model characterises this (OneWire.Choice, OneWire.SearchFacts) and does not claim that successive passes enumerate all devices.
- Enc28j60: only the register codes, the instruction bytes and the bank switch are modelled. The rest of the driver is SPI I/O.
- Picaso: only the colour byte is modelled. The display commands are serial I/O.
- The MCU pin maps, prototype-only headers and the peripheral drivers lcd2s, ds1820, hp30 and sht71 are not part of this model.

## Findings

| source | as written | input that shows it | evidently intended | confidence | as-written member | corrected member |
|---|---|---|---|---|---|---|
| modules/nw-stack2.c:409 | `sockets[s].state == (...)` compares instead of assigning, so a socket waiting for ARP is never woken | an ARP reply from the address a UDP socket in S_ARPWAIT waits for: the socket still reports "in progress" | `=`: the socket becomes idle (UDP) or LISTEN and reports ready | high, not executed | Sockets.ReplyLeavesSocketWaiting | Sockets.Table.HandleArpReplyWaking |
| modules/rtc-ds1307.c:56-62 | the year and month loops continue only while `days >` the length, so a day count equal to the length stays in the old month | NTP time of Unix day 31 (1970-02-01) gives 1970-01-32 | `>=`: the date 1970-02-01 and a day never past the month's length | high, not executed | Rtc.FirstOfFebruary | Rtc.CalendarBounds |
| modules/nw-stack.c:771-802 | the transitions into TIME-WAIT never set `msl2`, which the claim left at 0 | a FIN-WAIT-2 block receiving FIN at any tick is freed by the next `tcp_expire_connections` sweep | set `msl2` to 30 seconds ahead on entry, so TIME-WAIT lasts 3000 ticks | high, not executed | TcpConn.TimeWaitEntryExpiresAtOnce | TcpConn.TimeWaitLastsFullPeriod |
| modules/nw-stack.c:484-487 | the checksum adjustment adds 8 to the high byte and carries the overflow into the low byte by `+1`, losing the carry out of a low byte of 0xff | a request checksum of 0xf8ff gives 0x0000 | the end-around sum 0x0100 (RFC 1624) | high, not executed | Icmp.AdjustAsWrittenDropsCarry | Icmp.EchoReplyVerifies |

For each finding the stack methods follow the code as written, which is what the firmware does. The corrected behaviour is defined beside it and its intended property is proved:

- the waking reply handler, with Sockets.WakeMovesOnlyWaiting;
- the calendar with `fixed` loops, with Rtc.CalendarBounds;
- the adjustment Icmp.ReplyCksum, with Icmp.EchoReplyVerifies;
- the step TcpConn.StepTimed, which sets the timer on entry to TIME-WAIT, with TcpConn.TimeWaitLastsFullPeriod.

Icmp.AdjustAsWrittenIff shows that the two adjustments agree on every input except the ones that lose the carry.
