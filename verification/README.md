# Streaming server core, modelled and proved in Dafny

This project models the parts of the streaming server that transform data or keep an intricate
structure, and proves what they are for. Every algorithm that works step by step is a method over
mutable state (objects, arrays, moving cursors), proved against a specification function; laws about
those functions are lemmas.

| files | what they model |
|---|---|
| `RbTreeModel.dfy`, `RbTree.dfy`, `HashTable.dfy` | the intrusive red-black tree over node objects with parent pointers, and the power-of-two hash table built on it, as a finite map; iteration, and draining while erasing |
| `Rtcp.dfy`, `RtcpBlocks.dfy`, `RtcpReader.dfy` | what a compound RTCP packet means as a sequence of items, the same octet by octet, and the parser that hands them out one a call with its eight states, cursor and block end |
| `RtcpPackets.dfy`, `RtcpOctets.dfy`, `RtcpWriter.dfy`, `NackList.dfy`, `Remb.dfy` | the packet objects, their octets, field by field, the recursive writer with its size limit, NACK packing, and the floating form of a bit rate |
| `RtcpRoundTrip.dfy` | writing, then reading |
| `StartCode.dfy`, `AnnexB.dfy` | the word-at-a-time start-code search; Annex B to length-prefixed FLV tag data, and back in place |
| `TsPacket.dfy`, `TsTables.dfy`, `TsMux.dfy` | MPEG transport stream packets as sent and received; those of the tables; the multiplexer with its packet buffer and counters; whole segments |
| `Amf.dfy`, `AmfOctets.dfy` | AMF0 encoding and decoding of nested values; the format octet by octet |
| `Bits.dfy`, `Words.dfy` | the bit reader with two cached words against a bit-by-bit reader; 32-bit shifts |
| `Md5.dfy` | incremental MD5 over any compression function against padding and folding in one piece |
| `LinkedHashMap.dfy` | the LRU map with locks and batch eviction |
| `Numbers.dfy`, `Bytes.dfy` | powers of two, bitwise operations, division; bytes and big-endian integers |
| `Sequences.dfy`, `Wrappers.dfy`, `Guards.dfy` | laws of joining and slicing; `Option`; predicates that keep an invariant folded |

Pointers are object references; a link that the C code passes by address is a value that says which
field it is (`Link`). Each red-black method is told in ghost parameters which tree the pointers spell
out, as a subtree and the path above it, and says which tree they spell out afterwards. Integers are
unbounded unless a type or `Wrap32` says otherwise; the 8-, 16- and 32-bit wrap-arounds the code
depends on are written out.

Names of formats (packet types, markers, PIDs, limits) are shared by code and specification; what they
stand for is stated a second time by laws in plain numbers (`RtcpOctets`, `RtcpBlocks`, `AmfOctets`,
`TsPacket.HeaderOctets` and the like), which a changed constant or a changed branch contradicts.

Eight places where the code does less than it seems to promise are stated as such, each with the exact
condition: the bit rate of a REMB packet above (2^18 - 1) * 2^14 loses its top bits
(`Remb.RateCarriedIff`); a packet of 2^16 octets or more, which a long NACK list can make, is not read
back (`RtcpRoundTrip.BodyBackIff`, with an input in `RtcpRoundTrip.LongNackLost`); a unit that ends with
a zero before a three-byte start code loses that zero (`AnnexB.LastByteIff`, `AnnexB.UnitsBackIff`); a
null member is written without its name and, at any depth, keeps the whole value from being read back
(`Amf.NestedBackIff`); a newly set key is evicted at once when locked entries fill the map
(`LinkedHashMap.NewestStays`); a PAT section of more than 366 bytes and a PMT section of more than 183,
which the present callers do not make, are not sent whole (`TsTables.PatBackIff`,
`TsTables.PmtBackIff`); and the loop of `MD5_Update` runs past an input that with the buffered bytes
reaches 2^32 (`Md5.BoundStopsIff`). The comment of `_cut_head` calls it `_cut_tail` and says that a
quarter of the tail is cut; the code cuts from the head, down to three quarters of the maximum
rounded up, or to the maximum itself if that is below four. The model follows the code.

`dafny verify dfyconfig.toml` checks the whole project. No proof relies on automatic induction:
where Dafny would try it, `{:induction false}` switches it off.

## Model

| member | source | states |
|---|---|---|
| `RbTree.Erase` | server/util/rbtree.c:213-279 | `rb_erase` on any node of a red-black tree terminates and leaves a red-black tree: consistent parent links, black root, no red-red edge, equal black heights. The in-order sequence is the old one with exactly that node taken out, and the nodes are the old ones without it; the key fields are not written. |
| `RbTree.InsertColor` | server/util/rbtree.c:76-139 | A tree that was red-black before a red leaf was linked in at any hole becomes a red-black tree again, with the same nodes in the same order. |
| `RbTree.LinkNode` | server/util/rbtree.h:181-188 | `rb_link_node` puts a red leaf exactly at the link at which a search fell off, and changes nothing else of the tree. |
| `RbTree.EraseColor` | server/util/rbtree.c:143-211 | From a tree that is one black node short below some link, the loop ends in a red-black tree with the same nodes in the same order. |
| `RbTree.EraseLeft` | server/util/rbtree.c:150-178 | One round of that loop for a short left subtree: it either ends in a balanced tree or moves the shortage up (or onto a red node), and the in-order sequence is kept through every recolouring and rotation of its four cases. |
| `RbTree.EraseRight` | server/util/rbtree.c:179-206 | The mirror round for a short right subtree. |
| `RbTree.InsertLeft` | server/util/rbtree.c:84-109 | One round of the insertion loop for a red parent that is a left child: the only red-red edge moves two levels up or is gone, and nodes and order are kept. |
| `RbTree.InsertRight` | server/util/rbtree.c:110-135 | The mirror round for a red parent that is a right child. |
| `RbTree.EraseOuter` | server/util/rbtree.c:219-274 | A node with at most one child is spliced out: the links spell the tree without it, and the colour handed to the repair is its own. |
| `RbTree.EraseInner` | server/util/rbtree.c:223-261 | A node with two children is replaced by its in-order successor: the links spell the tree without the node, and what is left is either red-black already or one black node short at the place handed to the repair, also when the successor is the right child itself. |
| `RbTree.FindSuccessor` | server/util/rbtree.c:226-228 | The walk ends at the leftmost node of the right subtree. |
| `RbTree.RotateLeftAt` | server/util/rbtree.c:30-51 | A left rotation anywhere in a tree turns the links into those of the rotated tree, whose nodes and in-order sequence are those before. |
| `RbTree.RotateRightAt` | server/util/rbtree.c:53-74 | The same for a right rotation. |
| `RbTree.RotatedLeftKeeps` | server/util/rbtree.c:30-51 | Rotation keeps the in-order sequence and the set of nodes, and the right rotation undoes it. |
| `RbTree.RotatedRightKeeps` | server/util/rbtree.c:53-74 | The mirror law. |
| `RbTree.First` | server/util/rbtree.c:358-369 | The first node of the in-order sequence, or null for an empty tree. |
| `RbTree.Next` | server/util/rbtree.c:388-415 | The node behind the given one in the in-order sequence, or null at its end, by going down to the right or climbing up. |
| `RbTreeModel.LevelBound` | server/util/rbtree.c:76-279 | A red-black tree of n nodes has at most 2 * log2(n + 1) levels. |
| `HashTable.Search` | server/util/hashtable.c:20-55 | `my_rb_search` finds the node of the key, or the link where that key would go: everything before it is smaller and everything behind it larger. It visits at most 2 * log2(n + 1) nodes. |
| `HashTable.HashTable.Create` | server/util/hashtable.c:60-79 | An empty table of 2^power buckets, and none for a power above 31. |
| `HashTable.HashTable.Insert` | server/util/hashtable.c:81-97 | The table extends the finite map by the new key and node; for a key that is there, a stored node inserted again under its own key included, it returns -1 and the map is unchanged (the key field of the rejected node is written all the same). |
| `HashTable.HashTable.Get` | server/util/hashtable.c:99-111 | The lookup of the finite map; null for an absent key. |
| `HashTable.HashTable.Delete` | server/util/hashtable.c:113-126 | The map loses the key; its node is returned, or null for an absent key. |
| `HashTable.HashTable.DeleteNode` | server/util/hashtable.c:128-134 | The map loses exactly the key of the node. |
| `HashTable.HashTable.Index` | server/util/hashtable.c:57-57 | Masking gives a bucket of the table. |
| `Numbers.MaskIsRemainder` | server/util/hashtable.c:57-57 | Masking with 2^k - 1 is the remainder by 2^k. |
| `Bytes.BigEndian` | server/interlive_rtp/avformat/rtcp_enc.cpp:88-99 | Two, three and four bytes of a number, the most significant first. |
| `HashTable.HashTable.DrainBucket` | server/util/hashtable.c:144-149 | Reading the successor before erasing the node drains a bucket completely: each of its nodes is handed over once, in key order, and the other buckets are untouched. |
| `HashTable.HashTable.Destroy` | server/util/hashtable.c:136-151 | Every node goes to the handler exactly once, bucket by bucket in key order, and all buckets end up empty although the trees are erased from while they are walked. |
| `HashTable.HashTable.EachOnce` | server/util/hashtable.c:170-206 | The buckets one after the other hold each node of the table exactly once. |
| `HashTable.HashIterator.Init` | server/util/hashtable.c:170-182 | After the initialisation all nodes are still to come. |
| `HashTable.HashIterator.Iterate` | server/util/hashtable.c:184-206 | Each call hands out the next node of the buckets in sequence; it reports the end exactly when none is left. |
| `HashTable.HandOut` | server/util/hashtable.c:170-206 | Iterating from the initialisation to the reported end gives the nodes of the table, bucket by bucket in key order, each exactly once and no other. |
| `HashTable.AgreesExtended` | server/util/hashtable.c:81-97 | Filing a new node in the bucket of its key keeps buckets and map in agreement. |
| `HashTable.AgreesShrunk` | server/util/hashtable.c:113-134 | Taking a node out of its bucket keeps them in agreement. |
| `Remb.Compute` | server/interlive_rtp/avformat/rtcp_enc.cpp:52-69 | The loop with wrapping 32-bit shifts finds the least exponent, below 15, with which the 18-bit mantissa fits; above (2^18 - 1) * 2^14 it finds none and the exponent stays 0. |
| `Remb.RateCarried` | server/interlive_rtp/avformat/rtcp_enc.cpp:52-69 | Up to (2^18 - 1) * 2^14 the mantissa fits 18 bits, no lower exponent would do, and what is carried, d, is at most r with (r - d) * 2^17 <= r. |
| `Remb.RateCarriedIff` | server/interlive_rtp/avformat/rtcp_enc.cpp:330-354 | For any 32-bit rate the carried value is that close if and only if the rate is at most (2^18 - 1) * 2^14: above it the code loses the top bits. |
| `Remb.CarriedTwice` | server/interlive_rtp/avformat/rtcp_enc.cpp:52-69 | Encoding a carried rate once more loses nothing. |
| `NackList.WithList` | server/interlive_rtp/avformat/rtcp_enc.cpp:532-557 | The nested loops compute `Pack`: a packet id, then a bit for each number in front that is at most 16 ahead of it. |
| `NackList.PackExact` | server/interlive_rtp/avformat/rtcp_enc.cpp:532-557 | For every list, in any order and with any repetition, the fields name exactly the numbers in it (RFC 4585 section 6.2.1, modulo 2^16). |
| `NackList.CoversBits` | server/interlive_rtp/avformat/rtcp_enc.cpp:540-548 | A field names its packet id p and, for each bit i of its mask, the least significant first, p + i + 1 modulo 2^16. |
| `NackList.PackExpands` | server/interlive_rtp/avformat/rtcp_enc.cpp:532-557 | For a list that increases in circular order over less than 2^15 the expansion of the fields is the list itself, in order. |
| `NackList.PackMinimal` | server/interlive_rtp/avformat/rtcp_enc.cpp:532-557 | For such a list no family of fields that names all its numbers is smaller. |
| `NackList.OrderMatters` | server/interlive_rtp/avformat/rtcp_enc.cpp:532-557 | Without the order the number of fields need not be minimal: 5, 3 takes two where one would do. |
| `NackList.GapsAdd` | server/interlive_rtp/avformat/rtcp.h:1026-1030 | Where each number is newer than the one before, the circular distances add up. |
| `RtcpWriter.CreateHeader` | server/interlive_rtp/avformat/rtcp_enc.cpp:88-99 | Four octets: version 2 and the count, the packet type, the length in words less one. |
| `RtcpWriter.CreateReportBlocks` | server/interlive_rtp/avformat/rtcp_enc.cpp:169-183 | 24 octets a block, with 24 bits of the cumulative loss. |
| `RtcpWriter.CreateSenderReport` | server/interlive_rtp/avformat/rtcp_enc.cpp:120-131 | The header, the sender and the sender info. |
| `RtcpWriter.CreateReceiverReport` | server/interlive_rtp/avformat/rtcp_enc.cpp:143-149 | The header and the sender. |
| `RtcpWriter.CreateSdes` | server/interlive_rtp/avformat/rtcp_enc.cpp:211-228 | For each chunk its source, the CNAME item and the null octets. |
| `RtcpWriter.CreateBye` | server/interlive_rtp/avformat/rtcp_enc.cpp:243-255 | The count in the header is the length in words, that is, one for the sender and one for each CSRC. |
| `RtcpWriter.CreateApp` | server/interlive_rtp/avformat/rtcp_enc.cpp:271-281 | The sender, the name and the data. |
| `RtcpWriter.CreateNack` | server/interlive_rtp/avformat/rtcp_enc.cpp:294-309 | The sender, the media source, and a packet id and mask for each field. |
| `RtcpWriter.CreateRemb` | server/interlive_rtp/avformat/rtcp_enc.cpp:330-354 | The unique identifier, the number of sources, six bits of exponent and 18 of mantissa, and the sources. |
| `RtcpWriter.Create` | server/interlive_rtp/avformat/rtcp_enc.cpp:391-566 | Each packet writes exactly its block length, or, if that does not fit, nothing at all; each field stands where `RtcpOctets.Octets` says, in numbers; for any limit, if a packet that fits has a length in words of 16 bits. |
| `RtcpWriter.CreateAndAddAppended` | server/interlive_rtp/avformat/rtcp_enc.cpp:379-389 | A packet and all those appended to it, recursively, in order: the octets of exactly those that find room behind the ones written before, never past the limit, whatever that is. |
| `RtcpWriter.Build` | server/interlive_rtp/avformat/rtcp_enc.cpp:363-377 | The compound packet: those of the packets that fit into 1500 octets, one after the other, field by field as `RtcpOctets.Octets` says. |
| `RtcpOctets.OctetsOf` | server/interlive_rtp/avformat/rtcp.h:265-275 | What stands where, in numbers: types 200 to 206 by kind, count or format, length; SR with its sender at 4, times at 8, 12 and 16, counts at 20 and 24, blocks from 28 on, RR from 8 on, the fields of each; chunks; BYE sources from 8 on; APP source, name and data; NACK fields from 12 on; 52 45 4D 42 at 12 of a REMB, then number, exponent and mantissa, and sources. |
| `RtcpOctets.AllOctetsOf` | server/interlive_rtp/avformat/rtcp_enc.cpp:379-389 | The same for packets one behind the other. |
| `RtcpWriter.LaidInOrder` | server/interlive_rtp/avformat/rtcp_enc.cpp:379-389 | A packet comes before those appended to it, and these come in the order of appending. |
| `RtcpWriter.RtcpPacket.Append` | server/interlive_rtp/avformat/rtcp_enc.cpp:357-361 | The appended packets grow by one at the end. |
| `RtcpWriter.RtcpPacket.WithReportBlock` | server/interlive_rtp/avformat/rtcp_enc.cpp:408-443 | Up to 31 blocks; a further one is dropped. |
| `RtcpWriter.RtcpPacket.WithData` | server/interlive_rtp/avformat/rtcp.h:682-688 | The data of an APP packet, up to 128 octets in whole words. |
| `RtcpWriter.RtcpPacket.WithCName` | server/interlive_rtp/avformat/rtcp_enc.cpp:456-473 | Up to 31 chunks, each with one to four null octets that end it on a 32-bit boundary. |
| `RtcpWriter.RtcpPacket.WithCsrc` | server/interlive_rtp/avformat/rtcp_enc.cpp:499-507 | Up to 30 CSRCs. |
| `RtcpWriter.RtcpPacket.AppliesTo` | server/interlive_rtp/avformat/rtcp_enc.cpp:568-574 | Up to 255 sources. |
| `RtcpWriter.RtcpPacket.WithList` | server/interlive_rtp/avformat/rtcp_enc.cpp:532-557 | The fields of the packet become the packed list. |
| `RtcpPackets.EncodeLength` | server/interlive_rtp/avformat/rtcp.h:488-800 | The octets of a packet are as many as its `BlockLength`. |
| `RtcpPackets.WholeWords` | server/interlive_rtp/avformat/rtcp_enc.cpp:71-77 | A packet built by the setters is a whole number of 32-bit words, as `BlockToHeaderLength` assumes. |
| `RtcpPackets.FittingFits` | server/interlive_rtp/avformat/rtcp_enc.cpp:379-389 | What is written for any packets stays within the limit. |
| `RtcpPackets.AllFit` | server/interlive_rtp/avformat/rtcp_enc.cpp:379-389 | Packets that fit together are all written. |
| `RtcpPackets.WrittenAppend` | server/interlive_rtp/avformat/rtcp_enc.cpp:379-389 | Writing two lists one behind the other is writing the joined list. |
| `Rtcp.HeaderAccepted` | server/interlive_rtp/avformat/rtcp_dec.cpp:16-57 | A header is accepted if and only if its four octets are there, the version is 2 and the length in octets, kept in 16 bits, is not 0; the kept length is that of the packet if and only if that is below 2^16. |
| `RtcpReader.Parser.constructor` | server/interlive_rtp/avformat/rtcp_dec.cpp:60-74 | The parser starts at the top level; a packet is valid if its first header is and, unless reduced size is allowed, is a report. |
| `RtcpReader.Parser.Iterate` | server/interlive_rtp/avformat/rtcp_dec.cpp:102-141 | From any reachable state, for every buffer: one call terminates, hands out the next of the items the buffer stands for (`Rtcp.Compound`) or reports the end exactly when none is left; the cursor does not move backwards, moves at least four octets with an item, and stays inside the buffer, at or before the block end and aligned with it. |
| `RtcpReader.Parser.IterateTopLevel` | server/interlive_rtp/avformat/rtcp_dec.cpp:143-231 | The same at the top level: blocks of unknown kinds are skipped by their length until one gives an item. |
| `RtcpReader.Parser.Begin` | server/interlive_rtp/avformat/rtcp_dec.cpp:95-100 | From any reachable state the cursor goes back to the front and the next item is handed out: the first of the packet at the top level; inside a block, whose state the code does not reset, the first of what the octets from the front up to the block end hold as items of that block, and of what follows. |
| `RtcpReader.Parser.ParseBlock` | server/interlive_rtp/avformat/rtcp_dec.cpp:164-229 | Which handler a header leads to, and which of them stop the run: a report that is too short does. |
| `RtcpReader.Parser.ParseSR` | server/interlive_rtp/avformat/rtcp_dec.cpp:373-431 | 28 octets or more are read as the sender info; a block shorter than that is passed over, and the run ends. |
| `RtcpReader.Parser.ParseRR` | server/interlive_rtp/avformat/rtcp_dec.cpp:347-371 | Eight octets or more; a shorter block leaves the cursor where it was, and the run ends. |
| `RtcpReader.Parser.ParseReportBlockItem` | server/interlive_rtp/avformat/rtcp_dec.cpp:433-478 | The next report block, or back to the top level behind the block when fewer than 24 octets or no blocks are left. |
| `RtcpReader.Parser.ParseSdesChunk` | server/interlive_rtp/avformat/rtcp_dec.cpp:498-537 | The next chunk that has a CNAME; a chunk without one is passed over and does not count. |
| `RtcpReader.Parser.ParseSdesItem` | server/interlive_rtp/avformat/rtcp_dec.cpp:539-608 | The items of one chunk up to its end tag and padding; the last CNAME counts, an illegal character or a length that is too large ends the block. |
| `RtcpReader.Parser.ParseByeItem` | server/interlive_rtp/avformat/rtcp_dec.cpp:619-648 | One item for a BYE, whatever its number of sources; the cursor passes over all of them if they are there. |
| `RtcpReader.Parser.ParseFBCommon` | server/interlive_rtp/avformat/rtcp_dec.cpp:650-728 | Generic NACK and application layer feedback are entered; other feedback is skipped. In octets: `RtcpBlocks.PassesOver`, `NackRead`, `PsfbRead`. |
| `RtcpReader.Parser.ParseNackItem` | server/interlive_rtp/avformat/rtcp_dec.cpp:730-755 | The next packet id and mask, or back to the top level. |
| `RtcpReader.Parser.ParseAppItem` | server/interlive_rtp/avformat/rtcp_dec.cpp:790-816 | The next at most 128 octets of the data, or back to the top level. |
| `RtcpReader.Parser.ParsePsfbAppItem` | server/interlive_rtp/avformat/rtcp_dec.cpp:818-860 | The block is entered exactly if it begins with the unique identifier REMB. |
| `RtcpReader.Parser.ParsePsfbRembItem` | server/interlive_rtp/avformat/rtcp_dec.cpp:862-904 | The bit rate and the sources, or back to the top level if they are not all there. |
| `RtcpReader.Run` | server/interlive_rtp/avformat/rtcp_helper.cpp:334-340 | For every buffer, calling the parser until it reports the end terminates and gives exactly the items of the buffer, at most one for every four octets. Each of them comes from a block that begins in the buffer with the octets its kind must have (a NACK from type 205, format 1 and at least 12 octets, a REMB from type 206, format 15 and 52 45 4D 42, and so on); there are none unless the first type is 200 or 201 or reduced size is allowed. |
| `RtcpBlocks.Origin` | server/interlive_rtp/avformat/rtcp_dec.cpp:164-229 | Every item comes from one of the blocks, of the type, format and length that has such items, with its numbers read at fixed offsets. |
| `RtcpBlocks.PassesOver` | server/interlive_rtp/avformat/rtcp_dec.cpp:674-702 | A block of a type outside 200 to 206, of feedback of another format, or without room for its own fields adds no item, and the run goes on behind it. |
| `RtcpBlocks.NoBlock` | server/interlive_rtp/avformat/rtcp_dec.cpp:16-57 | Where no whole block of version 2 stands, or a report that is too short, the run is over. |
| `RtcpBlocks.SenderReportRead` | server/interlive_rtp/avformat/rtcp_dec.cpp:373-478 | A block of type 200: sender, times and counts at fixed offsets, then as many report blocks as are announced or as find room, the fields of each 24 octets on. |
| `RtcpBlocks.ReceiverReportRead` | server/interlive_rtp/avformat/rtcp_dec.cpp:347-478 | The same for type 201. |
| `RtcpBlocks.SdesRead` | server/interlive_rtp/avformat/rtcp_dec.cpp:480-608 | A block of type 202, whatever items its chunks hold around a CNAME and in whatever order: one item for each chunk that has one, with the last. |
| `RtcpBlocks.ByeRead` | server/interlive_rtp/avformat/rtcp_dec.cpp:610-648 | A block of type 203: one item with the first source. |
| `RtcpBlocks.AppRead` | server/interlive_rtp/avformat/rtcp_dec.cpp:757-816 | A block of type 204 with any amount of data: the head, and pieces of 128 octets, the last one shorter. |
| `RtcpBlocks.NackRead` | server/interlive_rtp/avformat/rtcp_dec.cpp:650-755 | A block of type 205 and format 1: sender, media source, and all packet ids and masks. |
| `RtcpBlocks.PsfbRead` | server/interlive_rtp/avformat/rtcp_dec.cpp:818-904 | A block of type 206 and format 15: the head, and behind 52 45 4D 42 the bit rates with their sources. |
| `RtcpBlocks.RateRequestPassed` | server/interlive_rtp/avformat/rtcp_dec.cpp:674-702 | For instance, of a report and a request for a lower rate (TMMBR) only the report is read. |
| `RtcpBlocks.LegalChars` | server/interlive_rtp/avformat/rtcp_dec.cpp:573-590 | The characters let through in a CNAME: from blank to the opening brace, without percent sign and backslash. |
| `RtcpRoundTrip.BuildAndRead` | server/interlive_rtp/avformat/rtcp_enc.cpp:363-389 | Building a compound packet that begins with a report and reading it gives the items of those packets that found room, with equal field values (24-bit losses, CNAMEs, one item for a BYE, bit rates as REMB carries them), if and only if all their CNAMEs are in the alphabet the parser lets through. |
| `RtcpRoundTrip.WrittenReadsBack` | server/interlive_rtp/avformat/rtcp_enc.cpp:379-389 | For any packets and any limit: what is written is read back as the items of the packets that found room if and only if each of these has CNAMEs in the alphabet and a length below 2^16. |
| `RtcpRoundTrip.CompoundBackIff` | server/interlive_rtp/avformat/rtcp_dec.cpp:143-231 | The octets of any packets, one after the other, are read as the items of the first, then those of the second, and so on, if and only if each of them can be read. |
| `RtcpRoundTrip.BodyBack` | server/interlive_rtp/avformat/rtcp_dec.cpp:143-231 | The octets of one packet with legal CNAMEs and a length below 2^16 are read as its items, whatever follows. |
| `RtcpRoundTrip.BodyBackIff` | server/interlive_rtp/avformat/rtcp_dec.cpp:16-57 | And only of such a packet: of any other that can be built, what is read does not even begin with its items, whatever follows, although the parser reads on inside it. |
| `RtcpRoundTrip.NoLongRun` | server/interlive_rtp/avformat/rtcp_dec.cpp:730-755 | In no buffer is a NACK followed by more than 16380 of its items. |
| `RtcpRoundTrip.LongNackLost` | server/interlive_rtp/avformat/rtcp_enc.cpp:532-557 | A list of 16381 equal numbers makes a NACK of 2^16 octets, of which nothing is read. |
| `NackList.PackRepeated` | server/interlive_rtp/avformat/rtcp_enc.cpp:532-557 | A number that is repeated takes a field each time. |
| `RtcpRoundTrip.HeaderBack` | server/interlive_rtp/avformat/rtcp_dec.cpp:16-57 | A header is read back if and only if the length of the packet is below 2^16 octets: the parser keeps it in 16 bits. |
| `RtcpRoundTrip.ChunkBackIff` | server/interlive_rtp/avformat/rtcp_dec.cpp:539-608 | A chunk is read back if and only if its CNAME is in the alphabet the parser lets through. |
| `RtcpRoundTrip.ReportAccepted` | server/interlive_rtp/avformat/rtcp_dec.cpp:297-333 | A compound packet that begins with a report is taken even where reduced size is not allowed. |
| `RtcpRoundTrip.RembBack` | server/interlive_rtp/avformat/rtcp_dec.cpp:862-904 | A REMB packet comes back as its identifier and an item with its sources and its mantissa shifted by its exponent. |
| `StartCode.FirstCodeLeast` | server/interlive_rtp/avcodec/h264.cpp:383-418 | The naive search gives the least index with 00 00 01 and a byte behind it, or the end. |
| `StartCode.FirstCodeOctets` | server/interlive_rtp/avcodec/h264.cpp:383-418 | In octets: 00 00 01 and a byte stand there, and nowhere before. |
| `StartCode.WordTest` | server/interlive_rtp/avcodec/h264.cpp:396-396 | The test on a 32-bit word holds if and only if one of its four bytes is zero. |
| `StartCode.FindInWord` | server/interlive_rtp/avcodec/h264.cpp:396-409 | The probes at offsets 1 and 3 find the first of the four codes that can begin in a word. |
| `StartCode.FindInternal` | server/interlive_rtp/avcodec/h264.cpp:383-418 | The word-at-a-time search equals the naive one for every buffer, start, end and alignment of the first byte, and reads nothing outside the buffer, even one that stops at the end of the search. |
| `AnnexB.FindStartcode` | server/interlive_rtp/avcodec/h264.cpp:420-425 | One zero byte in front of a start code belongs to it. |
| `AnnexB.GenerateVideoTagData` | server/interlive_rtp/avformat/FLV.cpp:502-598 | Both branches: if a unit is kept, the first byte is 17 for a type of 5 in the first unit kept and 27 for any other, and 01 00 00 00 follow; then the units whose type is neither 7 nor 8, each behind its length in 32 bits; if there is no such unit the header is not written. The room needed in the tag is exactly the length returned. |
| `AnnexB.KeepKinds` | server/interlive_rtp/avformat/FLV.cpp:523-525 | The units of type 7 and 8 are left out, and only those. |
| `AnnexB.TagOctets` | server/interlive_rtp/avformat/FLV.cpp:529-542 | The header by the byte behind the first length. |
| `AnnexB.FromAnnexB` | server/interlive_rtp/avformat/FLV.cpp:512-554 | The Annex B branch does so for the units cut out by the start-code search, for every payload that begins with a four-byte code, with no byte needed behind it. |
| `AnnexB.FromLengths` | server/interlive_rtp/avformat/FLV.cpp:555-593 | The length-prefixed branch does so for the units its lengths cut out, up to the first that is too long. |
| `AnnexB.PrefixedBack` | server/interlive_rtp/avformat/FLV.cpp:555-593 | Units written behind their lengths are cut out again, unless the first has one byte, whose length looks like a start code. |
| `AnnexB.LengthsEndIff` | server/interlive_rtp/avformat/FLV.cpp:559-563 | A length ends the units if and only if it leads past the end from where it stands, not from behind itself. |
| `AnnexB.PutUnit` | server/interlive_rtp/avformat/FLV.cpp:525-550 | One unit: dropped, or appended behind the header and its length. |
| `AnnexB.UnitEnds` | server/interlive_rtp/avcodec/h264.cpp:420-425 | A unit without a start code inside it ends where the next code begins, or at the end, if before a three-byte code it does not end with a zero. |
| `AnnexB.LastByteIff` | server/interlive_rtp/avcodec/h264.cpp:420-425 | Before a three-byte code a unit keeps its last byte if and only if that byte is not zero. |
| `AnnexB.UnitsBackIff` | server/interlive_rtp/avformat/FLV.cpp:514-554 | For units that are not empty and hold no start code: the units cut out of their stream are they, if and only if none ends with a zero before a three-byte code. |
| `AnnexB.DealVidFrame` | server/util/flv2ts.c:222-238 | Whole units or not, with the 32-bit sum wrapping around or not: the loop ends, and a start code is put at each position it comes to, each length being read from the frame as changed by then. |
| `AnnexB.WalkDown` | server/util/flv2ts.c:229-234 | Each round moves on, or leaves fewer bytes that are not of a start code. |
| `AnnexB.WalkedStraight` | server/util/flv2ts.c:222-238 | Where no sum wraps around, these are the positions that the lengths of the frame lead to, the last length possibly too large, and nothing else is changed. |
| `AnnexB.RecodedUnits` | server/util/flv2ts.c:222-238 | A frame of whole units becomes those units, each behind a four-byte start code. |
| `AnnexB.KeptStream` | server/util/flv2ts.c:222-238 | What that gives is again a well-formed Annex B stream, of the NAL units that are not parameter sets. |
| `AnnexB.Convey` | server/interlive_rtp/avformat/FLV.cpp:502-598 | From an Annex B access unit into a tag and out of it again: an Annex B stream of the same NAL units in order, without types 7 and 8, behind a header that says 17 or 27 by the first of them, for every well-formed access unit that has others. |
| `TsPacket.RawBack` | server/util/tsmux.c:218-316 | A receiver that skips the adaptation field gets the unit-start flag, the PID, the counter, the clock and the payload that were put in. |
| `TsPacket.HeaderOctets` | server/util/tsmux.c:218-252 | In octets: 47, the flag and 13 bits of PID, 1 or 3 for the adaptation field, four bits of counter. |
| `TsPacket.FieldOctets` | server/util/tsmux.c:254-316 | In octets: length, flags (10 for a clock), 33 bits of base, six reserved bits set, nine bits of extension, FF up to the payload. |
| `TsPacket.CutLossless` | server/util/tsmux.c:1112-1277 | The packets cut from any PES packet carry exactly its bytes, at most the first starts a unit, the counters run on, and there are ceil(n / 184) of them. |
| `TsPacket.CutWithClockLossless` | server/util/tsmux.c:1279-1572 | The same with the clock given in the first packet and none in the others: one packet, or 1 + ceil((n - 176) / 184). |
| `TsMux.Muxer.WritePes` | server/util/tsmux.c:1112-1277 | The packets appended to the output are exactly those of `Cut`, 188 bytes each, and only the counter of this stream moves, by their number. |
| `TsMux.Muxer.WritePesWithPcr` | server/util/tsmux.c:1279-1572 | The same for `CutWithClock`, with the low 33 bits of the clock base. |
| `TsMux.Muxer.WriteDummies` | server/util/tsmux.c:1795-1867 | Packets without payload, whose counters run on. |
| `TsMux.Muxer.WriteDummy` | server/util/tsmux.c:1869-1903 | Fewer than 16 of them on each PID bring both counters to a multiple of 16. |
| `TsMux.Muxer.PutHeader` | server/util/tsmux.c:218-252 | Sync byte, flag, PID, control bits and counter: the bits or-ed into one byte do not overlap, so each byte is the sum of its parts. |
| `TsMux.Muxer.PutExtension` | server/util/tsmux.c:254-316 | Length and flags of the adaptation field; no flags in an empty one. |
| `TsMux.Muxer.PutClock` | server/util/tsmux.c:1329-1343 | The six clock bytes, the reserved bits or-ed in without overlap. |
| `TsMux.Muxer.WriteBuffer` | server/util/tsmux.c:176-216 | The packet is appended to the output. |
| `TsMux.Muxer.WritePat` | server/util/tsmux.c:942-1110 | For a section of any length the packets of `PatPackets` are appended, and the counter of the PAT moves by their number. |
| `TsMux.Muxer.WritePmt` | server/util/tsmux.c:1604-1793 | The same with `PmtPackets` and the counter of the PMT. |
| `TsTables.PatRuns` | server/util/tsmux.c:942-1110 | They are on PID 0, with counters that run on, and only the first starts a section. |
| `TsTables.PmtRuns` | server/util/tsmux.c:1604-1793 | The same on PID 0xFFF. |
| `TsTables.PatBackIff` | server/util/tsmux.c:1058-1105 | All sections of a given length come back from the payloads if and only if they have at most 366 bytes: a full packet behind the first one is copied from the front again. |
| `TsTables.PmtBackIff` | server/util/tsmux.c:1743-1788 | A section comes back if and only if all its bytes from 183 on look like filler: behind the first packet one byte is skipped. |
| `TsMux.Muxer.Reset` | server/util/tsmux.c:891-906 | All four counters and the output start again. |
| `TsMux.WriteSegment` | server/util/flv2ts.c:318-555 | A segment in the order of the conversion, for any tables and PES packets: the packets of PAT and PMT come first, and no others are on their PIDs; on each of the four PIDs the counters run 0, 1, 2, ... mod 16, and those of the streams end at 15 (if there is a packet); what a receiver of the output gathers on PID 100 (hexadecimal) is exactly the bytes of the PES packets of stream E0, and on 101 those of C0. |
| `TsMux.SegmentsJoin` | server/util/flv2ts.c:546-555 | Such segments joined run on without a break. |
| `TsMux.AllReceived` | server/util/tsmux.c:176-216 | The output, cut into 188 bytes, is received packet by packet as it was sent. |
| `TsMux.ClockWraps` | server/util/tsmux.c:1329-1343 | The clock bytes depend on the low 33 bits of the base only. |
| `Amf.EncodeProp` | server/interlive_rtp/avformat/AMF.cpp:375-430 | Name and value are written as `PrintProp` says, or, if a room check fails, nothing is returned; bytes in front are untouched. |
| `Amf.EncodeString` | server/interlive_rtp/avformat/AMF.cpp:189-212 | Strings of 2^16 bytes and more take the long form. In octets: `AmfOctets.PlainOctets`. |
| `Amf.EncodeNumber` | server/interlive_rtp/avformat/AMF.cpp:214-273 | The eight bytes of a double, reversed. |
| `Amf.EncodeObject` | server/interlive_rtp/avformat/AMF.cpp:900-966 | An object or an ECMA array: head, members up to the first that finds no room, end marker. |
| `Amf.EncodeArray` | server/interlive_rtp/avformat/AMF.cpp:968-1001 | A strict array: count and elements, no end marker. |
| `Amf.EncodeMembers` | server/interlive_rtp/avformat/AMF.cpp:910-923 | The loop over the members stops at the first that fails. |
| `Amf.PropFits` | server/interlive_rtp/avformat/AMF.cpp:375-430 | With two bytes to spare no room check fails, at any depth, and the whole property is written. |
| `AmfOctets.PlainOctets` | server/interlive_rtp/avformat/AMF.h:40-48 | In octets: 0 and the eight bytes of a number reversed, 1 and a flag, 2 and a length of two bytes or 12 and one of four before a text, 5. |
| `AmfOctets.HolderOctets` | server/interlive_rtp/avformat/AMF.cpp:900-1001 | In octets: 3, 8 or 10, the count of an array in four bytes, the members in order, and 00 00 09 but for a strict array. |
| `AmfOctets.NameOctets` | server/interlive_rtp/avformat/AMF.cpp:381-388 | A name behind its length in two bytes, in front of any value but a null. |
| `AmfOctets.RoomIff` | server/interlive_rtp/avformat/AMF.cpp:375-430 | The exact room that a property takes which holds no others: what is written, two bytes more for a short string, one more for a null; and more than three beside the name. |
| `AmfOctets.EmptyRoomIff` | server/interlive_rtp/avformat/AMF.cpp:900-1001 | And an empty object or array: one byte more than it writes where there is an end marker. |
| `AmfOctets.MembersStop` | server/interlive_rtp/avformat/AMF.cpp:910-923 | Members are written as long as each fits into what those before it leave, and none behind the first that does not. |
| `Amf.DecodeProp` | server/interlive_rtp/avformat/AMF.cpp:628-807 | The decoder with its moving cursor and shrinking size computes `ParseProp`, also where a count or a negative size lets it read on behind the given size within the memory. By its first octet: `AmfOctets.ReadByKind`. |
| `AmfOctets.ReadByKind` | server/interlive_rtp/avformat/AMF.cpp:671-805 | What each first octet gives: 0 a number and 11 a date with its number reversed and its offset, 1 a flag, 2, 12 and 15 texts, 5, 6 and 13 a null, 3, 8 and 10 what the members give; all others, and any that is too short, fail. |
| `AmfOctets.ReadName` | server/interlive_rtp/avformat/AMF.cpp:644-666 | A name is read by its length in two bytes, and the value behind it as without one. |
| `AmfOctets.Recovers` | server/interlive_rtp/avformat/AMF.cpp:1171-1215 | Behind a property that cannot be read an object goes on to the next 00 00 09, and fails without one. |
| `Amf.DecodePlain` | server/interlive_rtp/avformat/AMF.cpp:671-805 | The branches for values that hold no others, one by one. |
| `Amf.DecodeNumber` | server/interlive_rtp/avformat/AMF.cpp:97-150 | The eight bytes of a number, reversed. |
| `Amf.DecodeObject` | server/interlive_rtp/avformat/AMF.cpp:1171-1215 | Properties up to the end marker; after a failure bytes are passed over until one. |
| `Amf.DecodeArray` | server/interlive_rtp/avformat/AMF.cpp:1003-1032 | So many elements; the loop goes on after a failure but then fails. |
| `Amf.RoundTrip` | server/interlive_rtp/avformat/AMF.cpp:628-807 | Every nested value (number, boolean, null, string of any length below 2^31, object, ECMA array, strict array), written with room and followed by any bytes, decodes to the same property and takes exactly the bytes written. |
| `Amf.ValueBack` | server/interlive_rtp/avformat/AMF.cpp:628-807 | The same for a value at any place of a buffer, behind any name. |
| `Amf.MembersBack` | server/interlive_rtp/avformat/AMF.cpp:1171-1215 | The members of an object from any index on are read back up to its end marker. |
| `Amf.ElementsBack` | server/interlive_rtp/avformat/AMF.cpp:1003-1032 | The elements of a strict array from any index on are read back. |
| `Amf.NamedBackIff` | server/interlive_rtp/avformat/AMF.cpp:381-410 | For every readable value, every name and whatever follows: a named property is read back as a member if and only if it is not a null. |
| `Amf.NamedNullLost` | server/interlive_rtp/avformat/AMF.cpp:381-410 | A null with a name is written without it and cannot be read back as a member, whatever the name. |
| `Amf.NestedBackIff` | server/interlive_rtp/avformat/AMF.cpp:628-807 | A property of any depth, of the kinds the encoder writes, written and followed by whatever bytes, is read back and takes exactly the bytes written if and only if no named member of it, at any depth, is a null. |
| `Amf.NullInsideLost` | server/interlive_rtp/avformat/AMF.cpp:381-410 | With a named null at any depth it is not read back, whatever non-empty bytes follow. |
| `Bits.BitReader.InitBits` | server/util/bits.c:85-132 | A reader at position 0 of the input extended with zeros; an empty input is an error. |
| `Bits.BitReader.ShowBits` | server/util/bits.c:4-15 | The next n bits as a number, within one word or across two. |
| `Bits.BitReader.FlushBitsEx` | server/util/bits.c:156-173 | Moves on by n bits and loads the next word. |
| `Bits.BitReader.GetBits` | server/util/bits.c:315-326 | Returns the next n bits, most significant first, zeros behind the end, and moves on by n; bits of the word are left afterwards unless there were none and none were read. |
| `Bits.BitReader.Get1Bit` | server/util/bits.c:300-313 | The same for one bit, leaving no bits of the word when it takes the last one. |
| `Bits.BitReader.ByteAlign` | server/util/bits.c:144-154 | On to the next multiple of eight, by fewer than eight. |
| `Bits.BitReader.ResetBits` | server/util/bits.c:209-244 | To any position whose word begins within the buffer. |
| `Bits.BitReader.GetProcessedBits` | server/util/bits.c:139-142 | The position, on 32 bits. |
| `Bits.Replay` | server/util/bits.c:85-326 | Any interleaving of reads of up to 32 bits, single bits, alignments and resets is answered as the naive bit-by-bit reader answers it; only a read of 32 bits while no bits of the word are left is excluded. |
| `Bits.WholeValues` | server/util/bits.c:17-83 | Eight bits at a byte boundary are the byte, the first of them its highest; 32 are the word, first byte first; zeros behind the end. |
| `Bits.ShownAcross` | server/util/bits.c:4-15 | Mask, shift and or of two cached words give the bits across their border. |
| `Bits.ShownWithin` | server/util/bits.c:4-15 | Two shifts of one word give the bits within it. |
| `Md5.Context.Update` | server/util/md5.c:124-164 | From any state the context takes in the bytes, with what is buffered fewer than 2^32: full blocks folded into the state, the rest in the buffer, the 64-bit count of bits right across its two words; the 32-bit bound of the loop does not wrap around. |
| `Md5.BoundStopsIff` | server/util/md5.c:150-153 | That bound stops the loop at the last block end if and only if the buffered and the new bytes are fewer than 2^32 together. |
| `Md5.Context.AddBits` | server/util/md5.c:136-141 | The carry between the words makes the count right modulo 2^64. |
| `Md5.Context.Final` | server/util/md5.c:170-195 | The digest is that of the message padded in one piece (RFC 1321 sections 3.1 and 3.2), and the context is zeroed. In octets: `DigestOctets`, `PaddedOctets`. |
| `Md5.DigestOctets` | server/util/md5.c:189-190 | The digest is the four words of the state in order, each with its low byte first. |
| `Md5.PaddedOctets` | server/util/md5.c:176-187 | The padding of any message: 80, zeros, and the number of its bits in two words, the low word and the low bytes first. |
| `Md5.ShortDigest` | server/util/md5.c:107-195 | A message of at most 55 bytes is one block, written out, compressed once from the four initial words. |
| `Md5.Hash` | server/util/md5.c:107-195 | Any way of cutting a message into pieces that `Update` takes gives the digest of the whole message, for any compression function; for the one that keeps the state it is 01 23 45 67 89 AB CD EF FE DC BA 98 76 54 32 10. |
| `Md5.PaddedIsWhole` | server/util/md5.c:180-187 | The padding makes whole blocks, and no shorter one does. |
| `Md5.CountAdds` | server/util/md5.c:136-141 | Adding the bits of n bytes with the carry test of the code is addition modulo 2^64. |
| `Md5.FoldAppend` | server/util/md5.c:147-153 | Folding over joined messages of which the first is whole blocks is folding twice. |
| `LinkedHashMap.Map.Set` | server/util/linked_hash_map.h:108-130 | A key that is there gets the new value and becomes the newest, its lock kept; a new one is appended unlocked and the map cut. List and index agree again, with distinct keys, and the size is within the maximum; a full map of four or more is left with the least size that is three quarters of the maximum. |
| `LinkedHashMap.Map.Get` | server/util/linked_hash_map.h:151-165 | The value, if any; the entry becomes the newest if order is by access, and otherwise nothing changes. |
| `LinkedHashMap.Map.Reference` | server/util/linked_hash_map.h:173-185 | The value, if any, and no change. |
| `LinkedHashMap.Map.Contains` | server/util/linked_hash_map.h:280-283 | Whether there is one. |
| `LinkedHashMap.Map.Lock` | server/util/linked_hash_map.h:193-206 | Marks exactly the entry of the key. |
| `LinkedHashMap.Map.Unlock` | server/util/linked_hash_map.h:214-227 | Unmarks exactly the entry of the key. |
| `LinkedHashMap.Map.Erase` | server/util/linked_hash_map.h:246-263 | Exactly the entry of the key goes from list and index; the new size, or -1 for an absent key. |
| `LinkedHashMap.Map.Adjust` | server/util/linked_hash_map.h:389-398 | The entry of the key moves to the end, the index still points at it. |
| `LinkedHashMap.Map.CutHead` | server/util/linked_hash_map.h:405-440 | Both loops terminate, the entries left are those of `Cut`, and of an over-full map the least number is left that is three quarters of the maximum or more, or the maximum if that is below four. |
| `LinkedHashMap.Map.PassLocked` | server/util/linked_hash_map.h:421-431 | The first loop stops at the entry that was the newest, even while locked ones are moved behind it. |
| `LinkedHashMap.Map.ResetMaxSize` | server/util/linked_hash_map.h:86-98 | A maximum below 1 becomes 1, and the map is cut to it. |
| `LinkedHashMap.CutForm` | server/util/linked_hash_map.h:405-440 | An over-full map is cut to exactly the remain size: the entries not passed, the newest, then the locked ones passed in their order; or only locked ones. |
| `LinkedHashMap.OldestUnlockedFirst` | server/util/linked_hash_map.h:421-431 | If an unlocked entry stays, so do all younger unlocked ones but possibly the newest. |
| `LinkedHashMap.LockedLast` | server/util/linked_hash_map.h:421-437 | A locked entry other than the newest is evicted only if every survivor is locked. |
| `LinkedHashMap.NewestStays` | server/util/linked_hash_map.h:434-437 | The newest entry survives if and only if the locked ones among the others are fewer than the remain size. |
| `LinkedHashMap.JustSetAndGone` | server/util/linked_hash_map.h:108-130 | So a key that was just set can be gone at once, with a full map of locked entries. |
| `LinkedHashMap.SurvivorsWereThere` | server/util/linked_hash_map.h:405-440 | Eviction invents no entry. |
| `LinkedHashMap.RecencyOrder` | server/util/linked_hash_map.h:389-398 | After any run of accesses the list is in order of last access, with the entries never accessed first and in their old order. |

## Left out

- AMF3, the dump functions, and the named shortcuts (`AMF_EncodeNamedString` and the like): AMF3 is a second format, the others add only easy members.
- `rtcp_dec_extern.cpp`, `rtcp_enc_extern.cpp`: a second copy of the core, on a header that is not part of this model; the search for a bounding set in them is floating point.
- The header-only `RTCPPacketIterator`, `RTCPPacketInformation` and the dispatch of items in `rtcp_helper.cpp`: bookkeeping around the parser. The dispatch is modelled as the loop that asks for the next item.
- The contents of the PAT and PMT sections and the CRC tables of `tsmux.c` and `crc32.c`: constant data, given as parameters; the 1024 bytes of the buffers they are put together in are not modelled.
- `MD5Transform`: a parameter. There is nothing to state about it beyond the code itself.
- `hls.c`, `ketama_hash.cpp`, `buffer.cpp`, `fifo_hash_map.h`, `list.h`, the hashes, `lib/stat`, sockets, logging and events: input and output, stubs, or easy next to what is modelled.
- `rb_last`, `rb_prev`, `rb_replace_node`, the augmented variants, `hash_destroy_ex`, `bitbuffer_rewindbits`, `bitbuffer_initbits_rev` and `bitbuffer_getbitbuffer`: mirrors or variants that would add only easy members.
- `ff_avc_parse_nal_units`, `BitVector` and the SPS analysis of `h264.cpp`.
- Allocation failure, and the growth of the output buffer: the output of the multiplexer is a growing sequence of bytes.
- The packing of parent pointer and colour into one word: two fields.
- A handler that reuses the memory of a node handed to it by `hash_destroy`: the handler is modelled as the list of nodes handed over.
- Reads behind the memory that holds the input: AMF decoding that reads on past its size reads what the memory holds there and fails where the memory ends; an SDES item whose length reaches past the end of the packet ends the block; `AnnexB.InReach` and `AnnexB.Walkable` say which bytes `generate_video_tag_data` and `deal_vid_frame` read, and their methods ask for these to be there.
- Amf.DecodeProp: an AMF3 value (type 0x11) is answered as a failure, because the decoder of that format is not modelled.
- AnnexB.GenerateVideoTagData: payloads of 2^32 bytes and more do not exist in the code; the overflow of its signed offset for tags of 2^31 bytes and more is not modelled.
- AnnexB.DealVidFrame: frames of more than 0xFE000000 bytes are excluded, for which the wrapping walk is not shown to end; the length of a tag has 24 bits.
- RtcpReader.Parser.Begin: the state is kept, as the code keeps it; what the class seems to mean, the first item of the packet, holds at the top level only.
- Bits.Replay: a read of 32 bits right after a single-bit read that took the last bit of the word is excluded, as for `GetBits`.
- Remb.Compute: shifts by 32 or more, undefined in C, are taken modulo 32, as the usual machines do; the result does not depend on it up to the largest rate.
- Rtcp.HeaderAccepted: the padding bit is read, as in the code, and not acted upon.
- RtcpWriter.Create: a packet of more than 2^18 octets that finds room is excluded; its length in words does not fit the 16 bits that the code asserts.
- RtcpWriter.Build: the packets appended to one another must not form a cycle; the code would not end.
- RtcpReader.Parser.Iterate: the packet type set early while an SDES chunk is still being read is not visible between calls, and not modelled.
- Bits.BitReader.GetBits: reading 32 bits when no bits of the word are left shifts a 32-bit word by 32, which C leaves undefined; the contract excludes it.
- TsMux.WriteSegment: the four counters are C integers in the code; their overflow after 2^31 packets is not modelled.
- Md5.Context.Update: chunks that with the buffered bytes reach 2^32 are excluded; there the bound of the loop wraps around and the code reads past its input.
- LinkedHashMap.Map.Get: the zeroed value returned for an absent key is the `None` of an option; the hook `free_memory`, empty in the class itself, is not called; `oldest` and `latest`, which do not have the type they return, are left out.
- LinkedHashMap.Map.CutHead: the size is an `int` in the code; more than 2^31 entries are not modelled.
- Md5.Hash: stated for the context as a whole; the conversion of the digest to a hexadecimal string is left out.
