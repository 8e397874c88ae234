# A loader, proved piece by piece

This project models the parts of a boot loader for ARM network storage boards that decide whether it keeps its
memory, its settings, its transfers and the user's data intact, and proves what they promise.

- **Memory** (`block_list`, `sys_malloc`): the first-fit allocator. The list of headers as a value, and the pointer code
  on a memory of headers that refines it. With the back link repaired at a split, every run of correct calls keeps a
  good list; as written it does so exactly when no split happens in front of another block. Six calls show it, and
  nine leave a back link that leads into a caller's data; the pointer code is followed through both.
- **Checksums** (`crc16`, `image`, `inet_checksum`, `udp_datagram`): table against bits for both CRC-16s, residues,
  detection of damaged bytes, the image header from host tool to loader; the Internet checksum against its definition
  in network byte order, and UDP's pseudo header both ways.
- **Protocols** (`xmodem_line`, `xmodem_protocol`, `xmodem`; `tftp_client`, `tftp_get_runs`, `tftp_put`): receiver and
  clients as code, tied to step machines, and those machines proved safe in every run over a line that loses, damages,
  repeats or reorders, with the exact condition for a transfer to succeed at all. Where the code misbehaves - a
  duplicate as the last of five attempts, a refusal with error code 0, more than 65535 blocks - the exact condition is
  proved. For XMODEM the runs go down to the characters on the line.
- **Disk** (`ext2_disk`, `ext2fs`, `pipelined_write`, `linear_array`): the ext2 reader with its one shared block buffer
  and cached descriptors against a recursive pointer tree and direct look-ups, with the exact condition under which
  its way of following null pointers gives the file; the write that overlaps with USB arrivals under every schedule;
  two disks as one flat array, with the exact condition under which the code misses.
- **Settings** (`vctl_records`, `vctl_store`, `vctl_text`, `vctl_ip`, `vctl_mac`): typed records rewritten as a whole in
  flash, and the round trips of IP and Ethernet addresses through printed text, by the update and the create path.
- **Network buffers** (`net_buffers`, `net_frames`, `net_input`, `udp_socket`, `udp_path`): a pool of linked buffers of
  which each is in exactly one place through every dispatch path, answers that the other side accepts, the socket ring
  as a bounded queue, the way of a payload from one station's send call to the other's ring, and the exact condition
  under which a poll comes back.

`byte_data` holds bytes and little-endian words. Code that the source writes as loops over buffers or as updates of
fields is a method or a class here, proved against functions on values; what holds over runs is proved about those
functions. Verify everything with `dafny verify dfyconfig.toml`; each proof stays within `--resource-limit 2000000`.

## Model

| member | source | states |
|---|---|---|
| BlockList.RunsStayGood | src/sys/sys_malloc.c:55-211 | over every run of allocations and frees of live pointers, with the split repairing the old successor's back link, every state is good: the chain ascends inside the arena, no block reaches into a later header, every back link names the true predecessor, no two neighbours are free |
| BlockList.AsWrittenRunsGoodIff | src/sys/sys_malloc.c:87-174 | as written, a run of correct calls stays good if and only if no allocation in it splits a block that has a successor |
| BlockList.StaleBackLink | src/sys/sys_malloc.c:112-119 | as written, a run of six correct calls ends with two neighbouring free blocks: the split left a back link stale and a later free followed it |
| BlockList.DanglingBackLink | src/sys/sys_malloc.c:112-172 | as written, a run of nine correct calls ends with a block in use whose back link names no block of the list any more: the header there has been swallowed, and its 32 bytes lie inside a payload that a caller holds |
| BlockList.TakeGoodIff | src/sys/sys_malloc.c:103-126 | one allocation keeps the invariant if and only if the back link is repaired or the split block has no successor; in that case both forms give the same list |
| BlockList.TakeAccount | src/sys/sys_malloc.c:103-126 | an allocation adds exactly the new payload to what callers hold; a split loses no byte, an unsplit allocation loses the unused rest of its block, at most 64 bytes |
| BlockList.MergeHeadKeeps | src/sys/sys_malloc.c:179-211 | collecting keeps layout, back links, every byte and everything in use, and leaves no free block behind the first |
| BlockList.BackLinkLeads | src/sys/sys_malloc.c:166-172 | in a good list the stored back link leads sys_free to the true predecessor |
| BlockList.ReleaseKeepsGood | src/sys/sys_malloc.c:148-174 | a free keeps the whole invariant, with maximal coalescing, and every byte, and gives up exactly the freed payload |
| BlockList.GoodMeansDisjoint | src/sys/sys_malloc.c:55-211 | in a good list live payloads are 16-aligned, pairwise disjoint, and meet no header |
| BlockList.MallocStep | src/sys/sys_malloc.c:87-132 | sys_malloc answers with the lowest free block that is large enough and with NULL only when there is none; the new payload was not held before and everything held before still is |
| BlockList.FreeStep | src/sys/sys_malloc.c:148-174 | sys_free gives back exactly the payload named and loses no byte |
| BlockList.FreeingEverything | src/sys/sys_malloc.c:55-211 | after any run that leaves nothing held, the arena is one free block |
| BlockList.RunBytes | src/sys/sys_malloc.c:122-123 | over any run the bytes in the list never grow and drop by at most 64 for each allocation |
| BlockList.LostForGood | src/sys/sys_malloc.c:122-123 | an allocation and the free of it can cost the arena 64 bytes that no later call gets back |
| BlockList.StepKeepsGood | src/sys/sys_malloc.c:87-174 | one step of a correct caller keeps the invariant (repaired form, or no interior split) |
| BlockList.StartIsGood | src/sys/sys_malloc.c:55-82 | the list that sys_init_memory makes is good |
| BlockList.Rounded | src/sys/sys_malloc.c:92 | the rounded request is a multiple of 16, never smaller than a request of 0 or more bytes and less than 16 larger; a negative request becomes one of at least 2^31 bytes, except that -15 to -1 become 0 |
| SysMalloc.Allocator.InitMemory | src/sys/sys_malloc.c:55-82 | the headers in memory hold the start list; a too small area changes nothing |
| SysMalloc.Allocator.GarbageCollect | src/sys/sys_malloc.c:179-211 | the pointer loop turns the headers in memory into those of the collected list and touches nothing outside |
| SysMalloc.Allocator.Malloc | src/sys/sys_malloc.c:87-132 | on every list whose blocks lie apart, good or not, the walk, the split and the writes to the headers do exactly the list-level step, and the result is the payload that step gives; a good list stays good exactly under the condition of TakeGoodIff |
| SysMalloc.Allocator.Free | src/sys/sys_malloc.c:148-174 | on every such list, when the stored back link leads into the list, the pointer form of sys_free does exactly the list-level step; a good list stays good |
| SysMalloc.Allocator.Calls | src/sys/sys_malloc.c:87-211 | a run of calls on the headers in memory leaves the list that the list-level run leaves, good or not, as long as each back link followed leads into the list |
| SysMalloc.RepairedRunsAreFollowed | src/sys/sys_malloc.c:87-211 | in the repaired form that is so in every run of correct callers |
| SysMalloc.SixFollowed | src/sys/sys_malloc.c:112-172 | as written it is so in the run of six calls of StaleBackLink |
| SysMalloc.NineFollowed | src/sys/sys_malloc.c:112-172 | and in the run of nine calls of DanglingBackLink |
| SysMalloc.PayloadWriteKeepsList | src/sys/sys_malloc.c:55-211 | whatever a caller writes into a payload it holds, the list in memory stays what it was, on every list whose blocks lie apart |
| SysMalloc.PayloadReadAsHeader | src/sys/sys_malloc.c:166-172 | after those nine calls, whatever 32 bytes the caller writes there, the list in memory is intact and the header that sys_free finds by following the back link is made of just these bytes |
| SysMalloc.PayloadReached | src/sys/sys_malloc.c:87-211 | the nine calls made on the pointer code as written, and the write of the caller: the list is intact, the third block may be freed, and the header that sys_free then takes for the one in front of it is what the caller has written |
| Crc16.FcsTableIsBits | tools/sl_imghdr/sl_crc16.c:22-55 | every one of the 256 table entries is eight steps of the bitwise FCS-16 (section C.2 of RFC 1662) |
| Crc16.CcittTableIsBits | src/Xmodem/Xmodem_crc16.c:2-36 | every one of the 256 table entries is eight steps of the bitwise CCITT register, most significant bit first |
| Crc16.FcsLookupIsBits | tools/sl_imghdr/sl_crc16.c:60-69 | one table step equals eight bitwise steps, for every register value and byte |
| Crc16.CcittLookupIsBits | src/Xmodem/Xmodem_crc16.c:43-46 | one table step equals eight bitwise steps, for every register value and byte |
| Crc16.SysCrc16 | tools/sl_imghdr/sl_crc16.c:60-69 | the table loop computes the bitwise FCS of every byte string from every start value |
| Crc16.SysCheckCrc16 | src/sys/sys_crc16.c:76-82 | returns 0 if and only if the bitwise FCS of the bytes is the good residue |
| Crc16.SysGenCrc16 | tools/sl_imghdr/sl_crc16.c:85-92 | the complemented bitwise FCS |
| Crc16.XmodemCrc16 | src/Xmodem/Xmodem_crc16.c:38-48 | the table loop computes the bitwise CCITT checksum from 0 |
| Crc16.FcsConcat | tools/sl_imghdr/sl_crc16.c:60-69 | checksumming in pieces gives the checksum of the whole |
| Crc16.FcsInjective | tools/sl_imghdr/sl_crc16.c:60-69 | for equal data the register is an injective function of its start value |
| Crc16.CcittInjective | src/Xmodem/Xmodem_crc16.c:38-48 | the same for the CCITT register |
| Crc16.GoodResidue | tools/sl_imghdr/sl_crc16.c:71-80 | appending two bytes leaves the residue 0xf0b8 if and only if they are the complemented FCS, low byte first |
| Crc16.ZeroResidue | src/Xmodem/Xmodem_crc16.c:38-48 | appending two bytes leaves 0 if and only if they are the checksum itself, high byte first |
| Crc16.CheckAcceptsExactlySigned | tools/sl_imghdr/sl_crc16.c:74-92 | sys_check_crc16 accepts data with two trailing bytes if and only if these are what sys_gen_crc16 signs it with |
| Crc16.CcittZeroExactlyOwn | src/Xmodem/Xmodem_crc16.c:38-48 | the checksum over data and two bytes is 0 if and only if these are its own checksum |
| Crc16.FcsDetectsBurst | tools/sl_imghdr/sl_crc16.c:60-69 | changing any two adjacent bytes changes the checksum |
| Crc16.CcittDetectsBurst | src/Xmodem/Xmodem_crc16.c:38-48 | changing any two adjacent bytes changes the checksum |
| Crc16.FcsDetectsByte | tools/sl_imghdr/sl_crc16.c:60-69 | changing any one byte changes the checksum |
| Image.AddHeader | tools/sl_imghdr/sl_imghdr.c:61-146 | the loops over 32 KB pieces build header and file with the checksum of the whole file; an empty file is refused |
| Image.VerifyImageFile | src/ui/ui_upgrade.c:398-413 | returns 1 for a foreign name, otherwise 0 if and only if the stored checksum is that of the payload, otherwise -1 |
| Image.HeaderReadBack | src/ui/ui_upgrade.c:403-409 | name, size and checksum that the tool writes are the ones the loader reads |
| Image.AcceptsSameFcs | src/ui/ui_upgrade.c:398-413 | behind a header built for a file, data of that size is accepted if and only if it has the checksum of the file; so the file itself always is |
| Image.DamageIsFound | src/ui/ui_upgrade.c:398-413 | an image with two adjacent data bytes changed is never accepted |
| Image.ChangedByteIsFound | src/ui/ui_upgrade.c:398-413 | an image with any single data byte changed makes the check return -1 |
| XmodemLine.PacketJudged | src/Xmodem/Xmodem.c:167-216 | a whole packet on the line is accepted if and only if its numbers are complements and its checksum is right, and what follows it stays unread unless the line is flushed |
| XmodemLine.PacketRoundTrip | src/Xmodem/Xmodem.c:105-217 | a good packet for block number and data is received as just that, in checksum mode and in CRC mode |
| XmodemLine.DamagedDataFound | src/Xmodem/Xmodem.c:199-203 | a packet with two adjacent data bytes damaged is reported as a checksum error |
| XmodemLine.DamagedNumberFound | src/Xmodem/Xmodem.c:192-197 | a packet whose complement does not fit its number is reported as a frame error |
| XmodemProtocol.TransferIsFaithful | src/Xmodem/Xmodem.c:219-350 | in every run against a stop-and-wait sender, whatever is lost or damaged, the accepted blocks are the sender's first blocks in order, each once, although numbers wrap at 256; the bytes handed out are exactly theirs if and only if no duplicate arrived as the last of five attempts; an ended transfer has all blocks; no run ends with a sequence error |
| XmodemProtocol.RunsInStep | src/Xmodem/Xmodem.c:279-348 | sender and receiver stay within one block of each other through every run |
| XmodemProtocol.StepInStep | src/Xmodem/Xmodem.c:284-328 | the same for one attempt |
| XmodemProtocol.RepeatsAreMistakes | src/Xmodem/Xmodem.c:284-312 | data is handed out twice exactly as often as a duplicate is the last of five attempts |
| XmodemProtocol.FirstBlockTwice | src/Xmodem/Xmodem.c:284-312 | a run with one lost acknowledgement and four lost repetitions hands out the first block twice |
| XmodemProtocol.CompletionPossibleIff | src/Xmodem/Xmodem.c:279-348 | from any state of a run the transfer can still end with every block accepted and none handed out twice if and only if the sender is about to offer the next block or the receiver has more than one attempt left |
| XmodemProtocol.UndisturbedCompletes | src/Xmodem/Xmodem.c:279-348 | from a state in which the sender is about to offer the next block, the remaining blocks and the end of transmission, undisturbed, complete the transfer |
| XmodemProtocol.AttemptMeets | src/Xmodem/Xmodem.c:105-217 | what an attempt makes of a packet that is intact, lost, or damaged in its number bytes, in two adjacent data bytes or in its check bytes, and what it leaves on the line; it is an outcome that the run theorem allows except when both number bytes are hit and still complement each other |
| XmodemProtocol.SpokenIsRun | src/Xmodem/Xmodem.c:105-217 | on a line that carries the sender's packets one behind the other, each with any damage that shows, the receiver's attempts report a run of the sender |
| XmodemProtocol.OpeningAccount | src/Xmodem/Xmodem.c:230-265 | the receiver keeps CRC mode exactly as long as fewer attempts have timed out than it has for that mode, asks once for each time-out, and gives up with the first other error or after its last attempt |
| Xmodem.Receiver.GetHeader | src/Xmodem/Xmodem.c:105-217 | consumes and reports exactly what the line-level definition of an attempt says, sends the pending acknowledgement first, and leaves an accepted packet in the buffer |
| Xmodem.Receiver.FindHeader | src/Xmodem/Xmodem.c:122-165 | the search for a packet start: cancel after the set number of CANs, end of transfer only without noise |
| Xmodem.Receiver.ReadPacket | src/Xmodem/Xmodem.c:167-216 | everything behind the start byte: which error is reported for which missing or wrong part |
| Xmodem.Receiver.Open | src/Xmodem/Xmodem.c:219-266 | what is sent, the mode settled on, the error and the rest of the line are those of the definition; the first good packet, whatever its number, opens the transfer |
| Xmodem.Receiver.TrimPacket | src/Xmodem/Xmodem.c:295-303 | three trailing padding bytes cause all trailing padding to be dropped, fewer none |
| Xmodem.Receiver.NextBlock | src/Xmodem/Xmodem.c:283-334 | the retry loop makes the protocol steps of its attempts, ends with data, end of file or an error, and reports which |
| Xmodem.Receiver.Read | src/Xmodem/Xmodem.c:268-350 | over any series of reads the bytes handed out and still buffered are the stream that the protocol makes of what the line has said so far, attempt by attempt; less than asked for only at the end or after an error |
| Xmodem.Receiver.DeliveredFromSender | src/Xmodem/Xmodem.c:268-350 | whatever a sender's run over a bad line has brought so far, the bytes a reader has are a prefix of the file as long as no duplicate was the last of five attempts; after an end of transmission they are the whole file if and only if none was |
| Xmodem.Receiver.DeliveredFromLine | src/Xmodem/Xmodem.c:268-350 | the same from the characters: when what has come in since the transfer was opened is what the sender says, packet by packet with any damage that shows |
| TftpClient.StoreBlock | src/net/tftp_client.c:153-178 | the copying loop on the buffer writes what the storing function says, right behind the blocks before, and nothing else |
| TftpClient.TftpGet | src/net/tftp_client.c:111-219 | the receive loop makes exactly the steps of the client machine; the buffer holds what the machine has stored and is untouched behind that |
| TftpGetRuns.StoreWithRoom | src/net/tftp_client.c:162-176 | a block that fits is stored whole; one that does not fills the buffer and reports it as too large |
| TftpGetRuns.BlockIsTheNext | src/net/tftp_client.c:151-158 | a repeated or late block never passes for the expected one, whatever the wrap of 16-bit numbers |
| TftpGetRuns.RunFaithful | src/net/tftp_client.c:116-219 | the invariant of a run: the buffer is a prefix of the file, block k at 512*(k-1), at most len bytes |
| TftpGetRuns.GetIsFaithful | src/net/tftp_client.c:58-225 | in every run over a network that loses, repeats and reorders, the buffer holds a prefix of the file of at most len bytes; a success reports the size of the file, or len when the file is longer and the buffer ends on a block boundary - except exactly when the server refuses with error code 0 (sections 2 and 6 of RFC 1350) |
| TftpGetRuns.LongFilesNeverComplete | src/net/tftp_client.c:151-189 | when the end of the file or of the buffer, whichever comes first, takes more blocks than there are block numbers, no run reports success, whatever arrives |
| TftpGetRuns.UndisturbedCompletes | src/net/tftp_client.c:116-219 | from any state of a run, an undisturbed exchange completes a file that fits, or fills a buffer that ends with a block, with every byte, whenever there are enough block numbers |
| TftpGetRuns.GetSucceedsIff | src/net/tftp_client.c:116-219 | some run against a server that follows RFC 1350 ends with a success that is no error code 0 if and only if the file fits the buffer or the buffer ends with one of its blocks, and block numbers 1 to 65535 reach that far |
| TftpGetRuns.AcksAreBacked | src/net/tftp_client.c:187-195 | no acknowledgement is ever sent for a block that has not been stored |
| TftpGetRuns.NoRoomOneByte | src/net/tftp_client.c:162-176 | with a length of 0 or less a one-byte file is reported as received and not written |
| TftpPut.TftpPut | src/net/tftp_client.c:329-411 | the sending loop makes exactly the steps of the sending machine and sends what that sends |
| TftpPut.Ask | src/net/tftp_client.c:259-327 | the request loop ends with an acknowledgement, or with the machine's error, after the same requests |
| TftpPut.RunKeeps | src/net/tftp_client.c:333-402 | the invariant of a run: block numbers and contents agree, acknowledged bytes are whole blocks from the start |
| TftpPut.PutIsFaithful | src/net/tftp_client.c:233-412 | in every run each data packet numbered k, also when repeated, carries the bytes from 512*(k-1) on; acknowledged blocks form a prefix; a success reports the whole length - except exactly when the server refuses with error code 0 |
| TftpPut.AssembledIsPrefix | src/net/tftp_client.c:335-346 | what a server puts together from the acknowledged blocks is a prefix of the file |
| TftpPut.FinishedMeansStored | src/net/tftp_client.c:355-400 | after a success the server has acknowledged every byte; the short block that ends the file is the last one acknowledged if and only if the size is no multiple of 512 |
| TftpPut.LongFilesNeverFinish | src/net/tftp_client.c:380-385 | a file of more than 65535 full blocks is never reported as sent |
| TftpPut.UndisturbedFinishes | src/net/tftp_client.c:333-402 | from any state of a run in which a block is out, its acknowledgement and those of the blocks behind it end the transfer with the whole length reported, for every file of at most 65535 full blocks |
| TftpPut.PutSucceedsIff | src/net/tftp_client.c:233-412 | some run of acknowledgements, errors and time-outs reports the file as sent, and not because of error code 0, if and only if it has at most 65535 * 512 bytes |
| Ext2Disk.LeafIsTrueIff | src/ide/ext2fs.c:320-356 | following the pointer blocks gives what the file system means if and only if no null pointer is met above the leaf, or the words found one below the other from block 0 on can all be read and the last is zero |
| Ext2Disk.NullPointerFollowed | src/ide/ext2fs.c:320-328 | on a partition that the loader mounts, with the word 5 at the start of block 0, a null indirect pointer leads to block 5 instead of a hole |
| Ext2Disk.AllNumbersMeantIff | src/ide/ext2fs.c:310-357 | every data block of every possible inode is found as the file system means it if and only if block 0 of the partition can be read and is all zeros |
| Ext2Disk.DistinctIndicesDistinctSlots | src/ide/ext2fs.c:310-357 | different block indices below 12 + n + n^2 + n^3 end at different pointer slots |
| Ext2Disk.SizeFits | src/ide/ext2fs.c:622-626 | every block of a file of 32-bit size has an index in range |
| Ext2fs.Ext2.InodeBlock | src/ide/ext2fs.c:310-357 | through one buffer, reused for up to three pointer blocks, the result is that of walking the recursive pointer tree, null pointers included; it fails if and only if a pointer block on the way cannot be read |
| Ext2fs.Ext2.LoadBlock | src/ide/ext2fs.c:626-635 | one data block into the buffer: what the walk leads to, on disk or zeros; that is the file's block, holes as zeros, unless a null indirect pointer is met |
| Ext2fs.Ext2.CopyBlocks | src/ide/ext2fs.c:622-647 | the block loop returns consecutive bytes of what the walk leads to and leaves the block that holds the position in the buffer; they are the file's bytes if and only if, wherever a null indirect pointer is met, block 0 leads to a zero byte |
| Ext2fs.Ext2.CopyLeftover | src/ide/ext2fs.c:606-620 | the bytes left from the last read come from the right place of the buffer and end with the block |
| Ext2fs.Ext2.Read | src/ide/ext2fs.c:595-650 | a call takes its first bytes from the buffer as it is and all others from the disk, and those are the file's under the same condition; a block that cannot be read ends it with -1 or 0, with the position moved by what was copied |
| Ext2fs.Ext2.ReadHeld | src/ide/ext2fs.c:595-650 | with the block still in the buffer a call returns one slice, never past the file's end; it is a slice of the file if and only if, wherever in it a null indirect pointer is met, block 0 leads to a zero byte |
| Ext2fs.Ext2.ReadSeries | src/ide/ext2fs.c:595-650 | any series of reads with no other look-up in between returns consecutive slices, under the same exact condition those of the file with holes as zeros, and stops early only at a block that cannot be read or below a null indirect pointer |
| Ext2fs.SliceIsMeantIff | src/ide/ext2fs.c:320-357 | bytes that the walk leads to are the file's if and only if, wherever a null indirect pointer is met, block 0 leads to a readable zero byte |
| Ext2fs.ZeroBlockHolesReadZero | src/ide/ext2fs.c:320-357 | with a block 0 of zeros that condition holds for every range of every file |
| Ext2fs.SparseFileMisread | src/ide/ext2fs.c:320-328 | a partition that the loader mounts and an inode read from it, of a sparse file of 12289 bytes, of which the loader reads 1 at position 12288 where the file holds 0 |
| Ext2fs.LeftoverRightIff | src/ide/ext2fs.c:606-620 | the bytes that a read takes from the shared buffer are right for every content another look-up may have left there if and only if the read asks for nothing or starts with a block |
| Ext2fs.Ext2.ReadTwoFiles | src/ide/ext2fs.c:606-620 | two open files read in turn, a byte each: the third read returns the second byte of the other file, right if and only if both files agree there |
| Ext2fs.TwoFilesDiffer | src/ide/ext2fs.c:606-620 | two inodes read from that partition, of files of two bytes whose second bytes are 2 and 0, for which that third read is wrong |
| Ext2fs.WantedIsClampedSum | src/ide/ext2fs.c:601-602 | a complete series of reads ends at the sum of the sizes asked for, or at the end of the file |
| Ext2fs.ClampIff | src/ide/ext2fs.c:601-602 | the request is cut to the file if and only if the 32-bit sum of position and request does not wrap to something inside the file |
| Ext2fs.Ext2.GetGdesc | src/ide/ext2fs.c:243-264 | whatever was looked up before, the cached look-up gives the descriptor that stands in the table on disk |
| Ext2fs.Ext2.GetInode | src/ide/ext2fs.c:269-297 | the inode found through the cached descriptor is the one a direct look-up gives |
| Ext2fs.InodeIsInItsTable | src/ide/ext2fs.c:275-294 | seen as a flat array, the bytes returned stand at the inode's place in the inode table of its group |
| Ext2fs.Ext2.Mount | src/ide/ext2fs.c:193-238 | succeeds if and only if superblock and first descriptor sector can be read and the magic number is right; then the cache holds the table's first sector |
| Ext2fs.TableBehindSuperblock | src/ide/ext2fs.c:227-228 | the descriptor table starts at the first block wholly behind the superblock |
| Ext2fs.GroupsCover | src/ide/ext2fs.c:223-224 | the number of groups is the smallest that covers the blocks, as long as the sum fits 32 bits |
| VctlRecords.RecordInPlace | src/sys/sys_vctl.c:146-168 | walking by the sizes in the records reaches record i where it lies |
| VctlRecords.StoredIsUnique | src/sys/sys_vctl.c:146-170 | bytes hold at most one row of records |
| VctlRecords.SaveIsReplaceIff | src/sys/sys_vctl.c:236-281 | the rewritten row is the old one with the new record in the place of the first of its type, all other records of the type gone, if and only if that leaves at least one byte of the store unused |
| VctlRecords.ReplaceAccount | src/sys/sys_vctl.c:243-281 | the new record is the only one of its type, the records of other types are the old ones in their order, and the count is theirs and one |
| VctlRecords.ReadsAfterReplace | src/sys/sys_vctl.c:97-174 | after a save every other type reads as before and the saved type as the new record |
| VctlRecords.GetAfterSave | src/sys/sys_vctl.c:97-323 | what a look-up returns after a save that had room: the saved record byte for byte, or what it returned before, and nothing at all once there are more than 128 records |
| VctlRecords.HistoryReads | src/sys/sys_vctl.c:97-323 | over any series of saves that find room the store is a map from types to what was saved last |
| VctlRecords.LeftOutSilently | src/sys/sys_vctl.c:261-288 | a record for which there is no room is left out of the row and the save goes on to return 0 |
| VctlStore.Store.Get | src/sys/sys_vctl.c:97-174 | the walk over the cached bytes finds the first record of the type, if it fits the caller's buffer and there are at most 128 records |
| VctlStore.Store.CopyRecords | src/sys/sys_vctl.c:236-283 | the copying loop builds the image of the saved row, with total and count that match it |
| VctlStore.Store.Save | src/sys/sys_vctl.c:179-323 | erase, program and refresh leave flash and cached copy holding the saved row; when allocation, erase or program fail the cached copy stays and -1 is returned |
| VctlStore.Store.constructor | src/sys/sys_vctl.c:66-70 | the cached copy starts as what the flash holds |
| VctlText.Cvt | src/sys/sys_printf.c:235-264 | digits produced last one first and turned round are the number's digits |
| VctlText.Convert | src/sys/sys_printf.c:531-563 | zero padding to the width, then the digits |
| VctlText.Sprintf | src/sys/sys_printf.c:71-102 | the text of all pieces, terminated by a zero, and no other byte of the buffer changed |
| VctlText.ValueOfDigits | src/sys/sys_string.c:286-292 | reading a printed decimal number gives the number back, for all 32-bit numbers |
| VctlText.ParseIpNumber | src/sys/sys_string.c:368-387 | the loops of str2ip read the four fields of the definition, and 0 when a dot is missing |
| VctlText.AddressReadBack | src/sys/sys_string.c:368-387 | a printed address is read back as itself, whatever follows it that is no digit |
| VctlText.FindStr | src/sys/sys_vctl.c:402-414 | the first place where the word matches, case ignored |
| VctlText.FoundBehind | src/sys/sys_vctl.c:402-414 | a word is found right behind a text in which its first letter does not occur |
| VctlText.HexReadBack | src/sys/sys_string.c:271-281 | two hexadecimal digits printed for a byte are read back as the byte |
| VctlIp.TextReadBack | src/sys/sys_vctl.c:444-461 | the text printed for three addresses is parsed back to the same three |
| VctlIp.IpRecord | src/sys/sys_vctl.c:477-502 | by the update path and by the create path the record has type and size that match it and fits the 128-byte buffer |
| VctlIp.IpRoundTrip | src/sys/sys_vctl.c:437-504 | setting three addresses and getting them returns the same three, for all addresses and by both paths, if the store has room |
| VctlIp.SetIp | src/sys/sys_vctl.c:471-504 | the store's row becomes the saved row for that record; when flash or memory fail it stays |
| VctlIp.GetIp | src/sys/sys_vctl.c:437-463 | the parse of the record found, an address that is not found keeping its value |
| VctlMac.MacRecord | src/sys/sys_vctl.c:359-396 | by both paths the record has type and size that match it and fits the buffer |
| VctlMac.MacReadBackIff | src/sys/sys_vctl.c:331-397 | both addresses are read back, whatever the reading buffer held before, if and only if the record saved reaches to the last digit; a new one always does |
| VctlMac.MacRoundTrip | src/sys/sys_vctl.c:331-397 | through the store: the two addresses set are the two got, and need no repair once a colon follows the second |
| VctlMac.SetMac | src/sys/sys_vctl.c:359-397 | the store's row becomes the saved row for that record |
| VctlMac.GetMac | src/sys/sys_vctl.c:331-353 | the digits at the fixed places of the record, with the write-back exactly when a zero stands behind an address |
| InetChecksum.IpCsum | src/net/chksum.h:18-50 | the word loop and the fold over a 32-bit sum compute the defined checksum, for odd and even lengths |
| InetChecksum.IsTheStandardOne | src/net/chksum.h:18-50 | the value returned is the complement of the one's complement sum in network byte order (section 1 of RFC 1071), although it is computed in the machine's order |
| InetChecksum.ZeroIff | src/net/chksum.h:42-49 | the checksum over some bytes is 0 if and only if their sum is a positive multiple of 65535 |
| InetChecksum.StoredIsZero | src/net/ip.c:117-124 | storing htons(ip_csum) in the zeroed field makes ip_csum 0, for all bytes, odd or even in number, and any sum before |
| InetChecksum.ChangedWordIsFound | src/net/chksum.h:18-50 | after a change of one word the check passes if and only if nothing changed or 0 and 65535 were exchanged |
| UdpDatagram.UdpPseudoSum | src/net/udp.c:147-170 | the sum of the six words of the pseudo header |
| UdpDatagram.UdpOutput | src/net/udp.c:239-298 | the datagram with the checksum of RFC 768, the complement of the one's complement sum, or nothing when the data is too long |
| UdpDatagram.TestChecksum | src/net/udp.c:67-75 | the test as udp_input makes it on whatever the length field names; true exactly for what RFC 768 calls correct, a length of 7 aside |
| UdpDatagram.PassesIff | src/net/udp.c:67-75 | the test of udp_input passes a datagram if and only if pseudo header and as many bytes as the length field names, a checksum of 0xffff made 0, have a one's complement sum of all ones; that is what RFC 768 and RFC 1071 ask for unless the length field is 7; one sent without a checksum gets no exception |
| UdpDatagram.BuiltIsAccepted | src/net/udp.c:264-298 | every datagram that udp_output builds passes the test and carries payload and ports |
| UdpDatagram.StoredChecksum | src/net/udp.c:297-298 | the stored checksum is never 0xffff, and 0 if and only if pseudo header and datagram have a sum of all ones without it |
| UdpSocket.Socket.Input | src/net/udp.c:51-141 | each exit of udp_input with what leads to it: a wrong checksum, no socket, overflow, the payload appended whole; and the copying loop that never ends when the length field is below 8, with what it has done to the ring |
| UdpSocket.Socket.Put | src/net/udp.c:117-126 | from a count of 0 or more the ring takes the bytes in order; from a negative one the loop has not ended with all of memory run through the ring |
| UdpSocket.Socket.Take | src/net/udp.c:389-397 | the ring hands out its oldest bytes, as many as there are or are asked for |
| UdpSocket.Socket.RecvFrom | src/net/udp.c:348-408 | waiting, error code, and the bytes handed out, with what came in while it waited |
| UdpSocket.QueueConserved | src/net/udp.c:108-135 | over any series of packets and receives, bytes handed out followed by bytes buffered are the accepted payloads, whole and in order |
| UdpSocket.LossSetsTheCode | src/net/udp.c:115-116 | no payload has been refused if and only if the error code has not been set |
| UdpSocket.CodeIsForEver | src/net/udp.c:364-373 | once set, the error code makes every receive that has to wait fail at its first poll |
| UdpSocket.WaitIsPoll | src/net/udp.c:364-373 | a waiting receive sees the packets of the polls it makes, in order |
| UdpSocket.PollIsRun | src/net/udp.c:366 | a poll is such a series of packets |
| UdpSocket.StuckIff | src/net/udp.c:62-126 | udp_input comes back from a row of packets if and only if none of them is for the socket, passes the checksum and has a length field below 8 |
| UdpSocket.ShortRunsOn | src/net/udp.c:62-126 | a packet with length field 4 from which it does not come back |
| UdpPath.EffectsOnSocket | src/net/enet.c:102-130 | whatever else a row of frames does, the socket goes through exactly the datagrams in those that are IP packets for this station, in order |
| UdpPath.PollFillsRing | src/net/udp.c:51-141 | the frames of a poll leave the ring with what it held, followed by the payloads among them that are for the socket and find room, whole and in order; the poll comes back if and only if it meets no datagram that udp_input does not come back from |
| UdpPath.ArrivedIsForSocket | src/net/udp.c:67-108 | a datagram in the headers that ip_output and enet_send write, padded or not, comes to udp_input of the stations it is addressed or broadcast to, passes the checksum and carries its payload; the socket takes it if and only if it is addressed to the station itself |
| UdpPath.StationToStation | src/net/udp.c:239-298 | what one station sends to the other payload by payload, enet_poll and udp_input of the other put into its ring, byte for byte and in order, as long as it fits, and the poll comes back |
| NetBuffers.Pool.InsertTail | src/net/net_buf.c:64-74 | the linked queue with one buffer more at its end, the other queue unharmed |
| NetBuffers.Pool.RemoveFirst | src/net/net_buf.c:79-94 | the first buffer and the linked queue without it |
| NetBuffers.Pool.constructor | src/net/net_buf.c:29-45 | all buffers in the free queue |
| NetBuffers.Pool.AllocBuf | src/net/net_buf.c:99-108 | the buffer taken moves from the free queue to the caller; every buffer stays in exactly one place |
| NetBuffers.Pool.FreeBuf | src/net/net_buf.c:113-124 | the buffer moves from the caller to the end of the free queue |
| NetBuffers.Pool.PutRcvq | src/net/net_buf.c:129-138 | the buffer moves from the caller to the end of the receive queue |
| NetBuffers.Pool.GetRcvq | src/net/net_buf.c:143-150 | the buffer moves from the receive queue to the caller |
| NetBuffers.TotalsAddUp | src/net/net_buf.c:18-150 | queue lengths and held buffers add up to the size of the pool |
| NetBuffers.Apart | src/net/net_buf.c:18-150 | queues and held buffers have nothing in common and no buffer is twice in one |
| NetInput.Net.EnetInput | src/net/enet.c:56-73 | a frame of a size that passes is copied into the first free buffer and queued behind the frames that wait, or lost when none is free; waiting frames are unharmed; of a frame longer than a data area the rest is written behind the buffer |
| NetInput.Net.Deliver | src/net/enet.c:100 | the arrivals that find a free buffer are queued in order; nothing is written behind a buffer if and only if they all fit |
| NetInput.Net.Dispatch | src/net/enet.c:109-129 | the effect of one frame, by its type, and one release of its buffer, unless udp_input does not come back; no other buffer moves or changes |
| NetInput.Net.DrainOne | src/net/enet.c:102-130 | one round: the first frame has its effect, its buffer goes to the end of the free queue or stays with a udp_input that does not come back, the frames behind it wait unharmed |
| NetInput.Net.Drain | src/net/enet.c:102-130 | every frame that waits has its effect, once and in order, and every buffer goes back to the free queue, once and in order, up to the first from which udp_input does not come back |
| NetInput.Net.EnetPoll | src/net/enet.c:90-132 | after any arrivals that fit their buffers, sent frames, the socket, the ARP table and the ping result are the effects of the frames that waited and of the arrivals that found a buffer, once each and in order; the receive queue is empty and held buffers are as before, unless udp_input does not come back and keeps one |
| NetInput.Net.EnetSend | src/net/enet.c:137-155 | the frame given to the driver, and the release of the buffer whether or not it is sent |
| NetInput.Net.IpInput | src/net/ip.c:28-89 | every path releases the buffer exactly once, except the one on which udp_input does not come back; what is sent, learnt and taken in is what the bytes of the frame call for |
| NetInput.Net.UdpInput | src/net/udp.c:51-141 | the ring afterwards, and one release on every exit of udp_input; the buffer stays with the copying loop that does not end |
| NetInput.Net.IpOutput | src/net/ip.c:97-127 | the header written in place, with a good checksum, and one release |
| NetInput.Net.IcmpInput | src/net/icmp.c:29-73 | one release on every path; an echo request with a good checksum is answered, and nothing else |
| NetInput.Net.PingListener | src/net/icmp.c:101-119 | one release on both paths, and the verdict on the identifier |
| NetInput.Net.ArpInput | src/net/arp.c:35-87 | one release on every path; a request for this machine is answered, an answer is learnt while one is waited for |
| NetInput.Net.ArpListener | src/net/arp.c:92-130 | the table learns the address |
| NetInput.LearntIsFound | src/net/arp.c:92-130 | the address learnt is found and all others resolve as before, unless the table is full |
| NetFrames.EchoComesBack | src/net/icmp.c:43-59 | an echo answer goes to the asker with good checksums and its data, and the same code at the asker takes it for the answer |
| NetFrames.ArpComesBack | src/net/arp.c:59-74 | an ARP answer goes to the asker and names this machine, and the same code at the asker takes it for the answer |
| NetFrames.IcmpVerdict | src/net/icmp.c:43-49 | an echo request of fewer than four bytes is never answered, as it cannot pass its checksum |
| PipelinedWrite.WaitFor | src/ide/libata-scsi.c:377-378 | ends only when the piece waited for has arrived; never, if the piece ends with the pattern |
| PipelinedWrite.ScanAhead | src/ide/libata-scsi.c:379-382 | counts pieces into one command only if all of them have arrived, also when they arrive during the scan |
| PipelinedWrite.WriteChunks | src/ide/libata-scsi.c:374-395 | for every schedule of in-order arrivals the commands cover the request from its first byte, each byte once, in ascending order, at the right sectors, and carry the data; it finishes exactly when the definition over the looks says so |
| PipelinedWrite.WriteXlat | src/ide/libata-scsi.c:371-398 | the same for the whole branch; a request shorter than a piece is sent as it lies in the buffer and always finishes |
| PipelinedWrite.AlwaysFinishesIff | src/ide/libata-scsi.c:374-395 | every schedule with enough looks behind the last arrival lets the write finish if and only if no piece ends with the pattern |
| PipelinedWrite.CoversWrites | src/ide/libata-scsi.c:383-393 | commands that cover a request put exactly its bytes at their sectors and touch nothing else |
| LinearArray.TouchedIsMeantIff | src/raid/raid.c:58-72 | the stretches touched are those of disk 0 followed by disk 1 if and only if the halved start and length do not just meet the boundary with an odd sector left over; requests in whole KB never do |
| LinearArray.HowFarPast | src/raid/raid.c:58-60 | a misjudged request runs one or two sectors past the first disk's share |
| LinearArray.Linear.Read | src/raid/raid.c:48-73 | gathers the stretches touched: the bytes of the flat array, or what lies behind the share on disk 0 for a misjudged request |
| LinearArray.Linear.Write | src/raid/raid.c:75-100 | scatters the data over the stretches touched: it changes the flat array by exactly the data and nothing behind the share; a misjudged request writes there |
| LinearArray.ReadBack | src/raid/raid.c:48-100 | what linear_write writes the same linear_read reads back, misjudged or not |
| LinearArray.ReadElsewhere | src/raid/raid.c:48-100 | after a write, a read that does not overlap it, neither of them misjudged, finds what it found before |
| LinearArray.MisjudgedIsNotFound | src/raid/raid.c:48-100 | a read that starts behind the first disk's share never finds what a misjudged write has put there |

## Left out

- BlockList.RunsStayGood: holds for the split with the old successor's back link repaired, which src/sys/sys_malloc.c does not do; for the code as written BlockList.AsWrittenRunsGoodIff has the exact condition.
- SysMalloc.Allocator.Free: a stored back link that leads out of the list is excluded; SysMalloc.PayloadReached shows what is found there.
- SysMalloc.Allocator.Malloc: the checks for corrupt tags are in the code modelled but never met, as callers write only into payloads they hold; sys_calloc and the free of NULL inside other code are not part of the model.
- Crc16.SysGenCrc16: models the host tool's copy; the device's copy calls a function that is not in the repository.
- Image.AddHeader: file names, opening and closing files and write errors are left out.
- Xmodem.Receiver.Read: must not be called again after a failure, when the code would copy -1 bytes; the statistics counters are left out.
- XmodemProtocol.TransferIsFaithful: damage that does not show, such as two number bytes that still complement each other, and acknowledgements that arrive late instead of never, are not part of the channel; the sender sends a block until it hears its acknowledgement. Damaged packets abort the transfer, as in the code.
- TftpGetRuns.GetIsFaithful: takes one datagram for each receive, a buffer of at least one byte and packets of at least four bytes; the server obeys RFC 1350 but may send an error at any time. Opening sockets, missing memory and the choice of ports are left out.
- TftpPut.PutIsFaithful: the same assumptions; the final empty block of a file of whole blocks is sent once and not waited for, as in the code.
- Ext2fs.Ext2.Read: requires that the 32-bit sum of position and request does not wrap into the file, the case that Ext2fs.ClampIff describes; block sizes above 4096 bytes do not fit the block buffer.
- Ext2fs.Ext2.ReadSeries: null indirect pointers are followed as in the code, so that a sparse file is read right only under the condition stated; Ext2fs.SparseFileMisread has an input.
- Ext2fs.Ext2.GetGdesc: a disk read that fails is taken to leave the cache as it was.
- Ext2fs.Ext2.Mount: a superblock with zero blocks or inodes per group, by which the code divides, is excluded. Directories, path names and symbolic links are left out; the latter have no bound.
- VctlStore.Store.Get: stores whose records do not fit together (sizes below 12 bytes or past the end) are excluded, as the code then reads outside the store; the NAND path, which does not refresh the cached copy, and the search for the partition are left out.
- VctlText.Sprintf: format strings are taken apart into text and conversions beforehand; text with line feeds, which get a carriage return, and conversions other than %d and %0nX are left out.
- VctlIp.GetIp: a record whose text has no end is excluded.
- VctlMac.GetMac: plain char is unsigned, as on the ARM processor of these boards.
- InetChecksum.Csum: sums of at most 65535 bytes, as much as a length field can name; the sum then fits 32 bits, if not always 31.
- UdpSocket.Socket.Input: there is one socket, as in the configuration, it has its buffer, and BOOTP is off; memory is readable as far as a length field can reach.
- UdpSocket.Socket.Put: a count that is negative is not followed through all 2^32 values of an int, as memory ends before.
- NetBuffers.Pool.FreeBuf: the tag check is left out, as no code changes a tag but the copying of a frame longer than a data area.
- NetInput.Net.EnetInput: what the code goes on to do with a header that the end of a frame of more than 2048 bytes has been written over is not followed.
- PipelinedWrite.WriteXlat: the pattern is taken to stand in every piece before its data arrives, and pieces to arrive in order; the USB side and the disk's registers are left out.
- LinearArray.Linear.Write: array sizes below 2 TB, so that doubling the size in KB does not overflow; mirrored disks, assembly of arrays and superblocks are left out as easier.
- Register, cache, timer, PCI and flash chip code, the menus, TCP and HTTP, ping and AoE, the NAND bad-block skip and the number parsers of sys_sscanf are left out; time is a sequence of events.
