# RexOS: a verified model of its core algorithms

RexOS is a small x86_64 operating system. This project models the parts of it
whose correctness is decided by code rather than by hardware, and proves what
they are for. `dafny verify dfyconfig.toml` checks everything.

| modules | part of RexOS |
|---|---|
| `Bits`, `Huffman`, `Deflate`, `DeflateEncoder`, `DeflateParser`, `DeflateStream`, `Inflate`, `Gzip` | the DEFLATE, zlib and gzip decoder (user/inflate.c) against RFC 1951, RFC 1950 and RFC 1952 |
| `Tcp`, `TcpNetwork`, `TcpProgress`, `TcpSocket` | the TCP data path (kernel/net/tcp.c) between two sockets over an unreliable network |
| `FatChains`, `Fat32` | cluster chains, allocation, reading and writing (kernel/fs/fat32.c) |
| `Pmm`, `PageTables`, `AddressSpaces`, `Vmm`, `VmmInit`, `VmmRuns` | the frame bitmap, four-level page tables, address spaces and the TLB flush rule (kernel/mm/pmm.c, kernel/mm/vmm.c) |
| `HeapBlocks`, `Heap`, `HeapRuns` | the kernel heap (kernel/mm/heap.c) |
| `Sched` | the scheduler's ring, dead list, reaper and context switch (kernel/sched/sched.c) |
| `Url`, `Chunked` | the URL parser and the chunked-body decoder (user/http.c) |
| `Checksum`, `Line` | the Internet checksum (kernel/net/net.c, kernel/net/tcp.c) and Bresenham's line (user/desktop/render.c) |

## How it is built

Each imperative part has two layers. A class or method keeps the source's own
fields, loops and branches, and is proved to compute a specification: a function
of the unread bits, the socket value, the file contents, the block list, the page
walk. The properties are then proved about the specification, or, where they
concern whole runs, carried as an invariant through a method that takes any
sequence of steps.

* **Inflate.** The specification decodes a sequence of bits; it is proved against
  an independent reference encoder for all three block kinds, in both directions,
  and against the code assignment of RFC 1951. The encoder has its own length and
  distance ranges, its own alphabet of code lengths and its own notion of a code
  that may be announced.
* **TCP.** A run is a sequence of network states. Segments are never removed from
  the set in flight, so loss, duplication and reordering are all covered. Runs
  start from two matched ESTABLISHED sockets; every send fits the free part of
  tx_buf; an arriving segment is less than 2^32 bytes old; each side closes at most
  2^30 times. The conditions but the last are exact or sharp
  (`HandshakeAlignedIff`, `SendKeepsMirrorIffFits` with `OversizedSendBreaks`, and
  `WrappedDuplicateAccepted` and `WrappedAckAccepted`, for the data and the
  acknowledgement of a segment). The buffer sizes are those of
  kernel/include/rexos/net.h. `TcpProgress` says what a socket must do: which
  segments it answers, repeats and sends, and that the protocol can always recover.
* **FAT32.** A file is a start cluster, a size, and the place and size of its
  directory entry; the ghost map of chains says which clusters it has. `Room` is
  what lies on the disk behind a file's start, so that a write beyond the end is
  described as well. There is one directory, whose clusters are reserved.
* **Paging.** Physical memory is a sequence of frames of 512 entries. A ghost map
  gives the level of every frame that is a table. Only kernel-half slots of
  PML4s may share a table. The TLB is any set of cached walks; a 2 MB walk is one
  entry. The four nested loops of vmm_destroy_user_pml4 are one method that
  calls itself on the next level. Frame 0 is reserved. vmm_init is taken from the
  point where it has its PML4.
* **Heap.** Memory is a sequence of cells with block headers between payloads.
  The ghost block list says where they are.
* **Scheduler.** Task structures live in a map from address to structure, and all
  list operations go through their next fields. The ring is read from the
  current task on, so that a switch is a rotation. The reaper's local variable and
  its progress are fields, so that it can be preempted between popping and each of
  its three frees; what it has freed may be in use again at once. Saving and
  restoring FPU state, loading CR3 and returning to a saved stack pointer are
  updates of abstract processor state.

## Where the code and its intention differ

* An all-zero length vector returns 0 from inf_construct (user/inflate.c:93), so
  a return of 0 means complete only for a non-empty code.
* The complement NLEN of a stored block is skipped, not checked
  (user/inflate.c:59-60).
* fat_alloc_cluster writes `0x0FFFFFFFFu`, which is 0xFFFFFFFF, and so does not
  keep the top four bits that fat_set_entry keeps (kernel/fs/fat32.c:181).
* fat32_write keeps sizes in 32 bits, so a write that ends at 4 GB or beyond
  shrinks the file, and fat32_update_dirent takes a size of 0xFFFFFFFF for "no
  change" (kernel/fs/fat32.c:364, kernel/fs/fat32.c:446-450).
* fat32_read adds offset and size in 64 bits; where that wraps, the read is not cut
  at the file's end (kernel/fs/fat32.c:324).
* A created file's first cluster is not zeroed (kernel/fs/fat32.c:686-688), so a
  write beyond the end can expose what the cluster held; `Volume.Write` says so.
* tcp_send_data sends bytes that do not fit tx_buf without keeping them
  (kernel/net/tcp.c:260-267), and a SYN-ACK is accepted whatever it acknowledges
  (kernel/net/tcp.c:415-422).
* The FIN_WAIT arms set ack without an order check (kernel/net/tcp.c:492-505);
  claims about ack are therefore made for ESTABLISHED, and `FinWaitAckIff` says when
  the arms get it right.
* A page of the kernel half mapped where the kernel's PML4 had no entry yet is not
  seen by the PML4s created before (kernel/mm/vmm.c:59-63, kernel/mm/vmm.c:211-214);
  `MapPage` says which spaces see a new page.
* A port with trailing text that is no path (`host:80abc`) is accepted and the
  text dropped (user/http.c:225-239); `DropsTextIff` says when.
* h_decode_chunked keeps the chunk size and the chunk's end in an int
  (user/http.c:344-359). A size that wraps below zero can lead it back for ever, and
  an end that wraps lets it read outside the body (`BackwardNeverEnds`,
  `BehindStrays`); `OverflowFreeIff` and `FitsDecodes` say when it is right.
* fat_alloc_cluster searches whole sectors of the FAT (kernel/fs/fat32.c:173-177), so
  that it can hand out a cluster behind the last one; `InsideIff` says when not.
* An in-place shrink by krealloc can leave two free neighbours
  (kernel/mm/heap.c:186-201); `ShrinkAdjacentIff` says when.

## Model

| member | source | states |
|---|---|---|
| `Huffman.KraftSlack` | user/inflate.c:95-109 | inf_construct's `left` is 2^15 minus the sum of 2^(15-length) over the used symbols, and no prefix goes negative exactly when that Kraft sum is at most 2^15 |
| `Huffman.DecodeIffCode` | user/inflate.c:70-85 | the count/first/index walk returns symbol s after k bits if and only if those k bits are s's canonical code of RFC 1951 section 3.2.2, for every accepted length vector |
| `Huffman.DecodeCode` | user/inflate.c:70-85 | a canonical code in front of any bits decodes to its own symbol and consumes exactly its own length |
| `Huffman.PrefixFree` | user/inflate.c:95-100 | no code of an accepted vector is a prefix of another symbol's code |
| `Huffman.CodeFits` | user/inflate.c:95-100 | every code of an accepted vector is a number below 2^length, within its length's range |
| `Huffman.CanonicalOrder` | user/inflate.c:95-109 | the two rules of RFC 1951 section 3.2.2: codes of one length are consecutive numbers in symbol order, and a shorter code with its extensions lies before every longer one |
| `Huffman.CompleteNeverBad` | user/inflate.c:84-100 | a code without slack never answers -9, whatever the input |
| `Huffman.SlackHasBadInput` | user/inflate.c:84-109 | with slack left, fifteen one-bits match no code and give -9 |
| `Huffman.BadInputIffIncomplete` | user/inflate.c:84-109 | some input makes an accepted code answer -9 if and only if the code is empty (where the source returns 0) or has slack |
| `Deflate.CopyIsPeriodic` | user/inflate.c:157-160 | byte i of a copied match, overlapping or not, is byte i mod distance of the last `distance` bytes |
| `Deflate.TruncationIsPrefix` | user/inflate.c:62-66 | if decoding succeeds with N bytes, every capacity of at least N gives the same result and every smaller one returns 1 with exactly the first bytes |
| `Deflate.ClLensField` | user/inflate.c:206-210 | the code-length code lengths are taken from the stream in the permuted order, zero beyond the transmitted ones |
| `DeflateEncoder.RoundTrip` | user/inflate.c:249-270 | decoding the bytes of any list of stored (with any padding and NLEN), fixed and dynamic blocks over any valid literals and matches, with any trailing bytes, returns 0 and exactly the LZ77 expansion |
| `DeflateEncoder.CopyExtendsPeriodically` | user/inflate.c:157-160 | a match appends the periodic extension of the last `distance` bytes |
| `DeflateEncoder.DecodeTokens` | user/inflate.c:128-164 | any encoded token list followed by end-of-block decodes to its expansion, for every pair of codes that covers the symbols used |
| `DeflateEncoder.ReadEncodedHeader` | user/inflate.c:191-244 | any dynamic header of a valid pair of codes, run-length coded with lengths, 3 to 6 copies of the length before, 3 to 10 zeros and 11 to 138 zeros, is read back as exactly these two length vectors |
| `DeflateEncoder.DecodeBlocks` | user/inflate.c:257-266 | a sequence of encoded blocks is decoded block by block up to the final one, from any bit position |
| `DeflateEncoder.FixedTable` | user/inflate.c:178-184 | the canonical codes of the fixed lengths are the code ranges printed in RFC 1951 section 3.2.6 |
| `DeflateEncoder.FixedDistTable` | user/inflate.c:183-184 | the fixed distance codes are the symbols as five bits |
| `DeflateEncoder.LengthCodes` | user/inflate.c:113-118 | the decoder's length bases and extra bits are the consecutive ranges of RFC 1951 section 3.2.5 |
| `DeflateEncoder.DistanceCodes` | user/inflate.c:119-125 | the same for distances |
| `DeflateEncoder.SentInOrder` | user/inflate.c:192-193 | the transmission order is 16, 17, 18, 0, then outward from 8 in both directions |
| `DeflateEncoder.UsableIff` | user/inflate.c:212-244 | the accepted code-length code is complete by its Kraft sum or empty; the accepted literal and distance codes are the complete, the single and the empty ones |
| `DeflateParser.DecodesIff` | user/inflate.c:249-270 | the decoder succeeds with an output if and only if the input starts with the encoding of some block list that expands to it and it fits: nothing but DEFLATE streams is accepted, up to NLEN and padding bits |
| `DeflateParser.StreamParsed` | user/inflate.c:257-266 | the block list, read back from any input that decodes |
| `DeflateParser.HeaderParsed` | user/inflate.c:191-244 | an accepted dynamic header is the encoding of the two codes it announces |
| `DeflateParser.TokensParsed` | user/inflate.c:128-164 | accepted block data is the encoding of valid literals and matches |
| `DeflateStream.MoreInput` | user/inflate.c:38-48 | unless a result is one of the two codes for missing input, whole bytes behind the input change neither code nor output; if it is, what was written stays a prefix |
| `DeflateStream.CutStream` | user/inflate.c:249-270 | any first part of a compressed stream gives a prefix of the data, and either all of it or a code for missing input |
| `DeflateStream.FarMatch` | user/inflate.c:147-147 | a match that reaches in front of the output gives -12 and writes nothing |
| `DeflateStream.FirstRepeat` | user/inflate.c:224-225 | a repetition before the first length gives -5 |
| `DeflateStream.LongRun` | user/inflate.c:233-234 | a repetition beyond the announced number of lengths gives -6 |
| `DeflateEncoder.EveryLengthHasSymbol` | user/inflate.c:113-118 | every match length 3 to 258 has a length symbol and extra bits |
| `DeflateEncoder.EveryDistanceHasSymbol` | user/inflate.c:119-125 | every distance 1 to 32768 has a distance symbol and extra bits |
| `Inflate.InfState.InfBits` | user/inflate.c:38-48 | returns the next `need` unread bits least significant first and removes exactly these, or sets err |
| `Inflate.InfState.InfDecode` | user/inflate.c:70-85 | the walk over the tables built by inf_construct is the walk of the Huffman model, with -99 and -9 |
| `Inflate.InfConstruct` | user/inflate.c:88-110 | negative exactly for over-subscribed lengths; otherwise the return value is the slack (0 for all-zero lengths) and the tables list the symbols in canonical order |
| `Inflate.InfState.InfStored` | user/inflate.c:51-67 | realigns, reads LEN, ignores NLEN, and copies or reports 1 or 2 like the specification |
| `Inflate.InfState.CopyBack` | user/inflate.c:151-160 | the byte-by-byte copy loops write the periodic copy |
| `Inflate.InfState.InfCodes` | user/inflate.c:128-164 | decodes literals and matches into the buffer exactly as the specification, with every error code |
| `Inflate.InfState.InfFixed` | user/inflate.c:167-188 | a fixed block is a block over the two fixed codes |
| `Inflate.InfState.InfDynamic` | user/inflate.c:191-247 | a dynamic block reads both codes and decodes with them, with every error code |
| `Inflate.InfState.ReadCodeLengths` | user/inflate.c:216-237 | the run-length coded lengths, with errors -5, -6, -9 and -99 |
| `Inflate.RexInflate` | user/inflate.c:249-270 | on every input and capacity terminates with the specification's return code, output length and output bytes |
| `Inflate.LengthTable` | user/inflate.c:113-118 | the length tables are the closed form of RFC 1951 section 3.2.5 |
| `Inflate.DistTable` | user/inflate.c:119-125 | the distance tables are the closed form of RFC 1951 section 3.2.5 |
| `Gzip.RexGunzip` | user/inflate.c:272-302 | -20 with nothing written for a broken gzip header, otherwise the result of inflating from the located start |
| `Gzip.HeaderSkipped` | user/inflate.c:278-291 | an RFC 1952 header with any combination of optional fields is skipped exactly |
| `Gzip.MemberIff` | user/inflate.c:277-292 | input with the gzip magic is accepted if and only if it is a whole header, with any method byte, and at least one byte behind it; otherwise -20 |
| `Gzip.GzipRoundTrip` | user/inflate.c:272-302 | gunzipping header + compressed blocks + any trailer gives back the expansion |
| `Gzip.ZlibRoundTrip` | user/inflate.c:294-298 | the same behind a two-byte zlib header |
| `Gzip.RawRoundTrip` | user/inflate.c:277-301 | a raw stream decodes to its expansion; it is taken for zlib exactly when it starts with a stored block whose first padding bit is set, more blocks follow, and the first two bytes are divisible by 31 |
| `Gzip.GzipMagicIsNotRaw` | user/inflate.c:277-278 | input with the gzip magic is no raw stream: inflated raw it fails with -1 |
| `TcpNetwork.EndToEnd` | kernel/net/tcp.c:432-478 | in every run over a lossy, duplicating, reordering network, in both directions: what a side has received is a prefix of what the other was given to send, ack counts it mod 2^32, rx stays within its buffer, and a FIN is consumed only after the whole stream |
| `TcpNetwork.SenderMirror` | kernel/net/tcp.c:194-207 | in every run, for both sides, tx is the sent stream from snd_una on, seq is snd_una plus its length (plus the FINs) mod 2^32, and the retransmission timer runs as long as tx is not empty |
| `TcpNetwork.EverySegmentTrue` | kernel/net/tcp.c:306-320 | every segment ever transmitted by either side, retransmissions included, carries the bytes of the stream at its sequence number |
| `TcpNetwork.RunInvariant` | kernel/net/tcp.c:376-512 | the joint invariant of both sockets and all segments in flight holds in every state of every run |
| `TcpNetwork.HandleAckMirror` | kernel/net/tcp.c:194-207 | any acknowledgement number, stale, partial or bogus, keeps the sender's mirror of the stream |
| `TcpNetwork.SendKeepsMirrorIffFits` | kernel/net/tcp.c:260-267 | a send keeps the mirror if and only if the data fits the free part of tx_buf |
| `TcpNetwork.HandshakeAlignedIff` | kernel/net/tcp.c:415-424 | a SYN-ACK leaves snd_una equal to seq if and only if it acknowledges iss+1; the socket becomes ESTABLISHED either way |
| `TcpNetwork.WrappedDuplicateAccepted` | kernel/net/tcp.c:439-449 | the age limit of the run theorems is sharp for data: a segment exactly 2^32 bytes old is appended again |
| `TcpNetwork.WrappedAckAccepted` | kernel/net/tcp.c:195-204 | and for acknowledgements: one exactly 2^32 old empties tx |
| `TcpNetwork.OversizedSendBreaks` | kernel/net/tcp.c:260-278 | what an oversized send leads to: after an acknowledgement past the kept bytes and a further send, a timeout transmits the later data with the sequence number of the lost bytes |
| `TcpNetwork.FinWaitAckIff` | kernel/net/tcp.c:492-505 | in the FIN_WAIT arms ack is the position after the received bytes and the FIN if and only if the FIN's segment ends where the received bytes do |
| `TcpProgress.Recovers` | kernel/net/tcp.c:294-323 | from every state that satisfies the run invariant, with both sides ESTABLISHED, retries left and room at the reader, there is a run (the timeout, its segments in order, the last acknowledgement) after which all that was sent is received and acknowledged and tx is empty |
| `TcpProgress.DataAnswered` | kernel/net/tcp.c:432-478 | every data segment is answered by exactly one acknowledgement of all that is received, with the free window; whatever its overlap it is appended up to its end if it leaves no gap and fits, and otherwise not at all |
| `TcpProgress.AckNotAnswered` | kernel/net/tcp.c:432-478 | an acknowledgement without data is not answered |
| `TcpProgress.FinAnswered` | kernel/net/tcp.c:463-473 | a FIN is taken if and only if the whole stream before it is here; it is answered by its acknowledgement and the own FIN at the end of the own stream |
| `TcpProgress.ClosingFinAnswered` | kernel/net/tcp.c:487-508 | a FIN at a closing socket is acknowledged and closes it |
| `TcpProgress.LastAckIff` | kernel/net/tcp.c:480-498 | LAST_ACK ends, and FIN_WAIT_1 advances, if and only if everything sent is acknowledged, FINs included |
| `TcpProgress.SendTransmits` | kernel/net/tcp.c:269-278 | the segments of a send are the data in full MSS pieces and a last one, numbered from the end of the stream, the last one pushed |
| `TcpProgress.MssKept` | kernel/net/tcp.c:171-190 | a peer that announces an MSS from 64 on gets no longer piece |
| `TcpProgress.HandshakeAnswered` | kernel/net/tcp.c:415-424 | a SYN-ACK is answered by the acknowledgement of its SYN; without an option the MSS is 536 |
| `TcpProgress.SynRepeated` | kernel/net/tcp.c:306-308 | an unanswered SYN is sent again with the same number and our MSS |
| `TcpProgress.CloseSendsFin` | kernel/net/tcp.c:333-342 | closing transmits one FIN at the end of the stream |
| `TcpProgress.ResetCloses` | kernel/net/tcp.c:405-411 | a reset closes the socket, stops the timer and is not answered |
| `TcpProgress.UpdateSent` | kernel/net/tcp.c:328-331 | a window update acknowledges all that is received |
| `TcpProgress.WindowHonest` | kernel/net/tcp.c:93-97 | every segment of every event advertises the part of rx that is free after it |
| `TcpProgress.AckRestarts` | kernel/net/tcp.c:194-207 | new data acknowledged clears the retries and restarts the timer, or stops it when tx is empty; anything else changes nothing |
| `TcpProgress.GivesUp` | kernel/net/tcp.c:294-304 | without an answer the waiting times double from 60 ticks on, tx is repeated six times, and the seventh timeout closes the socket |
| `Tcp.ChunksComplete` | kernel/net/tcp.c:269-278 | the transmitted chunks of one call carry exactly the data passed, in order |
| `TcpSocket.TcpSocket.HandleAckNow` | kernel/net/tcp.c:194-207 | the in-place acknowledgement is the socket function |
| `TcpSocket.TcpSocket.SendDataNow` | kernel/net/tcp.c:249-285 | the segmentation loop sends the specified segments and leaves the specified socket |
| `TcpSocket.TcpSocket.PollNow` | kernel/net/tcp.c:294-323 | timeout, retry limit, backoff and the retransmission loop for one socket |
| `TcpSocket.PollAll` | kernel/net/tcp.c:289-326 | the loop over the sockets polls each of them exactly once, and none affects another |
| `TcpSocket.TcpSocket.ReadNow` | kernel/arch/x86_64/syscall.c:555-584 | hands over the first bytes of rx, keeps the rest, sends a window update exactly when fewer than 2048 bytes were free, and returns the count, or NET_RECV_EOF exactly when rx is empty and the state is neither ESTABLISHED nor SYN_SENT |
| `TcpSocket.TcpSocket.CloseNow` | kernel/net/tcp.c:333-342 | FIN in every state but CLOSED |
| `TcpSocket.TcpSocket.ReceiveNow` | kernel/net/tcp.c:403-512 | the whole state machine of an arriving segment |
| `TcpSocket.TcpSocket.TakeData` | kernel/net/tcp.c:437-460 | overlap trimming: append only the new tail, and only when it fits |
| `TcpSocket.TcpSocket.FreeWindowNow` | kernel/net/tcp.c:93-97 | the advertised window is the free part of rx_buf, at most 65535 |
| `Fat32.Volume.Write` | kernel/fs/fat32.c:375-453 | writes exactly as many bytes as the file's and the free clusters hold behind the offset, and takes exactly the clusters that lack; at any offset the new contents are what the file's clusters held with the written bytes spliced in, cut to the 32-bit size; the entry's size follows unless it is 0xFFFFFFFF; no other file changes; chains stay acyclic, disjoint and terminated, the FAT copies agree, no cluster leaks |
| `Fat32.Volume.WrittenWithin` | kernel/fs/fat32.c:427-451 | at or before the end of the file, and below 4 GB, that is a splice of the old contents |
| `Fat32.Volume.Read` | kernel/fs/fat32.c:319-354 | the requested range of the contents, cut at the file's end; where offset + size wraps at 64 bits it is not cut and goes on to the end of the last cluster |
| `Fat32.Volume.WriteThenRead` | kernel/fs/fat32.c:319-453 | any range read after a write at any offset shows the written contents, with the exact number of bytes written |
| `Fat32.Volume.Create` | kernel/fs/fat32.c:680-731 | a new empty file in the first vacant directory entry, with one cluster unless none is free; without an entry, nothing changes and no cluster is lost; other files unchanged |
| `Fat32.Volume.FindFreeDirent` | kernel/fs/fat32.c:640-661 | the first vacant entry of the directory, if there is one |
| `Fat32.Volume.Unlink` | kernel/fs/fat32.c:796-838 | -1 for a file that is not there; otherwise its entry is deleted and exactly its clusters become free; no other file and no data changes |
| `Fat32.Volume.Run` | kernel/fs/fat32.c:375-838 | every sequence of creates, writes and unlinks keeps the volume's invariant and leaves every file it does not name as it was; the occupied FAT entries are always exactly the reserved ones and those of live files, and with the entries behind the last cluster reserved no file leaves the volume |
| `Fat32.InsideIff` | kernel/fs/fat32.c:169-193 | no table has a file beyond the last cluster of the volume if and only if the entries between that cluster and the end of the FAT's sectors, which fat_alloc_cluster searches too, are marked as taken |
| `Fat32.Volume.AllocCluster` | kernel/fs/fat32.c:169-193 | the first free cluster, marked 0xFFFFFFFF in both copies, or 0 exactly when none is free |
| `Fat32.Volume.SetEntry` | kernel/fs/fat32.c:153-166 | both copies get the low 28 bits and keep their own top four (`Replace`) |
| `Fat32.Volume.FreeChain` | kernel/fs/fat32.c:196-202 | frees every entry of the chain and no other |
| `Fat32.Volume.Seek` | kernel/fs/fat32.c:398-412 | finds the cluster of the offset, extending the chain with zeroed clusters |
| `FatChains.ChainDetermined` | kernel/fs/fat32.c:142-150 | a start cluster determines its chain: two well-formed chains with the same start are equal |
| `HeapBlocks.RunKeeps` | kernel/mm/heap.c:104-173 | in every kmalloc/kfree run the blocks tile the heap in address order and no two neighbours are free |
| `HeapBlocks.AllFreeIsInitial` | kernel/kmain.c:198-203 | once everything has been freed the heap is one free block of total - 32 bytes |
| `HeapRuns.Run` | kernel/mm/heap.c:104-209 | in every run of kmalloc, kfree, krealloc and owners' stores on the heap's memory, headers and links stay exact and payloads no step names keep place and bytes; without krealloc no two free blocks are neighbours, and with nothing live the heap is the initial block |
| `HeapBlocks.PayloadsDisjoint` | kernel/mm/heap.c:114-129 | payloads of different blocks do not overlap and lie inside the heap, behind their headers |
| `HeapBlocks.ShrinkAdjacentIff` | kernel/mm/heap.c:186-201 | a shrink in place leaves two free neighbours if and only if it splits in front of a free block |
| `HeapBlocks.AlignUpCoversIff` | kernel/mm/heap.c:46-49 | rounding up covers the request if and only if the 64-bit addition does not wrap |
| `HeapBlocks.CarveTrims` | kernel/mm/heap.c:116-127 | a split leaves the block with n to n + 47 bytes, makes only free blocks of at least 16 bytes, and costs the free bytes exactly the block and one header |
| `HeapBlocks.Conservation` | kernel/mm/heap.c:213-229 | used bytes, free bytes and headers always add up to the heap |
| `Heap.Heap.Malloc` | kernel/mm/heap.c:104-133 | the payload of the first block that fits, NULL if and only if none does; the block keeps fewer than 48 bytes more than the rounded request, and the rest of it is free again but for a header; headers and both links stay exact; no live payload is touched |
| `Heap.Heap.Free` | kernel/mm/heap.c:151-173 | NULL is ignored, a free block panics, otherwise the block is released and coalesced both ways and no other payload changes |
| `Heap.Heap.Realloc` | kernel/mm/heap.c:177-209 | which block results, in every case, with fewer than 48 bytes more than the rounded request; a shrink stays in place and gives the rest back; the first min(old, new) bytes and every other payload are kept; failure changes nothing |
| `Heap.Heap.Stats` | kernel/mm/heap.c:213-229 | the exact counters, which add up to the heap, and the true largest free block |
| `Pmm.TestAfter` | kernel/mm/pmm.c:47-61 | setting or clearing a bit of the bitmap changes that bit alone |
| `Pmm.Pmm.AllocFrame` | kernel/mm/pmm.c:170-190 | the first free frame from the hint on, cyclically; 0 if and only if no frame is free, whatever the hint; used_frames stays the number of set bits |
| `Pmm.Pmm.AllocFrames` | kernel/mm/pmm.c:192-217 | the leftmost free run of two or more frames, 0 if and only if there is none |
| `Pmm.Pmm.FreeFrame` | kernel/mm/pmm.c:219-227 | frees exactly that frame; foreign and already free frames are ignored |
| `Pmm.Pmm.FreeFrames` | kernel/mm/pmm.c:229-234 | frees exactly the range |
| `PageTables.SamePageIff` | kernel/mm/vmm.c:34-37 | two addresses have the same four indices if and only if bits 12 to 47 agree |
| `PageTables.UserHalfIff` | kernel/mm/vmm.c:206-214 | the slots below 256 are the addresses below 2^47 |
| `PageTables.CreatedWalk` | kernel/mm/vmm.c:56-71 | creating an intermediate table changes no translation of any address space |
| `PageTables.TableUnique` | kernel/mm/vmm.c:83-88 | walks that share a table share all upper indices, and the PML4 too unless in the kernel half |
| `PageTables.LeafTranslate` | kernel/mm/vmm.c:90-90 | writing a leaf maps that page, changes no other page of any space, and for user addresses nothing in any other space |
| `PageTables.LeafWalk` | kernel/mm/vmm.c:90-90 | the walks a leaf write changes are exactly those that end in its slot |
| `PageTables.CreatedWellFormed` | kernel/mm/vmm.c:56-71 | the tables stay trees that share only kernel-half subtrees |
| `PageTables.ForkedTranslate` | kernel/mm/vmm.c:198-217 | a new PML4 translates user addresses to nothing and kernel addresses like the kernel's; other spaces are unchanged |
| `PageTables.CreatedUser` | kernel/mm/vmm.c:56-71 | a new table joins the frames of exactly the address space whose user half contains its parent |
| `PageTables.LeafUser` | kernel/mm/vmm.c:90-90 | a newly mapped frame joins exactly the address space whose user half contains the leaf table |
| `AddressSpaces.PathOwner` | kernel/mm/vmm.c:198-217 | the tables on a user page's path belong to that one address space, those of a kernel page to none |
| `AddressSpaces.CreatedGrew` | kernel/mm/vmm.c:83-88 | a table created on a page's path keeps every walk and every reference and adds its own frame to the right space alone |
| `AddressSpaces.WithoutWellFormed` | kernel/mm/vmm.c:219-253 | after a space is destroyed no remaining table refers to one of its frames |
| `Vmm.Vmm.GetOrCreate` | kernel/mm/vmm.c:56-71 | the present table, or a fresh zeroed frame linked with the intermediate flags; reports out of memory or a 2 MB page |
| `Vmm.Vmm.MapPage` | kernel/mm/vmm.c:75-105 | success stores the entry and changes exactly the walks of that page in this PML4 and in those that shared its slot; failure changes no translation at all; it is out of memory if and only if more tables are missing on the path than frames are free, and takes exactly the missing ones; panics exactly on a 2 MB page; the flush rule keeps the TLB coherent |
| `Vmm.Vmm.MapHuge2MB` | kernel/mm/vmm.c:111-125 | the 2 MB page is mapped in the kernel's space whatever was there, and no other page of any space changes; it fails if and only if more tables are missing than frames are free |
| `VmmInit.Init` | kernel/mm/vmm.c:257-306 | if vmm_init does not panic, HHDM offset + p translates to p for every p below 4 GB, and byte a of the kernel's image to its physical base + a; it panics only without a free frame or when the image meets a 2 MB page |
| `VmmInit.MapAndTranslate` | kernel/mm/vmm.c:75-186 | after a page has been mapped, byte d of it translates to byte d of the frame |
| `VmmInit.BesideIff` | kernel/mm/vmm.c:34-37 | two addresses lie in the same 2 MB if and only if bits 21 to 47 agree |
| `Vmm.UserSlotsApart` | kernel/mm/vmm.c:198-217 | no two PML4s share a slot of the user half, so that a user page is mapped in one address space alone |
| `Vmm.UnflushedIff` | kernel/mm/vmm.c:98-103 | without a flush every coherent TLB stays coherent if and only if the loaded PML4 does not share the slot, or the page was unmapped, or was already mapped to the same frame |
| `Vmm.CachedAnswer` | kernel/mm/vmm.c:92-97 | a coherent TLB's answer for any covered address is the page tables' answer |
| `Vmm.Vmm.UnmapPage` | kernel/mm/vmm.c:127-146 | the 4 KB or 2 MB page disappears, no other page changes, the TLB stays coherent; false if and only if a table is missing on the path |
| `Vmm.Vmm.TranslatePml4` | kernel/mm/vmm.c:168-186 | the unrolled walk is the recursive one, with 0 for no mapping |
| `Vmm.Vmm.CreateUserPml4` | kernel/mm/vmm.c:198-217 | a fresh frame with an empty user half and the kernel's upper half; 0 if and only if no frame is free |
| `Vmm.Vmm.DestroyUserPml4` | kernel/mm/vmm.c:219-253 | returns exactly the frames of the user half and the PML4; does nothing for the kernel's PML4 and for 0 |
| `Vmm.Vmm.LoadCr3` | kernel/sched/sched.c:440-443 | reloading only on a change, which empties the TLB, keeps it coherent |
| `VmmRuns.RunEvents` | kernel/mm/vmm.c:75-146 | after any sequence of mappings, unmappings, new spaces, CR3 switches and hardware fills every cached entry is what a walk of the loaded CR3 finds |
| `VmmRuns.RunRequests` | kernel/mm/vmm.c:75-253 | over any interleaving of creating spaces, mapping fresh frames at unmapped user pages, CR3 switches, hardware fills and destroying spaces that are not loaded, with freed frames used again as tables and pages: the bitmap is the original one plus the disjoint frames of the live spaces, no cached entry is stale, and with none alive the bitmap is the original one |
| `VmmRuns.LedgerDestroy` | kernel/mm/vmm.c:219-253 | destroying one space takes away its frames alone; all others keep theirs |
| `Sched.Run` | kernel/sched/sched.c:71-446 | every interleaving of creation, computation, timer requests, interrupts, exits and single reaper steps keeps the invariant, and the panic is never reached |
| `Sched.RunToward` | kernel/sched/sched.c:397-446 | a waiting task that resumes finds exactly the context it was suspended with and its own CR3; with no task created it comes one place nearer at each switch and runs after k |
| `Sched.Fairness` | kernel/sched/sched.c:140-153 | the task k places behind the current one is k - j places behind after any j switches, dead or alive |
| `Sched.Scheduler.MaybeSwitch` | kernel/sched/sched.c:397-446 | what one switch does to ring, dead list, saved contexts, CPU and CR3; never panics |
| `Sched.Scheduler.PickNextReady` | kernel/sched/sched.c:140-153 | the first READY task behind the current one, else the current one unless it is DEAD |
| `Sched.Scheduler.ListRemove` | kernel/sched/sched.c:121-136 | unlinks the current task from its predecessor; the list head stays, or moves to the next task if it was the one removed |
| `Sched.Scheduler.Insert` | kernel/sched/sched.c:110-119 | a new task goes right behind the list head; the ring stays circular and every invariant holds |
| `Sched.Scheduler.Exit` | kernel/sched/sched.c:367-382 | marks the current task DEAD and asks for a switch |
| `Sched.Scheduler.ReaperPop` | kernel/sched/sched.c:76-79 | the head of the dead list passes to the reaper |
| `Sched.Scheduler.FreePml4` | kernel/sched/sched.c:87-89 | the PML4 (not the kernel's) of an exited task that is not current; no other task has it and it is not loaded in CR3 |
| `Sched.Scheduler.FreeStack` | kernel/sched/sched.c:90-92 | the stack of an exited task that is not current and shares it with none |
| `Sched.Scheduler.FreeTask` | kernel/sched/sched.c:93-93 | the task structure; its number is from then on freed |
| `Url.RoundTrip` | user/http.c:203-255 | an accepted URL's normalized text is accepted and parses to the same scheme, host, port, path and text |
| `Url.SameTextIff` | user/http.c:242-253 | two accepted URLs have the same normalized text if and only if all their parts agree |
| `Url.ParseNormalized` | user/http.c:203-255 | the canonical text of any canonical URL parses back to that URL |
| `Url.AtoiDecimal` | user/http.c:149-153 | reading a printed number gives the number, up to 2^31 - 1, and stops at the first non-digit |
| `Url.AcceptedIsCanonical` | user/http.c:218-240 | what an accepted URL looks like: host and path within bounds, port 1 to 65535, path starting with a slash |
| `Url.ParseUrl` | user/http.c:203-255 | the loops compute the specified parse on every input |
| `Url.DropsTextIff` | user/http.c:218-240 | text of an accepted URL is dropped if and only if something that does not start with a slash follows the port's digits; otherwise the URL spells exactly the parsed host, port and path |
| `Url.DroppedText` | user/http.c:225-239 | `host:80abc` is accepted as `http://host/` |
| `Url.AcceptedIff` | user/http.c:203-255 | a text is accepted as a URL if and only if the URL's parts are in bounds and the text is its scheme, host, optional port in digits with its value, and path, or after a port text that is dropped |
| `Url.DefaultPorts` | user/http.c:203-253 | without a port https has 443 and http 80, neither is printed, and a missing path is a slash |
| `Url.StrcatLimit` | user/http.c:117-124 | appends what fits into max - 1 characters and says whether that was all |
| `Url.AppendIntLimit` | user/http.c:179-192 | appends the decimal notation, or fails exactly when it does not fit |
| `Chunked.RoundTrip` | user/http.c:340-375 | any chunked body of RFC 9112 section 7.1, also with bare line feeds, with fewer than 2^31 characters is decoded by the loop, in 32-bit arithmetic, to its payload cut to the buffer, and truncation is reported if and only if something was cut |
| `Chunked.SizePrinted` | user/http.c:344-352 | the sizes are exactly the numbers printed in base 16, in letters of either case and with any leading zeros |
| `Chunked.CutBodyIsPrefix` | user/http.c:340-375 | the part of a body that has arrived decodes to a prefix of the payload if every size line reached in it announces a chunk that ends before position 2^31, as is the case whenever the whole body has fewer than 2^31 characters |
| `Chunked.OverflowFreeIff` | user/http.c:344-359 | no round of the loop overflows an int if and only if every size line reached announces a chunk that ends before position 2^31 |
| `Chunked.FitsDecodes` | user/http.c:344-359 | for those bodies the loop ends, with the output and the flag of a decoder without integer width |
| `Chunked.BackwardNeverEnds` | user/http.c:344-359 | the body `00000000fffffff0` CR LF has size -16: after any positive number of rounds the loop is at position 2 again, with nothing written |
| `Chunked.BehindStrays` | user/http.c:355-369 | the body `7ffffffc` CR LF `ab` passes the truncation test by overflow and is read outside its bounds, for any buffer that is not empty |
| `Chunked.DecodeChunked` | user/http.c:340-375 | on every input and for any number of rounds the index loops compute the specified state: position, output, flag, whether an int overflowed, and whether an access left the body |
| `Checksum.FoldMod` | kernel/net/net.c:17-19 | carry folding is reduction modulo 65535 that gives 65535, not 0, for non-zero multiples |
| `Checksum.ZeroIff` | kernel/net/tcp.c:386-391 | recomputation gives 0 if and only if the word sum is a non-zero multiple of 65535 |
| `Checksum.FilledIsZero` | kernel/net/tcp.c:137-138 | storing the checksum in its zeroed field makes recomputation return 0, for even and odd lengths |
| `Checksum.FieldPassesIff` | kernel/net/tcp.c:386-391 | a field value passes if and only if it is the computed one, or all ones where 0 was computed |
| `Checksum.WordChangeDetected` | kernel/net/tcp.c:386-391 | any change to one word is noticed unless it exchanges 0x0000 and 0xFFFF |
| `Checksum.SentIsAccepted` | kernel/net/tcp.c:67-90 | with the pseudo-header, what tcp_output fills in is what tcp_receive accepts |
| `Checksum.PseudoSum` | kernel/net/tcp.c:69-78 | the pseudo-header adds both addresses, protocol 6 and the 16-bit length, in network order |
| `Checksum.MisdeliveryDetected` | kernel/net/tcp.c:386-391 | a segment that passes for two addresses does not pass when one word of them differs, 0x0000 and 0xFFFF aside |
| `Checksum.ByteOrder` | kernel/net/net.c:7-21 | summing little-endian words gives the byte-swapped network-order checksum of RFC 1071, so the stored bytes are the standard's |
| `Checksum.SafeLengthIsSharp` | kernel/net/net.c:9-13 | 131074 bytes is the longest data whose sum always fits 32 bits: two more can overflow |
| `Checksum.NetChecksum` | kernel/net/net.c:7-21 | the 32-bit accumulator loop, with its wrap; the true checksum up to 131074 bytes |
| `Checksum.TcpChecksum` | kernel/net/tcp.c:67-90 | the same for pseudo-header and segment |
| `Line.DrawLine` | user/desktop/render.c:305-320 | over unbounded coordinates, terminates for all endpoints after exactly max(abs(dx), abs(dy))+1 pixels from start to end, each a major-axis step from the last and within half a pixel of the true line; the error term and its double reach at least twice the difference of the extents and at most three times the longer one, and for an axis-parallel line exactly twice its length: ints suffice for extents up to a third of 2^31 - 1, and for such a line exactly below 2^30 |

## Left out

- Fat32.Volume.Run: one directory; long names, names in general (a file is identified by its node), mkdir, directory caching and mounting are not modelled.
- Fat32.Volume.AllocCluster: disk transfers and kmalloc succeed, there are two FAT copies, and one FAT entry is one table element; the sector arithmetic that locates it is not modelled. A cluster behind the last one is disk space like any other.
- Fat32.Volume.Unlink: a file that is still open elsewhere is not modelled.
- TcpNetwork.EndToEnd: RST segments (neither end of a run sends one), the handshake itself (beyond `HandshakeAlignedIff`) and tcp_release are not steps of the runs; congestion and the peer's window, which the code does not implement, are not modelled. That the network does deliver is no assumption of a run; `TcpProgress.Recovers` shows that one exists in which it does.
- TcpSocket.PollAll: the linked list of sockets is a sequence; ports and the reset sent for unknown segments are not modelled.
- TcpSocket.TcpSocket.ReceiveNow: the segment is one whose header length and checksum were accepted and that belongs to this socket; callbacks are absent and the option walk of tcp_parse_options is one optional MSS value.
- TcpSocket.TcpSocket.ReadNow: the waiting loop before the read is not modelled.
- Vmm.Vmm.MapPage: an entry is a record of frame, PRESENT, HUGE and remaining flags rather than 64 packed bits; addresses are taken modulo 2^48 by the index macros as in the source, and canonical form is not checked; what the flags of the entries on a path permit is not modelled.
- Vmm.Vmm.DestroyUserPml4: destroying the loaded PML4 is not claimed to keep the invariant; the scheduler model shows that it does not happen.
- VmmRuns.RunRequests: pages that were not freshly allocated, such as a framebuffer mapped into a task, and remapping a mapped page are not requests; remapping drops the old frame in the source. Kernel mappings, whose tables belong to no space, are in `RunEvents`.
- VmmRuns.RunEvents: kernel-half pages are mapped through the kernel's PML4 only, as the source does; `UnflushedIff` says exactly what happens otherwise. Destroying is in `RunRequests`.
- VmmInit.Init: the log output, Limine's answer and the kernel's end symbol are parameters or absent; the tables that held CR3 before are not modelled.
- Heap.Heap.Free: pointers that are no payload of a block are not modelled, nor is the corruption check's panic on them.
- Heap.Heap.Realloc: a pointer to a block that has already been freed, which the source would resize, is outside its requirement.
- Sched.Run: one processor; task_create and task_spawn_user are one step with unused address, stack and PML4; task names, TSS.RSP0, entry points, the user launcher and sched_dump are absent.
- Sched.RunToward: the initial register frame built by task_create is the context given to a new task.
- Url.ParseUrl: the parsed structure is only described for accepted URLs; the wrap of h_atoi at 32 bits is modelled as two's complement.
- Chunked.DecodeChunked: overflow of an int is taken as two's complement, as h_atoi's; the loop, which need not end, is run for a number of rounds; what an access outside the body reads is not modelled, the run is over there; bodies have fewer than 2^31 characters, as body_len is an int; the final NUL is implicit.
- Line.DrawLine: coordinates are unbounded integers; the exact 32-bit condition for lines that are not axis-parallel and longer than a third of 2^31 - 1 is not stated; clipping by rd_pixel is not modelled.
- Checksum.TcpChecksum: segments longer than the 16-bit length field are covered by the 32-bit wrap, not excluded.
- Inflate.InfState.InfBits: the bit buffer is an unbounded number; at most 20 bits are ever in it, so the source's int does not overflow.
- Gzip.RexGunzip: the CRC-32 and length at the end of a member are not checked, as in the source.
- TLS, entropy, fonts, the desktop, drivers, interrupt entry code, DHCP, DNS, ICMP, UDP, Ethernet, ARP, ELF loading, tarfs, VFS lookup, the HTTP connection loop and the user-space allocator are not modelled: they are hardware plumbing, user interface, or would add only easy members.
