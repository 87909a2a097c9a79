# The aesdchar device and its socket server

A Dafny model of the aesdchar character device and of the two socket servers that sit in front of
it, with proofs of what they do over runs of any length.

The device takes a stream of bytes through `write` and cuts it into *commands*: written bytes
collect in one pending command until its last byte is a newline, and then it is committed to a ring
of ten slots. The last ten commands, end to end, are one flat file that any number of open files
read and seek in. The server lets each client write chunks to the device under one mutex until a
chunk contains a newline, and then sends the visible contents back.

| file | what it holds |
|---|---|
| `Streams.dfy` | byte strings, concatenation, positions inside a concatenation |
| `Slots.dfy` | where the last ten elements of a history sit in ten slots |
| `CircularBuffer.dfy` | the ring: the class, its add and search, and its closed form over unbounded runs |
| `DeviceLog.dfy` | the device as a stream: writes, commits, commands against lines |
| `DeviceView.dfy` | the visible contents: reads, read loops, sizes, both kinds of seek |
| `KernelHeap.dfy` | kmalloc, krealloc, kfree, memcpy over an explicit set of blocks |
| `AesdChar.dfy` | the device class: write, read, llseek, ioctl, cleanup, and who owns which block |
| `OpenFiles.dfy` | interleaved calls on many open files |
| `Server.dfy` | one connection of the device-backed server |
| `Packets.dfy` | connections one after another, and when packets stay whole |
| `AppendServer.dfy` | the file-backed server, and the replies of the two servers compared |
| `Protocol.dfy` | many clients contending for the mutex, as steps; every run is a serial one |
| `Guarantees.dfy` | atomic packets, replies and progress in every run |
| `ThreadList.dfy` | the server's linked list of threads |

Two abstract values carry the model. `DevLog` is the history of all committed commands and the
pending one; `Visible(history)` is the last ten. The class `AesdDevice` holds the real state (slots,
offsets, the pending entry, the heap) and ghost copies of its history; its invariant says that the
ring is the closed form of that history and that the heap holds exactly one block for each command
ever committed and one for the pending command. Every method is proved to act on the `DevLog` and
the file position as a function in `DeviceLog` and `DeviceView` says, and the theorems are about
those functions.

Where the code does not have the property one would expect of it, the exact condition is proved:

- The ring tells an occupied slot by its size, so it keeps the last ten entries exactly if no
  evicted entry was empty (`RingRefinesHistory`). The header calls `full` "full"; the code sets it
  when the eleventh entry arrives, not the tenth.
- The commands are the lines of the stream exactly if newlines only end writes (`CommandsAreLines`).
- The ioctl counts commands from slot 0, not from the oldest one, so it finds "command k" as a
  reader numbers commands exactly if the slot sizes do not change when the ring is turned to its
  oldest slot (`IoctlMeansLogicalCommand`). After it a read starts with the byte asked for of the
  command in that slot exactly if the slots read from slot 0 are the contents
  (`IoctlFindsItsByteExactly`): always up to ten commands, not for some eleven
  (`IoctlMissesItsByte`).
- Growing a pending command copies its old bytes a second time, from where they were before
  krealloc. A write conserves the stream for sure exactly if nothing was pending or the block was
  not moved (`ConservesExactlyInPlace`).
- The server unlocks after a chunk with a newline anywhere in it, and on an error some time before
  the process ends; the device commits on a last byte. Packets of different clients stay apart
  exactly if, served one at a time in any order, each client sends nothing or bytes that end in a
  newline (`AtomicExactlyInSerialOrders`). For clients that send no data after a seek this can be
  read off each client's own chunks (`AtomicExactlyForCleanClients`).
- A seek that does not parse or finds no byte makes the server exit; a client that closes before a
  newline leaves the mutex locked; all others are answered (`EndsExactly`, and `EndsInRuns` and
  `ServeNextClient` for interleaved clients). No seek succeeds before the first command. Every
  client is answered in every run exactly if every client sends a newline and nothing but data up
  to it (`AnswersExactlyForAnswerableClients`).

## Model

| member | source | states |
|---|---|---|
| Streams.LocateInverse | aesd-char-driver/aesd-circular-buffer.c:44-58 | finding a position in a concatenation fails exactly past the end, and otherwise gives the only pair (k, o) with o inside part k and the earlier parts making up the rest |
| Streams.FlatSlice | aesd-char-driver/aesd-circular-buffer.c:20-28 | byte o of part k is byte prefix(k) + o of all parts end to end |
| Slots.SlotsInOrder | aesd-char-driver/aesd-circular-buffer.h:43-50 | the ten slots read from the oldest one are the last ten elements of the history, then unused slots |
| Slots.TenAreHeld | aesd-char-driver/aesd-circular-buffer.c:75-87 | up to ten elements are all held; each one after them evicts the oldest and no other |
| CircularBuffer.CircularBuffer.constructor | aesd-char-driver/aesd-circular-buffer.c:92-95 | all slots, offsets and the flag start out zero |
| CircularBuffer.CircularBuffer.AddEntry | aesd-char-driver/aesd-circular-buffer.c:68-87 | an addition to any ring, empty entries included: the slot at in_offs and no other is replaced, in_offs moves on, and out_offs and full change only if the slot it overwrites is the oldest and not empty |
| CircularBuffer.CircularBuffer.FindEntryOffsetForFpos | aesd-char-driver/aesd-circular-buffer.c:30-59 | no slot exactly when the position is at or past the total; otherwise slot and offset are those of the one logical position that names it; no sum leaves size_t |
| CircularBuffer.RingOfSnoc | aesd-char-driver/aesd-circular-buffer.c:75-87 | an addition keeps the closed form if and only if the ring was not yet full of entries or the entry to evict is not empty |
| CircularBuffer.RingRefinesHistory | aesd-char-driver/aesd-circular-buffer.c:68-95 | over a run of any length the ring is the closed form of its history (in_offs = N mod 10, out_offs 0 or N mod 10, full iff N > 10) at every point if and only if no evicted entry was empty |
| CircularBuffer.RingHoldsLastTen | aesd-char-driver/aesd-circular-buffer.c:61-87 | with non-empty entries, the slots from out_offs are the last ten entries in order and empty slots; full means more than ten were added |
| CircularBuffer.EmptyEntryBreaksRing | aesd-char-driver/aesd-circular-buffer.c:76-80 | an empty first entry: the eleventh add then overwrites it without advancing out_offs |
| KernelHeap.KernelHeap.Kmalloc | aesd-char-driver/main.c:142-148 | a new block that was not allocated before, or NULL and no change |
| KernelHeap.KernelHeap.Memcpy | aesd-char-driver/main.c:178 | the bytes of the range and no others are replaced |
| KernelHeap.KernelHeap.Load | aesd-char-driver/main.c:176 | the bytes of an allocated block; from a released address, bytes that come from outside |
| KernelHeap.KernelHeap.Krealloc | aesd-char-driver/main.c:167-174 | the grown block keeps its bytes, in place or moved; a failure changes nothing |
| KernelHeap.KernelHeap.Kfree | aesd-char-driver/main.c:387-390 | frees a block that is allocated, and only that one |
| DeviceLog.BytesConserved | aesd-char-driver/main.c:142-195 | over any writes, all commands and then the pending one are exactly the bytes written, in order |
| DeviceLog.ByteTenCommits | aesd-char-driver/main.c:183-192 | a write commits everything pending and its own bytes as one command exactly if its last byte is 10 |
| DeviceLog.WritesKeepSettled | aesd-char-driver/main.c:183-192 | every command ends in a newline, the pending one never does, and committed commands never change |
| DeviceLog.LinesOfSplits | aesd-char-driver/main.c:184 | a stream is its newline-terminated lines and an unterminated tail |
| DeviceLog.SplitUnique | aesd-char-driver/main.c:184 | a stream splits into lines in one way only |
| DeviceLog.CommandsAreLines | aesd-char-driver/main.c:159-192 | the commands are the lines of the stream and the pending command its tail if and only if no write has a newline before its last byte |
| DeviceLog.ChunkingIrrelevant | aesd-char-driver/main.c:159-192 | two such ways of cutting one stream into writes leave the same device |
| DeviceLog.CommandsAreLineGroups | aesd-char-driver/main.c:183-192 | with arbitrary writes, each command is one or more whole lines of the stream, in order |
| DeviceLog.CommitCount | aesd-char-driver/main.c:183-192 | never more commands than newlines written, and as many if and only if newlines only end writes |
| DeviceLog.InnerNewlineMergesLines | aesd-char-driver/main.c:184 | two writes that make one command of two lines |
| DeviceView.ReadIsSlice | aesd-char-driver/main.c:96-116 | a read returns the next bytes of the flat contents; none only at the end or for count 0 |
| DeviceView.ReadStaysInside | aesd-char-driver/main.c:103-113 | a read stays within one command and stops short of count only at that command's end |
| DeviceView.ReadManyLinesUp | aesd-char-driver/main.c:96-116 | reads with any buffer sizes join up without gap or overlap |
| DeviceView.ReadManyComplete | aesd-char-driver/main.c:96-116 | with positive buffer sizes everything has been read as soon as a read is empty, and as many reads as bytes are enough |
| DeviceView.ReadBlocksComplete | server/aesdsocket.c:233-239 | the read loop returns exactly what follows its position, in non-empty blocks that fit the buffer |
| DeviceView.ReadCount | server/aesdsocket.c:233-239 | from position 0 the loop makes exactly ceil(size / count) non-empty reads for each visible command |
| DeviceView.SizeIgnoresRotation | aesd-char-driver/main.c:268-286 | the slot sizes summed from slot 0 equal the length of the contents in logical order |
| DeviceView.LocateIgnoresPadding | aesd-char-driver/aesd-circular-buffer.c:45-58 | the unused slots after the held commands are never found |
| DeviceView.SeekInvertsLocate | aesd-char-driver/main.c:245-258 | seeking to a command and finding the command at a position are inverses |
| DeviceView.SeekLandsInside | aesd-char-driver/main.c:249-258 | an accepted ioctl, after any number of evictions, lands on a byte, so the next read is not empty and starts with that byte |
| DeviceView.AgreeingSeeksHaveSameSizes | aesd-char-driver/main.c:245-258 | two slot-size vectors give the same seeks on all 32-bit arguments if and only if they are equal |
| DeviceView.IoctlMeansLogicalCommand | aesd-char-driver/main.c:245-258 | the ioctl means "logical command k, offset o" for all arguments if and only if turning the ring to its oldest slot leaves the slot sizes as they are |
| DeviceView.IoctlRightAtSlotZero | aesd-char-driver/main.c:245-258 | it does while N <= 10 and whenever 10 divides N |
| DeviceView.IoctlThenReadIsCommand | aesd-char-driver/main.c:245-258 | where it does, the next read returns command k from offset o |
| DeviceView.IoctlWrongAfterEviction | aesd-char-driver/main.c:249-254 | eleven commands for which it does not |
| DeviceView.IoctlFindsItsByteExactly | aesd-char-driver/main.c:245-258 | whatever slot and offset the ioctl accepts, the next read starts with that byte of the command in that slot, if and only if the slots read from slot 0 are the contents, byte for byte |
| DeviceView.IoctlFindsItsByteAtSlotZero | aesd-char-driver/main.c:245-258 | it does while N <= 10 and whenever 10 divides N |
| DeviceView.IoctlMissesItsByte | aesd-char-driver/main.c:249-258 | for the same eleven commands: the ioctl to slot 0, offset 0 takes the reader to another byte than the first of the command in slot 0 |
| DeviceView.SeekEndReadsTail | aesd-char-driver/main.c:204-230 | SEEK_END with offset -d and reading on gives exactly the last d bytes |
| AesdChar.Numbers | aesd-char-driver/aesd_ioctl.h:37-40 | the error numbers, the limits of the C types, and the ioctl's number put together from its direction, size, type and index |
| AesdChar.AesdDevice.Write | aesd-char-driver/main.c:124-202 | succeeds exactly if kmalloc, copy_from_user and, with a command pending, krealloc do, wherever krealloc puts the block: returns the number of bytes, moves the position by it, and the pending command, kept or spoilt by the second copy, has accumulated exactly the bytes; otherwise ENOMEM or, if only the user copy failed, EFAULT, and nothing changed, the heap included; the heap still holds one block for each command ever committed and one for the pending command, none shared |
| AesdChar.WriteConserves | aesd-char-driver/main.c:165-195 | a successful write appends its bytes to the stream and changes no other if and only if the second copy kept the old bytes |
| AesdChar.ConservesExactlyInPlace | aesd-char-driver/main.c:167-178 | it does so for sure, whatever the released block holds, if and only if nothing was pending or krealloc did not move the block |
| AesdChar.AesdDevice.GrowPending | aesd-char-driver/main.c:159-183 | fails exactly if a call it makes does; otherwise the pending command is what the second copy left of the old one and the new bytes, in a block of its own, and the temporary block is gone |
| AesdChar.AesdDevice.AppendToPending | aesd-char-driver/main.c:167-181 | krealloc, the copy from the old address, the copy of the new bytes and the free, in that order: the grown block holds both, or on failure the heap is as it was |
| AesdChar.AesdDevice.IntactKernel | aesd-char-driver/main.c:167-176 | a kernel in which only kmalloc may fail, as told, and krealloc moves the block or not, as told, and that has not yet reused the block it released, keeps the pending bytes |
| AesdChar.AesdDevice.CopyIn | aesd-char-driver/main.c:142-157 | a new block with the user's bytes, or an error and the heap as it was |
| AesdChar.AesdDevice.Read | aesd-char-driver/main.c:77-122 | the bytes of the flat contents that one command holds from the position on, and the position moved by their number; unchanged at the end and on a failed copy |
| AesdChar.AesdDevice.Llseek | aesd-char-driver/main.c:204-230 | SEEK_SET moves to off, SEEK_CUR to position + off, SEEK_END to total + off, each exactly if that lies in [0, total], with 64-bit wrap-around in the sums; anything else, and any other whence, is EINVAL and no move |
| AesdChar.AesdDevice.Ioctl | aesd-char-driver/main.c:232-266 | each error case, and otherwise the position that the slot sizes from slot 0 give |
| AesdChar.AesdDevice.GetBufferSize | aesd-char-driver/main.c:268-286 | the length of the visible contents |
| AesdChar.AesdDevice.SumSlots | aesd-char-driver/main.c:249-252 | the sizes of the first n slots, summed from slot 0 |
| AesdChar.AesdDevice.BlockCount | aesd-char-driver/main.c:142-192 | between calls the allocated blocks number min(N, 10) held, max(0, N - 10) evicted and one if a command is pending |
| AesdChar.AesdDevice.Cleanup | aesd-char-driver/main.c:384-391 | frees each held command's block, once; the evicted ones and the pending one stay allocated |
| AesdChar.SearchServesRead | aesd-char-driver/main.c:96-104 | what the search finds in the slots is a live block with the bytes that the flat position names |
| AesdChar.SlotsNameVisible | aesd-char-driver/main.c:385-391 | the slots name exactly the blocks of the held commands |
| OpenFiles.Perform | aesd-char-driver/main.c:77-266 | a call on the device object acts on the device and on its own file as the run model says, and moves no other file; NextMoves and OutputIsSlice say in numbers what that is |
| OpenFiles.PerformAll | aesd-char-driver/main.c:77-266 | a whole run of calls on the device and file objects: device, every position and every output are those of the run model |
| OpenFiles.NextMoves | aesd-char-driver/main.c:77-266 | in numbers, where each call leaves its file; a failed or refused one leaves it where it was, no call moves another file, and only a successful write changes the device |
| OpenFiles.OutputIsSlice | aesd-char-driver/main.c:96-116 | a read returns nothing exactly at the end or for count 0, and otherwise the next bytes of the contents within one command |
| OpenFiles.SeekBackReadsAgain | aesd-char-driver/main.c:106-119 | seeking back by what a read returned and reading again gives the same bytes, anywhere |
| OpenFiles.RelativeSeeksAdd | aesd-char-driver/main.c:204-230 | two relative seeks, the first accepted, are one by the sum of the offsets |
| OpenFiles.ReadAfterIoctl | aesd-char-driver/main.c:245-258 | in any run, after an ioctl to a byte that slot k has, the next read of that file, if nothing is committed in between, is not empty and starts with the byte that the slot sizes from slot 0 name, which is byte o of the command in slot k where IoctlFindsItsByteExactly says |
| OpenFiles.ReadAfterLlseek | aesd-char-driver/main.c:204-230 | in any run, after an accepted llseek to p the next read of that file starts at p, whatever happens on other files |
| OpenFiles.RefusedSeekIsNothing | aesd-char-driver/main.c:204-255 | a seek outside the contents, or an ioctl to a slot without that byte, is as if it had not been made |
| OpenFiles.AllWritesKept | aesd-char-driver/main.c:77-266 | over any interleaving of calls on any files the device holds the successful writes and nothing else |
| OpenFiles.ReadsAreSlicesOfTheStream | aesd-char-driver/main.c:90-116 | in any interleaving, a read with a positive count returns bytes exactly if its file is before the end of the contents, and these are a slice of the final committed stream, inside one command, at evicted bytes + position |
| OpenFiles.ReaderGetsPrefix | aesd-char-driver/main.c:90-116 | until the first eviction a file that is only read receives the stream from its start |
| Server.HandleClient | server/aesdsocket.c:162-251 | the device, the reply and the end of a connection are those of Serve, which Packets.EndsExactly, ServingIsOneWrite and ReplyOf describe; the mutex stays locked exactly when the client closed before a newline |
| Server.HandleChunk | server/aesdsocket.c:179-247 | one turn of the receive loop: done with the mutex unlocked, or on with it locked |
| Server.SendRest | server/aesdsocket.c:233-239 | sends exactly the blocks of the read loop, with one read more than blocks |
| Server.ReplyFrom | server/aesdsocket.c:233-239 | the reply is the contents from the position on; from the start it takes the exact number of reads |
| Packets.ServingIsOneWrite | server/aesdsocket.c:179-247 | however its bytes arrive and however it ends, a client is one write of what it sent; unless the server exits that is its packet, and it is answered if it sends a newline and otherwise leaves the mutex locked |
| Packets.EndsExactly | server/aesdsocket.c:179-250 | the server exits if and only if the client reaches a seek that does not parse or names no byte of a slot; otherwise the client is answered if and only if it sends a newline; only an answered client is sent anything |
| Packets.SeekIsServed | server/aesdsocket.c:196-243 | a client that seeks to a byte that a slot has is sent the contents from that byte on, and the device stays as it was |
| Packets.SeekIntoOneCommand | server/aesdsocket.c:196-243 | the device holds "a NL": a client that seeks to command 0, byte 1 is sent the newline |
| Packets.LostChunkLeavesNoTrace | server/aesdsocket.c:218 | a lost write without a newline, anywhere in what a client sends, is as if it had not been sent |
| Packets.LostChunkIsAnswered | server/aesdsocket.c:218-239 | a lost write whose chunk has a newline is answered with the device as it was |
| Packets.ChunksJoin | server/aesdsocket.c:179-221 | two data chunks, the first without a newline, are served as one with the bytes of both, anywhere in what a client sends |
| Packets.ExitsAtASeek | server/aesdsocket.c:190-215 | a client that makes the server exit does so at the first failing seek that it reaches, and has sent the data before it |
| Packets.SeekExitsEmptyDevice | server/aesdsocket.c:200-207 | on a device without commands no seek succeeds: a client that reaches one makes the server exit |
| Packets.DataIsServed | server/aesdsocket.c:216-219 | a client whose received chunks are all data never makes the server exit |
| Packets.ReplyOf | server/aesdsocket.c:221-239 | the reply is all visible contents after data, and after a seek the contents from the position that the slot sizes give |
| Packets.ServingAllWrites | server/aesdsocket.c:177-247 | clients in a row, exits included, are the writes of what each has sent |
| Packets.SurvivorsSendPackets | server/aesdsocket.c:177-247 | if none makes the server exit, they have sent their packets |
| Packets.PacketsStayWhole | server/aesdsocket.c:216-243 | at every release the commands are the packets, one each, with nothing pending, if and only if every packet is empty or ends in a newline |
| Packets.InnerNewlineMixesClients | server/aesdsocket.c:221 | a chunk with an inner newline: two clients' bytes in one command |
| Packets.ExitMixesClients | server/aesdsocket.c:209-214 | a byte and then a seek that does not parse: the mutex is unlocked with the byte pending, and the next client's bytes are committed with it |
| Packets.CleanScriptSendsClean | server/aesdsocket.c:179-247 | a clean client sends nothing or bytes that end in a newline, on any device and also if it makes the server exit |
| Packets.CleanOnNewDevice | server/aesdsocket.c:179-247 | a client that sends no data after a seek is clean if and only if what it does to a new device is |
| AppendServer.AppendFile.Append | server/aesdsocket_old.c:99-107 | O_APPEND writes go to the end; a failed one changes nothing |
| AppendServer.AppendFile.Read | server/aesdsocket_old.c:121 | the next bytes of the file, as many as fit |
| AppendServer.SendFile | server/aesdsocket_old.c:118-124 | the loop sends the whole file |
| AppendServer.OldServesExactly | server/aesdsocket_old.c:97-133 | the client's packet goes to the end of the file; a client that sends a newline is sent the whole file, its packet last, and one that closes before is sent nothing |
| AppendServer.OldHandleClient | server/aesdsocket_old.c:82-133 | the packet goes to the end of the file; answered exactly if the client sends a newline, with the whole file, and otherwise nothing is sent |
| AppendServer.SameClientBothServers | server/aesdsocket_old.c:97-129 | one client at both servers: the file stays the device's whole stream, both answer exactly if it sends a newline, and otherwise both send nothing |
| AppendServer.RepliesOfBothServers | server/aesdsocket_old.c:97-129 | with any chunks: both servers answer exactly the clients that send a newline; the file server's reply is evicted commands, then the device server's reply, then the pending bytes; equal if and only if at most ten commands were committed and nothing is pending |
| AppendServer.RepliesAreLastTenPackets | server/aesdsocket.c:179-246 | with one packet a client: the device server sends the last ten packets of what the file server sends, the same if and only if there are at most ten |
| Protocol.RunsAreSerial | server/aesdsocket.c:177-250 | every reachable state of any clients is that of serving them one at a time in locking order: all but the last have ended, answered or in cleanup, early disconnects and clients served between an exiting thread's unlock and the end of the process included |
| Protocol.LockKeepsSerial | server/aesdsocket.c:177 | locking the mutex starts a client on the device its predecessors left |
| Protocol.ReceiveStaysOnTheWay | server/aesdsocket.c:179-230 | handling a chunk keeps a client on the way to what serving it alone gives, which Packets.EndsExactly and ReplyOf describe; an error unlocks the mutex and leaves the process running |
| Protocol.SendStaysOnTheWay | server/aesdsocket.c:236-243 | sending a block, or finding no more, does too |
| Protocol.EndKeepsSerial | server/aesdsocket.c:106-131 | the end of the process, a later step of a thread in cleanup, leaves all others where they are |
| Guarantees.PacketsAreAtomic | server/aesdsocket.c:177-250 | in every reachable state of clean clients: mutex free, the commands are what the served clients sent, in locking order, and nothing is pending; holder receiving, its chunks since it locked are pending; holder replying, its packet is the last command; holder gone, its packet is pending |
| Guarantees.OrderIsReached | server/aesdsocket.c:177-250 | every order in which clients could be served one at a time is the locking order of some run |
| Guarantees.ServeNextClient | server/aesdsocket.c:177-250 | while the mutex is free a run can go on with any waiting client to its end: it is answered if it sends a newline and all seeks it reaches find their byte, and otherwise exits or leaves the mutex locked |
| Guarantees.EndsInRuns | server/aesdsocket.c:177-250 | in every run a locker is judged on the device its predecessors left: in cleanup only if it reached a seek that fails there, gone with the mutex locked only without a newline, answered only with one and no failing seek; what it has been sent so far starts what serving it alone sends |
| Guarantees.AtomicExactlyInSerialOrders | server/aesdsocket.c:177-247 | any clients: packets are atomic in every interleaved run if and only if they are when the clients are served one at a time, in every order |
| Guarantees.AtomicExactlyForCleanClients | server/aesdsocket.c:177-247 | clients that send no data after a seek: packets are atomic in every run if and only if what each completing client writes is empty or ends in a newline and each client that can make the server exit has written nothing before |
| Guarantees.SeekMayShieldUncleanData | server/aesdsocket.c:200-207 | with data after a seek a client can be unclean and packets atomic all the same |
| Guarantees.RepliesInRuns | server/aesdsocket.c:221-243 | in every run of clean clients an answered data client has got the last ten commands with its own packet last, and a seek client the contents from the position that the slot sizes give |
| Guarantees.RunsCompareServers | server/aesdsocket_old.c:97-129 | any data clients, in every interleaved run: the file server, serving the same clients in locking order, sends the evicted commands, the client's reply and the pending bytes; equal if and only if at most ten commands were committed and nothing is pending |
| Guarantees.RunsMatchFileServer | server/aesdsocket_old.c:97-129 | with one packet a client, the reply is the last ten packets of the file server's, equal exactly for the first ten clients |
| Guarantees.StopsExactly | server/aesdsocket.c:177-250 | no step is left if and only if the process has ended, or no thread is in cleanup and all clients have been answered or one has left with the mutex locked |
| Guarantees.DisconnectEndsTheRun | server/aesdsocket.c:247-250 | after an early disconnect no client takes another step and nothing changes, but for the end of the process if another thread is already in cleanup |
| Guarantees.RunsAreFinite | server/aesdsocket.c:179-243 | every step leaves strictly less to do in a well-founded order |
| Guarantees.CompletingClientsAreAnswered | server/aesdsocket.c:177-247 | if every client sends a newline and the server stays up, a run that stops has answered them all |
| Guarantees.AnswersExactlyForAnswerableClients | server/aesdsocket.c:177-250 | any clients: every run answers every client if and only if each sends a newline before it closes, and only data up to it |
| Guarantees.SeekClientMayBeUnanswered | server/aesdsocket.c:200-207 | a lone seek that completes but is not sure of its answer |
| Guarantees.SoloRun | server/aesdsocket.c:177-250 | every client has a run in which it is served first, on the new device: to its reply, its disconnect or its exit, as its chunks say |
| ThreadList.ThreadList.AddThread | server/aesdsocket.c:44-55 | a new node in front of the old chain, which stays as it was |
| ThreadList.ThreadList.FindThread | server/aesdsocket.c:60-80 | the first node with the tid and the node before it, or none |
| ThreadList.ThreadList.Unlink | server/aesdsocket.c:67-76 | the chain without that node, which is freed |
| ThreadList.ThreadList.RemoveThread | server/aesdsocket.c:58-81 | unlinks and frees the first node with the tid and no other; no such node, no change |
| ThreadList.ThreadList.JoinThreads | server/aesdsocket.c:84-95 | joins every listed thread in order, frees every node once, and leaves an empty list |
| ThreadList.PerformAll | server/aesdsocket.c:44-81 | a whole run of additions and removals on the linked list leaves the tids of the run model |
| ThreadList.ListIsOutstanding | server/aesdsocket.c:44-81 | at every point of a run the list is the tids added and not removed since, newest first, if and only if no step removes a tid that is listed twice |
| ThreadList.AddedOnceIsOutstanding | server/aesdsocket.c:44-81 | so whenever each tid is added at most once |

## Left out

- AesdChar.AesdDevice.Write: a write of no bytes is excluded, because line 184 of aesd-char-driver/main.c then reads the byte before the block; the bytes the driver can reach are bounded by SSIZE_MAX and the file position by LLONG_MAX, which the kernel checks before the call.
- Server.HandleChunk: the server's writes run in a kernel that has not yet reused a block it has just released, so that the second copy of line 176 of aesd-char-driver/main.c keeps the pending bytes; ConservesExactlyInPlace says what holds without that. Server.HandleClient, Packets, Protocol and Guarantees build on it.
- OpenFiles.Perform: its writes run in such a kernel too, and so do those of OpenFiles.PerformAll.
- DeviceLog.BytesConserved: the writes it speaks of are successful and conserve the pending bytes.
- DeviceView.IoctlMeansLogicalCommand: commands longer than 2^32 bytes are excluded, because the ioctl's offset cannot tell their lengths apart.
- AppendServer.RepliesOfBothServers: the seek text of server/aesdsocket.c is plain data to server/aesdsocket_old.c, so only data clients are compared; a write lost at one server is lost at the other.
- Guarantees.AtomicExactlyForCleanClients: clients that send data after a seek are excluded, because whether that data is ever received depends on what the other clients have committed; SeekMayShieldUncleanData shows that the equivalence then fails, and AtomicExactlyInSerialOrders gives the exact condition for all clients.
- Interrupted waits for the device's lock, after which the driver unlocks a lock it does not hold: taking the lock always succeeds, and each device call is one atomic step. aesd_ioctl reads the slots without the lock; it too is one step.
- A failing open, lseek or send, partial sends, and a reply cut short by a failing copy_to_user.
- Telling a seek chunk from data: strncmp and sscanf over a buffer that is not terminated. A chunk arrives already classified.
- The plain-file build of server/aesdsocket.c and its timestamp thread: server/Makefile selects the device build.
- Data races on the thread list, and join_threads while threads are still removing themselves: each list operation is one step.
- Module setup, device numbers, sockets, signals, daemonizing, logging, and the files outside aesd-char-driver/ and server/.
