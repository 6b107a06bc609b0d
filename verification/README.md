# BMX firmware and tools: models and proofs

BMX runs a Commodore emulator on bare Raspberry Pi hardware. This project models six
of its components in Dafny and proves what they promise.

- **File cache** (`FileCache.dfy`). A handle is backed by FatFs or by a RAM copy: cached
  at open, cached by the first seek, or spilled once it outgrows 512 KiB. Whatever backs
  it, and whatever FatFs answers, it behaves as a byte sequence with a cursor. FatFs may
  fail any call and shorten any write, unless the medium is declared sound: then the
  handle gives exactly the answers of the plain byte sequence.
- **Async network slots** (`ByteQueue.dfy`, `AsyncNet.dfy`, `AsyncDelivery.dfy`).
  One worker and any number of client calls share eight slots. Every critical section is one atomic step and every
  network call one step with an arbitrary answer. The theorems hold in every state that
  any interleaving reaches.
- **Configuration detection and migration** (`Config*.dfy`, `AreaDigest.dfy`,
  `Consent.dfy`, `Sorting.dfy`). `ConfigText` has the readers and the writers that invert
  them, `ConfigDetect` the detectors as scans, `ConfigHeaders`, `ConfigBlock` and
  `ConfigCmdline` what each rewrite does to each area, `ConfigApply` the outcome of a
  request and exactly when it is Ok, `ConfigLossless` completeness, `ConfigAssess` the
  assessment and its promises. `ConfigExact` says on
  the lines alone which files the detectors accept, `ConfigStatus` which status a request
  gets. `ConfigReaders` and `ConfigWriters` are the loops and buffers, proved against
  those specifications.
- **Path policy** (`PathPolicy.dfy`, `PathPriority.dfy`). Matchers, the overlap test,
  the validation that lets one table stand for two boards, what priority means, and the
  compiled classifier.
- **Pi 5 scan-out** (`Scanout.dfy`). The PLL divider search and the linked display list.
- **CRC-32** (`Crc32.dfy`). What it detects, and the first burst length it does not.

Characters stand for bytes in the configuration modules. Integers are unbounded; where a
32- or 64-bit width matters the bound or the wrap-around is written out.

Where code and documentation differ, the model follows the code. The header says that
`ApplyConfigChange` resets every `written` field on failure
(src/update/config_migration.h); the code skips this for a table of more than 16 outputs,
and `ConfigWriters.ApplyConfigChange` states both cases. A comment in
tools/sd_layout.py says that dropping covered exact paths does not change target
semantics; `Projections.NormalizationKeepsOthers` proves it for every other path and
`Projections.DroppedKeepsMode` gives the exact condition for the dropped path itself, which
`Projections.ProjectionCanChangeMode` shows can fail. Staging and device disagree on some short
names (`Projections.PatternMeetsGlob`). Specific rules come first only across kinds of
patterns (`PathPriority.NarrowerFirst`); within a kind the text decides
(`PathPriority.BroaderSuffixDecides`).

## Model

| member | source | states |
|---|---|---|
| FileCache.CircleFile.EnsureCapacity | src/new_io.cpp:552-585 | the doubling loop ends at or below 512 KiB; the buffer grows to the requested size without changing the logical file, fails with EFBIG exactly above the limit and with ENOMEM only when memory is short |
| FileCache.CircleFile.ReadExact | src/new_io.cpp:618-636 | fills the buffer with exactly the bytes from the FatFs pointer on, whatever pieces FatFs delivers them in; on a sound readable medium it fails only at the end of the file |
| FileCache.CircleFile.WriteExact | src/new_io.cpp:638-656 | stores exactly the first n bytes from the FatFs pointer on, whatever short writes FatFs makes |
| FileCache.CircleFile.CacheFile | src/new_io.cpp:660-697 | on success the RAM copy is the file's bytes; on failure buffer, capacity and cached mark are as before; never above the limit; with a sound medium only lack of memory stops it |
| FileCache.CircleFile.FlushCachedFile | src/new_io.cpp:699-718 | on success disk and medium hold exactly the cached bytes, cut to their length; a clean cache is not written at all |
| FileCache.CircleFile.SyncFile | src/new_io.cpp:522-533 | on success the medium holds what FatFs presents |
| FileCache.CircleFile.SpillCache | src/new_io.cpp:720-734 | on success the handle is direct, its FatFs pointer is its position and the logical file is unchanged; a failed flush leaves cache and logical file as they were |
| FileCache.CircleFile.OpenFatFs | src/new_io.cpp:753-823 | a fresh direct handle on the bytes the flags keep, positioned for append, or a refusal with the slot still free |
| FileCache.CircleFile.Open | src/new_io.cpp:753-852 | the logical file starts as the flags say; the handle is cached exactly for small read-write files and truncated write-only files; a failed open leaves the slot free; on a sound medium it fails only when f_open must refuse |
| FileCache.CircleFile.Read | src/new_io.cpp:899-950 | the bytes returned are the logical file's at the cursor and the cursor moves past them, for cached and direct handles alike; every refused call leaves the whole state untouched |
| FileCache.CircleFile.ReadCached | src/new_io.cpp:899-950 | the cached half returns the requested slice of the RAM copy and advances by its length |
| FileCache.CircleFile.ReadDirect | src/new_io.cpp:899-950 | the direct half returns the slice at the FatFs pointer and keeps pointer and position together |
| FileCache.CircleFile.Write | src/new_io.cpp:952-1028 | a negative length or a null buffer is refused without effect; otherwise append moves to the end first and the bytes accepted are spliced into the logical file at the cursor; a cached write is all or nothing; on a sound medium with memory everything is accepted |
| FileCache.CircleFile.WriteData | src/new_io.cpp:972-1028 | the same of the bytes themselves |
| FileCache.CircleFile.WriteHere | src/new_io.cpp:992-1028 | a write at the cursor, through a spill when the cache would outgrow the limit, stores a non-empty prefix of the data in the logical file or reports -1; a handle still cached after a failure has its old logical file |
| FileCache.CircleFile.MoveToEnd | src/new_io.cpp:984-990 | append positioning keeps pointer and position together |
| FileCache.CircleFile.StoreCached | src/new_io.cpp:1003-1028 | the cached half stores all of the data or changes nothing |
| FileCache.CircleFile.StoreDirect | src/new_io.cpp:1007-1028 | the direct half stores the prefix FatFs took and keeps pointer, position and size together |
| FileCache.CircleFile.Fsync | src/new_io.cpp:1223-1239 | 0 means the disk equals the logical file and nothing is left to write, also after earlier failed flushes; -1 on a cached handle changes nothing |
| FileCache.CircleFile.Lseek | src/new_io.cpp:1241-1285 | the new position is the target; targets outside the file and unknown origins are refused without an effect; the lazy caching of a read-only file does not change the logical file |
| FileCache.CircleFile.SeekTo | src/new_io.cpp:1271-1285 | the seek itself: caches a small read-only file, falls back to a direct seek when memory is short, keeps the bytes |
| FileCache.CircleFile.Close | src/new_io.cpp:854-897 | the slot is always free afterwards; 0 means the medium holds exactly the logical bytes |
| FileCache.RunExtends | src/new_io.cpp:899-1028 | a conforming run extended by an allowed operation conforms |
| FileCache.Step | src/new_io.cpp:899-1028 | every operation's outcome is one the logical file allows and its new state is the logical file's; with a sound medium the outcome is the plain file's only answer |
| FileCache.RunOps | src/new_io.cpp:899-1028 | for every list of operations: all outcomes conform to the logical file and the handle stays coherent until a direct FatFs call fails; a healthy run gives exactly the plain file's answers |
| FileCache.RunGrowsByData | src/new_io.cpp:952-1028 | no run makes the logical file longer than its start plus the data written |
| FileCache.Session | src/new_io.cpp:753-1028 | open, any operations, close: refinement of a byte sequence with a cursor over whole runs, with the final bytes on the medium; on a healthy system the outcomes equal the plain file's and the close succeeds |
| FileCache.FlagsMeetClient | src/new_io.cpp:736-751 | f_open on the access flags (append, then exclusive creation, then truncation, then creation) opens exactly the bytes and the cursor a POSIX client expects, and refuses exactly when it expects that, with ENOENT or EEXIST |
| FileCache.ReadBack | src/new_io.cpp:753-950 | an open without truncation, a read of the whole file and a close return exactly the file's bytes, and the medium still has them |
| FileCache.Overwrite | src/new_io.cpp:753-1028 | with truncation the bytes written are the whole file afterwards |
| FileCache.AppendTo | src/new_io.cpp:753-1028 | with appending the bytes written follow the file's old bytes |
| FileCache.FreshCursor | src/new_io.cpp:753-1285 | a fresh handle's cursor is at the end when appending and at the start otherwise |
| ByteQueues.RingGrows | src/async_network.cpp:45-59 | writing at the tail of a ring with wrap-around appends to its contents |
| ByteQueues.NextIsRemainder | src/async_network.cpp:45-59 | the wrap test of an index is the remainder modulo the queue size |
| ByteQueues.ByteQueue.Push | src/async_network.cpp:45-59 | the queue's contents grow by the longest prefix that fits; the count returned is its length |
| ByteQueues.ByteQueue.Pop | src/async_network.cpp:61-75 | the bytes returned followed by the rest are the old contents |
| ByteQueues.ByteQueue.Peek | src/async_network.cpp:77-91 | a prefix of the contents, which stay |
| ByteQueues.ByteQueue.Drop | src/async_network.cpp:93-107 | removes a prefix of the contents |
| ByteQueues.ByteQueue.Clear | src/async_network.cpp:134-140 | the contents are empty |
| AsyncSlots.WorkerKeepsControl | src/async_network.cpp:328-616 | every worker step keeps state, socket, flags and the place in the visit consistent, so FreeSlot's lingering socket and the receive drop branch cannot be reached |
| AsyncSlots.WorkerKeepsStreams | src/async_network.cpp:440-547 | every worker step keeps the byte streams intact |
| AsyncSlots.SendKeepsStreams | src/async_network.cpp:440-490 | dropping what was sent after a peek is right although the client pushed in between |
| AsyncSlots.ArrivalKeepsStreams | src/async_network.cpp:494-547 | the free space tested before the receive is still there at the push |
| AsyncSlots.WorkerKeepsProgress | src/async_network.cpp:328-358 | a flagged slot moves towards release on every visit |
| AsyncSlots.WorkerConservesSockets | src/async_network.cpp:360-616 | a visit opens at most one fresh socket, closes only one it holds, and drops none |
| AsyncSlots.WorkerKeepsIdentity | src/async_network.cpp:584-616 | only FreeSlot ends a connection, and only one that stop flagged |
| AsyncSlots.SendKeepsSlot | src/async_network.cpp:800-829 | send at any point of a worker visit keeps the slot's invariant |
| AsyncSlots.ReceiveKeepsSlot | src/async_network.cpp:831-846 | receive at any point of a worker visit keeps the slot's invariant |
| AsyncSlots.StopKeepsSlot | src/async_network.cpp:728-749 | flagging a slot at any point of a worker visit keeps its invariant |
| AsyncSlots.StartKeepsSlot | src/async_network.cpp:686-726 | claiming a free slot keeps its invariant, and no worker visit is inside it |
| AsyncWorld.StepKeepsInv | src/async_network.cpp:318-846 | every enabled step of worker or client keeps the invariant of the eight slots, the socket ledger and the handles |
| AsyncWorld.RunKeepsInv | src/async_network.cpp:318-846 | the invariant holds in every reachable state, for every interleaving and every network answer |
| AsyncWorld.LedgerStep | src/async_network.cpp:549-616 | a step's opens and closes keep the ledger: every socket is held by exactly one slot or closed exactly once |
| AsyncWorld.StreamIntegrity | src/async_network.cpp:440-547 | in every reachable state what a socket was given is a prefix of what send accepted, what receive returned is a prefix of what arrived, the queues hold the difference, and nothing was ever dropped |
| AsyncDelivery.Accounting | src/async_network.cpp:440-547 | over any run in which a connection keeps its slot, the wire grows by exactly the counts the network took, what arrived by exactly the bytes it gave, what was accepted by exactly the prefixes that fitted, and what was taken by exactly the smaller of each request and the queue |
| AsyncDelivery.PeekOffers | src/async_network.cpp:455-460 | a visit that finds bytes queued offers the network exactly the next of them, up to 256 |
| AsyncDelivery.WorkerDelivers | src/async_network.cpp:440-490 | on a connected slot a visit gets past its send only by sending a byte or with nothing left to send |
| AsyncDelivery.HealthyConnects | src/async_network.cpp:360-426 | while nobody stops it and the network says yes, a started connection is connected once the worker has completed a visit to it, and stays so |
| AsyncDelivery.Delivery | src/async_network.cpp:440-490 | in every healthy run with as many further visits as bytes are queued, everything accepted at its start is on the wire, and without further sends wire and accepted are equal |
| AsyncDelivery.StartedDelivers | src/async_network.cpp:686-726 | from start: after one visit of a healthy run the new connection is connected and holds a socket |
| AsyncDelivery.HealthyPolls | src/async_network.cpp:494-547 | while the receive queue has room for a chunk, every visit to a healthy connection polls its socket exactly once |
| AsyncDelivery.ArrivalIsQueued | src/async_network.cpp:494-547 | a poll that says yes leads to a receive, and its bytes are queued behind the others |
| AsyncDelivery.ReceiveTakesAll | src/async_network.cpp:831-846 | a receive that asks for all that is queued leaves the client with everything that has arrived |
| AsyncWorld.SocketOwnership | src/async_network.cpp:328-616 | in every reachable state no socket is closed twice, lost or shared; between visits a slot is CONNECTED exactly with a socket, a started connect is not CONNECTING, a free slot holds nothing, and FreeSlot never meets a socket |
| AsyncWorld.StopReleasesSlot | src/async_network.cpp:328-358 | a flagged connection is gone once the worker completed two visits to its slot after the flag, whatever the network answered |
| AsyncWorld.StopReleasesWithinSteps | src/async_network.cpp:318-358 | the same bound in worker steps: no visit can stall it |
| AsyncWorld.StopAlwaysCompletes | src/async_network.cpp:728-782 | from every reachable state, after stop's flag the connection is released in every continuation with 360 worker steps |
| AsyncWorld.ObservationModuloGenerations | src/async_network.cpp:179-186 | stop's wait loop observes its slot exactly while the occupant's start number agrees modulo 2^32 - 1; with fewer starts it never observes a later connection |
| AsyncWorld.GoneMeansClosed | src/async_network.cpp:584-616 | a connection that has left its slot has none of its sockets open |
| AsyncWorld.RunKeepsTrace | src/async_network.cpp:318-846 | in every reachable state a slot holds only sockets that were dialed for the connection in it, and every connection is where it was started |
| AsyncWorld.StopObservedMeansClosed | src/async_network.cpp:728-782 | whichever way stop's wait loop ends, by a failed snapshot or an idle slot, every socket ever dialed for the stopped connection is closed, for any number of starts |
| ConfigText.DecimalRoundTrip | src/update/config_migration.cpp:157-170 | every 32-bit version number written in decimal is read back |
| ConfigText.SplitJoins | src/update/config_migration.cpp:193-226 | the lines of a readable file put together are the file, and only the last may lack its break |
| ConfigText.JoinSplits | src/update/config_migration.cpp:193-226 | splitting gives back exactly the lines that were joined, so splitting distributes over concatenation at line boundaries |
| ConfigText.TokensRoundTrip | src/update/config_migration.cpp:888-955 | tokens written with single spaces are read back |
| ConfigText.TokensAppend | src/update/config_migration.cpp:888-955 | tokenising distributes over a blank |
| ConfigExact.DecimalExact | src/update/config_migration.cpp:157-170 | a version is one to ten digits that spell a positive 32-bit number, and that number |
| ConfigExact.TrimExact | src/update/config_migration.cpp:124-137 | trimming takes the blanks off both ends and nothing else |
| ConfigExact.PairExact | src/update/config_migration.cpp:260-276 | a pair is cut at its first equals sign, which may not come first |
| ConfigExact.HeaderTexts | src/update/config_migration.cpp:82-93 | the header of every area, spelled out |
| ConfigExact.HeaderExact | src/update/config_migration.cpp:230-258 | a line is a header of an area and version exactly when it is spelled so, and no header exactly when it does not begin with the header word |
| ConfigDetect.HeaderRoundTrip | src/update/config_migration.cpp:230-258 | a schema header written for an area and version is read as that version |
| ConfigDetect.HeaderInFront | src/update/config_migration.cpp:1319-1343 | a header line in front of a readable file adds one line in front of its lines |
| ConfigDetect.ScanAppend | src/update/config_migration.cpp:724-818 | a line scan over two parts is the scan of the second from where the first ended |
| ConfigHeaders.ScanMarked | src/update/config_migration.cpp:614-717 | lines that scan well scan the same behind a header, unless they hold a header themselves: then they are corrupt |
| ConfigHeaders.MachineFileGainsHeader | src/update/config_migration.cpp:614-717 | a valid machine file behind a new header is valid with that version if and only if it fits, has no header and its number is 1 or that version; otherwise it is corrupt |
| ConfigHeaders.SettingsFileGainsHeader | src/update/config_migration.cpp:957-1017 | a valid settings file behind a new header is valid with that version if and only if it fits and has no header |
| ConfigHeaders.MachinesExact | src/update/config_migration.cpp:614-717 | the machine area has version v if and only if every file has and machines.ini is among them |
| ConfigHeaders.SettingsExact | src/update/config_migration.cpp:957-1017 | the settings area has version v if and only if every file has |
| ConfigExact.SettingsFileExact | src/update/config_migration.cpp:957-1017 | a settings file has version v if and only if it is readable, no line is a malformed header, at most one is a header, every other line is blank, a comment or a setting, the at most 512 keys are pairwise distinct, and v is the header's version, 1 without one |
| ConfigExact.RepeatedSettingIsRefused | src/update/config_migration.cpp:1003-1009 | a key set twice is never accepted |
| ConfigExact.SectionSpelled | src/update/config_migration.cpp:655-683 | a section line is a bracketed kind, a blank and an identifier |
| ConfigExact.MachineFileExact | src/update/config_migration.cpp:614-717 | a machine file has version v if and only if it is readable, its lines are in order with at most one header and one format number before all sections, a video and a machine section are there, and v is the header's version or the format number, which must agree unless the format is 1 |
| ConfigExact.BlockFileExact | src/update/config_migration.cpp:724-818 | config.txt has version v if and only if it is text outside the block, one begin and one end marker, and between them at most one header, at most one selector and one to 64 settings with distinct known keys; v is the header's version, 1 without one |
| ConfigExact.UpdateStateExact | src/update/config_migration.cpp:1019-1075 | the update state has version v if and only if there is one build information file, it parses, its first entry for the update state is v, and journal copies leave a usable one |
| ConfigBlock.ScanFindsParts | src/update/config_migration.cpp:724-818 | a scan that saw both markers went through: text outside, begin, block, end, text outside |
| ConfigBlock.ValidHasParts | src/update/config_migration.cpp:724-818 | a valid config.txt is the text of such parts |
| ConfigBlock.PartsAreValid | src/update/config_migration.cpp:724-818 | parts whose block scans and has a key are a valid file with the block's version, and are found again |
| ConfigBlock.HeaderAddedRedetects | src/update/config_migration.cpp:1345-1369 | with a header added the file is valid at the new version, with the same parts outside and the same keys, if and only if it fits and its block had no header; otherwise it is corrupt |
| ConfigBlock.ReplacedRedetects | src/update/config_migration.cpp:1371-1392 | with the block replaced the file has the source's parts outside and the defaults' block, version and keys; it is valid if and only if it fits |
| ConfigBlock.SameOutside | src/update/config_migration.cpp:1345-1392 | files whose parts differ only in the block have the same bytes before the block and after it |
| ConfigBlock.HeaderOfFile | src/update/config_migration.cpp:772-782 | a valid file has its header, if any, inside the block |
| ConfigCmdline.AreasDisjoint | src/update/config_migration.cpp:557-594 | no key belongs to both areas of cmdline.txt |
| ConfigCmdline.TokensFaultExact | src/update/config_migration.cpp:888-953 | the token loop accepts exactly the lists within the table whose tokens are shaped and whose own tokens are distinct, with values and a readable marker |
| ConfigCmdline.DetectLineExact | src/update/config_migration.cpp:834-955 | cmdline.txt is valid for an area if and only if the file is in order and its tokens are good; its version is the marker's, 1 without one |
| ConfigExact.TokenExact | src/update/config_migration.cpp:906-924 | a token is a bare key, or a key and a value around its first equals sign, neither empty |
| ConfigExact.CmdlineFileExact | src/update/config_migration.cpp:834-881 | cmdline.txt is in order around its tokens if and only if it is safe, within 8192 bytes, line one within 4096 and whole, and every later line blank or a comment |
| ConfigExact.MarkerVersionExact | src/update/config_migration.cpp:928-936 | the version of an area's tokens is its marker's, 1 where there is none |
| ConfigCmdline.RewriteRetokenises | src/update/config_migration.cpp:1403-1460 | re-tokenising the output gives exactly the kept tokens in order, then the area's default tokens on a reset, then the new marker; the text after line one is byte-identical |
| ConfigCmdline.NewOwn | src/update/config_migration.cpp:1403-1460 | the rewritten area's tokens are its old ones, or the defaults', without their marker, under the new one |
| ConfigCmdline.NewLeavesOther | src/update/config_migration.cpp:1403-1460 | the other area's tokens are the same list |
| ConfigExact.RewriteKeepsRest | src/update/config_migration.cpp:1424-1431 | a rewrite keeps every token that does not belong to its area, in order, whoever it belongs to |
| ConfigCmdline.RewriteRedetects | src/update/config_migration.cpp:1403-1460 | the output of a rewrite that fits the limits is detected with the new version and those tokens |
| ConfigCmdline.RewriteKeepsOther | src/update/config_migration.cpp:1403-1460 | frame: if the other area was valid in the source it is valid in the output with the same version and the same key/value list |
| ConfigCmdline.RewriteExact | src/update/config_migration.cpp:1403-1460 | a rewrite of a valid area is detected at the new version if and only if file, line and token table have room |
| ConfigReaders.NextLine | src/update/config_migration.cpp:193-226 | the cursor loop reads the first line of the rest, or reports the end or a corrupt line |
| ConfigReaders.ScanLines | src/update/config_migration.cpp:631-640 | the line loop computes the scan of the whole rest |
| ConfigReaders.ScanText | src/update/config_migration.cpp:626-640 | a file with a control character is corrupt, any other is scanned |
| ConfigReaders.MachinesLoop | src/update/config_migration.cpp:614-717 | the loop over files and lines gives the area's detection |
| ConfigReaders.SettingsLoop | src/update/config_migration.cpp:957-1017 | the loop over files and lines gives the area's detection |
| ConfigReaders.BlockLoop | src/update/config_migration.cpp:724-818 | the line loop gives the detection and, for a valid file, the byte bounds of its block |
| ConfigReaders.NextToken | src/update/config_migration.cpp:888-900 | skips blanks and finds the next token's bounds |
| ConfigReaders.TokenLoop | src/update/config_migration.cpp:888-953 | gives the first token fault, or all tokens of the line |
| ConfigReaders.CmdlineLoop | src/update/config_migration.cpp:834-955 | gives the area's verdict on cmdline.txt with its tokens and the end of line one |
| ConfigReaders.UpdateStateLoop | src/update/config_migration.cpp:1019-1075 | one loop finds build information and journal copies by path; the verdict is that of the parsers on them |
| ConfigReaders.DetectLoop | src/update/config_migration.cpp:1077-1090 | the detector of each area |
| ConfigWriters.ByteWriter.Append | src/update/config_migration.cpp:1239-1248 | bytes are appended, or the writer has failed for good because what was appended does not fit |
| ConfigWriters.ByteWriter.Finish | src/update/config_migration.cpp:1255-1259 | the length is recorded exactly when everything fitted |
| ConfigWriters.DigitsBackwards | src/update/config_migration.cpp:1164-1170 | the digit loop writes the decimal digits backwards and never runs out of its ten places |
| ConfigWriters.ReverseInPlace | src/update/config_migration.cpp:1171-1177 | the swap loop reverses them |
| ConfigWriters.PrefixAll | src/update/config_migration.cpp:1319-1343 | every output gets header and content of the file of its path, exactly when all fit; no input byte changes |
| ConfigWriters.AddConfigBlockHeader | src/update/config_migration.cpp:1345-1369 | writes the file with the header at the start of its block exactly when the file is valid and the result fits |
| ConfigWriters.ReplaceConfigBlock | src/update/config_migration.cpp:1371-1392 | writes the file with the defaults' block exactly when both are valid and the result fits |
| ConfigWriters.AppendToken | src/update/config_migration.cpp:1394-1401 | a space before every token but the first |
| ConfigWriters.WriteTokens | src/update/config_migration.cpp:1424-1453 | writes the new token line exactly when it fits |
| ConfigWriters.RewriteCmdlineArea | src/update/config_migration.cpp:1403-1460 | writes the rewritten file exactly when the inputs are valid and the result fits |
| ConfigWriters.OutputsAreIndependent | src/update/config_migration.cpp:1267-1308 | true if and only if no output is null or empty and no output range overlaps another output's or an input's |
| ConfigWriters.CopyAll | src/update/config_migration.cpp:1462-1477 | each output gets the default file of its path, exactly when all fit; no input byte changes |
| ConfigWriters.ClearWritten | src/update/config_migration.cpp:1479-1483 | nothing counts as written any more |
| ConfigWriters.TransformOne | src/update/config_migration.cpp:1918-1941 | the one-file transformations write exactly their specified content, if it fits, and nothing outside the output |
| ConfigWriters.Transform | src/update/config_migration.cpp:1903-1942 | the selected transformation leaves in every output exactly its specified content, if all of them fit, and no input byte changes |
| ConfigWriters.RevalidateOutputs | src/update/config_migration.cpp:1502-1516 | accepts the outputs if and only if they form a well-formed area detected at the target version |
| ConfigWriters.AdmitRequest | src/update/config_migration.cpp:1819-1862 | the checks of a request in their order, with the first one that fails as the status |
| ConfigWriters.WriteOutputs | src/update/config_migration.cpp:1864-1960 | from the output table on: the specified contents in the buffers, or a status and nothing written; overlapping ranges are refused and the inputs never change |
| ConfigWriters.ApplyConfigChange | src/update/config_migration.cpp:1813-1960 | Ok with the specified contents in the buffers, or the specified status; the bytes of source and defaults are never modified, wherever the buffers lie; on failure nothing is left written, except that a table of more than 16 outputs keeps its old marks |
| ConfigApply.AdmitEstablishes | src/update/config_migration.cpp:1819-1858 | what passes the checks is well formed, detected at the source version, selected by a compiled entry, and has valid defaults when it resets |
| ConfigApply.EveryFileHasSink | src/update/config_migration.cpp:1485-1500 | outputs that match the expected files one by one cover all of them |
| ConfigApply.TextHeaderExact | src/update/config_migration.cpp:1319-1343 | header migration of machines or settings: re-detected at the target if and only if sizes are within limits and no source file has a header |
| ConfigApply.BlockHeaderExact | src/update/config_migration.cpp:1345-1369 | the same for the managed block |
| ConfigApply.BlockResetExact | src/update/config_migration.cpp:1371-1392 | a reset block is re-detected at the target if and only if the file is within its limit |
| ConfigApply.CmdlineExact | src/update/config_migration.cpp:1403-1460 | both cmdline transformations are re-detected at the target if and only if they are within the limits |
| ConfigApply.SameFilesSameState | src/update/config_migration.cpp:1019-1075 | the update state does not depend on the order its files are listed in |
| ConfigApply.CopyExact | src/update/config_migration.cpp:1462-1477 | copied defaults of machines, settings or update state are re-detected at the target, in whatever order the outputs are listed |
| ConfigApply.ApplyExact | src/update/config_migration.cpp:1813-1960 | an admitted request is carried out if and only if there is room and, for header migrations, the source has no explicit header |
| ConfigStatus.RegistryNames | src/update/config_migration.cpp:55-79 | an identifier names its area and what it does to it |
| ConfigStatus.RegistryServes | src/update/config_migration.cpp:55-79 | every area can be reset, and every area but the update state migrated without loss |
| ConfigStatus.UnknownExact | src/update/config_migration.cpp:1819-1832 | invalid input and unknown migration by their conditions |
| ConfigStatus.RefusalsExact | src/update/config_migration.cpp:1833-1862 | a request is admitted if and only if it fits its entry and source, consent is given exactly for a reset, and defaults are right for one; each refusal by its own condition |
| ConfigStatus.WritingExact | src/update/config_migration.cpp:1864-1960 | each outcome of the writing half by its condition, with the 96 bytes a header needs whatever its size |
| ConfigStatus.HeaderMigrationWrites | src/update/config_migration.cpp:1319-1343 | a header migration that is made loses nothing: every output is the header line and then its source file |
| ConfigStatus.ResetWrites | src/update/config_migration.cpp:1462-1477 | a reset of whole files writes the defaults' file of each path |
| ConfigStatus.SettingsFamily | src/update/config_migration.cpp:324-345 | settings, any short plain name and .txt is a path of the settings area |
| ConfigStatus.OnlySettingsFamily | src/update/config_migration.cpp:324-345 | and no other path is |
| ConfigStatus.FixedFiles | src/update/config_migration.cpp:347-370 | exactly the fixed files belong to the other text areas |
| ConfigStatus.StateFiles | src/update/config_migration.cpp:347-370 | and exactly the three files to the update state |
| ConfigLossless.MarkerFits | src/update/config_migration.cpp:1403-1460 | a marker update adds at most 38 bytes, so room for these on the source is enough |
| ConfigLossless.FedTotal | src/update/config_migration.cpp:372-394 | the total size of an area does not depend on the order its files are listed in |
| ConfigLossless.CompiledIsFound | src/update/config_migration.cpp:483-497 | the registry finds every one of its entries by its identifier |
| ConfigLossless.LosslessIsComplete | src/update/config_migration.cpp:1813-1960 | lossless migration is complete: every well-formed source at version 1 without an explicit header, with independent buffers and visible room, is migrated to an output detected at version 2 |
| ConfigLossless.ExplicitHeaderIsRefused | src/update/config_migration.cpp:1319-1369 | and with an explicit header it always fails revalidation |
| ConfigLossless.ExplicitHeaderExists | src/update/config_migration.cpp:1813-1960 | a settings file that names its version 1 is detected at version 1, and its migration ends in SemanticRevalidationFailed |
| ConfigLossless.CmdlineChangeKeepsOther | src/update/config_migration.cpp:1813-1960 | every change of one cmdline area that is made leaves the other area's tokens, validity and version as they were |
| ConfigLossless.EmptyCmdlineMigrates | src/update/config_migration.cpp:1403-1460 | an empty cmdline.txt meets all conditions of completeness and is migrated |
| ConfigAssess.EmptyCmdlineIsKept | src/update/config_migration.cpp:1582-1648 | an empty cmdline.txt is assessed as a lossless change, and applying the assessment makes it |
| ConfigAssess.EveryAreaIsRequired | src/update/config_migration.cpp:1520-1541 | six valid requirements with distinct areas cover every area |
| ConfigAssess.DeclarationsExact | src/update/config_migration.cpp:1542-1578 | the declaration loop accepts a list if and only if every declaration selects a compiled entry its area's requirement asks for and no two clash |
| ConfigAssess.CheckDeclaration | src/update/config_migration.cpp:1543-1576 | the first fault of one declaration, with the scan for an earlier clash |
| ConfigAssess.CheckDeclarations | src/update/config_migration.cpp:1542-1579 | the first fault of the list |
| ConfigAssess.ValidateDeclarations | src/update/config_migration.cpp:1520-1580 | valid if and only if requirements and declarations are, with the first fault as status otherwise |
| ConfigAssess.ChangeIsDeclared | src/update/config_migration.cpp:1582-1648 | an area assessed as a change is valid at version 1, has target 2 and records a compiled identifier of its kind |
| ConfigAssess.ClassifiedRightly | src/update/config_migration.cpp:1618-1644 | each classification by its condition: newer exactly for a valid version above the target, compatible exactly for an accepted one, reset or lossless exactly for one behind the target that is declared so, unknown or corrupt otherwise; a change records a declaration for exactly that step |
| ConfigAssess.BlockedExactly | src/update/config_migration.cpp:1109-1150 | a plan is blocked if and only if some area is unreadable, newer than the target, or behind it without a declaration |
| ConfigAssess.AssessmentIsKept | src/update/config_migration.cpp:1582-1648 | assessment promises are kept: applying a recorded change, with consent exactly for resets, is never refused as unknown, mismatched, rejected source or missing consent, and as invalid input only for the number of outputs |
| ConfigAssess.LosslessPromise | src/update/config_migration.cpp:1813-1960 | with room, an area assessed as a lossless migration is migrated if and only if it is a cmdline area or has no explicit header |
| ConfigAssess.PlanIsKept | src/update/config_migration.cpp:1582-1648 | both promises hold of every entry of a plan that the assessment of a snapshot returns |
| ConfigAssess.DecisionIsWorst | src/update/config_migration.cpp:1109-1150 | the decision is the worst classification if and only if there is no InvalidRule or one that only compatible and lossless areas follow |
| ConfigAssess.RecomputeDecision | src/update/config_migration.cpp:1109-1150 | the counters add up, and the decision is the worst classification under exactly that condition |
| ConfigAssess.InvalidRuleIsForgotten | src/update/config_migration.cpp:1109-1150 | the condition can fail: a reset after an InvalidRule hides it; no assessment makes an InvalidRule, so no plan reaches this |
| ConfigAssess.ValidateSnapshot | src/update/config_migration.cpp:405-424 | accepts exactly the snapshots with every area once and well formed |
| ConfigAssess.AssessSnapshot | src/update/config_migration.cpp:1582-1648 | a plan comes out exactly for a full snapshot with accepted declarations whose areas can all be hashed, each other status exactly for its reason; every area is classified rightly by detection, requirement and declarations, and the plan is blocked exactly when some area stops it |
| AreaDigest.BEInjective | src/update/config_migration.cpp:426-437 | big-endian fields of one width agree only for equal numbers |
| AreaDigest.PreimageIsCanonical | src/update/config_migration.cpp:439-481 | two well-formed area snapshots are hashed over the same bytes if and only if they are the same area with the same set of (path, content) pairs |
| AreaDigest.PreimageReadsBack | src/update/config_migration.cpp:439-481 | a reader that knows the format, with its own area numbers and big-endian fields, gets back the area and its files in ascending order of their paths |
| AreaDigest.HashInput | src/update/config_migration.cpp:439-481 | the insertion sort and the update calls feed exactly that byte string |
| Sorting.InsertIndex | src/update/consent_digest_input.cpp:56-66 | one insertion moves an index past exactly the elements that belong after it |
| Sorting.SortIndices | src/update/consent_digest_input.cpp:54-67 | the indices list the items in order |
| Sorting.OrderedIsCanonical | src/update/consent_digest_input.cpp:31-69 | sorting items with distinct keys gives the same list if and only if the items are the same set |
| Consent.ValidIsAcceptable | src/update/consent_digest_input.cpp:31-53 | validation accepts exactly the inputs with a known board, non-zero sequence and digest, at most 16 valid items and no area twice |
| Consent.ValidateAndSort | src/update/consent_digest_input.cpp:31-69 | the first fault as status, or the indices in the order of the areas |
| Consent.Serialize | src/update/consent_digest_input.cpp:93-135 | the first bytes of the buffer are the canonical encoding, or the buffer is untouched and the status says why |
| Consent.EncodingIsCanonical | src/update/consent_digest_input.cpp:93-135 | equal encodings if and only if board, sequence, manifest digest and the set of items agree |
| Consent.EncodingReadsBack | src/update/consent_digest_input.cpp:93-135 | a reader that knows the format, with its own class codes and little-endian fields, gets back the consent with its items in ascending order of their areas |
| Consent.InputsEqual | src/update/consent_digest_input.cpp:137-152 | true if and only if both inputs are acceptable and agree, for every order of the items |
| Projections.PatternMeetsGlob | tools/sd_layout.py:1625-1640 | staging selects names by glob (tools/sd_layout.py:839-845), the device by prefix and suffix: they agree on a name if and only if the affixes do not both match while overlapping in it; then only the device accepts it |
| Projections.ShortNameIsTaken | tools/sd_layout.py:1625-1640 | they do differ: under ab*ba the device takes aba and the glob does not |
| Projections.MatchersTakeRule | tools/sd_layout.py:1643-1669 | a rule's matchers accept exactly the paths in its top directory whose base name one of its patterns accepts, or exactly its target |
| Matchers.OverlapIsExact | tools/sd_layout.py:1719-1773 | the overlap test is true if and only if some path matches both matchers |
| Projections.KeyOrder | tools/sd_layout.py:1710-1716 | the sort key orders any two different keys one way |
| Ordering.CompareIsLexicographic | tools/sd_layout.py:1710-1716 | texts are ordered by the first character that differs, a prefix first |
| PathPriority.NarrowerFirst | tools/sd_layout.py:1701-1716 | priority is specificity across kinds: of two matchers of different kinds the one that accepts only paths of the other comes first, unless it is a whole directory and the other the bare * |
| PathPriority.WiderIsLater | tools/sd_layout.py:1679-1707 | no matcher contains one of a less strict kind, except that * contains every directory |
| PathPriority.DirectoriesLast | tools/sd_layout.py:1701-1716 | whole directories come after everything else |
| PathPriority.ExactFirst | tools/sd_layout.py:1701-1716 | exact paths come before everything else |
| PathPriority.SameKindByText | tools/sd_layout.py:1710-1716 | within a kind root, value and suffix decide as texts |
| PathPriority.NarrowerDecides | tools/sd_layout.py:1887-1899 | on a path that only both match, the sorted table gives the narrower one's mode |
| PathPriority.BroaderSuffixDecides | tools/sd_layout.py:1710-1716 | within a kind the narrower need not win: *.txt decides against *x.txt for ax.txt |
| PathPriority.TopExact | tools/sd_layout.py:1679-1684 | the top is what stands before the first slash |
| PathPriority.BaseExact | tools/sd_layout.py:1679-1684 | the base is what stands after the last slash |
| PathPriority.EntriesAreRules | tools/sd_layout.py:1823-1844 | on every board, for every mode and path, some collected entry matches exactly when some rule that is neither a directory nor a kernel takes it |
| Projections.Collect | tools/sd_layout.py:1823-1846 | rejects exactly when one matcher has two modes; otherwise the dictionaries hold exactly the rules' matchers and their boards |
| Projections.ValidateScopes | tools/sd_layout.py:1776-1813 | accepts if and only if no overlapping pair of different modes has a winner that is missing on one of the loser's boards |
| Projections.LeakyExact | tools/sd_layout.py:1776-1813 | the validation of the collected matchers fails if and only if two rules leak: overlapping patterns of different modes whose winner is missing on a board of the loser |
| Projections.Project | tools/sd_layout.py:1816-1876 | the table is the sorted list of the matchers that are not covered; rejected if and only if a matcher has two modes or two rules leak |
| Projections.TableServesBoard | tools/sd_layout.py:1776-1876 | for every path that is no exact target and every board with a matching rule, the one global table gives the mode of that board's own rules |
| Projections.NormalizationKeepsOthers | tools/sd_layout.py:1845-1863 | dropping covered exact paths changes nothing for any other path |
| Projections.DroppedKeepsMode | tools/sd_layout.py:1845-1863 | a dropped exact path keeps its mode if and only if every matching pattern of another mode comes after a matching pattern of its own mode |
| Projections.NormalizationExact | tools/sd_layout.py:1845-1863 | for every path: the table without covered exact paths gives the full table's mode if and only if the path is not dropped or meets that condition |
| Projections.ProjectionExact | tools/sd_layout.py:1816-1876 | the same of the table a layout is projected to |
| Projections.ExampleIsAccepted | tools/sd_layout.py:1816-1876 | three rules for both boards, an exact path and two patterns, are a layout the projection accepts |
| Projections.ProjectionCanChangeMode | tools/sd_layout.py:1845-1863 | and every projection of that layout replaces the exact path that its rules keep |
| CompiledPolicy.OrdersCoincide | tools/update_path_policy.py:177-194 | the two sort keys put different matchers in the same order |
| CompiledPolicy.Compile | tools/update_path_policy.py:206-236 | on a projected table, deduplicating and sorting changes nothing: the rules are the kernel rule and the table in order |
| CompiledPolicy.RSplit | tools/update_path_policy.py:87-90 | base and machine spell the target, and the machine has no dot |
| CompiledPolicy.BoardInventory | tools/update_path_policy.py:78-103 | a board's machines in rule order under its one base; rejected exactly when there is no such base |
| CompiledPolicy.KernelInventory | tools/update_path_policy.py:72-113 | accepts exactly consistent inventories; then base and machine spell exactly the kernel targets of either board |
| CompiledPolicy.ProductIsTargets | tools/update_path_policy.py:72-113 | the product of bases and machines is the union of both boards' kernel targets |
| CompiledPolicy.ClassifiersAgree | tools/update_path_policy.py:270-322 | compiled and projection classifier agree on every FAT-valid path |
| PathPriority.PoliciesSpelled | tools/update_path_policy.py:27-33 | the policy of a path, spelled out for each mode of the table |
| PathPriority.KernelsAreKernels | tools/update_path_policy.py:285-322 | a kernel target has the kernel policy, whatever else matches it |
| PathPriority.RefusedPaths | tools/update_path_policy.py:285-322 | paths the FAT rules refuse, and directories, have no policy |
| CompiledPolicy.CompileLayout | tools/update_path_policy.py:197-256 | whenever a layout compiles, both classifiers agree on every FAT-valid path; it is refused if and only if it has a bad pattern, conflicting modes, leaking rules, an inconsistent inventory or no directory root |
| PllDivider.LeastDividerDecides | src/pi5kms/pi5_kms.cpp:802-817 | the least divider with enough frequency decides whether any divider is in range |
| PllDivider.GetVcoFreq | src/pi5kms/pi5_kms.cpp:802-817 | for every positive 32-bit rate both searches end without overflow; the divider is halfway between the first and the last in range; the VCO is at least 8 GHz, and below 12 GHz if and only if the rate is below 600 MHz or from 800 MHz to below 1.2 GHz, so for all rates up to 400 MHz |
| PllDivider.ZeroRateNeverReaches | src/pi5kms/pi5_kms.cpp:802-817 | at rate zero no divider reaches the bound, so the first search does not end |
| PllDivider.RmOffsetFits | src/pi5kms/pi5_kms.cpp:819-825 | in that range the offset stays below 2^31 and no product passes 64 bits |
| PllDivider.RmOffsetIsRatio | src/pi5kms/pi5_kms.cpp:819-825 | the offset is the ratio of the VCO to the oscillator with 21 fraction bits, rounded down |
| DisplayList.Entry | src/pi5kms/pi5_kms.cpp:503-608 | a plane's entry has at most 19 words; its control word is valid, ends nothing and has the entry's length as NEXT, and its last word is END |
| DisplayList.EntryShowsPlane | src/pi5kms/pi5_kms.cpp:503-560 | reading an entry back gives the plane's position, sizes, pixel address and pitch |
| DisplayList.ControlShowsPlane | src/pi5kms/pi5_kms.cpp:361-391 | the control word's fields are format, pixel order, alpha mask, unity and scaling |
| DisplayList.ScalingsDiffer | src/pi5kms/pi5_kms.cpp:333-359 | each way of scaling has its own code |
| DisplayList.PpfCarriesRatio | src/pi5kms/pi5_kms.cpp:422-441 | a polyphase word carries the even 16.16 ratio just below source over destination, and its filter bits |
| DisplayList.TpzCarriesRatio | src/pi5kms/pi5_kms.cpp:443-463 | the trapezoid words carry the ratio and its reciprocal; the ratio if and only if the source is less than 32 times the destination |
| DisplayList.OrderSpellsParameters | src/pi5kms/scaling_order.h:19-31 | the parameter order groups by scaler type, horizontal first |
| DisplayList.AppendPlane | src/pi5kms/pi5_kms.cpp:503-608 | appends exactly the plane's entry, and refuses only when fewer than 32 words are left |
| DisplayList.BuildScanout | src/pi5kms/pi5_kms.cpp:671-703 | succeeds exactly for valid planes that each start with 32 words left, and then holds the entries and a final END |
| DisplayList.SevenPlanesFit | src/pi5kms/pi5_kms.cpp:503-608 | seven valid planes always fit in 160 words |
| DisplayList.ListIsWellLinked | src/pi5kms/pi5_kms.cpp:503-703 | following NEXT from word 0 visits every plane's control word in order and ends on the final END |
| DisplayList.Hvs.EnsureKernels | src/pi5kms/pi5_kms.cpp:474-482 | both kernels are in place, mirrored, and no list word changed |
| DisplayList.Hvs.Submit | src/pi5kms/pi5_kms.cpp:750-784 | the list is where the hardware points; the other slot and the kernels are untouched |
| DisplayList.Hvs.ProgramScanout | src/pi5kms/pi5_kms.cpp:709-784 | succeeds exactly when the list can be built; a present while a list is active goes to the other slot and changes neither the submitted slot nor the kernels; a refused one changes no list |
| Crc32.CalculateCrc32 | src/update/crc32.cpp:6-21 | the byte and bit loops compute the register of the message, complemented; a null pointer with a length gives 0 |
| Crc32.CheckValue | src/update/crc32.cpp:6-21 | the digits 1 to 9 give the check value cbf43926 |
| Crc32.ShiftIsLinear | src/update/crc32.cpp:13-19 | the bit step is linear |
| Crc32.ShiftHasNoKernel | src/update/crc32.cpp:13-19 | and sends only zero to zero, so it is a bijection of the 32-bit states |
| Crc32.RegisterIsBits | src/update/crc32.cpp:11-20 | the register is that of the message's bits fed one by one |
| Crc32.DifferencePropagates | src/update/crc32.cpp:11-20 | the difference of two registers depends only on the difference of the messages |
| Crc32.BurstDetected | src/update/crc32.cpp:6-21 | two messages that differ only within 32 adjacent bits have different checksums |
| Crc32.WindowDetected | src/update/crc32.cpp:6-21 | two messages of equal length that differ only within four adjacent bytes have different checksums |
| Crc32.LongerBurstCanHide | src/update/crc32.cpp:6-21 | with 33 bits this is no longer so |

## Left out

- FileCache.CircleFile.Write: lengths are below 2^31 because the argument is an `int`, and the buffer holds at least that many bytes.
- FileCache.Session: the equality with the plain file's answers is for files below 2 GiB, because the seek result is an `int`, and not for truncation combined with append; one handle on a file at a time.
- FileCache.Step: after a failed direct FatFs call the pointer is unknown and the run ends; the source promises nothing there either.
- Serial output, path resolution, directories, stat tables and I/O statistics of src/new_io.cpp.
- AsyncWorld.StreamIntegrity: send and receive do not race with stop on the same handle, which stop deletes; send and receive counts never exceed the size asked for.
- DNS, socket internals, error codes, targets, logging and debug counters of src/async_network.cpp.
- The parsers of build information and journals: they are parameters of the update state's detector (`StateReader`).
- ConfigWriters.ApplyConfigChange: addresses are natural numbers, so a range that wraps around the address space is not modelled.
- SHA-256: a function parameter that may fail.
- The reset warning text, the consent input built from a plan, and the status strings of src/update/config_migration.cpp are not modelled.
- The classification of src/update/config_schema.cpp is not modelled.
- Consent.InputsEqual: `BytesAreNonZero` is a predicate and not its loop.
- CompiledPolicy.CompileLayout: TOML parsing, staging, digests and the FAT path validator, which is a parameter; kernel targets are top-level names, as the layout loader requires.
- PllDivider.GetVcoFreq: rate zero has no result to state; `PllDivider.ZeroRateNeverReaches` says why.
- DisplayList.Hvs.ProgramScanout: registers other than the list pointer, cache maintenance and logging.
- Candidate health, secure stream, archive transport, draft tickets, the kernel, the emulator front end and the KMS probe.
