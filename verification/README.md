# GekkoFS in Dafny

GekkoFS is a distributed file system: a client library intercepts the file calls of an application and
talks to daemons that hold chunks of files and their metadata. This project models the parts of it whose
correctness is not obvious from any one function, and proves what they promise about each other.

* **The data path** (`Arithmetic`, `Wire`, `Chunks`, `Planning`, `Daemon`, `ChunkStore`, `DataPath`,
  `FlatFile`, `Transfers`, `Writing`, `ReadSizes`, `Reading`, `Truncation`). A byte range is cut into
  chunks, the chunks and their replicas are handed to hosts, each host is sent a bit vector and a byte
  total, and works out from these which bytes of the client's buffer belong where. The main result is a
  refinement: after any history of writes, with hosts failing and returning between the writes and in the
  middle of one, a read from copies that missed no write returns the bytes of one flat file, for every
  distributor and every order in which hosts and tasklets run (`FlatFile.ReadsLikeOneFile`).
  `Writing.DoWrite` and `Reading.DoRead` run the client's two calls and its retry loop over daemons that
  fail after part of their work, and `Reading.ReadAfterHistory` and `Truncation.TruncateAfterHistory` do so
  after any such history. The base64 coding of the bit vectors is modelled down to the 32-bit registers.
* **Path resolution** (`PathNames`, `PathResolution`, `LegacyResolution`). Two independent in-place string
  algorithms, proved equal to the lexical part of section 4.13 of the Base Definitions of IEEE Std
  1003.1-2017, the second also to what symbolic links make of a path, and to each other with the exact
  condition under which they differ.
* **Calendar conversion** (`Calendar`). `mini_gmtime_r` inverts the formula of section 4.16, "Seconds Since
  the Epoch", of the Base Definitions of IEEE Std 1003.1-2017 for every 64-bit time.
* **The write-size cache** (`SizeCache`). A protocol of any number of clients and threads with updates in
  flight and truncations; its invariants hold in every run.
* **Descriptors** (`OpenFiles`, `InternalFds`). The wrapping allocator of open files, and the library's own
  descriptors beside the kernel's table.
* **Codecs** (`Metadata`, `Dirents`, `Find`). Metadata text and its parser; directory records, their packing
  into a caller's buffer and the reader that walks it, for one server and for all.
* **The directory-entry cache** (`DentryCache`). A two-level hashed map against a flat one.

`Common` holds what several modules share. The distributor is an arbitrary function `locate(chunk, copy)`,
random numbers are a stream `draw`, what becomes of a host in a call a function `fate`, and the host file
system seen by the legacy resolver a function `lstat`. Integers are unbounded; wrap-around, truncation and
signedness are written out where the source has them.

The main results, one or two for each part: `Wire.BitsSurviveTheWire`, `Planning.TotalsConserve`,
`Daemon.ServePieces`, `Daemon.SeenExactlyIff`, `FlatFile.ReadsLikeOneFile`, `Writing.DoWrite`, `Reading.DoRead`,
`Reading.ReadAfterHistory`, `Truncation.TruncateAfterHistory`, `PathResolution.ResolveNew`,
`LegacyResolution.WalkReaches`, `LegacyResolution.ResolversAgreeIff`, `Calendar.Gmtime`,
`SizeCache.TrueSizeIff`, `SizeCache.SyncCovers`, `OpenFiles.NeverHandedOutTwice`, `OpenFiles.TableTells`,
`InternalFds.AlwaysConsistent`, `InternalFds.CycleRestoresIff`, `Metadata.RoundTripIff`,
`Dirents.EachEntryOnce`, `Find.EachListingOnceIff`, `DentryCache.RefinesFlatMapIff`.

Where the code does not do what its comments or names suggest, the model follows the code, gives the input
that shows the difference and states exactly when the expected property holds:

* Decoding a bit vector yields one byte too many unless its length is a multiple of three
  (`Wire.CompressionRoundTrip`); the bits the client set are unharmed (`Wire.BitsSurviveTheWire`).
* A host that is handed the same chunk twice is sent a byte total that is too large, whether the chunk is cut
  short or whole (`Chunks.DiscountedExact`, `Planning.DuplicateCopiesOvercount`). Its handler ends with bytes
  left over (`Daemon.ServePieces`), waits for a task it never started and reports an error, though it may have
  written everything (`ChunkStore.ServeWrite`, `Writing.WrittenButFailed`). So a distributor that puts two
  replicas on one host makes the call for the replicas fail always (`Writing.SucceedsIff`).
* The size a write returns is kept in an `int`: from 2 GiB on it is another number, or negative
  (`Writing.DoWrite`, `Writing.LargeWrite`). The same holds for the lengths `getdents` returns
  (`Dirents.ZeroAtTheEnd`).
* A write succeeds when the replicas were written and the primary was not. A read turns to the primary first,
  and when that is back brings old bytes (`Reading.PrimaryIsRead`, `Reading.StaleRead`,
  `Reading.StaleWriteSucceeds`); copies that missed nothing are what `Reading.ReadAfterHistory` asks for.
* More than 65536 chunks do not fit the 16-bit bit positions (`Daemon.SeenExactlyIff`,
  `Daemon.MisledBeyond16Bits`).
* The random choice among copies never selects the last one: with every other copy lost it does not end
  (`Transfers.DrawSucceedsIff`, `Transfers.LastCopyIsNeverChosen`). Failed hosts are remembered by 8 bits of
  their id (`Transfers.AliasIsShunned`).
* `forward_truncate` computes its last chunk from the difference of the sizes (`Truncation.ContactCoversIff`),
  and a cut inside a chunk fails on the hosts that do not hold it (`Truncation.NothingBeyondIff`,
  `Truncation.CutInsideChunkLeavesOthers`).
* `resolve_new` compares strings, not components, with the mount directory
  (`PathResolution.ClassifiedInternalIff`, `PathResolution.SiblingIsMistaken`).
* A link to the root puts a separator too many in front of what the legacy resolver returns
  (`LegacyResolution.AnswerIsPlainIff`, `LegacyResolution.RootLinkMisleads`), and a link that leads strictly
  below the mount directory makes it throw (`LegacyResolution.WalkReaches`, `LegacyResolution.LinkBelowThrows`).
* `WriteSizeCache::flush` ignores its `evict` argument, so a cached size survives a truncation
  (`SizeCache.TrueSizeIff`, `SizeCache.SizeAfterTruncateIff`); the counter is cleared before the update is sent,
  so a lost update is never repeated (`SizeCache.SyncAfterLoss`).
* `dup2` onto exactly the next descriptor goes unnoticed (`OpenFiles.SoundIff`,
  `OpenFiles.OntoCounterCollides`). The comment that the counter restarts at 3 is out of date: it restarts at
  100000.
* The marks of `protect_user_fds` are never cleared (`InternalFds.CycleRestoresIff`,
  `InternalFds.SecondCycleCloses`), and a descriptor that already sits at the first free slot is lost when it
  is registered (`InternalFds.RelocatedIff`).
* A size of 2^63 or more, a NUL in a path or a '|' in a rename path does not survive serialising
  (`Metadata.RoundTripIff`).
* A server without entries makes the parallel find count the listing of the server before once more
  (`Find.EachListingOnceIff`, `Find.EmptyServerRepeats`).
* Directories whose hashes meet share their entries in the directory-entry cache
  (`DentryCache.RefinesFlatMapIff`).

## Model

| member | source | states |
|---|---|---|
| `Arithmetic.Log2OfPowerOf2` | include/common/arithmetic/arithmetic.hpp:55-58 | counting leading zeros inverts the power on every 64-bit power of two, and the 32-bit mask holds exactly the block sizes |
| `Arithmetic.BlockArithmetic` | include/common/arithmetic/arithmetic.hpp:70-175 | every bit trick equals the division or remainder it stands for, both directions of `is_aligned` |
| `Arithmetic.BlockCountCountsBlocks` | include/common/arithmetic/arithmetic.hpp:192-214 | `block_count` is the cardinality of the set of blocks that hold a byte of the range, 0 for an empty one |
| `Wire.SetThenGet` | src/common/rpc/rpc_util.cpp:115-129 | setting a position sets exactly the positions that agree with it in 16 bits |
| `Wire.AlphabetInOrder` | src/common/rpc/rpc_util.cpp:133-134 | capitals, small letters, digits, plus and slash, in this order |
| `Wire.Base64Encode` | src/common/rpc/rpc_util.cpp:131-159 | the shift-register encoder produces base64 as section 4 of RFC 4648 defines it |
| `Wire.Base64Decode` | src/common/rpc/rpc_util.cpp:161-202 | for any text, the octets regrouped from its sextets, with the extra octet and the refusals the code has |
| `Wire.CompressionRoundTrip` | src/common/rpc/rpc_util.cpp:131-212 | decoding undoes encoding exactly on multiples of three bytes, and what it yields otherwise |
| `Wire.BitsSurviveTheWire` | src/common/rpc/rpc_util.cpp:115-212 | every bit the client set reads the same on the daemon, whatever the length |
| `Chunks.DiscountedExact` | src/client/rpc/forward_data.cpp:158-173 | the client's byte total never falls short of the bytes of the request in the listed chunks, and is that number if and only if no chunk is listed twice |
| `Planning.AddKeepsAgreement` | src/client/rpc/forward_data.cpp:105-127 | handing one chunk to one host keeps lists, targets and their order, bit vectors and end markers in step with what each host was handed |
| `Planning.PlanWrite` | src/client/rpc/forward_data.cpp:80-129 | the planning loops hand every chunk to exactly the hosts of the copies asked for, in order |
| `Planning.BuildRequests` | src/client/rpc/forward_data.cpp:156-216 | one request for every host that gets a chunk, and for no other, in the order of the first chunk each gets |
| `Planning.DistinctIff` | src/client/rpc/forward_data.cpp:103-127 | the copies of every chunk are on distinct hosts if and only if no host is handed a chunk twice |
| `Planning.ChooseTarget` | src/client/rpc/forward_data.cpp:333-342 | the host chosen is the primary unless that is known to have failed, and then one of the other copies that is not; the search ends |
| `Planning.ReadRequests` | src/client/rpc/forward_data.cpp:317-461 | a read, up to sending, picks one eligible host per chunk and dispatches to the picked hosts |
| `Planning.TotalsAreExact` | src/client/rpc/forward_data.cpp:156-173 | every dispatched total is positive and equals the bytes of the range in that host's chunks |
| `Planning.DuplicateCopiesOvercount` | src/client/rpc/forward_data.cpp:103-173 | two copies of a chunk on one host, the chunk cut short or whole: the total sent is one chunk more than the bytes there |
| `Planning.TotalsConserve` | src/client/rpc/forward_data.cpp:156-173 | the totals of all requests add up to the size of the range times the number of copies |
| `Daemon.SeenExactlyIff` | src/daemon/handler/srv_data.cpp:229-240 | for every request the client builds, what a daemon decodes from the bits is the list of its chunks, if and only if the range has no more than 65536 chunks |
| `Daemon.MisledBeyond16Bits` | src/client/rpc/forward_data.cpp:103-127 | beyond that, a request a client builds: a write's host sees a chunk it was not sent, a read's host does not see one it was |
| `Daemon.ServePieces` | src/daemon/handler/srv_data.cpp:200-333 | the handler's loop finds exactly its host's chunks and gives each the right slice of the client's buffer, of the bulk buffer and of the chunk file; bytes are left over if and only if a chunk was handed to the host twice |
| `ChunkStore.ApplyAnyOrder` | src/daemon/ops/data.cpp:184-258 | the order of the write tasklets does not matter |
| `ChunkStore.WaitForTasks` | src/daemon/ops/data.cpp:261-296 | the sizes of the tasks added up; EIO and size zero exactly when fewer tasks were started than the request has chunks |
| `ChunkStore.ServeWrite` | src/daemon/handler/srv_data.cpp:92-360 | a daemon writes, for each of its chunks whose bytes it can pull, exactly the client's bytes of that chunk; EBUSY exactly when the last pull runs past the buffer, otherwise EIO exactly when a chunk was listed twice; the size, zero on any error |
| `DataPath.WriteReachesCopies` | src/client/rpc/forward_data.cpp:64-216 | a write changes every copy on a host that serves it as the flat file changes; copies it is not sent to do not change, on whatever host |
| `DataPath.BothCallsReachEveryCopy` | src/client/gkfs_functions.cpp:978-998 | the two calls of `gkfs_do_write` bring every copy whose host served the call it was sent to the overwritten file, though other hosts failed in between |
| `DataPath.AnyHostMayFail` | src/client/rpc/forward_data.cpp:218-289 | whatever a host that fails has done to the chunks it was sent, within the range, the write is one that the other hosts served |
| `DataPath.ServeRead` | src/daemon/handler/srv_data.cpp:395-635 | a daemon pushes back exactly the stored bytes of its chunks in the range and counts them |
| `DataPath.ApplyPushesAt` | src/daemon/ops/data.cpp:398-550 | after any sequence of pushes that agree, each byte is the one pushed there, or unchanged |
| `DataPath.AnyMergeGathers` | src/client/rpc/forward_data.cpp:394-493 | the hosts' answers, merged in any order, bring every stored byte of the range |
| `DataPath.ReadReturnsStoredBytes` | src/client/rpc/forward_data.cpp:302-505 | each byte read is the chosen host's stored byte, or the caller's own where nothing is stored |
| `DataPath.WriteThenRead` | src/client/gkfs_functions.cpp:923-1200 | a read from hosts that served the write returns the written bytes inside the range and the earlier bytes outside |
| `FlatFile.WriteRefines` | src/client/gkfs_functions.cpp:978-998 | on the copies whose hosts served the calls that concern them, a write takes a store that represents a flat file to one that represents the overwritten file |
| `FlatFile.CurrentCopyIsFlat` | src/client/gkfs_functions.cpp:978-998 | in every history of writes with a live set of their own for each call, a copy that missed no write to its chunk holds the flat file's bytes |
| `FlatFile.HistoryRepresents` | src/client/gkfs_functions.cpp:978-998 | after any such history the copies that missed nothing represent the flat file, chunk by chunk, and have stored every byte ever written |
| `FlatFile.ReadsLikeOneFile` | src/client/rpc/forward_data.cpp:64-505 | after any history of writes, hosts failing and returning between the writes and between their calls, a read from copies that missed nothing returns what one flat file would hold |
| `Writing.ForwardWrite` | src/client/rpc/forward_data.cpp:64-289 | planning, requests and the daemons' handlers together, hosts failing after part of their work: the stores afterwards; no error exactly when every host asked stays up and was handed no chunk twice, otherwise the error number of the last host that fails; and the size |
| `Writing.SucceedsIff` | src/client/rpc/forward_data.cpp:64-289 | with all hosts up a call succeeds if and only if the distributor puts the copies asked for on distinct hosts; otherwise it fails whatever the hosts do |
| `Writing.WrittenButFailed` | src/daemon/ops/data.cpp:261-296 | two replicas on one host: it writes all it is sent and reports EIO |
| `Writing.DoWrite` | src/client/gkfs_functions.cpp:935-1014 | primary copies, then replicas: no error exactly when all hosts of one of the two calls answer without error, otherwise the error number of the last primary that fails; the value returned is the size if and only if that is less than 2 GiB, and -1 on an error |
| `Writing.LargeWrite` | src/client/gkfs_functions.cpp:935-1014 | a write of 3 GiB that every host has served returns a negative number |
| `Reading.DoRead` | src/client/gkfs_functions.cpp:1153-1200 | with hosts down in some rounds and up in others, the retry loop ends after at most one round more than there are hosts ever lost, without EIO; it succeeds exactly when every host picked in the last round serves; then every stored byte is the file's, whatever failed rounds had pushed, and so is every hole if the buffer was zeroed, and the size is the number of positions stored where they were read from, which is what lies below `n` if the copies store exactly the positions below `n`; otherwise -1 and the error number of the last host that failed |
| `ReadSizes.SizeIsCount` | src/client/rpc/forward_data.cpp:463-505 | the sizes the daemons report add up to the number of positions of the range that the copies read from have stored |
| `Reading.ReadAfterHistory` | src/client/gkfs_functions.cpp:1153-1200 | the same after any history of writes, hosts having missed writes to other chunks, or to these if nothing is read from them: every byte ever written is the flat file's, and every hole if the buffer was zeroed; where the writes left no hole the size is how much of the range lies below their reach |
| `Reading.PrimaryIsRead` | src/client/rpc/forward_data.cpp:334-342 | a read turns to the primary copies as long as it has not seen them fail, whatever is drawn |
| `Reading.StaleRead` | src/client/rpc/forward_data.cpp:334-342 | one replica, a primary that missed a write and is back: the read brings the byte of the write before |
| `Reading.StaleWriteSucceeds` | src/client/gkfs_functions.cpp:988-998 | the write that the primary missed has reported success |
| `Reading.StayingIsEnough` | src/client/gkfs_functions.cpp:1171-1183 | with host ids of 8 bits, one selectable copy that is never lost keeps a chunk within reach of the retry loop |
| `Transfers.CollectWrite` | src/client/rpc/forward_data.cpp:218-289 | error-free exactly when every host answered without error; otherwise the error is that of the last bad reply, EIO where it was lost; the size returned, with and without replicas |
| `Transfers.FullTransferReturnsSize` | src/client/rpc/forward_data.cpp:156-289 | when every daemon transfers what it was asked to, the sizes add up to the request |
| `Transfers.CollectRead` | src/client/rpc/forward_data.cpp:466-505 | error-free exactly when every host answered without error, otherwise the last error; the size; and exactly the hosts added to the failed set |
| `Transfers.CollectedError` | src/client/rpc/forward_data.cpp:225-289 | the error of a call is that of the host, among those that fail, whose first chunk comes last in the file |
| `Transfers.DrawSucceedsIff` | src/client/rpc/forward_data.cpp:334-342 | under fair draws the choice of a copy ends, wherever the stream starts, if and only if a copy other than the last is on a host not known to have failed |
| `Transfers.LastCopyIsNeverChosen` | src/client/rpc/forward_data.cpp:334-342 | one replica, the primary failed: no draw ever selects the live replica |
| `Transfers.AliasIsShunned` | src/client/rpc/forward_data.cpp:334-342 | a host whose id agrees with a failed one in 8 bits is never chosen |
| `Transfers.RoundMakesProgress` | src/client/rpc/forward_data.cpp:483-491 | a round of requests in which an answer is lost adds a new host to the failed ones, within those that are down |
| `Truncation.TruncateHosts` | src/client/rpc/forward_data.cpp:531-542 | exactly the hosts of the chunks from the new size to the difference of the sizes |
| `Truncation.ContactCoversIff` | src/client/rpc/forward_data.cpp:531-542 | every host concerned is contacted, for every distributor, if and only if that difference ends in the file's last chunk |
| `Truncation.ForwardTruncate` | src/client/rpc/forward_data.cpp:516-594 | EIO exactly when some contacted host could not carry out the cut or was not heard from; the stores afterwards |
| `Truncation.NothingBeyondIff` | src/daemon/ops/data.cpp:61-94 | no byte at or beyond the new size is left if and only if every host that stores one acts and is able to |
| `Truncation.TruncateDir` | src/daemon/ops/data.cpp:61-94 | when a daemon can carry out the request, the error number otherwise, and its directory afterwards |
| `Truncation.CutFileEnds` | src/daemon/backend/data/chunk_storage.cpp:303-317 | the file of the chunk of the cut ends there, whether it was longer or shorter |
| `Truncation.TrimmedIff` | src/daemon/backend/data/chunk_storage.cpp:275-302 | exactly the chunk files with a position below the cut stay, those before its chunk as they are |
| `Truncation.CarriedIff` | src/daemon/ops/data.cpp:61-94 | a host carries the request out if and only if it is heard from, has a directory for the file and, for a cut inside a chunk, that chunk |
| `Truncation.TruncateRefines` | src/daemon/ops/data.cpp:61-94 | a store that represents a flat file becomes one that represents the file cut at the new size, if the hosts of live copies with bytes beyond it act and are able to |
| `Truncation.TruncateCutsTheFile` | src/client/rpc/forward_data.cpp:516-594 | a truncation that reports no error, with the hosts concerned contacted, cuts the flat file and leaves nothing beyond on any host |
| `FlatFile.HistoryIsWellPlaced` | src/client/rpc/forward_data.cpp:64-289 | after any history of writes chunk files lie on hosts of their chunk and below the reach of the writes, on failed hosts too |
| `Truncation.TruncateAfterHistory` | src/client/rpc/forward_data.cpp:516-594 | so a truncation that reports no error, with the hosts concerned contacted, cuts the flat file of any such history |
| `Truncation.CutInsideChunkLeavesOthers` | src/daemon/ops/data.cpp:74-86 | a cut inside a chunk fails on every host without that chunk and leaves its later chunks |
| `PathNames.PrefixAtBoundary` | src/client/path.cpp:190-190 | one path lies below another if and only if its string continues the other's at a component boundary |
| `PathResolution.ResolveLoop` | src/client/path.cpp:146-188 | the loop with its stack of positions computes the string of the folded component list, and ends |
| `PathResolution.ResolveNew` | src/client/path.cpp:138-201 | `resolve_new` follows the path from the root, or from the canonical working directory if it is relative, and classifies what it reaches; the empty path included |
| `PathResolution.InternalPath` | src/client/path.cpp:190-194 | a path below the mount directory is internal and becomes the path seen from there |
| `PathResolution.NameBelowMount` | src/client/path.cpp:138-194 | a name used in a working directory below the mount directory is that file, seen from the mount directory |
| `PathResolution.PrependRestores` | src/client/hooks.cpp:695-699 | prepending the mount directory again and dropping a trailing slash restores the canonical path |
| `PathResolution.ClassifiedInternalIff` | src/client/path.cpp:190-200 | exactly which paths `resolve_new` takes as internal |
| `PathResolution.SiblingIsMistaken` | src/client/path.cpp:190-194 | a sibling whose name continues the mount directory's is taken as internal |
| `LegacyResolution.SplitPath` | src/common/path_util.cpp:92-107 | the components between separators, a trailing empty one left out |
| `LegacyResolution.MatchComponents` | src/client/path.cpp:74-103 | it throws exactly when the path runs on past the list; otherwise the longest common prefix and the component count |
| `LegacyResolution.Resolve` | src/client/path.cpp:215-351 | paths below /sys/ and /proc/ come back as they are; on any other the legacy loop with its counters and slash positions does the walk component by component, symbolic links, early returns and the exception included |
| `LegacyResolution.WalkReaches` | src/client/path.cpp:241-351 | every path: one that can be walked is answered for the directory it leads to, links followed; any other is external and the string returned names the same directory; the exception comes exactly when a link leads strictly below the mount directory |
| `LegacyResolution.LinkIsFollowed` | src/client/path.cpp:307-326 | a link outside the mount directory is followed, unless it is the last name and `resolve_last_link` is off |
| `LegacyResolution.AnswerIsPlainIff` | src/client/path.cpp:320-342 | the answer for a directory does not depend on the links taken to it, if and only if none led to the root or the directory is the root or the mount directory |
| `LegacyResolution.RootLinkMisleads` | src/client/path.cpp:320-342 | through a link to the root, an internal path is returned with two separators in front |
| `LegacyResolution.LinkBelowThrows` | src/client/path.cpp:320-322 | a link that leads strictly below the mount directory makes `resolve` throw |
| `LegacyResolution.ResolversAgreeIff` | src/client/path.cpp:138-351 | on every path that can be walked without following a link, both resolvers return the same pair, except exactly when the path continues the mount directory's string inside a component |
| `Calendar.DateOfDay` | include/client/logging.hpp:237-286 | day 60 to 425; month, day of month and day of year agree with the Gregorian leap rule |
| `Calendar.Gmtime` | include/client/logging.hpp:207-289 | every 64-bit time becomes a calendar time whose seconds since the Epoch are that time; only the year is cut to 32 bits |
| `Calendar.CivilTimeIsUnique` | include/client/logging.hpp:207-289 | no two calendar times have the same seconds since the Epoch |
| `Calendar.ToldTimeIsUnique` | include/client/logging.hpp:281-289 | the result and its uncut year are determined by the time, and the year is uncut when it fits `tm_year` |
| `SizeCache.WriteSizeCache.Flush` | src/client/cache.cpp:161-173 | what is sent, if anything; the size stays |
| `SizeCache.WriteSizeCache.UpdateSize` | src/client/gkfs_functions.cpp:938-952 | record, and flush past the threshold; a single thread never holds back more than the threshold |
| `SizeCache.TrueSizeIff` | src/client/gkfs_functions.cpp:938-952 | in every run, truncations included and whatever the server knew beforehand, the larger of the server's size and the cached ones is at least the true size of a file, and is it if and only if no write ever reached beyond it |
| `SizeCache.TrueSize` | src/client/gkfs_functions.cpp:938-952 | in every run that does not truncate the file, its true size is the larger of the server's size and the cached ones |
| `SizeCache.PendingIsBounded` | src/client/gkfs_functions.cpp:938-952 | in every run, a client holds back at most the threshold plus one update for each thread about to flush |
| `SizeCache.OwnReach` | src/client/cache.cpp:131-141 | a client's cached size is how far its own writes have reached |
| `SizeCache.AlwaysCovered` | src/client/cache.cpp:143-173 | with its counter at zero a client's size has reached the server, is on its way or was lost, unless the file was truncated |
| `SizeCache.DeliveredOnce` | src/client/cache.cpp:161-173 | an update that arrives makes the server know at least its size, and is no longer on its way |
| `SizeCache.SyncCovers` | src/client/gkfs_functions.cpp:1589-1628 | after fsync or close, once nothing is in flight or lost, the server covers the client's writes and no more than the true size |
| `SizeCache.SyncAfterLoss` | src/client/cache.cpp:161-173 | a second fsync after a lost update sends nothing |
| `SizeCache.SyncDuringFlight` | src/client/cache.cpp:161-173 | an fsync that finds an update in flight returns before the server has it |
| `SizeCache.SizeAfterTruncateIff` | src/client/cache.cpp:161-173 | after any run, a truncation and then a write, flushed and delivered, leave the server with the true size if and only if the client had never written beyond it |
| `OpenFiles.OpenFileMap.SafeGenerateFdIdx` | src/client/open_file_map.cpp:133-153 | the first free descriptor in cyclic order when the flag is on; the search ends |
| `OpenFiles.OpenFileMap.Add` | src/client/open_file_map.cpp:155-161 | the new table; an entry that is there is not replaced |
| `OpenFiles.OpenFileMap.Dup2` | src/client/open_file_map.cpp:191-211 | the new table and when the flag is raised |
| `OpenFiles.SoundIff` | src/client/open_file_map.cpp:155-211 | each operation keeps "flag off means all open descriptors are below the counter" if and only if it is not a `dup2` onto the counter |
| `OpenFiles.CollidesIff` | src/client/open_file_map.cpp:133-161 | exactly when a new descriptor is already open, and that the file is then dropped |
| `OpenFiles.NewIsFresh` | src/client/open_file_map.cpp:155-189 | in a sound table `add` and `dup` return a free descriptor for the right file |
| `OpenFiles.OthersKeepTheirFile` | src/client/open_file_map.cpp:155-211 | no operation changes the file behind another descriptor |
| `OpenFiles.NamedDescriptor` | src/client/open_file_map.cpp:163-211 | in any table: what `remove` closes is closed, and `dup2` makes the descriptor named name the other's file, whatever it named before; -1, and nothing changes, when there is nothing to duplicate |
| `OpenFiles.TableTells` | src/client/open_file_map.cpp:133-234 | in every run without a `dup2` onto the counter, the table holds behind each descriptor the file told by the operations and their results alone |
| `OpenFiles.NeverHandedOutTwice` | src/client/open_file_map.cpp:133-234 | in every run without such a `dup2`, no open descriptor is handed out |
| `OpenFiles.OntoCounterCollides` | src/client/open_file_map.cpp:207-210 | after such a `dup2` the next `add` returns an open descriptor |
| `InternalFds.PreloadContext.RegisterInternalFd` | src/client/preload_context.cpp:472-538 | in place, relocated to the first free slot, exhausted or out of range, with the kernel's table after it |
| `InternalFds.PreloadContext.CloseInternalFd` | src/client/intercept.cpp:404-410 | the descriptor is closed and its slot free again |
| `InternalFds.PreloadContext.HookClose` | src/client/hooks.cpp:89-100 | the application closes what is not the library's, and only that |
| `InternalFds.PreloadContext.ProtectUserFds` | src/client/preload_context.cpp:567-595 | every free user descriptor is taken and marked |
| `InternalFds.PreloadContext.UnprotectUserFds` | src/client/preload_context.cpp:597-614 | every marked descriptor is closed |
| `InternalFds.RelocatedIff` | src/client/preload_context.cpp:486-538 | registering keeps slots and holdings in step if and only if the descriptor is not already at the first free slot |
| `InternalFds.RelocatedElsewhere` | src/client/preload_context.cpp:486-538 | the new descriptor was not held, names the same file, the old one is closed, and no other is disturbed |
| `InternalFds.AlwaysConsistent` | src/client/preload_context.cpp:472-614 | in every run, protecting and unprotecting included, a slot is clear exactly when the library holds that descriptor |
| `InternalFds.ApplicationSparesLibrary` | src/client/gkfs_functions.cpp:1616-1650 | in every run an application close leaves every descriptor of the library open on its file |
| `InternalFds.ProtectedForcesInternal` | src/client/preload_context.cpp:567-595 | while user descriptors are protected the kernel hands out only internal ones |
| `InternalFds.RegisteredInPlace` | src/client/preload_context.cpp:472-614 | while user descriptors are protected a descriptor is registered where it is, and afterwards moved again |
| `InternalFds.CycleRestoresIff` | src/client/preload_context.cpp:567-614 | protecting, any run of the library in between and unprotecting restore the user descriptors if and only if no open one is marked beforehand |
| `InternalFds.SecondCycleCloses` | src/client/preload_context.cpp:567-614 | a second cycle closes what the application opened on descriptors the first one had taken |
| `Metadata.Serialize` | src/common/metadata.cpp:181-219 | the text of a record for any choice of compiled-in fields |
| `Metadata.TextIs` | src/common/metadata.cpp:181-219 | the text field by field: which fields, in which order, a bar before each but the first |
| `Metadata.DecimalIs` | src/common/metadata.cpp:181-219 | numbers are written in decimal, without leading zeros, with a minus sign if negative |
| `Metadata.Parse` | src/common/metadata.cpp:106-178 | the parser with its pointer, throwing conversions and assertions included |
| `Metadata.RoundTripIff` | src/common/metadata.cpp:106-219 | parsing undoes serialising, for every record and choice of fields, if and only if the record is faithful |
| `Metadata.SerialisingIsInjective` | src/common/metadata.cpp:181-219 | two faithful records with the same text agree on every compiled-in field |
| `Dirents.Fill` | src/client/gkfs_functions.cpp:1471-1509 | as many records as fit, one behind the other, and the rest of the buffer unchanged |
| `Dirents.OpenDir.Getdents` | src/client/gkfs_functions.cpp:1453-1585 | 0 at the end, an error without moving when the next record does not fit, otherwise the records that fit and their length converted to `int`; byte by byte each record tells the hash of the name, the position behind the entry, the record length, type 8 for a regular file and 4 for a directory, and the name |
| `Dirents.EachEntryOnce` | src/client/gkfs_functions.cpp:1464-1515 | successive calls, whatever their buffers, deliver the entries in order, each exactly once |
| `Dirents.ZeroAtTheEnd` | src/client/gkfs_functions.cpp:1535-1585 | a call returns 0 exactly when all is delivered, fails exactly when the next record does not fit, moves otherwise, and returns the length delivered if and only if that is less than 2 GiB |
| `Dirents.SessionEnds` | src/client/gkfs_functions.cpp:1464-1515 | with room for any record, as many calls as entries deliver all |
| `Dirents.GetSingleServerDir` | src/client/gkfs_functions.cpp:1767-1823 | the part of the listing that fits, which a walk over the buffer gives back and whose bytes tell size, change time, type and name of each entry; -1 and an untouched buffer when nothing fits or the server failed; the rest of the buffer stays |
| `Dirents.WalkRecovers` | examples/gfind/sfind.cpp:326-357 | stepping by record length stays inside the buffer and recovers exactly the entries packed |
| `Dirents.StoredLengthIff` | src/client/gkfs_functions.cpp:1807-1807 | the stored length is the record's if and only if it fits 16 bits |
| `Find.WalkRecords` | examples/gfind/sfind.cpp:323-358 | whatever the buffer and the length returned: whether the walk stays inside the buffer and ends, and if so every entry up to that length or to an empty name is counted once, the directories queued, the others filtered |
| `Find.DirProcess` | examples/gfind/sfind.cpp:311-360 | the loop over the servers with its one buffer: the counts and the queue after all walks, or the first walk that goes astray |
| `Find.EachListingOnceIff` | examples/gfind/sfind.cpp:316-358 | every entry delivered is counted, and each exactly once if and only if no server that delivers nothing comes after one that delivers something |
| `Find.EmptyServerRepeats` | examples/gfind/sfind.cpp:316-358 | a listing followed by an empty one is met twice |
| `DentryCache.DentryCache.Insert` | src/client/cache.cpp:66-72 | the new cache; the first entry wins |
| `DentryCache.DentryCache.Get` | src/client/cache.cpp:74-83 | the entry found, and the cache after the look-up |
| `DentryCache.DentryCache.ClearDir` | src/client/cache.cpp:85-98 | the cache without the directory |
| `DentryCache.RefinesFlatMapIff` | src/client/cache.cpp:45-125 | in every run over some directories the cache answers like a flat map (first insert wins, look-ups change nothing, clearing removes one directory), if and only if the hashes of the directories differ |

## Left out

- The network, RDMA exposure, thread pools and message encoding; only request contents and answers are modelled. A request that cannot be posted (EBUSY) and the `REPLICA_CHECK` block are not.
- Reads and writes of zero bytes, and ranges whose end, rounded up to a chunk, exceeds 64 bits.
- Distributors, the metadata store, rename and symlink chains, the proxy, `gkfs_pwritev` and `gkfs_preadv`: they would need code outside this model or add only easy members.
- Mount directories that are not canonical strings; `realpath` is taken to return canonical paths.
- Several threads inside one `OpenFileMap` call; methods run one at a time. In `SizeCache` threads and clients interleave between the locked operations.
- Append writes and removal in the size protocol, where the server's update is no maximum.
- `OpenFiles.OpenFileMap.SafeGenerateFdIdx`: asks for fewer open files than indices, without which the source's search does not end.
- `Writing.DoWrite`: asks for at most 65536 chunks, beyond which the bits mislead the daemons (`Daemon.MisledBeyond16Bits`).
- `Reading.DoRead`: asks for at most 65536 chunks, no daemon that itself answers EIO, fair draws and for every chunk a copy other than the last that cannot be taken for a host ever lost; without these the source's loops need not end (`Transfers.DrawSucceedsIff`).
- `ChunkStore.ServeWrite`: on EBUSY gives the chunk writes that were started; the source may cancel those that have not run. What a call leaves on such a host is not relied on.
- `InternalFds.PreloadContext.HookClose`: the table of GekkoFS files is consulted first when an application closes a descriptor; the model starts behind that.
