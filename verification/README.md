# Verified model of the DTIO storage connector and interception layer

This project models two parts of DTIO and proves what they are for.

**The HDF5 connector** keeps every group, dataset and chunk of a file as an object of its own in
an object store. Writing a dataset means finding the chunks that a selection meets, splitting the
selection into one file part and one memory part for each, planning each part as a list of
(memory offset, file offset, length) pieces by merging two run lists, and sending the pieces to the
object stored under the chunk's string key. The main theorem is that this is indistinguishable from
one flat n-dimensional array, also when the elements are converted on the way. Around it stand the
naming of objects and chunks, the counter behind the object ids, the resolution of paths through
hard and soft links with reference-counted groups, the broadcasts with which rank 0 tells the other
ranks what it opened, and the walk over datatypes that decides whether a conversion must start from
the bytes already at the destination.

**The POSIX layer** intercepts `open`, `read`, `write`, `lseek` and `close` for configured paths,
keeps its own table of descriptors and offsets, and sends positioned reads and writes to a server.
The main theorem says exactly on which calls, and so on which runs, a program cannot tell that the
layer is there.

The only implementation of the connector's helpers is `adapter/vol/vol-old/H5VLDTIO.cc`;
`adapter/vol/CMakeLists.txt:5` builds `adapter/vol/H5VLDTIO.cc`, where their bodies are empty. The
model follows `vol-old`.

## Modules

| file | contents |
|---|---|
| `Codec.dfy` | 64-bit little-endian loops, dataset records, link values |
| `Runs.dfy`, `IoPlan.dfy` | run lists and their merge; the three planners over batched iterators |
| `Grid.dfy`, `Dataspace.dfy` | coordinates, row-major order, the chunk grid; selections and their byte runs |
| `ChunkEnum.dfy` | the odometer that enumerates chunks and splits selections |
| `Keys.dfy` | binary oids and string keys |
| `Transfer.dfy`, `FlatArray.dfy`, `DatasetIo.dfy` | executing plans; the flat array; the write and read calls |
| `PackedIo.dfy`, `TypedWrite.dfy` | packed conversion buffers; the write call when memory and file types differ |
| `ArrayHistory.dfy` | whole histories of writes against one flat array per dataset |
| `Namespace.dfy`, `GroupRefs.dfy` | path resolution; the traversal code with counts and buffer patching |
| `ObjectIds.dfy` | the id counter over sessions and ranks, in every interleaving |
| `Recreation.dfy` | what the datasets of a file that is created again find under their keys |
| `Broadcast.dfy` | leader and follower sides of opening groups, datasets and files |
| `TypeWalk.dfy` | the background-fill decision |
| `PathConfig.dfy`, `PosixShim.dfy`, `FdTable.dfy` | interception table; the layer against POSIX; the descriptor table under concurrency |

## How foreign code is modelled

- Where the source goes on with bytes that did not arrive, the modelled reader refuses: a dataset
  record whose lengths reach past it, a sum of lengths that overflows, a length that an `int` cannot
  count, a second file message without a buffer. The source makes no such test.
- An HDF5 selection is a list of coordinate vectors in strictly increasing row-major order inside an
  extent: a finite set in canonical form. Block intersection, AND with a hyperslab, moving a
  selection and the shape test are defined on it (`Dataspace.dfy`).
- A selection iterator hands out runs of positive length in row-major order, between 1 and 128 per
  call; how many is left open, and so is whether adjacent elements share a run. Every result holds
  for every way to cut the list.
- Bytes of an object that were never written read as zero.
- `H5Dgather` packs the selected memory elements. `H5Tconvert` converts element by element over a
  background buffer: compounds by member names, arrays by elements, simple types by any function of
  their bytes. It uses the background buffer as scratch space and may leave anything in it.
- A broadcast is a message; a receive fails unless a message of exactly the expected size is there.
- The operating system keeps one byte sequence per path and one offset per descriptor; the server
  uses the same definitions in a process of its own.
- Errors that the source prints and continues after are modelled as error returns without effect.

## Where the code departs from its intent

- `dataset_read` tests and passes whole arrays (`adapter/vol/vol-old/H5VLDTIO.cc:1154`, `:1165`)
  where `dataset_write` indexes them (`:1482`, `:1492`). The model follows the write form, for one
  dataset per call.
- Soft-link decoding copies from `val + 1` instead of the value just read
  (`adapter/vol/vol-old/H5VLDTIO.cc:2705`). The model copies from the value.
- Opening a file whose root properties exceed the static buffer does not work: the leader stops on
  an assertion, and the follower's code expects a second message
  (`adapter/vol/vol-old/H5VLDTIO.cc:1839-1853`, `:1895-1910`). `Broadcast.FileAgreement` gives the
  exact condition.
- A hard-link value is decoded without a look at its length (`adapter/vol/vol-old/H5VLDTIO.cc:2692-2697`).
  `Codec.LinkRoundTrip` says when a value is its own encoding.
- The three lengths of a dataset record are added in 64 bits (`adapter/vol/vol-old/H5VLDTIO.cc:899`),
  so the check can be fooled: `Codec.OverflowPasses` is a record that passes and that no writer stored.
  `Codec.PassingIsStoredIff` says that of the records that pass exactly those without overflow were
  stored.
- Creating a file that exists starts its count over (`adapter/vol/vol-old/H5VLDTIO.cc:1697`), so ids
  and chunk keys of the earlier contents come back: `ObjectIds.RecreatedShares` is such a program, and
  `ObjectIds.RunIdsNeverReused` says exactly which objects share an id.
- No chunk is removed when a file is created again. `Recreation.StaleIff` says exactly when a byte of
  the new contents that was never written is not zero.
- A write asks `H5VL_dtio_tconv_init` about a conversion from the file type to the memory type
  (`adapter/vol/vol-old/H5VLDTIO.cc:1391-1393`), but converts from memory to file (`:1544`). When it does
  not fill the background although the conversion needs it, the bytes that the memory type does not
  give are taken from an uninitialized buffer. `TypedWrite.HarmlessIff` is the exact condition on the
  two types, and `TypedWrite.PartialWrite` a pair of types that fails it: one member written of two.
- The background buffer of a write has room for memory elements (`adapter/vol/vol-old/H5VLDTIO.cc:1449`)
  and receives file elements (`:1517`, `:1544`). `TypedWrite.Overruns` says exactly when they do not
  fit; there the model refuses before it writes.
- A dataset without a serialized datatype, an empty property list, and a message longer than an `int`
  can count, do not reach the followers; `Broadcast.DatasetAgreement`, `Broadcast.GroupAgreement` and
  `Broadcast.FileAgreement` say so exactly.
- The layer never moves the kernel's offset on reads and writes, returns the requested count at end
  of file, and ignores `O_APPEND` and the access mode (`adapter/posix/posix_api.cc:211-330`).
  `PosixShim.StepAgrees` is the exact condition for each call.
- The server opens a descriptor for every request and closes none
  (`dtio_chimods/dtiomod/src/dtiomod_runtime.cc:75`, `:139`). When it has none left, reads leave the
  buffer as it was and writes are lost, while the layer reports success; the guards count this in.
- `ShouldIntercept` matches textual prefixes, so `/tmpfile` counts as under `/tmp`
  (`include/dtio/config_manager.h:72-80`); see `PathConfig.DefaultIntercepts`.
- The flag for telling followers that the leader failed is set and cleared but never acted on
  (`adapter/vol/vol-old/H5VLDTIO.cc:841`, `:1818`, `:2086`). A leader that fails before it broadcasts
  leaves the followers without a message, and none of their opens succeeds (`Broadcast.SilentLeader`).
- One path both included and excluded makes the answer depend on an unstable sort;
  `PathConfig.OrderIrrelevantIffNoConflict` shows that nothing else does.

## Model

| member | source | states |
|---|---|---|
| Codec.Uint64Encode | adapter/vol/vol-old/H5VLDTIO.cc:46-56 | the shifting loop leaves the eight little-endian bytes at p, everything else in the buffer as it was, and p eight further |
| Codec.Uint64Decode | adapter/vol/vol-old/H5VLDTIO.cc:58-67 | the backward loop returns the number that the eight bytes stand for |
| Codec.Uint64RoundTrip | adapter/vol/vol-old/H5VLDTIO.cc:46-67 | the two loops' values invert each other in both directions |
| Codec.LowByteFirst | adapter/vol/vol-old/H5VLDTIO.cc:46-56 | the low-order byte is stored first and the high-order byte last |
| Codec.RecordWrite | adapter/vol/vol-old/H5VLDTIO.cc:721-753 | the metadata buffer of a new dataset holds exactly three length words and the three blobs |
| Codec.RecordLayout | adapter/vol/vol-old/H5VLDTIO.cc:721-753 | the lengths are the first three words of a record, in the order datatype, dataspace, properties, and the blobs follow in that order |
| Codec.RecordRoundTrip | adapter/vol/vol-old/H5VLDTIO.cc:894-900 | every record that was written passes the length check and decodes to its three blobs |
| Codec.RecordAcceptedIsWritten | adapter/vol/vol-old/H5VLDTIO.cc:894-900 | testing the slices as well accepts exactly the records that some writer stored, and decodes each to what was stored |
| Codec.PassingIsStoredIff | adapter/vol/vol-old/H5VLDTIO.cc:894-900 | of the records that pass the length check exactly those whose lengths do not overflow together were stored by a writer |
| Codec.OverflowPasses | adapter/vol/vol-old/H5VLDTIO.cc:894-900 | lengths of 2^63, 2^63 and 0 in a record of 24 bytes pass the check, and no writer stores that record |
| Codec.LinkWrite | adapter/vol/vol-old/H5VLDTIO.cc:2754-2792 | the first valLen bytes of the buffer are the link's encoding, in a larger buffer only when the static one is too small |
| Codec.LinkRead | adapter/vol/vol-old/H5VLDTIO.cc:2681-2718 | the value read is decoded by type byte; an empty value or unknown type is refused |
| Codec.LinkRoundTrip | adapter/vol/vol-old/H5VLDTIO.cc:2681-2792 | links decode to what was encoded, and a decodable value starts with its encoding and equals it unless a hard link has trailing bytes |
| Runs.MergePairsBytes | adapter/vol/vol-old/H5VLDTIO.cc:3907-3962 | for any two run lists of equal size the plan pairs the k-th memory byte with the k-th file byte, for every k, once and in order |
| Runs.MergeCount | adapter/vol/vol-old/H5VLDTIO.cc:3907-3962 | m memory runs and f file runs give at most m + f - 1 pieces, none empty |
| Runs.MergeBoundaries | adapter/vol/vol-old/H5VLDTIO.cc:3928-3961 | pieces end exactly where a run of one of the two sides ends |
| Runs.MatchIsMerge | adapter/vol/vol-old/H5VLDTIO.cc:4015-4034 | the matching plan is the merge of a run list with itself |
| Runs.ContigIsMerge | adapter/vol/vol-old/H5VLDTIO.cc:4082-4102 | the contiguous plan is the merge against one memory run |
| IoPlan.SelIter.GetSeqList | adapter/vol/vol-old/H5VLDTIO.cc:3910-3926 | a batch is some non-empty prefix of the runs still to come, put into the two arrays |
| IoPlan.SelIter.Refill | adapter/vol/vol-old/H5VLDTIO.cc:3908-3926 | fetching the next batch when the last is used up changes nothing about what is still to be transferred |
| IoPlan.SelIter.Use | adapter/vol/vol-old/H5VLDTIO.cc:3943-3960 | the in-place index and length update takes exactly n bytes off the front of what is left |
| IoPlan.MergeOne | adapter/vol/vol-old/H5VLDTIO.cc:3928-3960 | one round emits the longest stretch both sides still hold and takes it off both |
| IoPlan.PlanStep | adapter/vol/vol-old/H5VLDTIO.cc:3907-3962 | a round keeps both sides equal to the bytes still to plan, so the count reaches exactly 0 and no index leaves its batch |
| IoPlan.BuildIoOpMerge | adapter/vol/vol-old/H5VLDTIO.cc:3866-3974 | whatever the batches, the batched in-place merge emits the merge of the two whole run lists |
| IoPlan.BuildIoOpMatch | adapter/vol/vol-old/H5VLDTIO.cc:3989-4043 | whatever the batches, each file run is transferred at its own offset |
| IoPlan.BuildIoOpContig | adapter/vol/vol-old/H5VLDTIO.cc:4058-4111 | whatever the batches, the file runs are transferred to consecutive memory from 0 |
| Dataspace.Iterate | adapter/vol/vol-old/H5VLDTIO.cc:3895-3926 | however the iterator joins adjacent elements, its runs hold the selected elements' bytes, all and in order, and their element counts add up |
| Dataspace.SpacedBytesIncrease | adapter/vol/vol-old/H5VLDTIO.cc:3895-3926 | the bytes of a selection are strictly increasing: no byte twice |
| Dataspace.AllPointsMembers | adapter/vol/vol-old/H5VLDTIO.cc:1360-1372 | H5S_ALL selects exactly the points of the extent |
| Dataspace.AllPointsLinear | adapter/vol/vol-old/H5VLDTIO.cc:1360-1372 | and lists them in row-major order: the linear position of a point is its place in the list, which has as many places as the extent has points |
| Dataspace.BoundsTouch | adapter/vol/vol-old/H5VLDTIO.cc:3648-3653 | each side of the bounding box touches a selected point |
| Dataspace.SameShapeIff | adapter/vol/vol-old/H5VLDTIO.cc:3676-3680 | two selections pass the shape test exactly when some vector moves one to the other |
| ChunkEnum.InfoPoints | adapter/vol/vol-old/H5VLDTIO.cc:3725-3794 | point p of the chunk at c becomes chunk point p - c and memory point p - file_sel_start + mem_sel_start |
| ChunkEnum.InfoValid | adapter/vol/vol-old/H5VLDTIO.cc:3725-3794 | for selections of one shape, both selections of a chunk lie inside their extents |
| ChunkEnum.NextCellIsNext | adapter/vol/vol-old/H5VLDTIO.cc:3814-3839 | the odometer moves to the next grid cell of the bounding box in row-major order, with none in between |
| ChunkEnum.SomeLater | adapter/vol/vol-old/H5VLDTIO.cc:3823-3839 | while points remain uncounted some dimension can still move on, so the carry never leaves the dimensions |
| ChunkEnum.FromNext | adapter/vol/vol-old/H5VLDTIO.cc:3804-3811 | moving on takes exactly the visited cell's points off the count, which never goes below zero |
| ChunkEnum.CellsLeftDrops | adapter/vol/vol-old/H5VLDTIO.cc:3681-3840 | the number of unvisited cells of the bounding box strictly decreases |
| ChunkEnum.BlockTest | adapter/vol/vol-old/H5VLDTIO.cc:3685-3692 | the block test finds a cell occupied exactly when its file selection is not empty |
| ChunkEnum.MoveOn | adapter/vol/vol-old/H5VLDTIO.cc:3814-3839 | the carry loop produces the next cell and keeps the end coordinates at start + chunk - 1 |
| ChunkEnum.Reserve | adapter/vol/vol-old/H5VLDTIO.cc:3697-3704 | after doubling there is room for entry i and the earlier entries are kept |
| ChunkEnum.VisitCell | adapter/vol/vol-old/H5VLDTIO.cc:3685-3812 | an occupied cell appends its entry and takes its points off the count; an empty one changes nothing |
| ChunkEnum.ChunkEntry | adapter/vol/vol-old/H5VLDTIO.cc:3706-3794 | the sequence of selection operations yields the two selections of the chunk |
| ChunkEnum.WalkRound | adapter/vol/vol-old/H5VLDTIO.cc:3682-3840 | a round leaves the list complete for all cells before the odometer and the count exact, and has the whole list when the count is 0 |
| ChunkEnum.Walk | adapter/vol/vol-old/H5VLDTIO.cc:3681-3840 | the loop ends with every chunk that the selection meets, once, in row-major order |
| ChunkEnum.GetSelectedChunkInfo | adapter/vol/vol-old/H5VLDTIO.cc:3605-3851 | succeeds exactly for a non-empty file selection that some vector moves to the memory selection, with the complete chunk list |
| ChunkEnum.ChunksPartition | adapter/vol/vol-old/H5VLDTIO.cc:3681-3840 | every selected point is in the file selection of exactly one entry, and nothing else is in any |
| ChunkEnum.ChunkListUnique | adapter/vol/vol-old/H5VLDTIO.cc:3681-3840 | the specification of the chunk list has exactly one solution |
| Keys.BinaryOidInjective | adapter/vol/vol-old/H5VLDTIO.cc:2375-2419 | index and type can be read back from an oid; oids coincide exactly for equal types and indices modulo 2^62 |
| Keys.OidLayout | adapter/vol/vol-old/H5VLDTIO.cc:29-32 | the two top bits are 0 for a group, 1 for a dataset and 2 for a datatype |
| Keys.Hex16RoundTrip | adapter/vol/vol-old/H5VLDTIO.cc:2283-2371 | sixteen hexadecimal digits determine the 64-bit number |
| Keys.KeyRoundTrip | adapter/vol/vol-old/H5VLDTIO.cc:2283-2371 | file name, oid, rank and chunk location can be decoded from every key |
| Keys.KeysDistinct | adapter/vol/vol-old/H5VLDTIO.cc:2283-2371 | no two distinct objects or chunks of any files share a key |
| Keys.Print | adapter/vol/vol-old/H5VLDTIO.cc:2290-2305 | formatted printing into a bounded buffer: the text and a NUL if it fits, the full length in any case |
| Keys.OidCreateString | adapter/vol/vol-old/H5VLDTIO.cc:2283-2314 | an object's key is built in a buffer of exactly its length plus one |
| Keys.OidCreateChunk | adapter/vol/vol-old/H5VLDTIO.cc:2320-2371 | a chunk's key is built in the given or a fresh buffer of exactly its length plus one |
| Keys.PrintLocation | adapter/vol/vol-old/H5VLDTIO.cc:2353-2364 | the loop appends sixteen digits per dimension behind the string so far |
| Transfer.WriteMoves | adapter/vol/vol-old/H5VLDTIO.cc:1549-1552 | executing a write plan moves each planned memory byte to its object byte |
| Transfer.WriteKeeps | adapter/vol/vol-old/H5VLDTIO.cc:1549-1552 | and leaves every other object byte alone |
| Transfer.ReadMoves | adapter/vol/vol-old/H5VLDTIO.cc:1177-1180 | executing a read plan moves each planned object byte to its memory byte |
| Transfer.ReadKeeps | adapter/vol/vol-old/H5VLDTIO.cc:1177-1180 | and leaves every other memory byte alone |
| Transfer.MergePairsElements | adapter/vol/vol-old/H5VLDTIO.cc:3907-3962 | for whatever runs the two iterators hand out, the merged plan pairs byte b of the k-th memory element with byte b of the k-th file element, and covers nothing else |
| FlatArray.PlanPairs | adapter/vol/vol-old/H5VLDTIO.cc:1488-1503 | whatever the iterators hand out, merging it gives a plan that pairs the elements of the chunk's two selections and stays inside the buffer |
| FlatArray.MatchingSelections | adapter/vol/vol-old/H5VLDTIO.cc:1475-1493 | the guard that selects the matching planner implies that the two selections coincide |
| FlatArray.WriteChunk | adapter/vol/vol-old/H5VLDTIO.cc:1452-1557 | writing one chunk gives the flat array the memory values at that chunk's selected points and changes no other point |
| FlatArray.WriteChunkKeeps | adapter/vol/vol-old/H5VLDTIO.cc:1458-1462 | and touches no object under any key that is not the dataset's own |
| FlatArray.AllUpdated | adapter/vol/vol-old/H5VLDTIO.cc:1452-1557 | the chunks together update exactly the selected points of the array |
| FlatArray.ChunkedPieces | adapter/vol/vol-old/H5VLDTIO.cc:1415-1425 | the enumerated chunks cover the two selections, pairing the same points |
| FlatArray.ContiguousPieces | adapter/vol/vol-old/H5VLDTIO.cc:1399-1413 | a contiguous dataset is a single chunk at the origin |
| FlatArray.ReadChunk | adapter/vol/vol-old/H5VLDTIO.cc:1122-1282 | reading one chunk fills in that chunk's memory elements and no others |
| FlatArray.AllRead | adapter/vol/vol-old/H5VLDTIO.cc:1122-1282 | the chunks together fill every selected memory element with the flat array's value and leave the rest of the buffer |
| FlatArray.ReadAfterWrite | adapter/vol/vol-old/H5VLDTIO.cc:1396-1557 | a read with a write's selections returns the memory that was written, and keeps the rest of its buffer |
| FlatArray.OtherDatasetKept | adapter/vol/vol-old/H5VLDTIO.cc:1458-1462 | a write changes no byte of any other dataset of any file |
| FlatArray.MetadataKept | adapter/vol/vol-old/H5VLDTIO.cc:1458-1462 | a write changes no object's metadata |
| DatasetIo.ObjectStore.WriteOperate | adapter/vol/vol-old/H5VLDTIO.cc:1549-1552 | the pieces of a write operation are applied in order to one object |
| DatasetIo.ObjectStore.ReadOperate | adapter/vol/vol-old/H5VLDTIO.cc:1177-1180 | the pieces of a read operation are applied in order to the buffer |
| DatasetIo.PrepareChunks | adapter/vol/vol-old/H5VLDTIO.cc:1396-1432 | the chunk array covers the selections, with one entry for each chunk that holds as many points as are selected there, and fails exactly when a chunked transfer has two shapes |
| DatasetIo.PlanChunk | adapter/vol/vol-old/H5VLDTIO.cc:1472-1504 | either planner gives a plan for the chunk, the fast one where its guard allows it |
| DatasetIo.WriteChunks | adapter/vol/vol-old/H5VLDTIO.cc:1452-1557 | the write loop updates the flat array at exactly the selected points and no other object |
| DatasetIo.DatasetWrite | adapter/vol/vol-old/H5VLDTIO.cc:1315-1557 | a write succeeds exactly with write intent, equal numbers of points and, if chunked, memory points that all lie one way from their file points; then each file point has the bytes of the memory point that goes with it and all else is kept; otherwise nothing changes |
| DatasetIo.ReadChunks | adapter/vol/vol-old/H5VLDTIO.cc:1122-1282 | the read loop fills every selected memory element from the flat array |
| DatasetIo.DatasetRead | adapter/vol/vol-old/H5VLDTIO.cc:998-1282 | a read succeeds exactly for equal numbers of points and, if chunked, memory points that all lie one way from their file points; then each memory point has the bytes of its file point and the rest of the buffer is kept; otherwise it is unchanged |
| DatasetIo.RealTogether | adapter/vol/vol-old/H5VLDTIO.cc:1361-1376 | what the two dataspace arguments come down to: the points that go together are those at one position of the real selections |
| DatasetIo.ShapesIff | adapter/vol/vol-old/H5VLDTIO.cc:3676-3680 | the shape test of the real selections is that memory lies one way from the file |
| DatasetIo.WholeWrite | adapter/vol/vol-old/H5VLDTIO.cc:1361-1376 | with H5S_ALL twice every byte of every point of the dataset is the byte at its row-major place of the buffer |
| DatasetIo.WholeRead | adapter/vol/vol-old/H5VLDTIO.cc:1043-1058 | the mirror for reads |
| DatasetIo.SelectionWrite | adapter/vol/vol-old/H5VLDTIO.cc:1361-1376 | the k-th point of a file selection gets the k-th memory element, or without a memory selection the element at its own place |
| DatasetIo.WholeFromSelection | adapter/vol/vol-old/H5VLDTIO.cc:1361-1376 | with H5S_ALL for the file alone the point at row-major place k gets the k-th element of the memory selection |
| DatasetIo.WholeOutcome | adapter/vol/vol-old/H5VLDTIO.cc:1361-1376 | with H5S_ALL for memory the sizes and shapes always agree; with it for the file alone the sizes agree exactly if memory has as many points as the dataset |
| PackedIo.PackedElement | adapter/vol/vol-old/H5VLDTIO.cc:1537-1547 | elements packed one after the other are found in their places |
| PackedIo.ContigPlan | adapter/vol/vol-old/H5VLDTIO.cc:4058-4111 | whatever the iterator hands out, the contiguous plan pairs byte b of the j-th packed element with byte b of the j-th selected one |
| PackedIo.StoredFrom | adapter/vol/vol-old/H5VLDTIO.cc:1549-1552 | writing out a packed buffer stores element j at the point that entry j of the chunk stands for |
| PackedIo.StoredElsewhere | adapter/vol/vol-old/H5VLDTIO.cc:1549-1552 | and changes no other point of the dataset |
| PackedIo.ReadInto | adapter/vol/vol-old/H5VLDTIO.cc:1511-1527 | reading into a packed buffer puts the element stored at that point at place j |
| TypedWrite.GatherAndConvert | adapter/vol/vol-old/H5VLDTIO.cc:1537-1547 | the packed buffer ends with each selected memory element converted over the element of the background at its place |
| TypedWrite.ConvertedChunk | adapter/vol/vol-old/H5VLDTIO.cc:1505-1552 | one chunk's points get their memory elements converted over the bytes stored before the call, if those are read, else over what the background buffer held; no other point changes |
| TypedWrite.WriteConvertedChunk | adapter/vol/vol-old/H5VLDTIO.cc:1453-1557 | one round of the loop does so, with reused buffers and key string |
| TypedWrite.WriteConverted | adapter/vol/vol-old/H5VLDTIO.cc:1434-1557 | buffers made for whole chunks are large enough for every entry, and the loop converts exactly the selected points |
| TypedWrite.EntriesOverrun | adapter/vol/vol-old/H5VLDTIO.cc:1447-1449 | some entry exceeds the background buffer exactly when some chunk has too many selected points |
| TypeWalk.FillHasBuffer | adapter/vol/vol-old/H5VLDTIO.cc:1508-1509 | the assertion holds: the background is never to be filled without a buffer |
| TypedWrite.DatasetWriteAs | adapter/vol/vol-old/H5VLDTIO.cc:1315-1557 | the whole call with any memory type: it succeeds exactly with write intent, equal sizes, a walk that does not fail, equal shapes if chunked, a background that fits and types that convert; then, for equal types, file points have the bytes of their memory points; for others each byte of a simple type inside is the conversion of that type's own source bytes in the memory element, and bytes that no conversion reaches are kept if the background was filled; all other points are kept; otherwise nothing changes |
| TypedWrite.HarmlessIff | adapter/vol/vol-old/H5VLDTIO.cc:1391-1393 | what the background buffer held never shows if and only if the file type is filled by the memory type whenever it fills it |
| TypedWrite.WriteAsIntended | adapter/vol/vol-old/H5VLDTIO.cc:1505-1547 | then every selected point ends as its memory element converted over the bytes stored before |
| TypedWrite.EachByte | adapter/vol/vol-old/H5VLDTIO.cc:1505-1547 | in any case a byte inside a simple type is the conversion of that type's own source bytes, and any other stays if the background was filled and is the buffer's if not |
| TypedWrite.UnreachedIff | adapter/vol/vol-old/H5VLDTIO.cc:3325-3505 | the bytes outside all simple types are those that the conversion does not write |
| TypedWrite.LeafFromBuffer | adapter/vol/vol-old/H5VLDTIO.cc:1537-1547 | the source bytes of a simple type are a stretch of the caller's buffer, at its offset in the memory element |
| TypedWrite.ConvertedIsWroteAs | adapter/vol/vol-old/H5VLDTIO.cc:1505-1552 | the converting write of the real selections is what the arguments mean, byte by byte |
| TypedWrite.SimpleWrite | adapter/vol/vol-old/H5VLDTIO.cc:1537-1552 | from one simple type to another each stored byte is the conversion of the whole memory element |
| TypedWrite.PartialWrite | adapter/vol/vol-old/H5VLDTIO.cc:1391-1393 | writing one member of two passes every check, fills nothing, and does not keep the other member |
| ArrayHistory.LastCall | adapter/vol/vol-old/H5VLDTIO.cc:1315-1557 | what one write means for any point of any dataset |
| ArrayHistory.LastWriteWins | adapter/vol/vol-old/H5VLDTIO.cc:1315-1557 | after any sequence of writes to any datasets of any files, every byte is that of the last write that selected its point, or the initial one |
| ArrayHistory.ReadSeesLatest | adapter/vol/vol-old/H5VLDTIO.cc:998-1282 | a read after any such sequence returns exactly those bytes at its selected elements |
| Namespace.NameHasNoSlash | adapter/vol/vol-old/H5VLDTIO.cc:3000-3040 | the returned last component holds no separator |
| Namespace.TraverseComposes | adapter/vol/vol-old/H5VLDTIO.cc:2967-3046 | traversing p/q is resolving p and traversing q from there, on success and on failure |
| Namespace.PathComposes | adapter/vol/vol-old/H5VLDTIO.cc:2967-3046 | the same for absolute and relative paths as users write them |
| Namespace.StoredHard | adapter/vol/vol-old/H5VLDTIO.cc:2692-2697 | a link value stored for a hard link leads to its oid, at every depth |
| Namespace.StoredSoft | adapter/vol/vol-old/H5VLDTIO.cc:2698-2712 | one stored for a soft link leads where its path up to the first NUL leads, from the group that holds it or from the root |
| Namespace.NotStored | adapter/vol/vol-old/H5VLDTIO.cc:2681-2718 | where nothing is stored that begins with a link, following fails |
| Namespace.PathStarts | adapter/vol/vol-old/H5VLDTIO.cc:2967-2990 | absolute paths start at oid 1, others at the given group |
| Namespace.HardPath | adapter/vol/vol-old/H5VLDTIO.cc:2967-3046 | a path over stored hard links ends in the group that the last of them names |
| Namespace.FollowMonotone | adapter/vol/vol-old/H5VLDTIO.cc:2840-2908 | an answer found at some nesting depth is the answer at every greater depth |
| Namespace.FollowEndsIff | adapter/vol/vol-old/H5VLDTIO.cc:2840-2908 | following a link ends if and only if the soft links that its resolution follows can be ranked so that each follows only smaller ones |
| Namespace.AllEndIff | adapter/vol/vol-old/H5VLDTIO.cc:2840-2908 | every link of the file can be followed to an end if and only if one ranking serves all soft links |
| Namespace.DepthBound | adapter/vol/vol-old/H5VLDTIO.cc:2840-2908 | a resolution ends if and only if it ends within as many levels as the file has soft links |
| Namespace.TraverseEndsIff | adapter/vol/vol-old/H5VLDTIO.cc:2967-3046 | a traversal ends at some depth exactly when every link that it follows does |
| Namespace.TraverseDepthBound | adapter/vol/vol-old/H5VLDTIO.cc:2967-3046 | a traversal that ends gives its answer within as many levels as the file has soft links |
| Namespace.SelfLinkDiverges | adapter/vol/vol-old/H5VLDTIO.cc:2840-2908 | a soft link that names itself exhausts every depth |
| GroupRefs.GroupClose | adapter/vol/vol-old/H5VLDTIO.cc:2236-2251 | one reference less; the group is released exactly when none is left |
| GroupRefs.FindSlash | adapter/vol/vol-old/H5VLDTIO.cc:3000-3003 | the search stops at the first separator or at the NUL |
| GroupRefs.LinkFollow | adapter/vol/vol-old/H5VLDTIO.cc:2840-2908 | the code computes the specified target, for a stored hard link its oid; on success and on failure the counts of the caller's groups end as they began and every group opened on the way is released |
| GroupRefs.FollowSoft | adapter/vol/vol-old/H5VLDTIO.cc:2863-2890 | the same for the target path of a soft link, also for the group that the path leads to |
| GroupRefs.FollowLast | adapter/vol/vol-old/H5VLDTIO.cc:2874-2883 | an empty last component or a dot gives the group itself, any other is followed; the reference on the group is given up, and the group with it unless the caller holds it; every other group opened is released |
| GroupRefs.LinkFollowComp | adapter/vol/vol-old/H5VLDTIO.cc:2926-2949 | the NUL written over the separator is taken back: the path buffer ends byte for byte as it began; every group opened on the way is released |
| GroupRefs.NextGroup | adapter/vol/vol-old/H5VLDTIO.cc:3010-3030 | the reference on a group is exchanged for one on the group its component leads to; a group that the caller does not hold is released by that, and so is every other one opened |
| GroupRefs.TraverseLoop | adapter/vol/vol-old/H5VLDTIO.cc:3000-3036 | the loop computes the specified traversal, passing on the one reference it was given; whichever way it ends, every group opened on the way but the returned one is released |
| GroupRefs.GroupTraverse | adapter/vol/vol-old/H5VLDTIO.cc:2967-3046 | exactly one new reference, on the returned group, on success and none on failure; every other group opened on the way is released; no group is used after release; the buffer is unchanged |
| ObjectIds.FileObj.NewObject | adapter/vol/vol-old/H5VLDTIO.cc:697-702 | a creation takes the next index on every rank and marks the count dirty on the leader alone |
| ObjectIds.FileObj.Create | adapter/vol/vol-old/H5VLDTIO.cc:1697-1728 | creation starts the count at 0 and the root group takes index 1 |
| ObjectIds.FileObj.Flush | adapter/vol/vol-old/H5VLDTIO.cc:2435-2477 | the maximum is stored exactly when the file is writable and the count dirty, and is clean afterwards |
| ObjectIds.FileObj.Open | adapter/vol/vol-old/H5VLDTIO.cc:1820-1827 | the count continues from the eight bytes stored or sent |
| ObjectIds.SequentialCount | adapter/vol/vol-old/H5VLDTIO.cc:2435-2477 | over any program of creations, flushes, closes, reopens and re-creations every oid follows from the object's place in its contents modulo 2^62, and a clean flag means the stored maximum is current |
| ObjectIds.RunAgrees | adapter/vol/vol-old/H5VLDTIO.cc:1820-1827 | in every interleaving of the ranks each rank is in the state the sequential program has at its position |
| ObjectIds.RanksAgree | adapter/vol/vol-old/H5VLDTIO.cc:697-702 | ranks at the same position hold the same maximum and give a new object the same oid; a clean leader's maximum is the stored one |
| ObjectIds.RootIsFirst | adapter/vol/vol-old/H5VLDTIO.cc:1730-1735 | the root group of new contents has the oid that absolute paths start from |
| ObjectIds.CountSurvives | adapter/vol/vol-old/H5VLDTIO.cc:2435-2477 | a flush stores the current maximum, and closing and opening goes on from it |
| ObjectIds.ObjectsMade | adapter/vol/vol-old/H5VLDTIO.cc:690-702 | objects are made exactly in files open for writing, with the next index |
| ObjectIds.ContentsBegun | adapter/vol/vol-old/H5VLDTIO.cc:1697-1735 | new contents begin exactly when the file is not open, with a group at index 1 |
| ObjectIds.IdsNeverReused | adapter/vol/vol-old/H5VLDTIO.cc:2375-2419 | over the history of a file all indices differ if and only if it was created once and holds at most 2^62 objects |
| ObjectIds.SharedIff | adapter/vol/vol-old/H5VLDTIO.cc:2375-2419 | two objects share an index exactly when their places in their contents agree modulo 2^62, and an oid exactly when they are also of one kind |
| ObjectIds.NeverReusedWithin | adapter/vol/vol-old/H5VLDTIO.cc:2375-2419 | between one creation of the file and the next no index is used twice if and only if there are at most 2^62 objects |
| ObjectIds.RecreatedShares | adapter/vol/vol-old/H5VLDTIO.cc:1697-1698 | a program in which a re-created file gives a dataset the oid and the chunk keys of an earlier one |
| ObjectIds.MetadataIndexFree | adapter/vol/vol-old/H5VLDTIO.cc:2375-2419 | no object takes index 0 if and only if no contents reach 2^62 objects |
| ObjectIds.RunIdsNeverReused | adapter/vol/vol-old/H5VLDTIO.cc:3141-3171 | over any run, in any interleaving: which objects share an oid, when none do within one contents, and when none do at all, each exactly |
| ObjectIds.StorageNeverShared | adapter/vol/vol-old/H5VLDTIO.cc:2283-2419 | up to 2^62 objects, nothing stored for a later object of the same contents lands under a key of an earlier one |
| ObjectIds.StorageSharedIff | adapter/vol/vol-old/H5VLDTIO.cc:2283-2419 | what is stored for two objects shares a key exactly when they share an oid and it is the same metadata or chunk location |
| Recreation.UnwrittenIsOld | adapter/vol/vol-old/H5VLDTIO.cc:1697-1698 | after a re-creation a byte whose point was not written since is the one that the earlier dataset of that oid had at the same place, for any two extents, layouts and types |
| Recreation.LatestNonZero | adapter/vol/vol-old/H5VLDTIO.cc:1315-1557 | from an empty store a byte is not zero exactly when the last write to its point left it so |
| Recreation.StaleIff | adapter/vol/vol-old/H5VLDTIO.cc:1697-1698 | a never written byte of a dataset in the place of an earlier one, modulo 2^62, is not zero exactly when the last write to that place before the re-creation left it so |
| Recreation.SameLayoutSamePlace | adapter/vol/vol-old/H5VLDTIO.cc:2320-2371 | with the same extent, layout and element size every point keeps its place |
| Broadcast.Comm.Send | adapter/vol/vol-old/H5VLDTIO.cc:911-926 | a broadcast with an int count sends just those bytes; a negative count fails |
| Broadcast.Comm.Receive | adapter/vol/vol-old/H5VLDTIO.cc:935-968 | a receive succeeds exactly for a message of the same size and fills just those bytes |
| Broadcast.LeaderGroupOpen | adapter/vol/vol-old/H5VLDTIO.cc:2151-2182 | the leader sends oid, length and properties in one message or two, by length |
| Broadcast.FollowerGroupOpen | adapter/vol/vol-old/H5VLDTIO.cc:2184-2222 | the follower decodes the messages, each receive inside its buffer |
| Broadcast.GroupAgreement | adapter/vol/vol-old/H5VLDTIO.cc:2151-2222 | followers make the leader's broadcasts and decode its oid and bytes exactly for every property length from 1 to the largest int; without properties they take the leader for failed |
| Broadcast.LeaderDatasetOpen | adapter/vol/vol-old/H5VLDTIO.cc:880-930 | the leader sends the oid and the stored record in one message or two, by length |
| Broadcast.FollowerDatasetOpen | adapter/vol/vol-old/H5VLDTIO.cc:932-969 | the follower decodes lengths and blobs, each receive inside its buffer |
| Broadcast.DatasetAgreement | adapter/vol/vol-old/H5VLDTIO.cc:880-968 | on every stored record followers make the leader's broadcasts and decode its oid, lengths and payload, with the two exceptions stated exactly |
| Broadcast.LeaderFileOpen | adapter/vol/vol-old/H5VLDTIO.cc:1820-1874 | the leader sends the stored maximum and the root properties if they fit one message |
| Broadcast.FollowerFileOpen | adapter/vol/vol-old/H5VLDTIO.cc:1876-1910 | the follower decodes maximum and properties, asking for a second message where the first cannot hold them |
| Broadcast.FileAgreement | adapter/vol/vol-old/H5VLDTIO.cc:1836-1910 | opening a file works on all ranks exactly when there are root properties and they fit the static buffer; without any the followers take the leader for failed |
| Broadcast.SilentLeader | adapter/vol/vol-old/H5VLDTIO.cc:1876-1880 | without a message from the leader no follower's open succeeds, nor sees the failure mark |
| TypeWalk.FindMember | adapter/vol/vol-old/H5VLDTIO.cc:3381-3382 | the index of the first member with the name, or -1 exactly when there is none |
| TypeWalk.WritesInside | adapter/vol/vol-old/H5VLDTIO.cc:3325-3505 | a conversion writes only bytes of the destination |
| TypeWalk.ArrayFull | adapter/vol/vol-old/H5VLDTIO.cc:3445-3475 | an array is written in full exactly when its elements are |
| TypeWalk.NoGaps | adapter/vol/vol-old/H5VLDTIO.cc:3431-3440 | member sizes never exceed the compound's size and reach it exactly when no byte is outside every member |
| TypeWalk.CompoundFull | adapter/vol/vol-old/H5VLDTIO.cc:3352-3443 | a compound is written in full exactly when every member is matched and written in full and there are no gaps |
| TypeWalk.NeedBkg | adapter/vol/vol-old/H5VLDTIO.cc:3325-3505 | fill_bkg is set exactly when some destination byte at any depth is not written; the size and the need for a buffer are right |
| TypeWalk.NeedBkgMember | adapter/vol/vol-old/H5VLDTIO.cc:3370-3433 | one member fails, or needs filling exactly when it is unmatched or not written in full |
| TypeWalk.NeedBkgCompound | adapter/vol/vol-old/H5VLDTIO.cc:3352-3443 | the same for the loop over a compound's members with its early exits |
| TypeWalk.WrittenOrBackground | adapter/vol/vol-old/H5VLDTIO.cc:3325-3505 | in a conversion by member names and array elements, a written byte is the same for every background and any other byte is the background's |
| TypeWalk.BackgroundIrrelevant | adapter/vol/vol-old/H5VLDTIO.cc:3325-3505 | the converted value is the same for every background exactly when every byte is written |
| TypeWalk.ConvertibleIff | adapter/vol/vol-old/H5VLDTIO.cc:1544-1547 | two types convert exactly when wherever they meet, through members of one name and array elements, they are of one kind and arrays of one length |
| TypeWalk.LeafByte | adapter/vol/vol-old/H5VLDTIO.cc:3325-3505 | a byte in a simple type, reached by element numbers and member names, is the conversion of the matching source type's own bytes alone |
| TypeWalk.LeafWrites | adapter/vol/vol-old/H5VLDTIO.cc:3325-3505 | each byte in such a type is written |
| TypeWalk.WrittenInLeaf | adapter/vol/vol-old/H5VLDTIO.cc:3325-3505 | and no other byte is |
| TypeWalk.NeedsBufferIff | adapter/vol/vol-old/H5VLDTIO.cc:3352-3368 | a buffer is called for exactly when some source type would leave bytes to the background |
| PathConfig.FoundAtZeroIffPrefix | include/dtio/config_manager.h:75 | finding an entry at position 0 is having it as a prefix |
| PathConfig.SortByLength | include/dtio/config_manager.h:117-122 | a descending permutation, with ties in any order |
| PathConfig.ConfigurationManager.ParseYaml | include/dtio/config_manager.h:90-123 | the table is a descending permutation of the include and exclude entries |
| PathConfig.ConfigurationManager.LoadDefault | include/dtio/config_manager.h:82-87 | the default table, which is what DefaultIntercepts is about |
| PathConfig.ConfigurationManager.ShouldIntercept | include/dtio/config_manager.h:72-80 | the flag of the first entry that prefixes the path, false if none |
| PathConfig.FirstMatchIsLongest | include/dtio/config_manager.h:72-80 | on a sorted table the first match is a longest prefix |
| PathConfig.FlagOfLongest | include/dtio/config_manager.h:72-80 | the answer is the flag of the longest prefix whenever that path has one flag |
| PathConfig.InterceptsLongestIncluded | include/dtio/config_manager.h:72-123 | a path is intercepted exactly when some included prefix is longer than every excluded one |
| PathConfig.OrderIrrelevantIffNoConflict | include/dtio/config_manager.h:117-122 | ties and order never change an answer if and only if no path is both included and excluded |
| PathConfig.ReorderedSameTables | include/dtio/config_manager.h:90-123 | reordering the configuration leads to the same tables |
| PathConfig.DefaultIntercepts | include/dtio/config_manager.h:82-87 | the default table intercepts exactly the paths with the textual prefix /tmp |
| PosixShim.WriteAtBytes | dtio_chimods/dtiomod/src/dtiomod_runtime.cc:84-87 | positioned writing byte by byte: new bytes, old bytes, zeros in a gap, and reading them back |
| PosixShim.ReadAtBytes | dtio_chimods/dtiomod/src/dtiomod_runtime.cc:148-151 | positioned reading byte by byte: as many bytes as asked for or as there are, each the file's |
| PosixShim.ReadsCompose | adapter/posix/posix_api.cc:211-217 | two kernel reads in a row are one longer read |
| PosixShim.WriteSeekRead | adapter/posix/posix_api.cc:248-254 | seeking, writing, seeking back and reading gives the bytes written, and touches no other file or descriptor |
| PosixShim.AppendsAtEnd | adapter/posix/posix_api.cc:248-254 | with `O_APPEND`, or after seeking to the end, bytes are added at the end |
| PosixShim.SeekReports | adapter/posix/posix_api.cc:284-295 | seeks from the start, the offset and the end, and the failing ones |
| PosixShim.OpenFinds | adapter/posix/posix_api.cc:72-110 | when open succeeds, and the contents that it finds with each flag |
| PosixShim.CloseEnds | adapter/posix/posix_api.cc:400-413 | after close no call on the descriptor succeeds |
| PosixShim.ModeDecides | adapter/posix/posix_api.cc:72-110 | the access mode decides which transfers succeed |
| PosixShim.AbsoluteKept | dtio_chimods/dtiomod/src/dtiomod_runtime.cc:66-69 | stripping the scheme prefix leaves absolute paths alone |
| PosixShim.SchemeStripped | dtio_chimods/dtiomod/src/dtiomod_runtime.cc:66-69 | the scheme prefix goes and nothing else does |
| PosixShim.Server.Write | dtio_chimods/dtiomod/src/dtiomod_runtime.cc:57-89 | open, seek and write in the server are one positioned write to the path's bytes, and leave one more descriptor open; without a descriptor left nothing happens |
| PosixShim.Server.Read | dtio_chimods/dtiomod/src/dtiomod_runtime.cc:122-153 | open, seek and read in the server are one positioned read that leaves one more descriptor open; each byte of the buffer is the file's at its place, or as it was where the file ends before or no descriptor is left |
| PosixShim.ClientMetadataManager.RegisterPosixFd | include/dtio/client_metadata_manager.h:53-56 | the descriptor is recorded at offset 0, replacing any entry |
| PosixShim.ClientMetadataManager.UnregisterPosixFd | include/dtio/client_metadata_manager.h:69-72 | the entry is gone and all others stay |
| PosixShim.ClientMetadataManager.UpdatePosixOffset | include/dtio/client_metadata_manager.h:74-80 | only the recorded offset changes, and only of a registered descriptor |
| PosixShim.Shim.Open | adapter/posix/posix_api.cc:73-107 | the kernel opens first; an intercepted success is registered under its absolute path |
| PosixShim.Shim.Creat | adapter/posix/posix_api.cc:154-179 | creat is the corresponding open |
| PosixShim.Shim.Read | adapter/posix/posix_api.cc:211-246 | registered reads go to the server at the recorded offset, others to the kernel; each delivered byte is the file's at its place |
| PosixShim.Shim.Write | adapter/posix/posix_api.cc:248-281 | registered writes go to the server at the recorded offset, others to the kernel |
| PosixShim.Shim.Lseek | adapter/posix/posix_api.cc:284-305 | the kernel seeks first; a registered descriptor then takes over the kernel's answer |
| PosixShim.Shim.Close | adapter/posix/posix_api.cc:400-413 | the entry is removed, then the kernel closes |
| PosixShim.StepValid | include/dtio/client_metadata_manager.h:53-80 | every call keeps the table accurate: exactly the intercepted open descriptors, under their paths |
| PosixShim.ReadAgrees | adapter/posix/posix_api.cc:211-246 | a read is what POSIX says if and only if the mode allows it, it stays inside the file, and the server has a descriptor left or the buffer happens to hold the file's bytes |
| PosixShim.WriteAgrees | adapter/posix/posix_api.cc:248-281 | a write is what POSIX says if and only if the mode allows it, an appending descriptor is at the end, and the server has a descriptor left or the write repeats the file's bytes |
| PosixShim.LseekAgrees | adapter/posix/posix_api.cc:284-305 | a seek is what POSIX says if and only if it is not relative to a stale kernel offset |
| PosixShim.StepAgrees | adapter/posix/posix_api.cc:72-413 | one call is invisible if and only if its guard holds |
| PosixShim.RunAgrees | adapter/posix/posix_api.cc:72-413 | for every run over any descriptors and paths, and any number of descriptors the server has left, contents, answers and offsets equal those of plain POSIX if and only if every call meets its guard |
| PosixShim.RequestsUseUp | dtio_chimods/dtiomod/src/dtiomod_runtime.cc:72-89 | over any run the server loses exactly one descriptor for each request, and gets none back |
| PosixShim.PlainRunsAgree | adapter/posix/posix_api.cc:72-413 | a program that, on plain POSIX, reads inside files, respects modes, appends at the end and never seeks relatively cannot tell the layer is there, up to as many requests as the server has descriptors |
| PosixShim.StoreAndLoadIsPlain | adapter/posix/posix_api.cc:72-413 | storing bytes in a new file and reading them back is such a program |
| FdTable.StepKeeps | adapter/posix/posix_api.cc:81-107 | every step of every thread keeps the invariant of the descriptor table |
| FdTable.NeverStale | adapter/posix/posix_api.cc:400-413 | in every interleaving registered descriptors are open under the recorded path, returned intercepted ones are registered at their thread's offset, and reused numbers start at 0 |
| FdTable.StepIsLocal | include/dtio/client_metadata_manager.h:53-80 | a step does to its thread what the thread's own state alone determines, and nothing to other threads |
| FdTable.StepIsSerial | adapter/posix/posix_api.cc:81-413 | each step is one whole call taking effect, or nothing |
| FdTable.RunIsSerial | adapter/posix/posix_api.cc:81-413 | a run of interleaved steps has the effect of its calls made one after the other |
| FdTable.SerialOrderExists | adapter/posix/posix_api.cc:81-413 | in every interleaving the server's files, the answers to all reads and the offsets of all threads at rest are those of whole calls in the order in which they take effect |
| FdTable.RunIsLocal | include/dtio/client_metadata_manager.h:53-80 | in every interleaving each thread's descriptors and offsets are what its own steps alone make them |
| FdTable.OpensLikeKernel | adapter/posix/posix_api.cc:81-107 | opening does to the files what the kernel's open does |
| FdTable.ServesWhatIsStored | dtio_chimods/dtiomod/src/dtiomod_runtime.cc:84-87 | a read after a write at the same place answers what was written; other files stay |
| FdTable.OffsetsGoOn | include/dtio/client_metadata_manager.h:53-80 | offsets go on by what was read or written, to where a seek leads, and from 0 |
| FdTable.ReadsInARow | adapter/posix/posix_api.cc:211-246 | two reads of a thread answer consecutive stretches of its file |

## Left out

- DatasetIo.DatasetWrite: for equal memory and file types alone; `TypedWrite.DatasetWriteAs` is the call
  with any memory type.
- DatasetIo.DatasetRead: for equal types alone, because where a read converts depends on a comparison of
  two pointers (`adapter/vol/vol-old/H5VLDTIO.cc:3561`).
- Codec.LinkRead: refuses a hard-link value of fewer than nine bytes, which the source reads past,
  because what lies there is undefined.
- Codec.RecordAcceptedIsWritten: is about a reader that also refuses a record whose lengths reach past
  its end, which the source reads past, because what lies there is undefined.
- Broadcast.FollowerGroupOpen: refuses lengths that an `int` cannot count, for the same reason.
- Broadcast.FollowerDatasetOpen: refuses lengths that overflow together or that an `int` cannot count,
  for the same reason.
- Broadcast.FollowerFileOpen: refuses where the source receives into a buffer that it did not allocate.
- The arithmetic of type conversion, scattering, and the reuse of the caller's buffer on reads.
  `ArrayHistory.dfy` and `Recreation.dfy` are about writes with equal types.
- Calls on several datasets at once, and chunked transfers whose memory space has another rank than
  the dataset, which the source excludes by an assertion.
- Machine width in the chunk arithmetic: coordinates are unbounded integers, bounded in effect by
  the selection's end plus one chunk. Object ids, keys and stored lengths are 64-bit.
- Path components that are empty: the source excludes them by an assertion, the model fails.
- Unbounded recursion through soft links: resolution carries a depth, and the code's contracts ask
  that the specified resolution ends; `Namespace.FollowEndsIff` and `Namespace.DepthBound` say exactly
  when it does.
- Creations by single ranks, a file that is open twice at a time, and crashes before a flush: the
  source gives no guarantee.
- A source enumeration whose value names are those of a compound's members: the library would find the
  name and then fail to give a member type, the model calls the member unmatched.
- The number of elements of a source array, which the library requires to be the destination's.
- Arrays converted from something that is no array: the library would look at the base type of an
  enumeration, the model fails.
- An object's reference count is modelled for groups alone; HDF5 handles are not.
- HDF5, MPI, Chimaera and shared memory beyond the definitions above; YAML parsing, path expansion
  and the environment; symbol lookup; logging.
- A limit on the program's own descriptors, which the layer does not change. In the concurrent model the
  server always has a descriptor, serves a request in one step, and what the kernel does for descriptors
  that are not intercepted is left out.
- Symbolic links, file permissions, unlink, dup and pread on the POSIX side; descriptor numbers are
  the lowest free ones in the single-threaded model and any free ones in the concurrent one.
- The STDIO half of the client table and server, which repeats the POSIX pattern with fewer
  operations, and task scheduling and serialization.
- `adapter/vol/H5VLDTIO.cc`, `adapter/stdio/stdio_api.cc` and the Python bindings, whose bodies are
  empty or unimplemented.
