# fsforge, modelled

fsforge lays one logical tree out in many on-disk formats and reads it back. This project models the parts of it where
something that is fast or compact has to agree with something much simpler, and proves that it does.

- **Block allocation** (`Words`, `Bitmap`, `AllocRuns`). A bitmap of 64-bit words, searched a word at a time from a hint,
  is a set of used blocks searched from zero; an allocation in several runs either takes exactly what was asked or
  leaves the set as it was.
- **QCOW2** (`Qcow2`, `Qcow2Writer`, `Qcow2Reader`, `Qcow2Runs`). A sparse file that is written in any order is a flat
  disk, costs a cluster only where something is not zero, and after `Finalize` any reader of the file sees the same disk.
- **OCI layers** (`Names`, `Oci`, `OciDiff`, `OciRecords`, `OciLayer`, `OciApply`, `OciHeap`, `OciApplier`). The records
  that describe the difference of two trees, and nothing else, are applied in place and one by one to the old tree.
- **ext2 and ext4** (`ExtGeometry`, `ExtLayout`, `ExtIndirect`, `ExtExtents`, `ExtExtentWriter`, `ExtXattr`,
  `ExtXattrArea`, `ExtAttrs`, `ExtFiles`, `ExtRun`, `ExtAccounts`, `ExtDir`, `ExtBuild`, `ExtTree`, `ExtTreeWriter`,
  `ExtTreeFormat`, `ExtTreeReader`). Group geometry, block ownership, block maps of both kinds, attributes, directory
  blocks, and a whole tree that is formatted onto a device and read back from its root.
- **cpio** (`Cpio`, `CpioReader`, `CpioWriter`, `CpioArchive`, `CpioListing`, `CpioGraph`, `CpioReplay`, `CpioRoundTrip`,
  `CpioEnd`). A newc archive, byte for byte, with hard links folded into the last name of a node.
- **romfs** (`Romfs`, `RomfsTree`, `RomfsWriter`, `RomfsImage`, `RomfsBack`, `RomfsEnd`). An image whose directories are chains of
  offsets, laid out in one pass and written in another.
- **squashfs** (`SquashMeta`, `SquashListing`). Metadata references into compressed blocks, and directory listings.
- **EROFS** (`ErofsDir`). Directory blocks whose names end where the next one begins.
- **The editable image** (`ImageGraph`, `Mem`, `GraftTrees`, `Graft`). Nodes shared by several names, with link counts
  that every edit has to keep, and the copy of a tree from one image to another.

`Sizes`, `Bytes`, `Files`, `Text`, `Options` and `Modes` hold what the formats share: widths, byte strings and fixed-width
fields, files that grow with zeros, and file types.

Where the program changes something in place, so does the model: classes with fields and methods, each method against a
function of the old state; what that function is good for is then proved in lemmas about it. A device or host file is a
byte string that grows with zeros. Compressors and hash functions are parameters.

## Findings

Properties that the code does not have on all inputs, with the exact condition under which it has them.

- `computeGeometry` divides by zero exactly when the device has no block past `firstDataBlock`, which is the boot block
  for 1 KiB blocks. Its groups hold their own metadata if and only if there is one group or the overhead of group 0 fits
  a group, as it does up to 1 TiB with the inode sizes of the engines (`ExtGeometry.ComputeGeometry`).
- A directory block of 64 KiB that holds a single entry stores its length, 65536, as 0, and reads as empty; every
  directory whose blocks all hold two entries or more reads back, and no other (`ExtDir.DirReads`). `ExtDir.CrowdLosesOne`
  is a valid directory that loses its last name.
- An extended attribute with the empty name looks like the end of the list on disk: attributes come back if and only if
  none has that name (`ExtXattr.VisibleIsAll`, `ExtXattr.DecodeIsInverse`).
- The free-block count of an ext group has 16 bits. It is exact for every set of used blocks if and only if the group has
  less than 65536 blocks behind its metadata, as it always has for blocks up to 8 KiB (`ExtAccounts.DescriptorCount`).
  Two gibibytes in blocks of 16 KiB are one group with 130044 free blocks, of which the descriptor counts 64508
  (`ExtAccounts.BigBlocks`).
- A cpio archive of a tree whose root has an entry `TRAILER!!!` ends there when it is read, and every other one is read
  whole (`CpioEnd.ArchiveReads`, with such a tree in `CpioEnd.TrailerNamed`).
- A cpio archive folds the names of a regular file only. All sharing comes back if and only if nothing else has two names
  (`CpioEnd.SharingIsWhole`); a symlink of two names comes back as two symlinks (`CpioEnd.LinkedSymlink`).
- A graft folds the names of a regular file only if its link count says that it has several. All sharing of regular files
  comes over if and only if no file of two names has a link count of one or less (`GraftTrees.SharingIsKept`).
- A romfs reader takes the first 256 bytes of a name up to a NUL. A tree comes back if and only if no name in it is longer
  or has a NUL (`RomfsEnd.WriteThenOpen`, `RomfsEnd.LongNames`), and device numbers come back in 24 bits
  (`RomfsFormat.DeviceReads`). The volume name is read the same way and decides where the root is sought: in its place if
  and only if `RomfsEnd.RootList` says so, which names like that of `RomfsEnd.VolumeLost` do not.
- `Mknod` with a directory bit next to a device, pipe or socket bit makes a directory with one link and no ".." counted
  in its parent. Link counts of attached directories are right exactly as long as no such node, and no directory one was
  made in, is attached (`ImageGraph.RightUnlessOdd`). Making a node keeps an image right if and only if the node has no
  directory bit (`ImageGraph.MakeKeepsRight`), and a run without such a node ends in a right image
  (`ImageGraph.CleanRunIsRight`).
- A layer that records the difference of two trees does not carry sockets and setuid, setgid and sticky bits, and
  `xattrsEqual` takes two sets of attributes for equal whose names differ where values are empty. Applying the layer gives
  the new tree if and only if the pair is `Faithful` (`OciDiffProof.DiffRoundTrip`), as pairs of ordinary trees always are
  (`OciDiffProof.OrdinaryIsFaithful`). `OciDiffProof.SetuidIsLost`, `OciDiffProof.RenamedAttributeStays`
  and `OciDiffProof.SocketStaysFile` are pairs that are not. A layer is empty if and only if the trees agree
  (`OciRecords.EmptyWhenAgreed`).
- A read of a QCOW2 disk that starts inside it goes on to the end of the disk's last cluster. It stops at the end of the
  disk if and only if it ends there anyway or the disk fills its last cluster (`Qcow2Reader.Reader.ReadAt`). From a disk of
  one byte two bytes are read without a word about the end (`Qcow2Reader.OneByteDisk`).
- `AllocRuns` is documented to take the largest run available when nothing holds the whole; it takes the lowest free run,
  cut to the wanted length (`Alloc.Bitmap.AllocUpTo`). That is as long as any if and only if it has the wanted length or
  one block more than it has fits nowhere (`Alloc.LongestWhen`), which `Alloc.LowestIsShorter` shows is not always so. The
  model follows the code.

## Model

| member | source | states |
|---|---|---|
| Words.LowestClear | pkg/alloc/bitmap.go:40-52 | The lowest clear bit of a word, found by arithmetic on the inverted word, is the first bit that is not set. |
| Alloc.Bitmap.constructor | pkg/alloc/bitmap.go:25-33 | A new bitmap has no used block, and the padding bits of its last word are set. |
| Alloc.Bitmap.FirstFree | pkg/alloc/bitmap.go:40-54 | The scan by words stops at the first block that is not marked, skipping only marked ones. |
| Alloc.Bitmap.FirstUsed | pkg/alloc/bitmap.go:58-72 | The scan by words stops at the first marked block, skipping only free ones. |
| Alloc.Bitmap.Take | pkg/alloc/bitmap.go:75-82 | Marking a run moves the hint without leaving a free block below it. |
| Alloc.Bitmap.Alloc | pkg/alloc/bitmap.go:84-97 | The call succeeds exactly when n blocks in a row are free; then the start is the lowest at which they are, and exactly that run becomes used. |
| Alloc.LowestFitIsLeast | pkg/alloc/bitmap.go:84-97 | First fit finds a start whenever any start fits, and none that fits is lower. |
| Alloc.FitsWhen | pkg/alloc/bitmap.go:84-97 | First fit finds a run exactly when there is one. |
| Alloc.FirstFit | pkg/alloc/bitmap.go:84-97 | A free run with no fitting start below it is what first fit returns. |
| Alloc.Bitmap.AllocUpTo | pkg/alloc/bitmap.go:103-114 | The run returned starts at the lowest free block and goes on to a used block, the end of the device or the wanted length; the call fails only when nothing is free. |
| Alloc.PrefixLength | pkg/alloc/bitmap.go:103-114 | A run that ends at a used block, at the end of the device or at the wanted length has the length of the free prefix. |
| Alloc.LongestWhen | pkg/alloc/alloc.go:49-55 | The run that is taken is as long as any free run, cut to the wanted length, if and only if it has that length or one block more than it has fits nowhere. |
| Alloc.LowestIsShorter | pkg/alloc/alloc.go:49-55 | With blocks 0, 2 and 3 free, one block is taken where two lie together. |
| Alloc.Bitmap.Free | pkg/alloc/bitmap.go:118-131 | A range inside the device becomes free and nothing else changes; the end is computed in 64 bits. |
| Alloc.Bitmap.Reserve | pkg/alloc/bitmap.go:134-142 | A range inside the device becomes used and nothing else changes. |
| RunAllocation.HalvingReachesOne | pkg/alloc/alloc.go:81-102 | Halving the wanted length finds a run whenever a single block is free. |
| RunAllocation.AtMostServes | pkg/alloc/alloc.go:81-102 | Both ways of asking for at most so many blocks succeed exactly when one is free. |
| RunAllocation.HalvingIsFirst | pkg/alloc/alloc.go:90-102 | Halving takes the first of want, want/2, want/4, ... for which a run is free, at the lowest place, and nothing only if none of them fits. |
| RunAllocation.AllocAtMost | pkg/alloc/alloc.go:81-102 | The run has the wanted length if and only if so many blocks are free in a row, and is then the lowest such run; otherwise it is the lowest free run, or what halving finds. |
| RunAllocation.ChainExists | pkg/alloc/alloc.go:56-77 | The runs for n blocks can be found exactly when n blocks are free. |
| RunAllocation.ChainIsFree | pkg/alloc/alloc.go:56-77 | The blocks of the runs are distinct, were free, lie in the device, number n, and come in runs of at most maxRun. |
| RunAllocation.ChainIsBest | pkg/alloc/alloc.go:56-77 | Every run of an allocation is the best for what was still wanted, with the runs before it taken. |
| RunAllocation.AllocRuns | pkg/alloc/alloc.go:56-77 | The loop succeeds exactly when n blocks are free; within the cap it takes a single run if and only if n blocks are free in a row, and then the lowest. The used set grows by the runs, and on failure is what it was. |
| RunAllocation.Release | pkg/alloc/alloc.go:56-77 | Undoing what was taken so far restores the used set. |
| Qcow2Format.HeaderRoundTrip | pkg/qcow2/header.go:18-70 | A header in range is parsed back from its bytes. |
| Qcow2Format.HeaderLayout | pkg/qcow2/header.go:18-41 | Every field of a header is at its offset, most significant byte first, with zeros between and behind. |
| Qcow2Format.ParsesWhen | pkg/qcow2/header.go:43-70 | A header is accepted exactly when it is long enough, has the magic bytes, version 2 or 3 and 9 to 21 cluster bits. |
| Qcow2Format.EntryParts | pkg/qcow2/const.go:24-36 | An entry of any bits shows its offset, bits 9 to 55, apart from the flags: bit 62 for compressed, bit 0 or no offset for zeros. |
| Qcow2Format.TableReadsBack | pkg/qcow2/writer.go:238-245 | A table of 64-bit entries is read back from where it was written. |
| Qcow2Writer.Writer.WriteAt | pkg/qcow2/writer.go:54-88 | Writing inside the disk splices the bytes into a flat disk; exactly the clusters into which a byte falls that is not zero are added to those that have a place in the file, each at the end of the file, and the others keep theirs. Anything else fails and changes nothing. |
| Qcow2Writer.Writer.ReadAt | pkg/qcow2/writer.go:92-124 | Reading gives the bytes of the flat disk, zeros where nothing was written, and the end of file past it. |
| Qcow2Writer.SizeRefcounts | pkg/qcow2/writer.go:200-224 | The sizing loop ends with refcount blocks and a table that cover all clusters, their own among them, and no smaller pair does. |
| Qcow2Writer.Writer.WriteRefcounts | pkg/qcow2/writer.go:200-235 | The refcount structures lie behind everything else and count every cluster of the file once. |
| Qcow2Writer.Writer.WriteL2Tables | pkg/qcow2/writer.go:169-195 | Every used level-two table is written to a cluster of its own behind the data, and level one points to it. |
| Qcow2Writer.TablesShowDisk | pkg/qcow2/writer.go:128-195 | Both table levels lead a reader to the cluster of every guest byte, and to zeros where there is none and behind the disk. |
| Qcow2Writer.Writer.Finalize | pkg/qcow2/writer.go:128-165 | The finished file is an image of the flat disk: its header says version 3, counts of 16 bits and tables just long enough, every entry used at either level has bit 63 and a cluster offset, every cluster is counted once, and no fewer clusters can hold the data, its tables and the counts; a second call fails and changes nothing. |
| Qcow2Writer.TablesAreTidy | pkg/qcow2/writer.go:169-195 | Both levels of tables that were written have no entry but zero and a cluster offset with bit 63 and no other flag. |
| Qcow2Reader.Reader.L2Table | pkg/qcow2/reader.go:126-140 | A cached table is always the table that is in the file. |
| Qcow2Reader.Reader.FindHost | pkg/qcow2/reader.go:103-122 | The host offset of a cluster is what the two table levels say, or an error if an entry is bad. |
| Qcow2Reader.Reader.ReadAt | pkg/qcow2/reader.go:65-99 | On any image, the buffer holds what the tables say of each byte, up to a cluster that cannot be mapped or the end of the last cluster of the disk; a read stops at the end of the disk if and only if it ends there or the disk fills its last cluster. |
| Qcow2Reader.Open | pkg/qcow2/reader.go:27-54 | An image is opened exactly when its header parses. |
| Qcow2Reader.ReadIsDisk | pkg/qcow2/reader.go:65-99 | A read over an image of a disk gives the bytes of the disk and zeros up to the end of its last cluster. |
| Qcow2Reader.FinalizeThenRead | pkg/qcow2/writer.go:128-165 | After any writes and for any range, reading the finished file gives the same bytes, count and end as reading the unfinished writer. |
| Qcow2Reader.OneByteDisk | pkg/qcow2/reader.go:65-99 | Two bytes are read from a finished disk of one. |
| Qcow2Runs.StoreAll | pkg/qcow2/writer.go:54-165 | After a run of writes to a new disk, the image shows the flat disk and has the fewest clusters for a header, one cluster for each that was written with a byte that is not zero, one for each group of 8192 of them, the first table, and the counts. |
| Qcow2Runs.ZerosLeaveNothing | pkg/qcow2/writer.go:68-75 | Writing zeros to a new disk needs no cluster, wherever they go. |
| Qcow2Runs.StoreZeros | pkg/qcow2/writer.go:54-165 | After any writes of zeros, a disk of up to 4 TiB is an image of four clusters. |
| OciDiffProof.SubtreeApplied | pkg/oci/diff.go:76-87 | The records of a subtree rebuild it under its name and touch nothing else. |
| OciDiffProof.DiffApplied | pkg/oci/diff.go:28-74 | Applying the difference leaves in every directory the new names, each carrying what the records can carry. |
| OciDiffProof.DiffRoundTrip | pkg/oci/diff.go:28-122 | Applying the difference of two trees to the old one gives the new one if and only if the pair is faithful. |
| OciDiffProof.EqualXattrs | pkg/oci/diff.go:158-169 | Attribute sets without empty values that compare equal have the same names. |
| OciDiffProof.OrdinaryIsFaithful | pkg/oci/diff.go:105-122 | Trees without sockets, special mode bits and empty attribute values are always faithful. |
| OciDiffProof.RenamedAttributeStays | pkg/oci/diff.go:158-169 | Two trees whose one file has an empty attribute of another name: the layer between them leaves the old name. |
| OciDiffProof.SetuidIsLost | pkg/oci/diff.go:105-122 | Two trees whose one file gains the setuid bit: the layer between them leaves it out. |
| OciDiffProof.SocketStaysFile | pkg/oci/diff.go:105-122 | Two trees whose one file becomes a socket: the layer between them leaves it a file. |
| OciRecords.ChangedIs | pkg/oci/diff.go:105-169 | Two nodes count as changed exactly when they differ in mode, owner, attributes, or what their kind shows: a target, a device number, the bytes. |
| OciRecords.DiffHas | pkg/oci/diff.go:28-87 | The difference has an item exactly when it is due: a whiteout for a name that is gone, an entry for a node that is new or does not agree with the old one, and for every node below one that is new or replaced another. |
| OciRecords.DiffInOrder | pkg/oci/diff.go:28-87 | A directory comes before what is in it and names come in order, so that no path is recorded twice. |
| OciRecords.EmptyWhenAgreed | pkg/oci/diff.go:28-74 | Nothing is recorded if and only if both trees have the same names over nodes that agree. |
| OciRecords.ItemApplied | pkg/oci/flatten.go:129-205 | An item makes the directories on its way, with mode 0755 where there was none, removes what a whiteout or an opaque marker hides, and makes the node what an entry says over the children it had; every other path leads to what it led to before. |
| OciRecords.KidsViewed | pkg/oci/diff.go:105-122 | Two trees have one view exactly when they have the same names, metadata, targets, device numbers and bytes. |
| OciLayer.WriteEntry | pkg/oci/layer.go:80-139 | A node becomes one record at its path, with type, mode, owner, link, device numbers, attributes and body. |
| OciLayer.WriteWhiteout | pkg/oci/diff.go:91-100 | A deletion becomes an empty file with the reserved prefix in the same directory. |
| OciLayer.EntryDescribes | pkg/oci/layer.go:80-143 | The record of an entry says of the node what a header can: name, kind, permissions, owner, attributes, target, both device numbers, bytes. |
| OciLayer.WhiteoutDescribes | pkg/oci/diff.go:91-100 | The record of a deletion is an empty file `.wh.` and the name, in the same directory. |
| OciLayer.WriteSubtree | pkg/oci/diff.go:76-87 | The records of a subtree are appended in pre-order, children by name. |
| OciLayer.DiffDir | pkg/oci/diff.go:28-74 | The records appended are the difference of the two trees, below the path; what that difference has, and in which order, is `OciRecords.DiffHas` and `OciRecords.DiffInOrder`. |
| OciLayer.DeviceNumbers | pkg/oci/layer.go:141-143 | Major and minor numbers give the device number back. |
| OciLayer.ParseRendered | pkg/oci/flatten.go:129-205 | A record is read as the change it was written for, whiteouts told from files by their name. |
| OciLayer.RecordRead | pkg/oci/flatten.go:129-175 | Any record of valid names, with "./" before it or a slash behind, is read by its last name: the opaque marker, a whiteout of the rest of the name, or a node with mode bits, owner, target, device number and bytes from their fields. |
| OciLayer.ParentRefused | pkg/oci/flatten.go:129-144 | A name that leads out of the tree is refused. |
| Names.DotsCleaned | pkg/oci/flatten.go:129-144 | Empty parts of a path and single dots go, two dots take the part before them away, stay at the front of a relative path and go at the front of a rooted one. |
| Names.ValidIsComponent | pkg/image/name.go:23-28 | A name is valid exactly when cleaning it as a path gives the name itself and it is not the way up. |
| Names.BeforeIs | pkg/oci/diff.go:184-196 | Names are in the order of the first character in which they differ, a beginning before the whole. |
| OciApply.DiffEmitted | pkg/oci/diff.go:28-122 | Everything in a difference is something a record can say. |
| OciApply.LayerRoundTrip | pkg/oci/flatten.go:129-205 | No record of a difference is refused, and replaying them gives the new tree if and only if the pair is faithful. |
| OciApplier.SetChild | pkg/oci/flatten.go:286-294 | One name of the slice points to the new node, in place if it was there and at the end if not. |
| OciApplier.RemoveChild | pkg/oci/flatten.go:296-303 | One name is gone from the slice, and the other entries keep their order. |
| OciApplier.Applier.EnsureDir | pkg/oci/flatten.go:239-258 | Every directory on the path exists afterwards, and making them early does not change what the record will do. |
| OciApplier.Applier.RemoveAll | pkg/oci/flatten.go:129-160 | An opaque marker empties the directory. |
| OciApplier.Applier.Upsert | pkg/oci/flatten.go:305-315 | The node at the path is overwritten in place, keeping its children, or made. |
| OciApplier.Applier.ApplyEntry | pkg/oci/flatten.go:129-205 | One record changes the heap as its change does the tree it holds, and a bad path changes nothing. |
| OciApplier.Applier.ApplyLayer | pkg/oci/flatten.go:92-127 | A whole layer changes the heap as its records do the tree. |
| OciApplier.DiffAndApply | pkg/oci/flatten.go:92-205 | Diffing two trees and applying the layer in place to the old one leaves in the heap a tree with the names, metadata, targets, device numbers and bytes of the new one, if and only if the pair is faithful. |
| ExtGeometry.PowerOfIsPower | pkg/ext/geometry.go:117-126 | Dividing by the base down to one succeeds exactly for the powers of the base. |
| ExtGeometry.IsPowerOf | pkg/ext/geometry.go:117-126 | The loop answers whether the number is a power of the base. |
| ExtGeometry.BackupGroups | pkg/ext/geometry.go:110-126 | A group has a copy of the superblock exactly when it is group 0 or its number is a power of 3, 5 or 7. |
| ExtGeometry.GroupPlaces | pkg/ext/geometry.go:128-158 | Groups lie end to end; in each the copy of the superblock and the descriptors, if it has them, the bitmaps, the inode table and the data follow each other without gaps. |
| ExtGeometry.SizedIsLeast | pkg/ext/geometry.go:72-93 | The descriptors and the inode table of a group take the fewest blocks that hold them. The inodes of a group are the least multiple of 8, not below 16, that gives one to every 16 KiB of the device, or as many as its bitmap can hold. |
| ExtGeometry.SettledMeans | pkg/ext/geometry.go:90-93 | The number of groups is settled exactly when there is one or the last one keeps eight blocks for data, on the device and within the group. |
| ExtGeometry.FullGroupsSettle | pkg/ext/geometry.go:37-108 | Once a runt group has been dropped, the sizes derived from the remaining groups leave no runt again. |
| ExtGeometry.ComputeGeometry | pkg/ext/geometry.go:37-108 | The loop ends, with the largest number of groups whose last one holds its metadata and some data; the groups cut the device without gaps and each, the last one too, holds its own bitmaps and full inode table if and only if there is one group or group 0 fits, which it does up to 1 TiB; every error has a reason that holds. |
| ExtGeometry.ChosenOnce | pkg/ext/geometry.go:60-108 | No two layouts can be the one that is chosen for a device. |
| ExtGeometry.LaidOutWhen | pkg/ext/geometry.go:82-108 | Group 0 has the largest overhead: settled groups hold their metadata exactly if it does or is alone. |
| ExtLayout.BlocksWritten | pkg/ext/emit.go:83-88 | Writing whole blocks changes those blocks and no others. |
| ExtLayout.Layouter.Reserve | pkg/ext/emit.go:25-28 | A reserved region is used in the allocator and in the mirror, and owned. |
| ExtLayout.Layouter.AllocMetaBlock | pkg/ext/emit.go:41-49 | A new index block was free, is counted, and belongs to the file being laid out. |
| ExtLayout.Layouter.AllocBlocks | pkg/ext/emit.go:63-79 | So many distinct free blocks become used and owned, or nothing does, exactly when there are not enough; they are a single run if and only if so many are free in a row, and then the lowest. |
| ExtLayout.Layouter.WriteContent | pkg/ext/emit.go:90-114 | Coalesced writes put every block of a file where its list says, padded with zeros, and touch no other block. |
| ExtIndirect.WalkFrame | pkg/ext/reader.go:166-184 | Writes outside the index blocks of a pointer do not change what it leads to. |
| ExtIndirect.ReadIndirect | pkg/ext/reader.go:166-184 | The reader appends the data blocks below a pointer, at most as many as are wanted. |
| ExtIndirect.BlockList | pkg/ext/reader.go:133-163 | Direct pointers and three levels of indirection give the list the pointers stand for. |
| ExtIndirect.BuildIndirect | pkg/ext/format.go:476-498 | The index blocks made are new, distinct and counted, and lead a reader to the data blocks from the cursor on. |
| ExtIndirect.MapBlocks | pkg/ext/format.go:431-473 | A list of up to 12+p+p²+p³ blocks is mapped by new index blocks that curMeta counts; it fails only when the list is longer or the device is full. |
| ExtIndirect.AllLevels | pkg/ext/format.go:431-473 | Mapped through all levels, the list that is read back is the list that was mapped. |
| ExtExtents.ContiguousRuns | pkg/ext/extents.go:38-62 | The runs number the blocks from zero on without gaps, each at most 32768 long, and list exactly the data. |
| ExtExtents.ParseExtents | pkg/ext/extents.go:182-221 | The recursive reader gives the blocks of a node or its error, for every node whose depth ends. |
| ExtExtents.StrictIsParsed | pkg/ext/extents.go:182-221 | A tree whose levels and logical numbers are in order is parsed to its blocks in order. |
| ExtExtents.StrictFrame | pkg/ext/extents.go:182-221 | Writes outside the nodes of a tree do not change it. |
| ExtExtentWriter.WriteExtentNode | pkg/ext/extents.go:166-178 | A node is written to a new block, with its header and entries and zeros behind. |
| ExtExtentWriter.EmitLeafNodes | pkg/ext/extents.go:132-147 | The leaf nodes hold all runs in order, as few nodes as their size allows. |
| ExtExtentWriter.EmitIndexNodes | pkg/ext/extents.go:149-164 | A level of index nodes leads to the same blocks as the level below. |
| ExtExtentWriter.FiveLevels | pkg/ext/extents.go:97-130 | Fewer than 2^32 leaves need at most five levels, so the depth limit is never reached. |
| ExtExtentWriter.BuildExtentTree | pkg/ext/extents.go:97-130 | The root leads through new nodes to exactly the data; it has room for four entries and says so; the only failure is a full device. |
| ExtExtentWriter.TreeRoundTrip | pkg/ext/extents.go:97-221 | Parsing a tree that was built gives the list it was built from. |
| ExtXattr.JoinOfSplit | pkg/ext/xattr.go:68-91 | Joining inverts splitting on every name, and only the empty name splits into what ends a list. |
| ExtXattr.KnownPrefixes | pkg/ext/xattr.go:21-91 | Each known prefix has the index of the format, and the names that are known whole have an index of their own and an empty rest. |
| ExtXattr.SortedXattrs | pkg/ext/xattr.go:96-113 | The entries are those of the map, each once, by index, then length, then bytes of the name. |
| ExtXattr.Room | pkg/ext/xattr.go:122-160 | Entries growing up and values growing down never meet: four bytes stay between them. |
| ExtXattr.EncodeArea | pkg/ext/xattr.go:136-161 | An area is encoded exactly when it is large enough; then every entry and value is in its place and the list ends. |
| ExtXattr.DecodeArea | pkg/ext/xattr.go:165-195 | The loop reads entries up to the end of the list or the first one out of range. |
| ExtXattr.DecodeHeld | pkg/ext/xattr.go:165-195 | Decoding gives the entries up to the first that looks like the end of the list, an offset that wraps being of an empty value. |
| ExtXattr.VisibleIsAll | pkg/ext/xattr.go:68-195 | The entries that can be read are all of them if and only if no attribute has the empty name. |
| ExtXattr.DecodeIsInverse | pkg/ext/xattr.go:136-195 | Decoding an encoded area gives the map it was made from if and only if no attribute has the empty name. |
| ExtXattrArea.EncodeIbody | pkg/ext/xattr_area.go:11-25 | Attributes go into an inode exactly when they fit with the magic. |
| ExtXattrArea.IbodyReads | pkg/ext/xattr_area.go:29-38 | The attributes in an inode come back if and only if none has the empty name. |
| ExtXattrArea.HashBlock | pkg/ext/xattr_area.go:73-105 | Hashing walks the entries as a reader does, up to one that looks like the end of the list. Every entry met gets the hash of its name and padded value, the header the hash made of them in their order, and no name, value, offset or other field changes. |
| ExtXattrArea.EncodeBlock | pkg/ext/xattr_area.go:43-56 | Attributes go into a block exactly when they fit behind its header; the block has the magic, a count of one reference and one block, and its hashes. |
| ExtXattrArea.BlockReads | pkg/ext/xattr_area.go:59-67 | The attributes in a block come back, whatever the hashes and the checksum are, if and only if none has the empty name. |
| ExtAttrs.PlaceXattrs | pkg/ext/format.go:395-424 | Attributes are put in an inode of 256 bytes if they fit its 96 bytes, in a new owned block if not, and are refused exactly when they fit neither; without attributes nothing is put anywhere. |
| ExtAttrs.ReadXattrs | pkg/ext/reader.go:189-207 | A reader merges what the inode and the block say. |
| ExtFiles.HoldsFrame | pkg/ext/format.go:292-317 | Writes to other blocks leave a file, its map and its attributes as they are. |
| ExtFiles.BlockListOf | pkg/ext/reader.go:133-163 | Either kind of block map gives the blocks of the file in order. |
| ExtFiles.ReadAt | pkg/ext/reader.go:341-369 | Reading at an offset fills the buffer with the bytes of the file up to its end, and reports the end exactly there. |
| ExtFiles.MapInode | pkg/ext/format.go:361-473 | Attributes and block map together take new blocks, counted in the sectors of the inode. |
| ExtFiles.BuildFile | pkg/ext/format.go:292-317 | The file is on the device in new blocks that it owns, in a single run if and only if one is free; a failure has a reason that holds, and a file is too large exactly from 4 GiB on. |
| ExtRun.MetaApart | pkg/ext/geometry.go:144-158 | No block is in the metadata of two groups. |
| ExtRun.ReserveMetadata | pkg/ext/format.go:175-182 | After the fixed regions are reserved, the boot block and each group's metadata own their blocks, and nothing else is owned. |
| ExtRun.FilesApart | pkg/ext/format.go:153-196 | No block serves two files, or a file and the metadata, be it data, index or attributes. |
| ExtRun.LayOut | pkg/ext/format.go:153-196 | Laying out files one after the other keeps all earlier ones readable and every block with one owner. |
| ExtAccounts.GroupBitmap | pkg/ext/emit.go:153-185 | The bitmap of a group has exactly the used blocks set, and every bit past the group. |
| ExtAccounts.WriteBlockBitmaps | pkg/ext/emit.go:153-185 | The bitmaps are where the groups keep them, and writing them disturbs no file. |
| ExtAccounts.UsedBlocksInGroup | pkg/ext/emit.go:270-280 | The count of a group is the number of its used blocks. |
| ExtAccounts.FreeAndUsed | pkg/ext/emit.go:187-206 | Free and used blocks of a group add up to its blocks. |
| ExtAccounts.FreeCounts | pkg/ext/emit.go:187-206 | Every descriptor counts the free blocks of its group in 16 bits, and the superblock's total is the number of free blocks. |
| ExtAccounts.DescriptorCount | pkg/ext/emit.go:187-206 | The 16-bit count is exact whatever is used if and only if the group has less than 65536 blocks behind its metadata, as it always has for blocks up to 8 KiB. |
| ExtAccounts.BigBlocks | pkg/ext/emit.go:187-206 | Two gibibytes in blocks of 16 KiB make one group whose count is wrong. |
| ExtAccounts.Format | pkg/ext/format.go:153-196 | Over a new device, files, bitmaps and counts agree on the blocks in use, and a failed layout has a reason that holds. |
| ExtAccounts.FormatThenRead | pkg/ext/format.go:153-196 | Every file of a formatted device reads back at every offset, and its attributes too, unless one has the empty name. |
| ExtDir.Progress | pkg/ext/dir.go:20-47 | Every entry fits a block, so packing goes on. |
| ExtDir.LengthsFill | pkg/ext/dir.go:20-47 | The stored lengths of a block add up to the block. |
| ExtDir.BuildDirBlocks | pkg/ext/dir.go:20-47 | No entry crosses a block, and every block but the last is as full as the next entry allows. |
| ExtDir.BlockReads | pkg/ext/dir.go:60-75 | A finished block gives back its entries, if the length of the last one fits its 16 bits. |
| ExtDir.LoneEntryLost | pkg/ext/dir.go:60-75 | A block of 64 KiB with a single entry reads as empty. |
| ExtDir.DirReads | pkg/ext/dir.go:12-75 | The blocks of a directory give back all entries if and only if no block of 64 KiB has a single one. |
| ExtDir.BuildThenParse | pkg/ext/dir.go:12-75 | Building and parsing gives the entries back under that condition and no other. |
| ExtDir.CrowdLosesOne | pkg/ext/dir.go:20-75 | There is a valid directory that loses its last entry in blocks of 64 KiB. |
| ExtBuild.BuildBlocks | pkg/ext/format.go:261-290 | The ready blocks of a directory are on the device as the content of a file, or a reason that holds says why not. |
| ExtBuild.BuildBare | pkg/ext/format.go:319-358 | A node without data takes no block but that of its attributes, and fails only if they do not fit. |
| ExtBuild.BuildTarget | pkg/ext/format.go:319-345 | A long target is on the device as a file, though its attributes are placed first; a failure has a reason that holds. |
| ExtTree.LostFoundKeeps | pkg/ext/format.go:200-208 | If the root has no lost+found, it gets a directory of that name and mode 0700, empty, behind all other nodes; its other names, its mode and every other node stay. If it has one, nothing changes. |
| ExtTreeWriter.TreeLayouter.AssignInodes | pkg/ext/format.go:210-224 | Every node below a directory gets a number, one for each node and none of the reserved ones; no other node gets one, and numbers leave no gap. |
| ExtTreeWriter.SlowIsSeen | pkg/ext/format.go:319-345 | A target in blocks has more sectors than its attributes cost, which is how a reader tells it from one in the inode. |
| ExtTreeWriter.SectorsCount | pkg/ext/format.go:426-473 | The sectors of an inode are exactly the bytes of its blocks, in units of 512. |
| ExtTreeWriter.LayNode | pkg/ext/format.go:228-358 | A node of any kind is on the device in new blocks that it owns, with what its inode must say, or its data, map or attributes do not fit. |
| ExtTreeWriter.TreeLayouter.BuildNode | pkg/ext/format.go:228-259 | A node and everything below it is laid out, a shared node once, every directory with the number of a directory that names it in its "..", and all earlier ones undisturbed; a failure is explained by some node of the tree that does not fit. |
| ExtTreeFormat.FormatTree | pkg/ext/format.go:153-196 | A formatted device holds everything below the root, with one owner to a block and bitmaps and counts that agree. It fails only for a refused geometry, for more nodes than inodes, exactly then, or for a node that does not fit. |
| ExtTreeReader.ShownKids | pkg/ext/reader.go:260-290 | The entries of a directory but the dots are its names in order, with the numbers of their nodes. |
| ExtTreeReader.DentriesTell | pkg/ext/format.go:261-290 | A directory begins with its own number and that of a directory that names it, its own at the root; every other entry has the number of its node and the code of its kind, in the order of names. |
| ExtTreeReader.AllTell | pkg/ext/format.go:261-290 | The blocks on the device of every directory of a formatted tree parse to such entries. |
| ExtTreeReader.TreeReader.ReadDirectory | pkg/ext/reader.go:260-290 | Reading a directory finds its names in order and all nodes below. |
| ExtTreeReader.TreeReader.ReadNode | pkg/ext/reader.go:209-258 | Reading a node finds it as it was laid out, once for all its names, and everything below it. |
| ExtTreeReader.FormatThenOpen | pkg/ext/reader.go:209-290 | Formatting a device with a tree and opening it gives the same tree, kinds, attributes, targets, devices, contents and sharing, plus lost+found; every directory on the device tells its own number, its parent's, and the numbers and kinds of its nodes; the failures are those of FormatTree, with their reasons. |
| CpioFormat.ModeRoundTrip | pkg/cpio/header.go:83-140 | Types and mode bits survive the way to st_mode and back. |
| CpioFormat.EightDigits | pkg/cpio/header.go:38-46 | Eight hexadecimal digits hold every 32-bit number. |
| CpioFormat.HeaderText | pkg/cpio/header.go:26-46 | A header is the digits 070701 and thirteen fields in the order of the format, the last one zero. |
| CpioFormat.DigitsRead | pkg/cpio/header.go:38-80 | Digits are written in lower case and read in either. |
| CpioFormat.HeaderRoundTrip | pkg/cpio/header.go:26-80 | A header in range is parsed back from its bytes. |
| CpioReader.ChildDirFinds | pkg/cpio/reader.go:163-174 | A missing directory on a path is made, empty and of mode 0755; one that is there is used, and nothing else changes. |
| CpioReader.AttachHangs | pkg/cpio/reader.go:134-159 | A name leads to the node hung there, or to the directory it was, with the new metadata; no other name and no other node changes. |
| CpioReader.KeptJoins | pkg/cpio/reader.go:176-185 | Only empty parts of a path and single dots are left out. |
| CpioReader.Reader.LinkAt | pkg/cpio/reader.go:134-159 | A node is hung at its path, missing directories being made on the way, over whatever had the name. |
| CpioReader.Reader.Add | pkg/cpio/reader.go:75-130 | One member makes or finds its node, fills it and hangs it, as the graph function says. |
| CpioReader.Reader.Read | pkg/cpio/reader.go:39-71 | The reader's graph is the fold of all members up to the trailer. |
| CpioListing.CollectLists | pkg/cpio/writer.go:60-72 | The walk lists every path below the root once, parents first and by name. |
| CpioWriter.CollectInto | pkg/cpio/writer.go:60-72 | The recursive walk appends the paths and nodes in that order. |
| CpioWriter.Number | pkg/cpio/writer.go:32-56 | Every node has one inode number, the count of its names and the index of its last name. |
| CpioArchive.CWriter.WriteEntry | pkg/cpio/writer.go:76-120 | A member is its header, its name and, with the last name only, its body, padded to four bytes each. |
| CpioArchive.CWriter.WriteArchive | pkg/cpio/writer.go:32-56 | The archive is the members in order, the trailer and the padding to 512 bytes. |
| CpioRoundTrip.ReadIsReplay | pkg/cpio/reader.go:39-71 | Reading the bytes of an archive is adding its members one by one. |
| CpioReplay.MemberAdded | pkg/cpio/reader.go:75-130 | Adding one more member extends the graph by what its name stands for, whether its body has come yet or not. |
| CpioEnd.Shares | pkg/cpio/reader.go:75-130 | Two names point to one node exactly when they are one name or names of one regular file. |
| CpioEnd.BuiltIsSame | pkg/cpio/reader.go:39-159 | The graph of all members is the tree: names, modes, owners, links, devices and contents. |
| CpioEnd.StopsShort | pkg/cpio/reader.go:39-71 | The reader stops before the end exactly when the root has an entry named as the trailer. |
| CpioEnd.ArchiveReads | pkg/cpio/reader.go:39-159 | Reading an archive gives the same tree if and only if the root has no such entry. |
| CpioEnd.TrailerNamed | pkg/cpio/reader.go:39-71 | There is a valid tree with such an entry. |
| CpioEnd.SharingIsWhole | pkg/cpio/reader.go:75-130 | All sharing comes back if and only if only regular files have two names. |
| CpioEnd.LinkedSymlink | pkg/cpio/reader.go:75-130 | There is a valid tree with a symlink of two names, which come back apart. |
| CpioEnd.WriteThenRead | pkg/cpio/writer.go:32-164 | Writing a tree and reading the archive gives the same tree with the same sharing of regular files if and only if the root has no such entry. |
| RomfsFormat.ChecksumZeroes | pkg/romfs/header.go:8-24 | A header with its checksum sums to zero. |
| RomfsFormat.EntrySums | pkg/romfs/writer.go:155-174 | Every entry that is written sums to zero over its header and name. |
| RomfsFormat.HeadReads | pkg/romfs/reader.go:62-77 | A header is read back: next, type bits, info and size. |
| RomfsFormat.NameReads | pkg/romfs/reader.go:79-92 | A name is read back as its first 256 bytes up to a NUL. |
| RomfsFormat.ShownIsName | pkg/romfs/reader.go:79-92 | That is the name itself if and only if it has no NUL and at most 256 bytes. |
| RomfsFormat.DeviceReads | pkg/romfs/writer.go:135-153 | Device numbers come back modulo 2^24. |
| RomfsFormat.ReadDir | pkg/romfs/reader.go:94-123 | Following the next offsets gives the nodes of the chain up to its end or to a header met before, or the error of the first bad one. |
| RomfsTree.DirReads | pkg/romfs/reader.go:94-161 | A directory that was laid out is read to its end, whatever its names are; if all names fit, its kids come back in order, with their types, targets, devices and bytes, all the way down. |
| RomfsTree.ChainFits | pkg/romfs/reader.go:79-123 | No reader finds a name with a NUL or of more than 256 bytes, whatever is on the device. |
| RomfsTree.ExpectedFits | pkg/romfs/reader.go:79-123 | So a tree that is found has only names that fit. |
| RomfsWriter.Layouter.LayoutDir | pkg/romfs/writer.go:58-79 | The headers, names and data of a tree get offsets that are multiples of 16, ascend and do not overlap. |
| RomfsImage.StreamContent | pkg/romfs/writer.go:176-194 | The bytes of a file are written whole, padded with zeros to 16, and nothing else is. |
| RomfsImage.WriteKid | pkg/romfs/writer.go:104-132 | An entry goes between the ones before and behind it without touching either. |
| RomfsImage.WriteDir | pkg/romfs/writer.go:104-132 | Writing a directory puts everything below it where the layout says. |
| RomfsBack.KidsBack | pkg/romfs/reader.go:94-161 | What a reader is expected to find of a tree is the same names in order, with the kind, one bit for execution, target, device number in 24 bits and bytes of each node, all the way down. |
| RomfsEnd.FinishChecksum | pkg/romfs/writer.go:227-241 | The first 512 bytes, or the whole of a smaller image, sum to zero, and only the checksum field changes. |
| RomfsEnd.WriteImage | pkg/romfs/writer.go:40-56 | The image is the superblock, the volume name, the root header and the tree, with its checksum. |
| RomfsEnd.RootFound | pkg/romfs/reader.go:17-45 | The list of the root is sought where the volume name that is read puts it, for every volume name. |
| RomfsEnd.ImageOpens | pkg/romfs/reader.go:17-45 | Opening an image whose root is found ends, and gives the tree it holds if and only if all names fit. |
| RomfsEnd.WriteThenOpen | pkg/romfs/writer.go:40-132 | Writing a tree and opening the image gives the names of the tree in order, kinds, one bit for execution, targets, device numbers in 24 bits and bytes, all the way down, if and only if all names fit; the image begins with its magic and its size. |
| RomfsEnd.VolumeLost | pkg/romfs/reader.go:17-45 | A volume name of a NUL and 31 letters sends the reader elsewhere. |
| SquashMeta.MetaWriter.Write | pkg/squashfs/meta.go:26-31 | The bytes are appended to the uncompressed stream in blocks of exactly 8 KiB, blocks already emitted staying as they are. |
| SquashMeta.MetaWriter.Finish | pkg/squashfs/meta.go:33-37 | What is pending becomes the last block; all others have 8 KiB. |
| SquashMeta.MetaHeader | pkg/squashfs/meta.go:46-62 | A block begins with the length of what follows, with the top bit set exactly if it is stored as it is because packing failed or did not make it shorter. |
| SquashMeta.BlockReads | pkg/squashfs/meta.go:49-62 | A metadata block is read back whether it was compressed or not. |
| SquashMeta.ReadMetaTable | pkg/squashfs/reader.go:99-114 | The table is the blocks from start on, decompressed, with the place of each. |
| SquashMeta.RefResolves | pkg/squashfs/reader.go:195-203 | A reference taken before a write leads to the position of the next byte in the decompressed table. |
| SquashMeta.WholeStream | pkg/squashfs/reader.go:99-114 | A finished stream decompresses to exactly what was written. |
| SquashMeta.WriteParts | pkg/squashfs/writer.go:118-124 | Each part is written behind a reference taken just before, and the stream is their concatenation. |
| SquashMeta.PartsResolve | pkg/squashfs/reader.go:195-203 | The reference of every non-empty part leads a reader to exactly its bytes, also in a table that goes on behind the stream. |
| SquashListing.BuildListing | pkg/squashfs/writer.go:322-352 | A listing is cut into runs of at most 256 entries in one block whose inode deltas fit 16 bits, and only where the next entry would break that. |
| SquashListing.ReadListing | pkg/squashfs/reader2.go:95-123 | The cursor loops read the entries a listing stands for. |
| SquashListing.ListingRoundTrip | pkg/squashfs/writer.go:322-352 | Names, inode references and numbers come back in order, across all cuts, with a type of 1 to 7 that is that of the node or its extended form. |
| ErofsDir.Progress | pkg/erofs/dirent.go:21-43 | Every entry fits a block, so packing goes on. |
| ErofsDir.EncodeDirBlock | pkg/erofs/dirent.go:45-58 | A block has its records, then its names, then zeros, and the first name offset tells how many records there are. |
| ErofsDir.DirentLayout | pkg/erofs/dirent.go:45-58 | Record k has the number of its node, where its name begins, the type and a zero, and all names begin within 4 KiB. |
| ErofsDir.PackSorted | pkg/erofs/dirent.go:21-43 | The output is whole blocks, each as full as the next entry allows, in the order of the entries. |
| ErofsDir.BlockReads | pkg/erofs/reader.go:164-213 | A block gives back its entries, names ending at the next name or at the zeros. |
| ErofsDir.PackedReads | pkg/erofs/reader.go:164-213 | All blocks together give back the entries in order, without the dots. |
| ErofsDir.PackThenRead | pkg/erofs/dirent.go:21-58 | Packing a directory and reading it gives its sorted names with their nodes, without the dots. |
| ImageGraph.MkdirKeeps | pkg/image/mem.go:132-141 | Making a directory keeps names unique and valid, directories in a forest, and every link counted; the new node is what was asked for, under the new name, and no other entry changes. |
| ImageGraph.MakeKeeps | pkg/image/mem.go:143-176 | So does making a file, link or device, what Mknod leaves out being accounted for. |
| ImageGraph.LinkKeeps | pkg/image/mem.go:178-192 | So does another name for a file. |
| ImageGraph.RemoveKeeps | pkg/image/mem.go:202-219 | So does removing a name. |
| ImageGraph.EveryRunKeeps | pkg/image/mem.go:116-219 | Whatever sequence of edits is done to a new image, the invariants hold after it. |
| ImageGraph.FilesRight | pkg/image/mem.go:116-219 | A node that is no directory has as many links as entries name it. |
| ImageGraph.RightUnlessOdd | pkg/image/mem.go:116-219 | Every attached directory has two links and one for each directory in it, exactly as long as no directory made by Mknod is involved. |
| ImageGraph.MakeKeepsRight | pkg/image/mem.go:163-176 | An image is right after Create, Symlink or Mknod if and only if it was before and the node has no directory bit. |
| ImageGraph.CleanRunIsRight | pkg/image/mem.go:116-219 | After every run of edits on a new image that makes no such node, every attached directory has the links it should. |
| ImageGraph.PathsDescend | pkg/image/mem.go:116-219 | Going down from directory to directory never comes back. |
| MemImage.Mem.Mkdir | pkg/image/mem.go:132-141 | A directory is made exactly when the name is valid and new, and the parent gets a link. |
| MemImage.Mem.Create | pkg/image/mem.go:143-151 | A file is made exactly when the name is valid and new, and nothing changes otherwise. |
| MemImage.Mem.Mknod | pkg/image/mem.go:163-176 | The type bits are kept if one of them is special, and a device is made if none is. |
| MemImage.Mem.Link | pkg/image/mem.go:178-192 | The file gets one more name and one more link, in place. |
| MemImage.Mem.Remove | pkg/image/mem.go:202-219 | The first entry of that name goes, unless it is a directory that is not empty. |
| Grafting.SortedEntries | populate.go:193-197 | The children in the order of their names, each once. |
| GraftTrees.SharingIsExact | populate.go:87-118 | Two names of the copy share a node exactly when they were names of one regular file with more than one link. |
| GraftTrees.GraftedIsCopy | populate.go:87-118 | A copied node has the permissions, owner and attributes of its source; a file has its bytes, a symlink its target, a device, pipe or socket its type bits and device number, and nothing has a field of another kind. |
| GraftTrees.SameWhenPlain | populate.go:87-118 | A copy is its source, every field of it, if and only if the type bits and fields of the source suit one kind. |
| GraftTrees.SharingIsKept | populate.go:87-118 | All sharing of regular files comes over if and only if no file of two names has a link count of one or less. |
| GraftTrees.KidsStep | populate.go:87-118 | One more name keeps what was copied before, and its sharing. |
| GraftTrees.DirDone | populate.go:87-118 | A directory whose names were grafted into a new directory is a copy. |
| Grafting.GraftOne | populate.go:87-118 | A node is copied under its name with everything below it, bytes, targets, device numbers, permissions, owners and attributes, or a name at or below it was bad; the rest of the image keeps its names and inodes either way. |
| Grafting.Graft | populate.go:77-85 | The names below the source are copied into a directory if and only if all names below it are valid and met once and none clashes; the rest of the image is left alone either way. |
| Grafting.CopiedIsGood | populate.go:77-118 | Whatever was copied had valid names, each once in its directory. |
| Grafting.SourceWasGood | populate.go:77-118 | So a source that was copied had good names throughout, and none that the directory had already. |
| Grafting.CopyTree | populate.go:77-118 | Grafting into a new image succeeds if and only if all names are good, and gives a tree of the same names over nodes that are copies, bytes, targets and device numbers included, with the same sharing, and link counts that are right. |

## Left out

- ExtTreeFormat.FormatTree: inode tables are a map from inode numbers, without the bytes of the inodes, and the inode bitmap, `usedInodesInGroup`, `dirsInGroup`, descriptors and superblocks are not written.
- ExtTreeReader.FormatThenOpen: is for blocks below 64 KiB, because a directory in larger ones can lose an entry; `ExtTreeReader.OpenTree` is for all sizes under the condition that none does. A symlink of less than 60 bytes comes back without the NULs at its end, and a device number in 32 bits, as the theorem says.
- ExtTreeWriter.LayNode: a directory is taken to fill at most 4 GiB of blocks and a link target to be at most 4 GiB long, because the size field of the inode holds 32 bits and the code does not check either.
- ExtXattr.EncodeArea: names are at most 255 bytes behind their prefix, because the code stores their length in a byte without a check; areas end within 64 KiB of their base.
- ExtXattrArea.HashBlock: the hash functions are parameters.
- ExtExtents.ParseExtents: is specified for nodes whose parse ends within a given depth, because the code does not require the depth of a child to decrease; trees that the code built always end.
- ExtIndirect.ReadIndirect: block numbers are read as they are; a device error while reading is not modelled, here or elsewhere.
- ExtAccounts.Format: is for devices of at most 1 TiB and the inode sizes that the engines choose; `ExtGeometry.ComputeGeometry` is for all.
- Qcow2Writer.Writer.Finalize: says what the image is when offsets fit the 56 bits of a table entry and the host file was zero past its first cluster; the 64-bit overflow of an offset plus a length, and host I/O errors, are not modelled.
- OciApplier.DiffAndApply: trees have no shared nodes, no names with the whiteout prefix, and no children below nodes that are not directories; root metadata, modification times and link counts are not compared. Names are strings of characters, not bytes.
- OciLayer.WriteEntry: hard-link records and the map of nodes already written are left out, because shared nodes are; gzip, the digest, JSON and the spill to temporary files are not part of this model.
- CpioEnd.WriteThenRead: names have no NUL, sizes and times fit 32 bits; a zero modification time, which the code replaces by the clock, and the metadata of the root, which an archive does not carry, are left out.
- CpioReader.Reader.Read: nodes are entries of a sequence and pointers are positions in it.
- RomfsEnd.WriteThenOpen: trees have no shared nodes, and the image is below 4 GiB. For a volume name that puts the root elsewhere, `RomfsEnd.RootFound` says where the reader looks, and not what it finds there.
- RomfsFormat.ReadDir: is specified for chains whose descent ends within a given depth, because a crafted image can nest without end.
- SquashListing.ListingRoundTrip: the 64 KiB limit of a listing and the inode that points to it are left out. Squashfs is modelled as metadata streams and listings, not as a whole image: inodes, data blocks, fragments, the id and xattr tables and the superblock are not part of it.
- SquashMeta.WriteParts: the compressor is a parameter that inverts itself; a compressor error makes the block be stored as it is.
- ErofsDir.PackThenRead: inodes, data and shared xattrs of EROFS are not part of this model.
- MemImage.Mem.Link: the target is a node of the same image that is no directory, which is what `Create` hands out; the check for foreign handle types is left out, as are `Lookup`, `Range`, `SubDir` and the clock that fills in a zero modification time.
- Grafting.Graft: the source is a graph of nodes in which no directory is below itself, numbered from the top in ghost state; `PopulateFromDir` and `ExtractToDir` work on the host and are not part of this model.
- Other engines (FAT, exFAT, ISO, UDF, cramfs, mtree), partition tables, devices, the registry client and the command line are not modelled.
