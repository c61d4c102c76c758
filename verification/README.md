# Verified model of image building and launch measurement

This project models the parts of cvmbuild that decide what a confidential guest boots and what
it measures, and proves properties of the model with Dafny 4.11. `dafny verify dfyconfig.toml`
checks everything.

## What is modelled

- **The squashfs writer** (`scan`, `numbering`, `dedup`, `data`, `fragment`, `filedata`,
  `metadata`, `writer`, `inode`, `directory`, `dirtable`, `tablewriter`, `lookup`, `tables`,
  `superblock`, `indexes`, `framing`, `create`): scanning into an arena, inode numbers, content
  deduplication, block compression and regrouping, fragments, streaming metadata blocks, grouped
  directories with back-patched counts and an index, lookup tables, and the phases of
  `create_squashfs`.
- **The squashfs reader** (`reader` says what each operation returns on any image, `metareader`
  and `readmethods` run it, `walkends` and `loopimage` say when a walk ends, `roundtrip`, `paths`
  and `walking` relate it to the writer). `layouts` gives every record number by number.
- **The dm-verity hash tree** (`verity`), hash type 1 of the Linux kernel's dm-verity document.
- **SEV-SNP launch measurement** (`gctx`, `sevhashes`, `vmsa`, `ovmf`, `launch`), after the AMD
  SEV-SNP firmware ABI specification, section 8.17.2, Table 67. `launchlog` describes a launch by
  the numbers of its records alone, and `launchexact` proves the calculation exactly that.
- **TDX measurement** (`ovmf`, `mrtd`, `authenticode`, `rtmr`, and in the same way `pesections` and
  `registers`), after section 12.2 of the Intel TDX Module Base Architecture Specification and
  section 11 of the TDX Virtual Firmware Design Guide.

The main result is `Create.CreateSquashfs`: reading undoes writing for whole trees. The rest of
the squashfs part builds it up layer by layer; the measurement parts end in commitment theorems
that either identify the inputs or hand back a collision between an input hashed by the one
computation and an input hashed by the other.

## Conventions

- zstd is a pair of function values. `Lossless` is all that is assumed of it: decompression
  undoes compression within the capacity, and non-empty input gives non-empty output.
  Compression may fail.
- Hash functions are function values with a fixed digest length. As any such function has
  collisions, binding results do not merely say that one exists: `Clash` puts its two sides in
  the sets of inputs that the two computations hash (`Records`, `PathInputs`, `Inputs` and so on).
- A walk is followed for a number of directory levels. It ends if some number is enough, and then
  more levels change nothing; the code has no such bound and recurses without end otherwise.
- Formats and measurements are stated twice: by the functions that an operation is proved to compute,
  and, without these, in the numbers of the format (`Framing`, `Layouts`, `TreePaths`, `LaunchLog`,
  `PeSections`, `RegisterEvents`, and the predicates before the lemmas named `...Exactly`). The
  lemmas connect the two, in both directions where there is a result to be exact about.
- rayon's parallel map is an order-preserving map. Output is an append-only byte string with a
  final overwrite of its start.
- Names, link targets and command lines are byte (or UTF-16 code unit) strings.
- Integers are unbounded; `as u16`, `as u32` and `to_le_bytes` keep the low bits explicitly, and
  lemmas about reading back carry the bounds they need. `TreeFits` and `TreeCost` state those
  bounds on the tree, before anything is written.
- A panic, a failed `ensure!` and an I/O-free error return are all `None` (or `false`).
- Vectors and maps that the code updates in place are fields of classes, or local variables, of
  sequence and map type; byte buffers of fixed size are arrays.

## Where the code does not do what one would expect

- A multi-block file whose short last block is all zero is stored as sparse; the reader expands
  it to a whole block and then rejects the length. `FileData.FileReadsBack` says that this is
  the only case: reading gives an error if and only if `ShortZeroTail`, and the file's bytes
  otherwise. The walk shows such a file with no content. `FileData.ZeroTailUnreadable` is an
  instance.
- `assign_inode_numbers_dfs` numbers a directory before recursing into it (lib.rs:296-300); its
  header comment says after. The model follows the code.
- The two walks of the firmware table keep different entries of a repeated GUID. They agree if
  and only if there is no TDX entry or the first and the last one end in the same four bytes
  (`Firmware.AgreeExactly`; an instance where they do not is `Firmware.RepeatedGuidsDisagree`).
- The walk for the TDX metadata offset can run forever: if and only if entries other than TDX
  ones lead down to a zero-length header above the end of the table (`Firmware.NeverEnds`,
  `Firmware.NoProgressExactly`; `Firmware.ZeroLengthEntry` is an instance). The model returns
  `NoProgress` there.
- The reader's walk does not check for loops. It ends if and only if the root is in no endless set
  of directories (`WalkEnds.EndsExactly`), which for an image that can be read means that no path
  comes back (`WalkEnds.ReadableEndsExactly`). `LoopImages.LoopImageNeverEnds` builds an image,
  byte for byte, that opens and is walked without end. Written images are walked to an end
  (`Walking.WalkShowsTree`).
- The count of index records in a directory inode is cut to 16 bits: it is right if and only if
  there are fewer than 65536 of them (`DirectoryIndexes.StoredCountExactly`).
- The `dir_size > 65535` test of the extended directory form can never decide
  (`DirTable.BasicDirectoryIsSmall`).

## Model

| member | source | states |
|---|---|---|
| `Create.CreateSquashfs` | crates/cvmbuild-squashfs/src/lib.rs:70-254 | For every directory tree (any nesting, any order of entries): inode numbers are a bijection from hard-link classes onto 1..total, the image is a multiple of 4096 bytes, and, if zstd is lossless, no two files collide under the hash and the metadata stays within 32-bit offsets, the image reproduces the tree: it opens; a walk of it ends and shows exactly the nodes in pre-order with their paths, numbers, permissions, owners, link counts, targets and contents; the export table finds every inode by number; every directory's index leads into its listing, and its entries bear the numbers and types of the inodes they refer to; the ranges that file inodes and fragment entries record lie between superblock and inode table, any two of them disjoint unless two inodes share one; and the tables fill the rest without gaps, the recorded length is the end of the ID table's offsets, and zeros follow up to a multiple of 4096. The paths are stated from the names alone (one slash before each) |
| `Create.WriteImage` | crates/cvmbuild-squashfs/src/lib.rs:74-250 | The same for an arena of nodes in depth-first layout: all phases in order on one output, then the superblock over the start |
| `Create.WriteData` | crates/cvmbuild-squashfs/src/lib.rs:103-189 | After collection, compression, storing and copy resolution every file node has data information of the right size (no lookup fails), and each leads to the file's own bytes unless two files of equal size and hash differ. The in-line ranges of any two files are equal or disjoint, and disjoint from every fragment block; fragment blocks are disjoint |
| `Create.ServedApart` | crates/cvmbuild-squashfs/src/lib.rs:121-189 | From the ranges of the scheduled files to those of all files: names and copies of one content use one range, everything else is apart |
| `Create.WriteTables` | crates/cvmbuild-squashfs/src/lib.rs:191-219 | Both tables follow each other in the output, every node is placed, every export slot is filled, and the metadata fits the room computed from the tree alone |
| `Create.OpenComplete` | crates/cvmbuild-squashfs/src/reader.rs:104-120 | Opening a finished image yields its superblock, the ID table [0] and exactly the fragment entries written |
| `Create.ExportReads` | crates/cvmbuild-squashfs/src/lib.rs:588-634 | Slot n - 1 of the export table in the image refers to an inode that reads back with number n, for all n; if that is a directory, its index agrees with its listing, and its entries with their inodes |
| `Create.ImageReproduces` | crates/cvmbuild-squashfs/src/lib.rs:231-250 | A superblock, its tables, the stored data and the padding in one image are enough for the whole tree to read back |
| `Create.ImageFramed` | crates/cvmbuild-squashfs/src/lib.rs:206-247 | Over the opened image alone: the metadata blocks of inodes and directories, then fragment entries, export table and ID table, each with its offsets, follow each other without gaps; the recorded length ends them; the rest is fewer than 4096 zeros; and time, block size, compression, flags, ID count and xattr offset are the fixed ones |
| `Framing.FramedWhen` | crates/cvmbuild-squashfs/src/writer.rs:69-105 | So is every image with these tables at these places: each table's blocks, walked by their stored lengths, begin where the part before ends and end at its offsets, which name them in order |
| `Framing.TablesInOrder` | crates/cvmbuild-squashfs/src/lib.rs:206-235 | In such an image the tables lie one behind the other, the last before the recorded end |
| `Create.ImageApart` | crates/cvmbuild-squashfs/src/lib.rs:121-189 | In a finished image, over what a reader sees: for any two file inodes found through the export table the ranges given by start block and block sizes are equal or disjoint, each is disjoint from every fragment block, and all lie between the superblock and the inode table |
| `Create.FinishedHeld` | crates/cvmbuild-squashfs/src/fragment.rs:94-96 | Flushing the last fragment block moves no fragment |
| `Scanning.ScanTree` | crates/cvmbuild-squashfs/src/lib.rs:726-748 | The arena built by pushing nodes and child indices in place is the depth-first layout of the tree |
| `Scanning.Scanner.ScanDirRecursive` | crates/cvmbuild-squashfs/src/lib.rs:751-835 | Scanning a directory appends exactly the nodes below it and lists its children in order; special files leave nothing |
| `Scanning.ScannedWellLaid` | crates/cvmbuild-squashfs/src/lib.rs:751-835 | In every scanned arena each subtree is a contiguous range that starts at its node, children following each other without gaps |
| `InodeNumbers.NumberTree` | crates/cvmbuild-squashfs/src/lib.rs:80-93 | One number per hard-link class, symlink and directory; numbers 1..total all used; the root has total; and numbers increase in pre-order, a directory before what is below it |
| `InodeNumbers.Numberer.AssignInodeNumbersDfs` | crates/cvmbuild-squashfs/src/lib.rs:263-304 | Extends a faithful, gapless, ordered numbering from the nodes before a subtree to the whole subtree |
| `InodeNumbers.SharedNumber` | crates/cvmbuild-squashfs/src/lib.rs:278-284 | A later name of a numbered file takes its number without breaking the bijection or the order |
| `InodeNumbers.FreshNumber` | crates/cvmbuild-squashfs/src/lib.rs:285-299 | A number is fresh exactly for the first node of a class |
| `Dedup.Collector.CollectDataFilesDfs` | crates/cvmbuild-squashfs/src/lib.rs:318-397 | Keeps the plan: each file scheduled at most once, no two scheduled non-empty files with equal size and hash, every copy referring to a scheduled file (never to a copy) of equal size and hash, every file served |
| `Dedup.PlanCopy` | crates/cvmbuild-squashfs/src/lib.rs:357-363 | Recording a duplicate content serves the file by a stored one |
| `Dedup.PlanStore` | crates/cvmbuild-squashfs/src/lib.rs:364-382 | Scheduling a new content keeps contents distinct and the content map exact |
| `Dedup.PlanLink` | crates/cvmbuild-squashfs/src/lib.rs:336-341 | A further name of a file is served by the first name's data |
| `FileData.StoreAll` | crates/cvmbuild-squashfs/src/lib.rs:121-170 | Every scheduled file's information leads to its own bytes, in line or in a fragment block, through all later writes and flushes; the in-line ranges of the scheduled files and the fragment blocks flushed so far are pairwise disjoint and lie within the output |
| `FileData.StoreFile` | crates/cvmbuild-squashfs/src/lib.rs:129-170 | One file: full blocks in line at the end of the output or a fragment, never both; what was stored before stays located |
| `FileData.RangesStored` | crates/cvmbuild-squashfs/src/lib.rs:129-170 | One more file, with or without a flush, keeps all in-line ranges and fragment blocks pairwise disjoint |
| `FileData.InfoExtent` | crates/cvmbuild-squashfs/src/writer.rs:185-209 | The range read from a file's start and size fields is exactly its stored blocks, and empty for a file without full blocks |
| `FileData.ResolveCopies` | crates/cvmbuild-squashfs/src/lib.rs:173-186 | No lookup fails; every copy uses the range of a stored file, and ends with information of its own length that leads to its own bytes, or two files of the tree collide |
| `DataBlocks.CompressFilesParallel` | crates/cvmbuild-squashfs/src/writer.rs:131-180 | Compressing the flat list of all files' chunks and regrouping by file equals compressing each file alone, in order |
| `DataBlocks.SelectCompressed` | crates/cvmbuild-squashfs/src/writer.rs:150-177 | Mapping commutes with picking out one file's chunks |
| `DataBlocks.WriteCompressedFile` | crates/cvmbuild-squashfs/src/writer.rs:185-209 | Appends the non-sparse payloads in order and returns a start and size fields that describe them |
| `DataBlocks.ChunkForm` | crates/cvmbuild-squashfs/src/writer.rs:150-177 | A chunk of zeros is not stored and has size 0; any other is stored in the compressed form if that is shorter, else as it is with bit 24 set |
| `DataBlocks.BlocksRead` | crates/cvmbuild-squashfs/src/reader.rs:348-370 | Reading the stored blocks of any list of chunks expands each to its bytes, or to a whole block of zeros if it was sparse; all size fields fit u32 |
| `DataBlocks.ExpansionOfChunks` | crates/cvmbuild-squashfs/src/reader.rs:352-355 | The expansion is the file exactly unless its last block is short and all zero, and then it is longer than the file |
| `DataBlocks.ChunkCount` | crates/cvmbuild-squashfs/src/writer.rs:138-146 | The number of chunks is the reader's block count |
| `FileData.FileReadsBack` | crates/cvmbuild-squashfs/src/reader.rs:342-406 | Reading a stored file gives its bytes, or, if and only if it has a short all-zero last block after a full one, an error; never other bytes |
| `FileData.ZeroTailUnreadable` | crates/cvmbuild-squashfs/src/writer.rs:154-155 | The smallest instance: 131073 zero bytes are stored and cannot be read back |
| `FileData.SparseAddsUp` | crates/cvmbuild-squashfs/src/lib.rs:146-157 | The recorded sparse bytes and the bytes of stored chunks add up to the file size |
| `FileData.InfoHoldsFits` | crates/cvmbuild-squashfs/src/reader.rs:203-211 | The reader's block-count formula equals the number of block sizes written, with and without a fragment, and no field overflows |
| `Fragments.FragmentTable.AddFragment` | crates/cvmbuild-squashfs/src/fragment.rs:39-59 | A fragment joins the block being filled if it fits into 131072 bytes, else it begins the next one. Index and offset locate exactly the added bytes; blocks never exceed 128 KiB; earlier fragments and their stored blocks stay where they are; at most one block is stored, behind everything in the output (so apart from all of it: `FileData.RangesStored`) |
| `Fragments.FragmentTable.FlushBlock` | crates/cvmbuild-squashfs/src/fragment.rs:61-91 | The filled block is stored at the end of the output and described by the next entry |
| `Fragments.FragmentTable.Finish` | crates/cvmbuild-squashfs/src/fragment.rs:94-96 | After finishing, every block handed out is stored |
| `Fragments.FragmentBlockReads` | crates/cvmbuild-squashfs/src/reader.rs:372-388 | The reader decodes an entry's stored range to exactly the packed block |
| `Fragments.BlocksApart` | crates/cvmbuild-squashfs/src/fragment.rs:61-91 | The ranges that entries refer to, as the reader takes them, lie in the output and are pairwise disjoint |
| `Fragments.FragmentForm` | crates/cvmbuild-squashfs/src/fragment.rs:61-91 | A stored block is the compressed form if that is shorter, and the size its length; else the block itself, and bit 24 says so |
| `Writer.MetadataWriter.Write` | crates/cvmbuild-squashfs/src/writer.rs:55-67 | The finished blocks are always the encoding of all but the bytes still buffered, whatever the sizes written |
| `Writer.MetadataWriter.Position` | crates/cvmbuild-squashfs/src/writer.rs:49-51 | The position is the stored offset of the current block and the offset in it, below 8192 |
| `Writer.MetadataWriter.FlushBlockInternal` | crates/cvmbuild-squashfs/src/writer.rs:69-93 | Flushing encodes the buffered bytes as one block and changes nothing of the stream |
| `Writer.MetadataWriter.Finish` | crates/cvmbuild-squashfs/src/writer.rs:97-105 | The table appended to the output is the encoding of the whole stream |
| `Metadata.MetaBlockReads` | crates/cvmbuild-squashfs/src/reader.rs:638-660 | A stored block, compressed or not, reads back |
| `Metadata.MetaBlockForm` | crates/cvmbuild-squashfs/src/writer.rs:69-93 | A stored metadata block is the length of the compressed form and that form, if it is shorter; else bit 15 and the length of the block, and the block |
| `Metadata.EncodedStreamReads` | crates/cvmbuild-squashfs/src/reader.rs:684-712 | A reader chaining blocks from the start of a table sees the stream that was written |
| `Metadata.RefStable` | crates/cvmbuild-squashfs/src/writer.rs:47-51 | A position captured before later writes is still right after them |
| `Metadata.RefMonotone` | crates/cvmbuild-squashfs/src/inode.rs:17-19 | Packed references order stream offsets strictly, across block boundaries and compression |
| `Metadata.StreamAtPosition` | crates/cvmbuild-squashfs/src/reader.rs:673-738 | Seeking to a captured position's block and skipping its offset leads to exactly the bytes written there, across any number of blocks |
| `MetaReader.MetadataReader.Skip` | crates/cvmbuild-squashfs/src/reader.rs:714-724 | Ends on every image, zero-length stored blocks included, and succeeds exactly when the stream is long enough |
| `MetaReader.MetadataReader.ReadExact` | crates/cvmbuild-squashfs/src/reader.rs:726-738 | Ends on every image and returns exactly the next bytes of the stream, or fails exactly when there are fewer |
| `MetaReader.MetadataReader.EnsureLoaded` | crates/cvmbuild-squashfs/src/reader.rs:684-712 | Loading the next block keeps the cursor on the stream |
| `DirTable.BuildDirectoryData` | crates/cvmbuild-squashfs/src/directory.rs:124-212 | The back-patched buffer is the layout of valid groups (at most 256 entries, one inode block, numbers within an i16) that hold the children in order. A group is begun only where the one before is full, does not take the entry, or the entry would end more than 8192 bytes behind the last index; exactly in this last case an index names it |
| `DirTable.Patched` | crates/cvmbuild-squashfs/src/directory.rs:167-170 | Back-patching the open header's count closes the group |
| `DirTable.DirectoryTable.WriteDirectory` | crates/cvmbuild-squashfs/src/directory.rs:43-111 | Appends one directory; position, size and the resolved index describe it |
| `DirTable.DirectoryTable.WriteIndexed` | crates/cvmbuild-squashfs/src/directory.rs:65-102 | Every raw index is emitted once, with the stored offset of the metadata block that its header will be in, though that block is not yet flushed |
| `DirTable.BasicDirectoryIsSmall` | crates/cvmbuild-squashfs/src/inode.rs:166-172 | With fewer than 257 entries and under 8192 entry bytes a directory takes at most 11266 bytes, so the size test for the extended form never decides |
| `Directory.GroupsRead` | crates/cvmbuild-squashfs/src/reader.rs:306-336 | Decoding a directory's data of under 4 GiB gives exactly its children, and stops exactly at its end, whatever follows |
| `Directory.EntriesRead` | crates/cvmbuild-squashfs/src/reader.rs:313-333 | Decoding the entries of a group gives names, numbers, references and types back |
| `Directory.DeltaRoundTrip` | crates/cvmbuild-squashfs/src/reader.rs:325 | A base number plus a sign-extended 16-bit delta is the inode number, for all deltas that fit |
| `DirIndex.IndexAgreesWithScan` | crates/cvmbuild-squashfs/src/directory.rs:65-102 | Following an index entry and decoding from there gives exactly the tail of the listing that starts with the entry the index is named after |
| `DirIndex.IndexDividesNames` | crates/cvmbuild-squashfs/src/directory.rs:153-165 | With sorted names, the entries before an indexed group are exactly those with smaller names than the index |
| `DirectoryIndexes.WrittenIndexAgrees` | crates/cvmbuild-squashfs/src/directory.rs:65-102 | In a finished image the index stored behind any directory inode (counted there, modulo 2^16; start blocks within 32 bits; each name as long as recorded) agrees with the listing: each entry leads to the tail of the listing that starts with the name it carries |
| `DirectoryIndexes.WrittenEntriesAgree` | crates/cvmbuild-squashfs/src/lib.rs:430-533 | In a finished image every entry of every directory bears the number of the inode it refers to, and 1, 2 or 3 if that is a directory, a file or a symlink; and the directory's size is 3, 12 bytes for each group and 8 and the name for each entry |
| `DirectoryIndexes.StoredCountExactly` | crates/cvmbuild-squashfs/src/inode.rs:181-193 | The count stored in the inode is the number of index records if and only if there are fewer than 65536 |
| `DirectoryIndexes.IndexDetermined` | crates/cvmbuild-squashfs/src/inode.rs:194-202 | Up to that number the stored bytes determine the index |
| `Inodes.FileInodeRoundTrip` | crates/cvmbuild-squashfs/src/inode.rs:60-129 | Basic or extended, a file inode reads back without loss of any field |
| `Inodes.DirInodeRoundTrip` | crates/cvmbuild-squashfs/src/inode.rs:147-228 | Basic or extended, a directory inode reads back without loss, index or not |
| `Inodes.SymlinkInodeRoundTrip` | crates/cvmbuild-squashfs/src/inode.rs:233-263 | A symlink inode reads back with its target |
| `Layouts.FileLayout` | crates/cvmbuild-squashfs/src/inode.rs:60-129 | A file inode, number by number: type 9 with more than one link or a field past 32 bits, else type 2; each field at its offset, the block sizes behind |
| `Layouts.DirLayout` | crates/cvmbuild-squashfs/src/inode.rs:147-228 | A directory inode, number by number: type 8 with more than 256 entries, 8192 bytes of them or an index, else type 1 |
| `Layouts.SymlinkLayout` | crates/cvmbuild-squashfs/src/inode.rs:233-263 | A symlink inode, number by number |
| `Layouts.ExtSymlinkReads` | crates/cvmbuild-squashfs/src/reader.rs:276-291 | The extended symlink form, which only other writers use, reads as the same inode if its four last bytes are there |
| `Layouts.GroupLayout` | crates/cvmbuild-squashfs/src/directory.rs:177-190 | A group begins with the number of its entries less one, their inode block and the first one's number |
| `Layouts.EntryLayout` | crates/cvmbuild-squashfs/src/directory.rs:192-202 | An entry: offset in the block, 16 bits of the number less the group's, type, length of the name less one, name |
| `Inodes.InodeTable.AddFile` | crates/cvmbuild-squashfs/src/inode.rs:60-129 | Appends one inode and returns the reference of its first byte |
| `Inodes.InodeTable.AddDir` | crates/cvmbuild-squashfs/src/inode.rs:147-228 | Appends one directory inode and returns its reference |
| `Inodes.InodeTable.AddSymlink` | crates/cvmbuild-squashfs/src/inode.rs:233-263 | Appends one symlink inode and returns its reference |
| `SuperblockFormat.SuperblockRoundTrip` | crates/cvmbuild-squashfs/src/reader.rs:500-566 | A superblock with the format's constants and ordered tables validates and parses back field for field |
| `Layouts.SuperblockLayout` | crates/cvmbuild-squashfs/src/format.rs:100-121 | The superblock, number by number |
| `Layouts.SuperblockTaken` | crates/cvmbuild-squashfs/src/reader.rs:500-551 | Which superblocks the reader takes |
| `Lookup.WriteLookupTable` | crates/cvmbuild-squashfs/src/fragment.rs:105-151 | Entries as metadata blocks, then the offsets of those blocks |
| `Lookup.LookupRoundTrip` | crates/cvmbuild-squashfs/src/reader.rs:571-604 | A table of 4-, 8- or 16-byte entries reads back byte for byte |
| `Lookup.BlockCountAgrees` | crates/cvmbuild-squashfs/src/reader.rs:583-585 | The reader's block count equals the writer's, because 4, 8 and 16 divide 8192 |
| `Tables.FragmentTableReads` | crates/cvmbuild-squashfs/src/reader.rs:615-632 | The fragment table reads back entry for entry |
| `Tables.IdTableReads` | crates/cvmbuild-squashfs/src/reader.rs:606-613 | The ID table reads back as [0] |
| `Tables.WriteLookupTables` | crates/cvmbuild-squashfs/src/lib.rs:221-232 | The three tables end up behind each other, each found from its start |
| `TableWriting.TableWriter.WriteTablesDfs` | crates/cvmbuild-squashfs/src/lib.rs:410-581 | Places exactly the nodes of the subtree: inodes where their references point, directories listing their children's references, hard-linked names sharing one inode, each export slot written once; uses no more room than the tree accounts for |
| `TableWriting.TableWriter.WriteFile` | crates/cvmbuild-squashfs/src/lib.rs:434-489 | A further name of a written file is listed under that file's number and reference; any other file gets an inode |
| `TableWriting.TableWriter.WriteDirectoryNode` | crates/cvmbuild-squashfs/src/lib.rs:536-580 | Entries, then the directory's own inode with link count 2 + subdirectories and its parent's number (total + 1 for the root) |
| `TableWriting.TableWriter.Export` | crates/cvmbuild-squashfs/src/lib.rs:477-578 | An export slot is filled, and was not before |
| `Placement.FreshSlot` | crates/cvmbuild-squashfs/src/lib.rs:437-477 | A node whose class has no inode yet has an export slot of its own |
| `TableWriting.KidsBelow` | crates/cvmbuild-squashfs/src/lib.rs:429-580 | All children's inodes lie below their directory's |
| `Placement.PlacedKept` | crates/cvmbuild-squashfs/src/lib.rs:429-580 | What has been placed stays placed while both tables grow |
| `Costs.DirectoryCost` | crates/cvmbuild-squashfs/src/inode.rs:194-202 | Data and index records of a directory are bounded by its names |
| `Costs.EncodeBound` | crates/cvmbuild-squashfs/src/writer.rs:69-93 | Storing adds at most a header per 8 KiB block |
| `RoundTrip.InodeReads` | crates/cvmbuild-squashfs/src/reader.rs:142-294 | The reference handed out for a node reads back as that node's inode |
| `RoundTrip.DirReads` | crates/cvmbuild-squashfs/src/reader.rs:297-339 | A placed directory reads as its children in order, with names, numbers, references and types |
| `RoundTrip.ReferencesDescend` | crates/cvmbuild-squashfs/src/reader.rs:422-442 | The entries of a written directory refer strictly below its own reference |
| `Walking.WalkShowsTree` | crates/cvmbuild-squashfs/src/reader.rs:410-442 | A walk ends and shows exactly the tree's nodes, in pre-order. A node's expected path is one slash and a name for each node from below the root down to it, and one slash for the root |
| `TreePaths.ChildPathJoins` | crates/cvmbuild-squashfs/src/reader.rs:428-432 | Joining a name to a directory's path gives that path for the child |
| `TreePaths.PathsDiffer` | crates/cvmbuild-squashfs/src/reader.rs:428-432 | If no name holds a slash or is empty and siblings have different names, different nodes have different paths |
| `Walking.ExpectedDirectory` | crates/cvmbuild-squashfs/src/lib.rs:548-563 | The link count a directory shows is two and the number of elements in the set of its subdirectories; the parent number that of the one directory that lists it, and total + 1 for the root |
| `Walking.WrittenDescends` | crates/cvmbuild-squashfs/src/reader.rs:410-442 | The references of a written image form a set closed under directory entries on which they descend |
| `ReadOperations.ReadInodeAt` | crates/cvmbuild-squashfs/src/reader.rs:142-294 | The field-by-field reader computes the inode function on every image |
| `ReadOperations.ReadDirEntries` | crates/cvmbuild-squashfs/src/reader.rs:297-339 | The nested loops compute the directory function on every image, the u32 count of consumed bytes wrapping |
| `ReadOperations.ReadWholeFile` | crates/cvmbuild-squashfs/src/reader.rs:342-406 | The block loop and the fragment tail compute the file function on every image |
| `ReadOperations.WalkTree` | crates/cvmbuild-squashfs/src/reader.rs:410-420 | On every image on which the walk ends, the recursion gives what the walk comes to, failures included; on written images `Walking.WalkShowsTree` says what that is, paths included |
| `ReadOperations.WalkDir` | crates/cvmbuild-squashfs/src/reader.rs:422-442 | One directory of the walk, at any depth, on every image on which it ends |
| `Reader.WalksToOne` | crates/cvmbuild-squashfs/src/reader.rs:410-442 | Following a walk for more levels does not change what it comes to, so it comes to one thing |
| `WalkEnds.EndsExactly` | crates/cvmbuild-squashfs/src/reader.rs:410-442 | On every image: a walk ends if and only if the root is in no set of references to readable directories from each of which the walk gets, without an error on the way, to an entry that leads back into the set |
| `WalkEnds.ReadableEndsExactly` | crates/cvmbuild-squashfs/src/reader.rs:410-442 | Where every inode and listing the root leads to can be read: a walk ends if and only if no path of directories from the root comes back to a reference it has met |
| `WalkEnds.DescendingEnds` | crates/cvmbuild-squashfs/src/reader.rs:410-442 | An instance: a walk ends where references descend along directories |
| `WalkEnds.LoopNeverEnds` | crates/cvmbuild-squashfs/src/reader.rs:422-442 | An instance: a walk does not end where the root's first entry is the root |
| `LoopImages.LoopImageNeverEnds` | crates/cvmbuild-squashfs/src/reader.rs:410-442 | Such an image, byte for byte: it opens, and its walk does not end |
| `Verity.ComputeVerityTree` | crates/cvmbuild-image/src/verity.rs:124-185 | For every data length: nothing for empty data; else exactly the tree of the data (`Verity.IsTree`: each level the digests of salt and zero-padded block in order, 128 to a block, zeros behind, the root level first), of exact size, in which the path of every data block verifies up to the root |
| `Verity.BlockVerifies` | crates/cvmbuild-image/src/verity.rs:135-182 | Every block of every level has its digest in its slot, up to the top block, which hashes to the root |
| `Verity.TreeIs` | crates/cvmbuild-image/src/verity.rs:124-185 | What is computed is, byte for byte, the tree over the data in numbers: 4096-byte blocks, 32-byte digests, 128 to a block |
| `Verity.OneTree` | crates/cvmbuild-image/src/verity.rs:124-185 | Data has one such tree and one root |
| `Verity.TreeSize` | crates/cvmbuild-image/src/verity.rs:145-182 | The stored tree is exactly the sum of its levels, 128 digests to a block |
| `Verity.PathBinding` | crates/cvmbuild-image/src/verity.rs:188-196 | Against one root hash no other block verifies at a position, whatever tree is presented, unless a salted block hashed along the one path collides with one hashed along the other |
| `Verity.BlockBinding` | crates/cvmbuild-image/src/verity.rs:124-204 | Equal roots over equally many blocks mean equal blocks at every position, or a collision between the inputs hashed from that position to the two roots |
| `Verity.RootBinding` | crates/cvmbuild-image/src/verity.rs:124-204 | Equal roots over equally many blocks and one salt mean equal zero-padded data, or a position with a collision between inputs the two computations hash for it |
| `LaunchDigest.DigestCommits` | crates/cvmbuild-measure/src/snp/guest.rs:170-203 | Two successful QEMU calculations over one firmware and one vCPU count of at least 1, both with a kernel, with equal digests have equal kernel, initrd, command line, vCPU signature and guest features, or one of the two collides with the other: under SHA-256 on kernel, initrd or command line, or under SHA-384 on an input of its own calculation |
| `LaunchDigest.SnpCalcLaunchDigest` | crates/cvmbuild-measure/src/snp/guest.rs:170-203 | The calculation is the chain of all updates, or fails. Which updates these are, number by number, `LaunchExact.DigestExactly` says |
| `LaunchExact.DigestExactly` | crates/cvmbuild-measure/src/snp/guest.rs:170-203 | A digest is calculated if and only if it is the last one of a launch, stated in the numbers of its records: firmware pages of type 1 up to 4 GiB (or a given start, cut or padded to 48 bytes), what each section of the parsed list adds, on EC2 the CPUID pages, and a page of type 2 at 0xFFFFFFFFF000 for each vCPU, whose save area is given field by field; a section for hashes if there is a kernel; each record hashed into the next digest |
| `LaunchExact.SectionExactly` | crates/cvmbuild-measure/src/snp/guest.rs:99-132 | A section adds exactly: SnpSecMem a blank page of type 3 (4 on GCE) at every 4096 bytes; secrets one of type 5; CPUID one of type 6, on EC2 not here; SVSM calling area pages of type 3; hashes a page of type 1 whose table is given byte for byte, or pages of type 3 without a kernel |
| `LaunchExact.OvmfHashExactly` | crates/cvmbuild-measure/src/snp/guest.rs:68-73 | The precomputed digest is the last one of the firmware's own chain |
| `LaunchExact.HashPageExactly` | crates/cvmbuild-measure/src/snp/sev_hashes.rs:83-110 | A page of hashes is zeros but for header, the three GUIDs, lengths and digests at their offsets |
| `LaunchExact.RecordExactly` | crates/cvmbuild-measure/src/snp/gctx.rs:48-63 | A PAGE_INFO record is 112 bytes: digest, contents, 112, type, zeros, address |
| `LaunchDigest.SeededMeasurement` | crates/cvmbuild-measure/src/snp/guest.rs:173-179 | Seeding with the precomputed firmware digest gives the digest of measuring the firmware inline |
| `LaunchDigest.CalcSnpOvmfHash` | crates/cvmbuild-measure/src/snp/guest.rs:68-73 | The precomputed digest is the chain over the firmware's pages; `LaunchExact.OvmfHashExactly` says which |
| `LaunchDigest.SnpUpdateMetadataPages` | crates/cvmbuild-measure/src/snp/guest.rs:134-168 | Sections in order, EC2 CPUID pages last, and failure if a kernel is given without a section for its hashes |
| `LaunchDigest.SnpUpdateSection` | crates/cvmbuild-measure/src/snp/guest.rs:99-132 | The updates of one section, for each type and monitor; `LaunchExact.SectionExactly` says which |
| `LaunchDigest.SnpUpdateKernelHashes` | crates/cvmbuild-measure/src/snp/guest.rs:75-97 | The page of hashes at the offset the firmware names, in a section of exactly one page |
| `LaunchDigest.SectionsBind` | crates/cvmbuild-measure/src/snp/guest.rs:75-97 | Equal updates of all sections, one of them for hashes, mean equal hash tables or a hash page of the one colliding with one of the other |
| `GuestContext.ChainBinding` | crates/cvmbuild-measure/src/snp/gctx.rs:48-63 | Equal digests after equally many updates mean equal starts and equal updates, or a PAGE_INFO record of the one chain colliding with one of the other |
| `GuestContext.PageInfoInjective` | crates/cvmbuild-measure/src/snp/gctx.rs:48-63 | A PAGE_INFO record determines digest, contents, type and address |
| `GuestContext.Gctx.UpdateNormalPages` | crates/cvmbuild-measure/src/snp/gctx.rs:65-80 | One update per page, in order, with the page's digest; refused unless whole pages |
| `GuestContext.Gctx.UpdateFillPages` | crates/cvmbuild-measure/src/snp/gctx.rs:87-109 | One update with zero contents per page |
| `SevHashTable.ConstructTable` | crates/cvmbuild-measure/src/snp/sev_hashes.rs:83-102 | The 176-byte table: header, command line, initrd, kernel, padding |
| `SevHashTable.ConstructPage` | crates/cvmbuild-measure/src/snp/sev_hashes.rs:104-110 | A page of zeros with the table at an offset, exactly when it fits |
| `SevHashTable.PageInjective` | crates/cvmbuild-measure/src/snp/sev_hashes.rs:83-110 | A page determines the three digests |
| `SevHashTable.HashesBind` | crates/cvmbuild-measure/src/snp/sev_hashes.rs:61-80 | Equal digests mean equal kernel, initrd and command line, or a SHA-256 collision between those of the two sides |
| `SevHashTable.CmdlineInjective` | crates/cvmbuild-measure/src/snp/sev_hashes.rs:65-72 | Command lines are told apart, an absent one counting as empty |
| `SaveAreas.BuildSaveArea` | crates/cvmbuild-measure/src/snp/vmsa.rs:52-96 | The page is exactly the listed fields over zeros |
| `SaveAreas.SaveAreaExactly` | crates/cvmbuild-measure/src/snp/vmsa.rs:52-96 | A page is written if and only if it holds the segments and registers at their offsets, with the values of each monitor, and zeros elsewhere |
| `SaveAreas.PageBinds` | crates/cvmbuild-measure/src/snp/vmsa.rs:52-96 | On QEMU a save area determines vCPU signature and guest features |
| `SaveAreas.VmsaPages` | crates/cvmbuild-measure/src/snp/vmsa.rs:140-157 | One page per vCPU, the boot processor's first |
| `Firmware.ParseFooter` | crates/cvmbuild-measure/src/snp/ovmf.rs:115-164 | The backward walk of the footer table ends on every input and computes the table function |
| `Firmware.FooterRecovers` | crates/cvmbuild-measure/src/snp/ovmf.rs:115-164 | A table laid out as data, size, GUID is recovered; of entries with one GUID the first counts |
| `Firmware.FooterExactly` | crates/cvmbuild-measure/src/snp/ovmf.rs:115-164 | For every file: the parser gives a table if and only if there is no footer, or its length reaches past the start of the file, and the table is empty; or the bytes in front of it are entries behind fewer than 18 others, and the table is what these give, the first of equal GUIDs counting. Else it fails |
| `Firmware.NeverEnds` | crates/cvmbuild-measure/src/tdx/tdvf.rs:65-74 | The search gives NoProgress if and only if the source's loop, pass by pass, is still running after any number of passes |
| `Firmware.NoProgressExactly` | crates/cvmbuild-measure/src/tdx/tdvf.rs:49-77 | That is so if and only if the footer is there and a run of non-TDX entries leads down to a zero-length header above the end of the table |
| `Firmware.ZeroLengthEntry` | crates/cvmbuild-measure/src/tdx/tdvf.rs:65-74 | An instance: a table of one zero-length entry |
| `Firmware.FindMetadataOffset` | crates/cvmbuild-measure/src/tdx/tdvf.rs:49-77 | The loop computes the search, whose results `NoProgressExactly` and `AgreeExactly` characterise |
| `Firmware.SearchExactly` | crates/cvmbuild-measure/src/tdx/tdvf.rs:63-77 | For every file and each result: the search comes to it if and only if a run of non-TDX entries leads down to where it has that result (past the end, at the TDX entry, at a malformed or a zero-length header) |
| `Firmware.AgreeExactly` | crates/cvmbuild-measure/src/tdx/tdvf.rs:49-77 | For every laid-out table: the two parsers agree if and only if it has no TDX entry or its first and last TDX entries, of at least 4 bytes, end in the same 4 bytes |
| `Firmware.ParsersAgree` | crates/cvmbuild-measure/src/tdx/tdvf.rs:49-77 | With distinct GUIDs the footer parser finds exactly the entries, and the separate walk returns the last four data bytes of the TDX entry, or not found if there is none |
| `Firmware.RepeatedGuidsDisagree` | crates/cvmbuild-measure/src/tdx/tdvf.rs:65-74 | An instance: with two TDX entries of different offsets they do not agree |
| `Firmware.SevSectionsExactly` | crates/cvmbuild-measure/src/snp/ovmf.rs:166-206 | Parsing gives a section list if and only if the firmware has laid out exactly that list where its table says (signature, version, header, as many known-type items as count and header size cover), or it has no such table entry and the list is empty |
| `Firmware.SectionItems` | crates/cvmbuild-measure/src/snp/ovmf.rs:166-206 | Each section of a laid-out list is twelve bytes: address, size, and 1, 2, 3, 4 or 16 for its type; the list is as long as announced items and size allow |
| `BuildMeasurement.LaunchContext.WriteRegion` | crates/cvmbuild-measure/src/tdx/mrtd.rs:58-98 | One page addition per page, followed when extending by sixteen content extensions; refused unless whole pages |
| `BuildMeasurement.RegionExtends` | crates/cvmbuild-measure/src/tdx/mrtd.rs:81-94 | The chunks of a measured region concatenate to its data, cut or zero-padded to its memory size |
| `BuildMeasurement.UnmeasuredExtends` | crates/cvmbuild-measure/src/tdx/mrtd.rs:71-79 | An unmeasured region adds its pages and measures no content |
| `BuildMeasurement.LogRoundTrip` | crates/cvmbuild-measure/src/tdx/mrtd.rs:36-55 | The hashed stream decodes uniquely into its records, addresses to 64 bits |
| `BuildMeasurement.MrtdBinds` | crates/cvmbuild-measure/src/tdx/tdvf.rs:123-141 | Equal MRTDs mean the same records, page for page and chunk for chunk, or the two measured streams collide |
| `BuildMeasurement.CalculateMrtd` | crates/cvmbuild-measure/src/tdx/tdvf.rs:123-141 | The measurement is the hash of the records of all sections in order, or fails; it succeeds exactly if there is a list of sections and runs as `BuildMeasurement.MeasuresExactly` says |
| `BuildMeasurement.MeasuresExactly` | crates/cvmbuild-measure/src/tdx/tdvf.rs:123-141 | The records are `es` if and only if the firmware's descriptor lists sections `ts` and `es` is one run for each, in order: a page addition per 4096 bytes from the memory address up; if bit 0 of the attributes is set, each followed by sixteen extensions with the 256-byte chunks of the section's file bytes, zeros behind; if it is clear, by none |
| `BuildMeasurement.PageAddLayout` | crates/cvmbuild-measure/src/tdx/mrtd.rs:36-41 | A page addition is 128 bytes: its name, the address at 16, zeros |
| `BuildMeasurement.ExtendLayout` | crates/cvmbuild-measure/src/tdx/mrtd.rs:46-55 | An extension is 128 bytes with its name and the address at 16, and the 256-byte chunk |
| `BuildMeasurement.DescriptorItems` | crates/cvmbuild-measure/src/tdx/tdvf.rs:80-120 | Each section of a laid-out descriptor is 32 bytes: data offset and size, memory address and size, type, attributes |
| `BuildMeasurement.TdvfSectionsExactly` | crates/cvmbuild-measure/src/tdx/tdvf.rs:80-120 | Parsing gives a section list if and only if the firmware has laid out exactly that list, with signature, version 1 and count, where its table says |
| `Authenticode.SigningKeepsStream` | crates/cvmbuild-measure/src/tdx/authenticode.rs:21-108 | Signing a well-formed unsigned image (new checksum and certificate entry, padding to 8, certificates) leaves the hashed bytes unchanged |
| `Authenticode.TiledImageStream` | crates/cvmbuild-measure/src/tdx/authenticode.rs:76-105 | For an image whose sections tile the file every byte is hashed exactly once, in order, but the checksum, the certificate entry and the certificates |
| `Authenticode.StreamDetermines` | crates/cvmbuild-measure/src/tdx/authenticode.rs:21-108 | Two such images that are hashed alike have one layout and the same bytes outside these, up to zeros that pad the file |
| `Authenticode.PeAuthenticodeHash` | crates/cvmbuild-measure/src/tdx/authenticode.rs:21-108 | The hasher is fed exactly the stream function, or the calculation fails; `PeSections.StreamExactly` says what the stream is |
| `PeSections.StreamExactly` | crates/cvmbuild-measure/src/tdx/authenticode.rs:21-108 | A stream is hashed if and only if the image has section headers, as many as its header says, behind the optional header of the size it says, such that the stream is: the headers without checksum and certificate entry; for every header with a raw size, by raw pointer and then table order, that many bytes from there; the rest without the certificates; zeros up to a multiple of 8 |
| `PeSections.HeaderRead` | crates/cvmbuild-measure/src/tdx/authenticode.rs:62-68 | A 40-byte header (name, virtual size and address, raw size and pointer, 16 more) is read as itself |
| `PeSections.SortExactly` | crates/cvmbuild-measure/src/tdx/authenticode.rs:69-74 | The sort gives the sections with data by file offset, those of one offset in table order |
| `Authenticode.SortSorts` | crates/cvmbuild-measure/src/tdx/authenticode.rs:74 | Sections are hashed in file order, each kept |
| `RuntimeMeasurement.RegisterBinds` | crates/cvmbuild-measure/src/tdx/rtmr.rs:55-71 | Equal registers after equally many extensions mean the same extensions, or an input of the one chain colliding with one of the other |
| `RuntimeMeasurement.Rtmr.Extend` | crates/cvmbuild-measure/src/tdx/rtmr.rs:55-65 | Only a 48-byte value extends the register; anything else leaves it alone |
| `RuntimeMeasurement.VariableInjective` | crates/cvmbuild-measure/src/tdx/rtmr.rs:74-86 | A variable's record determines GUID, name and data |
| `RuntimeMeasurement.Rtmr0Commits` | crates/cvmbuild-measure/src/tdx/rtmr.rs:136-166 | Register 0 commits to the configuration volume and the DSDT template, or an input of the one calculation collides with one of the other |
| `RuntimeMeasurement.CalcRtmr0` | crates/cvmbuild-measure/src/tdx/rtmr.rs:136-166 | The ten extensions in order, or failure; `RegisterEvents.Rtmr0Exactly` says which |
| `RegisterEvents.Rtmr0Exactly` | crates/cvmbuild-measure/src/tdx/rtmr.rs:107-166 | Register 0 has a value if and only if it is that of ten events hashed one into the other from 48 zeros: the configuration volume, two zeros, the boot order string, the five secure boot variables as empty records byte for byte, four zeros, and a DSDT with its signature, table ID and length |
| `RegisterEvents.CfvExactly` | crates/cvmbuild-measure/src/tdx/tdvf.rs:144-157 | The configuration volume is the data of the first section of type 1 among those the descriptor lists |
| `RuntimeMeasurement.Rtmr1Commits` | crates/cvmbuild-measure/src/tdx/rtmr.rs:169-183 | Register 1 commits to every byte of a kernel with tiled sections but the checksum, the certificate entry, the certificates and final zero padding, or inputs of the two calculations collide |
| `RuntimeMeasurement.StreamCommits` | crates/cvmbuild-measure/src/tdx/rtmr.rs:169-183 | For any kernel, register 1 commits to the stream that Authenticode makes of it, or inputs of the two calculations collide |
| `RuntimeMeasurement.SigningKeepsRtmr1` | crates/cvmbuild-measure/src/tdx/rtmr.rs:169-183 | Signing the kernel leaves register 1 as it is |
| `RuntimeMeasurement.CalcRtmr1` | crates/cvmbuild-measure/src/tdx/rtmr.rs:169-183 | The five extensions in order, or failure; `RegisterEvents.Rtmr1Exactly` says which |
| `RegisterEvents.Rtmr1Exactly` | crates/cvmbuild-measure/src/tdx/rtmr.rs:169-183 | Register 1 has a value if and only if it is that of the kernel's Authenticode stream and the four boot events, text by text |
| `RuntimeMeasurement.Rtmr2Commits` | crates/cvmbuild-measure/src/tdx/rtmr.rs:186-201 | Register 2 commits to command line and initrd, or inputs of the two calculations collide |
| `RuntimeMeasurement.CalcRtmr2` | crates/cvmbuild-measure/src/tdx/rtmr.rs:186-201 | The two extensions in order; `RegisterEvents.Rtmr2Exactly` says which |
| `RegisterEvents.Rtmr2Exactly` | crates/cvmbuild-measure/src/tdx/rtmr.rs:186-201 | Register 2 is that of the command line behind its fixed prefix, unit by unit with a final zero, and of the initrd |

## Left out

- zstd, SHA-256, SHA-384 and rayon internals; byte identity with mksquashfs.
- Reading the host file system, its sort of directory entries (children may come in any order here), file and buffered I/O, and the hex digest of the finished file.
- UTF-8 conversion of names and targets, and UTF-16 encoding of command lines: both sides work on the encoded units.
- `list_all` and `verify` of the reader, which format what `walk` and `read_file` give.
- The dm-verity superblock and the writing of the hash file.
- SVSM, SEV and SEV-ES digests; and what a digest on EC2 or GCE commits to (what it is made of is stated for all three monitors).
- The Docker, kernel, initrd, ext4, GPT, configuration, manifest and command-line crates.
- WalkTree: collects the visits instead of calling back, so a failing walk reports none of the visits before the failure; and it is stated for walks that end, as a method must.
- BuildDirectoryData: the bound of 8204 bytes between indices is stated for names of at most 255 bytes, the most a Linux file system holds; longer names make single entries that exceed it.
- WriteIndexed: index offsets are not cut to u32, which would matter for one directory of more than 4 GiB of entries.
- WriteLookupTable: stands for the three textually separate copies of this code (fragment, export and ID tables).
- CreateSquashfs: the read-back holds while the metadata of the tree stays below 0xFFF00000 bytes by `TreeCost`, because the format's table offsets have 32 bits.
- SnpCalcLaunchDigest: guest addresses are added without the u64 overflow check; records keep the low 64 bits.
- SortByOffset: stands for the library's stable sort.
