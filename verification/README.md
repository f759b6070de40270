# Verified models of the gfs index, tree walks, caches and tables

A Dafny model of the parts of gfs whose mistakes would be silent: the Git index bytes it writes, the walks that feed
them, and the stateful tables behind the mount. Loops and objects that change in place are methods and classes proved
against functions on values; what the code promises is proved about those functions.

* Index files: `Varint`, `Ewah`, `IndexFormat`, `EntryCursors`, `CacheTrees`, `StagedTrees`, `IndexWriter`,
  `IndexLayouts`.
* Seeding the untracked cache and fsmonitor extensions: `Components`, `DirectoryTables`, `DirectoryTrees`,
  `WorkspaceCaches`, `UntrReader` and `FsmnReader` (readers written from gitformat-index(5)), `SeededIndex`,
  `SeededFiles`.
* Trees: `DecodedTrees`, `Trees`, `TreeWalk`, `BlobStore`, `CommitIndex`, `StackWalk`, `TreeListing`, `ListingPages`.
* Bounded caches over one recency list: `Recency`, `TreeCaches`, `BackingCaches`, `ListingCaches`.
* The inode table: `InodeTables`, `MountInodes`, `InodeRenames`, `InodeRuns`.
* Protocols as interleaved steps: `Pool`, `BlobIndexes`, `BlobRuns`.
* `packed-refs`: `PackedRefs`, `PackedRefsFile`, `PackedRefsRewrite`. Dates: `GitDate`.
* Shared: `Bytes` (lexicographic order, prefixes), `Sorting`, `Tallies`, `Decimals`, `GitTypes`, `Wrappers`.

Constants are stated in their formats' own terms by `GitTypes.ModesInOctal`, `Ewah.LargestCounts`, `Ewah.WordsSuffice`,
`Bytes.BigEndian`, `Bytes.LowBits`, `InodeTables.StartsWithRoot`, `BackingCaches.Bounds`, `GitDate.WeekdaysInOrder` and `GitDate.MonthsInOrder`.
Object IDs are byte strings of their algorithm's length and SHA-1 is a parameter. A Git tree is a finite value whose
names are non-empty, distinct within a directory and free of slashes and NULs. A hash map's order is whatever the
method is handed; a result that depends on it says so.

Where the code and its own comments differ, the model follows the code:

* `civil_from_days` is documented for the whole 64-bit day range; its first addition overflows for the last 719468
  days (`GitDate.FitsI64Exactly`, `GitDate.LastDayDoesNotFit`).
* `open_blob` is documented to pin under the lock that records the hit; it looks the key up under one lock and pins under
  another. Entries are documented never to be evicted while open; a fetch that began before another task's publication
  resets the pins (`BlobRuns.GapResetsPins`) and can index a key whose file is gone (`BlobRuns.GapIndexesNoFile`).
  `BlobRuns.RunKeepsPinsExactly` and `BlobRuns.RunKeepsBackedExactly` say of every run whether it does.
* An inode number is documented never to be reused for another path. Numbers from the counter are not, below the
  overlay's range (`InodeRuns.FreshNumberIsNew`); a number an overlay entry brings can be
  (`InodeRuns.UnboundIsNotUnclaimed`), and `InodeRuns.RunSoundExactly` says of every run whether one is.
* A listing cache of capacity one trims to nothing when a second directory is inserted
  (`ListingCaches.NewestSurvivesExactly`).
* The rewritten `packed-refs` claims to be sorted; a file that packed one branch twice is rewritten with both
  (`PackedRefsRewrite.PackedTwiceIsNotSorted`, `PackedRefsRewrite.SortedExactly`). Writing again from the same refs changes
  the file if a kept name or peel ends in a carriage return (`PackedRefsRewrite.CarriageReturnsDoNotSettle`,
  `PackedRefsRewrite.RewriteSettlesExactly`).

## Model

| member | source | states |
|---|---|---|
| `Varint.EncodeVarint` | crates/gfs-git/src/index.rs:511-527 | The in-place encoder fills a 16-byte buffer from the back and appends exactly the offset-varint encoding; the buffer index never underflows |
| `Varint.EncodeLength` | crates/gfs-git/src/index.rs:511-527 | Every 64-bit value takes between one and ten bytes |
| `Varint.RoundTrip` | crates/gfs-git/src/index.rs:513-527 | Decoding an encoding gives the value back and consumes exactly the encoding, whatever follows |
| `Varint.EncodingsAreTheTerminatedStrings` | crates/gfs-git/src/index.rs:513-527 | A byte string is some value's encoding exactly when only its last byte has the high bit clear, and then it encodes the value it decodes to; so no value has two encodings and no string is wasted |
| `Varint.WrappingIsModular` | crates/gfs-git/src/index.rs:469-481 | The cursor's loop in wrapping 64-bit arithmetic reads, on every string, the unbounded value's low 64 bits |
| `Varint.WrappingRoundTrip` | crates/gfs-git/src/index.rs:469-481 | That loop is exact on the encoding of every 64-bit value |
| `Ewah.Ewah` | crates/gfs-git/src/index.rs:534-570 | The encoder ends for every bit count and predicate and emits a header, words that expand to the predicate's bits, and the index of the last marker |
| `Ewah.BitmapRoundTrip` | crates/gfs-git/src/index.rs:534-570 | Below 2^32 bits, an independent reader of the emitted bytes gets back the bit count, exactly the predicate's bits, and a last field that indexes the last marker word |
| `Ewah.MarkerFields` | crates/gfs-git/src/index.rs:543-562 | Within their limits, run bit, 32-bit run length and 31-bit literal count read back from the 64-bit marker |
| `Ewah.MarkerByOr` | crates/gfs-git/src/index.rs:555-562 | The three fields never overlap: combining them by bitwise or is adding them |
| `Ewah.ExpandInverts` | crates/gfs-git/src/index.rs:538-565 | Expanding the encoder's markers and literals gives back the words it was handed |
| `Ewah.EncodingUnique` | crates/gfs-git/src/index.rs:534-570 | Bit count and predicate determine the emitted bytes |
| `EntryCursors.EntryCursor.Next` | crates/gfs-git/src/index.rs:450-500 | The stateful cursor yields, ends or fails exactly as the format function does, and moves to the same position, path and count |
| `EntryCursors.EntryCursor.ReadStrip` | crates/gfs-git/src/index.rs:469-481 | The byte loop reads the strip count the varint decoder reads |
| `IndexFormat.HeadFields` | crates/gfs-git/src/index.rs:450-467 | Byte by byte, where an entry's head keeps mode, ID, stage, name length, extended bit and intent-to-add (bit 13 of the second flag word), and when it breaks off |
| `IndexFormat.OpensExactly` | crates/gfs-git/src/index.rs:427-445 | Exactly what opens: the four letters, a big-endian version from 2 to 4, a count; and which error the rest get |
| `IndexFormat.PaddedListInverts` | crates/gfs-git/src/index.rs:483-500 | Reading back padded version 2 or 3 entries gives exactly their paths, stages, modes, IDs and intent-to-add, and stops where they end, if and only if no path of 0xFFF bytes or more holds a NUL |
| `IndexFormat.CompressedListInverts` | crates/gfs-git/src/index.rs:466-482 | Version 4 entries, each path as any strip count that fits and a suffix, read back as exactly the same if and only if no added suffix holds a NUL, and then the cursor stops where they end |
| `IndexFormat.VersionsAgree` | crates/gfs-git/src/index.rs:427-501 | One list of NUL-free entries reads the same from its version 2, 3 and 4 encodings |
| `EntryCursors.FirstStagedDifference` | crates/gfs-git/src/index.rs:347-367 | The two-cursor loop computes the comparison of the two staged lists |
| `EntryCursors.NoDifferenceMeansEqual` | crates/gfs-git/src/index.rs:347-367 | Two whole files show no difference exactly when path, stage, mode, ID and intent-to-add agree entry for entry |
| `EntryCursors.DifferenceAt` | crates/gfs-git/src/index.rs:347-367 | Where two lists first differ decides: an error if one breaks off there, nothing if both end, else the smaller path there |
| `EntryCursors.DifferenceIsLeast` | crates/gfs-git/src/index.rs:340-367 | For lists sorted by path, what is reported is a path where they differ and below which they agree |
| `CacheTrees.SortCacheTree` | crates/gfs-git/src/index.rs:112-131 | Sorting level by level succeeds exactly when no level names a directory twice |
| `CacheTrees.SortedTreeOrdered` | crates/gfs-git/src/index.rs:80-131 | Then every level is strictly increasing: a shorter name first, names of one length by their bytes |
| `CacheTrees.SortedTreeSaysTheSame` | crates/gfs-git/src/index.rs:112-131 | Sorting keeps every directory's path, tree ID and count |
| `CacheTrees.RunIsContiguous` | crates/gfs-git/src/index.rs:137-163 | In sorted paths the run of prefixed paths from the lower bound is all of them |
| `CacheTrees.FirstNotBelow` | crates/gfs-git/src/index.rs:142-142 | Bisecting sorted paths finds how many come before the first that is not below the prefix |
| `CacheTrees.VerifyCacheTree` | crates/gfs-git/src/index.rs:137-163 | The check, with its one shared prefix buffer, accepts exactly the trees in which every node counts the entries below it |
| `CacheTrees.WriteCacheTree` | crates/gfs-git/src/index.rs:90-108 | The printer appends the preorder lines, or refuses a tree with an ID that is not SHA-1 |
| `CacheTrees.ReadTreeInverts` | crates/gfs-git/src/index.rs:90-108 | A reader of the extension gets back the printed tree, whatever follows |
| `IndexWriter.WriteIndexV2` | crates/gfs-git/src/index.rs:578-660 | The writer, field by field into one buffer, produces the specified file or the first error in its order of checks |
| `IndexWriter.EntriesAccepted` | crates/gfs-git/src/index.rs:595-607 | Comparing neighbours refuses exactly the lists that are not strictly sorted SHA-1 lists |
| `IndexWriter.RefusedAt` | crates/gfs-git/src/index.rs:595-607 | The first entry that does not follow the one before it, or is of another hash, is what the list is refused for, with that error |
| `IndexWriter.RefusedFor` | crates/gfs-git/src/index.rs:578-650 | Which refusals of the cache tree come before which, and exactly when each is made |
| `IndexWriter.WriterAccepts` | crates/gfs-git/src/index.rs:578-660 | Exactly which entries and cache trees are written |
| `IndexWriter.FileRoundTrip` | crates/gfs-git/src/index.rs:578-660 | A written file opens, the cursor gives back the entries at stage 0, not intent-to-add, exactly when every path is readable, and stops at the extensions |
| `IndexLayouts.FileIsLaid` | crates/gfs-git/src/index.rs:578-660 | A written file byte by byte: the header, every field of every entry at its place with its size in 32 bits and its padding of NULs, the cache tree's extension, the checksum of all before it |
| `IndexLayouts.TreeReadsBack` | crates/gfs-git/src/index.rs:80-131 | Reading the cache tree of a written file gives the directories, IDs and counts handed over, shorter names first at every level |
| `StagedTrees.FindStagedTree` | crates/gfs-git/src/index.rs:373-411 | The entry loop and the extension scan answer as specified: nothing known after a conflict or intent-to-add, an error for a file that breaks off |
| `StagedTrees.ScanFindsFirstTree` | crates/gfs-git/src/index.rs:385-411 | Over any well-formed extension region the scan answers with the first cache tree |
| `IndexWriter.StagesItsRoot` | crates/gfs-git/src/index.rs:373-411 | For readable paths a written index stages what its cache tree's printed root says: the root's ID when the root has an empty name, nothing known without a tree or when the name starts with anything but NUL |
| `StagedTrees.RootOfExactly` | crates/gfs-git/src/index.rs:388-407 | A cache tree's body stages an ID exactly when it is NUL, a UTF-8 line whose first field is a number that is not negative, a newline, and that ID |
| `StagedTrees.InvalidatedRoot` | crates/gfs-git/src/index.rs:388-407 | A root with a negative count, as Git leaves one it has invalidated, stages nothing known whatever follows |
| `StagedTrees.EntriesDecide` | crates/gfs-git/src/index.rs:373-384 | A conflict or intent-to-add anywhere makes the answer unknown; without one, entries that break off are an error |
| `Decimals.Utf8Exactly` | crates/gfs-git/src/index.rs:397-399 | The line check accepts exactly the encodings of sequences of Unicode scalar values |
| `Decimals.ParsesExactly` | crates/gfs-git/src/index.rs:400-400 | What parses as a 64-bit number: digits with a sign or without, in range |
| `StagedTrees.RootNamedAsLine` | crates/gfs-git/src/index.rs:393-407 | The printed root of a tree whose name starts with NUL and goes on like a root line reads as the ID at the end of that name |
| `DirectoryTables.AddEntry` | crates/gfs-git/src/index.rs:231-274 | One turn of the one-pass loop: the kept prefix of the open stack, the directories opened below it, the .gitignore recorded |
| `DirectoryTables.PassIsTable` | crates/gfs-git/src/index.rs:214-274 | Over strictly sorted entries the open-stack pass builds exactly the table the entries determine, each directory under its parent, and its open chain leads to the last entry's directory |
| `DirectoryTables.CreatesEveryAncestor` | crates/gfs-git/src/index.rs:214-274 | The pass creates exactly the root and the directories that contain an entry |
| `DirectoryTables.CreatesEachOnce` | crates/gfs-git/src/index.rs:214-274 | For strictly sorted paths, each of them once |
| `DirectoryTables.ParentsComeFirst` | crates/gfs-git/src/index.rs:258-269 | Every directory is created after its parent |
| `DirectoryTables.GitignoreExact` | crates/gfs-git/src/index.rs:270-273 | A directory's recorded ID is that of its own regular .gitignore entry |
| `WorkspaceCaches.ReadDirectories` | crates/gfs-git/src/index.rs:231-274 | The pass over the bytes, whatever their order, builds the table of the entries it reads, or gives up where they do |
| `WorkspaceCaches.PassIsShaped` | crates/gfs-git/src/index.rs:258-269 | For entries in any order every directory comes after its parent, so the walk over the table ends |
| `DirectoryTrees.SiblingsIncrease` | crates/gfs-git/src/index.rs:275-281 | After sorting, siblings are strictly increasing by name |
| `WorkspaceCaches.VisitOrder` | crates/gfs-git/src/index.rs:286-292 | The explicit stack visits the table in preorder |
| `DirectoryTrees.PreorderPermutes` | crates/gfs-git/src/index.rs:286-292 | That order has every directory exactly once |
| `DirectoryTrees.StreamDecodes` | crates/gfs-git/src/index.rs:305-310 | The printed stream of counts and names decodes to exactly the directory tree |
| `UntrReader.UntrRoundTrip` | crates/gfs-git/src/index.rs:294-325 | An independent reader of the whole extension body gets back the ident, the flags, each exclude file's ID or zeros for none, `.gitignore`, no stat data, the tree, the three bitmaps and one ID per set bit |
| `UntrReader.ReaderFindsTheDirectories` | crates/gfs-git/src/index.rs:207-325 | For strictly sorted NUL-free paths the reader finds that header and one valid directory for the root and each ancestor of an entry, once, siblings sorted, without stat data, marked exactly if it has a .gitignore, with the right IDs in order |
| `FsmnReader.FsmnRoundTrip` | crates/gfs-git/src/index.rs:318-324 | A reader of the fsmonitor body gets back version 2, the token and one clear bit for each entry, if and only if the token has no NUL |
| `WorkspaceCaches.WithWorkspaceCaches` | crates/gfs-git/src/index.rs:207-338 | The whole seeding is nothing for an index this code would not write, else the old content, the two extensions and a new checksum |
| `WorkspaceCaches.SortedCountsFit` | crates/gfs-git/src/index.rs:303-310 | For sorted entries every printed count fits 64 bits as long as the number of directories does |
| `SeededIndex.SeedingStagesNothing` | crates/gfs-git/src/index.rs:207-363 | Comparing any index with its seeded form finds no difference |
| `SeededIndex.SeedingKeepsStagedTree` | crates/gfs-git/src/index.rs:373-411 | Seeding any index leaves the staged tree alone if an entry is unsettled, or if whole extensions lead from the entries to a cache tree or the checksum |
| `SeededIndex.StrayByteBreaksScan` | crates/gfs-git/src/index.rs:327-411 | With one stray byte before the checksum it does not: no tree before, an error after, for every index seeded to less than 0x52000000 bytes |
| `SeededIndex.SeedingIsDetermined` | crates/gfs-git/src/index.rs:207-338 | An index has one seeded form or none |
| `SeededFiles.SeededFileReads` | crates/gfs-git/src/index.rs:207-338 | A reader of a whole seeded file finds the old bytes up to the checksum, an `UNTR` extension that describes the directories, an `FSMN` extension with the token and no entry dirty, and the checksum of all that |
| `SeededFiles.SeedableExactly` | crates/gfs-git/src/index.rs:207-240 | Of files with readable paths those seeded are exactly version 2, without an extended entry, with room for a checksum |
| `SeededIndex.SeededWrittenIndex` | crates/gfs-git/src/index.rs:207-411 | A written index, seeded, stages its root and differs from itself unseeded in nothing |
| `TreeWalk.Descend` | crates/gfs-git/src/libgit2.rs:1479-1527 | The recursive descent appends exactly the tree's files and returns its cache tree; its checked additions fail exactly past 2^32-1 files |
| `TreeWalk.KeyOrder` | crates/gfs-git/src/libgit2.rs:1463-1468 | Whatever lies below the entry with the smaller sort key has the smaller path |
| `TreeWalk.DescentIsSorted` | crates/gfs-git/src/libgit2.rs:1463-1527 | For every tree in sort-key order the full paths come out strictly increasing |
| `TreeWalk.NodeAccurate` | crates/gfs-git/src/libgit2.rs:1479-1527 | Each node's count is the number of listed paths under it |
| `CommitIndex.EntrySizes` | crates/gfs-git/src/libgit2.rs:1540-1559 | The sizes of the blobs alone, handed out to the entries in order past the gitlinks, are each entry's own; it fails exactly when a blob is missing |
| `CommitIndex.BlobSizes` | crates/gfs-git/src/libgit2.rs:140-174 | For every number of threads the slices' answers, joined in order, are the sizes in order |
| `CommitIndex.RecordedExactly` | crates/gfs-git/src/libgit2.rs:1540-1590 | Sizes are recorded exactly when every blob is there and no pointer lookup made fails: zero for a gitlink, what it expands to for a small regular file that is a pointer, the blob's own otherwise |
| `CommitIndex.FailureRecorded` | crates/gfs-git/src/libgit2.rs:1540-1590 | A missing blob is reported before any lookup's failure, and of those the first |
| `CommitIndex.CommitSizes` | crates/gfs-git/src/libgit2.rs:1529-1592 | The size field of each entry, read back from the bytes of a commit's index, is that size in 32 bits |
| `CommitIndex.IndexForCommit` | crates/gfs-git/src/libgit2.rs:1529-1592 | The descent with the recorded sizes handed to the writer, or the first of: too many entries, a missing blob, a failed pointer lookup |
| `CommitIndex.DescentIsAccepted` | crates/gfs-git/src/libgit2.rs:1463-1592 | The writer's order, duplicate and count refusals never happen for a Git tree; it is refused only for another hash or an oversized cache tree |
| `CommitIndex.CommitRoundTrip` | crates/gfs-git/src/libgit2.rs:1529-1592 | What is written for a commit reads back as exactly its files, path, mode and ID, at stage 0, and stages exactly its tree |
| `StackWalk.WalkPaths` | crates/gfs-git/src/libgit2.rs:1047-1095 | The explicit-stack walk visits each tree's files, then its subtrees in order; errors for a missing root and for one that is no directory |
| `StackWalk.WalksAgree` | crates/gfs-git/src/libgit2.rs:1047-1095 | It visits the descent's paths and modes, each exactly once |
| `Trees.WalkToParent` | crates/gfs-git/src/libgit2.rs:250-280 | The component loop ends in the parent tree, or nowhere |
| `Trees.JoinIs` | crates/gfs-types/src/path.rs:58-65 | A name joins a path with one slash, unless the path is empty or ends in one |
| `Trees.ComponentsJoin` | crates/gfs-types/src/path.rs:39-41 | Repeated slashes and slashes at either end of a path say nothing |
| `TreeListing.ListTree` | crates/gfs-git/src/libgit2.rs:912-980 | A request replays the stack walk and returns rows for exactly the page of the preorder listing that starts at its token, or the failure of the first entry shown that has no row |
| `TreeListing.RowsAppend` | crates/gfs-git/src/libgit2.rs:412-464 | Rows of one list after another are the rows of both, or the first failure, so a failing page fails at its first entry without a row however it is walked |
| `TreeListing.FileRows` | crates/gfs-git/src/libgit2.rs:412-464 | A file's row has its own ID and size, unless it is a small pointer that expands, and then the key and size that names; which lookup's failure is its |
| `TreeListing.LinkRows` | crates/gfs-git/src/libgit2.rs:412-464 | A link's row has its target and the target's length, a directory's and a gitlink's neither |
| `TreeListing.ClampIs` | crates/gfs-git/src/libgit2.rs:919-919 | A page limit from 1 to 100000 is taken as it is |
| `TreeListing.ContinueIsPage` | crates/gfs-git/src/libgit2.rs:931-971 | Walking with the emitting flag and the soft cap is slicing the preorder list |
| `ListingPages.ListingDistinct` | crates/gfs-git/src/libgit2.rs:931-971 | No directory is listed twice, so a token names one place |
| `ListingPages.PageBounds` | crates/gfs-git/src/libgit2.rs:931-971 | A page has at least one directory, each complete, stops only at the cap, and passes it only to finish its last directory |
| `ListingPages.ListingIsComplete` | crates/gfs-git/src/libgit2.rs:912-980 | For every limit, following tokens ends and concatenates to the whole preorder, each directory once with all its entries |
| `ListingPages.UnknownToken` | crates/gfs-git/src/libgit2.rs:931-971 | A token that names nothing gives an empty last page |
| `ListingPages.ListingShowsFiles` | crates/gfs-git/src/libgit2.rs:931-971 | The complete listing's rows that are not directories are the files of the commit |
| `DecodedTrees.EntriesSorted` | crates/gfs-git/src/tree.rs:74-79 | A decoded tree has exactly the given entries by strictly increasing sort key |
| `DecodedTrees.PagingIsComplete` | crates/gfs-git/src/tree.rs:106-128 | For every page size, chained pages return each entry once in sort-key order |
| `DecodedTrees.PageAt` | crates/gfs-git/src/tree.rs:106-128 | A page is exactly the next `limit` entries and the key of its last, or all that are left and no token |
| `DecodedTrees.ResumesAfter` | crates/gfs-git/src/tree.rs:114-119 | A page resumes past exactly the keys not greater than its token, whatever the token |
| `DecodedTrees.GetFindsExactly` | crates/gfs-git/src/tree.rs:94-104 | Binary search over the separate name order finds a name exactly when it is there |
| `Recency.KeepsLongestSuffix` | crates/gfs-git/src/tree.rs:244-255 | Evicting oldest first keeps the longest run of most recent entries there is room for |
| `Recency.FiledOnce` | crates/gfs-git/src/tree.rs:169-177 | A table kept by key and by tick holds each key once, and as many keys as entries |
| `TreeCaches.TreeCache.Get` | crates/gfs-git/src/tree.rs:208-221 | A hit returns the tree and makes it the most recent; a miss changes nothing but its count |
| `TreeCaches.TreeCache.Insert` | crates/gfs-git/src/tree.rs:223-258 | The tick maps refine the recency list: replace, add as newest, evict to the byte budget; bytes stay the sum held |
| `TreeCaches.InsertKeepsLongestSuffix` | crates/gfs-git/src/tree.rs:223-258 | A fitting tree is always kept, with the longest run of most recent trees that fits beside it |
| `TreeCaches.HeapIsSum` | crates/gfs-git/src/tree.rs:130-144 | A tree's cost is the sum over its entries of name, ID and record, and four bytes for each index |
| `BackingCaches.BackingCache.Insert` | crates/gfs-mount/src/fs.rs:488-506 | The same list under two bounds, making room first and never replacing a key |
| `BackingCaches.BackingCache.Get` | crates/gfs-mount/src/fs.rs:479-486 | A hit makes the entry the most recent |
| `BackingCaches.InsertKeepsLongestSuffix` | crates/gfs-mount/src/fs.rs:488-506 | What stays is the longest run of most recent entries that leaves room |
| `ListingCaches.ListingCache.Insert` | crates/gfs-mount/src/listing.rs:115-133 | Both bounds hold after every insertion; past either one the cache is trimmed, else nothing is evicted |
| `ListingCaches.ListingCache.Trim` | crates/gfs-mount/src/listing.rs:141-165 | One pass down the slots sorted by use evicts oldest first to nine tenths of both bounds |
| `ListingCaches.SortedIsByAge` | crates/gfs-mount/src/listing.rs:151-156 | Sorting by use gives the recency list whatever order the map hands the slots out in |
| `ListingCaches.NewestSurvivesExactly` | crates/gfs-mount/src/listing.rs:115-165 | A trim keeps the listing just inserted exactly if it fits nine tenths of both bounds alone, and otherwise empties the cache |
| `ListingCaches.OneDirectoryTrimsToNone` | crates/gfs-mount/src/listing.rs:115-165 | With room for one directory the second insertion leaves nothing |
| `MountInodes.InodeTable.Lookup` | crates/gfs-mount/src/inode.rs:290-308 | A lookup numbers the path, creates or refreshes the record and counts one reference |
| `MountInodes.InodeTable.RenameSubtree` | crates/gfs-mount/src/inode.rs:232-271 | The rename loop moves every name collected at the start, in the map's own order, and reports what it moved |
| `MountInodes.InodeTable.RepinRoot` | crates/gfs-mount/src/inode.rs:383-426 | The re-pin loops update the table as specified and report each stale name once |
| `MountInodes.InodeTable.ForgetLookups` | crates/gfs-mount/src/inode.rs:322-338 | Forgetting saturates, spares the root, and drops the record when nothing holds it |
| `InodeRenames.RenameCarriesSubtree` | crates/gfs-mount/src/inode.rs:213-271 | A rename carries every moving name's number to its place under the new path and changes no other name or record |
| `InodeRenames.OrderIrrelevantExactly` | crates/gfs-mount/src/inode.rs:232-271 | The map's order is irrelevant exactly when no moving name's target is another moving name |
| `InodeRenames.ApartIsClear` | crates/gfs-mount/src/inode.rs:232-271 | Endpoints neither of which is at or below the other meet that condition |
| `InodeRenames.NestedRenameDependsOnOrder` | crates/gfs-mount/src/inode.rs:232-271 | A directory renamed below itself loses a number in one order and not in another |
| `InodeRuns.NewNumberIsSoundExactly` | crates/gfs-mount/src/inode.rs:178-215 | Numbering a path keeps numbers one to one and names agreeing exactly when the number is bound nowhere and no live record has it under another path |
| `InodeRuns.RunSoundExactly` | crates/gfs-mount/src/inode.rs:178-308 | For every run: in every state numbers are one to one and a record reached through a name has that path, if and only if no step gives a path without a number one that another path or another path's live record has |
| `InodeRuns.StepSoundExactly` | crates/gfs-mount/src/inode.rs:178-426 | The same of each step; a rename always keeps it, whatever its endpoints and its order |
| `InodeRuns.NumberMovesOnlyByRename` | crates/gfs-mount/src/inode.rs:213-271 | After any rename a number is nowhere but where the rename sends its name, and no other step that gives no claimed number takes it to another path |
| `InodeRuns.NumbersAreStable` | crates/gfs-mount/src/inode.rs:178-426 | No step but a rename takes a path's number away |
| `InodeRuns.FreshNumberIsNew` | crates/gfs-mount/src/inode.rs:178-187 | Over every run at all, a number from the counter below the overlay's range was never any path's before |
| `InodeRuns.UnboundIsNotUnclaimed` | crates/gfs-mount/src/inode.rs:195-215 | A concrete run in which a number bound nowhere, brought back by an overlay entry, reaches another path's record |
| `InodeRuns.LiveExactlyWhileHeld` | crates/gfs-mount/src/inode.rs:322-358 | In every state of every run a record exists exactly for the root and for what the kernel still holds, with lookups and opens counted from its calls alone, neither below zero |
| `InodeRuns.RepinReports` | crates/gfs-mount/src/inode.rs:360-426 | A re-pin keeps numbers and counts, gives the root its new node and no other record one, bumps exactly the live regular files, and reports exactly the live inodes whose path is a name in a numbered directory |
| `InodeRuns.SeedIsRun` | crates/gfs-mount/src/inode.rs:284-288 | Seeding is a run of single bindings |
| `InodeTables.LookupRecords` | crates/gfs-mount/src/inode.rs:178-308 | A lookup gives a live record the new node and one more lookup and keeps its path, generation and opens; a new one starts at generation 0; no other changes |
| `InodeTables.BindMovesCounter` | crates/gfs-mount/src/inode.rs:204-215 | A number brought moves the counter past it, unless it is in the overlay's range or the path is numbered |
| `InodeTables.NodeAndGeneration` | crates/gfs-mount/src/inode.rs:274-450 | A refresh changes a live record's node alone; a rewrite behind the kernel gives a live regular file one more generation and nothing else |
| `InodeTables.MovesExactly` | crates/gfs-mount/src/inode.rs:232-256 | A rename moves the name itself, and all below it unless it names a live inode that is no directory |
| `InodeTables.RetargetIs` | crates/gfs-mount/src/inode.rs:257-262 | A moving name keeps what follows the old path |
| `Pool.EveryInterleaving` | crates/gfs-git/src/pool.rs:84-157 | Idle, held and opening handles add up to live within the bound, no handle is in two places, and a sleeper's free handles and slots are outnumbered by wakeups on their way |
| `Pool.HandlesAreExclusive` | crates/gfs-git/src/pool.rs:84-157 | No two threads hold one handle, and a held one is not idle |
| `Pool.NeverHangs` | crates/gfs-git/src/pool.rs:84-116 | A thread sleeps only while another uses a handle, is about to notify, or was woken |
| `Pool.FreeHandleIsAnnounced` | crates/gfs-git/src/pool.rs:99-115 | A free handle or slot with a sleeper around has a wakeup on its way |
| `Pool.HandlesAreReused` | crates/gfs-git/src/pool.rs:86-151 | A caller takes the handle idle longest, opens another only when none is idle, and waits only when it may open no more |
| `BlobIndexes.BlobIndex.EvictToQuota` | crates/gfs-mount/src/cache.rs:502-531 | Collecting, sorting by last use and removing is eviction along the order of last use |
| `BlobIndexes.EvictsToQuota` | crates/gfs-mount/src/cache.rs:496-531 | Eviction takes only unpinned deletable entries, oldest use first, no more than needed, and ends within quota or with only pinned or undeletable ones left; bytes stay the sum |
| `BlobIndexes.HitIsNewest` | crates/gfs-mount/src/cache.rs:265-283 | A lookup, an open and a publication each make their key the last used, strictly later than any other |
| `BlobIndexes.OthersKeepUses` | crates/gfs-mount/src/cache.rs:296-301 | A release and an eviction leave every last use as it was |
| `BlobRuns.EveryRun` | crates/gfs-mount/src/cache.rs:333-531 | In every interleaving, with the rename and the index entry apart, each file in place hashes to its key, the byte count is the sum indexed, and fetching is single-flight |
| `BlobRuns.InFlightExactly` | crates/gfs-mount/src/cache.rs:345-381 | A key is in flight exactly while one task fetches it, so taking the sender out cannot fail |
| `BlobRuns.HitJoinOrFetch` | crates/gfs-mount/src/cache.rs:340-355 | A hit needs no fetch; a miss joins the fetch of its key or starts it when there is none |
| `BlobRuns.OnlyVerifiedIsPlaced` | crates/gfs-mount/src/cache.rs:396-449 | Content that does not hash to its key is written nowhere and fails the fetch |
| `BlobRuns.OutcomeIsReported` | crates/gfs-mount/src/cache.rs:372-387 | A fetch that fails is reported as failed and one that published as done, to its caller and on its channel |
| `BlobRuns.OpenAndRelease` | crates/gfs-mount/src/cache.rs:265-301 | An open succeeds exactly when the key is indexed, with one more pin; a release takes one away, down to none |
| `BlobRuns.JoinersAreHeard` | crates/gfs-mount/src/cache.rs:345-386 | Every joiner's channel either is still to be sent on by a task with its key, or has carried its key's result, and exactly then it can receive, and receives that |
| `BlobRuns.SentIsFinal` | crates/gfs-mount/src/cache.rs:357-386 | No step replaces what went out on a channel, so a late joiner receives the same |
| `BlobRuns.StepKeepsPins` | crates/gfs-mount/src/cache.rs:265-301 | Every step but an index entry for an open key keeps pins equal to open handles; eviction takes nothing open |
| `BlobRuns.RunKeepsPinsExactly` | crates/gfs-mount/src/cache.rs:333-531 | For every run: pins equal open handles in every state if and only if no index entry is ever made for a key somebody has open |
| `BlobRuns.RunKeepsBackedExactly` | crates/gfs-mount/src/cache.rs:446-531 | For every run: every indexed key has its file of the indexed size in every state if and only if each entry is made while its file is still there and no rename changes the size under an entry |
| `BlobRuns.OpenBlobsStay` | crates/gfs-mount/src/cache.rs:258-294 | In every run that meets both conditions an open blob stays pinned, indexed and on disk with verified content of the indexed size |
| `BlobRuns.GaplessRunsMeetBoth` | crates/gfs-mount/src/cache.rs:333-387 | Both conditions hold throughout when nothing comes between a task's miss and its turn at the in-flight map |
| `BlobRuns.GapResetsPins` | crates/gfs-mount/src/cache.rs:339-355 | A concrete run through that gap ends with an open blob at zero pins |
| `BlobRuns.GapIndexesNoFile` | crates/gfs-mount/src/cache.rs:446-470 | Another ends with an indexed key whose file an eviction took between the rename and the entry |
| `PackedRefs.MappedNameInjective` | crates/gfs-mount/src/gitdir.rs:750-771 | Different refs never get one workspace name, with a clone or without |
| `PackedRefs.TagsCarried` | crates/gfs-mount/src/gitdir.rs:750-752 | Tags are carried under their own names |
| `PackedRefs.BranchesCarried` | crates/gfs-mount/src/gitdir.rs:753-758 | Branches go to `origin`, or to `local` in a clone that has that remote, and are left out of a clone that has not |
| `PackedRefs.TrackingRefsCarried` | crates/gfs-mount/src/gitdir.rs:759-769 | Remote-tracking refs are carried by a clone alone, less each remote's HEAD and what `local` would shadow |
| `PackedRefs.OthersLeftOut` | crates/gfs-mount/src/gitdir.rs:750-771 | Nothing else is carried |
| `PackedRefs.OriginHeadLeftOut` | crates/gfs-mount/src/gitdir.rs:759-769 | `refs/remotes/origin/HEAD` is left out |
| `PackedRefsFile.HexReadsBack` | crates/gfs-mount/src/gitdir.rs:945-949 | The hexadecimal of an ID reads back byte for byte |
| `PackedRefsFile.PinnedMembers` | crates/gfs-mount/src/gitdir.rs:930-949 | The pinned lines are exactly those of the refs carried, with their own ID and peeled ID |
| `PackedRefsFile.LinesExactly` | crates/gfs-mount/src/gitdir.rs:952-954 | Which lines an earlier file has: at line feeds, with a carriage return before one or without, and what follows the last |
| `PackedRefsFile.AbsorbsExactly` | crates/gfs-mount/src/gitdir.rs:955-969 | What each line does: a caret peels the branch just kept, `refs/heads/` keeps a branch, anything else ends what a caret may peel |
| `PackedRefsFile.HeaderText` | crates/gfs-mount/src/gitdir.rs:974-977 | The traits the header claims |
| `PackedRefsFile.WritePackedRefs` | crates/gfs-mount/src/gitdir.rs:922-991 | The mapping, patching, sorting and printing loops write the specified file |
| `PackedRefsRewrite.ReadsBranchesBack` | crates/gfs-mount/src/gitdir.rs:952-970 | Of a printed file, reading keeps exactly the branches with their peels |
| `PackedRefsRewrite.KeepsPackedBranches` | crates/gfs-mount/src/gitdir.rs:950-970 | The rewritten file has every branch packed before, every carried ref, and nothing else |
| `PackedRefsRewrite.SortedExactly` | crates/gfs-mount/src/gitdir.rs:971-973 | For distinct refs the names strictly increase exactly when no branch was packed twice |
| `PackedRefsRewrite.LinesInOrder` | crates/gfs-mount/src/gitdir.rs:971-973 | Lines come by name, then by target, then without a peel first and by peel |
| `PackedRefsRewrite.PackedTwiceIsNotSorted` | crates/gfs-mount/src/gitdir.rs:950-973 | An earlier file with two lines for one branch: both are kept, and the names written do not strictly increase |
| `PackedRefsRewrite.RewriteSettlesExactly` | crates/gfs-mount/src/gitdir.rs:922-991 | Writing again reproduces the file byte for byte exactly when no kept name or peel ends in a carriage return |
| `PackedRefsRewrite.SettledMeans` | crates/gfs-mount/src/gitdir.rs:952-970 | What a line loses when it is read back: a carriage return at the end of its name or its peel, and nothing else |
| `PackedRefsRewrite.CarriageReturnsDoNotSettle` | crates/gfs-mount/src/gitdir.rs:922-991 | An earlier file whose one branch line ends in two carriage returns: one is kept, and writing over the written file gives another file |
| `PackedRefsRewrite.RewrittenStaysSorted` | crates/gfs-mount/src/gitdir.rs:922-991 | A sorted file rewritten stays sorted |
| `GitDate.CivilCountsBack` | gfs-cli/src/gitdate.rs:144-159 | For every day before or after the epoch the result is a valid date whose calendar day count is that day |
| `GitDate.CivilInvertsDayNumber` | gfs-cli/src/gitdate.rs:144-159 | The algorithm inverts the day count on every valid date |
| `GitDate.ConsecutiveDays` | gfs-cli/src/gitdate.rs:144-159 | Consecutive days have consecutive dates |
| `GitDate.CivilSaysTheSecond` | gfs-cli/src/gitdate.rs:121-142 | Date and time of day add up to the shifted second; weekday and month indexes are in range |
| `GitDate.FitsI64Exactly` | gfs-cli/src/gitdate.rs:144-159 | The arithmetic stays in 64 bits exactly for days up to 2^63-1 less 719468 |
| `GitDate.LastDayDoesNotFit` | gfs-cli/src/gitdate.rs:144-150 | The largest day number overflows |
| `GitDate.ShiftedTimeFits` | gfs-cli/src/gitdate.rs:126-142 | A time whose shifted value fits 64 bits has a day that does |
| `GitDate.RelativeRoundsDown` | gfs-cli/src/gitdate.rs:59-90 | A relative date names the age rounded down to its unit: seconds and minutes below 60, hours below 24, days below 7, weeks below 10, months from 2 to 11, then years and the months left over |

## Left out

- WorkspaceCaches.WithWorkspaceCaches: the ident, the directory count and each directory's child count are below 2^64, as the lengths of things in memory are; `WorkspaceCaches.SortedCountsFit` reduces that to the number of directories for sorted entries.
- UntrReader.ReaderFindsTheDirectories: for strictly sorted paths; over other orders the pass still ends and its table is stated, but a directory may be opened twice.
- SeededIndex.SeedingKeepsStagedTree: one direction; where the extensions break off before the checksum, the bytes of the added ones can agree with the old answer by accident, and `SeededIndex.StrayByteBreaksScan` gives a family where they do not.
- SeededFiles.SeedableExactly: for files of a header, whole entries with readable paths and any bytes after them.
- FsmnReader.FsmnRoundTrip: for entry counts below 2^32, the range of the index header's count field.
- IndexWriter.StagesItsRoot: for readable paths, since the cursor stops at another place after one that is not; every path Git can hold is readable.
- Ewah.BitmapRoundTrip: for bit counts below 2^32, the range of the format's count field; the encoder itself is stated for every count.
- TreeListing.ListTree: the object store is a given function; `.gitattributes` resolution and pointer parsing are one given answer for each file, as they are in `CommitIndex.IndexForCommit`.
- CommitIndex.IndexForCommit: the batch of sizes asked of a Git process, which falls back to the modelled lookups, and the pool's own errors; threads answer their slices as if in turn.
- TreeCaches.TreeCache.Insert: the access tick is unbounded where the code's is 64 bits wide, as are the other caches' ticks and clocks, inode numbers, generations and reference counts.
- BlobRuns.EveryRun: task cancellation, directory creation, the temporary file and files deleted by others are not modelled; an eviction is one step under its lock.
- Pool.EveryInterleaving: fairness, and so that a particular waiter is eventually served.
- MountInodes.InodeTable.RepinRoot: the report's order, which is the map's.
- PackedRefsFile.WritePackedRefs: atomic replacement of the file, and the early return when the refs are not known; an earlier file that cannot be read as text counts as none.
- The files-only stack walk that feeds content search: the same loop as `WalkPaths`, with a filter on modes.
- Formatting of dates into text.
- A directory listing's by-name index, cache statistics and debug output.
- libgit2 calls, subprocesses, gRPC, FUSE callbacks, the overlay and the control socket: foreign code and plumbing.
- `format.rs`, `lease.rs`, `attr.rs`, `budget.rs`, `attributes.rs`, `find.rs`, `passthrough.rs`: their claims are single-branch facts or weaker copies of what is proved here.
