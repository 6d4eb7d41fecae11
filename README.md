# dedup, modelled in Dafny

`dedup` finds duplicate files. It walks the directories named on its command line and registers every regular file that is large enough. It then sorts the registry with a comparator that ranks files by:

1. size;
2. hard-link identity;
3. the SHA-1 of the first 4 KiB, then of the last 4 KiB, then (in safe mode) of the whole file;
4. the path.

Finally it walks the sorted registry in maximal blocks of similar files, printing each block and summing the space the duplicates waste.

Two revisions of this pipeline are modelled:

- **The modular one under `src/`.**
  - `src/name_list.c` is the path arena.
  - `src/file_list.c` holds the registry, the scan, the digests, the comparator, the sort and the grouping pass.
  - `src/dedup.c` holds another scan, `print_block` and `main`.
- **The older single file `dedup.c`.**

The revisions differ in three ways:

| | `src/` | `dedup.c` |
|---|---|---|
| Size threshold | 1024 bytes | drops only empty files |
| Digest "evaluated" flag | set only on success | set on every exit of a getter |
| Lost-space accounting | hard-link aware | size × (records − 1) |

The model is parameterised by these choices: `Revision`, `Policy.minSize`, `Accounting` and `Registration`.

The modules follow the program's structure.

- `Common`: bytes, C strings, the sign of `strcmp`/`memcmp`, `join_path`, the per-file record `t_file_id` (as `FileId`), and the abstraction of the file system.
  - `Disk`: what `fopen` and `fread` return for a path.
  - `Hash`: SHA-1, as a parameter.
- `NameList`: the arena `t_name_list`. A class over an `array<char>` that doubles in place. Its ghost map `Names` maps each issued handle to the string stored there.
- `Tree`: the directory tree the scans walk, and `ScanDir`. `ScanDir` is the specification of what a scan registers: ignore patterns, hidden entries, `.`/`..`, failed `stat`, and the size threshold.
- `Digests`: one call of a digest getter as a step of a small state machine per tier. Each tier moves from unevaluated to evaluated or vanished, in either revision.
- `Order`: `compare_files` and `similar_files` on the values held in the records. Proved here:
  - the comparator is antisymmetric;
  - it is transitive while hard links carry equal digests, except where every record of a size is one file and the name decides; a counterexample shows what happens otherwise;
  - similarity is exactly "the comparison fell through to the name";
  - an insertion-sort specification.
- `Sorting`: `file_list_sort` on values.
- `Units`: `size_unit`.
- `Blocks`: the partition into maximal runs, and the lost-space accounting of both revisions.
- `FileList`: the registry `t_file_list`. A class over an `array<FileId>` with:
  - both allocation APIs;
  - the recursive scan;
  - the three getters;
  - the comparator and similarity test run on the array, with their side effects;
  - the sort;
  - `print_block`;
  - the grouping walk.
- `Dedup`: `main` of `src/dedup.c` and of `dedup.c`: scan every root, sort, group.

`src/dedup.c` calls `file_list_new(void)`, `file_list_drop_last(void)`, `name_list_new(size_t)` and non-static `compare_files`/`similar_files`. These are the declarations of `src/file_list.h` and `src/name_list.h`. No file of the repository defines the first three with those signatures:

- `src/file_list.c` and `src/name_list.c` define `file_list_new(path, name)` and `name_list_new(dir, name)`, and static comparators;
- `dedup.c` defines `name_list_new`, `file_list_new` and `file_list_drop_last` with an extra parameter, the arena or registry to work on.

Only `compare_files` and `similar_files` of `dedup.c` match the header. The model assumes that the header functions behave like the `dedup.c` functions of the same names, applied to the global registry and arena. It therefore runs `src/dedup.c` with:

- the slot API (`Registration.BySlot`);
- the digest getters of `dedup.c` (`Revision.Legacy`);
- the initial capacities of `src/`.

## Model

| member | source | states |
|---|---|---|
| Common.StrCmp | src/file_list.c:264-267 | The sign of strcmp is 0 exactly when the two paths are equal. |
| Common.StrCmpAntisymmetric | src/file_list.c:235-237 | Swapping the operands of strcmp negates its sign. |
| Common.StrCmpTransitive | src/file_list.c:265-267 | strcmp order is transitive. |
| Common.MemCmp | src/file_list.c:243-244 | memcmp over DIGEST_SIZE bytes is 0 exactly when the digests are equal. |
| Common.MemCmpAntisymmetric | src/file_list.c:243 | Swapping the operands of memcmp negates its sign. |
| Common.MemCmpTransitive | src/file_list.c:250 | memcmp order is transitive. |
| Common.Join | src/path.h:29-42 | The joined path is dir, then one slash, then name. |
| Common.JoinPath | dedup.c:162-167 | join_path writes dir/name and its NUL at the offset. It leaves every other byte of the buffer unchanged, and the string can be read back there. |
| Common.StoredIsCStr | src/name_list.c:65-68 | Reading the C string at an offset where s and its NUL were stored gives back s. |
| Common.WriteString | src/name_list.c:61 | Copying s into the buffer at an offset changes exactly the bytes [off, off + \|s\|). |
| Common.Realloc | src/name_list.c:53 | realloc returns a fresh array of the new capacity whose first elements are the old ones. |
| NameList.NameList.InitModular | src/name_list.c:35-44 | After name_list_init: capacity 16·1024, length 0, no handle issued. |
| NameList.NameList.InitLegacy | dedup.c:84-93 | After the dedup.c name_list_init: capacity 1024, length 0, no handle issued. |
| NameList.NameList.DoubleUntil | src/name_list.c:49-52 | The doubling loop stops at the first power-of-two multiple of the capacity that exceeds the need. It doubles at least once and never overshoots by more than a factor of two. |
| NameList.NameList.Grow | src/name_list.c:49-58 | After the capacity test, length + size < capacity. The capacity only changes by doubling, and only when the request did not fit. The old contents survive the realloc. |
| NameList.NameList.Move | src/name_list.c:53 | The realloc of the arena: the capacity becomes the new one, the length and every issued handle are kept, and the old bytes survive at the same offsets. |
| NameList.NameList.New | src/name_list.c:46-63 | Reserves exactly \|dir\| + 1 + \|name\| + 1 bytes. The handle is the old length and was never issued before, so handles strictly increase. The handle resolves to dir/name. Every earlier handle still resolves to its old string. length < capacity is kept. name_list_size never decreases. |
| NameList.NameList.Reserve | dedup.c:95-110 | Returns the old length and advances length by name_size + 1. The capacity only changes by doubling, until it exceeds the new length. No issued string is touched. |
| NameList.NameList.WriteJoin | src/dedup.c:64-66 | Writing dir/name into a freshly reserved handle makes it resolve to that path. Earlier handles are kept. |
| NameList.NameList.Get | src/name_list.c:65-68 | name_list_get of an issued handle yields the string stored for it. |
| Tree.ScanDir | src/file_list.c:113-121 | An ignored path or a directory opendir cannot open yields nothing. Every accepted file reaches the threshold and lies below the scanned directory. |
| Tree.RegularAcceptedIff | src/dedup.c:61-89 | A regular entry yields at most one record. It yields one exactly when it is visible, stat succeeds and the size reaches the threshold. That record carries dir/name and the stat result. |
| Tree.SelfAndParentNotEntered | src/file_list.c:128-129 | "." and ".." are never recursed into. |
| Tree.HiddenSkipped | src/file_list.c:124 | Without hidden scanning, a dot-entry yields nothing. |
| Tree.ThresholdBoundary | src/file_list.c:101-104 | 1023 bytes is dropped and 1024 bytes is kept: the threshold is inclusive. |
| Tree.ScanEntries | src/file_list.c:122-145 | Every file the readdir loop accepts from a listing reaches the size threshold and lies below the directory scanned. |
| Tree.ScanEntry | src/file_list.c:124-143 | One directory entry contributes only files that reach the threshold and lie below the directory. |
| Tree.ScanEntriesPrefix | src/file_list.c:123-145 | The readdir loop yields the concatenation of what each entry yields, in order. |
| Tree.ShowingHiddenOnlyAdds | src/dedup.c:48-50 | Turning hidden scanning on never loses a file that the skipping scan accepts. |
| Tree.ShowingHiddenOnlyAddsEntries | src/file_list.c:124 | The same, for the entries of one directory. |
| Digests.StartBytes | src/file_list.c:153-161 | The start digest hashes the first min(size, 4096) bytes. |
| Digests.EndBytes | src/file_list.c:183-188 | The end digest of a file of the recorded size hashes its last 4096 bytes. |
| Digests.PartialBytes | src/file_list.c:172-197 | For a seekable file longer than 4096 bytes, the two partial reads are its last and first 4096 bytes. |
| Digests.Read | src/file_list.c:150-221 | A failed fopen reads nothing. On an open file only the end getter can fail, through fseek. The bytes read never exceed the content. |
| Digests.Step | src/file_list.c:150-221 | One getter call keeps the record's path, identity and size, and leaves its tier settled. A vanished record stays vanished and keeps the tier's digest. |
| Digests.StepSettles | src/file_list.c:150-170 | After a getter call the tier is evaluated or the record vanished. The dedup.c getter always sets the flag. No other tier changes. The record only moves forward. |
| Digests.StepMemo | src/file_list.c:150-152 | On an evaluated or vanished record, the getter ignores the file system. In src/ it changes nothing. |
| Digests.StepSuccess | src/file_list.c:161-167 | When the file can be read, the getter stores the hash of the bytes read, sets the flag and does not mark the record vanished. |
| Digests.StepFailure | src/file_list.c:155-160 | An open or seek failure marks the record vanished and leaves the digest unchanged. The flag is set only by the dedup.c getter. |
| Digests.RevisionsAgree | dedup.c:232-252 | Both revisions of a getter agree on digests and on the vanished flag. They differ only in the evaluated flag of a failed tier. |
| Digests.SettledOpensNothing | src/file_list.c:174 | Once a tier is settled, further calls open nothing and return the stored digest. |
| Digests.AtMostOneOpen | dedup.c:256 | Each tier of a record opens the file at most once, however often it is asked for. Every later call returns what the first stored. |
| Digests.ReadAll | src/file_list.c:212-215 | The fread loop of the full digest feeds the hash exactly the whole content. |
| Digests.ExtendsTransitive | src/file_list.c:150-221 | Getter calls compose: a record only moves forward. |
| Order.CompareFiles | src/file_list.c:223-268 | compare_files (also dedup.c:305-350) returns -1, 0 or 1. Records of different sizes are ordered by size. It returns 0 only for records of one size with the same path. |
| Order.SimilarFiles | src/file_list.c:270-300 | similar_files (also dedup.c:352-382) holds exactly when the sizes agree and the records are hard links or agree on every digest the comparison uses. |
| Order.SimilarIffNameDecides | src/file_list.c:270-300 | similar_files holds exactly when compare_files decides by hard link or by name. It holds exactly when the sizes agree and the records are hard links or agree on every digest consulted. Similar records compare by path. Dissimilar ones compare non-zero, whatever the paths. |
| Order.CompareZeroIff | src/file_list.c:223-268 | compare_files is 0 exactly when the records are similar and have the same path. |
| Order.SimilarSymmetric | src/file_list.c:270-300 | similar_files is symmetric. |
| Order.CompareAntisymmetric | src/file_list.c:223-268 | Swapping the operands of compare_files negates the result. |
| Order.CoherentCompareIsKey | src/file_list.c:228-267 | When hard links carry equal digests, compare_files is the lexicographic order on (size, digests, path). |
| Order.DigestOrderTransitive | src/file_list.c:240-262 | The digest part of the chain is transitive among records of one size. |
| Order.KeyCompareTransitive | src/file_list.c:228-267 | The key order is transitive. |
| Order.CompareTransitive | src/file_list.c:223-268 | compare_files is transitive on records whose hard links agree on their digests. |
| Order.CompareTransitiveAmong | src/file_list.c:223-268 | compare_files is transitive on the records of a list whose hard links agree except where every record of that size is one file, which compares by name. |
| Order.SimilarTransitive | src/file_list.c:270-300 | similar_files is transitive on such records. |
| Order.IncoherentNotTransitive | src/file_list.c:232-238 | Hard links whose digests differ break transitivity: a < b and b < c, yet a > c. |
| Order.SettledDecisionStable | src/file_list.c:223-300 | Once the digests a comparison consults are settled, later getter calls change neither its result nor the similarity. |
| Order.PartialSizeBoundary | src/file_list.c:247-256 | A pair of 4096-byte files never consults the end digest; a pair of 4097-byte files that are not hard links and share the start digest does. The full digest is never consulted at 8192 bytes, and at 8193 bytes it is consulted exactly in safe mode once start and end agree. |
| Order.Insert | src/file_list.c:304 | Inserting adds exactly one element to the multiset. |
| Order.SortNamed | src/file_list.c:304 | Sorting is a permutation. |
| Order.InsertSorted | src/file_list.c:304 | Inserting a record into a sorted list keeps it sorted, when all are drawn from a list whose hard links agree wherever a comparison reads their digests. |
| Order.SortNamedSorted | src/file_list.c:302-305 | The sort leaves sorted under compare_files any list drawn from such records. |
| Order.SortNamedIdempotent | src/file_list.c:302-305 | Sorting a list that is already sorted under compare_files returns it unchanged. |
| Order.SortNamedTwice | src/file_list.c:302-305 | On such records, sorting the sorted list changes nothing. |
| Sorting.SettleRecordExtends | src/file_list.c:240-262 | Settling only adds to a record. A record without a twin is left unchanged. A record with a twin gets its start tier settled, its end tier when it is longer than 4096 bytes and its full tier in safe mode when longer than 8192. An end or full tier that no comparison of the record consults keeps its flag and digest. |
| Sorting.SettleSettlesPairs | src/file_list.c:223-268 | After settling, every pair of records has the digests its comparison consults. |
| Sorting.SettleKeepsFiles | src/file_list.c:150-221 | Settling changes no path, size, device or inode. |
| Sorting.FilesOfSortNamed | src/file_list.c:304 | Sorting (record, path) pairs permutes the records. |
| Sorting.SortRecordsPermutes | src/file_list.c:304 | Sorting the records is a permutation, and every handle still resolves. |
| Sorting.SortRecordsSorted | src/file_list.c:304 | When the hard links that have a same-size twin agree on their digests, the result is sorted under compare_files with their paths. Records without a twin may carry any digests. |
| Sorting.SortRecordsIdempotent | src/file_list.c:304 | A registry already sorted under compare_files with its paths is left as it is by the sort. |
| Sorting.SortRecordsTwice | src/file_list.c:304 | Under the same condition, sorting the sorted registry changes nothing. |
| Sorting.SortPassPermutes | src/file_list.c:302-305 | file_list_sort returns the settled records, rearranged. |
| Sorting.SortPassSorted | src/file_list.c:302-305 | When the settled hard links that have a twin carry equal digests, the registry ends sorted under compare_files. |
| Sorting.TwinsCoherentLinksAgree | src/file_list.c:228-238 | A record without a same-size twin compares by size, or by name with its hard links, so the agreement of twins is all the comparison needs. |
| Sorting.SettleLinksAgree | src/file_list.c:240-262 | Two unread hard links of one size, settled through the same file, end with equal consulted digests when the file opens and seeks, or when they already agreed. |
| Sorting.SettleTwinsCoherent | src/file_list.c:302-305 | Settling an unread registry from a disk on which hard links open the same file leaves its twins coherent, given that each twin's file opens and seeks or its links already agree. |
| Sorting.NoTwinsSorted | src/file_list.c:228-238 | A registry in which no record has a twin ends sorted, whatever digests its records carry. |
| FileList.ByPathSorted | src/file_list.c:79-111 | A registry made by file_list_new(path, name), on a disk where hard links open the same file, has coherent twins after settling and ends sorted under compare_files. |
| Sorting.SortPassSettled | src/file_list.c:302-305 | Every pair of records in the sorted registry is settled for its comparison. |
| Units.FirstFit | src/file_list.c:322-327 | The chosen row is the first one from the top that fits. |
| Units.SizeUnit | src/file_list.c:312-329 | size_unit formats size / u and the name of the first row with size ≥ k·u. It always formats something. |
| Units.SizeUnitRange | src/dedup.c:98-115 | The value shown is the floor of size / u. It is at least 4 unless in bytes and below 4096 unless in Gb. Bytes are used exactly below 4096. |
| Units.SizeUnitBoundary | dedup.c:384-401 | 4095 is shown as "4095 bytes" and 4096 as "4 Kb". |
| Blocks.Walk | src/file_list.c:369-384 | The last run ends at the last record. |
| Blocks.WalkMaximal | src/file_list.c:369-384 | The walk partitions the records into consecutive runs. Each adjacent pair inside a run is similar, and each boundary falls between dissimilar neighbours. |
| Blocks.RunsIncreasing | src/dedup.c:183-197 | The runs are disjoint and in increasing order. |
| Blocks.RunOf | src/dedup.c:183-197 | Every index lies in exactly one run. |
| Blocks.SeenInIffInodes | src/file_list.c:353-359 | The inner loop of print_block finds an earlier record exactly when the (device, inode) already occurs in the block. |
| Blocks.NewFileSumCountsInodes | src/file_list.c:347-364 | In a block of one size, the sum over first occurrences is size × the number of distinct (device, inode). |
| Blocks.NewFileSum | src/file_list.c:347-366 | The sum of print_block's loop (also src/dedup.c:133-152) always includes the size of the block's first record, which is never seen before. |
| Blocks.Lost | src/file_list.c:331-367 | What either accounting adds for a block (print_block, or dedup.c:446-452): nothing for a block of one record. |
| Blocks.HardLinksLoseNothing | src/file_list.c:335-342 | A block of hard links to one inode loses nothing. |
| Blocks.LostCountsDistinctFiles | src/dedup.c:117-153 | Otherwise print_block returns size × the number of distinct files, which is at least two. |
| Blocks.SingletonLosesNothing | dedup.c:442-446 | A single record loses nothing under either accounting. |
| Blocks.ShownBlockHasCopies | src/file_list.c:342-345 | A printed block has at least two records. Under hard-link accounting it has at least two distinct files. An unprinted block adds nothing to the lost space. |
| Blocks.PrintedIffShown | src/file_list.c:379-384 | A run is printed exactly when it is one of the walk's runs and print_block shows it. |
| Blocks.Reclaimable | src/file_list.c:347-366 | The corrected per-block figure never exceeds what print_block reports. |
| Blocks.ReclaimableCountsCopies | src/file_list.c:331-367 | The corrected figure is size × (distinct files − 1). |
| Blocks.ReclaimableIsPerRecordWithoutHardLinks | dedup.c:442-453 | Without hard links, the corrected figure equals dedup.c's size × (block length − 1). |
| Blocks.TwoCopiesReportedTwice | src/file_list.c:347-366 | Two distinct 5000-byte copies: print_block reports 10000, while 5000 can be freed (the figure dedup.c reports). |
| Blocks.HardLinksPerRecord | dedup.c:442-453 | Two hard links to one 5000-byte file: dedup.c reports 5000, though nothing can be freed. |
| Blocks.CorrectedBelowLost | src/file_list.c:369-384 | The corrected total never exceeds the reported total. |
| FileList.Adjacent | src/file_list.c:375-376 | The walk's answer for position k is similar_files of records k and k + 1. |
| FileList.ChainSettles | src/file_list.c:240-262 | The digest chain of a comparison settles exactly the tiers it consults, in order, and stops at the first difference. |
| FileList.SettledAdjacentStable | src/file_list.c:375-376 | When every adjacent pair already has its consulted tiers settled, later getter calls leave every adjacent similarity as it was. |
| FileList.TrailingBytesDiffer | src/file_list.c:240-262 | Two files of one size above 4096 bytes with the same first 4096 bytes and different end digests, compared for the first time, are not similar in fast or safe mode. The chain consults exactly the start and end tiers and never calls the full getters. |
| FileList.ExtendsEachKeepsIdentities | src/file_list.c:150-221 | Getter calls change no record's size, device or inode. |
| FileList.FileList.InitModular | src/file_list.c:63-72 | After file_list_init: 1024 slots, empty registry, and an initialised arena. |
| FileList.FileList.InitLegacy | dedup.c:123-133 | After the dedup.c file_list_init: 16 slots, empty registry, and an arena of 1024 bytes. |
| FileList.FileList.GrowFiles | src/file_list.c:81-88 | A full array doubles and a non-full one is untouched. length < capacity afterwards, and the records are kept. |
| FileList.FileList.Append | src/file_list.c:79-92 | Appends exactly one cleared record, whose handle resolves to path/name. |
| FileList.FileList.New | src/file_list.c:79-111 | The record is kept exactly when stat succeeds and size ≥ 1024. The length then grows by exactly one, otherwise it returns to its old value. A kept record carries the stat result with every flag false and zero digests. The earlier records and paths are untouched. The arena grows either way. |
| FileList.FileList.NewSlot | dedup.c:135-148 | A full array doubles. length grows by exactly one, and the earlier records are kept. |
| FileList.FileList.DropLast | dedup.c:150-155 | length decreases by one when positive, and nothing happens on an empty registry. |
| FileList.FileList.Claim | src/dedup.c:63-66 | Takes the next slot and reserves and joins its path in the arena. |
| FileList.FileList.Register | src/dedup.c:63-87 | The slot is kept exactly when stat succeeds and the size reaches the threshold. A kept record carries size, device and inode with all flags false. A rejected one leaves the length unchanged. |
| FileList.FileList.Scan | src/file_list.c:113-148 | The records added are exactly what ScanDir yields, in order, and the count returned is their number. Earlier records are untouched. An ignored or unreadable path adds nothing and returns 0. |
| FileList.FileList.ScanEntriesInto | src/dedup.c:47-93 | The readdir loop adds exactly what the entries yield, and counts it. |
| FileList.FileList.ScanEntryInto | dedup.c:181-226 | One entry adds exactly what it yields: a recursive scan for a directory, at most one record for a regular file. |
| FileList.FileList.StartDigest | src/file_list.c:150-170 | The start getter makes one state-machine step on the record and returns the stored start digest. No other record changes. |
| FileList.FileList.EndDigest | src/file_list.c:172-197 | The same for the end digest. |
| FileList.FileList.FullDigest | src/file_list.c:199-221 | The same for the full digest, computed through the read loop. |
| FileList.FileList.Compare | src/file_list.c:223-268 | Returns compare_files of the two records as they end up. Records of different sizes and hard links come back unchanged, with no getter called. Otherwise the pair becomes the getter chain applied to the old pair and the files at their paths, so every digest the call computes is the hash of the bytes read. The consulted tiers end up settled, and no other record changes. |
| FileList.FileList.Similar | src/file_list.c:270-300 | Returns similar_files of the two records as they end up. Records of different sizes and hard links come back unchanged. Otherwise the pair becomes the getter chain applied to the old pair, with the consulted tiers settled and no other record changed. |
| FileList.FileList.Digests | src/file_list.c:240-262 | The digest chain on the array equals the chain on values, and returns its order. |
| FileList.FileList.LaterDigests | src/file_list.c:246-262 | After equal start digests, the end getters above 4096 bytes and then the full step: the pair becomes the rest of the chain, and the result is the digest order. |
| FileList.FileList.FullDigests | src/file_list.c:254-262 | After equal start and end digests, the full getters run only in safe mode above 8192 bytes. The pair becomes that last step of the chain, and the result is the digest order. |
| FileList.FileList.PairDigests | src/file_list.c:241-244 | Calls one getter on both records and returns memcmp of the results. |
| FileList.FileList.SettleAll | src/file_list.c:302-305 | Settles every record, in the order the comparator would ask for the tiers. |
| FileList.FileList.Sort | src/file_list.c:302-305 | The registry becomes the sort pass of its old contents: a permutation of the settled records that is sorted under compare_files when hard links with a twin agree (see the Sorting lemmas). |
| FileList.FileList.AllHardLinks | src/file_list.c:335-342 | The first loop of print_block finds every member sharing the first member's (device, inode). |
| FileList.FileList.NewFile | src/file_list.c:353-359 | The inner loop finds exactly whether the (device, inode) occurs earlier in the block. |
| FileList.FileList.PrintBlock | src/file_list.c:331-367 | Returns 0 and prints nothing for a block of hard links. Otherwise it returns the sum of sizes over first occurrences of each (device, inode). |
| FileList.FileList.Block | dedup.c:403-411 | One block under either accounting: what is printed, what is added to the lost space, and the corrected figure. |
| FileList.FileList.AddBlock | src/file_list.c:379 | Adds one block to the running totals. |
| FileList.FileList.JudgeNext | src/file_list.c:376 | One similar_files call of the walk. The answer can no longer change, and records only move forward. |
| FileList.FileList.WalkBlocks | src/file_list.c:369-386 | The reported lost space is the sum of print_block over the maximal runs of similar neighbours. The printed blocks and the corrected total are the same sums. |
| FileList.FileList.WalkRuns | src/file_list.c:375-383 | The loop of the walk keeps its invariant to the end: every adjacent pair judged, every run but the last one tallied, every record extending the one it started as. |
| FileList.FileList.WalkNext | src/file_list.c:375-383 | One iteration: similar_files on the next pair either extends the open run or tallies it through print_block and opens a new one, and the walk invariant is kept. |
| FileList.FileList.ReportSimilar | src/dedup.c:183-197 | The grouping pass of all three sources, including the empty registry, which reports nothing. |
| Dedup.ScanAllUnderRoots | src/dedup.c:161-172 | Every registered file reaches the threshold and lies below one of the roots. |
| Dedup.SkippedRootAddsNothing | src/dedup.c:37-44 | An ignored or unreadable root contributes nothing to the registry. |
| Dedup.ScanRoots | src/dedup.c:161-172 | The argument loop: each count is the number of files accepted below its root. The registry gains what the roots yield, in order. |
| Dedup.Pipeline | src/dedup.c:161-197 | Scan, sort, group. The registry lists what the roots yield. Each record extends the record at the same index of the sort pass of the scanned records: same file, same settled digests. The adjacent similarities are those of the sort pass, and the totals are those of the grouping pass over the sort pass. |
| Dedup.SortAndReport | src/dedup.c:180-197 | qsort then the grouping loop: the registry extends the sort pass of the registry as it was, with the same adjacent similarities. The totals are those of the grouping pass over the sort pass. |
| Dedup.RunModular | src/dedup.c:155-198 | main of src/dedup.c: 1024-byte threshold, ignore patterns, hard-link aware accounting. The totals are those of the grouping pass over the sort pass of exactly the files the roots yield. |
| Dedup.RunLegacy | dedup.c:413-455 | main of dedup.c: only empty files dropped, no ignore patterns, lost space per record. The totals are those of the grouping pass over the sort pass of exactly the files the roots yield. |
| Dedup.ScanAll | src/dedup.c:161-172 | The files the argument loop accepts, root after root, all reach the size threshold. |

## Left out

- Option parsing, `help()`, `read_conf` and the configuration file are not modelled. The flags are parameters fixed for the whole run. In the C programs, `--hidden` and `--skip-hidden` may change between two path arguments.
- `ignored` is a loop over `fnmatch` and becomes an arbitrary predicate, `Policy.ignored`.
- SHA-1 is a parameter (`Hash`).
- The file system is an abstract tree (`Tree.Entry`) for the scans and a function from paths to file contents (`Disk`) for the getters. `perror` output is not modelled.
- `realpath` is not modelled: a root carries the path the scan starts from.
- Printing is not modelled: the `printf`/`sprintf` layout, `basename`, the memory-usage line and the per-root count lines. The model keeps the printed blocks as a list of runs and `size_unit` as an (amount, unit) pair.
- Allocation failure and `exit(EXIT_FAILURE)` are not modelled, and neither is `PATH_MAX` overflow of the sub-directory buffer.
- `DT_UNKNOWN` entries are read as "other". The `FILE*` leaked when `fseek` fails is not modelled.
- `size_t` arithmetic is unbounded in the model.
  - Lost-space totals and `name_list` lengths cannot wrap.
  - `file->size - PARTIAL_CONTENT_SIZE` in the end getter is modelled as a failed seek when the size is below 4096. The comparator never asks for it then.
- `Sorting.SortPassSorted`: with registration by slot (file_list_new(), used by both mains), a record's digests start as whatever the slot held. A twin whose file fails to open or seek keeps them, so sortedness then rests on its hard links holding the same leftover digests; SettleTwinsCoherent states this. ByPathSorted needs only that hard links open the same file, and NoTwinsSorted needs nothing of the disk.
- `FileList.FileList.Sort`: qsort's own algorithm and its call order are not modelled.
  - The model first settles every digest a comparison of a record could consult (`Settle`), then sorts the settled records with an insertion sort under `compare_files`.
  - When the file system does not change during the run, every comparison qsort makes sees the same digests in the model. The model may also evaluate tiers that qsort never asks for. When the file system does change, which records end up vanished can differ.
  - On values, an insertion sort replaces the in-place array sort.
- `Common.StrCmp`, `Common.MemCmp`: only the sign of the C result is modelled.
- `NameList.NameList.Footprint` models name_list_size (src/name_list.c:70-73) as the struct size (24 bytes, as on an LP64 target) plus the capacity. It has no contract of its own; `NameList.NameList.New` states that it never decreases.
- `file_list_size` (src/file_list.c:307-310) is not modelled. It depends on the platform's `sizeof(t_file_id)` and only feeds the memory-usage line.
- `FileList.FileList.ReportSimilar`: on an empty registry the C loops call `print_block(0, 0)` on a slot no scan filled. The model reports nothing for that call, which is what the C code does for a single record.
- Dedup.RunModular, FileList.FileList.NewSlot and NameList.NameList.Reserve: no function of the repository has the header signatures `file_list_new(void)`, `file_list_drop_last(void)` and `name_list_new(size_t)` that `src/dedup.c` calls. The model gives them the behaviour of the `dedup.c` functions of the same names (dedup.c:95-155): a slot whose digests are left as they were, the record dropped from the end, and `name_size + 1` bytes reserved. The repository itself does not determine this.
- FileList.FileList.InitModular, FileList.FileList.InitLegacy and FileList.FileList.GrowFiles fill the slots that malloc and realloc leave indeterminate with a cleared record. No contract depends on that value: `FreshRecord(BySlot, …)` leaves the digests of a new slot unconstrained, and `Append` clears its record as the memset of src/file_list.c does.
- The Python scripts of the repository test a separate calculator and are not part of this model. So are the header files, which only declare.

## Findings

| source | as written | input that shows it | evidently intended | confidence | as-written member | corrected member |
|---|---|---|---|---|---|---|
| src/file_list.c:347-366 (also src/dedup.c:133-152) | `print_block` adds the size of every distinct (device, inode) of a block, the first copy included, so the "Lost space" total counts one copy that must be kept | a block of two distinct files of 5000 bytes with the same content reports 10000 bytes lost | the space freed by keeping one copy of each block: size × (distinct files − 1), here 5000, which is what `dedup.c` reports for files without hard links | not executed | Blocks.TwoCopiesReportedTwice | Blocks.ReclaimableCountsCopies |

The grouping pass computes both figures. `FileList.FileList.ReportSimilar` returns the total as written (`lost`) and the corrected total (`reclaimable`, through `Blocks.Reclaimable` and `Blocks.Corrected`). `Blocks.CorrectedBelowLost` and `Blocks.ReclaimableIsPerRecordWithoutHardLinks` relate the corrected total to the two revisions' formulas.
