# Over-the-air update path and RIL timers: a verified model

This project models, in Dafny, the parts of the update path under `bootable/recovery` that have to be right for a
device to survive an update, and the timer queues of the radio interface layer, and proves what they promise.

* **Binary diff and patch.** The suffix sorter with its in-place three-way partition (`SuffixOrder`, `Tricolour`,
  `SuffixSort`, `BucketSort`), the greedy matcher (`BsSearch`, `BsDiff`), the applier (`BsPatch`), the number formats
  (`Codec`), and image patches with their chunk splitter, merger, file layout and applier (`ImgRead`, `ImgChunks`,
  `ImgDiff`, `ImgFormat`, `ImgFront`, `ImgPatch`, `ImgUpdate`). Main results: the sorter sorts every byte string, patch
  undoes diff for every pair of files, and for images exactly when it does.
* **Crash-safe installation.** A file system that records every state it passes through (`FileSystem`), the cache
  cleaner (`FreeCache`), digests as text (`Sha1Text`), the installer (`ApplyPatch`) and the prefix search over a flash partition (`MtdLoad`).
  Main result: stopped and restarted any number of times, at every moment the target, the source or the saved copy is good.
  `OtaUpdate` joins the two ends: what bsdiff or imgdiff makes, applypatch installs.
* **Hash table and zip index.** Open addressing with tombstones and doubling against a plain map (`Power2`, `HashTable`), the sorted
  directory and its index (`ZipNames`, `ZipArchive`), the file format byte by byte (`ZipLayout`), extraction (`ZipExtract`).
* **Flash block layer.** Buffered reads and writes around bad blocks against a byte sequence (`Mtd`).
* **Boot control.** The argument field of the boot message (`BootMessage`) and the protocol over reboots (`Recovery`).
* **Signed-zip footer.** The verifier and minzip agree on the end record (`Eocd`).
* **Timer queues.** Intrusive circular lists kept sorted by deadline (`RilEvent`), and whole runs of them (`RilRun`).

bzip2, inflate, deflate, SHA-1, option parsing, free space and directory listings are parameters: functions of which only
what a contract requires is known (that expansion undoes compression, that inflating does not depend on what follows a
stream). Failures of system calls are nondeterministic choices. `dafny verify dfyconfig.toml` checks the whole project.

Code that updates arrays, buffers, fields or lists in place is modelled by methods and classes that do the same,
each proved against a function of its inputs; lemmas then state what the source promises of that function.

## Where code and comments disagree

The model follows the code.

* `ParseSha1` is documented to accept a digest followed by a colon and more (`applypatch.c:354-357`), but refuses it (`applypatch.c:380`).
* `imgdiff.c:64` names the magic number IMGDIFF1; the code writes IMGDIFF2.
* `Hash.h:6-7` speaks of a load of three quarters; the code resizes at five eighths.
* `search` does not always find the longest match (`BsSearch.MissesAtAa`): a suffix that is a proper prefix of the new data compares equal and the search moves down. `BsSearch.LongestExactly` says when it does.
* `ReadImage` pads the image with four zero bytes for the sake of the search for headers (`imgdiff.c:385-388`), but the size in a gzip footer is read from the padding as well (`imgdiff.c:477`): a section whose footer lacks up to four bytes that were zero is accepted, and the chunks then run past the image. The patch written for such a target rebuilds it with the missing bytes (`ImgUpdate.LostZeroComesBack`), and one made from such a source can send the applier past it; `ImgUpdate.DiffImages` says exactly when.
* A normal chunk of an image patch whose bsdiff patch is corrupt does not fail the run (`imgpatch.c:79-80`): it is passed over (`ImgFormat.NormalIgnored`), and only the digest of the output tells.

## Model

| member | source | states |
|---|---|---|
| `SuffixOrder.LessIsLexicographic` | bootable/recovery/applypatch/bsdiff.c:185-188 | the order sorted by is the lexicographic one: after a common prefix one suffix ends or has the smaller byte |
| `BucketSort.CountBytes` | bootable/recovery/applypatch/bsdiff.c:126-127 | each bucket holds the number of occurrences of its byte |
| `BucketSort.Accumulate` | bootable/recovery/applypatch/bsdiff.c:128-130 | the shifted running sums are the slot before each bucket |
| `BucketSort.Distribute` | bootable/recovery/applypatch/bsdiff.c:132-132 | every position lands in the bucket of its byte, in increasing order |
| `BucketSort.Deal` | bootable/recovery/applypatch/bsdiff.c:123-137 | after the counting sort the ranks are sound, equal ranks agree on one byte, and I encodes the groups |
| `BucketSort.BucketRanks` | bootable/recovery/applypatch/bsdiff.c:134-137 | ranks by leading byte order the suffixes and form groups |
| `SuffixSort.KeyOrder` | bootable/recovery/applypatch/bsdiff.c:66-76 | two positions of equal rank are ordered, or agree on twice as many bytes, as the ranks h bytes further on say |
| `SuffixSort.CutKeepsOrder` | bootable/recovery/applypatch/bsdiff.c:77-78 | giving part of a group a new rank keeps every rank sound although later groups of the pass still read them |
| `SuffixSort.GatherLeast` | bootable/recovery/applypatch/bsdiff.c:66-76 | the least keys come to the front, the rest is a rearrangement of what was there |
| `SuffixSort.SplitSmall` | bootable/recovery/applypatch/bsdiff.c:64-81 | the selection-sort branch refines its indices to twice the step and touches nothing else |
| `SuffixSort.CountKeys` | bootable/recovery/applypatch/bsdiff.c:84-89 | jj and kk bound exactly as many places as there are keys below and equal to the pivot |
| `SuffixSort.Partition` | bootable/recovery/applypatch/bsdiff.c:83-111 | three-way partition in place: below, equal, above, each in suffix order against the others |
| `SuffixSort.Split` | bootable/recovery/applypatch/bsdiff.c:60-119 | the indices are ranked by 2h bytes, ranks stay sound, nothing outside start..start+len is touched, and it terminates |
| `SuffixSort.Pass` | bootable/recovery/applypatch/bsdiff.c:140-154 | one pass over all groups doubles the number of bytes the ranks agree on |
| `BucketSort.MeasureBounded` | bootable/recovery/applypatch/bsdiff.c:139-154 | a step longer than the text leaves only single groups, so the passes end |
| `BucketSort.QSufSort` | bootable/recovery/applypatch/bsdiff.c:121-157 | for every byte string I becomes a permutation of 0..n whose suffixes are strictly increasing |
| `BsSearch.MatchLen` | bootable/recovery/applypatch/bsdiff.c:159-167 | the match returned is real and cannot be extended |
| `BsSearch.Search` | bootable/recovery/applypatch/bsdiff.c:169-193 | a real match, maximal at its position and the better of two neighbours; length 0 only if the first byte occurs nowhere in the old file; the longest of all unless the upper neighbour ends inside the new data without a difference |
| `BsSearch.LongestExactly` | bootable/recovery/applypatch/bsdiff.c:169-193 | search finds a longest match for every new file if and only if the last byte of the old file occurs nowhere else in it: if it does, there are two bytes of the old file for which every bracket the bisection can end with gives a shorter match |
| `BsSearch.MissesAtAa` | bootable/recovery/applypatch/bsdiff.c:185-189 | with old and new both aa every match search can return has length 1, at position 1, and is not the longest |
| `BsDiff.Scan` | bootable/recovery/applypatch/bsdiff.c:283-301 | the scan ends, oldscore never goes negative, every early stop has a match of positive length, and every position gone past has a match neither as good as the old alignment nor more than eight bytes better |
| `BsDiff.ExtendForward` | bootable/recovery/applypatch/bsdiff.c:304-309 | the forward extension has the greatest score among all that fit |
| `BsDiff.ExtendBackward` | bootable/recovery/applypatch/bsdiff.c:311-318 | the backward extension has the greatest score among all that fit |
| `BsDiff.Trim` | bootable/recovery/applypatch/bsdiff.c:320-333 | overlapping extensions are cut so that they just meet, at the best place, with both lengths non-negative |
| `BsDiff.DiffBytesUndone` | bootable/recovery/applypatch/bsdiff.c:335-336 | adding the old bytes to the stored differences gives the new bytes back |
| `BsDiff.Emit` | bootable/recovery/applypatch/bsdiff.c:335-356 | one more triple keeps the streams a faithful record of the new file so far, and of the cuts made so far |
| `BsDiff.WriteTriple` | bootable/recovery/applypatch/bsdiff.c:343-357 | appending a triple with its bytes extends what the streams rebuild by exactly those bytes |
| `BsDiff.DiffStreams` | bootable/recovery/applypatch/bsdiff.c:281-362 | for every old and new file the loop terminates and the three streams rebuild exactly the new file, every byte consumed; they record a series of cuts, each at the first match more than eight bytes better than the old alignment or at the end, with best extensions trimmed at the best place |
| `BsDiff.Lengths` | bootable/recovery/applypatch/bsdiff.c:304-333 | the lengths emitted are the best extensions, trimmed where they overlap |
| `BsDiff.SamePatch` | bootable/recovery/applypatch/bsdiff.c:281-410 | the patch of a file against itself has one triple, no extra bytes and only zero differences |
| `BsDiff.PatchApplies` | bootable/recovery/applypatch/bsdiff.c:363-403 | a patch embedded anywhere in a larger file is applied from its header offsets and gives the new file |
| `BsDiff.BsDiff` | bootable/recovery/applypatch/bsdiff.c:224-410 | the patch written for any old and new file makes the applier produce the new file, and holds the streams of such a series of cuts |
| `BsPatch.ApplyBSDiffPatchMem` | bootable/recovery/applypatch/bspatch.c:123-252 | the in-place loop over buffers computes the applier used as the partner of bsdiff, with its error cases |
| `BsPatch.Round` | bootable/recovery/applypatch/bspatch.c:199-245 | one iteration with its range tests keeps the result of the whole application unchanged |
| `BsPatch.AddInPlace` | bootable/recovery/applypatch/bspatch.c:221-225 | the old bytes are added modulo 256 where they exist, and elsewhere nothing changes |
| `BsPatch.TripleMeans` | bootable/recovery/applypatch/bspatch.c:199-245 | one triple in explicit bytes: so many differences added to old bytes modulo 256, so many extra bytes, then the seek |
| `BsPatch.TripleRefused` | bootable/recovery/applypatch/bspatch.c:206-241 | a triple that makes too many bytes or asks a stream for more than it has is corrupt |
| `BsPatch.FileMeans` | bootable/recovery/applypatch/bspatch.c:135-185 | a patch file in explicit bytes: magic word, three lengths and three streams |
| `BsPatch.FileRefused` | bootable/recovery/applypatch/bspatch.c:144-158 | another magic word or a negative length is corrupt |
| `Codec.Fixed4` | bootable/recovery/applypatch/utils.c:22-53 | a value survives Write4 and Read4 if and only if it fits 32 bits |
| `Codec.Fixed8` | bootable/recovery/applypatch/utils.c:30-65 | a value survives Write8 and Read8 if and only if it fits 64 bits |
| `Codec.OfftRoundTrip` | bootable/recovery/applypatch/bsdiff.c:195-211 | a value survives offtout and offtin if and only if its magnitude is below two to the 63rd |
| `Codec.OfftPlain` | bootable/recovery/applypatch/bsdiff.c:195-211 | sizes and lengths are stored as plain little-endian numbers and read back as such |
| `Codec.OfftSign` | bootable/recovery/applypatch/bspatch.c:66-82 | a field with its top bit clear reads as what its bytes spell, with it set as minus what the rest spells |
| `Codec.Value4` | bootable/recovery/applypatch/utils.c:47-53 | four bytes spell a number least significant byte first |
| `ImgRead.ReadImage` | bootable/recovery/applypatch/imgdiff.c:368-511 | exact outcome for every image: chunks if and only if every gzip section is good, the last one perhaps with its footer completed by the padding, and the ending is not one the scan stops short of; they tile the image, or the image with one to four padding bytes; NULL if and only if good sections lead to a footer with another length; no return if and only if they lead to a header without a stream or to a headerless rest ending in 1f 8b 08 |
| `ImgRead.ScanStep` | bootable/recovery/applypatch/imgdiff.c:485-508 | where the scan for the next header stops decides nothing away: the rest of the image has the same ending and chunks |
| `ImgRead.GzipStep` | bootable/recovery/applypatch/imgdiff.c:398-483 | after a good section the rest decides; one whose footer runs into the padding ends the image; a bad one decides at once |
| `ImgRead.SectionMeans` | bootable/recovery/applypatch/imgdiff.c:398-483 | a gzip section given byte by byte anywhere in an image is three chunks if its last four bytes are the length of its data, and refused otherwise |
| `ImgRead.ReadSection` | bootable/recovery/applypatch/imgdiff.c:398-511 | an image that is one such section is read as exactly those chunks, or as a bad footer |
| `ImgRead.StuckAtEnd` | bootable/recovery/applypatch/imgdiff.c:498-505 | the padding completes a gzip header at such an ending that the gzip test at the same place refuses |
| `ImgRead.LostZero` | bootable/recovery/applypatch/imgdiff.c:385-388 | an image that is one gzip section without the zero byte its footer ended in is read as if it still had it |
| `ImgChunks.MergeAdjacentNormalChunks` | bootable/recovery/applypatch/imgdiff.c:704-752 | compaction in place gives the list with each run of adjacent normal chunks made one |
| `ImgChunks.MergedTiles` | bootable/recovery/applypatch/imgdiff.c:704-752 | merging keeps a tiling a tiling |
| `ImgChunks.MergedApart` | bootable/recovery/applypatch/imgdiff.c:704-752 | no two neighbours of a merged list are left to merge |
| `ImgChunks.MergedKinds` | bootable/recovery/applypatch/imgdiff.c:704-752 | in a tiling the kinds after merging depend on the kinds before alone |
| `ImgChunks.TryReconstruction` | bootable/recovery/applypatch/imgdiff.c:521-558 | true exactly when recompressing gives the bytes of the image |
| `ImgChunks.ReconstructDeflateChunk` | bootable/recovery/applypatch/imgdiff.c:566-591 | parameters found give the bytes of the image; none found means neither level does |
| `ImgDiff.Demote` | bootable/recovery/applypatch/imgdiff.c:847-893 | both lists stay parallel tilings; a deflate pair is kept, with parameters found, exactly if level 6 or 9 recompresses the target and its bytes differ from those of the source, and is made normal otherwise |
| `ImgDiff.MergedParallel` | bootable/recovery/applypatch/imgdiff.c:895-907 | parallel lists stay parallel after merging both, so the went-awry exit is unreachable |
| `ImgDiff.MakePatch` | bootable/recovery/applypatch/imgdiff.c:599-661 | the record chosen for a chunk makes the applier emit exactly its bytes; it is a patch for a deflate chunk and for a normal one of more than 160 bytes with a shorter patch, and the bytes themselves for any other |
| `ImgDiff.ImgDiff` | bootable/recovery/applypatch/imgdiff.c:816-1010 | a patch is written if and only if the merged structures agree; it rebuilds the target image, and its records are those chosen for the pairs left after merging, demoting and merging again |
| `ImgDiff.RebuildsFromFront` | bootable/recovery/applypatch/imgpatch.c:68-130 | applied to a front of the source it was made for, a patch rebuilds the target if and only if no record reaches past that front, and never anything else |
| `ImgFormat.LayoutRead` | bootable/recovery/applypatch/imgdiff.c:932-1007 | every recorded offset is where that patch lands: a file laid out this way is read back chunk by chunk to its end |
| `ImgFormat.WriteImgDiff` | bootable/recovery/applypatch/imgdiff.c:952-1007 | the running offsets and total header size give that layout |
| `ImgFormat.LayoutMeans` | bootable/recovery/applypatch/imgdiff.c:60-118 | a patch file in explicit bytes: magic word, number of records, records and patches |
| `ImgFormat.RawMeans` | bootable/recovery/applypatch/imgdiff.c:97-99 | a stored chunk in explicit bytes |
| `ImgFormat.NormalMeans` | bootable/recovery/applypatch/imgdiff.c:67-71 | the record of a normal chunk in explicit bytes |
| `ImgFormat.DeflateMeans` | bootable/recovery/applypatch/imgdiff.c:86-96 | the record of a deflate chunk in explicit bytes |
| `ImgFormat.FileRefused` | bootable/recovery/applypatch/imgpatch.c:41-56 | a file too short for its header or with another magic word is refused |
| `ImgFormat.RecordRefused` | bootable/recovery/applypatch/imgpatch.c:58-111 | a record of no known kind or cut short is refused |
| `ImgFormat.RawRefused` | bootable/recovery/applypatch/imgpatch.c:90-95 | a stored chunk the file does not hold in full is refused |
| `ImgFormat.ExpandedRefused` | bootable/recovery/applypatch/imgpatch.c:127-167 | a deflate chunk whose source does not inflate to the recorded length is refused |
| `ImgFormat.NormalIgnored` | bootable/recovery/applypatch/imgpatch.c:79-80 | a normal chunk whose patch is corrupt is passed over and the run still succeeds |
| `ImgFormat.RecordsRead` | bootable/recovery/applypatch/imgpatch.c:56-218 | any number of records followed by their patches is applied record by record |
| `ImgFront.RecordsStop` | bootable/recovery/applypatch/imgpatch.c:56-130 | as soon as one record reaches past the source the run is sent out of its buffer |
| `ImgFront.LayoutOnFront` | bootable/recovery/applypatch/imgpatch.c:38-219 | on a front of the source a patch file runs to its end with the right output if no record reaches past that front, and out of the buffer otherwise |
| `ImgPatch.ApplyImagePatch` | bootable/recovery/applypatch/imgpatch.c:38-219 | the loop over records emits the chunks of the record semantics and stops where it stops |
| `ImgUpdate.DiffImages` | bootable/recovery/applypatch/imgdiff.c:774-1010 | a patch is written if and only if both images are read and have the same shape; it makes what the target was read as out of what the source was read as, and the target out of the source if and only if the target was read to its own end and the source too or the last record stores its bytes |
| `ImgUpdate.DiffThenPatch` | bootable/recovery/applypatch/imgpatch.c:38-219 | two images have a patch if and only if they have the same shape; applying it to the source finishes with the target if and only if no footer of the target runs into the padding, and none of the source unless the last record is raw |
| `ImgUpdate.OnlyLastReaches` | bootable/recovery/applypatch/imgdiff.c:470-483 | when the source was read past its end only the last record can reach past it, and it does unless it is raw |
| `ImgUpdate.LostZeroComesBack` | bootable/recovery/applypatch/imgdiff.c:473-483 | a target that is one gzip section without its last zero byte is patched to the section with that byte |
| `Sha1Text.ParseSha1` | bootable/recovery/applypatch/applypatch.c:358-382 | the digit loop accepts exactly forty hex digits and returns the digest they spell |
| `Sha1Text.DigestDigits` | bootable/recovery/applypatch/applypatch.c:358-382 | a text is read exactly if it is forty digits, and each byte has the place of its first digit as high half and of its second as low half |
| `Sha1Text.ParseText` | bootable/recovery/applypatch/applypatch.c:358-382 | every digest has a text that parses to it |
| `Sha1Text.SuffixRefused` | bootable/recovery/applypatch/applypatch.c:354-382 | a digest followed by anything is refused, contrary to the comment above the function |
| `Sha1Text.FindMatchingPatch` | bootable/recovery/applypatch/applypatch.c:387-398 | the first text spelling the digest, or -1 if and only if there is none |
| `MtdLoad.LoadContents` | bootable/recovery/applypatch/applypatch.c:116-259 | what is loaded is the smallest matching prefix; with well-formed pairs something is loaded if and only if a pair matches |
| `FileSystem.Disk.Write` | bootable/recovery/applypatch/applypatch.c:447-460 | a write that may stop anywhere changes only its file, at every moment on the way |
| `FileSystem.Disk.Save` | bootable/recovery/applypatch/applypatch.c:264-293 | on success the file holds the data; on the way only that file differs |
| `FreeCache.EliminateOpenFiles` | bootable/recovery/applypatch/freecache.c:14-72 | exactly the entries some process has open are nulled |
| `FreeCache.FindExpendableFiles` | bootable/recovery/applypatch/freecache.c:74-126 | names exactly the listed existing files of the two directories that nobody has open and that are not the saved source |
| `FreeCache.MakeFreeSpaceOnCache` | bootable/recovery/applypatch/freecache.c:128-172 | deletes only while space is short and only deletable files, reports whether there is enough at the end, and gives up only when every one of them was tried, and if unlink works is gone |
| `ApplyPatch.BackUpSource` | bootable/recovery/applypatch/applypatch.c:657-687 | making room, saving the copy and removing the source keep the data on disk at every moment; where nothing fails and the cache can take it, it succeeds, the source is gone and only deletable files with it |
| `ApplyPatch.Choose` | bootable/recovery/applypatch/applypatch.c:551-600 | what is chosen has a hash that selects its patch; if no read failed, the target is found done exactly when it is, and otherwise something is chosen exactly when a good copy is there |
| `ApplyPatch.SpaceMeans` | bootable/recovery/applypatch/applypatch.c:647-652 | room means more than 256 kilobytes and more than one and a half times the target |
| `ApplyPatch.Prepare` | bootable/recovery/applypatch/applypatch.c:646-687 | without room on the file system of the target the source is moved to the cache, and only then |
| `ApplyPatch.TryPatch` | bootable/recovery/applypatch/applypatch.c:602-774 | through both attempts the data being patched stays on disk; an accepted output is what the patch may leave in the file with some unchecked stretches cut short, hashed accordingly, and the whole output as hashed if nothing was lost; where nothing fails a right patch is applied with or without room, the source being moved exactly if there is none; a patch that fails is given up only after a try with the source moved |
| `ApplyPatch.SinkExact` | bootable/recovery/applypatch/imgpatch.c:68-117 | without loss the file, the hashed bytes and the output of the patch agree; a lost write always hashes less than the output |
| `ApplyPatch.LossUnnoticed` | bootable/recovery/applypatch/imgpatch.c:79-80 | a lost write can pass for success when the shorter hashed bytes have the digest: the limit of the promise |
| `ApplyPatch.WriteRun` | bootable/recovery/applypatch/bspatch.c:112-118 | on success the file and the hashed bytes are those of the stretches with only unchecked ones cut short, and both are the whole output if nothing was lost |
| `ApplyPatch.Install` | bootable/recovery/applypatch/applypatch.c:776-815 | without success nothing changes; if the output has the digest whenever the hashed bytes have it, every state is safe and code 0 means the target has the requested hash; then the output is in its place and a copy made is gone |
| `ApplyPatch.ApplyPatch` | bootable/recovery/applypatch/applypatch.c:525-816 | a run that fails leaves only safe states; so does one that succeeds, with the target hash, unless an unchecked write was lost and the output of that patch with some unchecked stretches cut short passes for the whole; a finished target is left alone; on a working disk, with right patches, a safe start ends in the target if there is room for it, or no usable source to move, or room on the cache to move it to; then the output is gone, a moved source and its copy are gone, and nothing else has changed but deletable files |
| `ApplyPatch.RunsWithCrashes` | bootable/recovery/applypatch/applypatch.c:525-816 | any number of runs, each stopped after any effect and restarted, for every kind of patch: at every point one of the three files is good, up to the first run, if any, that returns 0 after losing an unchecked write, and beyond it if no output with stretches cut short passes for the whole; on a steady disk or with bsdiff patches nothing is lost |
| `ApplyPatch.CrashesThenDone` | bootable/recovery/applypatch/applypatch.c:525-816 | however often it was stopped, one run with right patches, no failing call and room, on the file system or the cache, ends in the target |
| `ApplyPatch.OutputClobbersSource` | bootable/recovery/applypatch/applypatch.c:719-733 | why the source must not have the name of the output: opening the output would then destroy the last good copy |
| `OtaUpdate.BsdiffMakes` | bootable/recovery/applypatch/applypatch.c:742-747 | a bsdiff patch that makes one file out of another is one applypatch accepts and applies |
| `OtaUpdate.ImageMakes` | bootable/recovery/applypatch/applypatch.c:748-753 | so is an image patch |
| `OtaUpdate.Deliver` | bootable/recovery/applypatch/applypatch.c:525-816 | a patch that makes t out of s, with the two digests as text, leaves a target with the digest of t |
| `OtaUpdate.UpdateFile` | bootable/recovery/applypatch/bsdiff.c:224-410 | for any two files the patch bsdiff makes is installed by applypatch and leaves the digest of the new file |
| `OtaUpdate.UpdateImage` | bootable/recovery/applypatch/imgdiff.c:774-1010 | for any two images of the same shape the patch imgdiff makes is installed by applypatch and leaves the digest of the new image |
| `Power2.RoundUpIsLeast` | bootable/recovery/minzip/Hash.c:35-46 | the shift-and-or steps give the least power of two not below the argument |
| `Power2.MaskIsMod` | bootable/recovery/minzip/Hash.c:143-158 | masking with the table size less one is the remainder |
| `HashTable.HomeIsMask` | bootable/recovery/minzip/Hash.c:190-192 | the home slot is the masked hash |
| `HashTable.HashTable.constructor` | bootable/recovery/minzip/Hash.c:51-72 | an empty table of a power-of-two size within a factor two of the request |
| `HashTable.HashTable.FindSlot` | bootable/recovery/minzip/Hash.c:190-211 | the probe ends on the entry of the key or on an empty slot if there is none, across wrap-around and tombstones; the one-slot case is not entered |
| `HashTable.HashTable.Lookup` | bootable/recovery/minzip/Hash.c:179-248 | finds an item if and only if the map holds one for the key |
| `HashTable.HashTable.Add` | bootable/recovery/minzip/Hash.c:213-245 | adds to the map unless the key is there; the load bound and the invariant hold after, and the table is not reallocated while the bound allows one more |
| `HashTable.HashTable.Remove` | bootable/recovery/minzip/Hash.c:255-285 | removes the item if and only if it is the one held for its key |
| `HashTable.HashTable.Clear` | bootable/recovery/minzip/Hash.c:77-97 | the map is empty and the table valid |
| `HashTable.NotThere` | bootable/recovery/minzip/Hash.c:192-211 | an empty slot reached without meeting the key proves it absent |
| `HashTable.Filled` | bootable/recovery/minzip/Hash.c:213-219 | filling the slot a probe ended on keeps every entry in reach |
| `HashTable.Buried` | bootable/recovery/minzip/Hash.c:271-277 | a tombstone keeps every other entry in reach |
| `HashTable.Rehash` | bootable/recovery/minzip/Hash.c:137-172 | every live entry is re-inserted, no tombstone, same map |
| `HashTable.Run` | bootable/recovery/minzip/Hash.c:137-285 | over any sequence of operations the table answers as a plain map does |
| `HashTable.Fill` | bootable/recovery/minzip/Hash.c:26-28 | a table of the size mzHashSize gives takes its items without being reallocated |
| `ZipNames.CompareIsOrder` | bootable/recovery/minzip/Zip.c:293-302 | the comparison used for insertion is the lexicographic order on valid names |
| `ZipNames.FindPlace` | bootable/recovery/minzip/Zip.c:281-313 | binary search ends at a place with nothing greater before it and nothing smaller from it on |
| `ZipNames.Insert` | bootable/recovery/minzip/Zip.c:281-335 | the array stays sorted and gains exactly the new entry |
| `ZipArchive.ReadRecord` | bootable/recovery/minzip/Zip.c:255-391 | an accepted record has a valid name read from its place and its data lies within the file |
| `ZipLayout.RecordMeans` | bootable/recovery/minzip/Zip.c:255-391 | a record and local header laid out field by field are read as exactly that entry, its data starting after the name and extra field of the local header |
| `ZipLayout.RecordOnly` | bootable/recovery/minzip/Zip.c:255-391 | nothing is taken for a record without both signatures, a known system, a valid name and data within the file |
| `ZipArchive.ReadDirectory` | bootable/recovery/minzip/Zip.c:248-392 | succeeds if and only if every record is accepted; the array is a sorted rearrangement of them |
| `ZipArchive.AddsIndex` | bootable/recovery/minzip/Zip.c:394-404 | adding entries in array order indexes the first of each name |
| `ZipArchive.BuildIndex` | bootable/recovery/minzip/Zip.c:394-404 | the index answers as a linear scan and never grows past its first allocation |
| `ZipArchive.Parse` | bootable/recovery/minzip/Zip.c:187-414 | an archive is opened if and only if it has a directory that parses, and its sorted array holds exactly those entries |
| `ZipLayout.DirectoryMeans` | bootable/recovery/minzip/Zip.c:248-392 | records laid out one after the other are read as their entries in order |
| `ZipLayout.ArchiveMeans` | bootable/recovery/minzip/Zip.c:199-246 | a file laid out from entries has exactly those entries as its directory |
| `ZipLayout.OpenLaidOut` | bootable/recovery/minzip/Zip.c:187-414 | such a file is opened and the sorted array holds exactly its entries |
| `ZipArchive.OneDirectory` | bootable/recovery/minzip/Zip.c:212-246 | there is one directory at most: the one the last end record points at |
| `ZipArchive.ZipArchive.FindZipEntry` | bootable/recovery/minzip/Zip.c:505-512 | the hash lookup agrees with a linear scan, the lowest index winning among duplicates |
| `ZipArchive.MarkerIsSignature` | bootable/recovery/minzip/Zip.c:215-215 | the four marker bytes are those whose little-endian value is the end signature |
| `ZipExtract.PathHelper.TargetEntryPath` | bootable/recovery/minzip/Zip.c:865-908 | the reused buffer is long enough and holds target directory, slash, rest of the name and a NUL |
| `ZipExtract.DirectoriesEnd` | bootable/recovery/minzip/Zip.c:888-967 | both directories are given exactly the slash they lack |
| `ZipExtract.PrefixConvex` | bootable/recovery/minzip/Zip.c:996-1018 | a name between two names with a prefix has that prefix |
| `ZipExtract.NoneAfter` | bootable/recovery/minzip/Zip.c:996-1018 | after the first mismatch that follows a match nothing matches |
| `ZipExtract.PlanComplete` | bootable/recovery/minzip/Zip.c:984-1022 | every entry below the directory is in the plan |
| `ZipExtract.PlanSound` | bootable/recovery/minzip/Zip.c:984-1022 | the plan holds only such entries, in order, each with its target path |
| `ZipExtract.ExtractRecursive` | bootable/recovery/minzip/Zip.c:930-1034 | stopping early loses nothing: without a failing step the entries processed are the whole plan, with one they end at it |
| `Eocd.MarkersApart` | bootable/recovery/verifier.c:123-127 | two end markers cannot overlap, so starting the scan four bytes in is enough |
| `Eocd.FindEocd` | bootable/recovery/minzip/Zip.c:212-226 | the backward scan finds the last marker that leaves room for a record, or there is none |
| `Eocd.LocateEocd` | bootable/recovery/verifier.c:51-135 | accepts if and only if the footer is well-formed and the record it points at carries the last marker of the file |
| `Eocd.SignedMeans` | bootable/recovery/verifier.c:42-135 | in a file built from a record, a comment and footer numbers the record is found there and nowhere else, if and only if a signature fits |
| `Eocd.LocateSigned` | bootable/recovery/verifier.c:51-135 | the offset and signed length for such a file, or refusal |
| `Eocd.ScanAgrees` | bootable/recovery/verifier.c:123-135 | for an accepted file the last marker minzip can find is the record of the verifier and no other |
| `Eocd.VerifyThenOpen` | bootable/recovery/verifier.c:72-135 | minzip reads the record the verifier used; signed part, size field and comment make up the file |
| `Eocd.HashSigned` | bootable/recovery/verifier.c:148-169 | the digest is fed exactly the signed part |
| `Mtd.WriteContext.WriteBlock` | bootable/recovery/mtdutils/mtdutils.c:406-469 | the block goes to the next good block and reads back after the earlier ones; failure means the good blocks are used up |
| `Mtd.WriteContext.WriteData` | bootable/recovery/mtdutils/mtdutils.c:471-498 | the stream grows by exactly the data, however it is buffered; failure means it exceeds the good blocks |
| `Mtd.WriteContext.EraseBlocks` | bootable/recovery/mtdutils/mtdutils.c:500-539 | pending data is padded with zeros to a block, the stream is otherwise unchanged, and the requested good blocks after it are erased |
| `Mtd.WriteContext.Close` | bootable/recovery/mtdutils/mtdutils.c:541-551 | what was written stays, padded; failure means the padded stream exceeds the good blocks |
| `Mtd.WriteContext.FindWriteStart` | bootable/recovery/mtdutils/mtdutils.c:556-566 | the first block at or after a position not noted as bad |
| `Mtd.ReadContext.ReadBlock` | bootable/recovery/mtdutils/mtdutils.c:282-326 | delivers the next block that is neither bad nor all zero, or there is none |
| `Mtd.ReadContext.ReadData` | bootable/recovery/mtdutils/mtdutils.c:328-359 | delivers the next bytes in order; failure means fewer are left |
| `Mtd.WriteAll` | bootable/recovery/mtdutils/mtdutils.c:471-551 | any split into writes then a close succeeds if and only if the good blocks can hold the padded stream, and leaves it readable |
| `Mtd.ReadAll` | bootable/recovery/mtdutils/mtdutils.c:328-359 | any split into reads delivers a prefix of what is readable, as long as asked if there is enough |
| `Mtd.WriteThenRead` | bootable/recovery/mtdutils/mtdutils.c:328-551 | for every bad-block map, split of writes and split of reads: the write succeeds if and only if there are enough good blocks, and reads back as the data plus zero padding |
| `Mtd.OnlyNoZeroBlock` | bootable/recovery/mtdutils/mtdutils.c:310-318 | the condition on all-zero blocks is exact: nothing holding one is ever read back |
| `BootMessage.RereadExact` | bootable/recovery/recovery.c:185-230 | arguments written into the 1024-byte field are read back the same if and only if each is non-empty and newline-free, all but the last newline fits, and there are fewer than 100 |
| `BootMessage.DecodedFits` | bootable/recovery/recovery.c:185-230 | whatever the field holds, arguments read from it survive being written back |
| `BootMessage.StrlcatReads` | bootable/recovery/recovery.c:223-229 | appending with strlcat adds the text cut to the room left |
| `BootMessage.StoreArgs` | bootable/recovery/recovery.c:223-229 | the loop writes one argument per line, cut once at the end of the field |
| `BootMessage.TextMeans` | bootable/recovery/recovery.c:223-229 | the text written is the title and each argument, a newline after each |
| `Recovery.ReadMessage` | bootable/recovery/recovery.c:185-200 | the strtok loop returns the lines after the title, at most 99 |
| `Recovery.ReadCommandFile` | bootable/recovery/recovery.c:203-219 | the fgets loop returns one stripped argument per line, and dies on a blank line |
| `Recovery.StripMeans` | bootable/recovery/recovery.c:214-216 | a line loses its end, newline or carriage return and newline, and nothing else |
| `Recovery.FileMeans` | bootable/recovery/recovery.c:203-219 | a file of one-line arguments, the last perhaps without an end of line, gives exactly those arguments |
| `Recovery.FetchArgs` | bootable/recovery/recovery.c:172-231 | the precedence of the three sources; the message to store carries the arguments if and only if they fit |
| `Recovery.RestartTakesSame` | bootable/recovery/recovery.c:185-231 | a restart takes the stored arguments whatever the command file holds, and storing them again loses nothing |
| `Recovery.FaultExact` | bootable/recovery/recovery.c:173-219 | after a failed read of the message the arguments are kept if and only if the command file still gives them |
| `Recovery.FaultForgets` | bootable/recovery/recovery.c:173-175 | so a failed read with the command file gone drops the arguments: the limit of the promise |
| `Recovery.FinishRecovery` | bootable/recovery/recovery.c:247-292 | clears the message only when the work has been attempted; where stores work it is cleared first and then the command file removed |
| `Recovery.ClearedTakesNothing` | bootable/recovery/recovery.c:277-287 | after that the next boot has no arguments and the bootloader does not start recovery |
| `Recovery.PromptAndWait` | bootable/recovery/recovery.c:465-527 | no choice of the menu breaks the promise; each is served, after the message was cleared for it, until one is to reboot |
| `Recovery.Execute` | bootable/recovery/recovery.c:590-603 | the commanded effects are attempted, exactly these and in order, and the status is success if and only if there was a command and all of them succeeded |
| `Recovery.TakeArgs` | bootable/recovery/recovery.c:172-231 | the arguments of message or command file are taken and stored; each state on the way still gives them |
| `Recovery.WindUp` | bootable/recovery/recovery.c:605-613 | whether or not the menu is shown, message and command file are gone at the end where stores work |
| `Recovery.Boot` | bootable/recovery/recovery.c:537-614 | one boot: arguments in the message, or where stores work in the command file, are taken, stored and dropped only after the work was attempted in this boot, with its status; where stores work they are dropped at its end, and a boot that needs no menu has exactly the effects of taking, storing, working and dropping |
| `Recovery.Reboots` | bootable/recovery/recovery.c:172-292 | any number of boots losing power after any effect: at every moment the arguments are stored or the work was attempted in the boot that dropped them; or they are still to be taken from a command file that was given them |
| `Recovery.RebootsThenDone` | bootable/recovery/recovery.c:537-614 | and one boot let run to its end where stores work has attempted the work, dropped the arguments and left none for the next |
| `Recovery.FactoryReset` | bootable/recovery/recovery.c:593-597 | for a data wipe: both DATA and CACHE formats were attempted between one start and the storing that dropped the message |
| `RilEvent.Later` | hardware/ril/libril/ril_event.cpp:37-47 | the sum is normal and is the sum in microseconds |
| `RilEvent.AfterIsLater` | hardware/ril/libril/ril_event.cpp:49-54 | the comparison is that of microseconds |
| `RilEvent.AddToList` | hardware/ril/libril/ril_event.cpp:116-123 | the list stays a circular doubly linked list with the event before the given node; a disjoint list is untouched |
| `RilEvent.RemoveFromList` | hardware/ril/libril/ril_event.cpp:125-134 | the list stays well-formed without the event; a disjoint list is untouched |
| `RilEvent.Queues.constructor` | hardware/ril/libril/ril_event.cpp:242-250 | two empty well-formed lists |
| `RilEvent.Queues.TimerAdd` | hardware/ril/libril/ril_event.cpp:287-313 | the timer list stays sorted by deadline and gains exactly the event, before any event not due earlier |
| `RilEvent.Queues.ProcessTimeouts` | hardware/ril/libril/ril_event.cpp:159-181 | exactly the expired front of the timer list moves to the end of the pending list, in order |
| `RilEvent.SortedDue` | hardware/ril/libril/ril_event.cpp:159-181 | in a sorted list that front is exactly the events due strictly before now |
| `RilEvent.Queues.FirePending` | hardware/ril/libril/ril_event.cpp:203-214 | each pending event is fired once, in list order, and none is left |
| `RilEvent.Queues.CalcNextTimeout` | hardware/ril/libril/ril_event.cpp:216-239 | the wait ends at the first deadline or at once if that has passed, never after any deadline; no timers means no limit |
| `RilEvent.Queues.Turn` | hardware/ril/libril/ril_event.cpp:345-385 | what fires in a turn is what was pending and then the due timers in order of deadline |
| `RilRun.AddStep` | hardware/ril/libril/ril_event.cpp:287-313 | adding a timer keeps the account of a run: nothing lost, nothing fired early or late, deadlines in order |
| `RilRun.NotWaiting` | hardware/ril/libril/ril_event.cpp:287-313 | an event added again after a turn later than its deadline is not waiting, so it may be linked |
| `RilRun.TickStep` | hardware/ril/libril/ril_event.cpp:159-214 | so does a turn, which fires what is due after everything fired before |
| `RilRun.Run` | hardware/ril/libril/ril_event.cpp:159-313 | over any sequence of additions and turns as time passes, events being added again once they have fired, every timer added fires exactly once or still waits; it fires in the first turn strictly after its deadline, in order of deadline over the whole run, and waits only if no turn came after its deadline |

## Left out

* bzip2, zlib, SHA-1 and RSA themselves; the signature check after the location logic of `verify_file`; whether `verify_file` is called.
* Integer widths beyond what the formats store: sizes are unbounded integers, with files below two to the 63rd and target images below two to the 31st where a field stores them; zip offsets are added without wrap-around, which is exact for files below two to the 31st.
* Zip mode of imgdiff (`ReadZip`, `FindChunkByName`), where entries are paired by name.
* The MTD-target branch of `applypatch` (`applypatch.c:632-643`), `WriteToMTDPartition` and `applypatch_check`.
* malloc failure, logging, file modes and owners, an unreadable `/proc` in `freecache.c`, ECC errors and erase failures in `mtdutils.c`, and the retry of a block whose read-back differs.
* Flash writes of the boot message that are torn by a power loss: `set_bootloader_message` either happens or does not.
* Log and intent files, menus, the socket server, `install_package` and option parsing in `recovery.c`; `getopt_long` is a function from arguments to options, and an installation is one effect that does not touch the boot message.
* The return value of `mzExtractRecursive`, where an inner variable shadows the outer one, and what extracting one entry does to the disk.
* The watch table of `ril_event.cpp` (`ril_event_add`, `ril_event_del`, `removeWatch`, `processReadReadies`), locking, and callbacks that call back into the queues while `firePending` runs.
- ApplyPatch.ApplyPatch: a patch that drives bspatch.c or imgpatch.c outside its buffers may do anything, so nothing is promised for such a patch. A lost write is one of a normal chunk of an image patch, whose result `imgpatch.c:80` ignores.
- ApplyPatch.RunsWithCrashes: source and target are regular files, their names not starting with `MTD:`, outside the two directories that may be emptied, and the source is not named like the output.
- BsPatch.ApplyBSDiffPatchMem: a bzip2 stream that ends without its end mark makes `FillBuffer` loop forever (`bspatch.c:84-98`), since BZ_OK comes back without progress; here the patch is reported corrupt.
- FreeCache.EliminateOpenFiles: what the walk over `/proc` finds open is a given set of names.
- ImgPatch.ApplyImagePatch: the sink takes whatever it is given; failing sinks and the running hash are in `ApplyPatch.WriteRun`.
- Mtd.ReadContext.ReadData: returns the bytes instead of filling the buffer of the caller, and positions are block numbers instead of byte offsets.
- Mtd.WriteContext.WriteBlock: assumes that blocks not marked bad erase, program and verify, so the second try and the skipping of a block that fails twice do not occur; and that the ECC counters stay still.
- Recovery.PromptAndWait: the update script of the menu is taken to leave the boot message and the command file alone.
- RilEvent.Queues.Turn: no descriptor is readable in the turn.
- Recovery.Reboots: assumes that reading the boot message succeeds; `Recovery.FaultExact` says what happens otherwise.
- MtdLoad.LoadContents: starts from the pairs already split from the file name, and takes the order of equal sizes after qsort as given.
- ZipArchive.Parse: characters of a name hash as unsigned; the index does not depend on it.
- OtaUpdate.UpdateFile: assumes that nothing else has the digest of the old file, since applypatch would patch that too.
- RilEvent.Queues.FirePending: the callback itself is not run; the sequence returned is the order of the calls.
- HashTable.HashTable.Lookup: the compare function is equality of a key, and the hash is a function of the key, as in every caller.
