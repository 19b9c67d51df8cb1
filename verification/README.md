# Duplicate and near-duplicate file finder — a Dafny model

This project models the comparison core of a small C++ tool. The tool compares two
directories of files and reports three things:

- pairs of files that are **equal**: same byte size and same SHA-1 digest;
- pairs that are **similar**: the size ratio reaches a threshold in (0, 1], and a
  byte scan does not reject the pair;
- the **unique** files of each directory, meaning those in no equal and no similar pair.

The whole core lives in `compare_files.hpp`. The model has four modules, one file each:

- `file_data.dfy` (`FileData`): the per-file record (`struct file_data`) and `equals`.
  A file is a path, a size, a 20-byte digest and its bytes (`seq<bv8>`). The SHA-1
  routine is a function parameter `sha1`. A record built by `Fingerprint` satisfies
  `Fingerprinted(f, sha1)`. The driver's sticky `is_similar_or_equal` flag is kept
  beside the record, in `Entry(file, matched)`.
- `similarity.dfy` (`Similarity`): `similar`, split into a size-only `Gate` and a byte
  `Scan`. The scan itself is built from `Find` (`std::find`) and `Advance` (the run
  loop).
- `size_order.dfy` (`SizeOrder`): the size order the driver prunes with.
  - `FirstEligible` is `std::lower_bound` (`strict == false`) and `std::upper_bound`
    (`strict == true`) by size.
  - `SortBySize` is the sort.
  - `NextSize` is `ceil(size / threshold)`.
- `compare.dfy` (`Compare`): the driver `compare_files` without its directory reads
  and printing.
  - `ExactPass` is the all-pairs exact pass.
  - `PrunedPass` is one similarity pass. It is used forward (`lower_bound` into the
    second collection) and backward (`upper_bound` into the first).
  - `Unmatched` lists the unique files.
  - `CompareFiles` chains the stages and states the result in terms of the two input
    collections alone.

The scan loop of `similar` (compare_files.hpp:75-93) moves an iterator past the end of
its buffer in two situations:

- line 90 runs `++pos` after the inner `break` fired because `pos` reached the end;
- line 75 runs `++it` after `it` has already reached the end.

The model reads the loop with explicit bounds:

- a run advances both cursors on equal bytes and only the cursor in the larger buffer
  on a mismatch;
- a run stops as soon as either cursor reaches its end;
- when the smaller buffer is used up, the scan accepts;
- when only the larger buffer is used up, the outer `++it` skips one byte of the smaller
  buffer, and the next byte is searched again from the start of the larger buffer, as
  `std::find(other_buffer.begin(), …)` does.

Behaviours of the code the model keeps:

- `equals` never re-reads or compares the content. It decides from size and digest
  alone, so a digest collision makes two different files equal
  (`EqualsIgnoresContent`).
- Each `std::find` searches the whole larger buffer from its start. A byte of the
  smaller buffer that follows a run which used up the larger buffer is skipped without
  being searched (`ScanSkipsByteAfterExhaustedRun`).
- Files are not de-duplicated by name. The `name` field is computed but never read.
- A file may be both in an equal pair and in a similar pair, because the similarity
  passes do not skip flagged files (`EqualPairAlsoSimilar`).
- Within the size-sorted collections, no pair of positions is recorded twice. Each pass
  visits a pair once, and `lower_bound` and `upper_bound` split the cross pairs between
  the two passes (`PassesSplitCrossPairs`, `PositionsDistinct`).

## Model

| member | source | states |
|---|---|---|
| FileData.Fingerprint | compare_files.hpp:20-37 | a record built from the bytes read carries their number as its size and `sha1` of them as its digest, so equals accepts it against every record fingerprinted from the same bytes |
| FileData.DigestsAgreeFrom | compare_files.hpp:47-51 | the digest loop answers true exactly when every digest byte from position i to 19 agrees |
| FileData.Equals | compare_files.hpp:43-53 | equals is true exactly when the sizes agree and all 20 digest bytes agree; it is false whenever the sizes differ |
| FileData.EqualsReflexive | compare_files.hpp:43-53 | every record equals itself |
| FileData.EqualsSymmetric | compare_files.hpp:43-53 | equals gives the same answer in both argument orders |
| FileData.SameContentEquals | compare_files.hpp:43-53 | two records fingerprinted from the same bytes with the same digest function are equal |
| FileData.EqualsIgnoresContent | compare_files.hpp:43-53 | under a colliding digest function, two records with different bytes are still equal: the content is never compared |
| Similarity.FindFrom | compare_files.hpp:76 | the search from index j returns the first index at or after j that holds the byte, or none exactly when no such index exists |
| Similarity.Find | compare_files.hpp:76 | std::find over the whole larger buffer fails exactly when the byte does not occur in it, and otherwise returns its first occurrence |
| Similarity.Advance | compare_files.hpp:80-91 | the run stops inside the smaller buffer, and it never passes more bytes of the smaller buffer than the larger one has left; where it stops is pinned down by `AdvanceLongest` |
| Similarity.GreedyMatchSafe | compare_files.hpp:82-89 | matching two equal bytes at once never loses an in-order embedding of the rest of the smaller buffer |
| Similarity.AdvanceFindsEmbedding | compare_files.hpp:80-91 | the run consumes the rest of the smaller buffer exactly when that rest occurs in order, not necessarily contiguously, in the rest of the larger buffer |
| Similarity.EmbedsPrefixIff | compare_files.hpp:80-91 | a stretch small[i..k] occurs in order in the rest of the larger buffer exactly when the run from there gets at least as far as k |
| Similarity.AdvanceLongest | compare_files.hpp:80-91 | the run stops at the end of the longest stretch of the smaller buffer that occurs in order in the rest of the larger one: that stretch embeds, and one byte more does not |
| Similarity.ScanFrom | compare_files.hpp:75-93 | the scan from byte i accepts whenever every remaining byte of the smaller buffer occurs in the larger one; it rejects when byte i does not occur in it; and it accepts when byte i is found and the rest of the smaller buffer occurs in order after that first occurrence. How the scan goes on after byte i's run stops inside the smaller buffer is `ScanContinuesAfterLongestRun` |
| Similarity.ScanContinuesAfterLongestRun | compare_files.hpp:75-93 | when the run after byte i's first occurrence stops at `stop` inside the smaller buffer (the longest stretch that occurs in order, see `AdvanceLongest`), the outer `++it` skips byte `stop` and the scan from i decides exactly as the scan from stop + 1; chaining this step carries the scan through every searched byte |
| Similarity.ScanRejectsAfterLongestRun | compare_files.hpp:75-93 | when the longest stretch after byte i that occurs in order after byte i's first occurrence ends at `stop` (see `AdvanceLongest`), byte `stop` is skipped and byte stop + 1 is searched; if that byte is absent from the larger buffer, the scan rejects (lines 76-79) |
| Similarity.ScanSkipsByteAfterExhaustedRun | compare_files.hpp:75-93 | the scan accepts [2, 9, 1] against [1, 2, 3] although 9 is absent: the run on 2 uses up the larger buffer and the outer step skips the 9 (lines 90, 75) |
| Similarity.ScanRejectsLaterAbsentByte | compare_files.hpp:75-93 | the scan rejects [1, 9, 9] against [1] although the first byte is present: the second 9 is searched and not found (lines 76-79) |
| Similarity.ScanOwnBytes | compare_files.hpp:75-93 | a buffer scanned against itself is accepted |
| Similarity.Scan | compare_files.hpp:75-93 | the scan accepts when every byte of the smaller buffer occurs in the larger one, and rejects when its first byte does not; `ScanContinuesAfterLongestRun` at i = 0, chained, reduces it to the scan from each later searched byte, so any searched byte that is absent rejects |
| Similarity.Gate | compare_files.hpp:66-71 | the size gate passes exactly when the larger size is positive and size >= threshold * other size; when it passes, it carries the score size / other size, which is at least the threshold |
| Similarity.Similar | compare_files.hpp:63-96 | similar, for a receiver no larger than its argument: a gate rejection is final; an acceptance is exactly a gate acceptance whose scan also accepts, and it reports the gate's score unchanged |
| Similarity.EmptyOtherNeverSimilar | compare_files.hpp:66-68 | an empty larger file is never similar, whatever the threshold |
| Similarity.RatioBelowThresholdRejects | compare_files.hpp:69-71 | a size ratio below the threshold rejects, whatever either file contains |
| Similarity.FirstByteAbsentRejects | compare_files.hpp:75-79 | if the first byte of the smaller file occurs nowhere in the larger one, similar rejects |
| Similarity.FullThresholdNeedsSameSize | compare_files.hpp:69-71 | at threshold 1, only files of the same size can be similar |
| Similarity.ScoreIgnoresContent | compare_files.hpp:94-95 | two accepted pairs with the same sizes report the same similarity, whatever their bytes |
| Similarity.SameContentSimilar | compare_files.hpp:63-96 | two non-empty files with the same bytes are similar with score 1 under every threshold in (0, 1] |
| SizeOrder.EligibleSplit | compare_files.hpp:137-164 | for every pair of sizes, a first-collection file of size a and a second-collection file of size b are on the lower_bound side of the forward pass (comparator at line 139) exactly when they are not on the upper_bound side of the backward pass (comparator at line 163) |
| SizeOrder.FirstEligible | compare_files.hpp:137-140 | on a size-sorted sequence, the binary search returns the index that splits it into candidates before the bound and candidates past it: sizes below s and sizes >= s for lower_bound, or sizes <= s and sizes > s for upper_bound (lines 161-164); `Eligible` is the side test, the negated comparator `file.size < size` of line 139 or the comparator `size < file.size` of line 163 |
| SizeOrder.Ceil | compare_files.hpp:135 | the ceiling is the least integer not below its argument |
| SizeOrder.NextSize | compare_files.hpp:133-135 | next_size is the least integer not below size / threshold |
| SizeOrder.BeyondNextSizeFailsGate | compare_files.hpp:142-145 | a candidate larger than next_size fails the ratio gate, so the break drops no pair that similar would accept |
| SizeOrder.Insert | compare_files.hpp:126-131 | inserting one entry gives the old entries plus the new one, as a multiset |
| SizeOrder.InsertKeepsOrder | compare_files.hpp:126-131 | inserting into a size-sorted sequence keeps it sorted |
| SizeOrder.SortBySize | compare_files.hpp:126-131 | the sort returns a permutation of its input that is sorted by size |
| Compare.RowPairsInOrder | compare_files.hpp:117-123 | the reference list of one row holds each file j equal to file i exactly once, in increasing j |
| Compare.EqualIndexPairsInOrder | compare_files.hpp:116-124 | the reference list of the exact pass holds every equal cross pair exactly once, in nested-loop order |
| Compare.SameMembersInOrder | compare_files.hpp:116-124 | two pair lists in strict nested-loop order with the same members are the same list, so the exact pass's list is the reference list |
| Compare.ExactRow | compare_files.hpp:117-123 | one row of the exact pass records (i, j) exactly for the files j equal to file i, in increasing j; it sets file i's flag exactly when such a j exists, sets the flag of each such j, and leaves every other flag and every file as it was |
| Compare.ExactStep | compare_files.hpp:116-124 | each finished row extends the exact pass's state: pairs in nested-loop order, and flags set exactly for files with an equal partner among the rows done |
| Compare.ExactPass | compare_files.hpp:116-124 | the exact pass records exactly the cross pairs that are equal, in nested-loop order, and its list is the reference list `EqualIndexPairs`; each flag is set exactly when its file equals some file of the other collection |
| Compare.PrunedTailRejects | compare_files.hpp:142-145 | in a size-sorted candidate sequence, once one candidate exceeds next_size, no candidate from it on is accepted |
| Compare.ProbeFinish | compare_files.hpp:142-153 | when the candidate loop stops, it has recorded exactly the accepted candidates, and it has flagged exactly the accepted candidates |
| Compare.Probe | compare_files.hpp:133-153 | one receiver's candidate loop records exactly the accepted pairs, each with the score similar reports, in candidate order; it sets the receiver's flag exactly when some candidate is accepted and sets the flag of each accepted candidate; set flags stay set |
| Compare.PassStep | compare_files.hpp:132-154 | each receiver's probe extends the pass's state: hits in loop order, and flags set exactly for files in an accepted pair among the receivers done |
| Compare.PrunedPass | compare_files.hpp:132-177 | a whole pass records exactly the pairs (receiver, eligible candidate) that similar accepts, in loop order; afterwards a flag is set exactly when it was set before or its file is in an accepted pair, and no file moves |
| Compare.UnmatchedInSizeOrder | compare_files.hpp:189-201 | the unique files of a size-sorted collection are listed in size order |
| Compare.Unmatched | compare_files.hpp:189-201 | a file is listed as unique exactly when some entry holds it with its flag clear |
| Compare.UnmatchedPositions | compare_files.hpp:189-201 | the unique listing takes exactly the unflagged positions, each once, in collection order |
| Compare.UnmatchedCount | compare_files.hpp:189-201 | a file whose entries are unflagged is listed as often as it occurs, and a flagged one never |
| Compare.PermutedFiles | compare_files.hpp:126-131 | sorting entries keeps the files they carry, counted with multiplicity |
| Compare.PassesSplitCrossPairs | compare_files.hpp:137-164 | no cross pair is accepted by both the lower_bound pass and the upper_bound pass; a pair is accepted by one of them exactly when similar accepts it with the smaller file as receiver (the first collection's file on a tie), with the same score |
| Compare.SortKeepsFiles | compare_files.hpp:126-131 | sorting keeps exactly the files of the collection |
| Compare.ExactFlagsSurviveSort | compare_files.hpp:120-131 | after the sort, each flag still records whether its own file has an equal partner |
| Compare.ExactFlagsArePartners | compare_files.hpp:116-124 | the exact pass's flags, restated per file: set exactly when the file equals some file of the other collection |
| Compare.SortedSidePrepared | compare_files.hpp:126-131 | a sorted side holds exactly the collection's files, with the same multiplicities, in size order, with its equality flags intact |
| Compare.FirstSideMatched | compare_files.hpp:132-177 | a file of the first collection has an equal or similar partner exactly when it has an equal partner, or the forward pass accepts it as receiver, or the backward pass accepts it as candidate |
| Compare.SecondSideMatched | compare_files.hpp:132-177 | the same for a file of the second collection, with the roles of the passes swapped |
| Compare.ForwardRecordedSound | compare_files.hpp:147-149 | every pair the forward pass records is an accepted cross pair, with the first-collection path first |
| Compare.BackwardRecordedSound | compare_files.hpp:170-172 | every pair the backward pass records is an accepted cross pair, with the first-collection path first, although the receiver came from the second collection |
| Compare.CrossPairsRecorded | compare_files.hpp:132-177 | every accepted cross pair is recorded by one of the two passes |
| Compare.FirstFlagsClassified | compare_files.hpp:150-174 | after both passes, a first-collection flag is set exactly when its file has an equal or similar partner |
| Compare.SecondFlagsClassified | compare_files.hpp:150-174 | after both passes, a second-collection flag is set exactly when its file has an equal or similar partner |
| Compare.PassesListPairs | compare_files.hpp:132-177 | the two passes together record exactly the accepted cross pairs, with the first-collection path first and the score similar reports |
| Compare.PassesClassifyFlags | compare_files.hpp:132-177 | after the two passes, every flag records exactly whether its file has an equal or similar partner in the other collection |
| Compare.SimilarityPasses | compare_files.hpp:132-177 | running the forward and then the backward pass over the sorted collections lists exactly the accepted cross pairs, and leaves each flag set exactly when its file has an equal or similar partner; entry n comes from a pair of sorted positions that it reports, no pair of positions is listed twice, every accepted pair of positions is listed; the list splits at a point m before which are exactly the pairs whose first-collection file is no larger (the forward pass's), in receiver-then-candidate order, and after which are the others (the backward pass's), in its own receiver-then-candidate order |
| Compare.ForwardEntriesSound | compare_files.hpp:147-149 | each forward entry, as `Recorded` lists it, reports the paths of its receiver (first collection, first) and candidate, and their cross verdict |
| Compare.BackwardEntriesSound | compare_files.hpp:170-172 | each backward entry, as `Recorded` lists it, reports the path of its candidate (first collection) first and of its receiver (second collection) second, and their cross verdict |
| Compare.PositionsSound | compare_files.hpp:132-177 | over the joined list, entry n reports the paths and the cross verdict of its pair of positions |
| Compare.PositionsDistinct | compare_files.hpp:137-164 | no pair of positions appears twice in the joined list: each pass visits a pair once, and the passes test disjoint pairs |
| Compare.PositionsComplete | compare_files.hpp:132-177 | every pair of sorted positions with an accepting cross verdict appears in the joined list |
| Compare.PositionsInLoopOrder | compare_files.hpp:132-177 | the forward pass's positions come first, in receiver-then-candidate order, then the backward pass's, ordered by its own receivers |
| Compare.PositionsSplitBySize | compare_files.hpp:137-164 | in the joined position list, entry n is a forward entry exactly when its first-collection file is no larger than its second-collection file |
| Compare.ForwardHitSizes | compare_files.hpp:137-144 | the forward pass accepts only candidates at least as large as their receiver |
| Compare.BackwardHitSizes | compare_files.hpp:161-167 | the backward pass accepts only first-collection candidates strictly larger than their receiver |
| Compare.UniqueFirst | compare_files.hpp:189-194 | the unique files of the first collection are exactly those with no equal and no similar partner, each listed as often as it occurs in the collection, in size order |
| Compare.UniqueSecond | compare_files.hpp:196-201 | the same for the second collection, with the same multiplicities |
| Compare.EqualListed | compare_files.hpp:116-124 | the recorded equal path pairs are exactly the path pairs of equal cross pairs |
| Compare.EqualPaths | compare_files.hpp:116-124 | the reference equal list holds one path pair per equal index pair, in nested-loop order, and its members are exactly the path pairs of equal cross pairs |
| Compare.CompareFiles | compare_files.hpp:105-201 | for a threshold in (0, 1] (main.cpp:16): the equal list is the reference list `EqualPaths`, so each equal cross pair appears once, in nested-loop order; the similar list is exactly the cross pairs that similar accepts with the smaller file as receiver, first-collection path first, with their scores; a file is unique exactly when it has no equal and no similar partner in the other collection, and it is then listed as often as it occurs in its collection; both unique lists are in size order |
| Compare.EqualPairAlsoSimilar | compare_files.hpp:116-154 | two non-empty files fingerprinted from the same bytes are both equal and similar with score 1, so one pair can appear in both lists |

## Left out

- Directory iteration, `file_size` and the `ifstream` reads (compare_files.hpp:22-26,
  55-61, 107-112) are filesystem I/O. The model takes each file as its path and bytes.
  `read_file` returns exactly `size` bytes; this becomes the `FileRecord` invariant.
- The console output (compare_files.hpp:179-201) is formatting. `CompareFiles` returns
  the four lists in an `Outcome` instead of printing them.
- OpenSSL `SHA1` (compare_files.hpp:28) is a foreign call. It is the function parameter
  `sha1`, and a record keeps the digest it was built with.
- IEEE `float` rounding in the ratio test, the score, `size / threshold` and `ceil`
  (compare_files.hpp:69, 94, 134-135, 158-159) is not modelled. Sizes, the threshold
  and their quotients are exact `real`s. With rounding, a pair at the very edge of the
  gate or of `next_size` could be decided differently.
- SizeOrder.NextSize: it is an unbounded `nat`. In the code, converting
  `ceil(size / threshold)` to `size_t` (compare_files.hpp:135, 159) is undefined
  behaviour when the quotient is beyond the range of `size_t`. main.cpp:16 accepts a
  threshold of 1e-20, and a 1000-byte file then gives 1e23. The breaks at
  compare_files.hpp:143 and 166 would then compare against an arbitrary bound, which
  can drop every candidate of that receiver, not only pairs at the edge. The model
  does not cover this case.
- `std::sort` is not stable, and the order it leaves equal-sized files in is not
  modelled. `SortBySize` is an insertion sort. Every driver property is stated for any
  size-sorted permutation, except where the lists come out in sort order.
- Similarity.Advance: the scan's count `count_similar` (compare_files.hpp:80, 83) is
  never read, so it is not kept.
- Similarity.ScanFrom: it models the scan with explicit bounds rather than the
  past-the-end iterator steps at compare_files.hpp:75 and 90, as described above.
- Similarity.Similar: the `assert` at compare_files.hpp:65 is the precondition
  `f.size <= other.size`.
- Compare.CompareFiles: the threshold check of main.cpp:16 is its precondition
  `0 < threshold <= 1`. The rest of main.cpp prompts for input and checks that the
  directories exist, and is not part of this model.
- Compare.CompareFiles: it states the similar list by membership only. That each
  accepted pair is listed once, with the forward pass's pairs first and each pass in
  its loop order, is stated on `SimilarityPasses` over the size-sorted collections,
  because the returned lists carry no positions.
- Compare.Probe: the receiver's flag is set once after the candidate loop, when
  anything was accepted, rather than on every acceptance (compare_files.hpp:150, 173).
  The final flag is the same.
- The `name` field (compare_files.hpp:15, 33) is never read, so records do not carry it.
- generator.cpp writes random test directories and has no comparison logic. It is not
  part of this model. At generator.cpp:94 it writes `similar_buffer` rather than the
  mutated `buffer2`, so the files it means as near copies are identical copies.
