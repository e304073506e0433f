# A verified model of a toy de Bruijn genome assembler

This project models the core of a small genome assembler and proves properties of that model in Dafny.

The C++ assembler (`assembler_model.cpp`) runs these stages:

1. It reads FASTQ records and cleans each read: any character that is not A, T, G or C becomes C.
2. It indexes every k-length window ("k-mer") of every read in a table `hmap`. The table maps each k-mer to the ids of the reads that hold it.
3. It prunes the k-mers held by fewer than `abd` reads.
4. It walks the de Bruijn graph of the remaining k-mers into unitigs. A unitig is a maximal path whose inner k-mers have exactly one successor and one predecessor.
5. It sorts the unitigs by number of reads, then by length.
6. It chains unitigs greedily in that order (`branching`). Each right-end neighbour is scored by the mate pairs it shares with the chain so far. Read ids 2i-1 and 2i form a pair.
7. It outputs the chain headers.

The model also covers the C helpers of the same repository:

- the base codecs of `binning.c`, `bucket_sort.c` and `compressed_trie.c`;
- the rolling minimiser-like signature loop of `binning.c`;
- the counting sort and the rotation in `bucket_sort.c`;
- the bit-packed base pairs and the node-splitting arithmetic of `compressed_trie.c`;
- the cursor string of `cstring.c`;
- the linked-list merge of `llist.c`;
- the contig statistics of `repeat_feature.py` and `create_features.py`: length, average, max/min, N50, L50 and the dot-plot repeat count.

Each file takes the source's own form:

- Loops that update variables are `method`s with invariants.
- The assembler's globals are the fields of a class `Assembly.Assembler`, which its methods modify.
- The arrays of `bucket_sort.c` and `binning.c` stay `array<char>`.
- The linked list is a class of nodes relinked in place.
- The pure helpers are functions, with lemmas about them.

| file | module | models |
|---|---|---|
| assembler_kmers.dfy | KmerTable | cleaning, windows, indexing and pruning of the k-mer table |
| assembler_graph.dfy | DeBruijn | the neighbour loops and the forward and backward walks of `generateUnitigs` |
| assembler_contigs.dfy | Contigs | the contig record and the state the unitig loop of `main` leaves |
| assembler_unitigs.dfy | UnitigLoop | one pass of the unitig loop of `main` |
| assembler_chains.dfy | Chains | `cmp`, mate-pair support, the scoring and commit of `branching`, tips |
| assembler_trace.dfy | Traces | the commits `branching` makes, as a trace of (tail, head) pairs, and its uniqueness |
| assembler.dfy | Assembly | the class holding the globals; `main`, `generateUnitigs`, `tips_removal`, `branching` as methods |
| binning.dfy | Binning | `getval`/`getbp`, `hash_sizes`, the signature loop of `main` |
| bucket_sort.dfy | BucketSort | `get_char_val`/`get_char_bp`, `bucket_sort`, `rotating_sort` |
| compressed_trie.dfy | CompressedTrie | codec, `basepairs` packing, `checkcommon`, `setbps`, `reducebps`, `init` |
| cstring.dfy | CursorString | `init_str`, `erase_str` |
| llist.dfy | LinkedList | `create_node_num`, `create_node_item`, `merge_sorted_list` |
| contig_stats.dfy | ContigStats | the integer contig statistics of both Python scripts |

Where the code and its documentation disagree, the model follows the code:

- A mate of an odd id x is x+1, and a mate of an even id is x-1. This is not "x xor 1": for example, 0's mate is -1.
- k-mers are not canonicalised: a k-mer and its reverse complement are different keys.
- Pruning removes the k-mers with fewer than `abd` ids. Those with exactly `abd` ids stay. The test `rid.size()<abd` compares a `size_t` with an `int`, so `abd` is converted to a 64-bit unsigned value: a negative `abd` becomes 2^64 + abd, and every k-mer is pruned (KmerTable.Scarce, KmerTable.NegativeAbdPrunesAll).
- `create_features.py` repeats `length`, `N50`, `L50`, `read_length_features` and `individual_length` from `repeat_feature.py`, on integers. Each is modelled once; both sources are cited.
- `average_contig_length` differs between the two scripts. `repeat_feature.py` is Python 2, where `/` on two integers is floor division, and that is what ContigStats.AverageContigLength models. `create_features.py` is Python 3, where the same `/` gives a float (see "## Left out").

## Model

| member | source | states |
|---|---|---|
| KmerTable.CleanChar | assembler_model.cpp:458-461 | the cleaned character is always a base, and a base is kept as it is |
| KmerTable.CleanedIsClean | assembler_model.cpp:458-461 | a cleaned read holds only A, T, G, C; every base stays in place; cleaning is idempotent |
| KmerTable.CleanRead | assembler_model.cpp:458-461 | the cleaning loop leaves exactly Cleaned(read), character by character |
| KmerTable.Windows | assembler_model.cpp:462-463 | there are \|read\|-k+1 windows (none for a short read), and window i is read[i..i+k] |
| KmerTable.AddAllKeys | assembler_model.cpp:462-465 | indexing a read adds exactly its windows as keys and loses none |
| KmerTable.AddAllValues | assembler_model.cpp:462-465 | indexing keeps each utgno (0 for a new key) and appends the read id once per occurrence of the k-mer among the windows |
| KmerTable.IndexKeepsShape | assembler_model.cpp:455-472 | after one more read, every key is k long, has a non-empty, non-decreasing id list, and its ids are read numbers |
| KmerTable.IndexAllShape | assembler_model.cpp:455-472 | after all reads, the table has that shape and every key is spelled in bases |
| KmerTable.PrunedShape | assembler_model.cpp:478-486 | pruning keeps exactly the keys that are not scarce (`rid.size()<abd` compared as 64-bit sizes), changes no entry, and keeps the shape |
| KmerTable.ScarceBelowAbd | assembler_model.cpp:480 | for 0 <= abd < 2^64, a k-mer is scarce exactly when it has fewer than abd ids |
| KmerTable.NegativeAbdPrunesAll | assembler_model.cpp:478-486 | a negative 32-bit abd compares as 2^64 + abd, so pruning removes every k-mer |
| DeBruijn.RightOf | assembler_model.cpp:83-87 | the bases, in cmap order, whose right extension of the overlap is a key, and only those |
| DeBruijn.LeftOf | assembler_model.cpp:115-119 | the same for left extensions |
| DeBruijn.PushRight | assembler_model.cpp:83-87 | the successor loop appends exactly RightOf to edg |
| DeBruijn.PushLeft | assembler_model.cpp:94-98 | the predecessor loop appends exactly LeftOf to edg |
| DeBruijn.RidUnionFront | assembler_model.cpp:79-81 | collecting one more k-mer's ids into sid adds exactly those ids |
| DeBruijn.LiveSetShrinks | assembler_model.cpp:82 | clearing the ids of a k-mer that held some shrinks the set of k-mers holding ids, so the walks terminate |
| DeBruijn.ForwardStep | assembler_model.cpp:90-101 | stepping to the single successor, when it holds ids and has one predecessor, extends the unitig by its last base and keeps the walk invariant |
| DeBruijn.BackwardStep | assembler_model.cpp:123-134 | stepping to the single predecessor prepends its first base and keeps the walk invariant |
| DeBruijn.Forward | assembler_model.cpp:76-106 | the forward walk consumes the start k-mer and its successors; the unitig's windows are exactly the consumed k-mers, each held ids, none repeats, consecutive ones are joined, sid is their id union, and the last one cannot be extended |
| DeBruijn.Backward | assembler_model.cpp:107-139 | the backward walk extends the same walk at the front until the first k-mer cannot be extended |
| DeBruijn.Grow | assembler_model.cpp:70-139 | both walks together: a unitig through orig, maximal at both ends, whose windows are the consumed k-mers |
| DeBruijn.WalkKills | assembler_model.cpp:77-82 | after a walk, the k-mers it passed hold no ids, and those that held none still hold none |
| Contigs.BuildStep | assembler_model.cpp:145-150 | appending one more generated unitig keeps every earlier unitig's windows consumed into it, and every consumed k-mer among the windows of its unitig |
| Contigs.ClosedStays | assembler_model.cpp:76-139 | a walk changes no k-mer that holds no ids, so an earlier unitig's closed ends stay closed |
| Contigs.EndsClose | assembler_model.cpp:90-134 | where the newest unitig's walks stopped, an unambiguous neighbour holds no ids and was consumed by that unitig or an earlier one |
| Contigs.CloseStep | assembler_model.cpp:70-152 | one more unitig, stopped where it cannot be extended, keeps every unitig built maximal (Maximal) |
| Contigs.UnitigsAreMaximal | assembler_model.cpp:488-491 | after the unitig loop, the single successor of a unitig's last k-mer, when that has a single predecessor, is a k-mer of the same or an earlier unitig, and the mirror holds at the first k-mer: no unitig stops inside an unambiguous path |
| UnitigLoop.VisitCloses | assembler_model.cpp:488-491 | one pass of the unitig loop keeps the unitigs maximal |
| UnitigLoop.VisitStep | assembler_model.cpp:488-491 | one pass of the unitig loop keeps its state: earlier records unchanged, new records built, hdrst gains exactly the new indices, visited keys hold no ids |
| Assembly.Assembler.IndexRead | assembler_model.cpp:462-466 | the window loop leaves hmap as AddAll of the read's windows under the read id |
| Assembly.Assembler.IndexReads | assembler_model.cpp:454-474 | the read loop leaves hmap == IndexAll(rs, k), in shape, and ctgs holds only the "$" record |
| Assembly.Assembler.CopyAndCollect | assembler_model.cpp:478-483 | hmap2 receives every entry, and the collected keys are exactly the scarce ones (fewer ids than abd, compared as 64-bit sizes) |
| Assembly.Assembler.EraseKeys | assembler_model.cpp:484-485 | erasing the collected keys removes exactly them |
| Assembly.Assembler.Prune | assembler_model.cpp:476-486 | hmap2 is a copy of hmap before pruning, and hmap becomes Pruned(hmap, abd) |
| Assembly.Assembler.GenerateUnitigs | assembler_model.cpp:70-152 | the unitig through orig becomes record \|ctgs\|: its own header, unlinked, in hdrst, with windows exactly the consumed k-mers and unextendable at both ends |
| Assembly.Assembler.BuildUnitigs | assembler_model.cpp:488-491 | afterwards no k-mer holds ids; each key belongs to exactly one new unitig, among whose windows it is; the new unitigs are maximal (Maximal) and are exactly the headers added |
| Assembly.Assembler.CountEnds | assembler_model.cpp:262-268 | r and l count exactly the right and the left extensions of the suffix and the prefix that are keys |
| Assembly.Assembler.TipsRemoval | assembler_model.cpp:257-271 | tip gains exactly the unitigs shorter than 2k with no right or no left neighbour |
| Chains.TipIsDeadEnd | assembler_model.cpp:262-270 | a unitig is a tip iff it is shorter than 2k and either no base extends its prefix to a key on the left, or no base extends its suffix to a key on the right (`l==0 \|\| r==0`) |
| Chains.CmpIsStrictWeakOrder | assembler_model.cpp:64-68 | cmp is irreflexive, asymmetric and transitive; two records are unordered iff they have as many ids and as long a sequence |
| Chains.InsertSorted | assembler_model.cpp:343-345 | inserting the next unitig after those cmp does not put after it keeps the order sorted by cmp |
| Assembly.Assembler.SortUnitigs | assembler_model.cpp:343-345 | the order lists unitigs 1..\|ctgs\|-1 once each, and no unitig comes after one that it compares before |
| Chains.MateIsInvolution | assembler_model.cpp:362-369 | the mate of a mate is the id itself, and no id is its own mate |
| Chains.MatesSize | assembler_model.cpp:361-370 | taking mates is injective, so a set and its mates have the same size |
| Chains.SupportIsSymmetric | assembler_model.cpp:361-370 | the number of ids of A whose mate is in B equals the number of ids of B whose mate is in A |
| Chains.MateCount | assembler_model.cpp:356-370 | the counting loop leaves tpcnt == Support(A, B), the number of ids of A whose mate is in B |
| Chains.BestIsFirstMaximum | assembler_model.cpp:393-396 | the running best is 0 with target 0 iff no score is positive; otherwise it is the greatest score, and its target belongs to the first position that reaches it |
| Chains.OpenChoiceIsBest | assembler_model.cpp:353-399 | the chosen successor is 0 iff no neighbour scores above 0; otherwise it is the first right neighbour of greatest score, it heads a chain (prv 0), is not a tip, and is not the head of the tail's own chain |
| Assembly.Assembler.ChooseSuccessor | assembler_model.cpp:353-399 | the scoring loop leaves mxind == OpenChoice for the tail ind |
| Chains.UnitigsAreLinked | assembler_model.cpp:145-150 | fresh unlinked unitigs after the "$" record form a well-linked record set whose heads are all of 1..\|ctgs\|-1 |
| Chains.LinkJoins | assembler_model.cpp:424-431 | a commit sets ind.nxt = m and m.prv = ind, gives m the header H of ind's chain, appends m's header's sequence and ids to H's, and changes nothing else |
| Chains.LinkKeepsLinked | assembler_model.cpp:424-431 | a commit from a tail to a head keeps nxt and prv inverse and all fields in range, removes m from the heads, and only grows the records |
| Chains.GrownTrans | assembler_model.cpp:424-431 | growth of the records (sequences extended, id sets enlarged, links kept) composes over commits |
| Chains.HeadIsRoot | assembler_model.cpp:350-352 | in a rooted record set, following prv from any unitig ends at its root, which is a chain head |
| Chains.SinglesAreRooted | assembler_model.cpp:343-352 | before any commit, every unitig is the root of its own chain |
| Chains.LinkKeepsRoots | assembler_model.cpp:424-431 | committing a head other than the tail's own root keeps every unitig rooted at a head, with ranks strictly increasing along prv |
| Chains.GrownScorable | assembler_model.cpp:353-370 | growing the records keeps every table target and header in range and every unitig long enough to take its suffix |
| Chains.BuiltIsScorable | assembler_model.cpp:488-495 | the records the unitig stage leaves are linked, their heads are all unitigs, every prv is 0, and every key names a unitig |
| Assembly.Assembler.Commit | assembler_model.cpp:425-431 | the five updates leave ctgs == Link(old ctgs, ind, m), and hdrst loses exactly m's old header |
| Traces.ReplayAppend | assembler_model.cpp:349-433 | replaying two lists of commits one after the other is replaying their concatenation |
| Traces.ExtendedSnoc | assembler_model.cpp:352-433 | committing the choice at the tail a chain of choices reached extends that chain, and the head committed becomes the tail |
| Traces.TracingSnoc | assembler_model.cpp:352-433 | a pass of the extension loop appends its commit to the trace: the records are the longer trace replayed, and the head committed leaves the headers |
| Traces.GreedySnoc | assembler_model.cpp:349-433 | a run made from the records the earlier runs left extends the trace of branching by one unitig of the order |
| Traces.RunIsUnique | assembler_model.cpp:349-433 | from given records, the commits made from a unitig are determined: none if it is passed over, else the choices up to where the loop stops |
| Traces.GreedyIsUnique | assembler_model.cpp:337-434 | branching over a given order from given records has exactly one trace, so a contract stating the records as that trace replayed fixes every link |
| Traces.ExtendLinks | assembler_model.cpp:424-431 | committing a head other than the chain's own after the tail keeps the extension loop's state, with that head as the new tail |
| Traces.ExtendKeeps | assembler_model.cpp:352-433 | the chosen successor heads a chain; committing it after the tail keeps the loop's state, and the head leaves the headers, which shrink |
| Assembly.Assembler.Follow | assembler_model.cpp:424-431 | one commit of the extension loop: the records become the tail linked to the choice, the choice leaves the headers, and the loop's state is kept |
| Assembly.Assembler.Advance | assembler_model.cpp:352-433 | one pass of the extension loop: the commit of the choice is appended to the trace, and the loop's state is kept |
| Assembly.Assembler.Extend | assembler_model.cpp:352-433 | the commits made are exactly Run from the head: each the open choice at the tail the previous one reached, up to a tail that is linked or has no open choice; the records are those commits replayed, the heads linked leave the headers, and the records stay rooted and scorable |
| Assembly.Assembler.Branch | assembler_model.cpp:349-433 | one pass of branching: a unitig that is passed over adds no commits, any other adds its run, and the trace so far still satisfies Greedy |
| Assembly.Assembler.Branching | assembler_model.cpp:337-434 | the commits made are the one trace Greedy allows over the sorted order; the records are that trace replayed on the unitigs, the heads linked leave the headers, and every unitig is rooted at a header (HeadIsRoot) |
| Assembly.Assembler.Output | assembler_model.cpp:435-439 | the headers other than 0 and the tips, in ascending order, each with its chain's sequence |
| Assembly.Assembler.IndexAndPrune | assembler_model.cpp:454-486 | from empty tables: hmap2 holds IndexAll of the reads and hmap its pruned part, every key k bases long with ids |
| Assembly.Assembler.Unitigs | assembler_model.cpp:454-491 | from empty tables: hmap2 is IndexAll of the reads, and the records are maximal unitigs (Built, Maximal) built from exactly the pruned table, which they consume, each its own chain and header |
| Assembly.Assembler.Assemble | assembler_model.cpp:446-495 | from empty tables and the reads rs: hmap2 is IndexAll(rs, k); the unitigs u are built from Pruned(IndexAll(rs, k), abd) and are maximal; branching makes the one Greedy trace over their sorted order, and the records are that trace replayed on u; the output is exactly the non-tip headers left, in ascending order, with their chains' sequences |
| Chains.Choice | assembler_model.cpp:353-399 | (as written) the candidate check does not exclude the head of the tail's own chain |
| Chains.CycleChoosesOwnHead | assembler_model.cpp:358-396 | on a circular unitig ACA with k = 2, the as-written choice is the unitig's own head |
| Chains.CycleDropsChain | assembler_model.cpp:424-431 | committing that choice doubles the sequence to ACAACA and leaves no header, so the unitig is never output; the corrected choice is 0 |
| Binning.CodecRoundTrip | binning.c:11-37 | getval is -1 exactly off T, G, C, A; getbp and getval are mutually inverse on bases and 0..3 |
| Binning.HashSizesAscending | binning.c:39-44 | the hash table sizes strictly increase |
| Binning.RollingScoreIsWindowScore | binning.c:75-79 | the rolling update of score equals the base-4 value of the current four-character buffer, oldest first |
| Binning.BufferStep | binning.c:79-88 | overwriting slot mer_count and advancing it modulo 4 keeps the circular buffer equal to the window |
| Binning.TrackStep | binning.c:80-84 | a strictly greater score moves the recorded position; any other score keeps it, so the first best wins |
| Binning.RollSignature | binning.c:72-89 | the loop leaves max_score, insert_point and the recorded buffer as the first window of greatest score |
| Binning.ReadSignature | binning.c:65-91 | after rotating_sort, the signature is the first best window in read order, or the previous signature rotated again when no window beats -85 |
| Binning.SignatureIsFullWindow | binning.c:72-91 | on a valid read of at least four bases, the signature is the first four-base substring of greatest score |
| Binning.ScoreComparesFirstDifference | binning.c:24-37 | scores order windows by their first differing base, A highest and T lowest |
| BucketSort.CodecRoundTrip | bucket_sort.c:5-31 | get_char_val is -1 exactly off A, C, G, T; the two tables are mutually inverse |
| BucketSort.CountBases | bucket_sort.c:34-39 | buckets[v] is the number of occurrences of base v in string[0..len) |
| BucketSort.WriteRuns | bucket_sort.c:41-47 | string[0..len) becomes buckets[v] copies of each base v, in code order |
| BucketSort.BucketSort | bucket_sort.c:33-48 | the prefix becomes sorted (A < C < G < T) and a permutation of what it held; the rest of the array is untouched |
| BucketSort.StrNCpy | bucket_sort.c:64 | strncpy copies up to the first NUL and pads the rest with NUL |
| BucketSort.RotatingSort | bucket_sort.c:50-66 | string[0..len) becomes StrNCopy of the rotation starting at pointer |
| BucketSort.RotatingSortWithoutNul | bucket_sort.c:50-66 | with no NUL in the string, the result is exactly the rotation |
| BucketSort.RotationPermutes | bucket_sort.c:56-62 | a rotation keeps the multiset of characters |
| BucketSort.RotationIdentity | bucket_sort.c:56-62 | rotating by 0 or by len changes nothing |
| CompressedTrie.CodecRoundTrip | compressed_trie.c:56-88 | getval is -1 exactly off A, T, G, C; getbp and getval are mutually inverse |
| CompressedTrie.PackRoundTrip | compressed_trie.c:15-23 | the byte u and the four 2-bit fields determine each other |
| CompressedTrie.CheckCommon | compressed_trie.c:90-112 | the result is the length of the leading run, at most min(str_len, 4), of characters equal to the node's fields |
| CompressedTrie.SetCheckCommon | compressed_trie.c:90-130 | checking a string against setbps of itself matches its leading bases, up to min(str_len, 4), whatever the uninitialised fields held |
| CompressedTrie.SetCheckRoundTrip | compressed_trie.c:90-130 | on bases only, the whole packed prefix matches |
| CompressedTrie.ReduceBps | compressed_trie.c:132-145 | after m = 1..3 matched bases, field j takes old field j+m; other fields and other m leave the union unchanged |
| CompressedTrie.ReduceCompose | compressed_trie.c:132-145 | dropping a bases and then b more equals dropping a+b at once, on the fields that still hold bases |
| CompressedTrie.SplitKeepsSuffix | compressed_trie.c:160-181 | splitting after m < size matched bases keeps the node's remaining bases, and the string's next base differs from the first of them |
| CompressedTrie.TrieNode.Init | compressed_trie.c:44-54 | a root of size 0, byte 0, four null children and not a leaf |
| CursorString.StrLen | cstring.c:11 | strlen is the index of the first NUL: no NUL before it |
| CursorString.CString.InitStr | cstring.c:6-14 | both pointers at the start, index 0, len and new_len the string's length |
| CursorString.CString.EraseStr | cstring.c:16-22 | as written: returns null and changes nothing when index + offset > len; otherwise applies Erase and returns the record |
| CursorString.EraseAllKeeps | cstring.c:16-22 | any run of successful erases keeps index + new_len == len and never moves ptr |
| CursorString.EraseDrifts | cstring.c:18-19 | as written, two erases of 1 from a string of length 2 leave index 2 but str at 3 |
| CursorString.EraseIntendedTracksIndex | cstring.c:16-22 | with str advanced by offset, str always equals index and the counts stay consistent |
| LinkedList.LNode.Init | llist.c:5-17 | a node with no successor carrying the given payload |
| LinkedList.CreateNodeNum | llist.c:5-10 | a fresh node with a null next and the read id |
| LinkedList.CreateNodeItem | llist.c:12-17 | a fresh node with a null next and the item |
| LinkedList.MergeSorted | llist.c:19-52 | merging two strictly descending id lists gives a strictly descending list holding exactly the ids of both |
| LinkedList.MergeLength | llist.c:31-38 | each shared id appears once: the length is \|a\| + \|b\| less the number of shared ids |
| LinkedList.MergeEmpty | llist.c:44-49 | merging with an empty list, on either side, gives the other list |
| LinkedList.MergeSortedList | llist.c:19-52 | relinks nodes of a and b, allocating none, into one well-formed list whose ids are Merge of theirs: the greater head first, one copy of a common id; every node of a stays in the result, so on a tie the node of b is the one dropped |
| ContigStats.IndividualLength | repeat_feature.py:142-146 | the length of one contig, 0 exactly for the empty contig |
| ContigStats.Lengths | repeat_feature.py:30-36 | the loop builds one entry per contig, its length, in order |
| ContigStats.AverageContigLength | repeat_feature.py:40-46 | the floor of the sum over the count; no value for no contigs |
| ContigStats.AverageBetweenBounds | repeat_feature.py:40-46 | the average lies between the smallest and the largest length |
| ContigStats.ReadLengthFeatures | repeat_feature.py:123-139 | max and min are lengths of the list, bound every length, and min <= max; no value for an empty list |
| ContigStats.DeviationsNonNegative | create_features.py:229-233 | the deviations max - length and length - min are never negative |
| ContigStats.SortDesc | repeat_feature.py:85 | sorted(reverse=True) is descending and a permutation of its input |
| ContigStats.DescendingUnique | repeat_feature.py:85 | two descending lists with the same elements are equal |
| ContigStats.N50 | repeat_feature.py:77-96 | the loop returns N50Of of the lengths |
| ContigStats.N50Defined | create_features.py:71-85 | N50 is defined iff there is at least one contig |
| ContigStats.N50InList | repeat_feature.py:77-96 | N50 is one of the lengths and at most the largest |
| ContigStats.N50IsHalfPoint | repeat_feature.py:87-93 | N50 is the length at the first position, in descending order, where twice the running sum reaches the total |
| ContigStats.N50Permutation | repeat_feature.py:77-96 | N50 depends only on the multiset of lengths, not on the dictionary's order |
| ContigStats.L50 | repeat_feature.py:99-107 | one plus the first position of a contig whose length is the N50; none when N50 is none |
| ContigStats.RunIsMaximal | repeat_feature.py:184-198 | a dot-plot cell holds the length of the longest diagonal run of matches ending there |
| ContigStats.DotplotCount | repeat_feature.py:154-200 | the loop returns the number of diagonal runs of at least window_size matches that stop before the end of the plot |
| ContigStats.ColumnStep | repeat_feature.py:170-198 | processing one cell updates it from its diagonal predecessor, and the two checks count exactly the runs newly stopped |
| ContigStats.DotplotShort | repeat_feature.py:151-200 | a contig no longer than window_size has count 0 |

## Findings

| source | as written | input that shows it | evidently intended | confidence | as-written member | corrected member |
|---|---|---|---|---|---|---|
| cstring.c:18-19 | `str` advances by the new cumulative `index`, not by `offset` | a fresh record of "AC" erased by 1 twice: index 2, str at offset 3, past the NUL | `str` advances by `offset`, so it always sits at `index` | not executed | CursorString.EraseDrifts | CursorString.EraseIntendedTracksIndex |
| assembler_model.cpp:358-396 | a candidate only needs `prv == 0` and not to be a tip, so the head of the tail's own chain qualifies | k = 2, one circular unitig ACA (k-mers AC and CA) covered by mates 1 and 2: it is chosen as its own successor, its sequence doubles to ACAACA, its header leaves `hdrst`, and nothing is output | the head of the tail's own chain is not a candidate | not executed | Chains.CycleDropsChain | Chains.OpenChoiceIsBest |

The model of `branching` (Assembly.Assembler.ChooseSuccessor and the methods built on it) uses the corrected choice. Chains.Choice keeps the choice as written for the counterexample. "## Left out" names each member this affects.

## Left out

- File and console I/O: FASTQ and FASTA parsing and writing, the progress prints, and the `unitigs.fasta`, `contig.fasta` and csv outputs. Reads come in as a sequence of strings, and the output is a sequence of ids and contig strings.
- `make_csv`, `make_csv2` and the k-mer count dump of assembler_model.cpp: they only write reports.
- The TensorFlow branch model `evaluate_model` is commented out. So is the second scoring pass over `hmap2`.
- Assembly.Assembler.ChooseSuccessor: it excludes the head of the tail's own chain (`indd != ctgs[ind].hdr`), a check the source does not make. This is the corrected choice of the second "## Findings" row. Chains.Choice and Chains.CycleDropsChain model the check as written.
- Assembly.Assembler.Extend: its commits are those of the corrected choice (Chains.OpenChoice), not of the choice as written, for the reason in the second "## Findings" row.
- Assembly.Assembler.Advance: its commit is the corrected choice (Chains.OpenChoice), for the reason in the second "## Findings" row.
- Assembly.Assembler.Branch: the run it adds is made of corrected choices, for the reason in the second "## Findings" row.
- Traces.Run: each commit it allows is the corrected choice (Traces.Chooses uses Chains.OpenChoice), for the reason in the second "## Findings" row.
- Traces.Greedy: its runs are Traces.Run, so they are made of corrected choices, for the reason in the second "## Findings" row.
- Assembly.Assembler.Branching: its trace (Traces.Greedy) is made of corrected choices, for the reason in the second "## Findings" row.
- Assembly.Assembler.Assemble: its branching stage uses the corrected choice, for the reason in the second "## Findings" row. Where the source would link a chain to its own head, the model does not.
- KmerTable.Windows, KmerTable.IndexAll, KmerTable.IndexKeepsShape, KmerTable.IndexAllShape, KmerTable.CleanWindows, Assembly.UnitigStage, Assembly.UnitigStageHolds, Assembly.Assembler.IndexRead, Assembly.Assembler.IndexReads, Assembly.Assembler.GenerateUnitigs, Assembly.Assembler.BuildUnitigs, Assembly.Assembler.IndexAndPrune, Assembly.Assembler.Unitigs and Assembly.Assembler.Assemble: they require k >= 1. `main` reads k with `stoi` (assembler_model.cpp:450) and never checks it. With k = 0 the window loop indexes |read|+1 empty windows per read, and, when the empty k-mer survives pruning, generateUnitigs takes `substr(1,k)` of the empty string, which throws `std::out_of_range` and ends the program. With k < 0, `i+k` converts to a huge `size_t` in the loop test, so no window is indexed and nothing is assembled. Neither case is modelled.
- Chains.MateCount: the branch score is the integer mate count. The source divides it by the running float maximum `mx_pairedEnd` and adds an uninitialised `m_score / 5.0`. That line also lacks a semicolon. Floating point and uninitialised values are not modelled.
- The iteration order of the `unordered_map` is left open. The unitig loop visits the keys in an arbitrary order, and every contract holds for any order.
- Assembly.Assembler.SortUnitigs: `std::sort` leaves the order of cmp-equal unitigs unspecified. The model keeps them in index order, and its contract allows any cmp-sorted order.
- `tips_removal` is commented out in `main`. Assembly.Assembler.TipsRemoval is modelled, but Assembly.Assembler.Assemble does not call it, so `tip` stays empty there.
- DeBruijn.Backward: the backward loop's first pass re-consumes the start k-mer, which the forward loop has already emptied. This changes nothing and is left out.
- The insertion of read ids into `sid` one at a time is modelled as set union.
- Linked records are bounded by the model's own invariants. The source's fixed arrays `cntt[100000]` are unused and left out.
- The global `hmap2` copy is modelled, but the commented-out code that reads it is not.
- The zhash table of binning.c (`zhash_set` and the printing loop) is not part of this model. Only the signature computed for each read is.
- Binning.ReadSignature: insert_point is stated as a value in 1..4, not as its exact slot expression.
- The primality of `hash_sizes` is not stated. Only their order is.
- CompressedTrie: `insert`, `printbps` and the trie's `main` are left out. The arithmetic they rely on is modelled instead: codec, setbps, checkcommon, reducebps and the split. The leaf allocation is not modelled.
- CompressedTrie.SetCheckCommon: the uninitialised fields of `setbps` are a parameter `prior`. The compiler's bit-field layout is taken as bp0 in the low bits.
- generate_reads.py (random read sampling) is not part of this model.
- The float `average_contig_length` of create_features.py (Python 3 true division, lines 38-44) and the deviation from it, `Dev_from_avg` (lines 237-243), are left out. The integer average of repeat_feature.py is modelled.
- The Python statistics that need floating point are left out: `N50_feature`, the float average in `read_length_features`, `median`, `coverage` and `read_information`.
- `N90` and `GC_content` of create_features.py are left out. N90 is N50 at 0.9. `GC_content` uses an undefined `total`.
- The unused `sumofLen` accumulator of `dotplot_count` is left out.
- ContigStats.IndividualLength: the print of 1 for an empty contig is not modelled.
- ContigStats: the contigs dictionary is a sequence in iteration order, so duplicate FASTA ids, which would overwrite each other, are not modelled.
- LinkedList.MergeSortedList: `free` of the dropped node on a tie is not modelled. The node is only left out of the result.
