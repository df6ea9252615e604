# Bigram counter — a Dafny model

`bigram_og.c` counts word bigrams (pairs of consecutive words) in a text.
Each word is lower-cased and cut at its first punctuation mark. Each
consecutive pair is then counted in a chained hash table of 1021 buckets,
keyed by the sum of the character codes of both words. The table is then
flattened into an array, bucket by bucket, and the array is
insertion-sorted by non-increasing count.

This project models that pipeline with immutable values:

- a word is a `string`;
- a node is `Bigram(w1, w2, count)`;
- a bucket's linked list is a `Chain` (a `seq<Bigram>`, head first);
- the table is a `seq<Chain>` with one chain per bucket.

It proves what each step promises and what the whole pipeline computes.

Modules, one per stage of the program:

- `Words` (`words.dfy`): `lower_case1` and `remove_punctuation`. The cut is
  given twice: as the longest punctuation-free prefix, and as the C loop
  that stores `'\0'` and re-reads `strlen`. The loop is proved to compute
  the prefix.
- `Hashing` (`hashing.dfy`): `hash_function`, `BUCKETS`.
- `Bigrams` (`bigrams.dfy`): the data model, the table invariant `Valid`,
  the flattening `Flatten`, and the counts read off the flattened nodes
  (`TableTotal`, `TablePairCount`).
- `HashTable` (`hashtable.dfy`): `insert`.
- `Flattening` (`flattening.dfy`): `hash_to_array`.
- `Sorting` (`sorting.dfy`): `insertion_sort`. A functional reference
  (`InsertDesc`, `SortDesc`) mirrors the right-to-left scan with its strict
  `<`. The imperative loops are proved equal to it. Sortedness, permutation
  and stability are proved about the reference.
- `PairWalk` (`pairwalk.dfy`): the read loop of `read_file_and_hash` over a
  given word sequence, and the whole pipeline from words to sorted nodes.

Stability is stated as follows: for every count `c`, the subsequence of
nodes whose count is `c` is the same before and after sorting.

## Model

| member | source | states |
|---|---|---|
| Words.LowerCase1 | bigram_og.c:22-28 | length is kept; each upper-case letter gains 'a' - 'A'; every other character is untouched; no upper-case letter is left |
| Words.LowerCaseIdempotent | bigram_og.c:22-28 | lower-casing twice gives the same word as lower-casing once |
| Words.RemovePunctuation | bigram_og.c:31-37 | the result is a prefix of the word with no `. , ? ! ; :` in it, and the next character, if any, is one of them (the longest such prefix) |
| Words.PunctuationPrefixUnique | bigram_og.c:31-37 | any prefix with those three properties is the cut word, so the characterisation is exact |
| Words.RemovePunctuationLoop | bigram_og.c:31-37 | the C loop (store '\0' at a mark, re-evaluate strlen, continue) yields exactly the longest punctuation-free prefix |
| Words.RemovePunctuationIdempotent | bigram_og.c:31-37 | cutting a cut word changes nothing |
| Words.Normalise | bigram_og.c:117-120 | the word as the loop uses it: no longer than the input, each kept character is the input's character lower-cased, none is upper-case or punctuation, and a shorter result stops at a punctuation mark of the input |
| Words.NormaliseIdempotent | bigram_og.c:117-124 | re-normalising the copied second word on the next pass changes nothing |
| Hashing.CodeSum | bigram_og.c:44-51 | reference definition: the sum of the character codes the two loops accumulate (CodeSumConcat and CodeSumPermutation give its algebra) |
| Hashing.Hash | bigram_og.c:43-54 | the bucket index lies in [0, BUCKETS) |
| Hashing.CodeSumPermutation | bigram_og.c:44-51 | the code sum depends only on the multiset of characters |
| Hashing.HashPermutation | bigram_og.c:43-54 | words whose combined characters are a permutation of each other hash to the same bucket |
| Hashing.HashSymmetric | bigram_og.c:43-54 | swapping the two words keeps the bucket |
| Hashing.HashSumFitsInInt | bigram_og.c:44-51 | for ASCII words of at most 99 characters the int `ascii_sum` stays at most 25146, so it cannot overflow |
| Bigrams.Flatten | bigram_og.c:132-140 | reference definition: the chains joined in bucket order, each from its head (FlattenPlacement and FlattenCover pin every position) |
| Bigrams.IndexOf | bigram_og.c:75-91 | the first chain position holding the pair, with no earlier match; None exactly when no node holds it |
| Bigrams.EmptyTable | bigram_og.c:171-174 | the all-NULL table is valid, has no nodes and a zero total |
| HashTable.InsertChain | bigram_og.c:71-94 | if the pair is in the chain, its first node's count rises by one and nothing else changes; otherwise a count-1 node is appended at the tail |
| HashTable.Insert | bigram_og.c:57-95 | only bucket Hash(w1, w2) changes, as InsertChain does: in-place increment or append at the tail |
| HashTable.InsertChainKeepsChain | bigram_og.c:69-94 | a chain stays in its bucket, keeps positive counts and never holds a pair twice |
| HashTable.InsertKeepsValid | bigram_og.c:69-94 | insert preserves the table invariant (no duplicate pair in a chain, every node in its hash bucket, counts at least 1) |
| HashTable.InsertLeavesOnePair | bigram_og.c:77-93 | afterwards exactly one node of bucket Hash(w1, w2) holds the pair, no node elsewhere does, and its count is the old count plus one, or 1 if the pair was new |
| HashTable.InsertChainCounts | bigram_og.c:77-93 | one insert into a chain adds exactly 1 to its count sum, and only to the inserted pair |
| HashTable.InsertTotal | bigram_og.c:57-95 | the sum of all counts in the table grows by exactly 1 |
| HashTable.InsertPairCount | bigram_og.c:57-95 | the inserted pair's count grows by 1 and every other pair's count is unchanged |
| Flattening.HashToArray | bigram_og.c:129-144 | the array is the table's nodes in bucket order, each chain from its head, and the size is the number of nodes |
| Flattening.FlattenLength | bigram_og.c:129-144 | the flattened array is as long as the sum of the chain lengths |
| Flattening.FlattenPlacement | bigram_og.c:132-140 | node k of bucket b sits at index Offset(b) + k |
| Flattening.FlattenPlacementInjective | bigram_og.c:132-140 | different nodes land at different indices, so none is duplicated or overwritten |
| Flattening.FlattenCover | bigram_og.c:132-140 | every index holds some node of the table, so none is lost and nothing else appears |
| Flattening.ValidFlattenDistinct | bigram_og.c:69-94 | in a valid table no pair is held by two nodes, even across buckets |
| Flattening.ValidNodeCount | bigram_og.c:77-93 | in a valid table each node's count is the table's whole count for its pair |
| Sorting.InsertDesc | bigram_og.c:155-162 | reference definition of one outer pass: the key scanned leftwards past strictly smaller counts (InsertDescAt locates it; InsertDescPermutes, InsertDescSorted and InsertDescWithCount give its properties) |
| Sorting.SortDesc | bigram_og.c:153-163 | reference definition of the whole sort: each element inserted into the sorted prefix before it (SortDescPermutes, SortDescSorted and SortDescStable give its properties) |
| Sorting.InsertDescPermutes | bigram_og.c:155-162 | one outer pass adds the key to the prefix without losing or duplicating nodes |
| Sorting.InsertDescSorted | bigram_og.c:155-162 | one outer pass keeps a non-increasing prefix non-increasing |
| Sorting.InsertDescWithCount | bigram_og.c:158-162 | the strict `<` stops the key after every node with the same count; nodes of other counts keep their order |
| Sorting.SortDescPermutes | bigram_og.c:154-163 | the sorted array is a permutation of the input |
| Sorting.SortDescSorted | bigram_og.c:154-163 | the sorted array is in non-increasing order of count |
| Sorting.SortDescStable | bigram_og.c:154-163 | for every count, the nodes with that count keep their relative order |
| Sorting.InsertDescAt | bigram_og.c:157-161 | the key lands right after the last prefix node whose count is not smaller, with every later node shifted one place |
| Sorting.PlaceFinish | bigram_og.c:162 | storing the key where the scan stopped makes the prefix one insertion longer and leaves the tail alone |
| Sorting.PlaceKey | bigram_og.c:155-162 | the inner shift loop inserts key r[i] into the prefix r[..i] and leaves the rest of the array alone |
| Sorting.InsertionSortArray | bigram_og.c:154-163 | the sorted array is non-increasing in count, a permutation of the input, and stable |
| Sorting.InsertionSort | bigram_og.c:147-165 | the result holds exactly the flattened table's nodes, is non-increasing in count, keeps bucket-then-chain order among equal counts, and its size is the node count |
| PairWalk.Pairs | bigram_og.c:116-124 | one pair per consecutive pair of words, n - 1 for n >= 1 words; pair i is the normalised words i and i + 1 |
| PairWalk.InsertAll | bigram_og.c:116-125 | one insert per pair, in reading order; the table keeps one chain per bucket |
| PairWalk.InsertAllFrame | bigram_og.c:116-125 | a bucket that no inserted pair hashes to is left exactly as it was |
| PairWalk.BuildTable | bigram_og.c:110-125 | the table the read loop leaves, starting from the all-NULL table: one chain per bucket |
| PairWalk.BuildTableShort | bigram_og.c:110-125 | with fewer than two words the loop inserts nothing and every chain is empty |
| PairWalk.InsertAllKeepsValid | bigram_og.c:116-125 | any number of inserts preserves the table invariant |
| PairWalk.InsertAllCounts | bigram_og.c:116-125 | inserting a pair sequence adds its length to the total and, for each pair, the number of times it occurs |
| PairWalk.BuildTableCounts | bigram_og.c:116-125 | the table built from n >= 1 words is valid and its total count is n - 1 |
| PairWalk.BuildTablePairCount | bigram_og.c:116-125 | each pair's count in that table is the number of consecutive normalised word pairs equal to it |
| PairWalk.ReadAndHash | bigram_og.c:110-125 | the read loop builds that table, with the normalised previous word as the first word of each pass; the table is valid and counts one per consecutive pair |
| PairWalk.DistinctPermutation | bigram_og.c:154-163 | reordering the nodes of a table cannot make two of them hold the same pair |
| PairWalk.CountBigrams | bigram_og.c:176-182 | the sorted array has one node per distinct consecutive pair, each carrying that pair's number of occurrences, in non-increasing order of count |

## Left out

- File input in `read_file_and_hash` is left out: `fopen`, the missing-file exit, and the tokenising done by `fscanf("%99s")`. That call splits input at whitespace, and it splits a token longer than 99 characters into several words (the rest of the token is read by the next call). The model takes the word sequence those calls would yield.
- Words are assumed to contain no '\0'. `fscanf("%s")` stores a NUL byte from the input as an ordinary character, but every C loop here stops at `strlen` and `insert` compares with `strcmp`, so C sees such a word only up to its first NUL. The model hashes and compares the whole sequence. For the token "ab\0c", C hashes and compares the word as "ab"; the model does not.
- The empty-file test compares `fscanf`'s result with 0, but an empty file makes `fscanf` return EOF. The message is therefore never printed, and the loop then inserts nothing. The model follows the code: no words give an empty table.
- All `printf` output is left out, including `main`'s top-10 listing. That listing reads `sorted_bigrams[i]` for i < 10 even when fewer bigrams exist.
- `malloc`, `strcpy` and the heap-allocated linked lists are replaced by immutable sequences. The node that `insert` allocates and leaks when the pair already exists has no counterpart.
- The table has `HASH_SIZE` (100000) entries in C, of which only indices below `BUCKETS` are ever filled. The model's table has `BUCKETS` chains. The extra NULL entries that `hash_to_array` visits contribute nothing.
- Hashing.Hash: character codes are non-negative (Dafny `char`). In C, with a signed `char`, every byte at or above 0x80 adds its value minus 256, so the bucket differs from the model's for any word that holds one. If the sum goes negative, the index is negative too. Neither case is modelled.
- `count` is a C `int` and the model uses an unbounded `nat`. Incrementing a count past 2^31 - 1 (`count++` in `insert`) is undefined behaviour in C; the model simply keeps counting.
- Flattening.HashToArray: `main` allocates `sorted_bigrams` with `MAX_BIGRAMS` (10^8) entries and `hash_to_array` stores into it without a bound check, so a table with more nodes would be written past its end. The model's sequence is unbounded, and `HashToArray` returns every node of any table.
- The insertion sort's array is a sequence value updated element by element, not a heap array of node addresses.
