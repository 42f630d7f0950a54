# GeneInsight k-mer index, in Dafny

This project models the analysis core of GeneInsight, a small DNA sequence
analyser:

- **`KMerHashTable`** — an open-addressing hash table from k-mer keys to the
  positions where each k-mer occurs. A k-mer over {A,C,G,T} is packed two bits
  per base, first base most significant. The home slot of a key is
  `key % size`. Probing is linear and wraps around. The table doubles when
  more than 70% of its slots are taken. `build_index` slides a width-K window
  over a genome and skips windows that hold any other character. `query`
  returns the position list of one k-mer. `get_kmer_counts` maps each key
  to the length of its list.
- **`get_sequence_embedding`** — its integer tallies: G/C and A/T
  characters, the rare-k-mer sum and the total k-mer count. Also the
  five-component vector and the guard around its normalisation.
- **`predict_function_from_embedding`** — the three prototype scores, their
  shares of the total, and the verdict ladder over those shares.

Modules:

- `KmerEncoding` — base digits, `Encode`/`Decode` and `EncodeKmer`. The
  64-bit packing loop is written with explicit wrap-around.
- `SlotTable` — the slot array as a value. It holds the probing geometry:
  cyclic distance from the home slot. It holds the invariant `Inv`: the
  slots represent a key → positions map, no stored key has an empty slot on
  its probe path, and the count equals both the number of keys and the
  number of occupied slots. It also has one lemma per kind of slot update.
- `KmerIndex` — class `KmerHashTable`. It keeps an `array<Slot>` and the
  fields `size`, `K` and `uniqueKeysCount`. Each method is proved against
  the abstract map `Contents()`. Most source members are one method each,
  with these exceptions:
  - `base_to_int` and `encode_kmer` are module-level members of
    `KmerEncoding` (`BaseToInt`, `EncodeKmer`).
  - `hash` is `SlotTable.Hash`.
  - `insert_internal` is `InsertInternal`, split over `GrowIfNeeded`,
    `Record`, `FillSlot` and `AppendPosition`.
  - The throwing constructor is also `NewTable`.
  - `get_K` has no member; it is the field `K`.
- `KmerWindows` — what an index of a genome is, independently of the table.
  This is a fold over the windows (`IndexOf`) plus the occurrence list of a
  k-mer (`Occurrences`) and the count map (`Counts`).
- `MapSum` — sums over map values, independent of iteration order.
- `ExtReal` — IEEE double values without rounding: NaN, ±∞ or an exact
  real. Division by zero, `>` with NaN and `sqrt` of a negative follow the
  IEEE rules.
- `Embedding`, `Classifier` — the two free functions of the analyser.
- `Sentinel` — the source's empty-slot marker compared with the model's
  tagged slots.
- `Scenarios` — worked examples on short genomes.

Exceptions become values. `EncodeKmer` returns `Result` with `InvalidBase` or
`LengthMismatch`. `BuildIndex` and `Query` match on that result where the
source catches and ignores the exception. `NewTable` returns `KOutOfRange`
where the constructor throws. The source's "rehash failure" and "Hash table
full" throws are proved unreachable: each is an `assert` that a slot was
found.

Three behaviours of the source that the model keeps:

- The growth check in `insert_internal` uses the count *before* the insert.
  It is the integer test `10 * uniqueKeysCount > 7 * size`, and it also runs
  when the key is already stored. So occupancy is at most 0.7 *before* each
  insert (`GrowIfNeeded`), not after it. A 1-slot table holds one key, 100%
  full.
- Shares of a zero total are not defined as zero. They are IEEE quotients.
  All-zero scores give NaN shares and the no-single-function verdict
  (`ZeroScoresPredictNothing`). Non-zero scores summing to zero give
  infinite shares, and an infinite share wins the dominance test
  (`ZeroTotalCanDominate`).
- The fifth embedding component divides a palindrome count that is never
  incremented. It is 0, or NaN when no k-mer was counted.

## Model

| member | source | states |
|---|---|---|
| KmerEncoding.BaseToInt | dna_analyzer.h:30-38 | A, C, G, T map to the digits 0-3, and the digit maps back to the same base; any other character is InvalidBase |
| KmerEncoding.Encode | dna_analyzer.h:40-47 | the key of a length-n string over {A,C,G,T} is below 4^n |
| KmerEncoding.DecodeEncode | dna_analyzer.h:40-47 | decoding the key of a k-mer with its length gives back the k-mer, so no information is lost by packing |
| KmerEncoding.EncodeDecode | dna_analyzer.h:40-47 | every value below 4^n is the key of exactly the n-base string that decodes from it |
| KmerEncoding.EncodeInjective | dna_analyzer.h:40-47 | two k-mers of the same length with the same key are equal |
| KmerEncoding.ShiftInExtends | dna_analyzer.h:44-45 | with fewer than 32 bases packed, the 64-bit shift-and-or step does not wrap and appends one base to the key |
| KmerEncoding.EncodeKmer | dna_analyzer.h:40-47 | LengthMismatch exactly when the length differs from K, otherwise InvalidBase exactly when a character is outside {A,C,G,T}, otherwise the key of the k-mer |
| KmerEncoding.KeyBelowSentinel | dna_analyzer.h:23 | for K at most 31 no key equals the empty-slot value 2^64 - 1 |
| KmerEncoding.SentinelCollision | dna_analyzer.h:23 | at K = 32 the key of 32 'T's is exactly the empty-slot value 2^64 - 1 |
| SlotTable.Hash | dna_analyzer.h:49 | the home slot lies inside the table |
| SlotTable.ProbeStep | dna_analyzer.h:55 | one probe step advances the distance from the home slot by one and is back at the home slot exactly after size steps |
| SlotTable.AbsentBeforeEmpty | dna_analyzer.h:116-118 | a probe that meets only other keys and then an empty slot proves the key is not stored |
| SlotTable.AbsentWhenAllOthers | dna_analyzer.h:119 | a probe that wraps around the whole table meeting only other keys proves the key is not stored |
| SlotTable.PlaceNew | dna_analyzer.h:84-88 | storing a new key in the empty slot its probe reached adds exactly that entry, keeps the no-gap invariant and adds one to the count |
| SlotTable.ReplacePositions | dna_analyzer.h:88 | changing the list of a stored key changes only that entry and keeps the invariant and the count |
| SlotTable.CountBound | dna_analyzer.h:27 | the number of stored keys never exceeds the number of slots |
| SlotTable.FreeSlot | dna_analyzer.h:83 | a table with fewer keys than slots has an empty slot |
| SlotTable.PrefixStep | dna_analyzer.h:67-75 | reading the slots in order, each full slot adds a key no earlier slot holds, so no key appears in two slots |
| SlotTable.EmptyInv | dna_analyzer.h:94 | a table of empty slots satisfies the invariant and holds nothing |
| KmerIndex.KmerHashTable.constructor | dna_analyzer.h:92-95 | a new table of initialSize empty slots with the given K holds nothing |
| KmerIndex.NewTable | dna_analyzer.h:92-95 | KOutOfRange exactly when K is outside 1..32, otherwise a fresh valid empty table |
| KmerIndex.KmerHashTable.FindSlotForInsert | dna_analyzer.h:51-59 | returns a slot holding the key or an empty slot, with only other keys between the home slot and it; returns -1 only when every slot holds another key |
| KmerIndex.KmerHashTable.Rehash | dna_analyzer.h:61-76 | the new table has newSize slots and exactly the old key → positions map, with the count equal to the occupied slots; "rehash failure" cannot occur |
| KmerIndex.KmerHashTable.PlaceEntry | dna_analyzer.h:68-73 | one entry of the old table goes into the new one under its key and adds one to the count |
| KmerIndex.KmerHashTable.GrowIfNeeded | dna_analyzer.h:79-81 | the size doubles exactly when 10 * count > 7 * size and is unchanged otherwise; the contents are kept, and afterwards count ≤ 0.7 * size |
| KmerIndex.KmerHashTable.InsertInternal | dna_analyzer.h:78-89 | appends pos to the key's list, or stores the key with [pos], after the growth check; nothing else changes; "Hash table full" cannot occur |
| KmerIndex.KmerHashTable.Record | dna_analyzer.h:82-88 | after the growth check: a full slot gets pos appended, an empty slot gets the key with [pos] |
| KmerIndex.KmerHashTable.FillSlot | dna_analyzer.h:84-87 | a new key goes into the empty slot its probe reached; the count goes up by one |
| KmerIndex.KmerHashTable.AppendPosition | dna_analyzer.h:88 | pos is appended to the list of the key stored in the slot |
| KmerIndex.KmerHashTable.BuildIndex | dna_analyzer.h:97-108 | the table's contents are exactly the window fold IndexOf of the genome; a genome shorter than K leaves no keys; the table is rebuilt at the current size and never shrinks |
| KmerIndex.KmerHashTable.Query | dna_analyzer.h:110-123 | the stored position list of the k-mer; empty when its length is not K, when it holds a non-ACGT character, or when it is not stored |
| KmerIndex.KmerHashTable.GetKmerCounts | dna_analyzer.h:125-131 | one entry per stored key, each the length of its position list and at least 1 |
| KmerIndex.KmerHashTable.GetUniqueCount | dna_analyzer.h:134 | the count equals both the number of stored keys and the number of occupied slots |
| KmerWindows.IndexOf | dna_analyzer.h:97-108 | the map from keys to position lists built by sliding a width-K window over the genome, appending each all-ACGT window's offset under its key; every stored list is non-empty |
| KmerWindows.IndexOfStep | dna_analyzer.h:101-106 | one more window appends its offset under its key, or changes nothing when it holds a non-ACGT character |
| KmerWindows.Occurrences | dna_analyzer.h:97-108 | the offsets where a k-mer occurs, strictly increasing, each starting a copy of the k-mer |
| KmerWindows.IndexMatchesOccurrences | dna_analyzer.h:97-123 | the positions indexed under a k-mer's key are exactly its occurrences in the genome, in ascending order |
| KmerWindows.IndexedWindowFound | dna_analyzer.h:97-123 | the offset of every all-ACGT window is among the positions stored under that window's key |
| KmerWindows.IndexEntries | dna_analyzer.h:97-108 | every key of an index is below 4^K and its list is the non-empty occurrence list of the k-mer it decodes to |
| KmerWindows.Counts | dna_analyzer.h:125-131 | the count map has the index's keys and each count is the length of the key's position list |
| KmerWindows.CountsSumToValidWindows | dna_analyzer.h:125-131 | the counts add up to the number of all-ACGT windows of the genome |
| Embedding.BaseCounts | dna_analyzer.cpp:14-17 | the G/C tally is the number of 'G' and 'C' characters, the A/T tally the number of 'A' and 'T'; together at most the length |
| Embedding.CountBases | dna_analyzer.cpp:14-17 | the first loop returns those two tallies |
| Embedding.RareCount | dna_analyzer.cpp:20-23 | rare_count is the sum of the counts below 2 |
| Embedding.TotalKmers | dna_analyzer.cpp:30-31 | total_kmers is the sum of all counts |
| Embedding.RareIsSeenOnce | dna_analyzer.cpp:20-31 | with every count at least 1, rare_count is the number of keys seen once, and it is at most total_kmers |
| Embedding.RawEmbedding | dna_analyzer.cpp:33-37 | the five components before normalisation: G/C share, rare share, A/T share, entropy per key, palindrome share; the G/C and A/T shares are non-negative and add up to at most 1, the rare share lies in [0, 1], and the palindrome share is 0, or NaN when no k-mer was counted |
| Embedding.Normalize | dna_analyzer.cpp:40-43 | each component is divided by the magnitude when the magnitude is above 0; otherwise the vector is unchanged |
| Embedding.NormalizedIsUnit | dna_analyzer.cpp:40-43 | a finite vector with a positive sum of squares comes out with unit length under an exact square root; a zero vector comes out unchanged |
| Embedding.GetSequenceEmbedding | dna_analyzer.cpp:7-46 | the normalised vector of G/C share, rare share, A/T share, entropy per key and palindrome share, built from the tallies above; with no counts the rare share, the entropy per key and the palindrome share are NaN (0/0) and the vector is left unnormalised |
| Embedding.NaNSkipsNormalization | dna_analyzer.cpp:40-43 | a vector with a NaN component has a NaN magnitude, fails the `> 0` guard and is returned unchanged |
| Embedding.SumSquaresScaled | dna_analyzer.cpp:40-43 | dividing every finite component by a positive m divides the sum of squares by m², which is how the normalised vector gets unit length |
| Embedding.PalComponent | dna_analyzer.cpp:27-37 | the palindrome component survives normalisation as 0, or as NaN when no k-mer was counted |
| Classifier.Decide | dna_analyzer.cpp:72-86 | the if/else ladder over the shares; a dominant verdict's share is above 0.60 with no earlier category above 0.60, a mixed verdict's share is above 0.40 and above both others with no share above 0.60, and the fall-through verdict has no share above 0.60 |
| Classifier.DecideMeaning | dna_analyzer.cpp:72-83 | the ladder gives "c dominant" exactly when c's share is above 0.60 and no category tried before c has a share above 0.60; it gives "c mixed" exactly when no share is above 0.60 and c's share is above 0.40 and above both others |
| Classifier.DecideNothing | dna_analyzer.cpp:72-86 | the ladder gives "no single function" exactly when no share is above 0.60 and no share is above 0.40 and above both others |
| Classifier.MixedLeaderUnique | dna_analyzer.cpp:78-83 | at most one category passes its mixed test, so the three mixed branches exclude each other |
| Classifier.Dot | dna_analyzer.cpp:56-61 | a score accumulated from 0.0 over the components, each times its prototype weight; a NaN component makes the score NaN |
| Classifier.FractionsOf | dna_analyzer.cpp:62-65 | each score divided by the left-associated total with IEEE division; a NaN score makes all three shares NaN |
| Classifier.PredictFunction | dna_analyzer.cpp:50-89 | the three scores are the dot products with the prototypes, the fractions their shares of the total, and the verdict the ladder over those |
| Classifier.DotFinite | dna_analyzer.cpp:57-61 | a finite embedding has finite scores |
| Classifier.FractionsSumToOne | dna_analyzer.cpp:62-65 | with finite scores and a non-zero total, the three shares are finite and add up to 1 |
| Classifier.ZeroScoresPredictNothing | dna_analyzer.cpp:62-65 | three zero scores give three NaN shares and the "no single function" verdict |
| Classifier.NaNComponentPredictsNothing | dna_analyzer.cpp:56-86 | an embedding with a NaN component (the palindrome share of a sequence with no k-mer) gives three NaN shares and the "no single function" verdict |
| Classifier.ZeroTotalCanDominate | dna_analyzer.cpp:62-73 | scores 1, -1, 0 sum to zero, give shares +∞, -∞, NaN, and the verdict "ribosomal, dominant" |
| Sentinel.ReadRaw | dna_analyzer.h:54 | a source slot reads as empty exactly when its key is 2^64 - 1 |
| Sentinel.ReadStoredKey | dna_analyzer.h:84-88 | for K at most 31 a stored key's slot reads as full with its list, the same as the tagged slot |
| Sentinel.StoredSentinelReadsEmpty | dna_analyzer.h:84-88 | at K = 32 a slot storing the key of 32 'T's reads as empty |
| Sentinel.RawFill | dna_analyzer.h:82-88 | filling a slot that reads as empty writes the key, adds one to unique_keys_count and appends pos; the slot reads as holding the key unless the key is 2^64 - 1; no other slot reads differently |
| Sentinel.SentinelFillInvisible | dna_analyzer.h:84-88 | at K = 32 filling an empty slot with the key of 32 'T's adds one to the count while every slot reads exactly as before |
| Sentinel.StaleListTakenOver | dna_analyzer.h:82-88 | at K = 32, after the 32-'T' key has been written with offset p into an empty slot, the next key written there holds the list [p, pos], so its query also returns p |
| Sentinel.AllTIndexedAtK32 | dna_analyzer.h:97-108 | with tagged slots, indexing 32 'T's at K = 32 stores offset 0 under the key 2^64 - 1 |
| Scenarios.GcRepeat | dna_analyzer.h:110-123 | in "GCGCGCGCAT" with K = 2, "GC" occurs at 0, 2, 4 and 6 |
| Scenarios.GcRepeatComposition | dna_analyzer.cpp:14-17 | "GCGCGCGCAT" has 8 G/C characters |
| Scenarios.UniformGenome | dna_analyzer.h:97-108 | ten 'A's with K = 3 index one key, "AAA", at offsets 0 to 7 |

## Findings

| source | as written | input that shows it | evidently intended | confidence | as-written member | corrected member |
|---|---|---|---|---|---|---|
| dna_analyzer.h:23 | the empty-slot marker is 2^64 - 1, which is also the key of 32 'T's when K = 32; inserting it bumps unique_keys_count but the slot still reads as empty | K = 32, genome of 32 'T's | a slot marker that no key can equal, so the window is indexed and found | high (not executed) | Sentinel.SentinelFillInvisible | Sentinel.AllTIndexedAtK32 |

The slot keeps the list appended at dna_analyzer.h:88 while it still reads as
empty. The next key whose probe stops at that slot takes it over with that
stale list (`Sentinel.StaleListTakenOver`), so a query for that key also
returns the 32-'T' window's offset.

The model's table tags empty slots (`Slot = Empty | Full(key, positions)`), so
`KmerHashTable` indexes and returns the 32-'T' window like any other. For
K ≤ 31, `Sentinel.ReadStoredKey` shows the two readings agree.

## Left out

- Floating point: scores, shares, the embedding and its normalisation are
  exact reals with IEEE NaN and infinities (`ExtReal`). Rounding is not
  modelled, so the 0.60 and 0.40 thresholds are exact reals.
- Embedding.GetSequenceEmbedding: the entropy is a parameter. It is the
  log2 sum at dna_analyzer.cpp:24-26, which is a library floating-point
  result. The square root is a parameter too. With no counts the loop
  never runs, so the entropy is then required to be 0.0.
- Embedding.NormalizedIsUnit: unit length is proved under an exact
  square root (sqrt(s)² = s, sqrt(s) ≥ 0, sqrt(0) = 0), not under the
  rounded library result.
- Classifier.PredictFunction: the report text with four decimals
  (dna_analyzer.cpp:67-70, 73-85) is not produced. The verdict is a value
  instead of a line of text. The unused `gc` argument is not a parameter.
- 32-bit `int`: `size_ * 2`, offsets and counts are unbounded integers here.
  The source's `int` would overflow only beyond 2^31 windows or slots.
- `get_K` (dna_analyzer.h:133) is a plain field read (`K`).
- The source's empty-slot marker is replaced by a tag (see Findings).
  `KmerHashTable` therefore treats K = 32 like any other K.
- A zero `initial_size`: `NewTable` and the constructor require
  initialSize ≥ 1. The source does not check it, and it would take a
  modulus by zero. Its only callers pass at least 512.
- Characters are bytes: `seq<char>` stands for the `std::string` that the
  window builds from its `QString` with `toStdString()`, which is UTF-8
  (mainwindow.cpp:110, 142). Window offsets and lengths therefore count
  bytes, and a non-ASCII character is several non-ACGT bytes.
- The Qt window (mainwindow.cpp, mainwindow.h) is not part of this model:
  file reading, widgets, message boxes and `calculateGC`. The integer part
  of `calculateGC` is the G/C tally already modelled.
- `std::move` in `rehash` and other ownership details have no counterpart.
  The old slot array is dropped after the copy.
