# Exact DNA pattern matching, modelled in Dafny

This project models the matching core of a small DNA toolkit. The toolkit counts and locates every
exact occurrence of a pattern in a DNA text, with three families of matchers:

- Knuth–Morris–Pratt, driven by its failure (LPS) table;
- Boyer–Moore–Horspool, and two bad-character Boyer–Moore variants;
- bit-parallel Shift-Or over a 64-bit register.

Each family appears in several snapshots of the code:

- the matcher classes under `src/imp/`;
- the counting searches of `src/search_parallel.cpp`;
- the OpenMP programs under `openmp/`;
- the stand-alone `cust_seq.cpp`;
- the `dna_matchers.cpp` library behind `dna_matcher.py`.

Around the matchers sit the algorithm selectors (if-chains over pattern length, GC content, entropy
and repetitiveness), the pattern analysers (longest run, distinct symbols, smallest period), the
string helpers (reverse complement, GC content, upper-casing, the FASTA line filter) and the
sample-position generator of `sample/extract_sample.py`.

Every matcher is held to one specification, `Occurrences.Occ(p, t)`: the ascending list of offsets
`s` with `0 <= s <= |t| - |p|` and `t[s..s+|p|] == p`, overlapping occurrences included. A matcher
that returns positions is proved to return `Occ`. One that counts is proved to return `|Occ|`.

Where a snapshot does something else, the model keeps that code as written and proves what it
actually returns. A counterexample lemma then shows how it differs from `Occ`, and a corrected
version is proved against `Occ` (see "## Findings").

The OpenMP parallel regions are loops over the worker ids that add up the per-worker counts. Each
parallel search is proved equal to its serial counterpart: those of `src/search_parallel.cpp` for
every requested thread count (a count below 1 becomes 1), those of `openmp/` for every `T >= 1`,
and the KMP one of `openmp/KMP.cpp` for non-empty patterns only (see "## Left out"). The one
exception is `openmp/BP.cpp`, which is proved to count at most as many, and to lose matches that
straddle a chunk boundary.

Modules:

- **Shared theory.**
  - `Text` covers bytes and counting.
  - `Occurrences` is the specification and the lemmas about skipping alignments.
  - `BadChar` covers Horspool and bad-character shifts.
  - `Bits` is the 64-bit word, and `ShiftOrBits` is the Shift-Or state invariant.
  - `Borders` covers borders and the failure table.
  - `KmpScan` is one KMP step.
  - `Chunks` and `Shards` cover chunk arithmetic and worker ranges.
  - `PatternShape` covers runs, periods and symbols.
  - `Rules` covers first-match rule chains.
  - `PyStrings` is the Python GC count.
- **One module per source file:**
  - `SearchParallel`, `KmpMatcher`, `BmhMatcher`, `ShiftOrMatcher`, `BioUtils`, `HybridPicker`
    and `FastaReader`;
  - `OmpKmp`, `OmpBm`, `OmpAlgorithmsBm` and `OmpBp`;
  - `CustSeq`, `DnaMatchers` and `DnaMatcherPy`;
  - `Heuristics`, `Controller` and `ExtractSample`.

C++ text is a sequence of bytes (`Text.Bytes`, characters below 256). Python text is a `string`.

## Model

| member | source | states |
|---|---|---|
| Text.ToUpper | src/imp/FastaReader.cpp:19 | C `toupper`: lower-case letters become their upper-case partner, every other byte is unchanged |
| Occurrences.MatchAtSlice | src/imp/BMh.cpp:37-43 | a cell-by-cell match of all `m` cells is exactly an equal slice of the text |
| Occurrences.MatchesInMembers | src/imp/KMPh.cpp:51-53 | the listed offsets are exactly the matching offsets of the range, strictly ascending |
| Occurrences.OccIsOccSet | src/search_parallel.cpp:62-83 | the ascending list and the set of occurrences hold the same offsets, so a count equals the number of occurrences |
| Occurrences.SkipAhead | src/imp/BMh.cpp:44-48 | a shift over alignments that hold no match loses no occurrence |
| Occurrences.MismatchFromRight | src/imp/BMh.cpp:34-39 | the right-to-left comparison stops at the last mismatching cell, and reaches 0 exactly on a match |
| Occurrences.OverlapExamples | src/imp/BMh.cpp:44 | overlapping occurrences count: "AA" occurs in "AAAA" at 0, 1 and 2 |
| BadChar.HorspoolShift | src/search_parallel.cpp:40-46 | the shift lies in [1, m], and it is m exactly when the byte is absent from the first m-1 cells |
| BadChar.HorspoolSkip | src/search_parallel.cpp:76-79 | shifting by the entry of the byte under the last cell jumps over no occurrence |
| BadChar.MismatchSkip | src/imp/BMh.cpp:46-48 | after a mismatch at cell `j`, no alignment before the one that lines up the last earlier copy of the text byte can match |
| BadChar.CreateBadCharTable | src/search_parallel.cpp:40-46 | the 256 entries are the Horspool shifts of the pattern (also `src/imp/BMh.cpp`, `openmp/BM.cpp` and `openmp/algorithms/BM.cpp`) |
| Bits.Shl | src/search_parallel.cpp:97 | `state << 1` moves every bit up one place, drops bit 63 and clears bit 0 |
| Bits.Pow2 | src/imp/BPh.cpp:28 | `1ULL << i` has exactly bit `i` set |
| Bits.TestBit | src/imp/BPh.cpp:34 | `(x & (1ULL << k)) == 0` holds exactly when bit `k` of `x` is clear |
| Bits.ClearBit | src/imp/BPh.cpp:28 | `x & ~(1ULL << i)` clears bit `i` and keeps every other bit |
| ShiftOrBits.MaskOfStep | src/imp/BPh.cpp:25-28 | entering cell `i` clears bit `i` of the mask of `p[i]` and of no other mask |
| ShiftOrBits.StateStep | src/search_parallel.cpp:96-97 | one step keeps the invariant: bit `k` is clear iff `p[..k+1]` ends the text read so far |
| ShiftOrBits.StateMatch | src/search_parallel.cpp:98-99 | bit m-1 is clear exactly when the pattern ends at the current position |
| ShiftOrBits.Report | src/imp/BPh.cpp:34-35 | the test `i >= m-1` and bit m-1 clear holds exactly when an occurrence ends at `i` |
| ShiftOrBits.Step | src/imp/BPh.cpp:32-36 | reading a byte keeps the state invariant and reports exactly the occurrence that ends there |
| Borders.Fallback | src/imp/KMPh.cpp:54-56 | falling back to `lps[j-1]` keeps the longest prefix that still can be extended among the candidates |
| Borders.Reset | src/imp/KMPh.cpp:51-53 | after a full match, `j = lps[m-1]` is the longest proper prefix that ends the text read |
| Borders.BorderFromScan | src/imp/KMPh.cpp:17-30 | scanning the pattern against itself from offset 1 yields the longest proper border |
| KmpScan.Advance | src/search_parallel.cpp:112-113 | after the fall-back loop and the extension, `j` is the longest pattern prefix that ends the text read |
| KmpScan.Step | src/search_parallel.cpp:111-118 | one KMP step reports exactly the occurrence ending at the byte read, and `j` stays below `m` |
| Rules.FirstMatch | src/imp/HybridPicker.cpp:59-80 | the pick of the first rule whose guard holds, or the default when none holds |
| Rules.FirstMatchIsPick | src/imp/HybridPicker.cpp:59-80 | the result is the default or the pick of some rule: a selector is total over its picks |
| Chunks.CeilDiv | src/search_parallel.cpp:136 | `(n + T - 1) / T` chunks of that length cover `n`, and one fewer byte per chunk would not |
| Shards.WorkersPartition | src/search_parallel.cpp:136-138 | every alignment is owned by exactly one worker range `[tid*c, min(n, (tid+1)*c))` |
| Shards.LastWorkerEnds | src/search_parallel.cpp:136-138 | the last worker's range ends at `n`, so the ranges cover `[0, n)` |
| Shards.ShardsDone | src/search_parallel.cpp:133-158 | adding up the matches owned by each worker gives every occurrence |
| Shards.AlignmentsDone | openmp/BM.cpp:53-59 | the alignment ranges of all workers together hold every occurrence |
| PatternShape.RunEndingAt | cust_seq.cpp:325-331 | the run counter: the length of the block of one repeated symbol that ends at `i`, which cannot be extended to the left |
| PatternShape.LongestRunIsLongest | cust_seq.cpp:315-333 | the longest run is at least 1, bounds every uniform block and is attained by one |
| PatternShape.PeriodFrom | cust_seq.cpp:288-298 | the first divisor of `m` from `from` on at most `m/2` that is a period, or `m`; no smaller trial divisor is a period |
| PatternShape.SmallestPeriod | cust_seq.cpp:283-300 | 0 for the empty pattern, else a period that divides `m`, with no smaller dividing period |
| PatternShape.SymbolsBounds | cust_seq.cpp:320-324 | the number of distinct symbols is at most the length, and at least 1 for a non-empty pattern |
| PatternShape.SymbolsPrefixCount | cust_seq.cpp:321-324 | a new symbol adds one to the distinct count, a repeated one adds nothing |
| PyStrings.GcContent | sample/extract_sample.py:47-52 | 0.0 for an empty string, else the fraction of G and C characters, in [0, 1] (also `openmp/test/controller.py:16`) |
| PyStrings.GcCountConcat | sample/extract_sample.py:47-52 | the G+C count of a concatenation is the sum of the parts' counts |
| PyStrings.GcContentConcat | sample/extract_sample.py:47-52 | the GC content of a concatenation is the length-weighted mean of the parts' contents |
| PyStrings.GcAboveThreeFifths | dna_matcher.py:71-80 | the float test `gc > 0.6` holds exactly when `5 * (G+C) > 3 * len` |
| SearchParallel.ComputeLps | src/search_parallel.cpp:48-58 | the table holds the longest proper border of every prefix of the pattern |
| SearchParallel.BuildMasks | src/search_parallel.cpp:89-92 | bit `i < m` of mask `c` is clear exactly when `p[i] == c`; every other bit is set (also `openmp/BP.cpp:21-27`) |
| SearchParallel.BmhWorker | src/search_parallel.cpp:141-155 | a Horspool worker counts exactly the occurrences whose alignment it owns |
| SearchParallel.PrimeShiftOr | src/search_parallel.cpp:184-187 | priming on the bytes before the chunk leaves the Shift-Or invariant for the text read so far |
| SearchParallel.ShiftOrWorker | src/search_parallel.cpp:189-197 | a Shift-Or worker counts exactly the occurrences whose start it owns |
| SearchParallel.PrimeKmp | src/search_parallel.cpp:220-225 | priming on at most m-1 bytes leaves `j` the longest proper prefix ending the primed text, so it reports nothing |
| SearchParallel.KmpWorker | src/search_parallel.cpp:227-236 | a KMP worker counts exactly the occurrences whose start it owns |
| SearchParallel.BmhSequential | src/search_parallel.cpp:62-83 | the number of occurrences, overlapping ones included; 0 for an empty pattern or a short text |
| SearchParallel.ShiftOrSequential | src/search_parallel.cpp:85-102 | the number of occurrences for 1 <= m <= 64; 0 for m == 0, a short text or m > 64 |
| SearchParallel.KmpSequential | src/search_parallel.cpp:104-120 | the number of occurrences; 0 for an empty pattern or a short text |
| SearchParallel.EffectiveThreads | src/search_parallel.cpp:127-128 | a thread count below 1 becomes 1, and so does one that would give a worker fewer than `MIN_PER_THREAD` (65536, line 15) bytes |
| SearchParallel.ChunksAreLarge | src/search_parallel.cpp:127-136 | every chunk holds at least 64K bytes |
| SearchParallel.BmhParallel | src/search_parallel.cpp:124-159 | equal to the sequential Horspool count for every requested thread count |
| SearchParallel.ShiftOrParallel | src/search_parallel.cpp:161-201 | equal to the sequential Shift-Or count for every requested thread count |
| SearchParallel.KmpParallel | src/search_parallel.cpp:203-240 | equal to the sequential KMP count for every requested thread count |
| KmpMatcher.ComputeLps | src/imp/KMPh.cpp:11-32 | `lps[q]` is the longest proper border of `p[..q+1]`, so `lps[0] == 0` and `lps[q] <= q` |
| KmpMatcher.ScanStart | src/imp/KMPh.cpp:41-43 | the empty scan state: nothing read, `j == 0`, nothing reported |
| KmpMatcher.ReadNext | src/imp/KMPh.cpp:46-49 | a byte that matches `p[j]` extends the prefix ending the text read |
| KmpMatcher.ReportNext | src/imp/KMPh.cpp:51-53 | at `j == m` the offset `i - m` is an occurrence, and `j = lps[m-1]` resumes correctly |
| KmpMatcher.FallbackNext | src/imp/KMPh.cpp:54-56 | a mismatch with `j > 0` falls back to `lps[j-1] < j` without losing an occurrence |
| KmpMatcher.RestartNext | src/imp/KMPh.cpp:57-59 | a mismatch with `j == 0` moves on one byte without losing an occurrence |
| KmpMatcher.Settle | src/imp/KMPh.cpp:51-60 | the second half of an iteration: it reports iff `j == m`, and either reads a byte or strictly lowers `j`, which is why the scan ends |
| KmpMatcher.Search | src/imp/KMPh.cpp:34-64 | every occurrence in ascending order, overlapping ones included; empty for an empty pattern or a short text (the scan is that of `SearchAll`) |
| KmpMatcher.SearchAll | dna_matchers.cpp:10-43 | every occurrence in ascending order; empty for an empty pattern (also `cust_seq.cpp:157-205`) |
| BmhMatcher.MismatchShift | src/imp/BMh.cpp:46-48 | the shift after a mismatch at `j` is at least 1, and above 1 it is the table entry less `m-1-j` |
| BmhMatcher.MismatchShiftSafe | src/imp/BMh.cpp:46-48 | that shift jumps over no occurrence |
| BmhMatcher.Search | src/imp/BMh.cpp:23-53 | every occurrence in ascending order, overlapping ones included; empty for an empty pattern |
| ShiftOrMatcher.Search | src/imp/BPh.cpp:21-38 | the number of occurrences for 1 <= m <= 64; 0 for m == 0, a short text or m > 64 |
| ShiftOrMatcher.SearchParallel | src/imp/BPh.cpp:45-62 | whatever thread count it is given, the same count as `Search` |
| BioUtils.Complement | include/BioUtils.hpp:14-26 | the base pairing A-T and G-C (both cases) keeps the bases and N, n, and leaves every other byte unchanged |
| BioUtils.ComplementTwice | include/BioUtils.hpp:14-26 | complementing twice gives the byte back |
| BioUtils.RevComp | include/BioUtils.hpp:9-29 | the same length, and cell `k` is the complement of cell `n-1-k` |
| BioUtils.RevCompTwice | include/BioUtils.hpp:9-29 | the reverse complement is an involution |
| BioUtils.RevCompExample | include/BioUtils.hpp:9-29 | the reverse complement of "ATGC" is "GCAT" |
| BioUtils.ReverseComplement | include/BioUtils.hpp:9-29 | the loop builds `RevComp(dna)` |
| BioUtils.GCAtMostBases | include/BioUtils.hpp:62-80 | the G/C count never exceeds the A/C/G/T count |
| BioUtils.GCRatio | include/BioUtils.hpp:62-80 | the ratio lies in [0, 1], and it is 0 when the input holds no base |
| BioUtils.CalculateGCContent | include/BioUtils.hpp:62-80 | case-insensitive (G+C) over (A+C+G+T), 0.0 for no bases |
| BioUtils.OnlyBasesCount | include/BioUtils.hpp:36-45 | only the four upper-case base codes are ever counted |
| BioUtils.Entropy | include/BioUtils.hpp:32-60 | 0.0 when the input holds no base |
| BioUtils.CountBases | include/BioUtils.hpp:36-45 | `counts[c]` is the number of bases that upper-case to code `c`, zero for any non-base code, and `total` is the number of bases |
| BioUtils.CalculateShannonEntropy | include/BioUtils.hpp:32-60 | 0.0 for empty input or input without A/C/G/T, else the entropy of the base frequencies |
| BioUtils.UpperAllTwice | include/BioUtils.hpp:82-86 | upper-casing is idempotent |
| BioUtils.ToUpperCaseDna | include/BioUtils.hpp:82-86 | the same length, and every byte upper-cased |
| FastaReader.Keeps | src/imp/FastaReader.cpp:18-21 | a byte is kept when it is neither `\r` nor `\n` and its upper case is A, C, G, T or N |
| FastaReader.CleanLine | src/imp/FastaReader.cpp:17-22 | the output holds only A, C, G, T and N, and is no longer than the line |
| FastaReader.CleanLineAppend | src/imp/FastaReader.cpp:17-22 | the filter works byte by byte: filtering a concatenation concatenates the results |
| FastaReader.CleanLineByte | src/imp/FastaReader.cpp:18-21 | a byte is kept, upper-cased, exactly when it upper-cases to A, C, G, T or N |
| FastaReader.CleanLineExample | src/imp/FastaReader.cpp:18-21 | "g\r" gives "G", and "nx" gives "N" |
| FastaReader.FastaSeq | src/imp/FastaReader.cpp:15-24 | the sequence holds only A, C, G, T and N |
| FastaReader.FastaSeqAppend | src/imp/FastaReader.cpp:15-24 | the lines' filtered bytes are concatenated in order |
| FastaReader.HeaderIgnored | src/imp/FastaReader.cpp:16 | a header line contributes nothing, wherever it stands |
| FastaReader.ReadSequence | src/imp/FastaReader.cpp:7-25 | the nested loops build `FastaSeq(lines)` |
| HybridPicker.GetAvailableAlgorithms | src/imp/HybridPicker.cpp:83-85 | three distinct names, one for each matcher |
| HybridPicker.CreateMatcher | src/imp/HybridPicker.cpp:11-16 | a matcher exactly for an available name, and the one of that name |
| HybridPicker.CreateMatcherName | src/imp/HybridPicker.cpp:11-16 | each matcher's name creates that matcher |
| HybridPicker.UnknownAlgorithm | src/imp/HybridPicker.cpp:23-24 | the invalid-argument message: the name followed by the three available names |
| HybridPicker.Pick | src/imp/HybridPicker.cpp:22-25 | an unknown name fails with the invalid-argument message before any search (also lines 40-43 and 92-95) |
| HybridPicker.PickAndSearch | src/imp/HybridPicker.cpp:18-27 | fails exactly for an unknown name; otherwise the named matcher's count on the file's sequence |
| HybridPicker.Recommend | src/imp/HybridPicker.cpp:55-81 | always an available name, and "bithiftor" exactly when the length is at most 64 |
| HybridPicker.RecommendFirstMatch | src/imp/HybridPicker.cpp:59-80 | the recommendation is the first of the six rules that holds, in source order |
| HybridPicker.RecommendRepetitive | src/imp/HybridPicker.cpp:66-79 | low entropy gives "kmp" (and, short of the GC rule, so does entropy up to 1.0); entropy above 1.0 gives "bmh" up to length 2000 |
| HybridPicker.RecommendAlgorithm | src/imp/HybridPicker.cpp:55-60 | a function of length, entropy and GC content alone, always an available name |
| HybridPicker.AutoPickAndSearch | src/imp/HybridPicker.cpp:29-34 | never fails, and returns the number of occurrences, whichever matcher is recommended |
| HybridPicker.AutoPickAndSearchParallel | src/imp/HybridPicker.cpp:47-52 | never fails, and runs the recommended matcher |
| OmpKmp.SearchSerial | openmp/KMP.cpp:33-58 | the number of occurrences, overlapping ones included (m >= 1) |
| OmpKmp.Worker | openmp/KMP.cpp:80-99 | a worker counts exactly the occurrences that lie wholly inside its window |
| OmpKmp.WindowStart | openmp/KMP.cpp:71-78 | the window starts `m-1` bytes before the chunk, clipped at 0; worker 0 has no lead-in |
| OmpKmp.WindowEnd | openmp/KMP.cpp:71-78 | the window ends at the chunk end, and at `n` for the last worker |
| OmpKmp.WindowsTile | openmp/KMP.cpp:71-78 | consecutive windows overlap by exactly `m-1` bytes and stay inside the text |
| OmpKmp.WindowAdds | openmp/KMP.cpp:71-101 | the occurrences wholly inside the next window are the next ones in order, none seen twice |
| OmpKmp.Window | openmp/KMP.cpp:71-78 | the bounds a worker computes are `WindowStart` and `WindowEnd` |
| OmpKmp.SearchParallel | openmp/KMP.cpp:61-104 | equal to the serial count for every `T >= 1`, with no ownership filter |
| OmpBm.ScanWindow | openmp/BM.cpp:57-68 | a worker counts exactly the occurrences at its alignments |
| OmpBm.BmhSearchSerial | openmp/BM.cpp:19-39 | the number of occurrences, overlapping ones included; 0 for an empty pattern or a short text (also `openmp/algorithms/BM.cpp:32-52`) |
| OmpBm.AlignmentsPartition | openmp/BM.cpp:53-59 | the worker alignment ranges `[t*c, min(t*c+c-1, n-m)]` are disjoint and cover `[0, n-m]` |
| OmpBm.BmhSearchParallel | openmp/BM.cpp:42-72 | equal to the serial count for every `T >= 1` (also `openmp/algorithms/BM.cpp:55-85`) |
| OmpAlgorithmsBm.LabelLists | openmp/algorithms/BM.cpp:110-112 | 54 label combinations, lengths strictly ascending, GC contents strictly between 0 and 1, entropies strictly between 0 and 2 bits |
| OmpAlgorithmsBm.MetadataIndex | openmp/algorithms/BM.cpp:133-135 | the three list indices are always in range |
| OmpAlgorithmsBm.MetadataDigits | openmp/algorithms/BM.cpp:133-135 | below 54 the index is read back from its three digits |
| OmpAlgorithmsBm.MetadataInjective | openmp/algorithms/BM.cpp:133-135 | two indices below 54 with the same triple are equal |
| OmpAlgorithmsBm.MetadataPeriodic | openmp/algorithms/BM.cpp:133-135 | the mapping repeats every 54 patterns |
| OmpAlgorithmsBm.Metadata | openmp/algorithms/BM.cpp:133-139 | each label is a member of its list |
| OmpBp.Worker | openmp/BP.cpp:73-84 | a worker counts exactly the occurrences that start at or after its own offset and end inside its scan |
| OmpBp.ShiftOrSearchSerial | openmp/BP.cpp:11-40 | the number of occurrences for 1 <= m <= 64; 0 for m == 0, a short text or m > 64 |
| OmpBp.ShiftOrSearchParallel | openmp/BP.cpp:43-90 | as written: the sum of the counts of occurrences lying wholly inside each chunk |
| OmpBp.ChunkWorker | openmp/BP.cpp:73-84 | a chunk's count is its occurrences that end inside the chunk |
| OmpBp.ParallelAtMostSerial | openmp/BP.cpp:63-89 | no occurrence is counted twice, so the parallel count is at most the serial one |
| OmpBp.ParallelExactWithoutStraddle | openmp/BP.cpp:77-82 | when no occurrence straddles a chunk boundary, the parallel count is exact |
| OmpBp.OneByteExact | openmp/BP.cpp:77-82 | a one-byte pattern never straddles, so its parallel count is the serial count |
| OmpBp.StraddleLost | openmp/BP.cpp:77-82 | "AA" in "AAAA" on two workers counts 2, while there are 3 occurrences |
| OmpBp.ShiftOrSearchParallelFixed | openmp/BP.cpp:43-90 | with each worker reading `m-1` bytes past its chunk, the count is the serial count |
| OmpBp.FixedChunkWorker | openmp/BP.cpp:73-84 | the corrected worker counts every occurrence that starts in its chunk |
| CustSeq.LastIndexTable | cust_seq.cpp:216-222 | entry `c` is the last index of `c` in the pattern, or -1 |
| CustSeq.MatchShift | cust_seq.cpp:234 | with every table entry in `[-1, m)`, the shift after a match is between 1 and `m + 1` |
| CustSeq.MatchShiftSafe | cust_seq.cpp:234 | the shift after a match jumps over no occurrence |
| CustSeq.MismatchShift | cust_seq.cpp:236 | the shift after a mismatch is at least 1 |
| CustSeq.BoyerMooreSearch | cust_seq.cpp:208-241 | every occurrence in ascending order, overlapping ones included; empty for an empty pattern |
| CustSeq.InitialRegister | cust_seq.cpp:259 | `~1` is the all-ones state already shifted once |
| CustSeq.RegisterStep | cust_seq.cpp:260-266 | "or the mask, then shift" keeps the Shift-Or invariant one place up, so bit `m` signals a match when `m < 64`, while `1ULL << 64` finds nothing set |
| CustSeq.BitParallelSearch | cust_seq.cpp:244-270 | as written: empty for m == 0 or m > 64, every occurrence for 1 <= m <= 63, and every index `i - 63` for m == 64 |
| CustSeq.FullWidthReportsEverything | cust_seq.cpp:264 | a 64-byte pattern with no occurrence still reports 64 offsets |
| CustSeq.BitParallelSearchFixed | cust_seq.cpp:244-270 | testing bit `m-1` before the shift gives every occurrence for every 1 <= m <= 64 |
| CustSeq.ComputePeriodSimple | cust_seq.cpp:283-300 | the smallest dividing period, `m` when none is at most `m/2`, and 0 for the empty pattern |
| CustSeq.CountGC | cust_seq.cpp:308-311 | the number of upper-case G and C bytes |
| CustSeq.ShapePass | cust_seq.cpp:314-333 | the number of distinct bytes and the longest run of one repeated byte |
| CustSeq.SeenStep | cust_seq.cpp:321-324 | the `seen` array and the distinct count follow one more byte |
| CustSeq.RunStep | cust_seq.cpp:325-331 | the run counters follow one more byte |
| CustSeq.Periodic | cust_seq.cpp:340-347 | the periodic verdict: a run longer than a third of the length and, up to 100 bytes, a smallest period of at most half the length, beyond that a run longer than half of it |
| CustSeq.Repetitive | cust_seq.cpp:336-351 | the repetitive verdict: a run longer than a third of the length, or periodic |
| CustSeq.AnalyzePattern | cust_seq.cpp:303-354 | GC ratio, distinct count, longest run, period (smallest one only when the run test and the length bound call for it) and the periodic and repetitive verdicts |
| CustSeq.RepetitiveExamples | cust_seq.cpp:336-351 | a block of one repeated byte, and any pattern of length at most 2, is repetitive |
| CustSeq.Choice | cust_seq.cpp:357-376 | "None" iff empty; "Bit-Parallel" iff length <= 64, not repetitive and more than 2 distinct bytes; "KMP" iff repetitive; else "Boyer-Moore" |
| CustSeq.HybridSearch | cust_seq.cpp:357-376 | returns the chosen name; nothing for an empty pattern; every occurrence from every branch, except "Bit-Parallel" on a 64-byte pattern, which runs the as-written `bit_parallel_search` and returns every offset `i - 63` |
| CustSeq.HybridReachesFullWidth | cust_seq.cpp:365-366 | "ACGT" sixteen times over is named "Bit-Parallel", so `hybrid_search` hands it to the as-written search at `m == 64`, although it does not occur in "AAAA" |
| DnaMatchers.ShiftTable | dna_matchers.cpp:52-55 | a key for each pattern byte, whose value is `m-1` less its last index |
| DnaMatchers.InPattern | dna_matchers.cpp:52-55 | a byte occurs in the pattern exactly when it has a last index |
| DnaMatchers.DnaShift | dna_matchers.cpp:65 | the table shift, or `m` for a byte outside the pattern, lies in [0, m] |
| DnaMatchers.MismatchBelow | dna_matchers.cpp:59-60 | -1, or a cell where pattern and text differ |
| DnaMatchers.MismatchBelowAgrees | dna_matchers.cpp:59-60 | every cell right of the returned one agrees with the text |
| DnaMatchers.BmScan | dna_matchers.cpp:57-68 | the offsets the as-written scan reports from an alignment on: a hit is reported, and the scan moves to `BmNext` either way |
| DnaMatchers.BmNext | dna_matchers.cpp:61-66 | the next window is strictly further right |
| DnaMatchers.BmScanSound | dna_matchers.cpp:57-68 | every reported offset is an occurrence, and reported offsets are at least `m` apart |
| DnaMatchers.CompareFromRight | dna_matchers.cpp:59-60 | the comparison loop stops at the last mismatching cell, or at -1 on a match |
| DnaMatchers.TableShift | dna_matchers.cpp:65 | the map lookup with its default is the shift of the byte |
| DnaMatchers.BmScanStep | dna_matchers.cpp:58-67 | one window appends its offset exactly on a match, and moves on |
| DnaMatchers.BmWindow | dna_matchers.cpp:59-66 | one iteration decides the match and the next window |
| DnaMatchers.BoyerMooreSearch | dna_matchers.cpp:46-69 | as written: empty for an empty pattern, else `BmScan`, whose offsets are occurrences at least `m` apart |
| DnaMatchers.BmScanSkipsOverlap | dna_matchers.cpp:61-63 | "AA" in "AAAA" gives [0, 2], while it occurs at 0, 1 and 2 |
| DnaMatchers.BmScanSkipsOccurrence | dna_matchers.cpp:65 | "AAA" in "YAAAA" gives nothing, while it occurs at 1 and 2 |
| DnaMatchers.BoyerMooreSearchFixed | dna_matchers.cpp:46-69 | shifting by 1 after a match and by the shift measured from the mismatch cell gives every occurrence |
| DnaMatchers.AndZero | dna_matchers.cpp:86 | a zero mask leaves the register all zero after the mask step |
| DnaMatchers.ShiftOnly | dna_matchers.cpp:86-88 | with a zero mask the step only shifts the register, and the test finds bit `m` clear once `m` bytes have been read |
| DnaMatchers.EveryOffsetNext | dna_matchers.cpp:88-89 | reading one more byte appends the offset `i - m + 1` exactly when the test passes |
| DnaMatchers.EveryOffset | dna_matchers.cpp:85-90 | the offsets reported when the test passes on every byte: `0 .. n - m`, and `i - 63` for every `i` at `m == 64` |
| DnaMatchers.BitParallelSearch | dna_matchers.cpp:72-93 | as written: empty for m == 0 or m > 64, and every offset of the text (shifted for m == 64), whatever the text, for 1 <= m <= 64 on text without NUL |
| DnaMatchers.MaskInitReportsAll | dna_matchers.cpp:78-83 | "AC" in "GGG" reports 0 and 1, while it does not occur |
| DnaMatcherPy.HighlyRepetitive | dna_matcher.py:85-113 | longer than 10, and a run longer than a third of the length or a period in [2, min(20, len//2)) |
| DnaMatcherPy.IsHighlyRepetitive | dna_matcher.py:85-113 | False up to length 10; else True iff the longest run exceeds a third of the length, or there is a period in [2, min(20, len//2)) |
| DnaMatcherPy.MaxRepeat | dna_matcher.py:90-97 | the counters end with the longest run of one repeated character |
| DnaMatcherPy.PeriodCheck | dna_matcher.py:105-109 | True exactly when `pattern[i] == pattern[i % p]` for every `i` |
| DnaMatcherPy.RunCriterion | dna_matcher.py:99-101 | a long uniform block makes a pattern highly repetitive, and without a short period it is the only way |
| DnaMatcherPy.DinucleotideRepeat | dna_matcher.py:103-111 | "ACACACACACAC" is highly repetitive through its period 2 |
| DnaMatcherPy.Select | dna_matcher.py:78-83 | bit-parallel iff length <= 64 and not repetitive; KMP iff not bit-parallel and (repetitive or more than 3/5 G/C) |
| DnaMatcherPy.SelectFitsMatcher | dna_matcher.py:78-83 | bit-parallel is only chosen for patterns it accepts, and a repetitive pattern always goes to KMP |
| DnaMatcherPy.HybridSearchPython | dna_matcher.py:65-83 | [] for an empty pattern, else the selected matcher's result: every occurrence from KMP, the Boyer–Moore offsets, the bit-parallel offsets |
| Heuristics.ChooseAlgorithm | sample/heuristics.py:1-24 | one of "BP", "KMP" and "BMH"; "BP" iff length <= 64; the entropy test below 257 and from 512 on, and the GC test in between |
| Heuristics.EntropyMonotone | sample/heuristics.py:14-18 | for long patterns, raising the entropy never turns "BMH" into something else |
| Heuristics.GcSymmetric | sample/heuristics.py:21-24 | the GC rule treats GC content `g` and `1-g` alike |
| Heuristics.InputsThatMatter | sample/heuristics.py:1-24 | GC content matters only for lengths 257..511, and entropy is ignored there and up to 64 |
| Controller.Count | openmp/test/controller.py:17-19 | `sequence.count(base)`, never more than the length |
| Controller.BaseTerm | openmp/test/controller.py:19-20 | each base's term is non-positive whenever `p*log2(p)` is |
| Controller.ComputeFeatures | openmp/test/controller.py:10-22 | [0, 0.0, 0.0] for an empty sequence, else the length and the GC fraction, with non-negative entropy |
| Controller.ChooseAlgorithm | openmp/test/controller.py:28-53 | one of "BP", "KMP" and "BMH", and "BP" iff length <= 64 |
| Controller.SameAsHeuristics | openmp/test/controller.py:28-53 | the same answer as the sample heuristics on every input |
| Controller.EntropyBoundary | openmp/test/controller.py:35-46 | entropy exactly 1.1 gives "KMP" for lengths 65..256 and "BMH" from 512 on |
| Controller.ChooseFor | openmp/test/controller.py:103-106 | a sequence gets "BP" exactly when it has at most 64 characters |
| ExtractSample.IsValidSeq | sample/extract_sample.py:62-64 | every character is one of A, C, G, T, so the empty string is valid |
| ExtractSample.ValidConcat | sample/extract_sample.py:62-64 | the empty string is valid, and a concatenation is valid iff both parts are |
| ExtractSample.ValidCounts | sample/extract_sample.py:62-64 | in a valid sequence, G+C and A+T together count every character |
| ExtractSample.Start | sample/extract_sample.py:71-79 | each start lies in [0, max(0, genome_len - L)] |
| ExtractSample.StartMonotone | sample/extract_sample.py:71-79 | later indices never give earlier starts |
| ExtractSample.FirstCopies | sample/extract_sample.py:81 | deduplicating a nondecreasing list keeps its members, the first one included, strictly ascending |
| ExtractSample.SystematicPositions | sample/extract_sample.py:67-82 | [] for k <= 0, else at most k strictly ascending starts in range, exactly the set of computed starts |
| ExtractSample.KeepOrSkip | sample/extract_sample.py:150-151 | a kept start keeps the list spaced; a skipped one lies within L of a kept one |
| ExtractSample.GreedyPass | sample/extract_sample.py:148-158 | the kept starts stay at least L apart, come from the input, stop at the limit, and below it cover every candidate |
| ExtractSample.NonOverlapFilter | sample/extract_sample.py:146-159 | at most k starts, pairwise at least L apart, from the input or the fallback; when fewer than k, every input and fallback start lies within L of a kept one |

## Left out

- Words: the 64-bit register and masks are a sequence of 64 booleans (`Bits.Word`) rather than a
  `bv64`. The operations used (shift left, or, and, not, single bits) are modelled bit by bit.
  `1ULL << 64`, undefined in C++, is the zero word here.
- Tables: the 256-entry tables that a loop fills are `array`s. Those of
  `BadChar.CreateBadCharTable`, `SearchParallel.BuildMasks`, `BioUtils.CountBases` and
  `CustSeq.LastIndexTable` are handed on as sequences once filled, and so is the copy that
  `BioUtils.ToUpperCaseDna` upper-cases in place. The `pattern_mask` of
  `DnaMatchers.BitParallelSearch` and the `seen` array of `analyze_pattern` (`CustSeq.SeenStep`)
  stay arrays throughout. The `lps` tables, the Shift-Or register and the `std::vector` results
  are sequences that the loops reassign, and the tables a searching loop reads are passed to it
  as sequences.
- OpenMP: each parallel region is a loop over the worker ids that adds up the per-worker counts,
  which is sound because the workers share only read-only tables. Scheduling, threads and the
  reduction clause are not modelled.
- Floating point: doubles are exact reals. GC ratios are exact quotients. `log2` is not available,
  so the entropy modules take `plog2p` (the term `p * log2(p)`) as a parameter. The entropy value
  itself is never computed, and the selectors take entropy as a given real.
- Integers are unbounded: `int`/`size_t` overflow in the index arithmetic is not modelled.
- Signed `char`: `cust_seq.cpp` and `dna_matchers.cpp` index 256-entry tables with a plain `char`,
  and `include/BioUtils.hpp` (lines 40, 69 and 84) passes a plain `char` to `toupper`; both are
  negative, and undefined, for bytes of 128 and above. The model uses the unsigned byte.
- I/O: file opening and `exit(1)`, `readGenome`, `patterns.txt`, CSV output, console output, timing,
  memory instrumentation and every `main` are outside the model. `FastaReader.ReadSequence` works on
  the lines already in memory. `main` in `src/search_parallel.cpp` (including its validation and
  shifted-search loop) and `load_clean_fasta`, which duplicates `FastaReader.ReadSequence`, are not
  part of this model.
- Foreign calls: the `ctypes` bindings, the extern "C" wrappers and the subprocess runner of the
  controller. Python strings reach the C++ code encoded to bytes. The model takes the bytes
  directly, so non-ASCII characters are not modelled.
- DnaMatchers.BitParallelSearch: states nothing for a text that contains a NUL byte. The extern "C"
  wrappers build the text from a C string, so they never pass one.
- Randomness: `stratified_positions`, `random_quota_positions`, the random fill and every sequence
  generator.
- ExtractSample.NonOverlapFilter: the `sorted` calls are left out. The first pass takes its starts
  in the order given; on the ascending lists the samplers produce, `sorted` is the identity.
  `k` is a `nat`.
- ExtractSample.SystematicPositions: the final `sorted` is left out, because the deduplicated
  list is already strictly ascending (proved).
- CustSeq.AnalyzePattern: the GC ratio of an empty pattern (a NaN from 0/0 in the source) is 0.0
  here.
- OmpBm.BmhSearchParallel, OmpKmp.SearchParallel, OmpBp.ShiftOrSearchParallel: they require
  `T >= 1`, because the source has no guard for `T <= 0` (a division by zero).
- OmpKmp.SearchSerial: requires `m >= 1`, because the source reads `lps[-1]` for an empty pattern.
  OmpKmp.SearchParallel requires the same, for the same reason.
- HybridPicker.Pick: `pickAndSearchParallel` and `searchWithReverseComplementHybrid` are modelled
  only through this shared name check. The searches they then run read a file
  (`searchParallelInFasta`) or have no body (`searchWithReverseComplement`).
- Missing bodies: `searchWithReverseComplement` and the KMP/BMH `searchParallel` members have no
  bodies in the source, so they are not modelled. The header declarations that disagree with the
  `.cpp` bodies are ignored in favour of the bodies.
- Plotting, machine learning, benchmarks and build scripts are outside the core.

## Findings

| source | as written | input that shows it | evidently intended | confidence | as-written member | corrected member |
|---|---|---|---|---|---|---|
| openmp/BP.cpp:66-82 | each worker reads only up to the end of its own chunk, so a match that starts in one chunk and ends in the next is counted by nobody | "AA" in "AAAA" with 2 workers counts 2 instead of 3 | every worker reads `m-1` bytes past its chunk, so the parallel count equals the serial one | not executed | OmpBp.StraddleLost | OmpBp.ShiftOrSearchParallelFixed |
| dna_matchers.cpp:61-65 | after a match the window moves by `m`, and after a mismatch by the shift measured from the pattern end, not from the mismatch cell | "AA" in "AAAA" gives [0, 2]; "AAA" in "YAAAA" gives [] | move by 1 after a match and by `max(1, shift - (m-1-j))` after a mismatch | not executed | DnaMatchers.BmScanSkipsOccurrence | DnaMatchers.BoyerMooreSearchFixed |
| dna_matchers.cpp:78-83 | `pattern_mask[256] = {~0ULL}` sets only entry 0 to all ones and leaves every other mask zero | "AC" in "GGG" reports offsets 0 and 1 | every mask starts at all ones | not executed | DnaMatchers.MaskInitReportsAll | CustSeq.BitParallelSearchFixed |
| cust_seq.cpp:264 | the match test uses `1ULL << m`, which is undefined for `m == 64` | a 64-byte pattern of A in 64 bytes of C reports 64 offsets; through `hybrid_search`, "ACGT" sixteen times over in "AAAA" reports -63 to -60 (`CustSeq.HybridReachesFullWidth`) | test bit `m - 1` before the shift | not executed | CustSeq.FullWidthReportsEverything | CustSeq.BitParallelSearchFixed |
