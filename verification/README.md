# tinycoverage report wire format, in Dafny

This project models the coverage report that the tinycoverage runtime writes.
It also models what the Python decoder and correlator make of it.

The runtime (`runtime/tinycoverage.cpp`) writes a stream of 32-bit words in
the machine's byte order:

- each `tinycoverage_test_finished` call writes ENTRY and then the indices of
  the counters that fired, and clears the counters;
- at shutdown, `emit_func_names_set` writes INDICES, then one function index
  per basic block, then NAMES, then one (index, name) pair per distinct
  function-name pointer;
- the file is cut one word past the last word written, so a zero word
  follows.

The decoder (`parser.py`) works as follows:

- it detects the byte order from the first word;
- it splits the hit lists at ENTRY up to INDICES;
- it reads the block table up to NAMES;
- it reads (index, name) pairs until the first read that fails;
- it folds the text line maps into `func_to_src` and `func_to_bb`;
- each block's index inside its function is meant to be the length of the
  run of equal table entries before it, but the loop as written compares
  `table[i-1]` with the position `i` instead of with `table[i]`
  (`Correlate.RelIndexAsWritten`; see Findings);
- every hit then becomes a (name, source file, lines) triple.

Modules, one per file:

- `Wrappers`: `Result` and `Option`.
- `Wire`: bytes, words, the three sentinels, byte order, and the bytes of a
  word or of a run of words.
- `BinaryParser`: `read_uint32`, `test_endian` and `read_str`.
- `ReportParser`: `read_tests`, `read_indices`, `read_names` and `read`, plus
  a reference splitting function (`SplitOn`) that the hit-list reader is
  proved against.
- `TcnoParser`: `read_items` on tokenised lines, with `sorted` as an
  insertion sort.
- `Correlate`: the relative-index rule (intended and as written) and the
  correlation loop.
- `Runtime`: `write(std::string_view)`, `tinycoverage_test_finished`,
  `emit_func_names_set`, and a whole session's bytes.
- `RoundTrip`: what the decoder returns for what the runtime writes, up to
  the full stream.

Byte streams are `seq<byte>` and consumed input is returned as the rest of
the sequence. The runtime's native byte order is a parameter `e: Endian`.
Name identity is a `NamePtr(addr, text)` value. The iteration order of the
runtime's `unordered_map` is a parameter `order`, which must list every key
exactly once (`Runtime.Enumerates`).

Two consequences of the decoder's code:

- The first ENTRY is consumed by `test_endian` as the byte-order probe, and
  the hit-list loop then starts an empty test. So `ENTRY 0 1 ENTRY 2
  INDICES` decodes to two tests, `[0, 1]` and `[2]`
  (`ReportParser.ReadTestsTwoTests`).
- A malformed line-map line raises out of `read_items` and ends the whole
  read. What the earlier lines stored is kept (`TcnoParser.ReadItems`,
  `TcnoParser.ReadItemsFailurePrefix`).

## Model

| member | source | states |
|---|---|---|
| Wire.ToWord | runtime/tinycoverage.cpp:26-29 | a `size_t` passed to `write(uint32_t)` keeps its value below 2^32 and is always a 32-bit word |
| Wire.UnpackWordBytes | parser.py:19 | unpacking the four bytes a word is stored as, in the same byte order, gives back the word |
| Wire.WordBytesUnpack | parser.py:19 | any four bytes are the stored form of the word they unpack to |
| Wire.WordBytesInjective | runtime/tinycoverage.cpp:26-29 | two words stored as the same four bytes are equal |
| Wire.WordsBytesAppend | runtime/tinycoverage.cpp:26-29 | writing two runs of words one after the other gives the bytes of their concatenation |
| Wire.Decompose | parser.py:13-19 | every stream is a run of whole words followed by fewer than four bytes |
| Wire.WordsBytesAt | runtime/tinycoverage.cpp:26-29 | the i-th four bytes of a run of written words are the bytes of the i-th word |
| BinaryParser.ReadUint32 | parser.py:13-19 | succeeds exactly when at least four bytes remain; on success the input is the word's four bytes followed by the rest; otherwise a short-read error |
| BinaryParser.TestEndian | parser.py:21-29 | on success the input starts with ENTRY in the adopted byte order and exactly four bytes are consumed; big-endian wins when both match; otherwise ENTRY matches in neither byte order and the error says so |
| BinaryParser.RStripNul | parser.py:32 | the result is a prefix of the input, does not end in NUL, and every byte removed is NUL |
| BinaryParser.ReadStr | parser.py:31-32 | succeeds exactly when a count word is there; consumes 4 + min(4·N, bytes left); returns a prefix of the bytes it consumed after the count, not ending in NUL, with only NULs dropped after it |
| BinaryParser.ReadUint32Word | parser.py:13-19 | a word stored in byte order e reads back as itself, leaving what follows |
| BinaryParser.ReadStrComplete | parser.py:31-32 | a count N followed by 4·N payload bytes reads back as the payload without trailing NULs, leaving what follows |
| BinaryParser.TestEndianDetects | parser.py:21-29 | a stream starting with ENTRY in either byte order is detected as that byte order, consuming four bytes |
| ReportParser.ReadTestsLoop | parser.py:54-68 | a successful read yields more tests than it was given and consumes at least the closing word |
| ReportParser.ReadTests | parser.py:49-68 | on success the stream starts with ENTRY in the detected byte order and at least one test is returned |
| ReportParser.SplitOnJoinWith | parser.py:57-68 | splitting at the separator undoes joining parts that do not contain it |
| ReportParser.ReadTestsLoopStep | parser.py:57-68 | one word: ENTRY closes the current test, INDICES closes it and the section, any other word joins the current test |
| ReportParser.ReadTestsLoopFound | parser.py:54-66 | the words up to the first INDICES decode as those words split at ENTRY, with the current test put in front |
| ReportParser.ReadTestsLoopNotFound | parser.py:58 | without an INDICES word the read fails with a short read |
| ReportParser.ReadTestsSpec | parser.py:49-68 | the tests are the words before INDICES split at every ENTRY; there is one more test than ENTRY words; no test holds ENTRY or INDICES, while NAMES is kept as an ordinary hit; the tests concatenated are the non-ENTRY words in order, duplicates kept |
| ReportParser.ReadTestsTwoTests | parser.py:49-68 | `ENTRY 0 1 ENTRY 2 INDICES` decodes to the two tests [0, 1] and [2] |
| ReportParser.ReadIndicesLoop | parser.py:70-80 | the table only grows by appending, and no appended entry is NAMES |
| ReportParser.ReadIndicesSpec | parser.py:70-80 | position i of the table holds the i-th word before the first NAMES; NAMES is consumed and not stored |
| ReportParser.ReadIndicesNotFound | parser.py:73-77 | without a NAMES word the read fails with a short read |
| ReportParser.ReadIndicesTotal | parser.py:70-80 | on any stream, seen as its whole words and a short tail: with no NAMES word the read fails; otherwise the table is the words before the first NAMES and the rest starts right after it |
| ReportParser.ReadIndicesFirstNames | parser.py:70-80 | words followed by any tail are read up to their first NAMES word |
| ReportParser.ReadNamesLoop | parser.py:82-89 | the loop never fails and only adds keys |
| ReportParser.ReadNamesShortTail | parser.py:82-89 | fewer than eight trailing bytes add nothing, which covers the zero word left at the end of the file |
| ReportParser.ReadNamesPair | parser.py:85-87 | a complete pair stores its NUL-stripped name under its index, replacing any earlier name for that index, and the loop goes on |
| ReportParser.ReadNamesTruncatedBody | parser.py:85-87 | a pair whose name is cut short still stores the bytes that are there, because the short read does not raise |
| ReportParser.Read | parser.py:41-47 | on success the stream starts with ENTRY in the reported byte order, at least one test is returned, and NAMES is not in the table |
| TcnoParser.Insert | parser.py:107 | inserting into an ascending list gives an ascending list with one more copy of the element |
| TcnoParser.Sort | parser.py:107 | `sorted` gives an ascending permutation of its input |
| TcnoParser.ReadLine | parser.py:104-116 | fails on fewer than three tokens or a non-integer, and succeeds exactly otherwise; on success the function's file is overwritten, its block holds the sorted line numbers, every other block and function is unchanged, and both tables keep the same keys |
| TcnoParser.ReadItems | parser.py:103-116 | a failure names a line that the state before it rejects; both tables keep the same keys on success and at the failure |
| TcnoParser.ReadItemsFailurePrefix | parser.py:103-109 | the state left at a failure is what the lines before the failing line produce |
| TcnoParser.ReadItemsUntouched | parser.py:111-116 | lines that do not name f leave f's file and blocks as they were |
| TcnoParser.ReadItemsBlockUntouched | parser.py:113-116 | lines that do not write block b of f leave that block's line list as it was |
| TcnoParser.ReadItemsBlockAbsent | parser.py:113-116 | lines that do not write block b of f do not create it either |
| TcnoParser.ReadItemsLastSource | parser.py:111 | f's file is the one from the last line that names f |
| TcnoParser.ReadItemsLastBlock | parser.py:107-116 | block b of f holds the ascending sort of the line numbers of the last line that writes it |
| Correlate.RelIndex | parser.py:121-127 | rel[i] <= i; every entry from i - rel[i] to i equals entry i; the entry just before that run differs, so rel[i] is the length of the run of equal entries before i |
| Correlate.RelIndexRecurrence | parser.py:123-127 | rel[0] = 0, and rel[i] is rel[i-1] + 1 when entry i-1 equals entry i, else 0 |
| Correlate.RelIndexExample | parser.py:121-127 | the table [10, 10, 10, 20, 20] gives [0, 1, 2, 0, 1] |
| Correlate.RelIndexWithinFunction | parser.py:121-127 | on the table the runtime writes, when each function's blocks are contiguous, the blocks from i - rel[i] to i all belong to block i's function and no earlier block does, so rel[i] is the block's index inside its function |
| Correlate.RunWithinGroup | parser.py:121-127 | the same for any table whose entries are equal exactly where the blocks' functions are equal |
| Correlate.RelIndexAsWritten | parser.py:123-127 | the loop as written, comparing entry i-1 with the position i, still gives one value per block, each at most its position |
| Correlate.RelIndexAsWrittenMergesBlocks | parser.py:123-124 | as written, the two blocks of one function in [0, 0] both get 0; the intended rule gives 0 and 1 |
| Correlate.RelIndexAsWrittenJoinsFunctions | parser.py:123-124 | as written, [1, 0] gives the second function's first block 1; the intended rule gives 0 |
| Correlate.Resolve | parser.py:132-137 | a hit resolves exactly when the block, its function index, the name's file, the name's blocks and the relative block are all present, and then gives (name, file, lines) |
| Correlate.ResolveAll | parser.py:132-140 | a test resolves exactly when every hit does, giving one triple per hit in order |
| Correlate.CorrelateWith | parser.py:129-140 | succeeds exactly when every hit of every test resolves, giving one triple per hit, tests and hits in order |
| Correlate.Correlate | parser.py:121-140 | with the intended relative index, each hit h gives the name of table[h], that name's file, and the lines of block rel[h] of that name |
| Correlate.CorrelateAsWritten | parser.py:121-140 | with the relative index as written, each hit h gives the name of table[h], that name's file, and the lines of block rel[h] of that name |
| Runtime.WriteString | runtime/tinycoverage.cpp:31-38 | the count word size/4+1, then the bytes, then NULs up to a word boundary, with at least one NUL; 4·(size/4+1) bytes after the count |
| Runtime.SetIndices | runtime/tinycoverage.cpp:43-47 | the positions of the set counters, each set, strictly ascending, none missing |
| Runtime.TestFinished | runtime/tinycoverage.cpp:40-48 | ENTRY comes first, and every counter is false afterwards |
| Runtime.TestFinishedHits | runtime/tinycoverage.cpp:40-48 | after ENTRY, every set counter's index (truncated to 32 bits); with at most 2^32 counters, exactly the set counters' indices, strictly ascending |
| Runtime.TestFinishedTwice | runtime/tinycoverage.cpp:43-47 | finishing a test right after another writes ENTRY alone |
| Runtime.AssignIndicesAssigned | runtime/tinycoverage.cpp:53-62 | each block's entry is its pointer's index; the indices are 0..k-1, distinct, each used; a new pointer gets one past every earlier index and no entry exceeds that |
| Runtime.AssignedTable | runtime/tinycoverage.cpp:55-62 | every block's pointer is a key and the block's entry is that key's index |
| Runtime.AssignedIndex | runtime/tinycoverage.cpp:56-58 | at most one key per block; every index is below the number of keys; distinct keys have distinct indices |
| Runtime.AssignedKeys | runtime/tinycoverage.cpp:55-58 | every key is some block's pointer |
| Runtime.AssignedCover | runtime/tinycoverage.cpp:56-59 | every index below the number of keys is some block's entry |
| Runtime.AssignIndices | runtime/tinycoverage.cpp:55-62 | the index loop gives one table entry per block (its other properties are in the rows around it) |
| Runtime.StepKeys | runtime/tinycoverage.cpp:56-58 | one loop step keeps every index below the map's size and owned by one pointer |
| Runtime.StepBound | runtime/tinycoverage.cpp:56-61 | one loop step keeps one past the largest entry equal to the map's size |
| Runtime.NameSection | runtime/tinycoverage.cpp:66-69 | the name loop writes whole words, at least three per pair |
| Runtime.EmitFuncNamesSet | runtime/tinycoverage.cpp:50-70 | the output is whole words, starts with INDICES, and holds at least a word per block, two sentinels and three words per name |
| Runtime.EmitFuncNamesSetLayout | runtime/tinycoverage.cpp:50-70 | INDICES; then, for block i, the index of block i's function pointer; then NAMES; then the name section |
| Runtime.IndexWordsLayout | runtime/tinycoverage.cpp:51-64 | the index words put in front of any name section: INDICES first, entry i as word i+1, NAMES after the last entry, then the section unchanged |
| Runtime.TestsBytes | runtime/tinycoverage.cpp:40-48 | the finished tests write whole words, at least one per test, and start with ENTRY when there is a test |
| Runtime.Session | runtime/tinycoverage.cpp:40-80 | a report is whole words, at least one per test and block plus three; it starts with ENTRY after a finished test and with INDICES otherwise; its last word is zero |
| Runtime.NameSectionIndices | runtime/tinycoverage.cpp:66-69 | the name loop writes one pair per key, and its index words are exactly 0..k-1, each once |
| RoundTrip.RStripNulPadded | parser.py:32 | a name without NULs followed by NUL padding strips back to the name |
| RoundTrip.WriteStringParts | runtime/tinycoverage.cpp:31-38 | a written string is its count word followed by exactly 4·count payload bytes |
| RoundTrip.StringRoundTrip | runtime/tinycoverage.cpp:31-38 | `read_str` on what `write(std::string_view)` wrote for a NUL-free string returns the string and leaves what follows |
| RoundTrip.StringTrailingNulLost | parser.py:32 | a string that ends in NUL does not come back unchanged |
| RoundTrip.StringReadBack | parser.py:31-32 | any written string reads back as its padded payload with the trailing NULs stripped, leaving what follows |
| RoundTrip.TestsBytesJoin | runtime/tinycoverage.cpp:40-48 | the finished tests' bytes are one ENTRY and then the hit lists joined by ENTRY |
| RoundTrip.HitListsMeaning | runtime/tinycoverage.cpp:40-48 | with fewer blocks than ENTRY, each hit list holds exactly the set counters' indices, strictly ascending, below the block count |
| RoundTrip.TableMeaning | runtime/tinycoverage.cpp:53-62 | the table words are the entries unchanged, below the number of keys, and equal exactly where the blocks' pointers are equal |
| RoundTrip.ReadNamePair | runtime/tinycoverage.cpp:67-68 | one pair as the name loop writes it is read back as that index and name |
| RoundTrip.ReadNameSection | runtime/tinycoverage.cpp:66-69 | reading the name section adds the pairs in iteration order |
| RoundTrip.SectionMapSpec | parser.py:87 | with distinct index words, every pointer's name is stored under its index and other entries are kept |
| RoundTrip.SectionMapDomain | parser.py:87 | the name loop adds no key other than the index words it reads |
| RoundTrip.SectionWordsDistinct | runtime/tinycoverage.cpp:66-69 | the index words in the name section are distinct |
| RoundTrip.SectionMapNames | runtime/tinycoverage.cpp:66-69 | each block's table entry is stored with the block's name |
| RoundTrip.SectionMapKeys | runtime/tinycoverage.cpp:66-69 | every stored index is some block's table entry |
| RoundTrip.NamesMeaning | parser.py:82-89 | the name section plus a short tail decodes to exactly the block-entry-to-name map |
| RoundTrip.SessionLayout | runtime/tinycoverage.cpp:80 | a report's bytes regroup at the section boundaries the decoder sees, including the trailing zero word |
| RoundTrip.SessionDecodes | parser.py:41-47 | a report decodes to the writer's byte order, the hit lists, the table words and the name map |
| RoundTrip.SessionTests | parser.py:49-68 | the hit-list section decodes to the hit lists |
| RoundTrip.SessionTable | parser.py:70-80 | the table section decodes to the table words |
| RoundTrip.FullStreamRoundTrip | runtime/tinycoverage.cpp:40-80 | a report with at least one test and fewer blocks than ENTRY decodes to: the writer's byte order; one test per finish, holding exactly the blocks hit, ascending; one table entry per block, equal exactly where the pointers are equal; each entry naming its block's function; and no other name |
| RoundTrip.ReportNamesMeaning | runtime/tinycoverage.cpp:66-69 | each table word is stored with its block's name, and no other key is stored |
| RoundTrip.TableBelow | runtime/tinycoverage.cpp:59-61 | every index written for a block is below the block count, so it fits a word unchanged |
| RoundTrip.SessionEndianIndependent | parser.py:21-29 | the writer's byte order changes only the byte order the decoder reports |
| RoundTrip.EmptyRunRejected | parser.py:21-29 | a run that finished no test starts with INDICES, so the decoder rejects the whole report |
| RoundTrip.TestEndianIndices | parser.py:21-29 | INDICES, in either byte order, matches ENTRY in neither byte order |

## Left out

- File and memory I/O are not modelled: `tinycoverage_init` and `tinycoverage_shut_down` (open, ftruncate, mmap, msync, munmap), and `ReportParser.read` and `TcnoParser.read` opening files and listing the directory. Streams are in-memory sequences. The one effect of shutdown that reaches the stream, the zero word past the end, is part of `Runtime.Session`.
- The report's 200 KiB mapping limit is not modelled. Writes past it are outside the mapping and have no meaning here.
- Counters are set by instrumented code that is not part of this model. Each finished test takes the counter array at that moment as input.
- `__tinycoverage_init` and the LLVM pass (`pass/`) are not modelled. The model takes their results as given: the counter array and one name pointer per block. That each function's blocks are contiguous is not assumed anywhere; `Correlate.RelIndexWithinFunction` states what the relative index means when they are.
- UTF-8 decoding in `read_str` is the identity, so names are byte strings. A name that is not valid UTF-8 would raise inside the name loop and end it early; that case is not modelled.
- Tokenising lines (`split`) and `int()` are not modelled. A line is a sequence of tokens, each with its text and, when `int()` accepts it, its value.
- The iteration order of `std::unordered_map` is a parameter of the model rather than a computed order.
- The module-level script's printing and its reading of every line-map file in a directory are not modelled. The script's lookups are modelled (`Correlate.Correlate`), and a missing key returns an error instead of raising after partial output.
- No decoder for the binary control-flow notes format appears among these sources, so none is modelled.
- StringRoundTrip: requires the count word `size/4+1` to be below 2^32 (`RoundTrip.Fits`). Only a string of at least 4·(2^32−1) bytes breaks this: `write(uint32_t)` then truncates the count and the round trip fails. The 200 KiB mapping keeps real names far below that.
- FullStreamRoundTrip: requires fewer blocks than the value of ENTRY, so that no block index equals a sentinel; it also requires at least one finished test (see `RoundTrip.EmptyRunRejected`).
- TestFinished: its own contract states only the leading ENTRY and the cleared counters. The words written after ENTRY are stated by `Runtime.TestFinishedHits`.
- AssignIndices: its own contract states only the table length. The assignment's properties are stated by `Runtime.AssignIndicesAssigned` and its corollaries.

## Findings

| source | as written | input that shows it | evidently intended | confidence | as-written member | corrected member |
|---|---|---|---|---|---|---|
| parser.py:123-124 | `enumerate(bb_to_func_idx)` over a dict yields its keys, so `func_idx` is the block position and line 124 compares `table[i-1]` with `i` | table [0, 0] (one function with two blocks) gives relative indices [0, 0], not [0, 1]; table [1, 0] gives [0, 1], not [0, 0] | compare `table[i-1]` with `table[i]`, so that each block's relative index counts the earlier blocks of its own function | not executed | Correlate.RelIndexAsWritten, Correlate.RelIndexAsWrittenMergesBlocks, Correlate.RelIndexAsWrittenJoinsFunctions | Correlate.RelIndex, Correlate.RelIndexRecurrence, Correlate.RelIndexExample |
