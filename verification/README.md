# Snippets: six small utilities, modelled in Dafny

The repository is a collection of small tools. Each one has a deterministic
core, wrapped in file, console and operating-system calls. This project models
six of those cores as pure Dafny functions and a few loops, and proves what the
tools promise about them.

- **Float sweep and dump** (`CppTest-RSQRT.cpp`):
  - `Float_t` splits a 32-bit word into the sign, exponent and mantissa fields of IEEE 754 binary32 (section 3.4 of IEEE 754-2008).
  - `IterateAllPositiveFloats` visits every non-negative bit pattern up to and including +infinity.
  - `Timer` is a stopwatch.
  - `DumpFloats` writes a function's outputs to a file in fixed blocks of 10240 floats.
  - `CompareWithDump` reads the blocks back and pairs each stored value with a fresh output.
  - Modules: `FloatBits`, `FloatSweep`, `Stopwatch` and `FloatDump`.
- **Integrity checker** (`integrity-check.py`):
  - The history file is a header line plus one `sha256 mtime crc32 path` line per file.
  - Reading sorts entries into valid files and corrupted entries.
  - Writing is the inverse of reading for paths without line breaks (`\n` or `\r`).
  - `integrity_check` classifies each file as new, deleted, changed or corrupted, then decides the exit code and whether the history is rewritten.
  - `hash_bin_diff` shows which bits two hashes differ in.
  - Modules: `IntegrityHistory`, `IntegrityCheck` and `HashDiff`.
- **Kernel cleanup** (`boot-cleanup.py`):
  - The natural sort key makes `5.9` sort before `5.10`.
  - The versions found as `vmlinuz-*` are sorted by that key.
  - The oldest ones are chosen for removal so that `keep_versions` remain.
  - Every file that mentions a removed version is moved to `removed/`.
  - Module: `BootCleanup`.
- **Playlist to CD-changer directory** (`m3u-to-cd-changer-dir.py`):
  - Comment and blank lines are dropped from each playlist.
  - Relative entries are resolved against the playlist's directory.
  - Every track is copied to `NNNN<suffix>`, numbered by one counter shared by all playlists.
  - Module: `Playlist`.
- **JSON concatenation** (`json_concat.py`, a Python 2 script):
  - The option scanner handles the `--` terminator, case-insensitive options and "last option wins".
  - The too-few-arguments check.
  - Object mode merges the inputs' objects, later keys winning.
  - Array mode appends the inputs, optionally splicing in array inputs.
  - Module: `JsonConcat`.
- **Alphabet generator** (`scripts.js`, `getLettersUsedInText`):
  - The distinct characters of a text are sorted by a bubble sort that starts over after every swap.
  - Carriage return, line feed and tab are dropped.
  - Module: `Alphabet`.

Two shared modules support these:
- `Wrappers` holds `Option` and `Result`.
- `Text` holds line splitting, ASCII lower-casing and decimal, hexadecimal and binary numerals. These are the pieces of Python's `str`, `int()` and `hex()`/`bin()` that the tools rely on.

### Inputs and parameters

What the tools read from the outside world is a parameter of the model:
- the clock readings of `Timer`;
- the directory listing that `glob` filters;
- the playlist texts and the current directory;
- the current state of the checked directory, as a map from path to hash, mtime and CRC;
- the parsed JSON inputs.

Foreign functions are parameters too:
- `zlib.crc32` is a function `crc: string -> nat`;
- a candidate inverse square root is a function `op: int32 -> F` over an abstract float type `F`.

Effects are results:
- the directory creations and moves of a cleanup;
- the copies of a playlist run;
- the dump file's contents.

### Where the model follows the code rather than its description

- The sweep visits `0x7F800000`, which is +infinity. The loop test runs before the increment, so the pattern with exponent 255 is visited before the loop stops. `FloatSweep.IterateAllPositiveFloats` ends with that visit.
- The comment on the history format describes a second header line holding a checksum of all entries. `history_file_write` never writes one and `history_file_read` never reads one. The model has the single header line.
- The help text says `--no-deleted` "marks any missing file as corrupted". In the code, deleted files are only reported. With the flag set, the run refuses to update the history (exit -1). This is `IntegrityCheck.NoDeletedBlocksUpdate`.
- `--ignore-new` keeps new files out of the report. It does not keep them out of the history: when the history is rewritten, the whole current state is written, new files included. This is `IntegrityCheck.IgnoredNewFileStillRecorded`.
- The glob `*<version>*` used to find a version's files also matches longer versions. For example, removing `5.1` also moves the files of `5.10`. The model keeps this behaviour and `BootCleanup.GlobOverMatches` exhibits it.

## Model

| member | source | states |
|---|---|---|
| FloatBits.RawSign | Cpp/CppTest-RSQRT/CppTest-RSQRT/CppTest-RSQRT.cpp:37 | the sign field is 0 or 1 for every 32-bit word |
| FloatBits.RawMantissa | Cpp/CppTest-RSQRT/CppTest-RSQRT/CppTest-RSQRT.cpp:38 | the mantissa field lies in [0, 2^23) |
| FloatBits.RawExponent | Cpp/CppTest-RSQRT/CppTest-RSQRT/CppTest-RSQRT.cpp:39 | the exponent field lies in [0, 255] |
| FloatBits.SignIsNegativity | Cpp/CppTest-RSQRT/CppTest-RSQRT/CppTest-RSQRT.cpp:37 | the sign field is set exactly when the word, read as a signed integer, is negative |
| FloatBits.FieldsPartitionWord | Cpp/CppTest-RSQRT/CppTest-RSQRT/CppTest-RSQRT.cpp:37-39 | sign, exponent and mantissa rebuild every word: word = -sign*2^31 + exponent*2^23 + mantissa |
| FloatBits.NonNegativeFields | Cpp/CppTest-RSQRT/CppTest-RSQRT/CppTest-RSQRT.cpp:37-39 | a non-negative word has sign 0 and equals exponent*2^23 + mantissa |
| FloatBits.ExponentMonotone | Cpp/CppTest-RSQRT/CppTest-RSQRT/CppTest-RSQRT.cpp:39 | on non-negative words the exponent field is monotone in the word |
| FloatBits.PositiveInfinityFields | Cpp/CppTest-RSQRT/CppTest-RSQRT/CppTest-RSQRT.cpp:37-39 | 0x7F800000 has sign 0, exponent 255 and mantissa 0, the fields of +infinity |
| FloatBits.FiniteBelowInfinity | Cpp/CppTest-RSQRT/CppTest-RSQRT/CppTest-RSQRT.cpp:39 | every non-negative word below 0x7F800000 has exponent below 255 |
| FloatSweep.IterateAllPositiveFloats | Cpp/CppTest-RSQRT/CppTest-RSQRT/CppTest-RSQRT.cpp:97-109 | the loop makes 0x7F800001 visits; the first is 0; each later one is the previous word plus 1; the last is 0x7F800000 with exponent 255; every earlier visit has exponent below 255 |
| FloatSweep.IterationIsSweep | Cpp/CppTest-RSQRT/CppTest-RSQRT/CppTest-RSQRT.cpp:102-107 | the visited words are exactly 0, 1, ..., 0x7F800000 in order, strictly increasing, so none is skipped or repeated |
| FloatSweep.SweepSignClear | Cpp/CppTest-RSQRT/CppTest-RSQRT/CppTest-RSQRT.cpp:104-107 | every visited pattern has a clear sign bit |
| FloatSweep.SweepExponentsNonDecreasing | Cpp/CppTest-RSQRT/CppTest-RSQRT/CppTest-RSQRT.cpp:104-107 | exponents of visited patterns never decrease along the sweep |
| Stopwatch.NewTimer | Cpp/CppTest-RSQRT/CppTest-RSQRT/CppTest-RSQRT.cpp:58 | a new timer has duration 0 and is not started |
| Stopwatch.Start | Cpp/CppTest-RSQRT/CppTest-RSQRT/CppTest-RSQRT.cpp:60-64 | start records the clock reading, marks the timer running and keeps the stored duration |
| Stopwatch.Stop | Cpp/CppTest-RSQRT/CppTest-RSQRT/CppTest-RSQRT.cpp:66-73 | stop on a stopped timer changes nothing; on a running one it stores the elapsed nanoseconds in seconds and leaves the timer stopped |
| Stopwatch.StopTwiceIsStopOnce | Cpp/CppTest-RSQRT/CppTest-RSQRT/CppTest-RSQRT.cpp:66-73 | a second stop is a no-op, whatever the clock reads |
| Stopwatch.StartStopMeasures | Cpp/CppTest-RSQRT/CppTest-RSQRT/CppTest-RSQRT.cpp:60-78 | the duration read after start then stop is the clock difference in seconds, non-negative for a monotone clock |
| Stopwatch.StopWithoutStart | Cpp/CppTest-RSQRT/CppTest-RSQRT/CppTest-RSQRT.cpp:58-78 | stop without a prior start leaves the duration at 0 |
| FloatDump.WriteData | Cpp/CppTest-RSQRT/CppTest-RSQRT/CppTest-RSQRT.cpp:366-370 | a flush appends the whole buffer, all 10240 entries, to the file and resets the used count |
| FloatDump.DumpVisit | Cpp/CppTest-RSQRT/CppTest-RSQRT/CppTest-RSQRT.cpp:373-380 | after a visit, used < buffSize; file + used part of the buffer grows by exactly the new output; a flush happens exactly when the buffer fills |
| FloatDump.FlushedLength | Cpp/CppTest-RSQRT/CppTest-RSQRT/CppTest-RSQRT.cpp:366-393 | n entries padded to whole blocks need exactly BlocksFor(n) blocks |
| FloatDump.VisitKeepsWritten | Cpp/CppTest-RSQRT/CppTest-RSQRT/CppTest-RSQRT.cpp:373-380 | each visit preserves the writer invariant: the file and used buffer hold the outputs so far, and the rest of the buffer holds what an earlier block left there |
| FloatDump.DumpFinish | Cpp/CppTest-RSQRT/CppTest-RSQRT/CppTest-RSQRT.cpp:392-393 | the final flush writes a whole block when entries are pending, and nothing otherwise |
| FloatDump.FinishedFile | Cpp/CppTest-RSQRT/CppTest-RSQRT/CppTest-RSQRT.cpp:366-393 | the finished file is whole blocks; its first n entries are the outputs; the padding repeats stale buffer contents |
| FloatDump.NewWriter | Cpp/CppTest-RSQRT/CppTest-RSQRT/CppTest-RSQRT.cpp:359-364 | a fresh writer has an empty file, no used entries and its buffer's initial contents |
| FloatDump.DumpAll | Cpp/CppTest-RSQRT/CppTest-RSQRT/CppTest-RSQRT.cpp:373-380 | visiting any sequence of outputs keeps the writer ready: used stays below buffSize |
| FloatDump.DumpAllWritten | Cpp/CppTest-RSQRT/CppTest-RSQRT/CppTest-RSQRT.cpp:373-380 | visiting a sequence of outputs leaves them, in order, in the file followed by the used part of the buffer |
| FloatDump.DumpedFile | Cpp/CppTest-RSQRT/CppTest-RSQRT/CppTest-RSQRT.cpp:383-398 | the dump file of n outputs has BlocksFor(n) blocks and starts with the outputs in visit order |
| FloatDump.DumpedOutputs | Cpp/CppTest-RSQRT/CppTest-RSQRT/CppTest-RSQRT.cpp:373-398 | the k-th entry of the dump is op applied to the k-th visited word |
| FloatDump.DumpFloats | Cpp/CppTest-RSQRT/CppTest-RSQRT/CppTest-RSQRT.cpp:383-398 | the loop over the visits produces a file of whole blocks whose first entries are the outputs in visit order |
| FloatDump.NewReader | Cpp/CppTest-RSQRT/CppTest-RSQRT/CppTest-RSQRT.cpp:407-420 | a fresh reader has a zeroed buffer and nothing read or consumed |
| FloatDump.ReadData | Cpp/CppTest-RSQRT/CppTest-RSQRT/CppTest-RSQRT.cpp:422-429 | corrected reader (the number of floats actually read): a refill reads the next block, or what is left of the file, and keeps the reader invariant: buffered entries are the next stored values |
| FloatDump.CompareVisit | Cpp/CppTest-RSQRT/CppTest-RSQRT/CppTest-RSQRT.cpp:432-447 | corrected reader: a visit pairs its input with the next stored value, or is skipped exactly when the stored values are used up |
| FloatDump.BufferedValue | Cpp/CppTest-RSQRT/CppTest-RSQRT/CppTest-RSQRT.cpp:443 | the entry consumed next is the stored value at the reader's position in the file |
| FloatDump.CompareWithDump | Cpp/CppTest-RSQRT/CppTest-RSQRT/CppTest-RSQRT.cpp:432-465 | corrected reader: the k-th input is paired with the k-th stored value; once the stored values run out the remaining inputs produce nothing |
| FloatDump.CompareAgainstOwnDump | Cpp/CppTest-RSQRT/CppTest-RSQRT/CppTest-RSQRT.cpp:383-447 | comparing a function against its own dump pairs every input with a reference equal to the tested value, and the reader as written gives the very same samples |
| FloatDump.NewStreamReader | Cpp/CppTest-RSQRT/CppTest-RSQRT/CppTest-RSQRT.cpp:407-420 | the as-written reader starts with a good stream and nothing read |
| FloatDump.ReadDataAsWritten | Cpp/CppTest-RSQRT/CppTest-RSQRT/CppTest-RSQRT.cpp:422-429 | as written, a whole block is read into the buffer and sets usedBuff to 10240, but a short read fails the stream, so the 64-bit size_t difference of the tellg readings wraps to 2^62 - 1 - position |
| FloatDump.TellG | Cpp/CppTest-RSQRT/CppTest-RSQRT/CppTest-RSQRT.cpp:424-427 | tellg() is -1 exactly when the stream has failed, and otherwise the byte offset of the float position |
| FloatDump.WholeBlocksAsWritten | Cpp/CppTest-RSQRT/CppTest-RSQRT/CppTest-RSQRT.cpp:422-447 | as written, while every read is a whole block, the comparer pairs the inputs in order with the stored values not yet handed out |
| FloatDump.WholeBlockDumpAsWritten | Cpp/CppTest-RSQRT/CppTest-RSQRT/CppTest-RSQRT.cpp:407-447 | as written, on a dump of whole blocks holding a value per input, the k-th input is paired with the k-th stored value, as with the corrected reader |
| FloatDump.SweepDump | Cpp/CppTest-RSQRT/CppTest-RSQRT/CppTest-RSQRT.cpp:383-398 | the dump of the whole sweep has 208897 blocks; the last holds the output for +infinity and 10239 stale entries, each the output one block earlier |
| FloatDump.ShortDumpPairsStaleValue | Cpp/CppTest-RSQRT/CppTest-RSQRT/CppTest-RSQRT.cpp:422-447 | as written, with an empty dump the first input is paired with the constructor's zero instead of being skipped |
| FloatDump.CompareAsWritten | Cpp/CppTest-RSQRT/CppTest-RSQRT/CppTest-RSQRT.cpp:432-447 | as written: no more samples than inputs, each pairing an input with its tested output; the only failure is a read at or past index 10240 of the buffer |
| HashDiff.ParseHex | Python/integrity-check.py:84-85 | a value is returned only for text that is surrounding whitespace, an optional sign, an optional 0x prefix and hexadecimal digits with single underscores between them, and it is the value of that literal |
| HashDiff.Ungroup | Python/integrity-check.py:84-85 | dropping the underscores leaves hexadecimal digits, and text without underscores is kept |
| HashDiff.LeadingSpace | Python/integrity-check.py:84-85 | the count of leading whitespace that int() skips: all of it is whitespace and the next character is not |
| HashDiff.TrailingSpace | Python/integrity-check.py:84-85 | the count of trailing whitespace that int() skips: all of it is whitespace and the character before is not |
| HashDiff.SplitNumeral | Python/integrity-check.py:84-85 | a numeral splits into a sign, a prefix and grouped digits that concatenate back to it |
| HashDiff.Decompose | Python/integrity-check.py:84-85 | a decomposition is a well-formed literal whose text is the input |
| HashDiff.DecomposeText | Python/integrity-check.py:84-85 | every well-formed literal decomposes back into itself |
| HashDiff.ParseHexAccepts | Python/integrity-check.py:84-85 | int(h, 16) accepts every well-formed literal, with its value |
| HashDiff.PlainHexParses | Python/integrity-check.py:84-85 | plain hexadecimal text reads as its hexadecimal value |
| HashDiff.ParseHexRejects | Python/integrity-check.py:84-85 | text with a character no literal holds, or without any hexadecimal digit, raises |
| HashDiff.DoubledUnderscoreRejected | Python/integrity-check.py:84-85 | text with two underscores in a row raises |
| HashDiff.ParseMinusOne | Python/integrity-check.py:84-85 | "-1" reads as -1 |
| HashDiff.ParseZero | Python/integrity-check.py:84-85 | "0" reads as 0 |
| HashDiff.XorSelf | Python/integrity-check.py:86 | a number xor itself is 0 |
| HashDiff.XorCommutes | Python/integrity-check.py:86 | xor is commutative |
| HashDiff.XorZero | Python/integrity-check.py:86 | xor with 0 is the identity |
| HashDiff.XorCancels | Python/integrity-check.py:86 | xoring twice with the same number cancels |
| HashDiff.HashBinDiff | Python/integrity-check.py:83-86 | the diff exists exactly when int() reads both hashes; for a non-negative xor of the values it is the binary numeral of the xor, and for a negative one it is "b" followed by the binary numeral of its magnitude |
| HashDiff.IntXor | Python/integrity-check.py:86 | xor on unbounded two's-complement integers: the result is negative exactly when one operand is |
| HashDiff.IntXorComplement | Python/integrity-check.py:86 | complementing one operand complements the result |
| HashDiff.IntXorSelf | Python/integrity-check.py:86 | an integer xor itself is 0 |
| HashDiff.IntXorCommutes | Python/integrity-check.py:86 | integer xor is commutative |
| HashDiff.IntXorCancels | Python/integrity-check.py:86 | xoring twice with the same integer cancels |
| HashDiff.BinTail | Python/integrity-check.py:86 | bin(x)[2:] is the binary numeral of x for x >= 0, and "b" followed by the numeral of -x for x < 0 |
| HashDiff.PlainHashBinDiff | Python/integrity-check.py:83-86 | for plain hexadecimal hashes the diff is the binary numeral of the xor of their values |
| HashDiff.HashBinDiffSelf | Python/integrity-check.py:83-86 | every hash that int() reads, compared with itself, gives "0" |
| HashDiff.HashBinDiffSymmetric | Python/integrity-check.py:83-86 | the diff does not depend on the order of the two hashes |
| HashDiff.OppositeSignsGiveB | Python/integrity-check.py:83-86 | hashes read with opposite signs give a diff starting with "b" |
| HashDiff.BinTailMinusOne | Python/integrity-check.py:86 | bin(-1)[2:] is "b1" |
| HashDiff.MinusOneAgainstZero | Python/integrity-check.py:83-86 | hash_bin_diff("-1", "0") is "b1" |
| Text.SplitJoinLines | Python/integrity-check.py:100-138 | splitting the text of newline-terminated lines gives back the lines |
| Text.NumeralRoundTrip | Python/integrity-check.py:76-86 | the value of the numeral of n in a base is n |
| Text.IntToDecimal | Python/integrity-check.py:80 | str() of a non-negative integer is a decimal numeral whose value is the integer; a negative one starts with '-' |
| IntegrityHistory.Crc32HexForm | Python/integrity-check.py:75-76 | the CRC text is a non-empty lower-case word without spaces |
| IntegrityHistory.ParseEntry | Python/integrity-check.py:105-114 | a parsed entry has three non-empty space-free fields and a non-empty path without a newline |
| IntegrityHistory.ParseFormatEntry | Python/integrity-check.py:105-138 | parsing a formatted entry gives back the entry, for space-free fields and a path not starting with a space |
| IntegrityHistory.ReadEntry | Python/integrity-check.py:100-126 | blank lines change nothing; no line removes or alters an accepted file or drops a corrupted entry |
| IntegrityHistory.ReadLines | Python/integrity-check.py:100-126 | reading more lines never removes or changes an accepted file, and never drops a corrupted key |
| IntegrityHistory.Classify | Python/integrity-check.py:103-119 | a line is blank exactly when empty, not an entry exactly when the pattern fails (keeping its text), and a valid entry exactly when the pattern matches with a matching CRC and a numeric time |
| IntegrityHistory.KindsAt | Python/integrity-check.py:100-119 | the i-th kind is the classification of the i-th line |
| IntegrityHistory.ReadLinesClassified | Python/integrity-check.py:100-126 | reading the lines is recording their classifications in order |
| IntegrityHistory.FirstValid | Python/integrity-check.py:120-126 | the index found is a valid entry for the path |
| IntegrityHistory.FirstValidIsFirst | Python/integrity-check.py:120-126 | no earlier line is a valid entry for the path, and no line at all when none is found |
| IntegrityHistory.LaterDuplicateCorrupted | Python/integrity-check.py:120-123 | a valid entry for a path that already had a valid entry is corrupted under its path |
| IntegrityHistory.RecordAllCorrupted | Python/integrity-check.py:103-126 | a key ends up corrupted exactly when it was before or some line is recorded as corrupted under it |
| IntegrityHistory.ReadBody | Python/integrity-check.py:100-126 | from an empty history a path is accepted exactly when some line is a valid entry for it, with the info of the first such line; the corrupted keys are exactly the texts of non-entry lines and the paths of all other entries |
| IntegrityHistory.ParseHeader | Python/integrity-check.py:93-96 | the header yields a version exactly when it is the fixed prefix followed by ASCII digits, and the version is the decimal value of those digits, as `int()` reads them |
| IntegrityHistory.HeaderVersionRoundTrip | Python/integrity-check.py:93-96 | the header for any version's decimal numeral reads back as that version |
| IntegrityHistory.HeaderLeadingZero | Python/integrity-check.py:93-96 | the header `version 01` is accepted and read as version 1 |
| IntegrityHistory.VersionTwoUnsupported | Python/integrity-check.py:93-98 | a file whose header is `version 2` fails as an unsupported version |
| IntegrityHistory.ReadHistory | Python/integrity-check.py:89-128 | reading succeeds exactly when the first line is the version-1 header, and then reads the remaining lines from an empty history; a non-header first line fails as not a history file and any other version as unsupported |
| IntegrityHistory.FirstInconsistent | Python/integrity-check.py:134-137 | finds the first entry, in write order, whose stored CRC differs from the recomputed one, or none if all agree |
| IntegrityHistory.WriteHistory | Python/integrity-check.py:131-138 | writing succeeds exactly when every entry's CRC is consistent, and otherwise names an inconsistent path |
| IntegrityHistory.HeaderLineVersion | Python/integrity-check.py:93-133 | the written header reads back as version 1 |
| IntegrityHistory.ReadWrittenEntry | Python/integrity-check.py:113-138 | reading one written entry for a new path adds exactly that path and its info |
| IntegrityHistory.ReadWrittenEntries | Python/integrity-check.py:100-138 | reading the written entries of distinct paths gives exactly those paths' infos and no corrupted entries |
| IntegrityHistory.ReadHeaderThenBody | Python/integrity-check.py:93-100 | a file whose first line is the header reads its other lines as the body |
| IntegrityHistory.RestrictToAllKeys | Python/integrity-check.py:134 | the entries written in key order cover the whole map |
| IntegrityHistory.WriteReadRoundTrip | Python/integrity-check.py:89-138 | writing a consistent history whose paths hold no `\n` or `\r` (which text-mode reading would split) and reading it back gives the same files map and no corrupted entries |
| IntegrityCheck.OptionsFromFlags | Python/integrity-check.py:291-296 | `--no-changes` turns on ignore-new, no-deleted and no-modified; otherwise each flag is taken as given |
| IntegrityCheck.Classify | Python/integrity-check.py:209-226 | a known path is changed when the mtimes differ unless no-modified is set, unchanged when the hashes match, else corrupted; an unknown path is corrupted when it has a corrupted entry, else new, or ignored with ignore-new |
| IntegrityCheck.Compare | Python/integrity-check.py:204-226 | deleted paths are the old paths missing now; new, changed and corrupted hold exactly the current paths so classified, pairwise disjoint |
| IntegrityCheck.Decide | Python/integrity-check.py:228-261 | an exception escapes exactly when a corrupted file holds a hash int() cannot read; otherwise the result is 0 or -1, 0 exactly when nothing is reported or the history is rewritten; the history is written exactly when something changed, nothing is corrupted, the old history has no corrupted entries and no forbidden change or deletion happened |
| IntegrityCheck.ExitStatus | Python/integrity-check.py:299-300 | the process status is the low byte of the return value, so -1 exits with 255, and an escaped exception exits with 1 |
| IntegrityCheck.NoModifiedNeverChanged | Python/integrity-check.py:213-257 | with no-modified set the changed list is always empty |
| IntegrityCheck.IdenticalStateIsClean | Python/integrity-check.py:204-235 | an unchanged directory gives 0 and no rewrite |
| IntegrityCheck.SilentChangeIsCorruption | Python/integrity-check.py:213-239 | same mtime with a different hash is reported as corruption and the run ends with -1, or raises while printing it |
| IntegrityCheck.TouchedFileIsChanged | Python/integrity-check.py:213-215 | a new mtime makes a file changed, not corrupted, unless no-modified is set |
| IntegrityCheck.NoDeletedBlocksUpdate | Python/integrity-check.py:204-257 | with no-deleted set a missing file is reported deleted and the run ends with -1 (or raises while printing a corrupted file), without a rewrite |
| IntegrityCheck.StaleCorruptedEntryIgnored | Python/integrity-check.py:219-235 | a corrupted history entry for a path that no longer exists does not stop a clean run |
| IntegrityCheck.IgnoredNewFileStillRecorded | Python/integrity-check.py:221-260 | with ignore-new a new file is not reported, yet the rewritten history records it |
| IntegrityCheck.CheckExitStatus | Python/integrity-check.py:228-300 | the script ends with 0, 1 or 255, and with 1 exactly when a corrupted file cannot be printed |
| IntegrityCheck.HexHashesPrintable | Python/integrity-check.py:42-47 | a corrupted file whose hashes are hexadecimal digits always prints |
| IntegrityCheck.CorruptedLineRaises | Python/integrity-check.py:108-239 | a non-entry history line whose text is a current path makes that file corrupted, and printing its empty hashes raises |
| BootCleanup.AlternatingShape | Python/boot-cleanup.py:15-17 | an alternating key has odd length, text at even positions and numbers at odd ones |
| BootCleanup.NaturalKey | Python/boot-cleanup.py:15-17 | the key alternates text and number parts, starting and ending with text |
| BootCleanup.KeyAppend | Python/boot-cleanup.py:15-17 | appending a character extends the key by one tokenizer step |
| BootCleanup.KeyShape | Python/boot-cleanup.py:15-17 | the key has odd length, with text at even positions and numbers at odd ones |
| BootCleanup.KeyOfText | Python/boot-cleanup.py:16-17 | a text without digits has the one-part key of its lower-cased text |
| BootCleanup.KeyAppendText | Python/boot-cleanup.py:16-17 | a non-digit extends the last text part with its lower-case form |
| BootCleanup.KeyAppendDigit | Python/boot-cleanup.py:16-17 | a digit after a digit extends the last number: value*10 + digit |
| BootCleanup.KeyAppendFirstDigit | Python/boot-cleanup.py:16-17 | a digit after a non-digit starts a new number part and an empty text part |
| BootCleanup.KeyOfNumeralSuffix | Python/boot-cleanup.py:15-17 | a decimal numeral after a non-digit contributes one number part of its value |
| BootCleanup.NaturalKeyIgnoresCase | Python/boot-cleanup.py:16 | the key of a lower-cased string equals the key of the string |
| BootCleanup.KeysNeverMixKinds | Python/boot-cleanup.py:15-35 | at each position two keys hold the same kind of part, so comparison never compares text with a number |
| BootCleanup.TextLessAsymmetric | Python/boot-cleanup.py:35 | string order is asymmetric |
| BootCleanup.KeyLessAsymmetric | Python/boot-cleanup.py:35 | key order is asymmetric |
| BootCleanup.KeyLessCommonPrefix | Python/boot-cleanup.py:35 | a common prefix does not change how two keys compare |
| BootCleanup.VersionsCompareNumerically | Python/boot-cleanup.py:15-35 | with the same prefix, versions ending in numbers compare by numeric value |
| BootCleanup.NumericOrderExample | Python/boot-cleanup.py:15-35 | "5.9" sorts before "5.10" by key, though not as plain strings |
| BootCleanup.Insert | Python/boot-cleanup.py:35 | inserting into a key-sorted list keeps it sorted and adds exactly the element |
| BootCleanup.SortVersions | Python/boot-cleanup.py:35 | the sorted versions are key-sorted and a permutation of the input |
| BootCleanup.LastEndAtMost | Python/boot-cleanup.py:34 | finds the last occurrence of "vmlinuz-" ending at or before a position, as the greedy `.*` does |
| BootCleanup.VersionOf | Python/boot-cleanup.py:34 | the version is the text after the last occurrence of "vmlinuz-" (the greedy `.*`), and exists exactly when the path contains it |
| BootCleanup.VersionOfUsesLastOccurrence | Python/boot-cleanup.py:34 | under a base directory named `vmlinuz-old`, `/mnt/vmlinuz-old/vmlinuz-5.1` has version `5.1` |
| BootCleanup.GlobContaining | Python/boot-cleanup.py:20-22 | the glob returns only listed names containing the text, and every visible one of them |
| BootCleanup.GlobDistinct | Python/boot-cleanup.py:20-22 | a listing without repeated names globs every path at most once |
| BootCleanup.Unglobbed | Python/boot-cleanup.py:46-54 | after a glob's matches are moved away, exactly the names it did not match remain, still without repeats |
| BootCleanup.KernelVersions | Python/boot-cleanup.py:32-34 | every `vmlinuz-*` entry contributes its version, every version comes from such an entry, and a distinct listing gives one version per entry |
| BootCleanup.KernelPathHasVersion | Python/boot-cleanup.py:33-34 | every path the kernel glob returns has a version |
| BootCleanup.GlobOverMatches | Python/boot-cleanup.py:20-22 | the files of version 5.10 are among those matched for version 5.1 |
| BootCleanup.RemoveCount | Python/boot-cleanup.py:42 | max(0, n - keep): nothing when keep >= n, otherwise removed + kept = n |
| BootCleanup.MoveAll | Python/boot-cleanup.py:46-54 | every effect is a move into the removed directory; each version's glob sees only what earlier versions left |
| BootCleanup.MoveAllSound | Python/boot-cleanup.py:46-54 | every moved file was matched for some removed version |
| BootCleanup.MoveAllComplete | Python/boot-cleanup.py:46-54 | every file matched for a removed version is moved |
| BootCleanup.MoveAllOnce | Python/boot-cleanup.py:46-54 | in a directory without repeated names no file is moved twice |
| BootCleanup.SecondGlobFindsMovedFilesGone | Python/boot-cleanup.py:46-54 | removing 5.1 then 5.10 from 5.1, 5.10 and 5.11 moves each of the three kernels once: the second glob finds nothing |
| BootCleanup.MovesTo | Python/boot-cleanup.py:49-54 | one move per matched path, in order |
| BootCleanup.SplitVersions | Python/boot-cleanup.py:42-43 | remove is a prefix of the sorted versions of length max(0, n - keep); keep is the rest as a set; together they cover every version |
| BootCleanup.CleanupEffects | Python/boot-cleanup.py:37-56 | pretend does nothing; otherwise the removed directory is created first when missing, exactly the matched files of removed versions are moved there, and none of them twice |
| BootCleanup.Cleanup | Python/boot-cleanup.py:30-56 | fails exactly for negative keep; the versions are sorted by key; remove and keep partition them; the number removed is max(0, kernels - keep) for the number of `vmlinuz-*` entries; the effects are those of the removed versions, with no file moved twice |
| BootCleanup.KeepingAllRemovesNothing | Python/boot-cleanup.py:42 | keeping at least as many versions as exist removes and moves nothing |
| Playlist.GetNext | Python/m3u-to-cd-changer-dir.py:12-15 | returns the current value and leaves the counter one higher |
| Playlist.ParsePath | Python/m3u-to-cd-changer-dir.py:31 | a path is absolute exactly when it starts with '/' |
| Playlist.JoinPath | Python/m3u-to-cd-changer-dir.py:34 | joining onto an absolute path gives that path; otherwise the parts are appended |
| Playlist.Parent | Python/m3u-to-cd-changer-dir.py:34 | the parent drops the last part, and a path without parts is its own parent |
| Playlist.Absolute | Python/m3u-to-cd-changer-dir.py:34 | the result is absolute, and an absolute path is kept |
| Playlist.LastDot | Python/m3u-to-cd-changer-dir.py:42 | finds the last '.' of a name, or reports that there is none |
| Playlist.SuffixForm | Python/m3u-to-cd-changer-dir.py:42 | the suffix is empty or starts with '.' and ends the name |
| Playlist.UniversalNewlines | Python/m3u-to-cd-changer-dir.py:25-26 | text mode leaves no carriage return and does not touch text without one |
| Playlist.EntryLines | Python/m3u-to-cd-changer-dir.py:26-29 | keeps exactly the lines that are neither empty nor start with '#' |
| Playlist.EntryLinesAppend | Python/m3u-to-cd-changer-dir.py:26-29 | the filter works line by line and keeps order |
| Playlist.CommentsAddNoTracks | Python/m3u-to-cd-changer-dir.py:28-29 | inserting a comment or blank line changes no track |
| Playlist.EntryAddsOneTrack | Python/m3u-to-cd-changer-dir.py:26-33 | inserting an entry line adds exactly that track at that place |
| Playlist.ResolveEntry | Python/m3u-to-cd-changer-dir.py:30-34 | every resolved entry is absolute, and absolute entries are kept as they are |
| Playlist.RelativeEntryResolution | Python/m3u-to-cd-changer-dir.py:34 | a relative entry is joined onto the playlist's directory, and onto the current directory as well when the playlist path is relative |
| Playlist.ReadPlaylist | Python/m3u-to-cd-changer-dir.py:23-35 | one absolute track per entry line, in order |
| Playlist.ZerosValue | Python/m3u-to-cd-changer-dir.py:42 | padding zeros are digits of value 0 |
| Playlist.LeadingZeros | Python/m3u-to-cd-changer-dir.py:42 | leading zeros do not change a numeral's value |
| Playlist.PadDigitsForm | Python/m3u-to-cd-changer-dir.py:42 | padding keeps the value and gives at least the requested width |
| Playlist.Pad4 | Python/m3u-to-cd-changer-dir.py:42 | the padded number has at least four characters |
| Playlist.Pad4Form | Python/m3u-to-cd-changer-dir.py:42 | `:04` gives the decimal value, zero-padded to four places; a negative number keeps its sign first |
| Playlist.AssignNumbers | Python/m3u-to-cd-changer-dir.py:41-42 | the i-th track of a playlist gets number start + i, in track order, and the counter advances by the number of tracks |
| Playlist.Copies | Python/m3u-to-cd-changer-dir.py:41-45 | pretend copies nothing; otherwise the i-th numbered track is copied from its source to the target directory under its padded number plus the source's suffix |
| Playlist.ProcessAll | Python/m3u-to-cd-changer-dir.py:63-66 | across all playlists the numbers are consecutive from the initial counter value |
| Playlist.ProcessAllCopiesEveryTrack | Python/m3u-to-cd-changer-dir.py:41-66 | every track of every playlist is numbered once, in playlist order |
| Playlist.Run | Python/m3u-to-cd-changer-dir.py:49-68 | the run numbers tracks consecutively from the initial value, copies nothing in pretend mode, and otherwise copies each numbered track to the target named after its number |
| Playlist.DigitRunBeforeSuffix | Python/m3u-to-cd-changer-dir.py:42 | the digits of a target name end where its suffix begins |
| Playlist.Pad4Injective | Python/m3u-to-cd-changer-dir.py:42 | different numbers, of either sign, pad to different texts |
| Playlist.PaddedNameSplits | Python/m3u-to-cd-changer-dir.py:42 | equal target names mean equal numbers, whatever the signs and suffixes |
| Playlist.DistinctNumbersDistinctTargets | Python/m3u-to-cd-changer-dir.py:42 | two different numbers name different targets, whatever the suffixes of the sources |
| Playlist.ConsecutiveTargetsDistinct | Python/m3u-to-cd-changer-dir.py:41-45 | copies whose numbers run consecutively have pairwise different targets |
| Playlist.DistinctTargets | Python/m3u-to-cd-changer-dir.py:42-66 | whatever the initial counter, no two copies of a run share a target, so no copy overwrites another |
| JsonConcat.ApplyOption | Python/json_concat.py:23-35 | an option is accepted exactly when its lower-cased name is one of the five, and it sets exactly its own setting |
| JsonConcat.Scan | Python/json_concat.py:18-39 | the positionals are no more than the arguments; a failure names an unknown option from the arguments (UnknownOptionFails gives the converse) |
| JsonConcat.UnknownOptionFails | Python/json_concat.py:18-35 | an unknown option before any `--` makes the scan fail |
| JsonConcat.NonOptions | Python/json_concat.py:20-39 | the kept arguments are arguments that do not start with `--` |
| JsonConcat.ScanSplitsAtTerminator | Python/json_concat.py:18-39 | without `--` the scan applies every option and keeps the other arguments in order; a bare `--` is dropped and everything after it stays positional |
| JsonConcat.LastModeOptionWins | Python/json_concat.py:23-26 | the last of `--toArray`/`--toObject`, in any case, decides the output mode |
| JsonConcat.OtherOptionsKeepMode | Python/json_concat.py:23-32 | other options leave the output mode alone |
| JsonConcat.LastLayoutOptionWins | Python/json_concat.py:29-32 | the last of `--humanReadable`/`--optimized`, in any case, decides the layout |
| JsonConcat.OtherOptionsKeepLayout | Python/json_concat.py:23-28 | other options leave the layout alone |
| JsonConcat.ParseCommandLine | Python/json_concat.py:14-46 | a scan failure is reported; fewer than two positionals is a usage error; otherwise the first positional is the output and the rest are the inputs in order |
| JsonConcat.MergeObjects | Python/json_concat.py:48-55 | the merged object has exactly the keys of the object inputs |
| JsonConcat.SkippedInputs | Python/json_concat.py:52-55 | every non-object input is reported as skipped |
| JsonConcat.MergeTakesLastValue | Python/json_concat.py:49-53 | each key has the value from the last object input that has it |
| JsonConcat.NonObjectIgnored | Python/json_concat.py:52-55 | a non-object input does not change the merged object |
| JsonConcat.CollectArray | Python/json_concat.py:57-63 | without flattening, the array has at least one element per input |
| JsonConcat.CollectArrayAppend | Python/json_concat.py:58-63 | inputs contribute independently and in order |
| JsonConcat.UnflattenedArrayIsInputs | Python/json_concat.py:57-63 | without flattening the array is exactly the inputs, in order |
| JsonConcat.FlattenSplicesArrays | Python/json_concat.py:60-61 | with flattening two array inputs give the concatenation of their elements |
| JsonConcat.Concatenate | Python/json_concat.py:48-70 | the output goes to the output file, is an object exactly in object mode, is indented by 4 exactly in human-readable mode, and in plain array mode has one element per input |
| Alphabet.FirstOccurrences | Javascript/AlphabetGenerator/scripts.js:17-22 | the letters object holds each character of the text exactly once |
| Alphabet.DigitKeys | Javascript/AlphabetGenerator/scripts.js:23-27 | the digit keys come out first, ascending, each present digit once |
| Alphabet.OtherKeys | Javascript/AlphabetGenerator/scripts.js:23-27 | the other keys are exactly the non-digit ones, without repeats |
| Alphabet.EnumerationOrder | Javascript/AlphabetGenerator/scripts.js:23-27 | `for in` lists every character of the text exactly once |
| Alphabet.Swap | Javascript/AlphabetGenerator/scripts.js:32-35 | a swap exchanges two neighbours and keeps the same elements |
| Alphabet.SwapRemovesOneInversion | Javascript/AlphabetGenerator/scripts.js:32-37 | swapping an out-of-order pair removes exactly one inversion, which bounds the restarts |
| Alphabet.AdjacentOrderIsAscending | Javascript/AlphabetGenerator/scripts.js:28-38 | a list whose neighbours are in order is strictly ascending |
| Alphabet.SwapKeepsNoDuplicates | Javascript/AlphabetGenerator/scripts.js:32-35 | a swap creates no repeated character |
| Alphabet.RestartBubbleSort | Javascript/AlphabetGenerator/scripts.js:28-38 | the restarting bubble sort terminates with a strictly ascending permutation of its input |
| Alphabet.DropLineControls | Javascript/AlphabetGenerator/scripts.js:39-45 | the filter keeps order and drops exactly `\r`, `\n` and `\t` |
| Alphabet.GetLettersUsedInText | Javascript/AlphabetGenerator/scripts.js:15-48 | the output is strictly ascending, so has no repeats, and holds exactly the text's characters other than `\r`, `\n` and `\t` |
| Alphabet.DistinctElementCount | Javascript/AlphabetGenerator/scripts.js:17-27 | a list without repeats has as many elements as its set |
| Alphabet.AscendingIsDeterminedBySet | Javascript/AlphabetGenerator/scripts.js:28-47 | two strictly ascending lists with the same elements are equal |
| Alphabet.AlphabetIgnoresOrder | Javascript/AlphabetGenerator/scripts.js:15-48 | texts with the same characters give the same alphabet, whatever their order and repetitions |

## Left out

- The inverse-square-root candidates, their SSE intrinsics and the float numerics of the benchmarks and error statistics: floating point and hardware calls. A candidate is an opaque function `op`, and floats are an abstract type that is only stored and compared.
- `ErrorTestData::update` (`CppTest-RSQRT.cpp:283-307`): float relative-error arithmetic. Its `errorMax` compares against a global that is never updated, so it records the last positive error and not the largest. This is not modelled.
- Clock reads in `Timer`: the readings are parameters.
- File and operating-system calls are left out: `ofstream`/`ifstream`, `open`, `glob`, `shutil.move`/`copy`, `os.mkdir`, `stat`, and the directory walk of `get_current_state`. The model works on their inputs and produces their effects as data.
- `PermissionError` during a move: a failed move is only printed, so every move in the plan is attempted; the model does not distinguish moves that fail.
- `zlib.crc32` and SHA-256: foreign libraries. The CRC is a function parameter; hashes are strings.
- JSON parsing and serialization (`json.load`, `json.dumps`), including load errors and duplicate keys. The inputs are parsed values; the output is the value plus the requested indentation; `sort_keys` is reflected by representing objects as maps.
- Console output: printing, logging, the progress bar and the usage text.
- The `argparse` wiring in the `main` functions. The options of `integrity-check.py` are `IntegrityCheck.OptionsFromFlags`, and the validity checks on the directory and history paths are left out.
- `history_file_move_olds`: an empty placeholder.
- The DOM and jQuery code of `updateAlphabet`.
- BootCleanup.NaturalKey: `isdigit` and `lower` are modelled on ASCII only; other Unicode digits and letters are treated as plain text.
- IntegrityHistory.ReadEntry: `isnumeric` is modelled on ASCII digits, so any other character makes the entry rejected with time 0. In Python a time made of non-ASCII Unicode decimal digits (such as `٣`) passes `isnumeric` and `int()` reads its value. A time holding a numeric character that is not a decimal digit (`²`, `½`, `五`) also passes `isnumeric`, but `int()` then raises ValueError and the read ends with an exception (exit status 1). Neither case is modelled. The `\s`/`\S` classes follow Python's full whitespace set (`Text.IsSpace`).
- IntegrityHistory.ReadHistory: universal-newline translation of the history file is not modelled; lines are split at `\n` only.
- BootCleanup.SortVersions: sorts with a stable insertion sort and proves sortedness and permutation. It does not prove that equal keys keep their input order as Python's sort does.
- BootCleanup.GlobContaining: glob metacharacters inside a version string (`*`, `?`, `[`) are taken literally, and matches come in listing order rather than in the order the operating system returns them.
- Playlist.Absolute: the special `//` root that pathlib keeps on POSIX is not modelled. Like pathlib, the model drops `.` components and repeated slashes, and never collapses `..`.
- Playlist.SuffixForm: the suffix rule is that of pathlib up to Python 3.13, where a final dot is not a suffix. Python 3.14 takes a trailing `.` as the suffix.
- Playlist.ReadPlaylist: UTF-8 decoding errors are not modelled.
- Stopwatch.Stop: the duration is the exact quotient of the nanosecond count by 10^9, not the rounded `double` the C++ computes.
- BootCleanup.VersionOf: names containing a newline are not modelled. In Python `.` does not match `\n`, so the version would end at the first newline.
- HashDiff.ParseHex: non-ASCII Unicode decimal digits, which `int()` also accepts, make the model return None.
- Text.Lower: Python 2 `str.lower` in `json_concat.py` is modelled as ASCII lower-casing.

## Findings

| source | as written | input that shows it | evidently intended | confidence | as-written member | corrected member |
|---|---|---|---|---|---|---|
| Cpp/CppTest-RSQRT/CppTest-RSQRT/CppTest-RSQRT.cpp:424-427 | `readData` sets `usedBuff` to the difference of two `tellg()` readings. A read shorter than a block fails the stream, so the second reading is -1 and the `size_t` count wraps to about 2^62 on a 64-bit build. On dumps of whole blocks, such as the program's own, every read is whole and the reader as written agrees with the corrected one (`FloatDump.WholeBlockDumpAsWritten`). | An empty dump file: the first visit reads nothing, yet `usedBuff` becomes 2^62 - 1. The input is paired with the zero left in the buffer, and later visits read past the buffer. | `usedBuff` should be the number of floats actually read (`gcount()`). Once the dump is exhausted, the remaining visits should be skipped. | medium (assumes a 64-bit `size_t`; on a 32-bit build the empty-file difference divides to 0); not executed | FloatDump.ShortDumpPairsStaleValue | FloatDump.CompareWithDump |
