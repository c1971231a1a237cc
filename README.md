# reservoir-sample, modelled in Dafny

reservoir-sample prints a random sample of k lines of a text file. It never
holds lines in memory, only their byte offsets. A reservoir of offsets is filled
with Algorithm R while the file is scanned. The scan is either a byte-by-byte walk
over a memory mapping or a loop of `fgets`/`ftell` calls that each read at most
65536 bytes. When no k is given, every offset is collected into a buffer that
grows in steps of 10000 and is then shuffled with Fisher–Yates. With
`--preserve-order` the offsets are sorted before printing. The printers copy one
line per offset from the mapping, or seek and `fgets` through stdio. The sorted
stdio printer uses relative seeks.

The model treats the file as its bytes (`seq<byte>`) and a file position as an
index into them. The results of `rand()` are inputs: `draw(i)` holds the two
values taken for line i, and `pick(i)` the value taken at shuffle step i.

- `defs.dfy` (`Defs`): the byte type, the constants of reservoir-sample.h, and
  uniqueness facts about ordered sequences.
- `scan.dfy` (`LineScan`): the `fgets` read (`ReadLine`, `ChunkEnd`), the
  offsets recorded by the buffered scan (`BufferedStarts`) and by the mmap scan
  (`MmapStarts`), and how the two differ at the end of the file.
- `sampling.dfy` (`Sampling`): the Algorithm R update (`Step`, `Fill`,
  `ReservoirSample`), the Fisher–Yates shuffle (`Shuffled`), the growth of the
  buffer (`CapacityAfter`), and `offset_compare`.
- `emission.dfy` (`Emission`): what the printers write (`Emitted`), when the mmap
  printer stays inside the mapping (`InMapping`), the round trips, and the seek
  arithmetic.
- `reservoir.dfy` (`Reservoir`): `struct offset_reservoir` as the class
  `OffsetReservoir`, with an `array<int>` of offsets and `numOffsets`. Each scan,
  the sort and each printer is an imperative method proved against the functions
  above.
- `driver.dfy` (`Driver`): the decisions of `main` as a function `Dispatch` from
  the parsed options and the file size to a plan or an error (an empty file
  cannot be mapped: `new_file_mmap` exits when `mmap` fails, at
  reservoir-sample.c:452-462), and `Run`, which carries a plan out on
  an `OffsetReservoir`.

## Model

| member | source | states |
|---|---|---|
| `LineScan.ReadLine` | reservoir-sample.c:179 | one `fgets` into a buffer of LINE_LENGTH_VALUE + 1 bytes ends inside the file and reads at most the budget |
| `LineScan.ReadLineStops` | reservoir-sample.c:179-197 | a read stops after the first '\n', after LINE_LENGTH_VALUE bytes or at end of file, and reads at least one byte when not at end of file |
| `LineScan.ChunkEnd` | reservoir-sample.c:179-197 | the `ftell` position after one `fgets` from pos: never before pos, never past end of file, at most LINE_LENGTH_VALUE bytes on, and past pos unless at end of file |
| `LineScan.ChunkEndStops` | reservoir-sample.c:179-197 | the position `ftell` reports after one read: no '\n' before its last byte, and it ends at a '\n', after LINE_LENGTH_VALUE bytes or at end of file |
| `LineScan.LineFitsAt` | reservoir-sample.c:179-197 | from a line start, the capped read ends the line exactly when the line holds at most LINE_LENGTH_VALUE bytes, and then it stops where the line ends |
| `LineScan.ChunkStartsFrom` | reservoir-sample.c:179-202 | the `fgets` loop from a position: records the position, then continues from where the read stopped; at most one offset per remaining byte |
| `LineScan.BufferedStarts` | reservoir-sample.c:152-210 | the buffered scan of the whole file from offset 0; it records at most one offset per byte |
| `LineScan.ChunkStartsShape` | reservoir-sample.c:241-256 | from a position, the recorded offsets are strictly increasing and lie inside the file; each is where the previous read stopped; the last read ends at end of file |
| `LineScan.BufferedStartsShape` | reservoir-sample.c:179-202 | the buffered scan records 0 first (for a non-empty file), then the position after each chunk; the offsets are strictly increasing and adjacent ones are 1 to LINE_LENGTH_VALUE bytes apart |
| `LineScan.LongLineSplits` | reservoir-sample.c:179-202 | a line longer than LINE_LENGTH_VALUE yields a further recorded offset 65536 bytes in, and that offset is not a line start |
| `LineScan.BufferedStartsAreLineStarts` | reservoir-sample.c:179-202 | when no line exceeds the cap, the buffered offsets are exactly the line starts, including that of an unterminated last line |
| `LineScan.LastStart` | reservoir-sample.c:298-299 | the mmap scan's running start_offset is inside the file exactly when the file ends in an unterminated line |
| `LineScan.LastStartShape` | reservoir-sample.c:298-299 | start_offset is 0 or just after a '\n', and no '\n' follows it |
| `LineScan.MmapStarts` | reservoir-sample.c:284-301 | the byte walk records start_offset at each '\n' and moves it just past it; at most one offset per byte |
| `LineScan.MmapStartsCount` | reservoir-sample.c:284-301 | the mmap scan records one offset per '\n' byte |
| `LineScan.MmapStartsAreTerminatedLineStarts` | reservoir-sample.c:284-301 | the mmap offsets are strictly increasing and are exactly the line starts before the last start, i.e. of the '\n'-terminated lines |
| `LineScan.TrailingLineCountedOnlyByBuffered` | reservoir-sample.c:284-301 | an empty file yields no offsets from either scan; an unterminated last line is recorded by the buffered scan and never by the mmap scan |
| `LineScan.ScanAsymmetry` | reservoir-sample.c:284-301 | when no line exceeds the cap, buffered offsets = mmap offsets followed by the unterminated last line, if any; the buffered count is the '\n' count plus one for that line |
| `Sampling.Slot` | reservoir-sample.c:189 | the replacement slot rand() % k lies in [0, k) |
| `Sampling.Accepts` | reservoir-sample.c:186-188 | the acceptance test k / (ln_idx + 1) > u / RAND_MAX, with u the second rand() value, written without division as u * (ln_idx + 1) < k * RAND_MAX |
| `Sampling.AcceptsIsRatio` | reservoir-sample.c:186-188 | the acceptance test `Accepts`, u * (ln_idx + 1) < k * RAND_MAX, holds exactly when k / (ln_idx + 1) > u / RAND_MAX over the rationals |
| `Sampling.Step` | reservoir-sample.c:181-196 | one line of a fixed-k scan on the array; it keeps the array length (`StepEffect` gives its effect slot by slot) |
| `Sampling.StepEffect` | reservoir-sample.c:181-196 | line i < k is written to slot i; a later line overwrites slot rand() % k only when accepted; every other slot is unchanged |
| `Sampling.Fill` | reservoir-sample.c:179-207 | the whole array after a fixed-k scan has offered the lines in order; same length as before (`FillIsSample` relates it to the sample) |
| `Sampling.ReservoirSample` | reservoir-sample.c:205-207 | the sample has min(k, n) entries; with n <= k it is the offsets in scan order |
| `Sampling.FillIsSample` | reservoir-sample.c:163-207 | after a fixed-k scan the first min(k, n) array slots are the sample, whatever the array held before, and the remaining slots are untouched |
| `Sampling.SampleFromLines` | reservoir-sample.c:181-196 | every kept offset is an offered offset, and no offered offset is kept twice when the offsets are distinct |
| `Sampling.ShuffleIndex` | reservoir-sample.c:261 | the Fisher–Yates index (rand() / RAND_MAX) * i lies in [0, i] |
| `Sampling.Swap` | reservoir-sample.c:262-264 | the exchange through temp_offset as a function of the array; same length (`SwapEffect` gives its effect) |
| `Sampling.SwapEffect` | reservoir-sample.c:262-264 | the exchange through temp_offset swaps the two slots, leaves the rest and keeps the multiset |
| `Sampling.ShuffleFrom` | reservoir-sample.c:260-265 | the Fisher–Yates loop from shuf_idx = i down to 1, each step swapping i with the drawn index; same length |
| `Sampling.ShuffleFromPermutes` | reservoir-sample.c:260-265 | the loop from i down to 1 keeps the multiset of offsets |
| `Sampling.Shuffled` | reservoir-sample.c:259-265 | the shuffle is a permutation and leaves 0 or 1 offsets unchanged |
| `Sampling.CapacityAfter` | reservoir-sample.c:243-251 | the buffer size after n lines: grows by DEFAULT_SAMPLE_SIZE_INCREMENT when ln_idx reaches it, and never shrinks below the starting k |
| `Sampling.CapacityBounds` | reservoir-sample.c:243-251 | the buffer always has room for every line so far, grows only in multiples of DEFAULT_SAMPLE_SIZE_INCREMENT, and is never a whole increment larger than needed |
| `Sampling.OffsetCompare` | reservoir-sample.c:323-331 | the comparator returns 1 exactly when off1 > off2 and -1 otherwise, never 0 |
| `Sampling.Int32` | reservoir-sample.c:329 | conversion of the 64-bit difference to `int` keeps the value modulo 2^32 in [-2^31, 2^31) and is the identity in range |
| `Sampling.OffsetCompareAsWritten` | reservoir-sample.c:323-331 | offset_compare as written, with the `int` truncation of the difference; it returns only 1 or -1 |
| `Sampling.AsWrittenAgreesNearby` | reservoir-sample.c:329-330 | the comparator as written agrees with the intended one for offsets less than 2^31 apart |
| `Sampling.AsWrittenMisorders` | reservoir-sample.c:329-330 | offsets 2^31 and 0 compare the wrong way round in the comparator as written |
| `Emission.LineAt` | reservoir-sample.c:381-382 | one printed line is at most LINE_LENGTH_VALUE bytes, has no '\n' before its last byte, and ends at a '\n', at the cap or at end of file |
| `Emission.Emitted` | reservoir-sample.c:345-349 | what a printer writes for a list of offsets: the capped line at each, in list order, so at most LINE_LENGTH_VALUE bytes per offset |
| `Emission.BufferedRoundTrip` | reservoir-sample.c:409-416 | printing every buffered offset in scan order reproduces the file |
| `Emission.PreserveOrderRoundTrip` | reservoir-sample.c:374-385 | an ascending permutation of all buffered offsets prints as the original file |
| `Emission.TrailingLineRead` | reservoir-sample.c:179-197 | when no line exceeds the cap, the read from an unterminated last line reaches end of file |
| `Emission.MmapThenTrailingEmitsFile` | reservoir-sample.c:343-350 | when no line exceeds the cap, the mmap offsets followed by the unterminated last line, if any, print the whole file |
| `Emission.MmapRoundTrip` | reservoir-sample.c:343-350 | printing every mmap offset in order reproduces the file up to its last '\n' |
| `Emission.MmapPreserveOrderRoundTrip` | reservoir-sample.c:343-350 | an ascending permutation of all mmap offsets prints the file up to its last '\n' when no line exceeds the cap |
| `Emission.MmapStartsInMapping` | reservoir-sample.c:345-349 | from every offset of the mmap scan the printer meets a '\n' or the cap before the end of the mapping |
| `Emission.TerminatedFileInMapping` | reservoir-sample.c:345-349 | in a file that is empty or ends with '\n' the printer stays inside the mapping from any offset |
| `Emission.HybridTrailingLineLeavesMapping` | reservoir-sample.c:72-75 | in hybrid mode an unterminated last line shorter than the cap is recorded, and the mmap printer reading it reaches the end of the mapping |
| `Emission.SortedSeeksForward` | reservoir-sample.c:380-384 | for ascending distinct buffered offsets the position after the previous read never passes the next target, and each relative seek the printer issues is non-negative |
| `Emission.PositionBefore` | reservoir-sample.c:380 | the stream position before each relative seek of the sorted printer: 0, then where the previous `fgets` stopped; always inside the file |
| `Emission.SeekDistance` | reservoir-sample.c:380 | the distance of one relative seek, offs[i] - previous_offset - previous_line_length, with both 0 before the first read; `RelativeSeeksLand` shows where it lands |
| `Emission.RelativeSeeks` | reservoir-sample.c:374-385 | the list of `SEEK_CUR` distances the loop issues before its first n reads, one `SeekDistance` per read |
| `Reservoir.OffsetReservoir.constructor` | reservoir-sample.c:93-118 | a fresh buffer of len offsets with num_offsets = len |
| `Reservoir.OffsetReservoir.Offer` | reservoir-sample.c:181-196 | the array after offering one line is `Step` of the array before |
| `Reservoir.OffsetReservoir.SampleViaCstdioWithFixedK` | reservoir-sample.c:152-210 | the array becomes `Fill` over the buffered offsets, it stays the same array, and num_offsets becomes min(k, lines) |
| `Reservoir.OffsetReservoir.SampleViaMmapWithFixedK` | reservoir-sample.c:270-306 | the array becomes `Fill` over the mmap offsets, it stays the same array, and num_offsets becomes min(k, lines) |
| `Reservoir.OffsetReservoir.Resize` | reservoir-sample.c:243-251 | a fresh larger buffer holding the old offsets at the front |
| `Reservoir.OffsetReservoir.CollectViaCstdio` | reservoir-sample.c:241-257 | every buffered offset is stored in order, num_offsets is the line count, and the capacity is `CapacityAfter` |
| `Reservoir.OffsetReservoir.ShuffleOffsets` | reservoir-sample.c:259-265 | the first num_offsets slots become `Shuffled` of their old contents and the rest are unchanged |
| `Reservoir.OffsetReservoir.ShuffleViaCstdioWithUnspecifiedK` | reservoir-sample.c:212-268 | num_offsets is the line count, the capacity is `CapacityAfter`, and the offsets are `Shuffled` of the buffered offsets |
| `Reservoir.OffsetReservoir.SwapSlots` | reservoir-sample.c:262-264 | the in-place exchange of two slots is `Swap` of the array prefix |
| `Reservoir.OffsetReservoir.SortOffsets` | reservoir-sample.c:315-321 | the first num_offsets slots become ascending and a permutation of their old contents; the slots after them are unchanged |
| `Reservoir.OffsetReservoir.PrintViaMmap` | reservoir-sample.c:333-351 | the output is `Emitted` over the offsets in reservoir order |
| `Reservoir.CopyLineFromMapping` | reservoir-sample.c:345-349 | the inner copy loop with its break outputs exactly `LineAt` of the offset |
| `Reservoir.OffsetReservoir.PrintSortedViaCstdio` | reservoir-sample.c:353-388 | the output is `Emitted` over the offsets in reservoir order, the seeks issued are `RelativeSeeks`, and each lands on its target offset |
| `Reservoir.ReadSortedChunks` | reservoir-sample.c:372-385 | the seek-then-`fgets` loop, with previous_offset and previous_line_length, outputs `Emitted` over the offsets, issues the seeks `RelativeSeeks`, and each seek lands on its target |
| `Emission.RelativeSeeksLand` | reservoir-sample.c:380-384 | the seek the printer computes, offs[i] - previous_offset - previous_line_length, taken from the position where the previous `fgets` left the stream, lands exactly on offs[i], because the printed length is how far that read moved |
| `Reservoir.OffsetReservoir.PrintUnsortedViaCstdio` | reservoir-sample.c:390-419 | the output is `Emitted` over the offsets in reservoir order |
| `Driver.Dispatch` | reservoir-sample.c:28-86 | a plan has k > 0 and sorts exactly when order is preserved; stdio prints sorted with relative seeks or unsorted as preserve-order says; mmap and hybrid print via the mapping and need a non-empty file; the mmap scan is chosen exactly for the mmap backend |
| `Driver.DispatchErrors` | reservoir-sample.c:28-59 | exactly k <= 0, no file, with-replacement, stdin, mmap without k and a mapped empty file fail, each with the error main reports first: usage, with-replacement, stdin, then on mmap the mapping failure before the missing k |
| `Driver.HybridPlan` | reservoir-sample.c:39-44 | a corollary of `Dispatch`'s contract, stated for the hybrid backend: it scans through stdio and prints via the mapping |
| `Driver.EffectiveK` | reservoir-sample.c:578-581 | k is the -k value, or 0 + DEFAULT_SAMPLE_SIZE_INCREMENT when no -k was given |
| `Driver.TerminatedFileHybridReadable` | reservoir-sample.c:72-75 | any sample of chunk offsets of a file ending with '\n' is printed in hybrid mode without leaving the mapping |
| `Driver.Offered` | reservoir-sample.c:38-55 | the offsets the chosen scan offers, the mmap scan's or the buffered scan's; strictly increasing |
| `Driver.Scanned` | reservoir-sample.c:38-55 | the reservoir after the chosen scan holds only offered offsets; without -k it is a permutation of all chunk offsets; with a given k it has min(k, offered) entries and no offset twice; with a k no smaller than the line count it is all offered offsets in file order |
| `Driver.OfferedReadable` | reservoir-sample.c:72-86 | the stdio printers can read every offset a scan offers, and the mmap printer every offset the mmap scan offers |
| `Driver.ScanInto` | reservoir-sample.c:36-55 | the scan branch yields a fresh reservoir whose counted slots are `Scanned` |
| `Driver.EmitReservoir` | reservoir-sample.c:72-86 | the print branch outputs `Emitted` over the counted slots, given that in hybrid mode those slots are readable from the mapping |
| `Driver.Run` | reservoir-sample.c:17-91 | main fails exactly as `Dispatch` says for this file size; otherwise the output is `Emitted` of the sample, a permutation of `Scanned`, equal to it without a sort and ascending with one; with a given k the sample has min(k, offered) entries; with preserve-order and no k, or a k no smaller than the line count, the output is the file (on mmap, the file up to its last '\n' when lines fit) |

## Left out

- Command-line parsing: `parse_command_line_options`, `initialize_globals` and `print_usage` are not modelled. Conflicting flags and a file count other than one are usage errors before `main`'s own checks. `Config` holds the options after parsing.
- Real I/O: `fopen`, `fgets`, `ftell`, `fseek`, `fclose`, `open`, `fstat`, `mmap`, `munmap` and writes to stdout. The file is a byte sequence, a position is an index into it, and the output is a byte sequence. A file that cannot be opened is not modelled, nor is the text of the error messages. The one mapping failure modelled is that of an empty file: `mmap` refuses a length of 0, so the mmap and hybrid backends end with `MapFailed` on it.
- `rand()`, `srand(time(NULL))`: the values drawn are inputs, within [0, RAND_MAX] with RAND_MAX taken as the glibc value 2147483647. Statistical claims such as the k/n selection probability are not stated.
- `Sampling.Accepts`: the floating-point test `(double) k / (ln_idx + 1) > (double) rand() / RAND_MAX` is compared exactly, as `u * (i + 1) < k * RAND_MAX`, which `AcceptsIsRatio` shows equal to the ratio test over the rationals. Rounding of the doubles is not modelled.
- `Sampling.ShuffleIndex`: computes the floor of `r * i / RAND_MAX` exactly. The double product truncated to `long` may round differently near whole numbers; the bound j <= i is what is relied on.
- `Reservoir.OffsetReservoir.SortOffsets`: `qsort` is the C library's; an insertion sort stands for it. It sorts with the corrected comparator `OffsetCompare`, not the one as written: the source's `qsort` is guaranteed ascending when all offsets are less than 2^31 bytes apart (`AsWrittenAgreesNearby`), and a pair whose difference modulo 2^32 falls in [2^31, 2^32) compares the wrong way round (see Findings). Only its result (ascending, a permutation) is specified, and `Defs.AscendingUnique` shows that the result determines it.
- Machine widths: `int k` and `int ln_idx` in the mmap scan, `int idx` and `int res_idx` in the printers, and `long`/`off_t` counters are ideal integers. The `int` truncation in `offset_compare` is the one width effect modelled, in `OffsetCompareAsWritten` only; the sort uses the corrected comparator (see Findings).
- `Reservoir.OffsetReservoir.PrintSortedViaCstdio`, `Reservoir.ReadSortedChunks`, `Reservoir.OffsetReservoir.PrintUnsortedViaCstdio`: `printf("%s")` stops at a NUL byte, so a line holding NUL prints short, and in the sorted printer the `strlen` behind previous_line_length is short too, so the next relative seek is off. The model prints and counts the whole chunk, which holds for NUL-free input.
- Reads past the end of the mapping: the mmap printer does not check the mapping size. `PrintViaMmap` requires `InMapping` for every offset it prints, and `Run` requires `HybridReadable` of the sample it will print. `HybridTrailingLineLeavesMapping` shows when hybrid mode breaks that condition.
- `LineScan.BufferedStartsAreLineStarts`, `ScanAsymmetry`, `Emission.TrailingLineRead`, `MmapThenTrailingEmitsFile`, `MmapRoundTrip`, `MmapPreserveOrderRoundTrip`, and the mmap round trip of `Driver.Run`: stated for files with no line longer than LINE_LENGTH_VALUE (`LinesFit`); `LongLineSplits` covers the other case.
- Allocation failures of `malloc`/`realloc` and the `exit(EXIT_FAILURE)` paths they take are not modelled; allocation succeeds.
- `free_offset_reservoir_ptr`, `free_file_mmap`, and all `#ifdef DEBUG` output, including `print_offset_reservoir_ptr`: no effect on the output.
- `offset_reservoir_sample_input_via_mmap_with_unspecified_k`: an empty stub that `main` never calls.
- Sampling with replacement: `main` rejects it and there is no implementation; it is the error `WithReplacementNotSupported`.

## Findings

| source | as written | input that shows it | evidently intended | confidence | as-written member | corrected member |
|---|---|---|---|---|---|---|
| reservoir-sample.c:329-330 | `int off_diff = off1 - off2` truncates the 64-bit `off_t` difference to 32 bits before its sign is tested | offsets 2147483648 and 0 (a file over 2 GiB): the difference becomes -2^31 and the later offset compares as the smaller | compare the offsets themselves: 1 when off1 > off2, otherwise -1 | not executed | `Sampling.AsWrittenMisorders` | `Sampling.OffsetCompare` |
