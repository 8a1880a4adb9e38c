# Height-range query engine of the Mina block downloader, in Dafny

This project models the core of a small tool that mirrors Mina blocks from a
Google Cloud Storage bucket into a local directory. Each block is stored as
`gs://<bucket>/<network>-<height>-<state hash>.json`. Each run writes a batch
of queries to a query file and pipes that file into `gsutil -m cp -n -I <dir>`.
It then prints the `Copying ...` lines of the copier's output. On the range
paths the tool does not ask the bucket which heights exist: it works out a
window of heights and writes one wildcard query
`gs://<bucket>/<network>-<height>-*.json` per height. The one exception is the
listing path of `new_only`. It lists the bucket with
`gsutil -m ls gs://<bucket>/<network>-*-*.json` (new_only.rs:157-172) and
writes the exact listed keys it keeps (new_only.rs:189-195).

Three subcommands share that pipeline, and all three are modelled:

- `new_only` (`src/new_only.rs`) runs once and takes one of two paths.
  - The range path starts from the local maximum height and a start policy:
    buffered, an explicit `--start`, or `--strict`. It ends at an estimate of
    the network's height made from the age of the newest local block.
  - The listing path lists the whole bucket. It parses every key, sorts the
    keys by height and queries those from ten below the local maximum upward.
- `loop` (`src/continuous_loop.rs`) has a catch-up phase and a maintenance
  phase.
  - Catch-up repeats cycles that query `additional` heights above the local
    maximum, until the copier's output has a `CommandException` line.
  - Maintenance repeats cycles with a lookahead derived from the polling
    frequency.
- `contiguous` (`src/contiguous.rs`) queries a fixed run of heights.

The model keeps the Rust code's three ways out of an operation apart. This
is the `Outcome` type: a value, an error propagated with `?`, or a panic
(`unwrap`, `assert!`, or an arithmetic overflow or underflow). Integer
arithmetic follows a build with overflow checks, as in Rust's debug profile;
a release build would wrap around instead. The query file and standard output
are the fields of a `Workspace` object. The subcommands' methods truncate it,
append to it and print to it, and each method is proved equal to a pure
specification function of its inputs. The properties are proved about those
functions.

The modules follow the program's structure:

| module | file | what it holds |
|---|---|---|
| `Outcomes` | outcomes.dfy | `Option`, `Outcome`, the error kinds and panic sites, `u32`/`u64` |
| `Text` | text.dfy | `str::split`, `starts_with`, decimal rendering, `u32::from_str` |
| `Codec` | codec.dfy | `MinaBlockQuery::from_str`/`to_string`, `MinaMainnetBlock::from_str`, the wildcard query line |
| `Sorting` | sorting.dfy | a stable sort by key, as `sort_by`/`sort_by_key` promise it |
| `Planner` | planner.dfy | start and end heights, the lookahead, the overflow points |
| `Coverage` | coverage.dfy | the local maximum height, computed in two different ways |
| `Copier` | copier.dfy | the copier's reply and how its output is read |
| `Batch` | batch.dfy | the range batch, the `Workspace`, the download step |
| `Listing` | listing.dfy | the listing path: `lines`, `filter_map(from_str)`, sort, `skip_while` |
| `NewOnly` | new_only.dfy | the `new_only` run |
| `ContinuousLoop` | continuous_loop.dfy | one cycle, the two phases, the whole run |
| `Contiguous` | contiguous.dfy | the `contiguous` run |

### Hazards in the code

The model keeps each of these behaviours of the code.

- An empty block directory makes `new_only` panic on `.last().unwrap()`
  (new_only.rs:80-83); only `loop` takes 0 as the maximum then
  (continuous_loop.rs:114-116). See `Coverage.NewOnlyMaxLength` and
  `NewOnly.EmptyBlockDirPanics`.
- A local file name without a readable height:
  - `new_only` panics in its sort comparator as soon as it compares such a
    file with another (new_only.rs:74-78);
  - `loop` sorts such files as height 0 and panics only when the file it
    picks as the last one has no readable height (continuous_loop.rs:112-116).
- `MinaBlockQuery::from_str` unwraps a missing object name, length field or
  hash field (new_only.rs:244-249). So one `gs://` listing line missing a
  field ends the whole listing path with a panic. A line without `gs://`, or
  one whose length is not a `u32`, is an `Err` that `filter_map` drops
  (new_only.rs:174-177).
- `--strict` together with `--start` trips the `assert!` at
  new_only.rs:59-62.
- The last height `new_only` asks for is `our_max + minutes / 3 + 1`, where
  `minutes` is the age of the newest local block (new_only.rs:139).

## Model

| member | source | states |
|---|---|---|
| Text.Split | src/new_only.rs:243-249 | `str::split`: at least one piece, no piece contains the separator, pieces only hold characters of the input, and there is exactly one piece iff the separator is absent |
| Text.SplitJoin | src/new_only.rs:243 | joining the pieces with the separator gives back the input, so splitting loses nothing |
| Text.SplitAfter | src/new_only.rs:246-248 | splitting `a + sep + b`, with `a` separator-free, gives `a` followed by the pieces of `b` |
| Text.SplitHead | src/new_only.rs:249 | the first piece of `a + t` extends `a` by the first piece of `t`; the later pieces are those of `t` |
| Text.SplitStop | src/new_only.rs:249 | a separator (or the end) right after a separator-free `a` makes `a` the first piece |
| Text.SplitConcat | src/continuous_loop.rs:66-67 | splitting `a`, a line break, then `b` gives the pieces of `a` followed by the pieces of `b` |
| Text.Show | src/new_only.rs:150 | the `{}` rendering of a height is a non-empty string of digits without a leading zero |
| Text.ValueOfShow | src/new_only.rs:150 | reading the rendered digits back gives the height |
| Text.ShowInjective | src/new_only.rs:150 | different heights render differently |
| Text.ParseU32 | src/new_only.rs:248 | `u32::from_str` rejects the empty string and accepts only digits after an optional `+` |
| Text.ParseShow | src/new_only.rs:248 | `u32::from_str` of a rendered `u32` gives it back |
| Codec.ParseQuery | src/new_only.rs:240-259 | `MinaBlockQuery::from_str`: the missing-prefix error exactly when `gs://` is missing, any other error is an invalid number, a panic only at a missing object name, length or hash field; accepted keys are well formed |
| Codec.ParseLocation | src/new_only.rs:243-245 | the bucket is cut at the first `/`; no second field panics |
| Codec.Render | src/new_only.rs:262-269 | `MinaBlockQuery::to_string`, `gs://{bucket}/{network}-{length}-{hash}.json`; `Codec.ParseRender` proves `from_str` reads every well-formed key back from it |
| Codec.Pattern | src/new_only.rs:150 | the wildcard line written for one height; `Codec.PatternParses` proves it reads back as that bucket, network and height, and `Codec.PatternInjective` that distinct heights give distinct lines |
| Codec.ParseObjectName | src/new_only.rs:246-249 | network, length and hash are cut at `-` and the hash at `.`; a length that is not a `u32` is an error, a missing field a panic |
| Codec.ParseRender | src/new_only.rs:262-269 | `from_str(to_string(q)) == q` for every well-formed key |
| Codec.ParseQueryFields | src/new_only.rs:240-256 | a key `gs://b/n-len-hash` followed by `.`, `-` or `/` parses to exactly those four fields |
| Codec.ParseQueryRejectsForeignScheme | src/new_only.rs:258 | anything without `gs://` is an error |
| Codec.ParseQueryRejectsBadLength | src/new_only.rs:248 | a length field that `u32::from_str` rejects makes the key an error, not a panic |
| Codec.BadLengthName | src/new_only.rs:246-248 | inside the object name, a length field that `u32::from_str` rejects is an error |
| Codec.ParseQueryPanicsWithoutObjectName | src/new_only.rs:245 | `gs://` followed by no `/` panics at the object name |
| Codec.ParseQueryPanicsWithoutHash | src/new_only.rs:249 | `gs://b/n-len` panics at the missing hash field |
| Codec.PatternParses | src/new_only.rs:150 | the wildcard line for height `h` parses as the key at height `h` with hash `*` |
| Codec.PatternInjective | src/new_only.rs:150 | different heights give different wildcard lines |
| Codec.ParseLocalLength | src/new_only.rs:275-288 | `MinaMainnetBlock::from_str`: the `NoDash` error exactly when the name has no `-`, `InvalidNumber` for a length field that is not a `u32`, and never a panic |
| Codec.LocalLengthFields | src/new_only.rs:279-284 | a name `network-len-rest` reads as `len` |
| Codec.LocalLengthRejectsBadLength | src/new_only.rs:282 | a length field `u32::from_str` rejects is an error |
| Sorting.SortBy | src/new_only.rs:183 | the sort keeps the length and the multiset of elements |
| Sorting.SortBySorted | src/new_only.rs:183 | the sorted result is ordered by the key |
| Sorting.SortByStable | src/new_only.rs:183 | elements with equal keys keep their input order |
| Sorting.SortByLastIsMax | src/continuous_loop.rs:112-116 | the last element of a non-empty sorted sequence comes from the input and has the largest key |
| Planner.SelectPolicy | src/new_only.rs:59-62 | panics iff `--strict` and `--start` are both given; otherwise the flags select exactly one policy |
| Planner.NewOnlyStart | src/new_only.rs:143-148 | buffered: at least 2, `max(2, our_max - buffer)`, 2 when the buffer exceeds the maximum; explicit: the given height; strict: above `our_max`, overflowing only at `u32::MAX` |
| Planner.NewOnlyEnd | src/new_only.rs:139 | `our_max + minutes / 3 + 1` is above `our_max`; an overflow panic exactly when it leaves `u32` |
| Planner.StartBeforeEndOverflow | src/new_only.rs:139-148 | whenever the end height fits, every start policy succeeds, so the strict start's own overflow is unreachable |
| Planner.SaturatingSub | src/continuous_loop.rs:124 | `saturating_sub` is the difference, or 0 below zero |
| Planner.LoopStart | src/continuous_loop.rs:124 | at least 2, at most `max(2, max)`, `max - buffer` when that is at least 2 |
| Planner.LoopEnd | src/continuous_loop.rs:125 | `max + additional`, an overflow panic exactly when it leaves `u32` |
| Planner.MaintenanceLookahead | src/continuous_loop.rs:91 | at least 1; `frequency / 3 + 1` for frequencies that fit in 32 bits |
| Planner.MaintenanceLookaheadTruncates | src/continuous_loop.rs:91 | the `as u32` cast: frequencies 2^32 apart get the same lookahead |
| Planner.ContiguousEnd | src/contiguous.rs:51 | `start + num` in 64 bits; an overflow panic exactly when it does not fit |
| Planner.LoopWindowExample | src/continuous_loop.rs:124-125 | maximum 12, buffer 5, lookahead 3: heights 7 to 15 |
| Planner.BufferedStartExamples | src/new_only.rs:144 | buffer 5: start 95 for maximum 100, start 2 for maximum 3 |
| Coverage.LoopMaxHeight | src/continuous_loop.rs:107-116 | 0 for no files; otherwise a readable height of one of the files that is at least every readable height; it panics only when no file has a readable height above 0 |
| Coverage.NewOnlyMaxLength | src/new_only.rs:68-90 | panics on an empty directory, and with two or more files one of which is unreadable; when names and paths agree it is the largest local height |
| Copier.FilterCopying | src/new_only.rs:216-218 | keeps exactly the lines that start with `Copying`, in order |
| Copier.FilterCopyingAppend | src/continuous_loop.rs:146-148 | filtering distributes over concatenation |
| Copier.CopyingIsNotException | src/continuous_loop.rs:66-68 | a copy report is never the `CommandException` signal |
| Copier.CopiedLines | src/new_only.rs:216 | the copier output split on `\n` and filtered to the `Copying` lines; `Copier.CopiedLinesConcat` and `Copier.CopiedAreNotExceptions` state its properties |
| Copier.CopiedLinesConcat | src/new_only.rs:216 | output read in two parts around a line break reports the first part's copy lines, then the second's |
| Copier.CopiedAreNotExceptions | src/continuous_loop.rs:146 | no printed copy line is a `CommandException` line |
| Copier.HasCommandException | src/continuous_loop.rs:65-68 | whether some line of the output starts with `CommandException`; `Copier.CommandExceptionAnywhere` is its all-inputs property |
| Copier.CommandExceptionAnywhere | src/continuous_loop.rs:65-68 | output in two parts around a line break has a `CommandException` line exactly when one of the parts has |
| Batch.RangePatterns | src/new_only.rs:149-151 | one line per height of the range, in ascending order, and no lines for an empty range |
| Batch.RangePatternsDistinct | src/continuous_loop.rs:127-129 | no height is queried twice in one batch |
| Batch.RangePatternsReadBack | src/continuous_loop.rs:127-129 | read back with `from_str`, line `i` is the wildcard key at height `lo + i` |
| Batch.RangePatternsCover | src/continuous_loop.rs:127-129 | every height of the range has its line, and every line is the line of such a height |
| Batch.Download | src/new_only.rs:198-218 | a failed copier is an error that prints nothing; otherwise exactly the copy reports of its output are printed; the query file is left alone |
| Batch.Workspace.Truncate | src/continuous_loop.rs:121-122 | the query file is emptied and nothing else changes |
| Batch.Workspace.WriteLine | src/new_only.rs:194 | one line is appended to the query file |
| Batch.Workspace.PrintLine | src/new_only.rs:217 | one line is appended to standard output |
| Batch.Workspace.WriteHeights | src/continuous_loop.rs:127-129 | the loop appends exactly the range batch |
| Batch.Workspace.PrintCopied | src/continuous_loop.rs:145-148 | the loop prints exactly the copy reports of the output |
| Listing.StripCR | src/new_only.rs:175 | `lines` drops one trailing `\r` when the line ends in one, and otherwise leaves the line as it is |
| Listing.Lines | src/new_only.rs:175 | no line contains `\n`; an empty text has no lines; never more lines than `\n`-pieces |
| Listing.LinesTerminated | src/new_only.rs:174-175 | a text of `\n`-terminated lines reads back as those lines, each with one trailing `\r` dropped |
| Listing.LinesUnterminated | src/new_only.rs:174-175 | a final line without a `\n` is still a line, after the terminated ones |
| Listing.LinesRoundTrip | src/new_only.rs:174-175 | lines without `\n` or a trailing `\r`, each written with a `\n`, read back unchanged |
| Listing.ParseListing | src/new_only.rs:174-177 | never an error; any panic comes from `from_str`; the keys are well formed and no more than the lines |
| Listing.ParseListingSound | src/new_only.rs:174-177 | the listing parses iff no line panics; then a key is kept iff some line parses to it |
| Listing.SkipShorter | src/new_only.rs:190-192 | a suffix whose dropped prefix is below the threshold and whose first kept key reaches it |
| Listing.SkipShorterSorted | src/new_only.rs:190-192 | on sorted keys, skipping is filtering: a key is kept iff it reaches the threshold |
| Listing.SkipBelowMargin | src/new_only.rs:192 | panics on `our_max - 10` iff there is a key to test and `our_max < 10`; otherwise skips below `our_max - 10` |
| Listing.KeptKeys | src/new_only.rs:183-192 | the sort and skip never fail; they panic exactly when there is a key to test and `our_max < 10` |
| Listing.ListingKeys | src/new_only.rs:174-192 | never an error: a `from_str` panic on any line, otherwise `KeptKeys` of the parsed keys; `NewOnly.ListingWritesKeptKeys` ties it to the written query file |
| Listing.SortThenSkipMembers | src/new_only.rs:183-192 | a key is kept exactly when it was listed and reaches the threshold |
| Listing.SortThenSkipSorted | src/new_only.rs:183-192 | sorting by height then skipping the short keys leaves keys in nondecreasing height, every one at least the threshold |
| Listing.SortThenSkipCounts | src/new_only.rs:183-192 | every listed key at or above the threshold is kept with all its copies, and no key is invented |
| Listing.SortThenSkipStable | src/new_only.rs:183-192 | among keys of one height at or above the threshold, the listing's own order is kept |
| Listing.ListingUnderflows | src/new_only.rs:192 | a local maximum below 10 with a non-empty parsed listing panics |
| Listing.ListingMaxIsMax | src/new_only.rs:185 | the last sorted key has the largest listed height; 0 for an empty listing |
| Listing.ListingMax | src/new_only.rs:185 | the height of the last sorted key, 0 for an empty listing; `Listing.ListingMaxIsMax` proves it is the largest listed height |
| NewOnly.Rendered | src/new_only.rs:190-195 | one `to_string` line per kept key, in order |
| NewOnly.RenderedReadBack | src/new_only.rs:194 | every written line reads back as its key |
| NewOnly.RangeStage | src/new_only.rs:117-151 | a missing ls file is an error with the query file untouched; an overflow empties it; a success ends the batch at `our_max + minutes / 3 + 1` |
| NewOnly.ListingStage | src/new_only.rs:157-195 | a failed listing is an error; a `from_str` panic leaves the query file alone; an underflow empties it; a success writes exactly the rendered kept keys |
| NewOnly.Prepare | src/new_only.rs:59-195 | nothing is printed before the download; a run that stops leaves the query file as it was or empty |
| NewOnly.UsesRange | src/new_only.rs:110 | the range path is taken iff `--skip-ls-file` is given or both the ls file and the query file exist; `NewOnly.SkipWithoutLsFile` and `NewOnly.ListingIgnoresPolicy` state what each branch does |
| NewOnly.NewOnlyRun | src/new_only.rs:46-218 | only a successful run prints, and it prints only copy reports |
| NewOnly.RangePath | src/new_only.rs:117-151 | the method's query file and outcome are those of `RangeStage` |
| NewOnly.ListingPath | src/new_only.rs:174-195 | the method's query file and outcome are those of `ListingStage` |
| NewOnly.NewOnlyMain | src/new_only.rs:46-218 | the method's outcome, query file and output are those of `NewOnlyRun` |
| NewOnly.ConflictingFlagsPanic | src/new_only.rs:59-62 | `--strict` with `--start` panics and touches nothing |
| NewOnly.EmptyBlockDirPanics | src/new_only.rs:80-83 | no local files panics and touches nothing |
| NewOnly.SkipWithoutLsFile | src/new_only.rs:117 | `--skip-ls-file` without an ls file is an error that leaves the query file alone |
| NewOnly.BufferedRange | src/new_only.rs:139-151 | the buffered batch is exactly the heights from `max(2, our_max - buffer)` to `our_max + minutes / 3 + 1`; it succeeds iff that end fits in `u32` |
| NewOnly.BufferedBatch | src/new_only.rs:143-151 | the buffered batch is the range from the buffered start to the end |
| NewOnly.ExplicitStartRange | src/new_only.rs:145-151 | with `--start s`, line `i` is height `s + i` up to the end; empty when `s` is above it |
| NewOnly.StrictQueriesAboveLocal | src/new_only.rs:146-151 | `--strict` never queries a height at or below any local block; it fails only if the end overflows |
| NewOnly.StrictBatch | src/new_only.rs:139-151 | with `--strict`, the batch succeeds iff `our_max + minutes / 3 + 1` fits in `u32`, and is then exactly the heights from `max(2, our_max + 1)` to that end |
| NewOnly.StrictBatchAbove | src/new_only.rs:149-151 | a batch that starts above `our_max` reads back as keys above `our_max` |
| NewOnly.ListingWritesKeptKeys | src/new_only.rs:189-195 | the listing path writes exactly the kept keys, each line reading back as its key |
| NewOnly.ListingBatch | src/new_only.rs:172-195 | once the listing parses and clears the margin, the prepared batch is the rendered kept keys and nothing is printed |
| NewOnly.KeptWellFormed | src/new_only.rs:183-192 | every kept key is one the listing parsed, so it renders and reads back |
| NewOnly.ListingIgnoresPolicy | src/new_only.rs:156-195 | the listing path ignores `--start`, `--strict` and `--buffer` |
| NewOnly.ListingUnderflowPanics | src/new_only.rs:189-192 | below a local maximum of 10 a non-empty listing panics after emptying the query file |
| NewOnly.DownloadFollowsBatch | src/new_only.rs:198-218 | after a written batch, the run's outcome and output are the copier's |
| ContinuousLoop.CycleRun | src/continuous_loop.rs:98-151 | an unreadable maximum panics before the query file is touched; an overflow empties it; otherwise the batch is the window from `max(2, max - buffer)` to `max + additional`; a failed copier is an error; a success returns the output and prints its copy reports |
| ContinuousLoop.CatchUp | src/continuous_loop.rs:57-78 | standard output only grows |
| ContinuousLoop.Maintain | src/continuous_loop.rs:84-95 | standard output only grows |
| ContinuousLoop.Cycle | src/continuous_loop.rs:98-151 | the method's outcome, query file and output are those of `CycleRun` |
| ContinuousLoop.Run | src/continuous_loop.rs:40-96 | the method's end, query file and output are those of the catch-up then maintenance specification |
| ContinuousLoop.CycleCoversWindow | src/continuous_loop.rs:121-129 | with readable heights and no overflow, a cycle queries exactly the window's heights and does not panic |
| ContinuousLoop.CycleBatch | src/continuous_loop.rs:112-129 | with a readable maximum and an end that fits in `u32`, a cycle does not panic and writes the window from `max(2, max - buffer)` to `max + additional` |
| ContinuousLoop.CycleReachesAbove | src/continuous_loop.rs:125-129 | a positive `additional` always queries a height above every readable local one, and the batch ends there |
| ContinuousLoop.CatchUpEndsOnException | src/continuous_loop.rs:66-78 | the first output with a `CommandException` line moves the run to maintenance |
| ContinuousLoop.CatchUpWithoutException | src/continuous_loop.rs:66-78 | while outputs have no `CommandException` line and cycles succeed, the run stays in catch-up |
| ContinuousLoop.CatchUpPrintsCopies | src/continuous_loop.rs:146-148 | every line a run prints is a copy report |
| ContinuousLoop.MaintainPrintsCopies | src/continuous_loop.rs:84-95 | every line the maintenance phase prints is a copy report |
| ContinuousLoop.MaintainRunsOn | src/continuous_loop.rs:84-95 | maintenance never stops by itself while its cycles succeed |
| ContinuousLoop.CatchUpHaltsOnFailure | src/continuous_loop.rs:56-77 | a failed catch-up cycle ends the run with that cycle's number and status, its query file and its printed lines |
| ContinuousLoop.MaintainHaltsOnFailure | src/continuous_loop.rs:83-92 | a failed maintenance cycle ends the run with that cycle's number and status, its query file and its printed lines |
| ContinuousLoop.CatchUpStops | src/continuous_loop.rs:56-95 | a run stops only on a failed cycle, which it reports with its number, or once every environment is used |
| ContinuousLoop.MaintainStops | src/continuous_loop.rs:83-95 | the maintenance phase stops only on a failed cycle, reported with its number, or once every environment is used |
| ContinuousLoop.MaintainQueriesLookahead | src/continuous_loop.rs:83-92 | when the last maintenance cycle reaches the copier, the query file is that cycle's window from `max(2, max - buffer)` to `max + frequency / 3 + 1` |
| Contiguous.ContiguousRun | src/contiguous.rs:47-74 | an overflow of `start + num` panics with an empty query file; otherwise the query file has `num` lines, line `i` for height `start + i`; an error iff the copier failed |
| Contiguous.ContiguousMain | src/contiguous.rs:47-74 | the method's outcome, query file and output are those of `ContiguousRun` |
| Contiguous.ContiguousReadBack | src/contiguous.rs:51-53 | for `u32` heights, line `i` reads back as height `start + i`, and no line repeats |
| Contiguous.ContiguousEmpty | src/contiguous.rs:51 | `--num 0` writes an empty query file |
| Contiguous.ContiguousPrints | src/contiguous.rs:71-73 | a run prints exactly the copy reports, and only when the copier succeeded |

## Left out

- Running `gsutil ls`, `cat` and `gsutil cp` (processes, pipes, the network). Their results are inputs: a `ListingReply` and a `CopierReply`. A failed spawn, a failed wait and output that is not UTF-8 all become one failure value.
- `glob` over the block directory and `blockchain::length_from_path`, which live in another crate. The matched files and the height each path yields are the input `BlockFile` sequence.
- File timestamps and the `f32` minutes since the newest block (new_only.rs:92-128). The model takes the minutes already cast to `u32` as an input; the saturating float cast is not modelled.
- Logging, including the `our_max_length - 10` in the `info!` at new_only.rs:152-155. That subtraction can underflow only when info logging is enabled, and that is not visible here.
- `std::thread::sleep` between cycles (continuous_loop.rs:80, 94).
- The `loop` subcommand runs forever. The model runs it over a finite sequence of per-cycle environments and reports `Exhausted` when they run out.
- The final clearing of the ls file and removal of the query file (new_only.rs:220-225). The model's query file is the batch as the copier reads it.
- I/O errors from creating, opening, truncating and writing files. `File::open` of the ls file is kept as `LsFileMissing`; every other file operation is taken to succeed.
- `unwrap`s on non-UTF-8 file names and on file metadata (new_only.rs:84-87, 93-98).
- Command-line parsing and its defaults (clap), `check_file`, `check_dir` and `check_gsutil`. These are in another crate and in src/common.rs; src/main.rs, src/all.rs and src/common.rs are not part of this model.
- Vectors sorted in place (`sort_by`, `sort_by_key`) are modelled by value with `Sorting.SortBy`.
- Strings are sequences of characters; byte-level UTF-8 is not modelled.
- Integer overflow follows a build with overflow checks. A release build would wrap instead, and that is not modelled.
- Coverage.NewOnlyMaxLength: states that the result is the largest local height only when every file's name and path give the same height. The name is read by `MinaMainnetBlock::from_str` and the path by the external `length_from_path`, and nothing forces them to agree.
- NewOnly.StrictQueriesAboveLocal: states "above every local block" under the same agreement assumption, for the same reason.
