# System monitor: update check and display arithmetic

A model, in Dafny, of the decision logic of a terminal system monitor
written in Rust. Two parts of the program are covered:

- the updater (`src/updater.rs`): the version comparison `is_newer_version`
  (split on '.', parse each piece as `u32`, drop the pieces that do not
  parse, compare the first three components with missing ones read as 0);
  what `check_for_updates` does to the stored `UpdateInfo` once the latest
  release has been fetched, or once fetching has failed; and
  `UpdateInfo::default`;
- the display arithmetic (`src/main.rs`): the top-N process list
  (`get_top_processes`, a stable sort by memory, largest first, then a
  truncation), the usage colour bands, the fill of `draw_progress_bar`, the
  GPU temperature bands, the per-process memory bands, the "Free" figure
  `total_mem - used_mem`, and the 28-character name column.

Modules: `Wrappers` (`Option`, `Result`) and `RustInt` (the `u32`, `u64`
and `usize` ranges, with `usize` taken as 64 bits) in `wrappers.dfy`;
`Version` in `version.dfy`; `Updater` in `updater.dfy`; `Processes` in
`processes.dfy`; `Display` in `display.dfy`.

Modelling choices:

- Strings are sequences of Unicode scalar values. Rust's `String::len`
  counts UTF-8 bytes, so `Display.ByteLen` sums the UTF-8 width of each
  character. Slicing a string at a byte offset inside a character panics.
- A Rust panic is a `Failure` carrying a `Panic` value. This covers an
  overflowing `usize`/`u64` subtraction in a debug build and a slice that
  does not fall on a character boundary. In a release build the
  subtraction `width - filled` of `draw_progress_bar` wraps instead, and
  the following `str::repeat` of that huge count panics on capacity
  overflow, so `Display.DrawProgressBar` fails in either build and takes
  no build flag. `str::repeat` also panics on capacity overflow when a
  count that did not overflow needs more than `isize::MAX` bytes. `Display.FreeMemory` does take one, because its wrapped
  result is only printed.
- `f32` values are read as exact reals. `x as usize` is the floor of `x`,
  saturated to `0 ..= 2^64-1`.
- `CURRENT_VERSION` is compiled in from the crate manifest, so it is a
  parameter (`crateVersion`). The fetch of the latest release is also an
  input: a `Result<GitHubRelease, string>`.
- Free memory is the raw `u64` subtraction `total_mem - used_mem`, not a
  saturating one. It panics when overflow checks are on and wraps when
  they are off (`Display.FreeMemory`).
- `sort_by` is stable, so equal-memory processes keep their input order
  (`Processes.SortStable`).
- The process table has two versions. `Display.ProcessTableAsWritten`
  uses the byte-based name column of the source and fails on a name that
  panics. `Display.ProcessTable` uses the corrected name column of the
  finding below.

## Model

| member | source | states |
|---|---|---|
| Version.Split | src/updater.rs:118-119 | `split('.')` gives at least one piece, and no piece contains the separator |
| Version.JoinSplit | src/updater.rs:118-119 | joining the pieces of a split with the separator gives back the original string, empty pieces included |
| Version.SplitJoin | src/updater.rs:118-119 | splitting a join of separator-free pieces gives back exactly those pieces |
| Version.SplitAppend | src/updater.rs:118-119 | splitting `a.b` gives the pieces of `a` followed by the pieces of `b` |
| Version.ParseU32 | src/updater.rs:118-119 | `str::parse::<u32>` succeeds only on a non-empty string with no '-' sign and no '.' |
| Version.ParseU32ToDecimal | src/updater.rs:118-119 | parsing a decimal numeral gives its value when the value is at most 4294967295 and fails above that; a leading '+' changes nothing |
| Version.ParseU32Rejects | src/updater.rs:118-119 | the empty string, a bare '+', a negative number, a letter and a leading space all fail to parse |
| Version.ParseU32Accepts | src/updater.rs:118-119 | leading zeros and a leading '+' parse ("007" is 7, "+12" is 12) |
| Version.IsNewerVersion | src/updater.rs:116-133 | true exactly when the latest version's three-component key is lexicographically greater than the current one's |
| Version.NewerIrreflexive | src/updater.rs:121-132 | no version is newer than itself |
| Version.NewerAsymmetric | src/updater.rs:121-132 | two versions are never each newer than the other |
| Version.NewerTransitive | src/updater.rs:121-132 | if b is newer than a and c is newer than b, then c is newer than a |
| Version.NewerTrichotomy | src/updater.rs:121-132 | neither version is newer than the other exactly when their keys are equal |
| Version.ZeroPadding | src/updater.rs:122-123 | with fewer than three components, appending ".0" gives an equal version |
| Version.OnlyThreeComponents | src/updater.rs:121 | with three components already, any further '.'-separated suffix is ignored |
| Version.RenderedKey | src/updater.rs:118-132 | rendering three u32 values as "a.b.c" and reading the key back gives the same three values |
| Version.NonNumericPieceShifts | src/updater.rs:118-119 | a piece that does not parse is dropped and the later components move left ("a.x.c" has key (a, c, 0)) |
| Version.NonNumericPieceDropped | src/updater.rs:118-119 | "1.x.5" has key (1, 5, 0) |
| Version.ZeroPaddingExample | src/updater.rs:122-123 | "1.2" and "1.2.0" have equal keys and neither is newer |
| Version.FourthComponentIgnoredExample | src/updater.rs:121 | "1.2.3.9" is not newer than "1.2.3" |
| Version.NumericComparisonExample | src/updater.rs:121-129 | "1.10.0" is newer than "1.2.3": components compare as numbers, not as text |
| Updater.DefaultUpdateInfo | src/updater.rs:30-38 | both versions are the compiled-in version, no update is available and the download URL is empty |
| Updater.DefaultIsConsistent | src/updater.rs:30-38 | the default info's flag agrees with comparing its two versions |
| Updater.TrimLeadingV | src/updater.rs:64 | the result is a suffix of the tag, everything removed is 'v', and the result does not start with 'v' |
| Updater.TrimLeadingVIdempotent | src/updater.rs:64 | trimming twice is the same as trimming once |
| Updater.TrimLeadingVExample | src/updater.rs:64 | every leading 'v' is removed: "vv1.0" becomes "1.0" |
| Updater.FirstInstaller | src/updater.rs:71-76 | finds the first asset whose name ends in ".zip" or ".exe", or reports that none does |
| Updater.SelectDownloadUrl | src/updater.rs:71-76 | the URL is the URL of the first asset that is an installer, and stays as it was when no asset is one |
| Updater.DownloadUrlChoice | src/updater.rs:70-76 | the download URL becomes the first installer asset's URL, or stays as it was when no asset is an installer |
| Updater.CheckForUpdates | src/updater.rs:60-82 | a failed fetch leaves the state alone and returns the error with the "Failed to check for updates: " prefix; a successful one records the tag without leading 'v's, sets the flag exactly when that version is newer than the compiled-in one, returns the new state, keeps the current version, takes the URL of the first installer asset, and keeps the old URL when no asset qualifies |
| Updater.CheckPreservesConsistency | src/updater.rs:64-68 | when the stored current version is the compiled-in one, a check keeps the flag consistent with the two stored versions |
| Updater.CheckIdempotent | src/updater.rs:62-78 | checking twice against the same fetch outcome leaves the same state as checking once |
| Updater.StaleDownloadUrl | src/updater.rs:70-76 | after a later release without an installer, the URL still points at the earlier release's installer while the latest version names the later release |
| Updater.UnsupportedPlatformCheck | src/updater.rs:110-113 | off Windows every check fails with "Failed to check for updates: Update checking not implemented for this platform" and changes nothing |
| Processes.Insert | src/main.rs:64 | inserting one process adds exactly that process to the multiset of the list |
| Processes.InsertSorted | src/main.rs:64 | inserting into a list sorted by memory, largest first, keeps it sorted |
| Processes.SortByMemory | src/main.rs:64 | the result is a permutation of the input, sorted by memory with the largest first |
| Processes.SortStable | src/main.rs:64 | for every memory value, the processes with that value appear in the sorted list in their input order |
| Processes.SortIsStableSort | src/main.rs:64 | the sort result is a stable sort of its input |
| Processes.StableSortUnique | src/main.rs:64 | two sorted lists with the same processes in the same order for every memory value are equal |
| Processes.SortCharacterized | src/main.rs:64 | a list is a stable descending sort of the input exactly when it equals the sort result |
| Processes.TopProcesses | src/main.rs:51-66 | the top list has min(count, n) entries, is sorted largest first, is drawn from the input, every process left out uses no more memory than every process kept, and equal-memory processes keep their input order |
| Processes.TopProcessesStrictWhenDistinct | src/main.rs:64-65 | when memory values are pairwise distinct, the top list is strictly decreasing in memory |
| Display.UsageColor | src/main.rs:128-136 | green below 50%, yellow from 50% to below 75%, red from 75% |
| Display.UsageColorMonotone | src/main.rs:128-136 | a higher percentage never gets a less severe colour |
| Display.TemperatureColor | src/main.rs:194-201 | green below 70°C, yellow from 70 to 84°C, red from 85°C |
| Display.TemperatureColorMonotone | src/main.rs:195-201 | a higher temperature never gets a less severe colour |
| Display.MemoryColor | src/main.rs:221-228 | red above 500 MiB, yellow above 200 MiB up to 500 MiB, green at 200 MiB or less |
| Display.MemoryColorMonotone | src/main.rs:221-228 | a process using more memory never gets a less severe colour |
| Display.SaturatingToUsize | src/main.rs:139 | `as usize` gives 0 for non-positive values, the floor inside the range, and usize::MAX above it |
| Display.SaturatingToUsizeMonotone | src/main.rs:139 | the saturating conversion is monotone |
| Display.FilledCells | src/main.rs:139 | the filled count is the floor of percentage × width / 100, 0 when that is not positive, and usize::MAX past the range |
| Display.DrawProgressBar | src/main.rs:138-148 | filled plus empty cells equal the width, filled is the saturated floor, and the colour is the usage colour; the subtraction panics exactly when percentage × width ≥ 100 × (width + 1) with width below usize::MAX; otherwise `str::repeat` panics on capacity overflow exactly when either count needs more than isize::MAX bytes (3 bytes per cell), which needs a width above isize::MAX / 3 |
| Display.ProgressBarInRange | src/main.rs:139-146 | a percentage from 0 to 100 never overflows the subtraction, and draws a bar at every width up to isize::MAX / 3 (every caller passes 60) |
| Display.ProgressBarMonotone | src/main.rs:139 | a higher percentage never fills fewer cells |
| Display.FilledCellsMonotone | src/main.rs:139 | a higher percentage never gives a smaller filled count |
| Display.ProgressBarExamples | src/main.rs:138-148 | at width 60: 100% fills 60 red cells, 0% none green, 50% 30 yellow, 101% still 60, 102% panics |
| Display.ProgressBarCapacityExamples | src/main.rs:145-146 | at width usize::MAX both the full bar (100%) and the empty bar (0%) panic in `str::repeat` on capacity overflow |
| Display.FreeMemory | src/main.rs:170 | `total - used` on u64 panics exactly when overflow checks are on and used exceeds total; otherwise the result plus used is total modulo 2^64 |
| Display.FreeMemoryExact | src/main.rs:170 | when used is at most total, free memory is exactly total − used in either build |
| Display.CharsForBytes | src/main.rs:234 | finds the character count whose UTF-8 prefix is exactly the given byte length, or reports that no character boundary lies there |
| Display.TruncateNameAsWritten | src/main.rs:233-237 | names of at most 28 bytes are shown unchanged; a longer name panics exactly when byte 27 is not a character boundary, and otherwise shows the name's own first 27 bytes then "..." |
| Display.TruncationPanicsInsideChar | src/main.rs:233-234 | a name of at least 28 characters whose first 26 are ASCII and whose 27th takes two bytes panics in the name column |
| Display.TruncationPanicExample | src/main.rs:233-234 | 26 'a's then "éb" is 29 bytes long and panics, although it has only 28 characters |
| Display.DisplayName | src/main.rs:233-237 | names of at most 28 characters are shown unchanged; longer ones show their first 27 characters then "...", 30 characters in all |
| Display.DisplayNameIdempotent | src/main.rs:233-237 | truncating a shown name again changes nothing |
| Display.DisplayNameShortens | src/main.rs:233-237 | a name longer than 30 characters is always shortened |
| Display.AsWrittenAgreesOnAscii | src/main.rs:233-237 | on ASCII names the byte-based column and the character-based column agree and never panic |
| Display.ProcessTable | src/main.rs:219-241 | with the corrected name column: the table has min(15, n) rows, row i shows the pid, the shortened name and the memory colour of the i-th process of the top list, and no shown name is longer than 30 characters |
| Display.RowsAsWritten | src/main.rs:220-241 | the rows as the source prints them: a panic exactly when some name panics in the byte-based column; otherwise one row per process with its pid, its as-written name and its memory colour |
| Display.ProcessTableAsWritten | src/main.rs:219-241 | the source's table over the top 15 list panics exactly when one of their names panics in the byte-based column; otherwise row i shows the i-th process with its as-written name |
| Display.TableAgreesOnAsciiNames | src/main.rs:219-241 | when every process name is ASCII, the source's table and the corrected table are the same |
| Display.TablePanicsOnSplitName | src/main.rs:233-234 | one listed process whose name puts byte 27 inside a two-byte character makes the source's table panic |
| Display.ProcessTableColorsDescend | src/main.rs:219-228 | going down the table, the memory colour never gets more severe |

## Left out

- `SystemMonitor::new`, `refresh`, `get_cpu_usage`, `get_gpu_info` and `get_memory_info`: they read the operating system and NVML through libraries. Their results are inputs here, and the percentage division in `get_memory_info` is not modelled.
- `bytes_to_mb`, `bytes_to_gb` and the `{:.2}` / `{:.1}` formatting: floating-point output only. `Display.MemoryColor` reads `bytes_to_mb` as exact division, so the rounding of `u64 as f64` above 2^53 bytes is not modelled.
- Display.DrawProgressBar: an allocation that fits under `isize::MAX` bytes but fails for lack of memory aborts the program; the model counts it as a drawn bar, because memory exhaustion is outside the model.
- f32 rounding, infinities and NaN: `Display.DrawProgressBar` and `Display.UsageColor` take exact reals, so the rounding of `width as f32` and of the product is not modelled.
- `display_system_info`'s screen clearing, headers and padding, `main`'s refresh loop and sleep, and the Ctrl+C handling: terminal I/O and timing.
- `fetch_latest_release`: it runs PowerShell and decodes JSON on Windows. Its outcome is the `fetched` parameter of `Updater.CheckForUpdates`. The non-Windows branch is modelled as the constant error text (`Updater.UnsupportedPlatformCheck`).
- `download_and_install_update`: it spawns processes, writes files and exits the program.
- `Updater::new`, `get_update_info` and the `Clone` implementations: `new` stores `UpdateInfo::default()` (`Updater.DefaultUpdateInfo`), and the other two copy the state.
- The process id is a natural number and `cpu_usage` is carried as a real: neither affects the order or the truncation.
- `script.js` and `docs/script.js`: web-page scripts, not part of the monitor.
- History buffers, rate computation and alert evaluation: the Rust source does not contain them.
- Display.ProcessTableAsWritten: the rows printed before the one whose name panics are not kept; the whole table is a `Failure`, because the model has no terminal output.
- Version.ParseU32: its contract gives only necessary conditions for success. The full behaviour is pinned down on canonical numerals by `Version.ParseU32ToDecimal` and on the other forms by the examples, not by one all-inputs statement.

## Findings

| source | as written | input that shows it | evidently intended | confidence | as-written member | corrected member |
|---|---|---|---|---|---|---|
| src/main.rs:233-234 | `process.name.len() > 28` counts bytes and `&process.name[..27]` slices at byte 27 | a process name of 26 'a's followed by "éb" (28 characters, 29 bytes): byte 27 falls inside 'é', so the slice panics and the monitor crashes | names longer than 28 characters show their first 27 characters followed by "...", matching the 30-character `{:<30}` column, and never panic | high, not executed | Display.TruncateNameAsWritten, with Display.TruncationPanicExample, Display.TruncationPanicsInsideChar, Display.ProcessTableAsWritten and Display.TablePanicsOnSplitName | Display.DisplayName, with Display.AsWrittenAgreesOnAscii, Display.DisplayNameIdempotent, Display.ProcessTable and Display.TableAgreesOnAsciiNames |
