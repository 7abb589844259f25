# rtop text core in Dafny

rtop is a terminal dashboard for Windows. It runs `wmic` and `tasklist`,
parses what they print, and draws the readings as coloured bars and
formatted values. This project models the text logic at the centre of that
loop and proves properties of it:

- **Parsers of `src/sys.rs`** (module `Sys`). Each parser takes the tool's
  output as a string. The parsers covered are the first-match scans of
  `parse_cpu_load` and `get_uptime`, the `Caption=`/`CSName=` scan of
  `get_system_info`, the two-key scan and zero guard of
  `parse_memory_usage`, the CSV row filter of `parse_disks`, and the line
  count rule of `get_process_count`. The scans are methods with `while`
  loops, as in the source. Each is proved equal to a recursive
  specification function, and the promised behaviour is proved about those
  functions as lemmas.
- **`push_bar` of `src/ui.rs`** (module `Ui`). This is a method on a
  `StringBuffer` class whose `text` field it appends to. The appended line
  is specified by `BarLine`, and lemmas cover clamping, colour bands, cell
  counts, brackets, the label, the right-aligned percentage and the end of
  line.
- **Formatters of `src/main.rs`** (module `Dashboard`):
  - `format_uptime`, with its split proved normal and invertible, and its
    text proved to read back as the uptime below one day, and as the uptime
    rounded down to the minute from one day on (src/main.rs:20 prints no
    seconds);
  - the unit choice of `format_bytes`;
  - the 25-byte cut of a process name at `src/main.rs:122`, on UTF-8 byte
    sequences.

Supporting modules:

- `Wrappers` holds `Option` and a `FilterMap`.
- `Text` holds the Rust standard-library string operations the source
  relies on: `str::lines`, `trim` over Unicode `White_Space`,
  `split(c)`/`nth`, `{}` of integers, `str::parse` of unsigned integers,
  and `{:<w}`/`{:>w}` padding.
- `Models` mirrors `src/models.rs`.

Some names used elsewhere are defined in none of the source files:
`SysCollector` (used by tests/sys_test.rs:1, 11), `get_top_processes` and
`get_network_info` (imported at src/main.rs:10), and `ProcessInfo`,
`DashboardData` and `render_dashboard` (used by tests/ui_test.rs:1-2). This
model follows the code that is present, `src/sys.rs`, `src/ui.rs` and
`src/main.rs`.
`format_uptime` is modelled where the code defines it, in `src/main.rs`,
even though `tests/ui_test.rs` imports it from the `ui` module.

## Model

| member | source | states |
|---|---|---|
| Text.LinesOfCrlfText | src/sys.rs:12 | text written as CR LF terminated lines without line feeds is split by `lines()` back into exactly those lines |
| Text.LinesCount | src/sys.rs:27 | `lines().count()` is the number of line feeds plus one for an unterminated last piece |
| Text.TrimIsMiddle | src/sys.rs:13 | `trim` keeps a contiguous slice that neither starts nor ends in whitespace, and everything it drops on either side is whitespace |
| Text.TrimEmpty | src/sys.rs:105 | `trim().is_empty()` holds exactly when the line is all whitespace |
| Text.JoinSplit | src/sys.rs:106 | the pieces of `split(',')` contain no comma and joined with commas give the line back |
| Text.SplitJoin | src/sys.rs:106 | splitting comma-joined comma-free fields gives the fields back |
| Text.ParseU64 | src/sys.rs:75 | `parse::<u64>` succeeds exactly on an optional `+` followed by digits whose value is below 2^64, with that value |
| Text.ParseNatToString | src/main.rs:20 | an integer printed with `{}` parses back to itself |
| Text.PadRight | src/ui.rs:30 | `{:<7}` keeps the text as a prefix, pads with spaces, and has width max(7, length) |
| Text.PadLeft | src/ui.rs:30 | `{:>3}` keeps the text as a suffix, pads with spaces in front, and has width max(3, length) |
| Text.TrimPaddedNumber | src/ui.rs:30 | trimming a right-aligned number recovers its digits |
| Sys.RawValueOfKeyLine | src/sys.rs:74 | on a trimmed line that starts with a key, `split('=').nth(1)` exists and is the text after the key up to the next `=` |
| Sys.ScanFirstValue | src/sys.rs:72-79 | the loop with early return yields `FirstValue` of the output's lines |
| Sys.ParseCpuLoad | src/sys.rs:71-80 | the load is the first `LoadPercentage=` line's value (0 if unparsable, 0 if absent) and is below 2^64 |
| Sys.ParseUptime | src/sys.rs:43-50 | the uptime is the first `SystemUpTime=` line's value (0 if unparsable, 0 if absent) and is below 2^64 |
| Sys.FirstValueNoKeyLine | src/sys.rs:79 | with no line whose trimmed text starts with the key, the scan gives 0 |
| Sys.FirstValueAtFirstKeyLine | src/sys.rs:73-76 | the first key line decides: its value parsed as `u64`, else 0, whatever the lines after it hold |
| Sys.FirstValueBound | src/sys.rs:75 | the scanned value always fits in a `u64` |
| Sys.CpuLoadSample | src/sys.rs:137-138 | `"\r\nLoadPercentage=n\r\n\r\n"` gives n for every `u64` n |
| Sys.CpuLoadStopsAtFirstKeyLine | src/sys.rs:74-75 | a first line `LoadPercentage=v`, with any `v` that has no `=`, does not end in whitespace and does not parse as `u64`, gives 0 whatever lines follow |
| Sys.LastKeyLineNone | src/sys.rs:12-19 | there is no last key line exactly when no line starts with the key |
| Sys.LastKeyLineAt | src/sys.rs:12-19 | the last line that starts with the key is the one that counts |
| Sys.KeysExclusive | src/sys.rs:14-16 | no line can start with both `Caption=` and `CSName=`, nor with both memory keys, so the `else if` chains never hide a match |
| Sys.SystemInfoStep | src/sys.rs:13-18 | a `Caption=` line overwrites only the OS name, a `CSName=` line only the host name, and any other line changes nothing |
| Sys.ParseSystemInfo | src/sys.rs:5-22 | the loop over mutable `info` yields `SystemInfoOf` the output's lines |
| Sys.InfoFieldDefault | src/sys.rs:6-9 | a field no line sets stays `"Unknown"` |
| Sys.InfoFieldLastMatch | src/sys.rs:15-17 | a field is the value of the last line that sets it |
| Sys.FloorDivSpec | src/sys.rs:98 | the quotient is the largest whole number not above `x / d` |
| Sys.FloorDivIsDivision | src/sys.rs:98 | that quotient is the integer division `x / d` |
| Sys.TruncatedPercent | src/sys.rs:98 | the saturating cast gives 0 for a negative share and at most 100 for a share no larger than the whole |
| Sys.TruncatedPercentIsFloor | src/sys.rs:98 | for a non-negative share the percent is the largest whole percent not above it |
| Sys.KbValueSnoc | src/sys.rs:88-92 | a line starting with the key overwrites that kilobyte count and any other line leaves it |
| Sys.MemoryStep | src/sys.rs:87-92 | one loop iteration updates the total on a `TotalVisibleMemorySize=` line, the free count on a `FreePhysicalMemory=` line, and leaves everything else |
| Sys.ScanMemory | src/sys.rs:86-93 | the loop yields the last value of each key, 0 if absent or unparsable |
| Sys.ParseMemoryUsage | src/sys.rs:82-100 | the result is the usage computed from the scanned total and free counts |
| Sys.MemoryUsageGuard | src/sys.rs:95-98 | a zero total gives (0, 0, 0); otherwise used is total minus free, and the percent is at most 100 and is the floor of used/total times 100 |
| Sys.MemoryUsageWithoutTotal | src/sys.rs:95 | output without a total line gives (0, 0, 0) |
| Sys.KbValueLastMatch | src/sys.rs:88-91 | a kilobyte count is the parsed value of the last line with its key |
| Sys.MemoryUsageSample | src/sys.rs:147-148 | `FreePhysicalMemory=f\r\nTotalVisibleMemorySize=t\r\n` gives the usage of total t and free f |
| Sys.MemorySampleIsHalf | src/sys.rs:146-150 | 8388608 kB free of 16777216 kB is 50 percent |
| Sys.ProcessCount | src/sys.rs:27-28 | the count is the line count minus 3 when there are more than 3 lines, else 0, so it never underflows |
| Sys.ProcessCountOfText | src/sys.rs:27-28 | the same rule in terms of the line feeds of the output |
| Sys.RowDiskRejects | src/sys.rs:105-117 | blank rows, rows with fewer than 4 fields, `DeviceID` header rows, rows with an empty free or size field and rows of size 0 give no disk |
| Sys.RowDiskAccepts | src/sys.rs:106-124 | any other row gives the disk named by the trimmed second field, with its size, free space and truncated used percentage |
| Sys.RowDiskBounds | src/sys.rs:117-118 | every disk returned has a positive size and a percentage of at most 100 |
| Sys.DiskRowsAppend | src/sys.rs:104-127 | the disks of two runs of lines are the disks of the first followed by those of the second, so input order is kept |
| Sys.SkippedRow | src/sys.rs:105-112 | a rejected row removes nothing and adds nothing |
| Sys.DiskRowsFromRows | src/sys.rs:119-124 | every disk returned comes from some input row |
| Sys.DiskRowsBounds | src/sys.rs:102-129 | there are at most as many disks as lines, each with a positive size and a percentage of at most 100 |
| Sys.ParseDisks | src/sys.rs:102-129 | the loop that pushes onto `disks` yields `DiskRows` of the output's lines |
| Sys.DiskRowOf | src/sys.rs:106-124 | a four-field row of clean fields with a positive size gives exactly that disk |
| Sys.HeaderRowSkipped | src/sys.rs:107 | the header `Node,DeviceID,FreeSpace,Size` gives no disk |
| Sys.DisksSample | src/sys.rs:157-161 | a blank line, the header and the row `MYPC,C:,free,size` give exactly one disk, `C:` |
| Sys.DiskSampleIsHalf | src/sys.rs:157-162 | 53687091200 bytes free of 107374182400 is 50 percent |
| Ui.ClampPercent | src/ui.rs:14 | the shown percentage equals the input up to 100 and is exactly 100 for every input above 100 |
| Ui.FilledCells | src/ui.rs:24 | `p * 40 / 100` is at most 40 and is the floor of 40p/100 |
| Ui.FilledMonotone | src/ui.rs:24-25 | a larger percentage never fills fewer cells; 0 fills none and 100 fills all 40 |
| Ui.ColorBands | src/ui.rs:16-22 | green exactly below 50, yellow exactly from 50 to 79, red exactly from 80 |
| Ui.ColorsDistinct | src/ui.rs:5-9 | the three band colours are different escape codes |
| Ui.PushBar | src/ui.rs:12-38 | the buffer becomes its old text followed by `BarLine(name, percent)`, so the old text is a prefix; `defaultColor` does not occur in the contract |
| Ui.BarCellsCount | src/ui.rs:24-28 | the bar holds `filled` full cells and `40 - filled` empty cells |
| Ui.BarLineCells | src/ui.rs:27-37 | the line holds the label's cells plus `filled` full and `40 - filled` empty cells |
| Ui.BarLineLabel | src/ui.rs:30-31 | the label starts at column 1, and the line contains the label, `[` and `]` |
| Ui.PercentFieldShape | src/ui.rs:30 | the percent field is 8 characters long, with the 3-wide right-aligned number before `%\n` |
| Ui.BarLineNewline | src/ui.rs:30 | the line ends in `%` and a line feed |
| Ui.BarLineEnd | src/ui.rs:30-36 | the three columns before `%` are the clamped percentage right-aligned to width 3 |
| Ui.BarLinePercent | src/ui.rs:30-36 | those three columns, trimmed, parse back to the clamped percentage |
| Ui.BarLineShowsPercent | src/ui.rs:30-36 | the line contains the clamped percentage followed by `%` |
| Ui.SampleHalfBar | src/ui.rs:46-51 | at 50 the line contains the label, `[`, `]` and `50%`, and the bar has 20 full cells |
| Ui.SampleClampedBar | tests/ui_test.rs:15-19 | at 150 the line contains `100%` and the bar is full |
| Dashboard.SplitUptimeSpec | src/main.rs:14-17 | hours < 24, minutes < 60, seconds < 60, and days·86400 + hours·3600 + minutes·60 + seconds is the uptime |
| Dashboard.SplitUptimeUnique | src/main.rs:14-17 | normal parts are recovered from their total: the split is the only inverse of the sum |
| Dashboard.SplitUptimeText | src/main.rs:19-25 | splitting the printed uptime at spaces gives back its pieces |
| Dashboard.UptimeTokensSeconds | src/main.rs:19-25 | the pieces read back as the seconds they show |
| Dashboard.ShownSecondsOfSplit | src/main.rs:19-25 | the pieces show the whole uptime below a day and the uptime less its seconds from a day on |
| Dashboard.ReadFormatUptime | src/main.rs:13-26 | reading the text back gives the uptime below one day, and the uptime rounded down to a minute from one day on |
| Dashboard.UptimeTokensUnits | src/main.rs:19-25 | the unit letters are `dhm` with days, `hms` with hours but no days, `ms` otherwise |
| Dashboard.FormatUptimeUnits | src/main.rs:13-26 | the format is `d h m` from 86400 seconds, `h m s` from 3600, and `m s` below |
| Dashboard.SampleMinutes | tests/ui_test.rs:23 | 90 seconds are `1m 30s` |
| Dashboard.SampleHours | tests/ui_test.rs:24 | 3661 seconds are `1h 1m 1s` |
| Dashboard.SampleDays | tests/ui_test.rs:25 | 90000 seconds are `1d 1h 0m` |
| Dashboard.SelectUnitBands | src/main.rs:29-35 | GB exactly above 1073741824 bytes, MB exactly from 1048577 to 1073741824, KB exactly up to 1048576 |
| Dashboard.SelectUnitRange | src/main.rs:29-35 | in MB or GB the count exceeds one unit, and in KB or MB it is at most 1024 units |
| Dashboard.SampleUnitBoundaries | src/main.rs:29-31 | exactly 1 GiB is shown in MB and one byte more in GB; exactly 1 MiB is shown in KB |
| Dashboard.DisplayName | src/main.rs:122 | the shown name is a prefix of the name, the whole name up to 25 bytes and 25 bytes otherwise |
| Dashboard.DisplayNameValid | src/main.rs:122 | cutting valid UTF-8 at a character boundary leaves valid UTF-8 |
| Dashboard.PrefixAtBoundary | src/main.rs:122 | every prefix of valid UTF-8 that ends at a character boundary is valid UTF-8 |

The lemmas above are stated about these specification functions. Each one
follows the source span given here:

- `Sys.FirstValue`: the first-match scans, src/sys.rs:43-50 and src/sys.rs:71-80.
- `Sys.SystemInfoOf`: the result of `get_system_info`, src/sys.rs:5-22.
- `Sys.MemoryUsageFrom`: the zero guard and the usage, src/sys.rs:95-99.
- `Sys.RowDisk`: one row of `parse_disks`, src/sys.rs:105-124.
- `Ui.BarLine`: the line `push_bar` writes, src/ui.rs:12-38.
- `Dashboard.SplitUptime`: the four parts, src/main.rs:14-17.
- `Dashboard.FormatUptime`: `format_uptime`, src/main.rs:13-26.
- `Dashboard.SelectUnit`: the unit branches of `format_bytes`, src/main.rs:28-36.

## Left out

- Running `wmic` and `tasklist`, `run_wmic`, the `get_*` wrappers' I/O and
  their `io::Result` errors (src/sys.rs:24-67). Every parser receives the
  tool's output as a string.
- `String::from_utf8_lossy` and the removal of `\0` characters
  (src/sys.rs:58, 66). The parsers start from the decoded text.
- Floating point.
  - The conversions to gigabytes (src/sys.rs:99, 121-122). `MemoryUsage`
    and `DiskInfo` keep the kilobyte and byte counts that those gigabyte
    values are computed from.
  - The `{:.2}` rendering of `format_bytes` (src/main.rs:30-34). Only the
    unit choice is modelled.
- ParseNumber: models `parse::<f64>().unwrap_or(0.0)` only on an optional
  `+` followed by decimal digits. Any other text reads as 0, so
  exponents, fractions, `inf`, `nan` and negative numbers are not
  modelled.
- TruncatedPercent: computes the exact floor of used·100/total. The source
  computes `used / total * 100.0` in `f64`, which can fall just below a
  whole percent, so the source may show one percent less.
- Text.Lines: follows current Rust `str::lines`. It splits after every
  `\n`, then drops the `\n` and one `\r` before it. A final `\r` with no
  `\n` after it is kept.
- Text.Trim: whitespace is the Unicode `White_Space` property over single
  code points.
- `usize` and the `u64` uptime are unbounded naturals. `ParseU64` still
  rejects values of 2^64 and above, as `parse::<u64>` does, and nothing
  in the modelled code can overflow.
- Ui.PushBar: `writeln!` into a `String` cannot fail, so its `unwrap` is
  left out. The unused `_default_color` is an ignored parameter.
- Dashboard.DisplayName: requires byte 25 to be a character boundary,
  where the Rust slice panics otherwise. It works on byte sequences,
  validity being UTF-8 as in Table 3-7 of the Unicode Standard.
- `main`'s refresh loop: terminal escape sequences, `stdout` flushing, the
  sleep, box drawing and the rest of the dashboard layout
  (src/main.rs:38-135).
- `get_top_processes` and `get_network_info` are imported at
  src/main.rs:10, but their code is not part of this model, and neither
  is the code of `render_dashboard`, `DashboardData` or `SysCollector`,
  which the tests name.
- tests/sys_test.rs checks readings of the live host, which has no
  counterpart here.
