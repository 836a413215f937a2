# check_linux: a Dafny model of the decision core

check_linux.rb is a Nagios-style host check for Linux. It runs a series
of probes: CPU and swap activity from `sar`, free RAM from
`/proc/meminfo`, clock offset from `ntpq`, the mail queue, the uptime,
out-of-memory-killer activity in the kernel log, and the filesystem
table. Each probe yields a record of a return code, a text and a
performance-data string. The script folds these records into one status
line and a multi-line body, and exits with the worst code.

This project models the parts of that script that decide things from
text already captured. Command output and file contents are input
strings. The model covers:

- the final aggregation fold;
- the `sar` row parser and its fallback order;
- the CPU and swap classifications;
- the RAM, NTP, mail-queue, uptime, OOM and disk decisions, including
  `humanize`.

All of it is stated over exact integers and reals. Ruby behaviours that
matter here are written out in `Lines` and `Numbers`:

- `split("\n")` drops trailing empty fields;
- `split(" ")` splits on runs of white space;
- `arr[-k]` is `nil` on a short array;
- `to_i` and `to_f` read a leading number, and `to_f` stops at a comma;
- `round` rounds half away from zero;
- integer `/` rounds down;
- `chomp` and `puts` are modelled as Ruby defines them.

Modules, in dependency order:

| module | file | models |
|---|---|---|
| `Wrappers` | wrappers.dfy | `Option`, `Result` |
| `Lines` | lines.dfy | line and word splitting, `chomp`, joining, `arr[-k]` |
| `Numbers` | numbers.dfy | digit strings, `to_s`, `to_i`, `to_f`, `round` |
| `Scan` | scan.dfy | digit and white-space runs at the end of a string |
| `Probe` | probe.dfy | the result record, codes, threshold ladders, perfdata items and labels |
| `Aggregate` | aggregate.dfy | the fold over results and the printed line (1042-1073) |
| `SarRow` | sar_row.dfy | the `sar` regexes as a right-to-left parser, and row selection |
| `SarCpu` | sar_cpu.dfy | `check_sar_cpu` |
| `SarSwap` | sar_swap.dfy | `check_sar_swap` |
| `Ram` | ram.dfy | `check_ram` |
| `Ntp` | ntp.dfy | `check_ntp` |
| `Mailq` | mailq.dfy | `check_mailq` |
| `Uptime` | uptime.dfy | `humanize`, `check_uptime` |
| `Oom` | oom.dfy | `check_oom` |
| `Disks` | disks.dfy | `check_disks` (its own decisions; the relay plugin call is a request record) |

Where the script stops with an exception, the model returns a `Crash`
value (`NoMethodError`, `FloatDomainError`) rather than assuming the input
away. There are four such places:

- `check_ram` with a total below 1 MB (`FloatDomainError` when the
  percentage is rounded);
- `check_ram`'s top-process text, written only for WARNING and CRITICAL,
  when the `ps` listing has no second line or that line has fewer than ten
  columns (`NoMethodError`);
- `check_oom` with a blank killed line;
- `check_disks` with fewer than two lines of `df` output: no header, or a
  header with no row after it.

The exit code is the plain maximum of the result codes 1 to 3, so UNKNOWN
(3) outranks CRITICAL (2).

Where the script as written misbehaves, the model holds both versions of
the probe. The as-written one carries the name suffix `AsWritten`; the
unsuffixed one is the corrected probe, and "## Findings" below says what
each correction changes:

| probe | as written | corrected |
|---|---|---|
| `check_sar_cpu` | `SarCpu.CheckSarCpuAsWritten` | `SarCpu.CheckSarCpu` |
| `check_sar_swap` | `SarSwap.CheckSarSwapAsWritten` | `SarSwap.CheckSarSwap` |
| `check_oom` | `Oom.CheckOomAsWritten` | `Oom.CheckOom` |
| `check_uptime` | `Uptime.CheckUptimeAsWritten` (prints with `Uptime.Humanize`) | `Uptime.CheckUptime` (prints with `Uptime.HumanizeWhole`) |

The other probes (`Ram.CheckRam`, `Ntp.CheckNtp`, `Mailq.CheckMailq`,
`Disks.CheckDisks`) are modelled as written.

`check_sar_cpu` and `check_sar_swap` receive the script's
`sar_interactive_mode`. The default configuration has no `interactive`
key, so the modifier `if ...has_key?('interactive')` leaves it `nil`. The
model takes it as `SarRow.Setting`, an `Option<bool>` whose `None` is that
`nil`. `nil` fails the `== true` test and interpolates as nothing, so a
row from the report prints `interactive_mode: ` with nothing after it.

## Model

| member | source | states |
|---|---|---|
| Aggregate.FoldIsBucketed | check_linux.rb:1042-1066 | after the loop, each text buffer and the perfdata string equal their independent reference definitions, and the code is the maximum |
| Aggregate.Step | check_linux.rb:1049-1066 | one result leaves the code as it was or sets it to its own code, never lowers it, raises it at least to its own code in 1..3, and only appends to each text buffer, the body and the perfdata |
| Aggregate.Fold | check_linux.rb:1049-1066 | the code after every result is folded in lies in 0..3 |
| Aggregate.Aggregate | check_linux.rb:1067-1073 | the exit code lies in 0..3 and the printed line starts with the summary of CRITICAL texts, sentinel or WARNING texts, and UNKNOWN texts |
| Aggregate.FoldTexts | check_linux.rb:1051-1062 | the CRITICAL, WARNING and UNKNOWN buffers are, in order, the texts of exactly the results with code 2, 1 and 3, each followed by a space |
| Aggregate.FoldBody | check_linux.rb:1063-1064 | the multi-line body is the texts of exactly the results with code below 1, in order, each followed by `</br>` and a line feed |
| Aggregate.FoldPerf | check_linux.rb:1050 | the perfdata string is every result's perfdata other than the exact empty string, in order, each followed by a space |
| Aggregate.StepBody | check_linux.rb:1063-1064 | one result adds to the body only when its code is below 1 |
| Aggregate.StepPerf | check_linux.rb:1050 | one result adds its perfdata and a space unless its perfdata is empty |
| Aggregate.FoldCode | check_linux.rb:1051-1062 | the running code is 0 or a code some result has, in 1..3, and no result's code in 1..3 exceeds it |
| Aggregate.ExitCodeIsMax | check_linux.rb:1073 | the exit code lies in 0..3, bounds every result code in 1..3 from above, and is 0 or attained by some result; so UNKNOWN outranks CRITICAL |
| Aggregate.ExitCodeOrderIndependent | check_linux.rb:1049-1073 | reordering the results leaves the exit code unchanged |
| Aggregate.MaxCodeBelow | check_linux.rb:1049-1066 | the maximum code of a sub-multiset of results is at most that of the whole |
| Aggregate.BucketEmpty | check_linux.rb:1067 | a text buffer is empty exactly when no result has its code |
| Aggregate.OutputLine | check_linux.rb:1067-1071 | the line is the CRITICAL texts, then the sentinel when the exit code is 0 or else the WARNING texts, then the UNKNOWN texts, `\|`, the perfdata, a line feed and the body with its last line feed chomped |
| Aggregate.StdoutKeepsBody | check_linux.rb:1071 | after `puts` the output ends with the whole body, because `puts` restores the line feed `chomp` removed |
| Aggregate.PutsChomp | check_linux.rb:1071 | `puts` of a text followed by a chomped body ending in `>` and a line feed gives the unchomped text |
| Aggregate.BodyShape | check_linux.rb:1064 | the body is empty or ends in `>` and a line feed |
| Aggregate.IgnoredCode | check_linux.rb:1051-1062 | a result with code 4 or more changes nothing but the perfdata |
| Probe.LadderBands | check_linux.rb:450-459 | the increasing ladder gives CRITICAL exactly from `crit` up, WARNING exactly in `[warn, crit)`, and OK exactly below both |
| Probe.LadderMonotone | check_linux.rb:263-272 | a larger value never gets a smaller code from the increasing ladder |
| Probe.LadderSkipsWarning | check_linux.rb:660-669 | with `crit <= warn` the increasing ladder never yields WARNING |
| Probe.InvertedLadderBands | check_linux.rb:412-422 | the RAM ladder gives CRITICAL exactly at or below `crit`, WARNING exactly in `(crit, warn]`, and OK exactly above both |
| Probe.InvertedLadderAntitone | check_linux.rb:412-422 | more free RAM never gets a larger code |
| Probe.RenderOne | check_linux.rb:462 | a single perfdata item is written without separators |
| Probe.FieldsSuffixTwo | check_linux.rb:462 | two threshold fields are each preceded by `;` |
| Probe.RenderedMetric | check_linux.rb:218 | an item with a plain name and space-free parts is one word whose label reads back as its name |
| Probe.LabelsOfMetrics | check_linux.rb:218 | a rendered item list splits back into the rendered items, and the labels a front end reads from it are the item names, in order |
| Probe.LabelsOfNamed | check_linux.rb:218 | the same, against a given list of names |
| SarRow.RoundedToken | check_linux.rb:191-196 | `to_f.round` of a captured token is its integer part plus one exactly when the separator is a point and the first decimal is 5 or more |
| SarRow.TokenAtEnd | check_linux.rb:164 | a token read from the end of a line is well formed, rebuilds the line, and is preceded by a non-digit |
| SarRow.TokensAtEnd | check_linux.rb:164 | `n` tokens read from the end of a line are well formed, separated by white space runs, and rebuild the line |
| SarRow.MatchRow | check_linux.rb:164 | a match is exactly `n` well-formed tokens forming the end of the line |
| SarRow.TokenAtEndOf | check_linux.rb:164 | any well-formed token after a non-digit is read back whole |
| SarRow.MatchRenderedRow | check_linux.rb:164 | every line ending in `n` tokens separated by white space matches, and the match gives back those tokens |
| SarRow.RowAt | check_linux.rb:169-170 | a row read from line `[-k]` exists only when the output has at least `k` lines, and holds `n` well-formed tokens |
| SarRow.SelectRow | check_linux.rb:165-189 | the report is used only when the mode is not `true`, the exit status is 0 and a line matches, and then the mode is reported as it was, `nil` included; otherwise the row comes from the live sample's line `[-2]` and the mode is reported as `true` |
| SarRow.FallbackSetsOn | check_linux.rb:165-189 | interactive mode, a failed report command, or no match at `[-2]` and `[-4]` selects the live run's `[-2]` and reports the mode as `true` |
| SarRow.ChooseIsFirstMatch | check_linux.rb:165-189 | the nested conditionals are the ordered fallback list `[-2]`, `[-4]`, live `[-2]`, where a failed command or interactive mode leaves only the live line |
| SarRow.RowIsOneLine | check_linux.rb:169 | a rendered row holds no line feed |
| SarRow.ReportRoundTrip | check_linux.rb:175-179 | a report whose second-to-last line is a row of tokens selects exactly those tokens, without the live sample, and keeps a mode that is off or unset |
| SarRow.ReportLines | check_linux.rb:175-176 | line `[-2]` of split output is the line before the last |
| SarCpu.IdleIsBusyLadder | check_linux.rb:198-206 | the idle test is the increasing ladder applied to busy time `100 - idle` |
| SarCpu.CheckSarCpuAsWritten | check_linux.rb:161-229 | as written, the probe's code is only ever OK or WARNING, never CRITICAL, and the perfdata is always set |
| SarCpu.CheckSarCpu | check_linux.rb:161-229 | corrected, the code lies in 0..2 and never below the as-written code, with the same text and perfdata |
| SarCpu.UnsetModePrintsNothing | check_linux.rb:217 | with the mode `nil`, as the default configuration leaves it (line 871), the text ends in `% interactive_mode: ` with nothing after it |
| SarCpu.FallbackReportsOn | check_linux.rb:180-188 | after a fallback to the live sample the text ends in `% interactive_mode: true` |
| SarCpu.ModeShown | check_linux.rb:217 | the text of a matched row ends with the mode the row selection reports |
| SarCpu.CheckOfSelection | check_linux.rb:190-217 | the probe's text is the text for the selected row and the reported mode |
| SarCpu.AsWrittenCodeIsSteal | check_linux.rb:209-216 | as written, the code is the steal test's alone, while the text still starts with both verdicts |
| SarCpu.StealOverrideHidesCritical | check_linux.rb:209-215 | as written, a CRITICAL idle reading with low steal is reported as OK |
| SarCpu.CorrectedCodeIsWorst | check_linux.rb:198-215 | corrected, the code is at least the idle code, at least WARNING for high steal, CRITICAL exactly for busy time at or above `crit`, and OK exactly when both tests pass |
| SarCpu.CorrectedKeepsTextAndPerfdata | check_linux.rb:216-218 | the correction changes the code only |
| SarCpu.NoMatchOutcome | check_linux.rb:219-223 | with no row anywhere, the result is WARNING with the fixed text, in both versions |
| SarCpu.NoMatchPerfdata | check_linux.rb:223 | the no-match perfdata is exactly four zero-valued items, `%idle=0%;100-warn;100-crit;0` then `%user`, `%system` and `%iowait` each `=0%;warn;crit;0`, under those four labels |
| SarCpu.NoMatchItems | check_linux.rb:223 | the no-match perfdata splits into the four rendered zero-valued percentage items, labelled `%idle`, `%user`, `%system`, `%iowait` |
| SarCpu.PercentText | check_linux.rb:218 | a percentage item reads `name=v%;warn;crit;0` |
| SarCpu.ZeroPercentText | check_linux.rb:223 | a zero-valued percentage item reads `name=0%;warn;crit;0` |
| SarCpu.MatchedPerfdata | check_linux.rb:218 | a matched row's perfdata labels the six columns in order |
| SarCpu.PercentLabels | check_linux.rb:218 | percentage items under plain names split back into the rendered items and are read back under those names |
| SarCpu.CpuReportRoundTrip | check_linux.rb:161-218 | a report ending in a CPU row and an average line is classified from that row's six tokens |
| SarCpu.DecimalCommaTruncates | check_linux.rb:191-196 | with a decimal comma the decimals are dropped before rounding; with a point they round |
| SarSwap.ColumnTextReadsBack | check_linux.rb:261-262 | the printed reading parses back to the number the code was decided on |
| SarSwap.SwapBands | check_linux.rb:263-272 | the swap code is CRITICAL, WARNING or OK exactly in the bands of the first capture's value |
| SarSwap.SwapTextWord | check_linux.rb:274 | the text starts with the code's word |
| SarSwap.SwapMonotone | check_linux.rb:263-272 | more page-outs never get a smaller code |
| SarSwap.PswpinIgnored | check_linux.rb:263-272 | the second capture never affects the code |
| SarSwap.MatchedSwapLabels | check_linux.rb:275 | a matched row's perfdata labels `pswpout`, `pswpin` |
| SarSwap.NoMatchLabelsAsWritten | check_linux.rb:280 | as written, the no-match perfdata labels `pswpout` twice |
| SarSwap.NoMatchLabels | check_linux.rb:280 | corrected, the no-match perfdata labels `pswpout`, `pswpin`, as a matched row does |
| SarSwap.NoMatchOutcome | check_linux.rb:276-280 | with no row, the result is WARNING with the fixed text, and the correction changes only the perfdata |
| SarSwap.SwapReportRoundTrip | check_linux.rb:231-275 | a report ending in a swap row and an average line is classified from that row's two tokens |
| SarSwap.CheckSarSwapAsWritten | check_linux.rb:231-284 | as written, the code lies in 0..2 and the perfdata is always set |
| SarSwap.CheckSarSwap | check_linux.rb:231-284 | corrected, the code and text are those of the as-written probe, and the whole result is the same whenever a row matched |
| SarSwap.UnsetModePrintsNothing | check_linux.rb:274 | with the mode `nil`, as the default configuration leaves it (line 871), the text ends in `interactive_mode ` with nothing after it |
| Ram.KeyOf | check_linux.rb:393-395 | a recognised key name is exactly the label of that key |
| Ram.ParseEntry | check_linux.rb:393-395 | a recognised line ends in ` kB` and starts with the label of its key |
| Ram.CheckRam | check_linux.rb:386-433 | a MemTotal below 1024 kB fails with FloatDomainError, and every result has a code in 0..2 and perfdata |
| Ram.ParseEntrySound | check_linux.rb:393-395 | a recognised line is a label, a white space run, digits and ` kB`, and its amount is the number the digits spell |
| Ram.ParseRenderedEntry | check_linux.rb:393-395 | every line in that format is recognised with its key and amount |
| Ram.ReadFive | check_linux.rb:391-406 | the five usual lines give the total and a free sum of MemFree, Buffers, Cached and SReclaimable |
| Ram.ReadAppendFree | check_linux.rb:395-396 | the free sum over consecutive parts of the file is the sum of the parts |
| Ram.ReadAppendTotal | check_linux.rb:393-394 | lines without MemTotal leave the total unchanged |
| Ram.PercentFree | check_linux.rb:411 | the percentage fails exactly when the total is 0 MB |
| Ram.PercentFreeNearest | check_linux.rb:411 | the percentage is `100 * free / total` rounded to the nearest integer, halves up |
| Ram.RamCodeBands | check_linux.rb:412-422 | the code is CRITICAL, WARNING or OK exactly in the inverted bands of the percentage |
| Ram.TopProcess | check_linux.rb:426-427 | the process line fails exactly when the listing has no second line or that line has fewer than 10 columns |
| Ram.CheckRamFailure | check_linux.rb:408-427 | the probe fails for a total below 1024 kB, and otherwise exactly when it warns and the listing is unusable |
| Ram.OkIgnoresListing | check_linux.rb:425-428 | an OK result does not depend on the process listing |
| Ram.ThresholdMbRoundsDown | check_linux.rb:430 | the MB thresholds are the percentages of the total rounded down |
| Ram.RamLabels | check_linux.rb:430 | the perfdata labels are `ram_free_percent`, `ram_free`, `ram_buffers`, `ram_cached`, `ram_slabr` |
| Ram.DefaultsExample | check_linux.rb:408-416 | 2000000 kB total with 200000 kB free is 10% free, which warns at the 10/5 thresholds |
| Ntp.PeerOf | check_linux.rb:442-446 | a peer line yields a non-negative offset |
| Ntp.NoPeerIsUnknown | check_linux.rb:440-448 | without a `*` line the reading stays at the default 999 and `unknown` |
| Ntp.LastPeerWins | check_linux.rb:441-448 | the last `*` line decides the reading |
| Ntp.NoPeerOutcome | check_linux.rb:440-462 | without a peer the text shows 999 against `unknown`, the code is CRITICAL exactly when `crit <= 999`, and the perfdata shows `999s` |
| Ntp.NtpBands | check_linux.rb:450-459 | the code is CRITICAL, WARNING or OK exactly in the bands of the offset |
| Ntp.PeerOfColumns | check_linux.rb:443-446 | a `*` line of columns gives the server without its `*` and the absolute second-to-last column divided by 1000 |
| Ntp.NtpOfListing | check_linux.rb:439-461 | a listing whose last `*` line is a given peer is classified and described from that peer |
| Ntp.CheckNtp | check_linux.rb:435-465 | the code lies in 0..2 and the perfdata is always set |
| Mailq.CountOfSummary | check_linux.rb:657-658 | a last line ending in a number is read as that number |
| Mailq.CountOfWordSummary | check_linux.rb:657-658 | a last line ending in a word is read as 0 |
| Mailq.CountOfBlank | check_linux.rb:657-658 | empty output is read as 0, since `nil.to_i` is 0 |
| Mailq.MailqBands | check_linux.rb:660-669 | the code is CRITICAL, WARNING or OK exactly in the bands of the count |
| Mailq.MailqPerfdata | check_linux.rb:672 | the perfdata is one `mailq_count` item whose value reads back as the count |
| Mailq.CheckMailq | check_linux.rb:653-675 | the code lies in 0..2 and the perfdata is always set |
| Uptime.MixedRadixDigits | check_linux.rb:109-114 | `humanize` emits one part per unit while seconds remain, named as its unit and below the unit's count, and the last part is non-zero when nothing overflows |
| Uptime.MixedRadixValue | check_linux.rb:109-114 | the parts, weighted by the unit products, plus the overflow left after the last unit, give back the seconds |
| Uptime.HumanizeZero | check_linux.rb:108-115 | `humanize(0)` is empty |
| Uptime.HumanizeExact | check_linux.rb:108-115 | below 1000 days, the parts are 1 to 4 digits of seconds, minutes, hours and days that reconstruct the seconds exactly |
| Uptime.ThousandDaysAsWritten | check_linux.rb:109 | as written, 1000 days are shown as four zero parts |
| Uptime.HumanizeWholeExact | check_linux.rb:109-114 | with a day count no uptime reaches, every positive uptime is shown exactly |
| Uptime.HumanizeOver | check_linux.rb:108-115 | over any units, the printed text is empty exactly when there are no seconds or no units |
| Uptime.Humanize | check_linux.rb:108-115 | `humanize` as written prints nothing exactly for 0 seconds |
| Uptime.HumanizeWhole | check_linux.rb:108-115 | corrected, with the days unwrapped, it prints nothing exactly for 0 seconds |
| Uptime.HumanizeAgrees | check_linux.rb:109 | below 1000 days the corrected `humanize` prints what the script prints |
| Uptime.MappedLastCount | check_linux.rb:109-113 | the count of the last unit does not change the amounts while the seconds stay below what all units span |
| Uptime.ThousandDaysWhole | check_linux.rb:109-113 | corrected, 1000 days give the amounts 0, 0, 0 and 1000 days |
| Uptime.UptimeMatch | check_linux.rb:473 | a match is a non-empty digit run |
| Uptime.UptimeBands | check_linux.rb:476-491 | the code is UNKNOWN exactly without a match, WARNING exactly up to the threshold, and OK exactly above it |
| Uptime.CheckUptimeAsWritten | check_linux.rb:467-494 | as written, the probe is UNKNOWN exactly without a match and otherwise WARNING or OK |
| Uptime.CheckUptime | check_linux.rb:467-494 | corrected, the same codes, and the code and perfdata equal the as-written probe's |
| Uptime.LastLineDecides | check_linux.rb:472-474 | a last line that does not match means no match, whatever came before |
| Uptime.UptimeOfProcFile | check_linux.rb:476-486 | a `/proc/uptime` line `n.rest` gives the code from `n`, the perfdata with `n` as printed, and as written the text `humanize(n)`; the corrected probe's text uses the unwrapped days |
| Uptime.LastMatchOfProcFile | check_linux.rb:472-474 | the match of such a file is the seconds as printed |
| Uptime.CorrectionBelowThousandDays | check_linux.rb:476-486 | whenever the uptime read is below 1000 days, the corrected probe gives exactly the script's result |
| Uptime.ThousandDaysProbe | check_linux.rb:476-486 | an uptime of exactly 1000 days is printed by the script as `OK - Uptime 0 days 0 hours 0 minutes 0 seconds` and by the corrected probe as `1000 days 0 hours 0 minutes 0 seconds` |
| Oom.TwoLineText | check_linux.rb:508-515 | the two-line text fails exactly when the killed line is blank |
| Oom.DisabledIsQuiet | check_linux.rb:498-500 | a disabled probe is OK with empty perfdata |
| Oom.CrashIffBlankKill | check_linux.rb:504-515 | the probe fails exactly for two lines whose second is blank |
| Oom.AsWrittenWarnings | check_linux.rb:506-519 | as written, the probe warns exactly for 2 lines and for more than 3 |
| Oom.ThreeLinesAsWritten | check_linux.rb:516-523 | as written, three lines are reported as no activity with empty perfdata |
| Oom.ActivityWarns | check_linux.rb:504-523 | corrected, the probe warns exactly from 2 lines up and is otherwise the fixed OK result |
| Oom.WarningPerfdata | check_linux.rb:505 | a warning carries one item with the line count |
| Oom.LinesMetricReadsBack | check_linux.rb:505 | that item is labelled `oom_killer_lines` and reads back as the count |
| Oom.FreedRoundsDown | check_linux.rb:515 | the freed MB are a multiple of 4 and fall short of `pages * 4 / 1024` by less than 4 |
| Oom.OneInvocation | check_linux.rb:506-515 | for two lines of columns the text names the invoker and the killed columns 1 to 4, and the second search looks for the killed pid |
| Oom.CheckOomAsWritten | check_linux.rb:496-527 | as written, every result is OK or WARNING, and a crash needs an enabled probe and exactly two lines |
| Oom.CheckOom | check_linux.rb:496-527 | corrected, it crashes exactly when the script does, agrees with every warning, and differs only for three lines, where it warns |
| Disks.CheckDisks | check_linux.rb:335-354 | the probe fails exactly when the table has fewer than two lines: without a header the row loop runs on `nil`, and with a header alone the total row is `nil` |
| Disks.RequestsAppend | check_linux.rb:339 | the requests for consecutive rows are the requests for each part |
| Disks.Requests | check_linux.rb:339-353 | there is at most one request per row, and none for `/boot` |
| Disks.RequestsChosen | check_linux.rb:341-352 | no request is for `/boot`; each carries the configured thresholds and units for its mount point, or else `10%`, `5%` in percent |
| Disks.RequestsCount | check_linux.rb:339-353 | every row other than a `/boot` row yields its request, and the count is the rows minus the `/boot` rows |
| Disks.RowOfColumns | check_linux.rb:340-342 | a row's mount point is its last column |
| Disks.TotalOfRow | check_linux.rb:354-361 | the total row is OK, with sizes in whole MB rounded down and the percentage as printed |
| Disks.TotalLabels | check_linux.rb:361 | the total perfdata labels `total_used`, `total_size`, `total_free_M`, `total_free_perc` |
| Lines.SplitLinesOfOutput | check_linux.rb:169 | splitting newline-terminated output at line feeds gives back its lines |
| Lines.EachLineOfOutput | check_linux.rb:472 | iterating over lines gives back the lines of newline-terminated text |
| Lines.WordsOfJoin | check_linux.rb:340 | splitting space-joined words on white space gives back the words |
| Numbers.ToIShowInt | check_linux.rb:355 | `to_i` reads back every printed integer |
| Numbers.ToFDecimal | check_linux.rb:261 | `to_f` of `digits.digits` is the decimal value, and of `digits,digits` the integer part |
| Numbers.ToFShowDecimal | check_linux.rb:274 | `to_f` reads back a printed decimal |
| Numbers.RoundDecimal | check_linux.rb:191 | rounding a non-negative decimal adds one exactly when the first decimal is 5 or more |

## Left out

- Configuration and option parsing (lines 33-97): YAML loading and saving, and OptionParser. This is file I/O. Thresholds are parameters.
- Integer thresholds only: every `warn` and `crit` is an `int`, while a YAML file may give a float such as `0.5` seconds for NTP. A float threshold would compare as a real and print through `Float#to_s` in the perfdata; neither is modelled.
- `interactive_mode`: the configured value is modelled as unset or a boolean. Another YAML value would fail the `== true` test and print as itself; that case is not modelled.
- Running commands and reading `/proc`: every backtick command and `File.open` is an input string. Its exit status is a parameter where the code reads `$?`.
- The debug writes to `/tmp/check_linux_debug.txt`, `debug_header` and the `$debug` output: side effects only.
- Threads (`Thread.new` and `join`): concurrency. The model takes the final result sequence as given, so the CPU thread started twice, and joined only when a swap thread exists, is not represented.
- The relay plugins (`check_load`, `check_swap`, `check_disk`, `check_proc`, `check_drbd`, `check_corosync`, `check_heartbeat`, `check_context_switches`): they pass on another program's code and text. `check_disks` is modelled up to the request it sends to `check_disk`.
- `check_tasks`, `check_sensors`, `check_networkq`, `check_ipmi`, `check_sar` (is `sar` installed), `check_os` and the start-up checks: these depend on the clock, locale, floating-point temperatures, DNS or the environment.
- `Float#to_s`: the swap probe prints the token's own digits with trailing zeros trimmed, which leaves out the exponent form Ruby uses from 1e16 up and below 1e-4. Neither range can occur for a column of `sar -W` with two decimals. The NTP probe takes the printer as a parameter, because Ruby writes small offsets in exponent form.
- Floating-point rounding: values are exact reals, so a `to_f` of a long decimal or a division by `total / 100.0` is exact in the model.
- Ntp.PeerOfColumns: states the offset through `to_f` of the column text; a signed column's value is stated separately by Numbers.ToFSignedDecimal, not combined into one lemma.
- Uptime.LastLineDecides: states only that no match results; the UNKNOWN result then follows from Uptime.UptimeBands.
- `check_oom`'s `enabled != true` test is modelled for a boolean setting only.
- `check_sar_swap` names its first capture pswpout, as the code does, whatever the column order of `sar -W`.

## Findings

| source | as written | input that shows it | evidently intended | confidence | as-written member | corrected member |
|---|---|---|---|---|---|---|
| check_linux.rb:209-215 | the steal test sets the code to 1 or 0, discarding the idle test's code | idle 5%, steal 0%, thresholds 80/90: the text says CRITICAL but the code is 0 | the steal test only raises the code | not executed | SarCpu.StealOverrideHidesCritical | SarCpu.CorrectedCodeIsWorst |
| check_linux.rb:280 | the no-match perfdata labels its second item `pswpout` | any `sar -W` output without a matching row | the second item is `pswpin`, as in a matched row | not executed | SarSwap.NoMatchLabelsAsWritten | SarSwap.NoMatchLabels |
| check_linux.rb:516 | the killing-spree branch needs `lines_count > 3` | three lines of killer activity: reported OK, "No OOM killer activity" | every count beyond one invocation warns (`>= 3`) | not executed | Oom.ThreeLinesAsWritten | Oom.ActivityWarns |
| check_linux.rb:109 | days are taken modulo 1000, and `check_uptime` prints with it (lines 480, 484) | `/proc/uptime` holding `86400000.00 1.00`: `OK - Uptime 0 days 0 hours 0 minutes 0 seconds` (Uptime.ThousandDaysProbe) | the day count is unbounded | not executed | Uptime.ThousandDaysAsWritten | Uptime.HumanizeWholeExact |
