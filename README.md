# floppyfetch, modelled in Dafny

floppyfetch is a small system-information tool. It runs eleven probes
(OS, host name, kernel, uptime, package count, shell, screen resolution,
desktop environment, CPU, GPU and memory) on a thread pool. It gathers
their results into one dictionary, prints them as a table and shows an
ASCII-art logo beside it.

This project models the deterministic logic of those probes. Every reading
of the operating system or of a library is a parameter:

- `psutil.boot_time()` and `datetime.now()`.
- `platform.system()` and `os.environ`.
- The parent process name.
- The `screeninfo` monitor list.
- The scoop apps directory listing.
- The output of the `wmic` commands.
- The GPUtil answer.
- The outcome of each future.

The modules follow the script's functions:

| file | module | what it models |
|---|---|---|
| `wrappers.dfy` | `Wrappers` | optional values |
| `strings.dfy` | `Strings` | the Python `str` operations the probes use: `strip`, `split`, `join`, `in`, `lower`, `os.path.basename` |
| `decimal.dfy` | `Decimal` | `str(n)` for integers, and a parser that reads it back |
| `uptime.dfy` | `Uptime` | `get_uptime` |
| `environment.dfy` | `Environment` | `get_de`, `get_shell` |
| `resolution.dfy` | `Resolution` | `get_resolution` |
| `packages.dfy` | `Packages` | `get_packages` |
| `wmic.dfy` | `Wmic` | the text parsing of `get_cpu_wmic` and `get_gpu` |
| `collector.dfy` | `Collector` | `fetch_data_parallel`: the results loop as a method, specified by a fold |
| `logo.dfy` | `Logo` | the logo lookup with its default |

The loop of `fetch_data_parallel` fills a dictionary in place, so
`Collector.CollectResults` is a method with a `while` loop. It is proved
against the fold `Collector.Collected`, and the properties of the
dictionary are proved as lemmas about that fold. Everything else in the
script computes a value, so it is modelled by functions and lemmas.

Behaviour that may look surprising is modelled as the code has it:

- `floppyfetch.py:63-65` comma-joins an empty list, so no monitors give
  the empty text, not "N/A" (`Resolution.GetResolution`).
- An apps directory without sub-directories reports "-1 (scoop)"
  (`Packages.EmptyAppsDirectory`).
- In `get_shell`, the test `"cmd.exe" in parent_name` never decides
  anything, because any name containing "cmd.exe" contains "cmd"
  (`Environment.CmdExeNamesCmd`).

## Model

| member | source | states |
|---|---|---|
| Strings.StripLeadingSuffix | floppyfetch.py:99 | `lstrip()` removes exactly a run of leading whitespace and keeps the rest as a suffix |
| Strings.StripTrailingPrefix | floppyfetch.py:99 | `rstrip()` removes exactly a run of trailing whitespace and keeps the rest as a prefix |
| Strings.Strip | floppyfetch.py:99 | `strip()` leaves neither end as whitespace (Python's `isspace` set) |
| Strings.StripSurroundings | floppyfetch.py:99 | every text is its stripped form with whitespace on either side |
| Strings.StripAllSpace | floppyfetch.py:130 | a whitespace text strips to the empty text |
| Strings.StripPrependSpace | floppyfetch.py:130 | whitespace in front of a text does not change what it strips to |
| Strings.StripAppendSpace | floppyfetch.py:130 | whitespace after a text does not change what it strips to |
| Strings.StripPadded | floppyfetch.py:99 | stripping whitespace padding around a stripped text gives back exactly that text |
| Strings.StripIdempotent | floppyfetch.py:130 | stripping twice is stripping once |
| Strings.Split | floppyfetch.py:130 | `split(sep)` gives at least one piece, and no piece contains the separator |
| Strings.SplitConcat | floppyfetch.py:130 | the split of a concatenation is the pieces of the first text, its last piece glued to the first piece of the second, then the other pieces of the second |
| Strings.SplitAllSpace | floppyfetch.py:130 | the pieces of a whitespace text are whitespace |
| Strings.SplitThenJoin | floppyfetch.py:130 | joining the pieces of a split with the separator gives back the text |
| Strings.Join | floppyfetch.py:65 | `sep.join(parts)` has the length of the pieces plus one separator between each two, and starts with the first piece |
| Strings.JoinThenSplit | floppyfetch.py:65 | splitting a join of separator-free pieces gives back the pieces |
| Strings.JoinSeparatorCount | floppyfetch.py:65 | a join of n separator-free pieces holds exactly n-1 separators |
| Strings.Contains | floppyfetch.py:39-41 | the substring test `t in s` of lines 39 and 41 holds for every prefix of `s` and never for a text longer than `s`; `ContainsOccurs` gives its exact meaning |
| Strings.ContainsOccurs | floppyfetch.py:39-41 | the substring test `t in s` of lines 39 and 41 holds exactly when `t` occurs at some position of `s` |
| Strings.ContainsPrefixOf | floppyfetch.py:41 | a text containing `u` contains every prefix of `u` |
| Strings.Lower | floppyfetch.py:37 | `lower()` keeps the length, maps each upper-case ASCII letter to its lower-case letter and keeps every other character |
| Strings.Basename | floppyfetch.py:52 | `os.path.basename` is the longest `/`-free suffix of the path, preceded by `/` when shorter than the path |
| Decimal.NatToString | floppyfetch.py:26 | the decimal rendering is non-empty, all digits, without a leading zero |
| Decimal.IntToString | floppyfetch.py:26 | `str(n)` is non-empty and made of digits and the minus sign |
| Decimal.IntToStringRoundTrip | floppyfetch.py:26 | `str(n)` reads back as `n` |
| Decimal.IntToStringInjective | floppyfetch.py:26 | distinct integers render differently |
| Decimal.ParseIntExact | floppyfetch.py:26 | the reader accepts exactly the texts `str` writes: a text reads as `n` if and only if it is `str(n)`, so "01", "-0" and "+1" are refused |
| Uptime.Truncate | floppyfetch.py:22 | `int(x)` truncates toward zero |
| Uptime.DivMod | floppyfetch.py:23-25 | `divmod(a, b)` with `b > 0` gives `q*b + r == a` and `0 <= r < b` |
| Uptime.Decompose | floppyfetch.py:23-25 | days*86400 + hours*3600 + minutes*60 + seconds is the uptime; hours, minutes and seconds lie in range; days are non-negative exactly when the uptime is |
| Uptime.DecomposeUnique | floppyfetch.py:23-25 | any in-range split of the uptime is the one the chained `divmod` computes |
| Uptime.FormatSpan | floppyfetch.py:26 | the f-string "D days H hours M minutes" reads back as exactly its days, hours and minutes |
| Uptime.ParseUptimeExact | floppyfetch.py:26 | a text reads back as days, hours and minutes if and only if it is their f-string "D days H hours M minutes", character for character |
| Uptime.FormatUptime | floppyfetch.py:23-26 | the text of whole seconds reads back as the days, hours and minutes of their chained `divmod` decomposition |
| Uptime.WholeMinutes | floppyfetch.py:23-25 | the days, hours and minutes together are the uptime's whole minutes |
| Uptime.FormatUptimeDropsSeconds | floppyfetch.py:23-26 | two uptimes give the same text exactly when they fall in the same whole minute, so the seconds never show |
| Uptime.GetUptime | floppyfetch.py:19-27 | the text reads back as the days, hours and minutes of the decomposition of the whole seconds since boot |
| Uptime.UptimeExample | floppyfetch.py:19-27 | 90061.5 seconds since boot give "1 days 1 hours 1 minutes" |
| Environment.GetDe | floppyfetch.py:54-59 | "Windows Desktop" on Windows; otherwise DESKTOP_SESSION if set and non-empty, else XDG_CURRENT_DESKTOP if set and non-empty, else "N/A"; never empty |
| Environment.ClassifyParent | floppyfetch.py:37-44 | "PowerShell" exactly when the lowered name contains "powershell" or "pwsh"; "Command Prompt" exactly when it contains neither but contains "cmd"; otherwise the lowered name |
| Environment.CmdExeNamesCmd | floppyfetch.py:41 | every name containing "cmd.exe" contains "cmd" |
| Environment.GetShell | floppyfetch.py:29-52 | off Windows, the basename of a non-empty SHELL, else "Unknown"; on Windows, PROMPT without PSModulePath gives "Command Prompt", else the classified parent name, else (psutil raised) "PowerShell" or "Command Prompt" by PSModulePath |
| Resolution.MonitorTexts | floppyfetch.py:64 | one "WxH" text per monitor, in monitor order |
| Resolution.MonitorText | floppyfetch.py:64 | the "WxH" text of a monitor holds no comma and reads back as that monitor |
| Resolution.ParseMonitorExact | floppyfetch.py:64 | a text reads back as a monitor if and only if it is that monitor's "WxH" text |
| Resolution.MonitorTextsRoundTrip | floppyfetch.py:64 | the list of "WxH" texts reads back as the monitor list |
| Resolution.GetResolution | floppyfetch.py:61-67 | "N/A" when the enumeration raises; otherwise a text that reads back as the full monitor list, in order, never equals "N/A", is empty for no monitors and holds n-1 commas for n monitors |
| Resolution.ParseResolutionExact | floppyfetch.py:61-67 | a text reads back as a monitor list if and only if it is what `get_resolution` writes for that list, so the round trip of `GetResolution` fixes its text exactly |
| Packages.CountDirs | floppyfetch.py:74-75 | the directory count is at most the number of entries |
| Packages.CountDirsIsMultiplicity | floppyfetch.py:74-75 | the count is the number of directory entries, whatever their order |
| Packages.GetPackages | floppyfetch.py:69-81 | "N/A" off Windows; on Windows "0" without an apps directory and "N/A" when listing it raises |
| Packages.GetPackagesReadBack | floppyfetch.py:74-76 | a listed apps directory gives the number of its sub-directories less one, followed by " (scoop)" |
| Packages.GetPackagesOutcomesDistinct | floppyfetch.py:70-79 | the listed, missing and unlistable cases give three different texts |
| Packages.EmptyAppsDirectory | floppyfetch.py:74-76 | an apps directory without sub-directories gives "-1 (scoop)" |
| Wmic.FindNameFrom | floppyfetch.py:100 | the leftmost position where "Name=" is followed by a character other than a newline |
| Wmic.RestOfLine | floppyfetch.py:100 | the greedy group `(.+)` runs to the next newline or the end of the text |
| Wmic.SearchName | floppyfetch.py:100-101 | no match exactly when "Name=" followed by a non-newline occurs nowhere; otherwise the group is the non-empty, newline-free rest of the line after the leftmost such occurrence |
| Wmic.GetCpuWmic | floppyfetch.py:92-105 | the fallback processor when the command raises, writes to stderr, is not valid UTF-8 or has no match; otherwise the stripped group |
| Wmic.SearchNameAtStart | floppyfetch.py:100-102 | "Name=" followed by a one-line name matches at once with that name as the group |
| Wmic.StripAnswer | floppyfetch.py:99 | stripping blank padding around "Name=" and a name gives the tag and the name |
| Wmic.GetCpuWmicReadsName | floppyfetch.py:97-102 | a clean answer, "Name=" and a name between blank lines, gives exactly that name |
| Wmic.GetCpuWmicStderrFallback | floppyfetch.py:97-98 | any stderr output gives the fallback, whatever stdout holds |
| Wmic.StrippedNonBlank | floppyfetch.py:130 | the comprehension keeps at most as many lines as there are pieces, each non-blank and stripped |
| Wmic.StrippedNonBlankAppend | floppyfetch.py:130 | the comprehension works piece by piece: the lines of two runs of pieces are the lines of each, in order |
| Wmic.StrippedNonBlankDropsBlank | floppyfetch.py:130 | whitespace pieces give no line |
| Wmic.StrippedNonBlankPadded | floppyfetch.py:130 | pieces that are non-blank stripped lines padded with whitespace give exactly those lines, in order |
| Wmic.StrippedNonBlankKeepsClean | floppyfetch.py:130 | lines that are already non-blank and stripped pass through unchanged |
| Wmic.StripBeforeSplitIrrelevant | floppyfetch.py:130 | the `strip()` of the whole output before the split changes none of the kept lines |
| Wmic.NonBlankLines | floppyfetch.py:130 | the lines of an output are the stripped, non-blank pieces of its newline split |
| Wmic.SecondLine | floppyfetch.py:132-133 | a line exactly when there are at least two, and then the second, non-blank and stripped |
| Wmic.NonBlankLinesOfCleanText | floppyfetch.py:130 | an output made of non-blank stripped lines is read back as exactly those lines |
| Wmic.GetGpu | floppyfetch.py:123-168 | "N/A" off Windows; the second non-blank line of the name query when it has two; else the caption query's second line or "N/A"; the GPUtil name or "N/A" when a query raises |
| Wmic.GetGpuReadsFirstAdapter | floppyfetch.py:126-133 | an answer of blank lines, a header line, blank lines, the first adapter's name padded with whitespace (the "\r\r" line ends included) and anything after yields that name |
| Wmic.AnswerPiecesLines | floppyfetch.py:130 | such an answer's lines are the stripped header, the adapter's name, then the lines of the rest |
| Collector.Settle | floppyfetch.py:197-200 | a returned value is the entry itself; a raised exception gives "Error: " followed by its message |
| Collector.SettleDistinguishes | floppyfetch.py:197-200 | two outcomes of the same kind give the same entry only when equal; a returned value equal to "Error: " and a message is indistinguishable from that exception |
| Collector.Collected | floppyfetch.py:195-200 | the dictionary after the loop holds exactly the futures' keys |
| Collector.CollectResults | floppyfetch.py:195-200 | the loop leaves the dictionary equal to the fold of the settled futures over an empty dictionary |
| Collector.CollectedAt | floppyfetch.py:196-200 | with distinct keys, each key holds its own probe's value, or "Error: " and the message when it raised |
| Collector.FailureIsolation | floppyfetch.py:196-200 | a probe that raises changes only its own entry, to "Error: " and its message; the keys and every other entry stay the same |
| Collector.FuturesOf | floppyfetch.py:181-193 | the futures dictionary has the eleven result keys, in submission order |
| Collector.ResultKeysDistinct | floppyfetch.py:181-193 | the eleven keys are pairwise distinct |
| Collector.CollectedProbes | floppyfetch.py:181-202 | the collected futures hold exactly the eleven keys, each with its own probe's entry |
| Collector.CollectedEntry | floppyfetch.py:181-200 | the i-th result key holds the settled entry of the i-th probe |
| Collector.FetchData | floppyfetch.py:179-202 | the result has exactly the keys os_info, host, kernel, uptime, packages, shell, resolution, de, cpu, gpu and memory, each holding its own probe's value or its error text |
| Logo.SelectLogo | floppyfetch.py:272 | a known logo name selects its logo; any other name selects logo "0" |
| Logo.LogoFor | floppyfetch.py:271-272 | the first `-logo` argument picks its logo when the table has it and logo "0" otherwise; the art shown is always one of the table's logos |

## Left out

- The operating-system and library calls are parameters, not modelled:
  `psutil.boot_time`, `datetime.now`, `platform.*`, `os.environ`,
  `os.getppid` and `psutil.Process`, `os.path.exists`, `os.listdir` and
  `os.path.isdir`, `get_monitors`, `socket.gethostname`, `GPUtil.getGPUs`.
- `subprocess.Popen`, `subprocess.check_output` and their 0.5 s timeouts
  are left out because they are process I/O. Only the text they return is
  parsed. For the GPU queries, a raised call and output that is not valid
  UTF-8 are the same case, `Wmic.GpuQueryRaised`. For the CPU query they
  are two cases: `Wmic.CpuQueryRaised` for a raised call, and
  `Wmic.CpuQueryDone` with no text for undecodable output, which is
  reached only after the stderr test of `floppyfetch.py:97-99`.
- The `ThreadPoolExecutor` of `fetch_data_parallel` is left out because it
  is concurrency. Each future is given by the outcome it settles to, and
  the loop runs sequentially.
- The GPUtil daemon thread with its 0.3 s join in `get_gpu` is left out for
  the same reason. What it left in `result[0]` is the parameter
  `gputilName`.
- `get_os`, `get_host`, `get_kernel`, `get_cpu` and `get_ram` are not
  modelled, because each reads the system through library calls; their results enter the model as outcomes in
  `Collector.Probes`. `get_host` forwards `socket.gethostname()`.
  `get_kernel` returns `platform.version()` on Windows and
  `platform.release()` elsewhere (`floppyfetch.py:174-177`). `get_cpu`
  dispatches to `get_cpu_wmic` (modelled by `Wmic.GetCpuWmic`) on Windows;
  elsewhere it reads `brand_raw` from `psutil.cpu_info()`, falling back to
  `platform.processor()` (`floppyfetch.py:107-114`). `get_os` formats
  `platform.system()` and `platform.platform()` as "S (P)" and returns
  "Unknown OS" when either raises (`floppyfetch.py:83-90`), so its entry
  is never an "Error: " text; the model leaves that to the outcome given
  for it. `get_ram` uses floating-point division and `:.2f` formatting.
- `rich` rendering, `argparse` and the ASCII-art literals are left out
  because they are presentation. The logo table is a parameter of
  `Logo.SelectLogo`.
- The regular-expression engine is left out. Only the search for
  `Name=(.+)` is modelled.
- Collector.CollectResults: the results are a Dafny `map`, so the
  insertion order of the Python dictionary is not kept. The table reads
  the entries by key.
- Strings.Lower: only ASCII letters are lowered. Python's `str.lower` also
  maps other Unicode letters, which this model does not.
- Environment.ClassifyParent inherits the ASCII-only lowering of
  `Strings.Lower`.
- Environment.GetShell: environment variable names are compared exactly.
  On Windows, `os.environ` matches them case-insensitively; that is not
  modelled.
- Uptime.GetUptime: the timestamps are exact reals. Floating-point rounding
  of `now - boot_time` is not modelled.
- Monitor widths and heights are unbounded integers, taken as
  `screeninfo` reports them.
