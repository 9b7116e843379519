# Zen-Downloader download bookkeeping, in Dafny

This project models the server-side bookkeeping of the Zen-Downloader web
application (`app.py`). The Flask server hands URLs to the `yt-dlp`
downloader. It keeps one progress record per task in the dictionary
`download_progress`, and streams that record to the browser.

The model covers the following parts of `app.py`:

- **Progress table** (`ProgressTable.dfy`). `download_progress` is a class
  holding a map from task id to a `Record`. Its methods model:
  - `parse_progress`;
  - the body of `download_video`;
  - `cleanup`.
- **Line parser** (`LineParser.dfy`). It models what one diagnostic line does
  to a record.
  - The two regular expressions, `(\d+\.?\d*)%` and
    `of\s+([\d.]+\w+)\s+at\s+([\d.]+\w+/s)`, are hand-written scanners. Each
    scanner is proved equal to a literal transcription of its pattern, using
    `re.search`'s leftmost-match rule.
  - The three status markers are applied in source order.
- **Line splitter** (`LineSplitter.dfy`). It models the character loop that
  cuts the diagnostic stream into lines.
- **Download outcome** (`Download.dfy`). It models:
  - the format selector;
  - the title probe;
  - the exit-code message;
  - the output-file probe over `.mp3 .mp4 .mkv .webm .m4a`;
  - the final record.

  The outside world is given as a `Run` value:
  - whether FFmpeg is present;
  - the probe result;
  - the diagnostic stream;
  - the exit code;
  - the paths that exist.
- **Progress stream** (`ProgressStream.dfy`). The `generate` loop of
  `get_progress` takes the successive observations of the table as input.
- **Format list** (`Formats.dfy`). It models the `get_video_info_cli` format
  list in four steps:
  - filter and convert;
  - a stable sort by descending height;
  - one entry per resolution;
  - a cut to 20 entries.
- **Routing** (`Routing.dfy`). It models the routing decision of
  `get_video_info`.
- **Helpers** (`Helpers.dfy`). It models `format_duration` and
  `sanitize_filename`.
- **Supporting modules.**
  - `Text.dfy` holds the string primitives Python supplies: `strip`, `in`,
    `lower` and `str(int)`.
  - `Records.dfy` holds the record and status types.
  - `Wrappers.dfy` holds `Option`.

### Behaviour of `app.py` the model follows

- Each download request starts its own thread (app.py:453-458).
- A percentage is truncated by `int(float(...))` and is not clamped
  (app.py:228-229).
- The stderr read loop (app.py:358-363) ends only at the end of the stream,
  so the `communicate()` call at app.py:376 has nothing left to read. Its
  "ERROR" branch (app.py:378-380) is therefore never taken: every non-zero
  exit stores "Download failed with code N" (`Download.ExitMessageAfterLoop`).
- The stream is opened with `text=True` (app.py:344-352), so `\r\n` and a lone
  `\r` reach the loop as `\n`. The lines handed on are the same as for the raw
  text (`LineSplitter.LinesUniversalNewlines`).

## Model

| member | source | states |
|---|---|---|
| ProgressTable.Table.constructor | app.py:27 | the table starts empty |
| ProgressTable.Table.ParseProgress | app.py:221-245 | an unknown task id leaves the table unchanged; otherwise only that task's record changes, and it becomes `ApplyLine` of the old record and the line |
| ProgressTable.Table.ConsumeStream | app.py:357-371 | after reading the whole stream, the record of that id is the old record with every complete, non-blank, stripped line applied in order; an unknown id leaves the table unchanged |
| ProgressTable.Table.DownloadVideo | app.py:248-409 | the entry of that id ends as `FinalRecord` of the run and nothing else in the table changes; the selector is handed over exactly when FFmpeg is present, and it is the one `FormatSelector` gives |
| ProgressTable.Table.Cleanup | app.py:499-509 | a known id: its entry is removed, the file its record names is deleted when it exists, and the reply is "Cleaned up"; an unknown id: "Task not found", with the table and the files unchanged |
| ProgressTable.StoredFile | app.py:501-505 | definition: the path `cleanup` deletes, `folder/filename` when the record names a non-empty filename, otherwise none; used by `Table.Cleanup` |
| LineParser.PercentValue | app.py:225-231 | definition: the truncated integer value of the first percent match, if any; characterised by `FindPercent` and `PercentOfNumber` |
| LineParser.SpeedValue | app.py:233-236 | definition: the two groups of the leftmost speed match, if any; characterised by `FindSpeed` and `SpeedValueOfMatchAtStart` |
| LineParser.Measured | app.py:225-236 | definition: "progress" from the percent match, then "downloaded" and "speed" from the speed match; characterised by `PercentOfNumber` and `SpeedValueOfMatchAtStart` |
| LineParser.Marked | app.py:238-245 | definition: the three marker tests in source order, each setting "status"; characterised by `MarkerPrecedence` |
| LineParser.ApplyLine | app.py:221-245 | definition: what `parse_progress` does to a present record, `Measured` then `Marked`; characterised by `MarkerPrecedence` and `ApplyLineUnrecognised` |
| LineParser.PercentEndAtCorrect | app.py:225 | the scanner's end for a percent match at `i` is exactly the end of a match of `(\d+\.?\d*)%` at `i`, in both directions |
| LineParser.FindPercent | app.py:225 | the result is a match of the pattern, no match starts earlier, and `None` means no match anywhere |
| LineParser.PercentOfNumber | app.py:225-230 | when the first digits of a line are `n`, then an optional `.digits`, then `%`, "progress" is set to `n` (truncated, not rounded or clamped) |
| LineParser.PercentExample | app.py:225-230 | the line `45.7%` sets "progress" to 45 |
| LineParser.RateAtComplete | app.py:233 | when `at\s+([\d.]+\w+/s)` matches from `q` with given group bounds, the rate scanner returns those bounds |
| LineParser.SpeedAtIndexComplete | app.py:233 | a match of the speed pattern at `i` has only one set of group bounds, and the scanner finds them |
| LineParser.GroupEnd | app.py:233 | a `[\d.]+\w+` group followed by a character that cannot continue it ends where the run of such characters ends |
| LineParser.SpeedAtIndexSound | app.py:233 | whatever the scanner returns at `i` is a match of the speed pattern |
| LineParser.SpeedAtIndexCorrect | app.py:233 | the scanner at `i` returns given bounds exactly when the pattern matches at `i` with those group bounds |
| LineParser.FindSpeed | app.py:233 | the result is a match, no match starts earlier, and `None` means no match anywhere |
| LineParser.SpeedLineMatches | app.py:233 | text of the form `of <space> amount <space> at <space> rate/s` matches the pattern at its start, with the amount and `rate/s` as the groups |
| LineParser.SpeedValueOfMatchAtStart | app.py:233-236 | when the pattern matches at index 0, "downloaded" and "speed" are set to that match's groups |
| LineParser.SpeedOfAmountAndRate | app.py:233-236 | a line starting `of 10MiB at 2MiB/s` (any whitespace runs, any such amount and rate) sets "downloaded" to the amount and "speed" to the rate with its `/s` |
| LineParser.MarkerPrecedence | app.py:238-245 | the status after a line is Postprocessing if that marker occurs, else Merging, else Processing, else unchanged; "filename" and "error" never change; "progress", "speed" and "downloaded" are what the two patterns set, untouched by the markers |
| LineParser.ApplyLineUnrecognised | app.py:225-245 | a line with no percent match, no speed match and no marker leaves the record unchanged |
| LineParser.ApplyLinesSnoc | app.py:357-371 | handing over one more line applies it after all the earlier ones |
| LineSplitter.Split | app.py:357-371 | definition: the buffer and the lines handed on after reading a text character by character; characterised by `SplitSnoc` and `PendingIsLastLine` |
| LineSplitter.Lines | app.py:357-371 | definition: the lines handed to `parse_progress`, in order; characterised by `LinesWellFormed`, `SplitAppend` and `IgnoreTail` |
| LineSplitter.Pending | app.py:357-371 | definition: the buffer after reading a text; characterised by `PendingIsLastLine` |
| LineSplitter.SplitSnoc | app.py:364-371 | a terminator empties the buffer and hands on the stripped buffer when it is not empty; any other character is appended to the buffer |
| LineSplitter.PendingIsLastLine | app.py:357-371 | the buffer is exactly the text after the last `\r` or `\n` |
| LineSplitter.LinesWellFormed | app.py:364-368 | every line handed to `parse_progress` is non-empty, stripped and holds no `\r` or `\n` |
| LineSplitter.BufferLineWellFormed | app.py:365-367 | the stripped buffer that a terminator hands on is a well-formed line |
| LineSplitter.SplitAppend | app.py:357-371 | reading `a` then `b` hands on the lines of `a` followed by the lines of the leftover buffer plus `b` |
| LineSplitter.NoTerminatorPending | app.py:370-371 | text without a terminator only fills the buffer and hands on nothing |
| LineSplitter.CompleteLine | app.py:365-369 | a complete line after any text hands on exactly the stripped buffer-plus-line when it is not empty, and empties the buffer |
| LineSplitter.IgnoreTail | app.py:357-371 | text after the last terminator is never handed on |
| LineSplitter.LinesCrAsLf | app.py:365 | replacing every `\r` by `\n` changes neither the lines nor the buffer |
| LineSplitter.UniversalNewlines | app.py:344-352 | definition: the stream as `text=True` delivers it, `\r\n` and `\r` read as `\n`; characterised by `LinesUniversalNewlines` |
| LineSplitter.LinesUniversalNewlines | app.py:344-371 | the universal-newline translation of `text=True` (`\r\n` and `\r` to `\n`) changes neither the lines nor the buffer |
| Download.FormatSelector | app.py:303-338 | definition: the `--format` chain and post-processing flags for audio-only, `best` and any other format id; characterised by `FormatSelectorChains` |
| Download.FormatSelectorChains | app.py:303-338 | audio-only always gives `bestaudio/best` with mp3 extraction at quality 0, whatever the id; video always merges into mp4; `best` gives the mp4/m4a chain; any other id starts `<id>+bestaudio[ext=m4a]`; every chain ends in `/best` |
| Download.FirstExisting | app.py:389-393 | there is a result exactly when some candidate exists; the result is the first existing candidate in extension order |
| Download.ProbeOutput | app.py:388-393 | the loop finds the first existing candidate, as `FirstExisting` defines it |
| Download.Basename | app.py:396 | the result is a suffix of the path without `/`, preceded by `/` when shorter than the path |
| Download.BasenameOfJoin | app.py:396 | the basename of `folder/name` is `name` when `name` has no `/` |
| Download.TitleStaysInFolder | app.py:272-299 | the file title never holds `/`, so the output file's basename is the title plus the extension |
| Download.ExitMessage | app.py:377-385 | definition: the text `communicate()` returned when it holds "ERROR", otherwise "Download failed with code N"; characterised by `ExitMessageCases` |
| Download.ExitMessageCases | app.py:377-385 | for any text `communicate()` might return, the text is reported verbatim when it contains "ERROR"; otherwise the message is "Download failed with code N", also for empty text |
| Download.ExitMessageAfterLoop | app.py:358-385 | the read loop leaves nothing for `communicate()`, so the message is always "Download failed with code N" |
| Download.Concluded | app.py:375-402 | definition: the writes after the process ended, from the exit code and the first existing output file; characterised by `Conclude` and `CompletedIff` |
| Download.Conclude | app.py:375-402 | the step-by-step writes give the record `Concluded` defines, whose status is always terminal |
| Download.VideoTitle | app.py:271-297 | definition: `task_id` for an unusable probe or a non-string title, the sanitized task id when there is no title, otherwise the sanitized title; characterised by `VideoTitleBounds` and `TitleStaysInFolder` |
| Download.ChooseTitle | app.py:271-297 | the step-by-step title choice, which calls the `sanitize_filename` loop, gives `VideoTitle` |
| Download.VideoTitleBounds | app.py:271-297 | a title from the probe, or the task id standing in for a missing one, has at most 100 characters and no invalid character |
| Download.FinalRecord | app.py:248-409 | definition: the install-hint error without FFmpeg, otherwise the start record with every progress line applied, then `Concluded`; characterised by `CompletedIff`, `FailedExitOutcome` and `FinalRecordTerminal` |
| Download.MissingFFmpegOutcome | app.py:249-256 | without FFmpeg the record is error, progress 0, no filename, with the install hint |
| Download.FinalRecordTerminal | app.py:248-409 | a download always ends completed or error |
| Download.ApplyLinesKeepsFilenameAndError | app.py:221-245 | progress lines never set "filename" or "error" |
| Download.FailedExitOutcome | app.py:375-386 | a non-zero exit is an error with the message "Download failed with code N" and no filename, whatever files exist |
| Download.CompletedIff | app.py:375-402 | completed exactly when FFmpeg was present, the exit code was 0 and a candidate file exists; then "filename" is the basename of the first such file, progress is 100 and no error is set; with exit 0 and no file it is "Output file not found" |
| ProgressStream.Events | app.py:465-482 | definition: the snapshots `generate` emits for a sequence of observations, each emitted before the stop checks; characterised by `EventsStopAtFirst` and `EventsNoStop` |
| ProgressStream.Generate | app.py:465-482 | the loop emits exactly the events `Events` defines for the observations |
| ProgressStream.StopsAtShift | app.py:470-476 | an observation stops the stream after the first one exactly when it stops the rest with the first status added to the checked set |
| ProgressStream.EventsStopAtFirst | app.py:465-482 | every snapshot is emitted before any check, and the stream ends exactly at the first observation that is absent, terminal, or at 100% under a status already seen |
| ProgressStream.EventsNoStop | app.py:465-482 | with no stopping observation, every observation is emitted, in order |
| ProgressStream.AbsentIdUnknown | app.py:468-479 | an absent id gives exactly one "unknown" event |
| ProgressStream.RepeatedFullProgressStops | app.py:473-476 | the same unfinished status seen twice at 100% ends the stream after the second snapshot |
| Formats.Convert | app.py:103-122 | an entry kept has ext mp4, webm or m4a and a non-empty resolution; a non-empty raw resolution is kept; height is the raw height, or 0 when missing or null |
| Formats.ResolutionFallback | app.py:110-119 | without a resolution, a positive height gives `<height>p` and no height gives "audio"; filesize is null exactly when filesize is missing or 0 and filesize_approx is null |
| Formats.Converted | app.py:103-122 | the conversions of the allowed entries, in input order, never more than the input; characterised by `ConvertedExactly` |
| Formats.ConvertedExactly | app.py:103-122 | every converted entry comes from an allowed input entry, and every allowed entry is converted |
| Formats.SortByHeight | app.py:124 | definition: insertion sort tallest first, each element going ahead of its equal heights; characterised by `SortByHeightCorrect` |
| Formats.InsertOrder | app.py:124 | inserting into a list sorted tallest first keeps it sorted |
| Formats.InsertMultiset | app.py:124 | insertion adds exactly the one element |
| Formats.InsertWithHeight | app.py:124 | the inserted element goes ahead of the elements of its height, and their order is kept |
| Formats.SortByHeightCorrect | app.py:124 | the sort is non-increasing in height, a permutation, and stable among equal heights |
| Formats.SortOrder | app.py:124 | the sort is non-increasing in height |
| Formats.SortMultiset | app.py:124 | the sort is a permutation |
| Formats.SortStable | app.py:124 | the sort keeps the input order among equal heights |
| Formats.Dedup | app.py:126-132 | definition: the `seen_res` loop, keeping an entry when its resolution was not seen before; characterised by `DedupResolutions`, `DedupKeepsFirst` and `DedupMembers` |
| Formats.ResolutionsIff | app.py:127-131 | a resolution is in the seen set exactly when some entry has it |
| Formats.ResolutionsOfPermutation | app.py:124-131 | sorting does not change the set of resolutions |
| Formats.DedupResolutions | app.py:126-132 | de-duplication keeps every resolution and no resolution twice |
| Formats.DedupMembers | app.py:126-132 | every kept entry is an input entry |
| Formats.DistinctCount | app.py:126-132 | a list with distinct resolutions has one resolution per entry |
| Formats.DedupOrder | app.py:124-132 | de-duplicating a list sorted by height keeps it sorted |
| Formats.KeptIsTallest | app.py:124-132 | over a sorted list, no entry with a kept entry's resolution is taller than it |
| Formats.DedupKeepsTallest | app.py:124-132 | over a sorted list, the entry kept for each resolution is a tallest one |
| Formats.DedupKeepsFirst | app.py:126-132 | each kept entry is the first entry of its resolution in the input order |
| Formats.SortedOrigins | app.py:103-124 | the sorted list holds exactly the conversions of the allowed entries |
| Formats.UniqueFormatsCorrect | app.py:102-132 | the list before the cut is tallest first, has distinct resolutions and holds only conversions of allowed entries, each a tallest of its resolution |
| Formats.FormatList | app.py:102-140 | definition: convert, sort, de-duplicate, then cut to 20; characterised by `FormatListCorrect` and `FormatListComplete` |
| Formats.FormatListCorrect | app.py:102-140 | the offered list has at most 20 entries; it is tallest first, has distinct resolutions and allowed extensions, and every entry is a converted input entry that is a tallest of its resolution |
| Formats.FormatListComplete | app.py:126-140 | with at most 20 resolutions every resolution is offered; otherwise exactly 20 entries are offered |
| Formats.ConvertedPrefix | app.py:103-104 | each loop step appends the conversion of the entry exactly when it is allowed |
| Formats.DedupPrefix | app.py:128-132 | each loop step appends the entry exactly when its resolution was not seen |
| Formats.BuildFormatList | app.py:102-140 | the two loops, the sort and the cut give exactly `FormatList` of the input |
| Routing.RouteUrl | app.py:201-218 | the link fetched is the stripped link unless the link holds `watch?v=` and `v` and `list` are both non-empty, in which case it may be the reduced watch link for `v`; the link goes to the playlist fetcher exactly when it is not a watch link with both `v` and `list`, and its lower-cased form contains "playlist" or "list=" |
| Routing.WatchInListIsVideo | app.py:204-213 | a watch link with both `v` and `list` is fetched as the single video `https://www.youtube.com/watch?v=<v>` |
| Routing.ReducedLinkHasNoList | app.py:212 | the reduced link holds no `list=` when the video id holds no `=` |
| Routing.PlaylistMentionsList | app.py:215-216 | only a link containing "list" in any letter case is fetched as a playlist |
| Routing.RouteIgnoresWhitespace | app.py:202 | surrounding whitespace does not change the route |
| Helpers.FormatDuration | app.py:54-61 | definition: "Unknown" for a missing duration, otherwise `Clock` of the truncated seconds as `Hh Mm Ss` or `Mm Ss`; characterised by `Clock` and `HoursShownIff` |
| Helpers.Trunc | app.py:57 | `int()` of a number truncates toward zero |
| Helpers.Clock | app.py:57-58 | hours·3600 + minutes·60 + seconds is the input, minutes and seconds lie in 0..59, and hours > 0 exactly when the input is at least 3600 |
| Helpers.HoursShownIff | app.py:54-61 | the text holds an `h` exactly when the duration is at least an hour; a missing duration is "Unknown" |
| Helpers.Without | app.py:65-67 | the result holds exactly the characters of the title that are not removed, and it is no longer than the title |
| Helpers.WithoutSnoc | app.py:66-67 | one more `replace(c, "")` removes `c` as well |
| Helpers.WithoutConcat | app.py:65-67 | removing characters from a concatenation removes them from each part, in order |
| Helpers.WithoutOne | app.py:65-67 | a single character is kept exactly when it is not one of the removed characters |
| Helpers.WithoutNothing | app.py:65-67 | removing characters the title lacks changes nothing |
| Helpers.SanitizedName | app.py:64-71 | the name has at most 100 characters, none of `<>:"/\|?*`, all taken from the title |
| Helpers.SanitizeFilename | app.py:64-71 | the loop gives `SanitizedName`: at most 100 characters, none of them invalid |
| Helpers.SanitizeClean | app.py:64-71 | a clean, stripped title of at most 100 characters comes back unchanged |
| Helpers.SanitizedEmptyIff | app.py:64-71 | the name is empty exactly when the title holds only whitespace and invalid characters |
| Helpers.StripStripped | app.py:68 | `strip()` leaves a stripped text unchanged |
| Helpers.StripEmptyIff | app.py:68 | `strip()` gives the empty text exactly for all-whitespace text |
| Text.Strip | app.py:68 | the result has no whitespace at either end, is an infix of the input, and everything cut off is whitespace |
| Text.Contains | app.py:238 | `t in s` holds exactly when `t` occurs in `s` at some index |
| Text.SkipWhile | app.py:225 | a greedy run: every character in it satisfies the class, and the next one does not |
| Text.DigitsValueOfNatToString | app.py:228-230 | reading back the digits of `str(n)` gives `n` |

## Left out

- Processes: `subprocess.run`, `Popen` and the `yt-dlp` command lines as executed are not modelled, and neither are their timeouts (app.py:74-199, 282-297, 344-373). The exit code, the diagnostic stream and the metadata probe's result are inputs (`Run`, `TitleProbe`).
- JSON decoding of `yt-dlp` output is not modelled, including the first-parseable-line fallback. Format entries arrive as `RawFormat` values, and a title probe arrives as a `TitleProbe`.
- `get_video_info_cli` and `get_playlist_info_cli` fetch over the network. Only the format-list block of the first is modelled. `RouteUrl` returns which of the two would be called, with which link.
- `urllib.parse`: the first `v` and `list` query values are parameters of `RouteUrl`.
- Filesystem and environment are not modelled: `os.path.exists`, `os.remove`, `shutil.which` and the `PATH` update. Existing paths are a set, and FFmpeg presence is a boolean. `os.path.join` is modelled with the POSIX separator `/`.
- Cleanup: the file is only looked up in the given set and removed from it. No file-system error is modelled.
- Flask routes, server-sent-event framing, `send_file`, `download_file`, `start_download`, the health checks and the `__main__` banner are not modelled. They are HTTP plumbing (app.py:412-552).
- Threading is not modelled (app.py:455-458). The table is updated sequentially, and `DownloadVideo` assumes no other thread touches its task.
- Generate: the `time.sleep(0.5)` and the unbounded polling are not modelled. The generator runs over a finite sequence of observations and stops when they run out.
- The generic `except Exception` and `TimeoutExpired` handlers of `download_video` are not modelled. They write `str(e)` or "Download timed out", which needs a Python exception to occur. The title probe's own `except` is modelled as the `NoInfo` and `TitleNotString` probe results.
- Unicode: `\d`, `\w`, `\s`, `str.isspace`, `strip()` and `lower()` are modelled on their ASCII members only.
- PercentValue: `int(float(group))` is modelled as the integer part of the digits. Float rounding of numbers with more than about 15 significant digits is not modelled. Neither is the overflow of a number whose value is about 1.8·10^308 or more: `float()` gives inf, `int()` raises, and the `except: pass` of app.py:230-231 leaves "progress" unchanged, while the model sets it to the digits' value.
- Formats.Convert: a JSON height that is a float, or values of other JSON types, are not modelled. Heights are integers and strings are strings.
- Helpers.HoursShownIff: a parse-back of the whole `format_duration` text is not proved. The arithmetic is stated by `Clock`, and the `h` part by this lemma.
- `static/js/main.js` is browser UI code and is not part of this model.
