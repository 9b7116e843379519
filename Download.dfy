/** The decisions `download_video` (app.py:248-409) takes with the downloader
    process replaced by its inputs: whether FFmpeg is present, the title the
    metadata probe returned, the diagnostic stream, the exit code and the set
    of paths that exist afterwards. */
module Download {
  import opened Text
  import opened Wrappers
  import opened Records
  import opened LineParser
  import opened LineSplitter
  import opened Helpers

  // ---------------------------------------------------------------------
  // The format selector (app.py:303-326)
  // ---------------------------------------------------------------------

  /** What the downloader is asked to do after fetching. */
  datatype Post =
    | ExtractAudio(audioFormat: string, audioQuality: string)  // --extract-audio --audio-format --audio-quality
    | MergeOutput(container: string)                           // --merge-output-format

  /** The `--format` chain and the post-processing flags. */
  datatype Selector = Selector(format: string, post: Post)

  const AudioChain: string := "bestaudio/best"
  const BestChain: string := "bestvideo[ext=mp4]+bestaudio[ext=m4a]/best[ext=mp4]/best"
  const PreferM4a: string := "+bestaudio[ext=m4a]"
  const FallbackSuffix: string := PreferM4a + "/bestvideo[ext=webm]+bestaudio/best[ext=mp4]/best"

  function FormatSelector(audioOnly: bool, formatId: string): Selector {
    if audioOnly then Selector(AudioChain, ExtractAudio("mp3", "0"))
    else if formatId == "best" then Selector(BestChain, MergeOutput("mp4"))
    else Selector(formatId + FallbackSuffix, MergeOutput("mp4"))
  }

  /** `t` ends with `suffix`. */
  predicate EndsWith(t: string, suffix: string) {
    |suffix| <= |t| && t[|t| - |suffix|..] == suffix
  }

  /** `t` starts with `prefix`. */
  predicate StartsWith(t: string, prefix: string) {
    |prefix| <= |t| && t[..|prefix|] == prefix
  }

  /** Audio-only downloads ignore the requested format and extract mp3 at the
      best quality; video downloads always merge into mp4; "best" asks for mp4
      video with m4a audio; any other id is tried first with m4a audio; and
      every chain falls back to `best` in the end. */
  lemma FormatSelectorChains(audioOnly: bool, formatId: string)
    ensures audioOnly ==> FormatSelector(audioOnly, formatId) == FormatSelector(true, "best")
    ensures audioOnly ==>
      FormatSelector(audioOnly, formatId).post == ExtractAudio("mp3", "0") &&
      FormatSelector(audioOnly, formatId).format == "bestaudio/best"
    ensures !audioOnly ==> FormatSelector(audioOnly, formatId).post == MergeOutput("mp4")
    ensures !audioOnly && formatId == "best" ==>
      FormatSelector(audioOnly, formatId).format == "bestvideo[ext=mp4]+bestaudio[ext=m4a]/best[ext=mp4]/best"
    ensures !audioOnly && formatId != "best" ==>
      StartsWith(FormatSelector(audioOnly, formatId).format, formatId + "+bestaudio[ext=m4a]")
    ensures EndsWith(FormatSelector(audioOnly, formatId).format, "/best")
  {
    var f := FormatSelector(audioOnly, formatId).format;
    if !audioOnly && formatId != "best" {
      var tail := "/bestvideo[ext=webm]+bestaudio/best[ext=mp4]/best";
      assert f == (formatId + PreferM4a) + tail;
      assert f[..|formatId + PreferM4a|] == formatId + PreferM4a;
      assert f[|f| - 5..] == tail[|tail| - 5..];
    }
  }

  // ---------------------------------------------------------------------
  // The output file (app.py:299, 388-396)
  // ---------------------------------------------------------------------

  /** The extensions tried, in order. */
  const Extensions: seq<string> := [".mp3", ".mp4", ".mkv", ".webm", ".m4a"]

  /** The first `stem + exts[i]` that exists. */
  function FirstExisting(stem: string, exts: seq<string>, existing: set<string>): (r: Option<string>)
    ensures r.Some? <==> exists i :: 0 <= i < |exts| && stem + exts[i] in existing
    ensures r.Some? ==>
      exists i :: 0 <= i < |exts| && r.value == stem + exts[i] && r.value in existing &&
        forall j :: 0 <= j < i ==> stem + exts[j] !in existing
    decreases |exts|
  {
    if exts == [] then None
    else if stem + exts[0] in existing then
      assert 0 < |exts| && stem + exts[0] in existing;
      Some(stem + exts[0])
    else
      var r := FirstExisting(stem, exts[1..], existing);
      assert forall i :: 1 <= i < |exts| ==> exts[i] == exts[1..][i - 1];
      r
  }

  /** The probe loop of app.py:388-393: the extensions in order, the first
      existing file wins. */
  method ProbeOutput(stem: string, existing: set<string>) returns (found: Option<string>)
    ensures found == FirstExisting(stem, Extensions, existing)
  {
    found := None;
    var i := 0;
    while i < |Extensions|
      invariant 0 <= i <= |Extensions|
      invariant found == None || found == FirstExisting(stem, Extensions, existing)
      invariant found == None ==> FirstExisting(stem, Extensions, existing) == FirstExisting(stem, Extensions[i..], existing)
      decreases |Extensions| - i
    {
      var candidate := stem + Extensions[i];
      assert Extensions[i..][1..] == Extensions[i + 1..];
      if candidate in existing {
        found := Some(candidate);
        break;
      }
      i := i + 1;
    }
  }

  /** `os.path.basename`: the text after the last `/`. */
  function Basename(path: string): (r: string)
    ensures EndsWith(path, r) && '/' !in r
    ensures |r| < |path| ==> path[|path| - |r| - 1] == '/'
    decreases |path|
  {
    if path == [] then []
    else if path[|path| - 1] == '/' then []
    else
      var r := Basename(path[..|path| - 1]);
      assert path[..|path| - 1][|path| - 1 - |r|..] == r;
      r + [path[|path| - 1]]
  }

  /** The file name of a path built as `folder/name` is `name` when `name`
      holds no separator. */
  lemma {:induction false} BasenameOfJoin(folder: string, name: string)
    requires '/' !in name
    ensures Basename(folder + "/" + name) == name
    decreases |name|
  {
    var path := folder + "/" + name;
    if name == [] {
      assert path[|path| - 1] == '/';
    } else {
      var name' := name[..|name| - 1];
      assert path[..|path| - 1] == folder + "/" + name';
      BasenameOfJoin(folder, name');
    }
  }

  // ---------------------------------------------------------------------
  // The title probe and the file stem (app.py:271-299)
  // ---------------------------------------------------------------------

  /** What the metadata probe gave: nothing usable (non-zero exit, empty
      output, invalid JSON, timeout), JSON without "title", JSON whose
      "title" is not a string (which makes `sanitize_filename` raise), or a
      title. */
  datatype TitleProbe = NoInfo | TitleAbsent | TitleNotString | Title(title: string)

  /** The name the output file is given. */
  function VideoTitle(probe: TitleProbe, taskId: string): string {
    match probe
    case NoInfo => taskId
    case TitleAbsent => SanitizedName(taskId)
    case TitleNotString => taskId
    case Title(t) => SanitizedName(t)
  }

  /** A title taken from the probe, or the task id standing in for a missing
      one, is sanitized: at most 100 characters, none of them invalid. */
  lemma VideoTitleBounds(probe: TitleProbe, taskId: string)
    requires probe.Title? || probe.TitleAbsent?
    ensures |VideoTitle(probe, taskId)| <= 100
    ensures forall c :: c in VideoTitle(probe, taskId) ==> c !in InvalidChars
  {
  }

  /** A title the probe returned never holds a separator, so the output file
      stays in the download folder and its basename is the title plus the
      extension. */
  lemma TitleStaysInFolder(probe: TitleProbe, taskId: string, folder: string, ext: string)
    requires '/' !in taskId && '/' !in ext
    ensures '/' !in VideoTitle(probe, taskId)
    ensures Basename(folder + "/" + VideoTitle(probe, taskId) + ext) == VideoTitle(probe, taskId) + ext
  {
    var t := VideoTitle(probe, taskId);
    assert '/' in InvalidChars;
    assert '/' !in t;
    assert folder + "/" + t + ext == folder + "/" + (t + ext);
    BasenameOfJoin(folder, t + ext);
  }

  // ---------------------------------------------------------------------
  // The outcome (app.py:249-256, 258-264, 375-402)
  // ---------------------------------------------------------------------

  const FFmpegMissing: string :=
    "FFmpeg is not installed. Please install FFmpeg to process videos. Visit: https://ffmpeg.org/download.html"
  const OutputNotFound: string := "Output file not found"
  const ErrorWord: string := "ERROR"

  /** The record written when FFmpeg is missing: it has no "speed" key. */
  const MissingRecord: Record := Record(Error, 0, None, None, None, Some(FFmpegMissing))

  /** The record written before the downloader starts. */
  const StartRecord: Record := Record(Downloading, 0, None, Some("0"), None, None)

  /** The message stored for a non-zero exit code (app.py:377-385), given
      what `communicate()` read from the diagnostic stream. */
  function ExitMessage(code: int, stderrRest: string): string {
    var message := if stderrRest != [] then stderrRest else "Download failed";
    if Contains(message, ErrorWord) then message
    else "Download failed with code " + IntToString(code)
  }

  /** The rest of the stream is reported verbatim exactly when it holds
      "ERROR"; otherwise the message names the exit code, also when nothing
      was left to read. */
  lemma ExitMessageCases(code: int, stderrRest: string)
    ensures Contains(stderrRest, ErrorWord) ==> ExitMessage(code, stderrRest) == stderrRest
    ensures !Contains(stderrRest, ErrorWord) ==>
      ExitMessage(code, stderrRest) == "Download failed with code " + IntToString(code)
  {
    if stderrRest == [] {
      NotContains("Download failed", ErrorWord);
    }
  }

  /** What `communicate()` returns for the diagnostic stream. The read loop
      (app.py:358-363) leaves only after `read(1)` has returned "", that is at
      the end of the stream, so nothing is left for `communicate()`. */
  const StderrAfterLoop: string := ""

  /** Since the loop read the stream to its end, the "ERROR" branch of
      app.py:378-380 is never taken: a non-zero exit always stores the
      message naming the exit code. */
  lemma ExitMessageAfterLoop(code: int)
    ensures ExitMessage(code, StderrAfterLoop) == "Download failed with code " + IntToString(code)
  {
    ExitMessageCases(code, StderrAfterLoop);
    NotContains(StderrAfterLoop, ErrorWord);
  }

  /** The inputs that decide a download's record. */
  datatype Run = Run(
    ffmpegPresent: bool,   // check_ffmpeg()
    probe: TitleProbe,     // the metadata probe
    stderr: string,        // everything the diagnostic stream delivered
    exitCode: int,         // process.returncode
    existing: set<string>) // the paths that exist after the process ended

  /** The path the output template gives before the extension. */
  function Stem(run: Run, taskId: string, folder: string): string {
    folder + "/" + VideoTitle(run.probe, taskId)
  }

  /** The record `download_video` leaves for `taskId`, when no other thread
      touches it. */
  function FinalRecord(run: Run, taskId: string, folder: string): Record {
    if !run.ffmpegPresent then MissingRecord
    else Concluded(ApplyLines(StartRecord, Lines(run.stderr)), run, Stem(run, taskId, folder))
  }

  /** The writes after the process ended (app.py:375-402), applied to the
      record `r` the progress lines left. */
  function Concluded(r: Record, run: Run, stem: string): Record {
    if run.exitCode != 0 then r.(status := Error, error := Some(ExitMessage(run.exitCode, StderrAfterLoop)))
    else match FirstExisting(stem, Extensions, run.existing)
      case Some(path) => r.(status := Completed, filename := Some(Basename(path)), progress := 100)
      case None => r.(status := Error, error := Some(OutputNotFound))
  }

  /** app.py:375-402 step by step: the exit code, then the probe loop, then
      the final writes. */
  method Conclude(r: Record, run: Run, stem: string) returns (r': Record)
    ensures r' == Concluded(r, run, stem)
    ensures r'.status.IsTerminal()
  {
    r' := r;
    if run.exitCode != 0 {
      var message := ExitMessage(run.exitCode, StderrAfterLoop);
      r' := r'.(status := Error);
      r' := r'.(error := Some(message));
    } else {
      var found := ProbeOutput(stem, run.existing);
      if found.Some? && found.value in run.existing {
        r' := r'.(status := Completed);
        r' := r'.(filename := Some(Basename(found.value)));
        r' := r'.(progress := 100);
      } else {
        r' := r'.(status := Error);
        r' := r'.(error := Some(OutputNotFound));
      }
    }
  }

  /** app.py:272-297: `task_id` unless the probe gave JSON; the sanitized
      title, or the sanitized task id when the JSON has no "title". */
  method ChooseTitle(probe: TitleProbe, taskId: string) returns (title: string)
    ensures title == VideoTitle(probe, taskId)
  {
    title := taskId;
    match probe {
      case TitleAbsent =>
        title := SanitizeFilename(taskId);
      case Title(t) =>
        title := SanitizeFilename(t);
      case _ =>
    }
  }

  /** Without FFmpeg the record is an error with progress 0, no filename and
      the install hint, whatever else happened. */
  lemma MissingFFmpegOutcome(run: Run, taskId: string, folder: string)
    requires !run.ffmpegPresent
    ensures var r := FinalRecord(run, taskId, folder);
      r.status == Error && r.progress == 0 && r.filename == None && r.error == Some(FFmpegMissing)
  {
  }

  /** A download always ends in a terminal status, so the progress stream of
      a finished task closes. */
  lemma FinalRecordTerminal(run: Run, taskId: string, folder: string)
    ensures FinalRecord(run, taskId, folder).status.IsTerminal()
  {
  }

  /** Progress lines never set "filename" or "error". */
  lemma {:induction false} ApplyLinesKeepsFilenameAndError(r: Record, lines: seq<string>)
    ensures ApplyLines(r, lines).filename == r.filename && ApplyLines(r, lines).error == r.error
    decreases |lines|
  {
    if lines != [] {
      MarkerPrecedence(r, lines[0]);
      ApplyLinesKeepsFilenameAndError(ApplyLine(r, lines[0]), lines[1..]);
    }
  }

  /** A non-zero exit code is always an error whose message names the exit
      code, whatever files exist. */
  lemma FailedExitOutcome(run: Run, taskId: string, folder: string)
    requires run.ffmpegPresent && run.exitCode != 0
    ensures var r := FinalRecord(run, taskId, folder);
      r.status == Error && r.filename == None &&
      r.error == Some("Download failed with code " + IntToString(run.exitCode))
  {
    ApplyLinesKeepsFilenameAndError(StartRecord, Lines(run.stderr));
    ExitMessageAfterLoop(run.exitCode);
  }

  /** A download is completed exactly when FFmpeg was present, the exit code
      was 0 and one of the five candidate files exists; then "filename" is the
      basename of the first of them in extension order, "progress" is 100 and
      no error is set. Otherwise it is an error, and with exit code 0 the error
      is "Output file not found". */
  lemma CompletedIff(run: Run, taskId: string, folder: string)
    ensures var r := FinalRecord(run, taskId, folder);
      var stem := Stem(run, taskId, folder);
      r.status == Completed <==>
        run.ffmpegPresent && run.exitCode == 0 && exists i :: 0 <= i < |Extensions| && stem + Extensions[i] in run.existing
    ensures var r := FinalRecord(run, taskId, folder);
      var stem := Stem(run, taskId, folder);
      r.status == Completed ==>
        r.progress == 100 && r.error == None &&
        exists i :: 0 <= i < |Extensions| && stem + Extensions[i] in run.existing &&
          r.filename == Some(Basename(stem + Extensions[i])) &&
          forall j :: 0 <= j < i ==> stem + Extensions[j] !in run.existing
    ensures var r := FinalRecord(run, taskId, folder);
      var stem := Stem(run, taskId, folder);
      run.ffmpegPresent && run.exitCode == 0 && (forall i :: 0 <= i < |Extensions| ==> stem + Extensions[i] !in run.existing) ==>
        r.status == Error && r.error == Some(OutputNotFound)
  {
    ApplyLinesKeepsFilenameAndError(StartRecord, Lines(run.stderr));
  }
}
