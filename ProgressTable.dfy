/** `download_progress` (app.py:27) and the code that writes it:
    `parse_progress` (app.py:221-245), the body of `download_video`
    (app.py:248-409) and `cleanup` (app.py:499-509). The table is a map the
    methods update in place; a task is only ever touched under its own id. */
module ProgressTable {
  import opened Text
  import opened Wrappers
  import opened Records
  import opened LineParser
  import opened LineSplitter
  import opened Download

  /** The two JSON answers of `cleanup`. */
  datatype CleanupReply = CleanedUp | TaskNotFound

  /** The path `cleanup` deletes for a record, when it names a file. */
  function StoredFile(r: Record, folder: string): set<string> {
    match r.filename
    case Some(f) => if f != [] then {folder + "/" + f} else {}
    case None => {}
  }

  lemma UpdateTwice<K, V>(m: map<K, V>, k: K, a: V, b: V)
    ensures m[k := a][k := b] == m[k := b]
  {
  }

  class Table {
    var entries: map<string, Record>

    constructor ()
      ensures entries == map[]
    {
      entries := map[];
    }

    /** `parse_progress(line, task_id)`: nothing for an unknown id; otherwise
        the fields are overwritten one after another as the source does. */
    method ParseProgress(line: string, taskId: string)
      modifies this
      ensures taskId !in old(entries) ==> entries == old(entries)
      ensures taskId in old(entries) ==>
        entries == old(entries)[taskId := ApplyLine(old(entries)[taskId], line)]
    {
      if taskId !in entries {
        return;
      }
      // The fields of the record's dict are overwritten one by one; the record
      // is then stored back under the same id.
      var table := entries;
      var rec := table[taskId];
      ghost var start := rec;
      var percent := PercentValue(line);
      if percent.Some? {
        rec := rec.(progress := percent.value);
      }
      var speed := SpeedValue(line);
      if speed.Some? {
        rec := rec.(downloaded := Some(speed.value.0));
        rec := rec.(speed := Some(speed.value.1));
      }
      assert rec == Measured(start, line);
      ghost var measured := rec;
      var destination := Contains(line, DestinationMarker);
      var merge := Contains(line, MergeMarker);
      var postprocess := Contains(line, PostprocessMarker);
      if destination {
        rec := rec.(status := Processing);
      }
      if merge {
        rec := rec.(status := Merging);
      }
      if postprocess {
        rec := rec.(status := Postprocessing);
      }
      assert rec == Marked(measured, line);
      assert rec == ApplyLine(start, line);
      entries := table[taskId := rec];
    }

    /** The read loop of app.py:357-371 over the whole diagnostic stream:
        every complete, non-blank line goes to `parse_progress`, in order. */
    method ConsumeStream(stream: string, taskId: string)
      modifies this
      ensures taskId !in old(entries) ==> entries == old(entries)
      ensures taskId in old(entries) ==>
        entries == old(entries)[taskId := ApplyLines(old(entries)[taskId], Lines(stream))]
    {
      var buffer: string := [];
      var i := 0;
      while i < |stream|
        invariant 0 <= i <= |stream|
        invariant buffer == Pending(stream[..i])
        invariant taskId !in old(entries) ==> entries == old(entries)
        invariant taskId in old(entries) ==>
          entries == old(entries)[taskId := ApplyLines(old(entries)[taskId], Lines(stream[..i]))]
        decreases |stream| - i
      {
        var c := stream[i];
        assert stream[..i + 1] == stream[..i] + [c];
        SplitSnoc(stream[..i], c);
        if c == '\r' || c == '\n' {
          var line := Strip(buffer);
          if line != [] {
            assert Lines(stream[..i + 1]) == Lines(stream[..i]) + [line];
            ParseProgress(line, taskId);
            if taskId in old(entries) {
              var before := ApplyLines(old(entries)[taskId], Lines(stream[..i]));
              ApplyLinesSnoc(old(entries)[taskId], Lines(stream[..i]), line);
              UpdateTwice(old(entries), taskId, before, ApplyLine(before, line));
            }
          } else {
            assert Lines(stream[..i + 1]) == Lines(stream[..i]);
          }
          buffer := [];
        } else {
          assert Lines(stream[..i + 1]) == Lines(stream[..i]);
          buffer := buffer + [c];
        }
        i := i + 1;
      }
      assert stream[..i] == stream;
    }

    /** `download_video(url, format_id, task_id, audio_only)` run to the end
        with the outside world given by `run`; the selector it hands to the
        downloader is returned (None when it stops before building one). */
    method DownloadVideo(run: Run, audioOnly: bool, formatId: string, taskId: string, folder: string)
      returns (selector: Option<Selector>)
      modifies this
      ensures entries == old(entries)[taskId := FinalRecord(run, taskId, folder)]
      ensures selector == if run.ffmpegPresent then Some(FormatSelector(audioOnly, formatId)) else None
    {
      if !run.ffmpegPresent {
        entries := entries[taskId := MissingRecord];
        return None;
      }
      entries := entries[taskId := StartRecord];

      var title := ChooseTitle(run.probe, taskId);
      var stem := folder + "/" + title;
      selector := Some(FormatSelector(audioOnly, formatId));

      ConsumeStream(run.stderr, taskId);
      ghost var streamed := ApplyLines(StartRecord, Lines(run.stderr));
      assert entries == old(entries)[taskId := streamed];

      var rec := Conclude(entries[taskId], run, stem);
      assert stem == Stem(run, taskId, folder);
      assert rec == FinalRecord(run, taskId, folder);
      UpdateTwice(old(entries), taskId, streamed, rec);
      entries := entries[taskId := rec];
    }

    /** `cleanup(task_id)`: for a known id, delete the file its record names
        (when it exists) and the record; otherwise answer "Task not found"
        and change nothing. `files` is the set of existing paths. */
    method Cleanup(taskId: string, folder: string, files: set<string>)
      returns (reply: CleanupReply, files': set<string>)
      modifies this
      ensures taskId !in old(entries) ==>
        reply == TaskNotFound && entries == old(entries) && files' == files
      ensures taskId in old(entries) ==>
        reply == CleanedUp && entries == old(entries) - {taskId} &&
        files' == files - StoredFile(old(entries)[taskId], folder)
      ensures taskId !in entries
    {
      files' := files;
      if taskId in entries {
        var info := entries[taskId];
        if info.filename.Some? && info.filename.value != [] {
          var path := folder + "/" + info.filename.value;
          if path in files' {
            files' := files' - {path};
          }
        }
        entries := entries - {taskId};
        return CleanedUp, files';
      }
      return TaskNotFound, files';
    }
  }
}
