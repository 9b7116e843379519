/** The values stored in `download_progress`, the table from task id to the
    live state of one download (app.py:27). */
module Records {
  import opened Wrappers

  /** The strings the code writes under "status". */
  datatype Status = Downloading | Processing | Merging | Postprocessing | Completed | Error {

    /** The statuses after which the progress stream closes (app.py:471). */
    predicate IsTerminal() {
      this == Completed || this == Error
    }
  }

  /** One task's record. "status", "progress" and "filename" are always keys
      (`filename == None` is a JSON null); for "speed", "downloaded" and "error"
      `None` means the key is absent. */
  datatype Record = Record(
    status: Status,
    progress: nat,
    filename: Option<string>,
    speed: Option<string>,
    downloaded: Option<string>,
    error: Option<string>)
}
