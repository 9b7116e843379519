/** The server-sent event stream of `get_progress` (app.py:463-484): the
    generator polls the table every half second, emits what it sees and
    decides whether to stop. The model takes the successive observations of
    the entry of that id as input (`None` when the id is absent) and yields the
    events emitted while those observations last. */
module ProgressStream {
  import opened Wrappers
  import opened Records

  /** One `data:` line: a snapshot of the record, or `{"status": "unknown"}`. */
  datatype Event = Snapshot(record: Record) | Unknown

  function EventOf(observation: Option<Record>): Event {
    match observation
    case Some(r) => Snapshot(r)
    case None => Unknown
  }

  /** The events for `observed`, given the statuses already checked. */
  function Events(observed: seq<Option<Record>>, checked: set<Status>): seq<Event>
    decreases |observed|
  {
    if observed == [] then []
    else match observed[0]
      case None => [Unknown]
      case Some(r) =>
        if r.status.IsTerminal() then [Snapshot(r)]
        else if r.status in checked && r.progress == 100 then [Snapshot(r)]
        else [Snapshot(r)] + Events(observed[1..], checked + {r.status})
  }

  /** The `while True` loop of `generate`. */
  method Generate(observed: seq<Option<Record>>) returns (events: seq<Event>)
    ensures events == Events(observed, {})
  {
    events := [];
    var checked: set<Status> := {};
    var i := 0;
    while i < |observed|
      invariant 0 <= i <= |observed|
      invariant events + Events(observed[i..], checked) == Events(observed, {})
      decreases |observed| - i
    {
      var observation := observed[i];
      ghost var rest := observed[i..];
      assert rest[0] == observation && rest[1..] == observed[i + 1..];
      if observation.None? {
        assert Events(rest, checked) == [Unknown];
        events := events + [Unknown];
        return;
      }
      var progress := observation.value;
      events := events + [Snapshot(progress)];
      if progress.status == Completed || progress.status == Error {
        assert Events(rest, checked) == [Snapshot(progress)];
        return;
      }
      var status := progress.status;
      if status in checked && progress.progress == 100 {
        assert Events(rest, checked) == [Snapshot(progress)];
        return;
      }
      assert Events(rest, checked) == [Snapshot(progress)] + Events(observed[i + 1..], checked + {status});
      checked := checked + {status};
      i := i + 1;
    }
  }

  /** Observation `k` ends the stream: the id is absent, the status is
      terminal, or progress is 100 under a status already seen (in `checked`
      or at an earlier observation). */
  ghost predicate StopsAt(observed: seq<Option<Record>>, checked: set<Status>, k: int) {
    0 <= k < |observed| &&
    match observed[k]
    case None => true
    case Some(r) =>
      r.status.IsTerminal() ||
      (r.progress == 100 &&
        (r.status in checked || SeenBefore(observed, k, r.status)))
  }

  /** Some observation before `k` had status `s`. */
  ghost predicate SeenBefore(observed: seq<Option<Record>>, k: int, s: Status)
    requires 0 <= k <= |observed|
  {
    exists j :: 0 <= j < k && observed[j].Some? && observed[j].value.status == s
  }

  lemma {:induction false} StopsAtShift(observed: seq<Option<Record>>, checked: set<Status>, k: int)
    requires 1 <= k < |observed| && observed[0].Some?
    ensures StopsAt(observed, checked, k) <==>
      StopsAt(observed[1..], checked + {observed[0].value.status}, k - 1)
  {
    var rest := observed[1..];
    var s0 := observed[0].value.status;
    match observed[k] {
      case None =>
      case Some(r) =>
        assert rest[k - 1] == observed[k];
        if SeenBefore(observed, k, r.status) {
          var j :| 0 <= j < k && observed[j].Some? && observed[j].value.status == r.status;
          if j > 0 {
            assert rest[j - 1] == observed[j];
          }
        }
        if SeenBefore(rest, k - 1, r.status) {
          var j :| 0 <= j < k - 1 && rest[j].Some? && rest[j].value.status == r.status;
          assert observed[j + 1] == rest[j];
        }
    }
  }

  /** Every event is the snapshot (or `unknown`) of the observation at the
      same poll, and the stream ends exactly at the first observation that
      stops it; with no such observation every observation is emitted. */
  lemma {:induction false} EventsStopAtFirst(observed: seq<Option<Record>>, checked: set<Status>, k: int)
    requires StopsAt(observed, checked, k)
    requires forall j :: 0 <= j < k ==> !StopsAt(observed, checked, j)
    ensures |Events(observed, checked)| == k + 1
    ensures forall i :: 0 <= i <= k ==> Events(observed, checked)[i] == EventOf(observed[i])
    decreases k
  {
    if k > 0 {
      assert !StopsAt(observed, checked, 0);
      var r := observed[0].value;
      var checked' := checked + {r.status};
      var rest := observed[1..];
      assert !SeenBefore(observed, 0, r.status);
      StopsAtShift(observed, checked, k);
      forall j | 0 <= j < k - 1 ensures !StopsAt(rest, checked', j) {
        StopsAtShift(observed, checked, j + 1);
      }
      EventsStopAtFirst(rest, checked', k - 1);
      assert Events(observed, checked) == [Snapshot(r)] + Events(rest, checked');
      forall i | 1 <= i <= k ensures Events(observed, checked)[i] == EventOf(observed[i]) {
        assert observed[i] == rest[i - 1];
      }
    } else {
      assert !SeenBefore(observed, 0, if observed[0].Some? then observed[0].value.status else Completed);
    }
  }

  lemma {:induction false} EventsNoStop(observed: seq<Option<Record>>, checked: set<Status>)
    requires forall j :: 0 <= j < |observed| ==> !StopsAt(observed, checked, j)
    ensures |Events(observed, checked)| == |observed|
    ensures forall i :: 0 <= i < |observed| ==> Events(observed, checked)[i] == EventOf(observed[i])
    decreases |observed|
  {
    if observed != [] {
      assert !StopsAt(observed, checked, 0);
      var r := observed[0].value;
      var checked' := checked + {r.status};
      var rest := observed[1..];
      assert !SeenBefore(observed, 0, r.status);
      forall j | 0 <= j < |rest| ensures !StopsAt(rest, checked', j) {
        StopsAtShift(observed, checked, j + 1);
      }
      EventsNoStop(rest, checked');
      forall i | 1 <= i < |observed| ensures Events(observed, checked)[i] == EventOf(observed[i]) {
        assert observed[i] == rest[i - 1];
      }
    }
  }

  /** An absent id gives exactly one `unknown` event and nothing else. */
  lemma {:induction false} AbsentIdUnknown(observed: seq<Option<Record>>)
    requires observed != [] && observed[0].None?
    ensures Events(observed, {}) == [Unknown]
  {
  }

  /** The same unfinished status seen twice at 100% closes the stream right
      after the second snapshot. */
  lemma {:induction false} RepeatedFullProgressStops(observed: seq<Option<Record>>, r: Record)
    requires |observed| >= 2 && observed[0] == Some(r) && observed[1] == Some(r)
    requires !r.status.IsTerminal() && r.progress == 100
    ensures Events(observed, {}) == [Snapshot(r), Snapshot(r)]
  {
    var rest := observed[1..];
    assert rest[0] == Some(r);
    assert Events(rest, {r.status}) == [Snapshot(r)];
  }
}
