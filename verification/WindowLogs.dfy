/** What happens to a window over time: it accepts values of its target, and it is updated before every evaluation. */
module WindowLogs {
  import opened Values

  datatype Operation = Accept(x: Sample) | Update(at: Time)

  function TimeOf(op: Operation): Time {
    match op
    case Accept(x) => x.ts
    case Update(at) => at
  }

  /** The accepted samples, oldest first. */
  function AcceptedIn(log: seq<Operation>): seq<Sample> {
    if log == [] then [] else
    AcceptedIn(log[..|log| - 1]) + (if log[|log| - 1].Accept? then [log[|log| - 1].x] else [])
  }

  /** The time of the last operation, or the start. */
  function LastTime(start: Time, log: seq<Operation>): Time {
    if log == [] then start else TimeOf(log[|log| - 1])
  }

  /** Times never decrease along the log, and none is before the start. */
  ghost predicate InTime(start: Time, log: seq<Operation>) {
    log != [] ==>
      var before := log[..|log| - 1];
      InTime(start, before) && start <= LastTime(start, before) <= LastTime(start, log)
  }

  /** The log is in time order, and its last operation was at `ts`. */
  ghost predicate UpToDate(start: Time, log: seq<Operation>, ts: Time) {
    InTime(start, log) && log != [] && LastTime(start, log) == ts
  }

  lemma AcceptedSnoc(log: seq<Operation>, op: Operation)
    ensures AcceptedIn(log + [op]) == AcceptedIn(log) + (if op.Accept? then [op.x] else [])
  {
    assert (log + [op])[..|log|] == log;
  }

  lemma InTimeSnoc(start: Time, log: seq<Operation>, op: Operation)
    requires InTime(start, log) && LastTime(start, log) <= TimeOf(op)
    ensures InTime(start, log + [op])
  {
    assert (log + [op])[..|log|] == log;
    assert log != [] ==> InTime(start, log[..|log| - 1]);
  }
}
