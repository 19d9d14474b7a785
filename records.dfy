/** Shared records of the cleaning pipeline: the rows of a participant's
    answer log, event log and the scoring key, and the errors that abort the
    cleaning of one participant. */
module Records {

  /** Timestamps are whole milliseconds since the epoch, as in the logs'
      `time` and `t` columns. */
  type Time = int

  datatype Option<T> = None | Some(value: T)

  datatype Result<T, E> = Ok(value: T) | Err(error: E)

  /** One row of the event log: when it happened and its one-letter code
      (`n` next, `c` click, `h` hover, `m` mouse, `p` pointer; other codes
      may occur and are ignored by the tally). */
  datatype Event = Event(time: Time, code: string)

  /** One row of a participant's answer log; `version` is the condition
      (static or interactive). */
  datatype Answer = Answer(time: Time, pageName: string, question: string, answer: string, version: string)

  /** One row of the scoring key. */
  datatype KeyRow = KeyRow(pageName: string, question: string, answer: string)

  /** The ways the cleaning of one participant aborts. */
  datatype CleanError =
    | MissingBackground(question: string)  // an IndexError on a missing background answer
    | PretestDivisionByZero                 // `pretest / p_answer` with no matched pretest row
    | SusNotInteger(row: nat)               // `int(answer)` fails on a SUS row

  predicate StrictlyIncreasing(ts: seq<Time>)
  {
    forall i, j :: 0 <= i < j < |ts| ==> ts[i] < ts[j]
  }

  predicate Sorted(ts: seq<Time>)
  {
    forall i, j :: 0 <= i < j < |ts| ==> ts[i] <= ts[j]
  }

  /** The `time` column of an answer table. */
  function Times(rows: seq<Answer>): (ts: seq<Time>)
    ensures |ts| == |rows|
    ensures forall i :: 0 <= i < |rows| ==> ts[i] == rows[i].time
  {
    seq(|rows|, i requires 0 <= i < |rows| => rows[i].time)
  }
}
