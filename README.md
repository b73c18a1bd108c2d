# Simple-timer: the timestamp log and its synthetic generator

Simple-timer is a command-line work-hours tracker. The user records `start`
and `stop` timestamps in a list kept in `timestamps.json`. This project models
two things:

- **The timer's log** (`Timer.py`). Each record is `{id, type, time}`. The
  `start` command appends a start only when the log is empty or ends with a
  stop. The `stop` command appends a stop only when the log ends with a
  start. Both append through `new_timestamp`, which numbers the new record
  with the old length + 1. `erase` drops the last record. `status` reports
  whether the log ends with an unmatched start.
- **The synthetic-log generator** (`Generator.py`). It walks ids from 5000
  down to 1. At each step it moves a running time back by a random gap below
  100000 seconds and pushes a record onto a stack: odd ids are starts, even
  ids are stops. It then pops the whole stack into the output list.

Both parts meet in one invariant, `EventLog.WellFormed`. A well-formed log
begins with a start, its kinds alternate, and its ids run 1, 2, ..., n. The
timer's start, stop and erase commands keep that invariant. The generator's
output meets it, and its times never decrease.

Files:

- `EventLog.dfy` holds the record type, the invariant, the open-session test
  and the facts relating them: kind by parity of the position, and "open" as
  "odd length".
- `Timer.dfy` holds the commands. Each command is a pure function over the
  list (`AfterStart`, `AfterStop`, `AfterErase`, with `Appended` for
  `new_timestamp`). The class `TimerLog` holds the list in the field
  `timestamps`, and its methods change that field in place the way the source
  changes its list. The file also has the lemmas that the invariant is kept
  by any sequence of commands and that an erase undoes an accepted start or
  stop.
- `Generator.dfy` holds the generator's two loops, `PushAll` and `PopAll`,
  and `Generate`, which runs one after the other. The loops are proved against
  `Pushed`, the stack the first loop builds, and `Reversed`. Lemmas give the
  output's closed form and its properties.

A clock reading (`datetime.now()`, `time.time()`) is the integer parameter
`now`, in whole seconds, before any formatting. The generator's random draws
are the input sequence `gaps`, in the order they are drawn. A message that a
refused command prints is modelled as the returned `Timer.Outcome`.

`time_days` and `time_terms` (Timer.py:124-131) are empty, so the model has no
aggregation.

## Model

| member | source | states |
|---|---|---|
| `EventLog.KindAt` | Timer.py:98-117 | in a log that begins with a start and alternates, the record at position k is a start exactly when k is even (proved by induction along the alternation) |
| `EventLog.AlternatesIffParity` | Generator.py:13-16 | both directions: a log begins with a start and alternates exactly when each record at 1-based position i is a start exactly when i is odd (the generator's rule) |
| `EventLog.WellFormed` | Timer.py:81-117 | the invariant the guarded appends keep (begins with start, kinds alternate, ids are 1..n) holds exactly when each record's id is its 1-based position and its type is start exactly when that id is odd |
| `EventLog.IsOpen` | Timer.py:70-71 | the status test "non-empty and the last type is start"; an open log is non-empty, and a well-formed log is open exactly when its length is odd, i.e. one start has no stop yet |
| `EventLog.PrefixWellFormed` | Timer.py:140 | cutting records off the end of a well-formed log leaves it well-formed |
| `EventLog.AppendWellFormed` | Timer.py:81-86 | appending a record numbered length + 1 whose kind differs from the last one (a start on an empty log) keeps the log well-formed |
| `Timer.Appended` | Timer.py:81-86 | the new record is the only change: the length grows by one, all earlier records are unchanged, and the last one has id old length + 1, the given type and the given time |
| `Timer.AfterStart` | Timer.py:98-104 | afterwards the log is open; the log is unchanged exactly when it was already open (non-empty, last type start); otherwise exactly one start record stamped `now` with id old length + 1 is added at the end and nothing earlier changes |
| `Timer.AfterStop` | Timer.py:113-119 | afterwards the log is not open; the log is unchanged exactly when it was not open (empty, or last type stop), so an empty log stays empty; otherwise exactly one stop record with id old length + 1 is added at the end |
| `Timer.AfterErase` | Timer.py:139-144 | an empty log stays empty; otherwise the result followed by the old last record is the old log, i.e. exactly the final record is removed |
| `Timer.StartPreservesWellFormed` | Timer.py:98-104 | the start command keeps a well-formed log well-formed |
| `Timer.StopPreservesWellFormed` | Timer.py:113-117 | the stop command keeps a well-formed log well-formed |
| `Timer.ErasePreservesWellFormed` | Timer.py:139-140 | erasing the last record keeps a well-formed log well-formed |
| `Timer.EraseUndoesStart` | Timer.py:134-142 | on a log that is not open, a start followed by an erase gives back the original log |
| `Timer.EraseUndoesStop` | Timer.py:134-142 | on an open log, a stop followed by an erase gives back the original log |
| `Timer.StartIdempotent` | Timer.py:98-100 | a second start, at any instant, leaves the log as the first start left it |
| `Timer.StepPreservesWellFormed` | Timer.py:94-144 | each of start, stop and erase keeps a well-formed log well-formed |
| `Timer.RunPreservesWellFormed` | Timer.py:94-144 | any sequence of start, stop and erase commands keeps a well-formed log well-formed (induction on the sequence) |
| `Timer.ReachableWellFormed` | Timer.py:81-144 | every log reachable from an empty one by the commands begins with a start, alternates, has ids 1..n, and is open exactly when its length is odd |
| `Timer.TimerLog.constructor` | Timer.py:35-46 | the timer's list is the one that was loaded |
| `Timer.TimerLog.NewTimestamp` | Timer.py:78-91 | appends in place one record with id old length + 1, the given type and time; earlier records are unchanged |
| `Timer.TimerLog.StartTimestamp` | Timer.py:94-106 | in place: the list becomes `AfterStart` of the old list; the outcome is "two same consecutive" exactly when the old list was open and "done" otherwise; a well-formed list stays well-formed |
| `Timer.TimerLog.StopTimestamp` | Timer.py:109-121 | in place: the list becomes `AfterStop` of the old list; the outcome is "must begin with start" on an empty list, "done" when it was open, and "two same consecutive" when it ended with a stop; a well-formed list stays well-formed |
| `Timer.TimerLog.EraseLast` | Timer.py:134-148 | in place: the list becomes `AfterErase` of the old list; the outcome is "no timestamps" exactly when the list was empty; a well-formed list stays well-formed |
| `Timer.TimerLog.Status` | Timer.py:61-71 | the status answer is "open" exactly when the list is non-empty and its last type is start, and for a well-formed list exactly when its length is odd |
| `Generator.Pushed` | Generator.py:11-21 | the stack built by the first loop has one record per drawn gap |
| `Generator.Reversed` | Generator.py:24-25 | what the pop loop produces: a sequence of the same length whose position k holds position n - 1 - k of the stack |
| `Generator.PushedAt` | Generator.py:11-21 | the k-th push carries id count - k, the type that id calls for (start when odd), and the running time after the first k + 1 gaps are subtracted |
| `Generator.PushedStep` | Generator.py:12-21 | one iteration of the first loop subtracts the next gap from the running time and pushes exactly one record with id count - n |
| `Generator.GeneratedAt` | Generator.py:11-25 | output position m holds id m + 1, the type that id calls for, and the time after the first count - m gaps |
| `Generator.GeneratedWellFormed` | Generator.py:11-25 | the generator's output meets the invariant the timer's commands keep: begins with start, alternates, ids 1..count |
| `Generator.GeneratedTimes` | Generator.py:12 | output times never decrease, and consecutive output times are less than 100000 seconds apart |
| `Generator.GeneratedProperties` | Generator.py:11-25 | the output is well-formed, its times are non-decreasing with steps below 100000 seconds, and its last time is the start time minus the first gap |
| `Generator.DefaultCountEndsClosed` | Generator.py:9-16 | with count 5000 the last output record is a stop, so the generated log has no open session |
| `Generator.PushAll` | Generator.py:7-21 | the first loop leaves on the stack exactly `Pushed` of the drawn gaps, and the running time is the start time minus the sum of all gaps |
| `Generator.PopAll` | Generator.py:24-25 | the second loop leaves the stack empty and the output equal to the stack reversed |
| `Generator.Generate` | Generator.py:3-25 | both loops: the stack is empty afterwards, the output is the pushed stack reversed, it has `count` records, it is well-formed, its times are non-decreasing with steps below 100000 seconds, and its last time is the start time minus the first gap |

## Left out

- Interval reconstruction, summing and calendar bucketing: `time_days` and `time_terms` (Timer.py:124-131) have no body in this code, so there is nothing to model.
- Loading and saving the list as JSON (`load_json`, `save_json`), the fall-back to an empty list when loading fails, and the re-save and re-load after each append: file I/O. The list a command works on is the constructor's argument.
- The file-existence checks in `get_status` and `erase_last`: when the file is missing they only print a message and change nothing. `TimerLog.EraseLast` models an existing file.
- `delete_file`, `show_commands`, the command table and `execute_command`/`main`: file removal, printing and interactive dispatch.
- Printing the first and last timestamps in `get_status`, every other printed message, and the catch-all `except` handlers: output and error plumbing. The branch a refused command takes is kept as the returned `Outcome`.
- The clock and date formatting (`datetime.now().strftime`, `time.time()`, `fromtimestamp(...).strftime`): a clock reading is the integer parameter `now`. The timer's commands take any `now`, so the model does not claim that the timer's times increase.
- `random.randrange(100_000)`: its draws are the input `gaps`, each below 100000.
- Record types other than `start` and `stop` in a hand-edited file: `type` is a two-valued `Kind`.
- Key names: the timer writes the instant under `time` and the generator under `datetime`. Both are the field `time` of `EventLog.Event` here.
- Printing the generated list as JSON (Generator.py:27): output.
- `TimerWithTrayIcon.py` (tray UI), `Main.py` (a command loop), `core/Timer.py` (a singleton holder) and `Tests.py` (singleton and folder tests): user interface and object identity, with no log logic.
