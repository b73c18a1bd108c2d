/**
 * The timer's log of start/stop timestamps: the guarded commands that append
 * a start or a stop, the append itself, erasing the last record, and the
 * open-session test. Loading and saving the log, the clock and the messages
 * printed are outside the model: the clock reading is the parameter `now`
 * and the message printed on a refusal is the returned `Outcome`.
 */
module Timer {
  import opened EventLog

  /** Which branch a command took; every value but `Done` leaves the log unchanged. */
  datatype Outcome =
    | Done                 // the record was appended or erased
    | TwoSameConsecutive   // the log already ends with a record of that kind
    | MustBeginWithStart   // a stop was asked for on an empty log
    | NoTimestamps         // an erase was asked for on an empty log

  /** The log after a record of `kind` stamped `now` is appended with the next id. */
  function Appended(log: seq<Event>, kind: Kind, now: int): (r: seq<Event>)
    ensures |r| == |log| + 1
    ensures r[..|log|] == log
    ensures r[|log|] == Event(|log| + 1, kind, now)
  {
    log + [Event(|log| + 1, kind, now)]
  }

  /** The log after the start command: refused while a session is running. */
  function AfterStart(log: seq<Event>, now: int): (r: seq<Event>)
    ensures IsOpen(r)
    ensures |log| <= |r| <= |log| + 1 && r[..|log|] == log
    ensures r == log <==> IsOpen(log)
    ensures r != log ==> r[|log|] == Event(|log| + 1, Start, now)
  {
    if |log| > 0 then
      if log[|log| - 1].kind == Start then log else Appended(log, Start, now)
    else
      Appended(log, Start, now)
  }

  /** The log after the stop command: refused on an empty log or when the last record is a stop. */
  function AfterStop(log: seq<Event>, now: int): (r: seq<Event>)
    ensures !IsOpen(r)
    ensures |log| <= |r| <= |log| + 1 && r[..|log|] == log
    ensures r == log <==> !IsOpen(log)
    ensures r != log ==> r[|log|] == Event(|log| + 1, Stop, now)
    ensures log == [] ==> r == []
  {
    if |log| > 0 then
      if log[|log| - 1].kind == Stop then log else Appended(log, Stop, now)
    else
      log
  }

  /** The log after erasing: the final record goes, an empty log stays empty. */
  function AfterErase(log: seq<Event>): (r: seq<Event>)
    ensures log == [] ==> r == []
    ensures log != [] ==> r + [log[|log| - 1]] == log
  {
    if |log| > 0 then log[..|log| - 1] else log
  }

  lemma StartPreservesWellFormed(log: seq<Event>, now: int)
    requires WellFormed(log)
    ensures WellFormed(AfterStart(log, now))
  {
    if !IsOpen(log) {
      AppendWellFormed(log, Event(|log| + 1, Start, now));
    }
  }

  lemma StopPreservesWellFormed(log: seq<Event>, now: int)
    requires WellFormed(log)
    ensures WellFormed(AfterStop(log, now))
  {
    if IsOpen(log) {
      AppendWellFormed(log, Event(|log| + 1, Stop, now));
    }
  }

  lemma ErasePreservesWellFormed(log: seq<Event>)
    requires WellFormed(log)
    ensures WellFormed(AfterErase(log))
  {
    if |log| > 0 {
      PrefixWellFormed(log, |log| - 1);
    }
  }

  /** An accepted start is undone by an erase. */
  lemma EraseUndoesStart(log: seq<Event>, now: int)
    requires !IsOpen(log)
    ensures AfterErase(AfterStart(log, now)) == log
  {
    var r := AfterStart(log, now);
    assert r[..|log|] == log;
  }

  /** An accepted stop is undone by an erase. */
  lemma EraseUndoesStop(log: seq<Event>, now: int)
    requires IsOpen(log)
    ensures AfterErase(AfterStop(log, now)) == log
  {
    var r := AfterStop(log, now);
    assert r[..|log|] == log;
  }

  /** A second start, at any instant, changes nothing: the first one opened a session. */
  lemma StartIdempotent(log: seq<Event>, now: int, later: int)
    ensures AfterStart(AfterStart(log, now), later) == AfterStart(log, now)
  {
  }

  /** A command of the interactive timer that touches the log. */
  datatype Command = StartAt(now: int) | StopAt(now: int) | Erase

  function Step(log: seq<Event>, c: Command): (r: seq<Event>) {
    match c
    case StartAt(now) => AfterStart(log, now)
    case StopAt(now) => AfterStop(log, now)
    case Erase => AfterErase(log)
  }

  /** The log after the commands are run in order. */
  function Run(log: seq<Event>, cmds: seq<Command>): (r: seq<Event>)
    decreases |cmds|
  {
    if cmds == [] then log else Run(Step(log, cmds[0]), cmds[1..])
  }

  lemma StepPreservesWellFormed(log: seq<Event>, c: Command)
    requires WellFormed(log)
    ensures WellFormed(Step(log, c))
  {
    match c
    case StartAt(now) => StartPreservesWellFormed(log, now);
    case StopAt(now) => StopPreservesWellFormed(log, now);
    case Erase => ErasePreservesWellFormed(log);
  }

  /** Start, stop and erase, in any order, keep a well-formed log well-formed. */
  lemma {:induction false} RunPreservesWellFormed(log: seq<Event>, cmds: seq<Command>)
    requires WellFormed(log)
    ensures WellFormed(Run(log, cmds))
    decreases |cmds|
  {
    if cmds != [] {
      StepPreservesWellFormed(log, cmds[0]);
      RunPreservesWellFormed(Step(log, cmds[0]), cmds[1..]);
    }
  }

  /**
   * Every log reachable from an empty one begins with a start, alternates,
   * has ids 1..n, and is open exactly when its length is odd.
   */
  lemma ReachableWellFormed(cmds: seq<Command>)
    ensures WellFormed(Run([], cmds))
    ensures IsOpen(Run([], cmds)) <==> |Run([], cmds)| % 2 == 1
  {
    RunPreservesWellFormed([], cmds);
  }

  /** The timer's in-memory list of timestamps and the commands that change it. */
  class TimerLog {
    var timestamps: seq<Event>

    /** The list as it was loaded; an absent or unreadable file loads as []. */
    constructor (loaded: seq<Event>)
      ensures timestamps == loaded
    {
      timestamps := loaded;
    }

    /** Appends a record of `kind` stamped `now` whose id is the old length + 1. */
    method NewTimestamp(kind: Kind, now: int)
      modifies this
      ensures |timestamps| == |old(timestamps)| + 1
      ensures timestamps[..|old(timestamps)|] == old(timestamps)
      ensures timestamps[|old(timestamps)|] == Event(|old(timestamps)| + 1, kind, now)
    {
      timestamps := timestamps + [Event(|timestamps| + 1, kind, now)];
    }

    method StartTimestamp(now: int) returns (outcome: Outcome)
      modifies this
      ensures outcome == if old(IsOpen(timestamps)) then TwoSameConsecutive else Done
      ensures timestamps == AfterStart(old(timestamps), now)
      ensures WellFormed(old(timestamps)) ==> WellFormed(timestamps)
    {
      ghost var before := timestamps;
      if |timestamps| > 0 {
        if timestamps[|timestamps| - 1].kind == Start {
          outcome := TwoSameConsecutive;
        } else {
          NewTimestamp(Start, now);
          outcome := Done;
        }
      } else {
        NewTimestamp(Start, now);
        outcome := Done;
      }
      if WellFormed(before) {
        StartPreservesWellFormed(before, now);
      }
    }

    method StopTimestamp(now: int) returns (outcome: Outcome)
      modifies this
      ensures outcome == if old(timestamps) == [] then MustBeginWithStart
                         else if old(IsOpen(timestamps)) then Done
                         else TwoSameConsecutive
      ensures timestamps == AfterStop(old(timestamps), now)
      ensures WellFormed(old(timestamps)) ==> WellFormed(timestamps)
    {
      ghost var before := timestamps;
      if |timestamps| > 0 {
        if timestamps[|timestamps| - 1].kind == Stop {
          outcome := TwoSameConsecutive;
        } else {
          NewTimestamp(Stop, now);
          outcome := Done;
        }
      } else {
        outcome := MustBeginWithStart;
      }
      if WellFormed(before) {
        StopPreservesWellFormed(before, now);
      }
    }

    method EraseLast() returns (outcome: Outcome)
      modifies this
      ensures outcome == if old(timestamps) == [] then NoTimestamps else Done
      ensures timestamps == AfterErase(old(timestamps))
      ensures WellFormed(old(timestamps)) ==> WellFormed(timestamps)
    {
      ghost var before := timestamps;
      if |timestamps| > 0 {
        timestamps := timestamps[..|timestamps| - 1];
        outcome := Done;
      } else {
        outcome := NoTimestamps;
      }
      if WellFormed(before) {
        ErasePreservesWellFormed(before);
      }
    }

    /** The status command's test: does the log end with a start and no stop? */
    method Status() returns (open: bool)
      ensures open <==> IsOpen(timestamps)
      ensures WellFormed(timestamps) ==> (open <==> |timestamps| % 2 == 1)
    {
      open := false;
      if |timestamps| > 0 {
        if timestamps[|timestamps| - 1].kind == Start {
          open := true;
        }
      }
    }
  }
}
