/**
 * The timestamp record shared by the timer's log and the synthetic-log
 * generator, and the well-formedness invariant both are meant to keep:
 * the log begins with a start, kinds alternate, and ids run 1, 2, ..., n.
 */
module EventLog {

  /** The `type` of a timestamp record. */
  datatype Kind = Start | Stop

  /**
   * One timestamp record. `time` is the instant in whole seconds, before it
   * is formatted as a date string.
   */
  datatype Event = Event(id: int, kind: Kind, time: int)

  /** The kind carried by the record whose 1-based id is `id` when odd ids start. */
  function KindOf(id: int): (k: Kind) {
    if id % 2 == 1 then Start else Stop
  }

  /** The record at position k differs in kind from the one before it. */
  predicate KindChangesAt(log: seq<Event>, k: nat)
    requires 0 < k < |log|
  {
    log[k].kind != log[k - 1].kind
  }

  /** The log begins with a start and consecutive kinds differ. */
  predicate Alternates(log: seq<Event>) {
    && (|log| > 0 ==> log[0].kind == Start)
    && (forall k :: 0 < k < |log| ==> KindChangesAt(log, k))
  }

  /** Every record's id is its 1-based position. */
  predicate NumberedInOrder(log: seq<Event>) {
    forall k :: 0 <= k < |log| ==> log[k].id == k + 1
  }

  /** Every record's kind is the one its 1-based position calls for: odd positions start. */
  predicate KindsByParity(log: seq<Event>) {
    forall k :: 0 <= k < |log| ==> log[k].kind == KindOf(k + 1)
  }

  /** In an alternating log the record at position k is a start exactly when k is even. */
  lemma {:induction false} KindAt(log: seq<Event>, k: nat)
    requires Alternates(log)
    requires k < |log|
    ensures log[k].kind == Start <==> k % 2 == 0
  {
    if k > 0 {
      KindAt(log, k - 1);
      assert KindChangesAt(log, k);
    }
  }

  /** Beginning with a start and alternating is the same as odd positions starting, even ones stopping. */
  lemma AlternatesIffParity(log: seq<Event>)
    ensures Alternates(log) <==> KindsByParity(log)
  {
    if Alternates(log) {
      forall k | 0 <= k < |log|
        ensures log[k].kind == KindOf(k + 1)
      {
        KindAt(log, k);
      }
    }
    if KindsByParity(log) {
      forall k | 0 < k < |log|
        ensures KindChangesAt(log, k)
      {
        assert log[k].kind == KindOf(k + 1) && log[k - 1].kind == KindOf(k);
      }
    }
  }

  /**
   * The log begins with a start, consecutive kinds differ, and ids are
   * 1..|log|; equivalently, every record's id is its position and its kind
   * is a start exactly when that id is odd.
   */
  function WellFormed(log: seq<Event>): (wf: bool)
    ensures wf <==> forall k :: 0 <= k < |log| ==> log[k].id == k + 1 && log[k].kind == KindOf(k + 1)
  {
    AlternatesIffParity(log);
    Alternates(log) && NumberedInOrder(log)
  }

  /**
   * The log ends with a start that has no stop after it: a session is
   * running. In a well-formed log that is exactly an odd length.
   */
  function IsOpen(log: seq<Event>): (open: bool)
    ensures open ==> log != []
    ensures WellFormed(log) ==> (open <==> |log| % 2 == 1)
  {
    |log| > 0 && log[|log| - 1].kind == Start
  }

  /** Every prefix of a well-formed log is well-formed. */
  lemma PrefixWellFormed(log: seq<Event>, n: nat)
    requires WellFormed(log)
    requires n <= |log|
    ensures WellFormed(log[..n])
  {
    forall k | 0 < k < n
      ensures KindChangesAt(log[..n], k)
    {
      assert KindChangesAt(log, k);
    }
  }

  /**
   * Appending a record of the kind the last one is not, numbered by the new
   * length, keeps a log well-formed.
   */
  lemma AppendWellFormed(log: seq<Event>, e: Event)
    requires WellFormed(log)
    requires e.id == |log| + 1
    requires if log == [] then e.kind == Start else e.kind != log[|log| - 1].kind
    ensures WellFormed(log + [e])
  {
    var r := log + [e];
    forall k | 0 < k < |r|
      ensures KindChangesAt(r, k)
    {
      if k < |log| {
        assert KindChangesAt(log, k);
      }
    }
  }
}
