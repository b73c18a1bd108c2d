/**
 * The synthetic-log generator. Walking ids from `count` down to 1, it steps a
 * running time back by a random gap and pushes a record onto a stack; then
 * it pops the stack into the output, so the output runs forwards in time.
 * The clock reading is the parameter `now` and the random draws are the
 * sequence `gaps`, one per pushed record, in the order they are drawn.
 */
module Generator {
  import opened EventLog

  /** The number of records the generator writes. */
  const Count := 5000

  /** Every random gap is below this many seconds. */
  const MaxGap := 100000

  /** The sum of the gaps drawn so far. */
  function Sum(gaps: seq<nat>): (total: nat) {
    if gaps == [] then 0 else Sum(gaps[..|gaps| - 1]) + gaps[|gaps| - 1]
  }

  /** The sequence read from its last element back to its first. */
  function Reversed(s: seq<Event>): (r: seq<Event>)
    ensures |r| == |s|
    ensures forall k :: 0 <= k < |s| ==> r[k] == s[|s| - 1 - k]
  {
    if s == [] then [] else [s[|s| - 1]] + Reversed(s[..|s| - 1])
  }

  /**
   * The stack after one push per drawn gap: the k-th push (from 0) carries
   * id count - k and the time reached after subtracting the first k + 1 gaps.
   */
  function Pushed(count: nat, now: int, gaps: seq<nat>): (r: seq<Event>)
    ensures |r| == |gaps|
  {
    if gaps == [] then []
    else
      var id := count - (|gaps| - 1);
      Pushed(count, now, gaps[..|gaps| - 1]) + [Event(id, KindOf(id), now - Sum(gaps))]
  }

  lemma {:induction false} PushedAt(count: nat, now: int, gaps: seq<nat>, k: nat)
    requires k < |gaps|
    ensures Pushed(count, now, gaps)[k] == Event(count - k, KindOf(count - k), now - Sum(gaps[..k + 1]))
  {
    if k < |gaps| - 1 {
      var init := gaps[..|gaps| - 1];
      PushedAt(count, now, init, k);
      assert init[..k + 1] == gaps[..k + 1];
    } else {
      assert gaps[..k + 1] == gaps;
    }
  }

  /** One more iteration of the first loop: one more gap drawn, one more record pushed. */
  lemma PushedStep(count: nat, now: int, gaps: seq<nat>, n: nat)
    requires n < |gaps|
    ensures Sum(gaps[..n + 1]) == Sum(gaps[..n]) + gaps[n]
    ensures Pushed(count, now, gaps[..n + 1])
            == Pushed(count, now, gaps[..n]) + [Event(count - n, KindOf(count - n), now - Sum(gaps[..n + 1]))]
  {
    assert gaps[..n + 1][..n] == gaps[..n];
  }

  /**
   * The record at output position m carries id m + 1, the kind that id calls
   * for, and the time reached after the first count - m gaps.
   */
  lemma GeneratedAt(count: nat, now: int, gaps: seq<nat>, m: nat)
    requires |gaps| == count
    requires m < count
    ensures Reversed(Pushed(count, now, gaps))[m] == Event(m + 1, KindOf(m + 1), now - Sum(gaps[..count - m]))
  {
    PushedAt(count, now, gaps, count - 1 - m);
  }

  /** The generated log meets the invariant the timer's commands keep. */
  lemma GeneratedWellFormed(count: nat, now: int, gaps: seq<nat>)
    requires |gaps| == count
    ensures WellFormed(Reversed(Pushed(count, now, gaps)))
  {
    var data := Reversed(Pushed(count, now, gaps));
    forall m | 0 <= m < count
      ensures data[m].id == m + 1 && data[m].kind == KindOf(m + 1)
    {
      GeneratedAt(count, now, gaps, m);
    }
  }

  /**
   * Output times never decrease, and consecutive ones are less than
   * `MaxGap` seconds apart.
   */
  lemma GeneratedTimes(count: nat, now: int, gaps: seq<nat>)
    requires |gaps| == count
    requires forall k :: 0 <= k < |gaps| ==> gaps[k] < MaxGap
    ensures var data := Reversed(Pushed(count, now, gaps));
            forall m :: 0 < m < count ==> data[m - 1].time <= data[m].time < data[m - 1].time + MaxGap
  {
    var data := Reversed(Pushed(count, now, gaps));
    forall m | 0 < m < count
      ensures data[m - 1].time <= data[m].time < data[m - 1].time + MaxGap
    {
      GeneratedAt(count, now, gaps, m - 1);
      GeneratedAt(count, now, gaps, m);
      var j := count - m;
      assert gaps[..j + 1][..j] == gaps[..j];
    }
  }

  /** The properties the generator's output is promised to have, gathered. */
  lemma GeneratedProperties(count: nat, now: int, gaps: seq<nat>)
    requires |gaps| == count
    requires forall k :: 0 <= k < |gaps| ==> gaps[k] < MaxGap
    ensures var data := Reversed(Pushed(count, now, gaps));
            && WellFormed(data)
            && (forall m :: 0 < m < count ==> data[m - 1].time <= data[m].time < data[m - 1].time + MaxGap)
            && (count > 0 ==> data[count - 1].time == now - gaps[0])
  {
    GeneratedWellFormed(count, now, gaps);
    GeneratedTimes(count, now, gaps);
    if count > 0 {
      GeneratedAt(count, now, gaps, count - 1);
      assert gaps[..1] == [gaps[0]];
    }
  }

  /** With the generator's own count the log ends with a stop, so no session is left open. */
  lemma DefaultCountEndsClosed(now: int, gaps: seq<nat>)
    requires |gaps| == Count
    ensures Reversed(Pushed(Count, now, gaps))[Count - 1].kind == Stop
    ensures !IsOpen(Reversed(Pushed(Count, now, gaps)))
  {
    GeneratedAt(Count, now, gaps, Count - 1);
  }

  /**
   * The first loop: for ids count down to 1, subtract the next gap from the
   * running time and push a record. `time` is the running time afterwards.
   */
  method PushAll(count: nat, now: int, gaps: seq<nat>) returns (stack: seq<Event>, time: int)
    requires |gaps| == count
    ensures stack == Pushed(count, now, gaps)
    ensures time == now - Sum(gaps)
  {
    time := now;
    stack := [];
    var i := count;
    while i > 0
      invariant 0 <= i <= count
      invariant stack == Pushed(count, now, gaps[..count - i])
      invariant time == now - Sum(gaps[..count - i])
    {
      PushedStep(count, now, gaps, count - i);
      time := time - gaps[count - i];
      var kind := KindOf(i);
      stack := stack + [Event(i, kind, time)];
      i := i - 1;
    }
    assert gaps[..count] == gaps;
  }

  /**
   * The second loop: pop the stack `count` times onto the end of `data`.
   * `rest` is what is left on the stack.
   */
  method PopAll(count: nat, stack: seq<Event>) returns (data: seq<Event>, rest: seq<Event>)
    requires |stack| == count
    ensures rest == []
    ensures data == Reversed(stack)
  {
    data := [];
    rest := stack;
    var i := count;
    while i > 0
      invariant 0 <= i <= count
      invariant rest == stack[..i]
      invariant data == Reversed(stack)[..count - i]
    {
      assert Reversed(stack)[..count - i + 1] == Reversed(stack)[..count - i] + [stack[i - 1]];
      data := data + [rest[|rest| - 1]];
      rest := rest[..|rest| - 1];
      i := i - 1;
    }
  }

  /**
   * The whole generator: `data` is the output log and `stack` what is left
   * on the stack afterwards.
   */
  method Generate(count: nat, now: int, gaps: seq<nat>) returns (data: seq<Event>, stack: seq<Event>)
    requires |gaps| == count
    requires forall k :: 0 <= k < |gaps| ==> gaps[k] < MaxGap
    ensures stack == []
    ensures data == Reversed(Pushed(count, now, gaps))
    ensures |data| == count && WellFormed(data)
    ensures forall m :: 0 < m < |data| ==> data[m - 1].time <= data[m].time < data[m - 1].time + MaxGap
    ensures count > 0 ==> data[count - 1].time == now - gaps[0]
  {
    var time;
    stack, time := PushAll(count, now, gaps);
    data, stack := PopAll(count, stack);
    GeneratedProperties(count, now, gaps);
  }
}
