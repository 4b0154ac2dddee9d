/** The sending half of sliding_window.py, which also counts its free slots. */
module PythonWindows {
  import opened Windows

  function IdleCount(slots: seq<Status>): nat {
    if slots == [] then 0 else (if slots[0] == Idle then 1 else 0) + IdleCount(slots[1..])
  }

  lemma {:induction false} IdleCountUpdate(slots: seq<Status>, i: nat, x: Status)
    requires i < |slots|
    ensures IdleCount(slots[i := x]) + (if slots[i] == Idle then 1 else 0) == IdleCount(slots) + (if x == Idle then 1 else 0)
  {
    if i == 0 {
      assert slots[i := x][1..] == slots[1..];
    } else {
      IdleCountUpdate(slots[1..], i - 1, x);
      assert slots[i := x][1..] == slots[1..][i - 1 := x];
    }
  }

  lemma {:induction false} IdleCountAppend(a: seq<Status>, b: seq<Status>)
    ensures IdleCount(a + b) == IdleCount(a) + IdleCount(b)
  {
    if a == [] {
      assert a + b == b;
    } else {
      IdleCountAppend(a[1..], b);
      assert (a + b)[1..] == a[1..] + b;
    }
  }

  /** Sliding over finished slots frees as many. */
  lemma {:induction false} IdleCountSlid(slots: seq<Status>, n: nat)
    requires n <= |slots| && forall k :: 0 <= k < n ==> slots[k] == End
    ensures IdleCount(Slid(slots, n, Idle)) == IdleCount(slots) + n
  {
    if n == 0 {
      SlidStart(slots, Idle);
    } else {
      IdleCountSlid(slots, n - 1);
      var before := Slid(slots, n - 1, Idle);
      SlidNext(slots, n - 1, Idle);
      IdleCountAppend(before[1..], [Idle]);
      assert before == [before[0]] + before[1..];
      IdleCountAppend([before[0]], before[1..]);
      assert [Idle][1..] == [] && [before[0]][1..] == [];
    }
  }

  lemma {:induction false} NoneIdle(slots: seq<Status>)
    ensures IdleCount(slots) == 0 <==> FirstIdle(slots) == |slots|
  {
    if slots != [] { NoneIdle(slots[1..]); }
  }

  class SlidingWindow {
    var stamp: nat
    var windows: seq<Status>
    var windowsData: seq<Option<Bytes>>
    var windowsTime: seq<real>
    var idleCount: int
    const timeout: real := 0.1

    /** idle_count is the number of free slots. */
    ghost predicate Valid()
      reads this
    {
      stamp < 128 && |windows| == |windowsData| == |windowsTime| && idleCount == IdleCount(windows)
    }

    function Sending(): Sender
      reads this
    {
      Sender(stamp, windows, windowsData)
    }

    constructor (windowSize: nat)
      ensures Valid() && Sending() == Sender(0, seq(windowSize, _ => Idle), seq(windowSize, _ => None))
    {
      stamp := 0;
      windows := seq(windowSize, _ => Idle);
      windowsData := seq(windowSize, _ => None);
      windowsTime := seq(windowSize, _ => 0.0);
      idleCount := windowSize;
      new;
      AllIdle(windowSize);
    }

    /** send: a payload gets the next free slot; false when there is none. */
    method Send(data: Bytes, now: real) returns (ok: bool, packet: Bytes)
      requires Valid()
      modifies this
      ensures Valid()
      ensures (Sending(), if ok then Some(packet) else None) == Sent(old(Sending()), data)
      ensures idleCount == old(idleCount) - if ok then 1 else 0
      ensures windowsTime == if ok then old(windowsTime)[FirstIdle(old(windows)) := now] else old(windowsTime)
    {
      NoneIdle(windows);
      if idleCount == 0 {
        return false, [];
      }
      var i := 0;
      while i < |windows|
        invariant 0 <= i <= |windows|
        invariant forall k :: 0 <= k < i ==> windows[k] != Idle
        invariant Valid() && Sending() == old(Sending()) && idleCount == old(idleCount)
        invariant windowsTime == old(windowsTime)
      {
        if windows[i] == Idle {
          break;
        }
        i := i + 1;
      }
      packet := data + [Onward(i, stamp) as Byte];
      IdleCountUpdate(windows, i, WaitForRes);
      windowsTime := windowsTime[i := now];
      windowsData := windowsData[i := Some(packet)];
      windows := windows[i := WaitForRes];
      idleCount := idleCount - 1;
      ok := true;
    }

    /** recvATK for the number d; false where the list index does not exist; n slots leave the front. */
    method RecvAtk(d: nat) returns (ok: bool, ghost n: nat)
      requires Valid() && d < 256
      modifies this
      ensures Valid()
      ensures var after := AcknowledgedAt(old(Sending()), ConfirmBorderPython(old(stamp), |old(windows)|, d));
        ok == (after != None) && Sending() == if ok then after.value else old(Sending())
      ensures n <= |old(windows)| && stamp == Onward(old(stamp), n)
      ensures windowsData == Slid(old(windowsData), n, None) && windowsTime == Slid(old(windowsTime), n, 0.0)
    {
      hide ConfirmBorderPython, Slid, Finished, Onward;
      SlidStart(windowsTime, 0.0);
      SlidStart(windowsData, None);
      NoWrap(stamp, 0);
      ok, n := true, 0;
      var index := ConfirmBorderPython(stamp, |windows|, d);
      if index == -1 {
        return;
      }
      if !(0 <= index < |windows|) {
        return false, 0;
      }
      if windows[index] != WaitForRes {
        return;
      }
      IdleCountUpdate(windows, index, End);
      windows := windows[index := End];
      ghost var slots := windows;
      var i := 0;
      while i < |windows| && windows[i] == End
        invariant 0 <= i <= |windows| && windows == slots
        invariant forall k :: 0 <= k < i ==> windows[k] == End
      {
        i := i + 1;
      }
      FinishedIs(slots, i);
      IdleCountSlid(slots, i);
      Slide(i);
      idleCount := idleCount + i;
      stamp := Onward(stamp, i);
      n := i;
    }

    /** The first n slots leave the front, with their data and times. */
    method Slide(n: nat)
      requires n <= |windows| == |windowsData| == |windowsTime|
      modifies this`windows, this`windowsData, this`windowsTime
      ensures windows == Slid(old(windows), n, Idle) && windowsData == Slid(old(windowsData), n, None)
      ensures windowsTime == Slid(old(windowsTime), n, 0.0)
    {
      hide Slid;
      ghost var slots, data, times := windows, windowsData, windowsTime;
      SlidStart(slots, Idle);
      SlidStart(data, None);
      SlidStart(times, 0.0);
      var o := 0;
      while o < n
        invariant 0 <= o <= n <= |slots| == |data| == |times|
        invariant windows == Slid(slots, o, Idle) && windowsData == Slid(data, o, None) && windowsTime == Slid(times, o, 0.0)
      {
        SlidNext(slots, o, Idle);
        SlidNext(data, o, None);
        SlidNext(times, o, 0.0);
        windows := windows[1..];
        windows := windows + [Idle];
        windowsData := windowsData[1..];
        windowsData := windowsData + [None];
        windowsTime := windowsTime[1..];
        windowsTime := windowsTime + [0.0];
        o := o + 1;
      }
    }
  }

  lemma {:induction false} FinishedIs(slots: seq<Status>, n: nat)
    requires n <= |slots| && (n < |slots| ==> slots[n] != End) && forall k :: 0 <= k < n ==> slots[k] == End
    ensures Finished(slots) == n
  {}

  lemma {:induction false} AllIdle(n: nat)
    ensures IdleCount(seq(n, _ => Idle)) == n
  {
    if n > 0 {
      AllIdle(n - 1);
      assert seq(n, _ => Idle)[1..] == seq(n - 1, _ => Idle);
    }
  }
}
