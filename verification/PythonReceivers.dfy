/** The receiving half of sliding_window.py, whose slide loop takes slots from the front while it counts. */
module PythonReceivers {
  import opened Windows

  /** The slot the slide loop looks at when k slots have left, if it is one of those it began with. */
  predicate EndAtTwice(slots: seq<Status>, k: nat) { 2 * k < |slots| && slots[2 * k] == End }

  /** How many slots the slide loop takes off: it looks at every other one. */
  function Gone(slots: seq<Status>): (m: nat)
    ensures m <= |slots| && (forall k: nat :: k < m ==> EndAtTwice(slots, k)) && !EndAtTwice(slots, m)
  {
    if slots == [] || slots[0] != End then 0
    else if |slots| == 1 then 1
    else
      var rest := slots[2..];
      assert forall k: nat :: k > 0 ==> EndAtTwice(slots, k) == EndAtTwice(rest, k - 1);
      1 + Gone(rest)
  }

  lemma GoneIs(slots: seq<Status>, m: nat)
    requires (forall k: nat :: k < m ==> EndAtTwice(slots, k)) && !EndAtTwice(slots, m)
    ensures Gone(slots) == m
  {
    assert m > Gone(slots) ==> EndAtTwice(slots, Gone(slots));
    hide EndAtTwice;
  }

  /** After number d has arrived, and whether its payload is passed on. */
  function ArrivedPython(r: Receiver, d: int): (Receiver, Arrival) {
    var index := ConfirmBorderPython(r.stamp, |r.slots|, d);
    if index == -1 then (r, Ignored)
    else if !(0 <= index < |r.slots|) then (r, NoSuchSlot)
    else if r.slots[index] != Idle then (r, Ignored) else
    var slots := r.slots[index := End];
    var m := Gone(slots);
    (Receiver(Onward(r.stamp, if |slots| == 1 then 0 else m), Slid(slots, m, Idle)), Delivered)
  }

  lemma ArrivedIs(r: Receiver, d: int)
    ensures var index := ConfirmBorderPython(r.stamp, |r.slots|, d);
      && (index == -1 ==> ArrivedPython(r, d) == (r, Ignored))
      && (index != -1 && !(0 <= index < |r.slots|) ==> ArrivedPython(r, d) == (r, NoSuchSlot))
      && (0 <= index < |r.slots| && r.slots[index] != Idle ==> ArrivedPython(r, d) == (r, Ignored))
      && (0 <= index < |r.slots| && r.slots[index] == Idle ==>
            var slots := r.slots[index := End];
            var m := Gone(slots);
            ArrivedPython(r, d) == (Receiver(Onward(r.stamp, if |slots| == 1 then 0 else m), Slid(slots, m, Idle)), Delivered))
  {
    hide ConfirmBorderPython, Slid, Gone, Onward;
  }

  /** When i slots have left, the loop looks at what was at place 2 i; in a window of two or more it ends before the last. */
  lemma LookedAt(slots: seq<Status>, i: nat)
    requires i < |slots|
    ensures |Slid(slots, i, Idle)| == |slots| && (Slid(slots, i, Idle)[i] == End <==> EndAtTwice(slots, i))
    ensures !EndAtTwice(slots, |slots|) && (EndAtTwice(slots, i) && i == |slots| - 1 ==> i == 0)
  {}

  /** The slide loop: the index runs on while slots leave in front of it. */
  method SlideLoop(slots: seq<Status>) returns (left: seq<Status>, i: nat)
    requires slots != []
    ensures left == Slid(slots, Gone(slots), Idle)
    ensures i == if |slots| == 1 then 0 else Gone(slots)
  {
    hide Slid, Gone, EndAtTwice;
    left := slots;
    SlidStart(slots, Idle);
    var length := |slots|;
    i := 0;
    while true
      invariant 0 <= i < length == |slots| && left == Slid(slots, i, Idle)
      invariant forall k: nat :: k < i ==> EndAtTwice(slots, k)
      decreases length - i
    {
      SlidNext(slots, i, Idle);
      LookedAt(slots, i);
      if left[i] != End {
        GoneIs(slots, i);
        break;
      }
      left := left[1..];
      left := left + [Idle];
      if i == length - 1 {
        GoneIs(slots, i + 1);
        break;
      }
      i := i + 1;
    }
  }

  class ReceivingWindow {
    var recvStamp: nat
    var recvWindows: seq<Status>
    var recvBuffer: seq<seq<nat>>

    function Receiving(): Receiver
      reads this
    {
      Receiver(recvStamp, recvWindows)
    }

    constructor (windowSize: nat)
      ensures Receiving() == Receiver(0, seq(windowSize, _ => Idle)) && recvBuffer == []
    {
      recvStamp := 0;
      recvWindows := seq(windowSize, _ => Idle);
      recvBuffer := [];
    }

    /** recv, for data that is not an acknowledgement: the number in the last byte is acknowledged in every case. */
    method Recv(data: seq<nat>) returns (arrival: Arrival, ack: nat)
      requires |data| > 1 && recvStamp < 128
      modifies this
      ensures ack == data[|data| - 1] && recvStamp < 128
      ensures (Receiving(), arrival) == ArrivedPython(old(Receiving()), ack)
      ensures recvBuffer == old(recvBuffer) + if arrival == Delivered then [data[..|data| - 1]] else []
    {
      hide ConfirmBorderPython, Slid, Gone, EndAtTwice, ArrivedPython, Onward;
      ack := data[|data| - 1];
      ArrivedIs(Receiving(), ack);
      var index := ConfirmBorderPython(recvStamp, |recvWindows|, ack);
      if index == -1 {
        return Ignored, ack;
      }
      if !(0 <= index < |recvWindows|) {
        return NoSuchSlot, ack; // the list's index error
      }
      if recvWindows[index] != Idle {
        return Ignored, ack;
      }
      recvWindows := recvWindows[index := End];
      var left, i := SlideLoop(recvWindows);
      recvWindows := left;
      recvStamp := Onward(recvStamp, i);
      recvBuffer := recvBuffer + [data[..|data| - 1]];
      arrival := Delivered;
    }
  }

  /**
   * The loop takes off a slot that has not arrived if and only if the packets in every other slot,
   * from the first up to twice as far as the finished ones reach, have all arrived.
   */
  lemma DropsExactly(slots: seq<Status>)
    ensures Gone(slots) > Finished(slots) <==> forall k: nat :: k <= Finished(slots) ==> EndAtTwice(slots, k)
  {
    hide EndAtTwice, Gone, Finished;
    assert Gone(slots) <= Finished(slots) ==> !EndAtTwice(slots, Gone(slots));
  }

  /** It takes off too few if and only if one of those up to the finished ones has not. */
  lemma LagsExactly(slots: seq<Status>)
    ensures Gone(slots) < Finished(slots) <==> exists k: nat :: k < Finished(slots) && !EndAtTwice(slots, k)
  {
    hide EndAtTwice, Gone, Finished;
    assert Gone(slots) < Finished(slots) ==> !EndAtTwice(slots, Gone(slots));
  }

  /** What happens to a packet with number d: it is passed on if and only if d is the number of a free slot. */
  lemma PassedOnExactly(r: Receiver, d: int)
    requires 1 <= |r.slots| < 128 && r.stamp < 128 && 0 <= d < 128
    ensures var k := Ahead(r.stamp, d);
      ArrivedPython(r, d).1 ==
        if k < |r.slots| then (if r.slots[k] == Idle then Delivered else Ignored)
        else if k == |r.slots| && r.stamp + |r.slots| > 128 then NoSuchSlot
        else Ignored
    ensures ArrivedPython(r, d).1 != Delivered ==> ArrivedPython(r, d).0 == r
    ensures ArrivedPython(r, d).1 == Delivered ==>
      var slots := r.slots[Ahead(r.stamp, d) := End];
      var m := Gone(slots);
      ArrivedPython(r, d).0 == Receiver(Onward(r.stamp, if |slots| == 1 then 0 else m), Slid(slots, m, Idle))
  {
    BorderExact(r.stamp, |r.slots|, d);
    ArrivedIs(r, d);
    hide ConfirmBorderPython, ArrivedPython, Ahead, Gone, Slid, Onward;
  }

  lemma BorderExact(stamp: int, size: nat, d: int)
    requires 0 <= stamp < 128 && 0 <= d < 128 && 1 <= size < 128
    ensures 0 <= Ahead(stamp, d)
    ensures ConfirmBorderPython(stamp, size, d) ==
      if Ahead(stamp, d) < size then Ahead(stamp, d)
      else if Ahead(stamp, d) == size && stamp + size > 128 then size
      else -1
  {
    ConfirmBorderExact(stamp, size, d);
    VersionsAgree(stamp, size, d);
    hide ConfirmBorder;
  }

  /** What number n of a window is, seen from m numbers on. */
  lemma Behind(stamp: nat, n: nat, m: nat)
    requires stamp < 128 && n < m <= n + 128
    ensures Ahead(Onward(stamp, m), Onward(stamp, n)) == (128 - (m - n)) % 128
  {
    assert (Onward(stamp, n) - Onward(stamp, m)) % 128 == (n - m) % 128;
  }

  /**
   * A packet whose slot was taken off without it: when it comes next it is passed on if and only if
   * its number has come round to the end of the window; else it is acknowledged and lost.
   */
  lemma DroppedIsLost(r: Receiver, d: nat, j: nat)
    requires 2 <= |r.slots| < 128 && r.stamp < 128 && d < 128 && ArrivedPython(r, d).1 == Delivered
    requires Ahead(r.stamp, d) < |r.slots|
    requires var slots := r.slots[Ahead(r.stamp, d) := End]; j < Gone(slots) && slots[j] != End
    ensures var m, r' := Gone(r.slots[Ahead(r.stamp, d) := End]), ArrivedPython(r, d).0;
      ArrivedPython(r', Onward(r.stamp, j)).1 == Delivered <==> |r.slots| + m - j > 128
  {
    hide ArrivedPython, Gone, Onward, Ahead, Slid;
    AheadRange(r.stamp, d);
    var slots := r.slots[Ahead(r.stamp, d) := End];
    var m := Gone(slots);
    PassedOnExactly(r, d);
    Behind(r.stamp, j, m);
    FreeBehind(slots, m, 128 - (m - j));
    PassedOnExactly(Receiver(Onward(r.stamp, m), Slid(slots, m, Idle)), Onward(r.stamp, j));
  }

  lemma AheadRange(stamp: int, d: int)
    ensures 0 <= Ahead(stamp, d) < 128
  {}

  lemma FreeBehind(slots: seq<Status>, m: nat, k: nat)
    requires m <= |slots| && |slots| <= k + m
    ensures k < |slots| ==> Slid(slots, m, Idle)[k] == Idle
  {}

  /** It happens with three packets: when they arrive in the order 2, 0, 1, packet 1 is lost. */
  lemma ThreePacketsLoseOne(size: nat)
    requires 3 <= size <= 127
    ensures var free := seq(size, _ => Idle);
      var r1, r2 := Receiver(0, free[2 := End]), Receiver(2, free[0 := End]);
      && ArrivedPython(Receiver(0, free), 2) == (r1, Delivered)
      && ArrivedPython(r1, 0) == (r2, Delivered)
      && ArrivedPython(r2, 1).0 == r2 && ArrivedPython(r2, 1).1 != Delivered
  {
    var free := seq(size, _ => Idle);
    var slots := free[2 := End];
    var after := slots[0 := End];
    assert !EndAtTwice(slots, 0) && EndAtTwice(after, 0) && EndAtTwice(after, 1) && !EndAtTwice(after, 2);
    assert Slid(after, 2, Idle) == free[0 := End];
    hide Gone, Slid, ArrivedPython, EndAtTwice;
    GoneIs(slots, 0);
    SlidStart(slots, Idle);
    GoneIs(after, 2);
    PassedOnExactly(Receiver(0, free), 2);
    PassedOnExactly(Receiver(0, slots), 0);
    PassedOnExactly(Receiver(2, free[0 := End]), 1);
  }

  /**
   * It happens without a slot taken off too soon: after packets 1 and 0 the window lags by one, and
   * the last packet the sender may send by then finds no slot.
   */
  lemma LagLosesOne(size: nat)
    requires 2 <= size <= 127
    ensures var free := seq(size, _ => Idle);
      var r1, r2 := Receiver(0, free[1 := End]), Receiver(1, free[0 := End]);
      && ArrivedPython(Receiver(0, free), 1) == (r1, Delivered)
      && ArrivedPython(r1, 0) == (r2, Delivered)
      && ArrivedPython(r2, (size + 1) % 128) == (r2, Ignored)
  {
    var free := seq(size, _ => Idle);
    var slots := free[1 := End];
    var after := slots[0 := End];
    assert !EndAtTwice(slots, 0) && EndAtTwice(after, 0) && !EndAtTwice(after, 1);
    assert Slid(after, 1, Idle) == free[0 := End];
    hide Gone, Slid, ArrivedPython, EndAtTwice;
    GoneIs(slots, 0);
    SlidStart(slots, Idle);
    GoneIs(after, 1);
    PassedOnExactly(Receiver(0, free), 1);
    PassedOnExactly(Receiver(0, slots), 0);
    OneBeyond(size);
    hide Ahead;
    PassedOnExactly(Receiver(1, free[0 := End]), (size + 1) % 128);
  }

  lemma OneBeyond(size: nat)
    requires 2 <= size <= 127
    ensures Ahead(1, (size + 1) % 128) == size
  {}

  /** The packet of the first slot is passed on, whatever waits behind it; a window of one slot stays at its number. */
  lemma InOrder(r: Receiver)
    requires 1 <= |r.slots| < 128 && r.stamp < 128 && r.slots[0] == Idle
    ensures var (r', arrival) := ArrivedPython(r, r.stamp);
      && arrival == Delivered
      && (|r.slots| == 1 ==> r' == r)
      && (|r.slots| > 1 ==>
            var slots := r.slots[0 := End];
            var m := Gone(slots);
            && m >= 1 && r' == Receiver(Onward(r.stamp, m), Slid(slots, m, Idle))
            && (m == 1 <==> |slots| == 2 || slots[2] != End))
  {
    var slots := r.slots[0 := End];
    assert EndAtTwice(slots, 0) && (EndAtTwice(slots, 1) <==> |slots| > 2 && r.slots[2] == End);
    PassedOnExactly(r, r.stamp);
    hide Gone, ArrivedPython;
    assert |slots| == 1 ==> Slid(slots, 1, Idle) == r.slots;
  }
}
