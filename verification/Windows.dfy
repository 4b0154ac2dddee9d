/**
 * The sliding window of one connection: packets carry their number modulo 128 in a trailing
 * byte, and the window keeps what has been sent and not acknowledged, and what has arrived.
 */
module Windows {
  datatype Status = Idle | WaitForRes | End

  datatype Option<T> = None | Some(value: T)

  /** A byte as Java has it. */
  type Byte = x: int | -128 <= x < 128

  type Bytes = seq<Byte>

  // ---- confirmBorder -----------------------------------------------------------------------------

  /** confirmBorder of Server.java: the slot of number d in a window of `size` that begins at stamp, or -1. */
  function ConfirmBorder(stamp: int, size: nat, d: int): int {
    if stamp + size > 127 then
      var min, top := (stamp + size) % 128, stamp;
      if min < d < top then -1
      else if stamp <= d then d - stamp
      else d + (128 - stamp)
    else
      var top, min := stamp + size - 1, stamp - 1;
      if d < min || top < d then -1 else d - stamp
  }

  /** confirm_border of sliding_window.py. */
  function ConfirmBorderPython(stamp: int, size: nat, d: int): int {
    if (stamp + size - 1) % 128 < stamp then
      var bot, top := (stamp + size) % 128, stamp;
      if bot < d < top then -1
      else if stamp <= d then d - stamp
      else d + (128 - stamp)
    else
      var top, bot := stamp + size - 1, stamp - 1;
      if d < bot || top < d then -1 else d - stamp
  }

  /** How far d is ahead of stamp, going round at 128. */
  function Ahead(stamp: int, d: int): int { (d - stamp) % 128 }

  /**
   * Exactly what confirmBorder answers for numbers in range: the slot, if there is one; the
   * window size, which is no slot, for the number right behind a window that reaches 128;
   * and -1 for all others.
   */
  lemma ConfirmBorderExact(stamp: int, size: nat, d: int)
    requires 0 <= stamp < 128 && 0 <= d < 128 && 1 <= size < 128
    ensures ConfirmBorder(stamp, size, d) ==
      if Ahead(stamp, d) < size then Ahead(stamp, d)
      else if Ahead(stamp, d) == size && stamp + size > 127 then size
      else -1
  {}

  /** The answer names a slot or is -1, unless d is the number right behind a window that reaches 128. */
  lemma ConfirmBorderSafe(stamp: int, size: nat, d: int)
    requires 0 <= stamp < 128 && 0 <= d < 128 && 1 <= size < 128
    ensures -1 <= ConfirmBorder(stamp, size, d) < size <==> !(stamp + size > 127 && d == (stamp + size) % 128)
  {
    ConfirmBorderExact(stamp, size, d);
  }

  /** In a window of four slots the number right behind it is given the slot 4. */
  lemma ConfirmBorderOverruns()
    ensures ConfirmBorder(124, 4, 0) == 4 && ConfirmBorder(126, 4, 2) == 4
  {}

  /** The Python version differs only where the window ends exactly at 128; there it is right. */
  lemma VersionsAgree(stamp: int, size: nat, d: int)
    requires 0 <= stamp < 128 && 0 <= d < 128 && 1 <= size < 128
    ensures ConfirmBorder(stamp, size, d) == ConfirmBorderPython(stamp, size, d) <==> !(stamp + size == 128 && d == 0)
  {
    if stamp + size <= 128 { assert (stamp + size - 1) % 128 == stamp + size - 1; }
  }

  lemma SmallRemainder(base: int, x: int)
    requires 0 <= x < 128
    ensures ((base + x) % 128 - base % 128) % 128 == x
  {}

  /**
   * For a number that is less than 128 - size behind the base and less than size ahead of it,
   * both versions answer with its slot, or -1 when it is behind the base.
   */
  lemma ConfirmBorderInRange(base: int, size: nat, a: int)
    requires 0 <= base && 0 <= a && 1 <= size < 128 && base + size - 128 < a < base + size
    ensures ConfirmBorder(base % 128, size, a % 128) == if a >= base then a - base else -1
    ensures ConfirmBorderPython(base % 128, size, a % 128) == if a >= base then a - base else -1
  {
    ConfirmBorderExact(base % 128, size, a % 128);
    VersionsAgree(base % 128, size, a % 128);
    if a >= base {
      SmallRemainder(base, a - base);
    } else {
      assert (base + (a + 128 - base)) % 128 == a % 128;
      SmallRemainder(base, a + 128 - base);
    }
  }

  // ---- what the operations do --------------------------------------------------------------------

  /** The sending half: the number of the first slot, the slots, and the packets in them. */
  datatype Sender = Sender(stamp: nat, slots: seq<Status>, packets: seq<Option<Bytes>>)

  /** n numbers on, going round at 128. */
  function Onward(stamp: nat, n: nat): (r: nat)
    ensures r < 128
  {
    (stamp + n) % 128
  }

  lemma NoWrap(stamp: nat, n: nat)
    requires stamp + n < 128
    ensures Onward(stamp, n) == stamp + n
  {}

  datatype Receiver = Receiver(stamp: nat, slots: seq<Status>)

  function FirstIdle(slots: seq<Status>): (i: nat)
    ensures i <= |slots| && (i < |slots| ==> slots[i] == Idle)
    ensures forall k :: 0 <= k < i ==> slots[k] != Idle
  {
    if slots == [] || slots[0] == Idle then 0 else 1 + FirstIdle(slots[1..])
  }

  /** The slots at the front that are finished. */
  function Finished(slots: seq<Status>): (n: nat)
    ensures n <= |slots| && (n < |slots| ==> slots[n] != End)
    ensures forall k :: 0 <= k < n ==> slots[k] == End
  {
    if slots == [] || slots[0] != End then 0 else 1 + Finished(slots[1..])
  }

  /** n places further on. */
  function Slid<T>(s: seq<T>, n: nat, fresh_: T): (r: seq<T>)
    requires n <= |s|
    ensures |r| == |s|
    ensures forall k :: 0 <= k < |s| ==> r[k] == if k < |s| - n then s[k + n] else fresh_
  {
    s[n..] + seq(n, _ => fresh_)
  }

  lemma SlidStart<T>(s: seq<T>, fresh_: T)
    ensures Slid(s, 0, fresh_) == s
  {}

  lemma SlidNext<T>(s: seq<T>, n: nat, fresh_: T)
    requires n < |s|
    ensures |Slid(s, n, fresh_)| == |s| && Slid(s, n, fresh_)[1..] + [fresh_] == Slid(s, n + 1, fresh_)
  {}

  /** The packet for the next free slot, if there is one. */
  function Sent(s: Sender, payload: Bytes): (r: (Sender, Option<Bytes>))
    requires |s.slots| == |s.packets|
  {
    var i := FirstIdle(s.slots);
    if i == |s.slots| then (s, None) else
    var packet := payload + [Onward(i, s.stamp) as Byte];
    (s.(slots := s.slots[i := WaitForRes], packets := s.packets[i := Some(packet)]), Some(packet))
  }

  /** After an acknowledgement of d; None when the slot it names does not exist. */
  function Acknowledged(s: Sender, d: int): (r: Option<Sender>)
    requires |s.slots| == |s.packets|
  {
    AcknowledgedAt(s, ConfirmBorder(s.stamp, |s.slots|, d))
  }

  function AcknowledgedAt(s: Sender, index: int): (r: Option<Sender>)
    requires |s.slots| == |s.packets|
  {
    if index == -1 then Some(s)
    else if !(0 <= index < |s.slots|) then None
    else if s.slots[index] != WaitForRes then Some(s) else
    var slots := s.slots[index := End];
    var n := Finished(slots);
    Some(Sender(Onward(s.stamp, n), Slid(slots, n, Idle), Slid(s.packets, n, None)))
  }

  datatype Arrival = Delivered | Ignored | NoSuchSlot

  /** After number d has arrived, and whether its payload is passed on. */
  function Arrived(r: Receiver, d: int): (Receiver, Arrival) {
    var index := ConfirmBorder(r.stamp, |r.slots|, d);
    if index == -1 then (r, Ignored)
    else if !(0 <= index < |r.slots|) then (r, NoSuchSlot)
    else if r.slots[index] == End then (r, Ignored) else
    var slots := r.slots[index := End];
    var n := Finished(slots);
    (Receiver(Onward(r.stamp, n), Slid(slots, n, Idle)), Delivered)
  }

  // ---- the window object -------------------------------------------------------------------------

  class Window {
    var stamp: nat
    var recvStamp: nat
    var recvWindows: seq<Status>
    var windows: seq<Status>
    var windowsTime: seq<int>
    var windowsPacket: seq<Option<Bytes>>
    const timeout: int

    ghost predicate Valid()
      reads this
    {
      && stamp < 128 && recvStamp < 128
      && |windows| == |recvWindows| == |windowsTime| == |windowsPacket|
    }

    function Sending(): Sender
      reads this
    {
      Sender(stamp, windows, windowsPacket)
    }

    function Receiving(): Receiver
      reads this
    {
      Receiver(recvStamp, recvWindows)
    }

    constructor (windowSize: nat, timeout: int)
      requires windowSize < 128
      ensures Valid() && |windows| == windowSize && this.timeout == timeout
      ensures Sending() == Sender(0, seq(windowSize, _ => Idle), seq(windowSize, _ => None))
      ensures Receiving() == Receiver(0, seq(windowSize, _ => Idle))
    {
      this.timeout := timeout;
      stamp, recvStamp := 0, 0;
      windows, recvWindows, windowsTime, windowsPacket := [], [], [], [];
      new;
      var i := 0;
      while i < windowSize
        invariant 0 <= i <= windowSize && stamp == recvStamp == 0
        invariant windows == recvWindows == seq(i, _ => Idle)
        invariant |windowsTime| == i && windowsPacket == seq(i, _ => None)
      {
        windows := windows + [Idle];
        recvWindows := recvWindows + [Idle];
        windowsPacket := windowsPacket + [None];
        windowsTime := windowsTime + [0];
        i := i + 1;
      }
    }

    method HaveIdle() returns (have: bool)
      ensures have == (FirstIdle(windows) < |windows|)
    {
      var windowCount: int := -1;
      var i := 0;
      while i < |windows|
        invariant 0 <= i <= |windows| && windowCount == -1
        invariant forall k :: 0 <= k < i ==> windows[k] != Idle
      {
        if windows[i] == Idle {
          windowCount := Onward(i, stamp);
          break;
        }
        i := i + 1;
      }
      have := windowCount != -1;
    }

    /**
     * pktData: number the payload of length bytes from offset, keep the packet, and give it out for
     * sending. Where the buffer has room the number goes into it, and the packet stays there.
     */
    method PktData(data: array<Byte>, offset: nat, length: nat, now: int) returns (packet: Option<Bytes>)
      requires Valid() && offset + length <= data.Length
      modifies this`windows, this`windowsPacket, this`windowsTime, data
      ensures Valid() && (Sending(), packet) == Sent(old(Sending()), old(data[offset..offset + length]))
      ensures packet == None ==> windowsTime == old(windowsTime) && data[..] == old(data[..])
      ensures packet != None ==> windowsTime == old(windowsTime)[FirstIdle(old(windows)) := now]
      ensures packet != None ==>
        if offset + length < data.Length then
          data[..] == old(data[..])[offset + length := Onward(FirstIdle(old(windows)), stamp) as Byte]
            && packet.value == data[offset..offset + length + 1]
        else data[..] == old(data[..])
    {
      var rawCount := -1;
      var windowCount: int := -1;
      var i := 0;
      while i < |windows|
        invariant 0 <= i <= |windows| && windowCount == rawCount == -1
        invariant forall k :: 0 <= k < i ==> windows[k] != Idle
        invariant Valid() && Sending() == old(Sending()) && windowsTime == old(windowsTime) && data[..] == old(data[..])
      {
        if windows[i] == Idle {
          windowCount := Onward(i, stamp);
          rawCount := i;
          break;
        }
        i := i + 1;
      }
      if windowCount == -1 {
        return None;
      }
      var buffer, start := WithNumber(data, offset, length, windowCount as Byte);
      var dp := buffer[start..start + length + 1];
      windowsPacket := windowsPacket[rawCount := Some(dp)];
      windowsTime := windowsTime[rawCount := now];
      windows := windows[rawCount := WaitForRes];
      packet := Some(dp);
    }

    /** The finished slots at the front, counted. */
    method CountFinished(slots: seq<Status>) returns (counter: nat)
      ensures counter == Finished(slots)
    {
      counter := 0;
      while counter < |slots| && slots[counter] == End
        invariant 0 <= counter <= |slots|
        invariant forall k :: 0 <= k < counter ==> slots[k] == End
      {
        counter := counter + 1;
      }
    }

    /** The finished slots leave the front of the receiving window. */
    method SlideRecv(counter: nat)
      requires counter <= |recvWindows| && recvStamp < 128
      modifies this`recvWindows, this`recvStamp
      ensures recvWindows == Slid(old(recvWindows), counter, Idle) && recvStamp == Onward(old(recvStamp), counter)
    {
      hide Slid, Onward;
      ghost var slots := recvWindows;
      SlidStart(slots, Idle);
      var i := 0;
      while i < counter
        invariant 0 <= i <= counter && recvWindows == Slid(slots, i, Idle)
        invariant recvStamp == old(recvStamp)
      {
        SlidNext(slots, i, Idle);
        recvWindows := recvWindows[1..];
        recvWindows := recvWindows + [Idle];
        i := i + 1;
      }
      if recvStamp + counter >= 128 {
        recvStamp := Onward(recvStamp, counter);
      } else {
        NoWrap(recvStamp, counter);
        recvStamp := recvStamp + counter;
      }
    }

    /** The finished slots leave the front of the sending window, with their times and packets. */
    method SlideSend(counter: nat)
      requires counter <= |windows| == |windowsTime| == |windowsPacket| && stamp < 128
      modifies this`windows, this`windowsPacket, this`windowsTime, this`stamp
      ensures windows == Slid(old(windows), counter, Idle) && windowsPacket == Slid(old(windowsPacket), counter, None)
      ensures windowsTime == Slid(old(windowsTime), counter, 0) && stamp == Onward(old(stamp), counter)
    {
      hide Slid, Onward;
      ghost var slots, packets, times := windows, windowsPacket, windowsTime;
      SlidStart(slots, Idle);
      SlidStart(packets, None);
      SlidStart(times, 0);
      var i := 0;
      while i < counter
        invariant 0 <= i <= counter <= |slots| == |packets| == |times|
        invariant windows == Slid(slots, i, Idle) && windowsPacket == Slid(packets, i, None) && windowsTime == Slid(times, i, 0)
        invariant stamp == old(stamp)
      {
        SlidNext(slots, i, Idle);
        SlidNext(packets, i, None);
        SlidNext(times, i, 0);
        windows := windows[1..];
        windows := windows + [Idle];
        windowsTime := windowsTime[1..];
        windowsTime := windowsTime + [0];
        windowsPacket := windowsPacket[1..];
        windowsPacket := windowsPacket + [None];
        i := i + 1;
      }
      if stamp + counter > 127 {
        stamp := Onward(stamp, counter);
      } else {
        NoWrap(stamp, counter);
        stamp := stamp + counter;
      }
    }

    /** unpktData: acknowledge the number in the last byte, and pass the payload on if it is new. */
    method UnpktData(data: Bytes) returns (arrival: Arrival, payload: Bytes, ack: Byte)
      requires Valid() && |data| > 0
      modifies this`recvWindows, this`recvStamp
      ensures Valid() && ack == data[|data| - 1]
      ensures (Receiving(), arrival) == Arrived(old(Receiving()), ack)
      ensures payload == if arrival == Delivered then data[..|data| - 1] else []
    {
      hide ConfirmBorder, Slid, Finished, Onward;
      ack := data[|data| - 1];
      payload := [];
      var index := ConfirmBorder(recvStamp, |windows|, ack);
      if index == -1 {
        return Ignored, [], ack;
      }
      if !(0 <= index < |recvWindows|) {
        return NoSuchSlot, [], ack; // the list's index exception
      }
      if recvWindows[index] == End {
        return Ignored, [], ack;
      }
      recvWindows := recvWindows[index := End];
      var counter := CountFinished(recvWindows);
      SlideRecv(counter);
      arrival := Delivered;
      payload := data[..|data| - 1];
    }

    /** init: both numbers start again and the sending slots are free; the receiving slots stay as they are. */
    method Init()
      requires Valid()
      modifies this`stamp, this`recvStamp, this`windows
      ensures Valid() && stamp == recvStamp == 0 && windows == seq(|old(windows)|, _ => Idle)
    {
      stamp := 0;
      recvStamp := 0;
      var i := 0;
      while i < |windows|
        invariant 0 <= i <= |windows| == |old(windows)| && stamp == recvStamp == 0
        invariant forall k :: 0 <= k < i ==> windows[k] == Idle
      {
        windows := windows[i := Idle];
        i := i + 1;
      }
    }

    /** recvATK: -1 is the signal to begin again, everything else an acknowledgement; n slots leave the front. */
    method RecvAtk(d: Byte) returns (ok: bool, ghost n: nat)
      requires Valid()
      modifies this`windows, this`windowsPacket, this`windowsTime, this`stamp, this`recvStamp
      ensures Valid()
      ensures d == -1 ==>
        && ok && stamp == recvStamp == 0 && windows == seq(|old(windows)|, _ => Idle)
        && windowsPacket == old(windowsPacket) && windowsTime == old(windowsTime)
      ensures d != -1 ==>
        && ok == (Acknowledged(old(Sending()), d) != None)
        && Sending() == (if ok then Acknowledged(old(Sending()), d).value else old(Sending()))
        && recvStamp == old(recvStamp)
        && n <= |old(windows)| && stamp == Onward(old(stamp), n)
        && windowsPacket == Slid(old(windowsPacket), n, None) && windowsTime == Slid(old(windowsTime), n, 0)
    {
      hide ConfirmBorder, Slid, Finished, Onward;
      ok, n := true, 0;
      if d == -1 {
        Init();
        return;
      }
      SlidStart(windowsTime, 0);
      SlidStart(windowsPacket, None);
      NoWrap(stamp, 0);
      var index := ConfirmBorder(stamp, |windows|, d);
      if index == -1 {
        return;
      }
      if !(0 <= index < |windows|) {
        return false, 0; // the list's index exception
      }
      if windows[index] != WaitForRes {
        return;
      }
      windows := windows[index := End];
      var counter := CountFinished(windows);
      SlideSend(counter);
      n := counter;
    }

    /**
     * update: every packet that has waited too long goes out again, in the order of the slots.
     * tries[i] is what the clock says at slot i before and after the packet is handed to the
     * socket, and whether the socket took it; slots are those whose packets go out.
     */
    method Update(tries: seq<Try>) returns (resent: seq<Bytes>, ghost slots: seq<nat>)
      requires Valid() && |tries| == |windows|
      requires forall i :: 0 <= i < |windows| && windows[i] == WaitForRes ==> windowsPacket[i] != None
      modifies this`windowsTime
      ensures Valid()
      ensures forall i :: 0 <= i < |windows| ==>
        (i in slots <==> windows[i] == WaitForRes && tries[i].before - old(windowsTime)[i] > timeout && tries[i].sent)
      ensures forall k :: 0 <= k < |slots| ==> slots[k] < |windows| && windowsPacket[slots[k]] != None
      ensures forall k, l :: 0 <= k < l < |slots| ==> slots[k] < slots[l]
      ensures |resent| == |slots| && forall k :: 0 <= k < |slots| ==> resent[k] == windowsPacket[slots[k]].value
      ensures forall i :: 0 <= i < |windows| ==> windowsTime[i] == if i in slots then tries[i].after else old(windowsTime)[i]
    {
      resent, slots := [], [];
      var i := 0;
      while i < |windows|
        invariant 0 <= i <= |windows| && Valid()
        invariant forall k :: 0 <= k < i ==>
          (k in slots <==> windows[k] == WaitForRes && tries[k].before - old(windowsTime)[k] > timeout && tries[k].sent)
        invariant forall k :: 0 <= k < |slots| ==> slots[k] < i && windowsPacket[slots[k]] != None
        invariant forall k, l :: 0 <= k < l < |slots| ==> slots[k] < slots[l]
        invariant |resent| == |slots| && forall k :: 0 <= k < |slots| ==> resent[k] == windowsPacket[slots[k]].value
        invariant forall k :: 0 <= k < |windows| ==> windowsTime[k] == if k in slots then tries[k].after else old(windowsTime)[k]
      {
        assert i !in slots;
        if windows[i] == WaitForRes {
          if tries[i].before - windowsTime[i] > timeout {
            if tries[i].sent {
              resent := resent + [windowsPacket[i].value];
              slots := slots + [i];
              windowsTime := windowsTime[i := tries[i].after];
            }
          }
        }
        i := i + 1;
      }
    }
  }

  /** The number behind the bytes of a packet: in the same buffer if it has room, in a copy if not. */
  method WithNumber(data: array<Byte>, offset: nat, length: nat, number: Byte) returns (buffer: array<Byte>, start: nat)
    requires offset + length <= data.Length
    modifies data
    ensures start + length < buffer.Length
    ensures buffer[start..start + length + 1] == old(data[offset..offset + length]) + [number]
    ensures if offset + length < data.Length then
        buffer == data && start == offset && data[..] == old(data[..])[offset + length := number]
      else fresh(buffer) && data[..] == old(data[..])
  {
    if data.Length - length - offset > 0 {
      data[length + offset] := number;
      buffer, start := data, offset;
    } else {
      var dest := new Byte[length + 1](_ => 0);
      var k := 0;
      while k < length
        invariant 0 <= k <= length && dest[..k] == data[offset..offset + k] && data[..] == old(data[..])
      {
        dest[k] := data[offset + k];
        k := k + 1;
      }
      dest[length] := number;
      buffer, start := dest, 0;
      assert buffer[..length + 1] == buffer[..length] + [number];
    }
    assert buffer[start..start + length + 1] == buffer[start..start + length] + [buffer[start + length]];
  }

  /** The clock before and after a packet is handed to the socket, and whether it was sent. */
  datatype Try = Try(before: int, after: int, sent: bool)
}
