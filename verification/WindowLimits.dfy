/** Runs without a bound on the age of packets: exactly what breaks the promises, and that it happens. */
module WindowLimits {
  import opened Windows
  import opened WindowRuns

  /** What can happen on a network that may hold packets back for any time. */
  ghost predicate Occurs(w: World, e: Event) {
    match e
    case Send(payload) => true
    case Resend(slot) => slot < |w.s.slots| && w.s.slots[slot] == WaitForRes
    case DataArrives(a, packet) => (a, packet) in w.data
    case AckArrives(a) => a in w.acks
  }

  /** a is behind base by so much that its number is that of slot k. */
  ghost predicate Mistaken(base: nat, a: nat, size: nat) {
    a < base && Ahead(base, a) < size
  }

  /**
   * The events that do harm. An old packet is taken for the one of a slot that is not taken yet;
   * an old acknowledgement is taken for that of a packet that waits and has not arrived. A window
   * that fails does no harm to what was promised; see Stops.
   */
  ghost predicate Breaks(w: World, e: Event) {
    match e
    case DataArrives(a, packet) => Mistaken(w.rbase, a, |w.r.slots|) && w.r.slots[Ahead(w.rbase, a)] != End
    case AckArrives(a) =>
      && Mistaken(w.base, a, |w.s.slots|) && w.s.slots[Ahead(w.base, a)] == WaitForRes
      && !Got(w.r, w.rbase, w.base + Ahead(w.base, a))
    case _ => false
  }

  // ---- what a window answers to any age ----------------------------------------------------------

  lemma AheadOfRemainders(base: nat, a: nat)
    ensures Ahead(base % 128, a % 128) == Ahead(base, a)
  {
    assert a - base == (a % 128 - base % 128) + 128 * (a / 128 - base / 128);
    RoundTurns(a % 128 - base % 128, a / 128 - base / 128);
  }

  lemma RoundTurns(x: int, n: int)
    ensures (x + 128 * n) % 128 == x % 128
  {}

  /** In range a number is ahead by its distance; behind, by what is missing to 128. */
  lemma AheadNear(base: nat, a: nat)
    ensures 0 <= Ahead(base, a) < 128
    ensures base <= a < base + 128 ==> Ahead(base, a) == a - base
    ensures a < base <= a + 128 ==> Ahead(base, a) == (128 - (base - a)) % 128
  {}

  lemma LastNumber(w: World, a: nat, packet: Bytes)
    requires DataOk(w.data, w.payloads) && (a, packet) in w.data
    ensures a < |w.payloads| && Last(packet) == a % 128 && Body(packet) == w.payloads[a]
  {
    assert packet == Numbered(w.payloads, a);
  }

  /** The receiver's answer to a packet of any age. */
  lemma DataOutcome(w: World, a: nat, packet: Bytes, size: nat)
    requires Ok(w, size) && Occurs(w, DataArrives(a, packet))
    ensures |w.r.slots| == size
    ensures var k := Ahead(w.rbase, a);
      Arrived(w.r, Last(packet)).1 ==
        if k < size then (if w.r.slots[k] == End then Ignored else Delivered)
        else if k == size && w.r.stamp + size > 127 then NoSuchSlot
        else Ignored
  {
    LastNumber(w, a, packet);
    AheadOfRemainders(w.rbase, a);
    ConfirmBorderExact(w.r.stamp, size, a % 128);
    hide ConfirmBorder, Finished, Slid, Ahead, Last, Body, Numbered;
  }

  /** The slot the sender takes an acknowledgement of any age for. */
  lemma AckOutcome(w: World, a: nat, size: nat)
    requires SenderOk(w.s, w.base, w.payloads, size) && size <= 127
    ensures |w.s.slots| == |w.s.packets| == size
    ensures var k := Ahead(w.base, a);
      ConfirmBorder(w.s.stamp, size, a % 128) ==
        if k < size then k else if k == size && w.s.stamp + size > 127 then size else -1
  {
    AheadOfRemainders(w.base, a);
    ConfirmBorderExact(w.s.stamp, size, a % 128);
    hide ConfirmBorder, Ahead;
  }

  // ---- packets -----------------------------------------------------------------------------------

  /** A packet that has arrived before and is not taken for new is only acknowledged again. */
  lemma OldDataKept(w: World, a: nat, packet: Bytes, size: nat)
    requires Ok(w, size) && Occurs(w, DataArrives(a, packet)) && Got(w.r, w.rbase, a)
    requires Arrived(w.r, Last(packet)).1 != Delivered
    ensures Ok(Step(w, DataArrives(a, packet)), size)
  {
    hide ConfirmBorder, Finished, Slid, Numbered, Last, Ahead, DeliveredOk, DataOk, Body, SenderOk, ReceiverOk, AckedArrived;
    SameWindow(w.r, Last(packet));
    SameStamp(w.r.stamp);
    SenderLengths(w, size);
  }

  lemma SenderLengths(w: World, size: nat)
    requires SenderOk(w.s, w.base, w.payloads, size)
    ensures |w.s.slots| == |w.s.packets| == size
  {}

  lemma SameWindow(r: Receiver, d: int)
    requires Arrived(r, d).1 != Delivered
    ensures Arrived(r, d).0 == r
  {
    hide ConfirmBorder, Finished, Slid;
  }

  /** A packet that has arrived before and is delivered again breaks the promises. */
  lemma DeliveredTwice(w: World, a: nat, packet: Bytes, size: nat)
    requires Ok(w, size) && Occurs(w, DataArrives(a, packet)) && Got(w.r, w.rbase, a)
    requires Arrived(w.r, Last(packet)).1 == Delivered
    ensures var w' := Step(w, DataArrives(a, packet));
      && w'.delivered == w.delivered + [(a, w.payloads[a])]
      && (exists k :: 0 <= k < |w.delivered| && w.delivered[k] == (a, w.payloads[a]))
      && !Promised(w', size) && !Ok(w', size)
  {
    LastNumber(w, a, packet);
    SenderLengths(w, size);
    hide ConfirmBorder, Finished, Slid, Numbered, Last, Ahead, DataOk, Body, SenderOk, ReceiverOk, AckedArrived, AcksOk;
    assert IsDelivered(w.delivered, a);
    var k :| 0 <= k < |w.delivered| && w.delivered[k].0 == a;
    var w' := Step(w, DataArrives(a, packet));
    assert w'.delivered == w.delivered + [(a, w.payloads[a])];
    assert w'.delivered[k].0 == w'.delivered[|w.delivered|].0;
  }

  /** A packet keeps the invariant, and the promises, exactly if it is not mistaken for a new one. */
  lemma DataKeepsExactly(w: World, a: nat, packet: Bytes, size: nat)
    requires Ok(w, size) && Occurs(w, DataArrives(a, packet))
    ensures |w.s.slots| == |w.r.slots| == size
    ensures Ok(Step(w, DataArrives(a, packet)), size) <==> !Breaks(w, DataArrives(a, packet))
    ensures Promised(Step(w, DataArrives(a, packet)), size) <==> !Breaks(w, DataArrives(a, packet))
  {
    DataOutcome(w, a, packet, size);
    SenderLengths(w, size);
    InWindow(w, a, packet, size);
    hide Ok, Promised, Step, Arrived, Ahead, Last;
    var w' := Step(w, DataArrives(a, packet));
    if a >= w.rbase {
      StepOk(w, DataArrives(a, packet), size);
      OkIsPromised(w', size);
    } else if Breaks(w, DataArrives(a, packet)) {
      DeliveredTwice(w, a, packet, size);
    } else {
      OldDataKept(w, a, packet, size);
      OkIsPromised(w', size);
    }
  }

  /** A packet that is not behind the base meets the age bound. */
  lemma InWindow(w: World, a: nat, packet: Bytes, size: nat)
    requires Ok(w, size) && Occurs(w, DataArrives(a, packet))
    ensures a >= w.rbase ==> Possible(w, DataArrives(a, packet), size)
    ensures a < w.rbase ==> Got(w.r, w.rbase, a)
  {}

  // ---- acknowledgements --------------------------------------------------------------------------

  /** An acknowledgement that is taken for that of slot k, which waits. */
  lemma AckTakenFor(w: World, a: nat, k: nat, size: nat)
    requires SenderOk(w.s, w.base, w.payloads, size) && size <= 127 && k < size && k == Ahead(w.base, a)
    requires |w.s.slots| == |w.s.packets| == size && w.s.slots[k] == WaitForRes
    ensures var (s, base) := Released(w.s, w.base, w.base + k); Step(w, AckArrives(a)) == w.(s := s, base := base)
    ensures w.base + k < |w.payloads|
  {
    hide ConfirmBorder, Ahead, Released, AcknowledgedAt, SenderOk, Step;
    AckOutcome(w, a, size);
    SlotIsSent(w, k, size);
    AcknowledgedReleased(w.s, w.base, k);
    StepOfAck(w, a, k, Released(w.s, w.base, w.base + k).0);
  }

  lemma StepOfAck(w: World, a: nat, k: nat, s': Sender)
    requires |w.s.slots| == |w.s.packets| && ConfirmBorder(w.s.stamp, |w.s.slots|, a % 128) == k
    requires AcknowledgedAt(w.s, k) == Some(s')
    ensures Step(w, AckArrives(a)) == w.(s := s', base := w.base + Ahead(w.s.stamp, s'.stamp))
  {
    hide ConfirmBorder, Ahead, AcknowledgedAt, Sent, Arrived;
  }

  lemma AcknowledgedReleased(s: Sender, base: nat, k: nat)
    requires k < |s.slots| == |s.packets| < 128 && s.slots[k] == WaitForRes && s.stamp == base % 128
    ensures var (s', base') := Released(s, base, base + k);
      AcknowledgedAt(s, k) == Some(s') && base + Ahead(s.stamp, s'.stamp) == base'
  {
    var n := Finished(s.slots[k := End]);
    OnwardBase(base, n);
    hide Finished, Slid, Ahead, Onward;
  }

  lemma SlotIsSent(w: World, k: nat, size: nat)
    requires SenderOk(w.s, w.base, w.payloads, size) && size <= 127 && k < size == |w.s.slots| && w.s.slots[k] == WaitForRes
    ensures w.base + k < |w.payloads| && w.s.stamp == w.base % 128 && size < 128
  {
    hide Numbered, DeliveredOk, DataOk, AcksOk, AckedArrived, ReceiverOk;
    assert w.s.slots[k] != Idle;
  }

  /** One that is taken for no waiting slot changes nothing. */
  lemma AckIgnored(w: World, a: nat, size: nat)
    requires SenderOk(w.s, w.base, w.payloads, size) && size <= 127 && |w.s.slots| == |w.s.packets| == size
    requires Ahead(w.base, a) < size ==> w.s.slots[Ahead(w.base, a)] != WaitForRes
    ensures Step(w, AckArrives(a)) == w
  {
    AckOutcome(w, a, size);
    hide ConfirmBorder, Ahead, SenderOk, Slid, Finished;
    SameStamp(w.s.stamp);
  }

  /** The packet of the slot has arrived: the acknowledgement does what its own would have done. */
  lemma AckKept(w: World, a: nat, k: nat, size: nat)
    requires Ok(w, size) && k < size && k == Ahead(w.base, a)
    requires |w.s.slots| == |w.s.packets| == size && w.s.slots[k] == WaitForRes && Got(w.r, w.rbase, w.base + k)
    ensures Ok(Step(w, AckArrives(a)), size)
  {
    AckTakenFor(w, a, k, size);
    hide Step, Got, Released, ReceiverOk, DeliveredOk, SenderOk, DataOk, AcksOk, AckedArrived, ConfirmBorder, Ahead;
    ReleasedOk(w, k, size);
  }

  lemma ReleasedOk(w: World, k: nat, size: nat)
    requires Ok(w, size) && k < size == |w.s.slots| == |w.s.packets| && w.s.slots[k] == WaitForRes && Got(w.r, w.rbase, w.base + k)
    ensures var (s, base) := Released(w.s, w.base, w.base + k); Ok(w.(s := s, base := base), size)
  {
    hide Got, Released, ReceiverOk, DeliveredOk, SenderOk, DataOk, AcksOk, AckedArrived;
    ReleasedSender(w.s, w.base, w.payloads, size, w.base + k);
    ReleasedArrived(w.s, w.base, w.r, w.rbase, |w.payloads|, size, w.base + k);
  }

  /** It has not: the sender lets go of a packet that was never delivered. */
  lemma AckLoses(w: World, a: nat, k: nat, size: nat)
    requires Ok(w, size) && k < size && k == Ahead(w.base, a)
    requires |w.s.slots| == |w.s.packets| == size && w.s.slots[k] == WaitForRes && !Got(w.r, w.rbase, w.base + k)
    ensures var w' := Step(w, AckArrives(a));
      && w'.delivered == w.delivered && !DeliveredWhole(w', w.base + k)
      && (w.base + k < w'.base || (w.base + k - w'.base < |w'.s.slots| && w'.s.slots[w.base + k - w'.base] == End))
      && !Promised(w', size) && !Ok(w', size)
  {
    hide Step, Ahead, Got, Ok, Released, DeliveredWhole, Promised, SenderOk;
    Lengths(w, size);
    AckTakenFor(w, a, k, size);
    NotDelivered(w, w.base + k, size);
    ReleasedHolds(w.s, w.base, k);
    var w' := Step(w, AckArrives(a));
    NotDeliveredIn(w, w', w.base + k);
    NotPromised(w', w.base + k, size);
  }

  lemma NotDeliveredIn(w: World, w': World, a: nat)
    requires !DeliveredWhole(w, a) && w'.delivered == w.delivered && w'.payloads == w.payloads
    ensures !DeliveredWhole(w', a)
  {}

  /** What is acknowledged leaves the window or is kept in it as acknowledged. */
  lemma ReleasedHolds(s: Sender, base: nat, k: nat)
    requires k < |s.slots| == |s.packets|
    ensures var (s', base') := Released(s, base, base + k);
      base + k < base' || (base + k - base' < |s'.slots| && s'.slots[base + k - base'] == End)
  {
    hide Finished, Slid;
  }

  lemma NotPromised(w: World, a: nat, size: nat)
    requires !DeliveredWhole(w, a)
    requires a < w.base || (a - w.base < |w.s.slots| && w.s.slots[a - w.base] == End)
    ensures !Promised(w, size) && !Ok(w, size)
  {
    hide Ok, DeliveredWhole, HoldsItsPacket;
    assert a < w.base || w.base + (a - w.base) == a;
    if Ok(w, size) { OkIsPromised(w, size); }
  }

  lemma NotDelivered(w: World, a: nat, size: nat)
    requires Ok(w, size) && !Got(w.r, w.rbase, a)
    ensures !DeliveredWhole(w, a)
  {
    hide Got;
    forall k | 0 <= k < |w.delivered| ensures w.delivered[k].0 != a {
      assert Got(w.r, w.rbase, w.delivered[k].0);
    }
  }

  /** An acknowledgement keeps the invariant, and the promises, exactly if it is not mistaken for a missing one. */
  lemma AckKeepsExactly(w: World, a: nat, size: nat)
    requires Ok(w, size) && Occurs(w, AckArrives(a))
    ensures |w.s.slots| == |w.r.slots| == size
    ensures Ok(Step(w, AckArrives(a)), size) <==> !Breaks(w, AckArrives(a))
    ensures Promised(Step(w, AckArrives(a)), size) <==> !Breaks(w, AckArrives(a))
  {
    hide Ok, Promised, Step, Ahead, Got, Occurs, DeliveredWhole, Released;
    var k := Ahead(w.base, a);
    Lengths(w, size);
    AckInWindow(w, a, size);
    if k < size && w.s.slots[k] == WaitForRes {
      assert a >= w.base ==> w.base + k == a;
      if Got(w.r, w.rbase, w.base + k) {
        AckKept(w, a, k, size);
        OkIsPromised(Step(w, AckArrives(a)), size);
      } else {
        AckLoses(w, a, k, size);
      }
    } else {
      AckIgnored(w, a, size);
      OkIsPromised(w, size);
    }
  }

  lemma Lengths(w: World, size: nat)
    requires Ok(w, size)
    ensures |w.s.slots| == |w.s.packets| == |w.r.slots| == size <= 127
    ensures SenderOk(w.s, w.base, w.payloads, size)
  {}

  /** What is acknowledged has arrived, and what is not behind the base is in its own slot. */
  lemma AckInWindow(w: World, a: nat, size: nat)
    requires Ok(w, size) && Occurs(w, AckArrives(a))
    ensures Got(w.r, w.rbase, a) && 0 <= Ahead(w.base, a)
    ensures a >= w.base ==> Ahead(w.base, a) == a - w.base
  {
    AheadNear(w.base, a);
    hide Ahead, Numbered;
  }

  // ---- runs --------------------------------------------------------------------------------------

  /** A packet of any age keeps the promises exactly if it does not break them: one event. */
  lemma StepKeepsExactly(w: World, e: Event, size: nat)
    requires Ok(w, size) && Occurs(w, e)
    ensures Ok(Step(w, e), size) <==> !Breaks(w, e)
    ensures Promised(Step(w, e), size) <==> !Breaks(w, e)
  {
    hide Ok, Promised, Step, Ahead, Got, Mistaken;
    match e
    case Send(payload) =>
      StepOk(w, e, size);
      OkIsPromised(Step(w, e), size);
    case Resend(slot) =>
      StepOk(w, e, size);
      OkIsPromised(Step(w, e), size);
    case DataArrives(a, packet) => DataKeepsExactly(w, a, packet, size);
    case AckArrives(a) => AckKeepsExactly(w, a, size);
  }

  ghost predicate OccursRun(w: World, events: seq<Event>)
    decreases |events|
  {
    events == [] || (Occurs(w, events[0]) && OccursRun(Step(w, events[0]), events[1..]))
  }

  /** No event of the run does harm. */
  ghost predicate Harmless(w: World, events: seq<Event>)
    decreases |events|
  {
    events == [] || (!Breaks(w, events[0]) && Harmless(Step(w, events[0]), events[1..]))
  }

  /** The promises hold at every point of the run. */
  ghost predicate AlwaysPromised(w: World, events: seq<Event>, size: nat)
    decreases |events|
  {
    Promised(w, size) && (events == [] || AlwaysPromised(Step(w, events[0]), events[1..], size))
  }

  lemma {:induction false} RunKeepsExactly(w: World, events: seq<Event>, size: nat)
    requires Ok(w, size) && OccursRun(w, events)
    ensures AlwaysPromised(w, events, size) <==> Harmless(w, events)
    decreases |events|
  {
    hide Ok, Promised, Step, Breaks, Occurs;
    OkIsPromised(w, size);
    if events != [] {
      StepKeepsExactly(w, events[0], size);
      if !Breaks(w, events[0]) { RunKeepsExactly(Step(w, events[0]), events[1..], size); }
    }
  }

  /** Packets may be lost, repeated, reordered and held back for any time: exactly the harmful events break the promises. */
  lemma PromisesKeptExactly(events: seq<Event>, size: nat)
    requires 1 <= size <= 127 && OccursRun(Start(size), events)
    ensures AlwaysPromised(Start(size), events, size) <==> Harmless(Start(size), events)
  {
    hide Ok, AlwaysPromised, Harmless, OccursRun;
    StartOk(size);
    RunKeepsExactly(Start(size), events, size);
  }

  /** Within the age bound nothing is harmful. */
  lemma PossibleIsHarmless(w: World, e: Event, size: nat)
    requires Ok(w, size) && Possible(w, e, size)
    ensures Occurs(w, e) && !Breaks(w, e)
  {
    hide Ok, Got, Ahead;
    Lengths(w, size);
    match e
    case Send(payload) =>
    case Resend(slot) =>
    case DataArrives(a, packet) => AheadNear(w.rbase, a);
    case AckArrives(a) => AheadNear(w.base, a);
  }

  // ---- windows that fail -------------------------------------------------------------------------

  /** The event makes a window index a slot that does not exist; nothing catches that, and its thread ends. */
  ghost predicate Fails(w: World, e: Event) {
    match e
    case DataArrives(a, packet) => Arrived(w.r, Last(packet)).1 == NoSuchSlot
    case AckArrives(a) => |w.s.slots| == |w.s.packets| && Acknowledged(w.s, a % 128) == None
    case _ => false
  }

  /** a is right behind a window that reaches 128. */
  ghost predicate RightBehind(base: nat, a: nat, size: nat) {
    Ahead(base, a) == size && base % 128 + size > 127
  }

  /** The events that make a window fail, by their numbers. */
  ghost predicate Stops(w: World, e: Event) {
    match e
    case DataArrives(a, packet) => RightBehind(w.rbase, a, |w.r.slots|)
    case AckArrives(a) => RightBehind(w.base, a, |w.s.slots|)
    case _ => false
  }

  lemma FailsExactly(w: World, e: Event, size: nat)
    requires Ok(w, size) && Occurs(w, e)
    ensures Fails(w, e) <==> Stops(w, e)
  {
    hide Ok, Arrived, Ahead, Last, ConfirmBorder, SenderOk;
    Lengths(w, size);
    match e
    case Send(payload) =>
    case Resend(slot) =>
    case DataArrives(a, packet) =>
      StampsAre(w, size);
      DataOutcome(w, a, packet, size);
    case AckArrives(a) =>
      StampsAre(w, size);
      AckOutcome(w, a, size);
      AheadNear(w.base, a);
  }

  lemma StampsAre(w: World, size: nat)
    requires Ok(w, size)
    ensures w.r.stamp == w.rbase % 128 && w.s.stamp == w.base % 128
  {}

  /** Within the age bound no window fails. */
  lemma PossibleNeverStops(w: World, e: Event, size: nat)
    requires Ok(w, size) && Possible(w, e, size)
    ensures !Stops(w, e)
  {
    Lengths(w, size);
    match e
    case Send(payload) =>
    case Resend(slot) =>
    case DataArrives(a, packet) =>
      AheadNear(w.rbase, a);
      DataIndex(w, a, packet, size);
    case AckArrives(a) =>
      AheadNear(w.base, a);
      AckIndex(w, a, size);
  }

  /** The promises hold at every point of the run, and no window fails. */
  ghost predicate AlwaysRunning(w: World, events: seq<Event>, size: nat)
    decreases |events|
  {
    Promised(w, size) && (events == [] || (!Fails(w, events[0]) && AlwaysRunning(Step(w, events[0]), events[1..], size)))
  }

  ghost predicate Gentle(w: World, events: seq<Event>)
    decreases |events|
  {
    events == [] || (!Breaks(w, events[0]) && !Stops(w, events[0]) && Gentle(Step(w, events[0]), events[1..]))
  }

  lemma {:induction false} RunsOnExactly(w: World, events: seq<Event>, size: nat)
    requires Ok(w, size) && OccursRun(w, events)
    ensures AlwaysRunning(w, events, size) <==> Gentle(w, events)
    decreases |events|
  {
    hide Ok, Promised, Step, Breaks, Stops, Fails, Occurs;
    OkIsPromised(w, size);
    if events != [] {
      StepKeepsExactly(w, events[0], size);
      FailsExactly(w, events[0], size);
      if !Breaks(w, events[0]) { RunsOnExactly(Step(w, events[0]), events[1..], size); }
    }
  }

  /** Both windows keep running and keep the promises if and only if no event is harmful or right behind a window that reaches 128. */
  lemma RunningExactly(events: seq<Event>, size: nat)
    requires 1 <= size <= 127 && OccursRun(Start(size), events)
    ensures AlwaysRunning(Start(size), events, size) <==> Gentle(Start(size), events)
  {
    hide Ok, AlwaysRunning, Gentle, OccursRun;
    StartOk(size);
    RunsOnExactly(Start(size), events, size);
  }

  // ---- runs that get there -----------------------------------------------------------------------

  function Packet(payload: Bytes, a: nat): Bytes { payload + [a % 128] }

  /** Packet a is sent, arrives, and is acknowledged. */
  function Round(payload: Bytes, a: nat): seq<Event> {
    [Send(payload), DataArrives(a, Packet(payload, a)), AckArrives(a)]
  }

  function Rounds(payload: Bytes, n: nat): seq<Event> {
    if n == 0 then [] else Rounds(payload, n - 1) + Round(payload, n - 1)
  }

  /** n packets were sent, and all were acknowledged; the network still holds copies of everything. */
  ghost predicate Quiet(w: World, payload: Bytes, n: nat, size: nat) {
    && Ok(w, size) && w.base == w.rbase == |w.payloads| == n
    && forall a: nat :: a < n ==> (a, Packet(payload, a)) in w.data && a in w.acks
  }

  lemma QuietSend(w: World, payload: Bytes, n: nat, size: nat)
    requires Quiet(w, payload, n, size)
    ensures Possible(w, Send(payload), size)
    ensures Step(w, Send(payload)) == w.(s := Step(w, Send(payload)).s, payloads := w.payloads + [payload],
                                         data := w.data + {(n, Packet(payload, n))})
    ensures var w' := Step(w, Send(payload)); Ok(w', size) && |w'.s.slots| == size && w'.s.slots[0] == WaitForRes
    ensures var w' := Step(w, Send(payload)); forall i :: 0 < i < size ==> w'.s.slots[i] == Idle
  {
    SendSender(w.s, w.base, w.payloads, size, payload);
    StepOk(w, Send(payload), size);
    hide Sent, Got, DataOk, DeliveredOk, AcksOk;
  }

  /** One finished slot in front of free ones. */
  lemma OneFinished(slots: seq<Status>)
    requires |slots| > 0 && slots[0] == End && (|slots| > 1 ==> slots[1] != End)
    ensures Finished(slots) == 1
  {}

  lemma QuietData(w: World, payload: Bytes, n: nat, size: nat)
    requires Ok(w, size) && w.base == w.rbase == n && |w.payloads| == n + 1 && (n, Packet(payload, n)) in w.data
    ensures Possible(w, DataArrives(n, Packet(payload, n)), size)
    ensures var w' := Step(w, DataArrives(n, Packet(payload, n)));
      && w' == w.(r := w'.r, rbase := n + 1, acks := w.acks + {n}, delivered := w.delivered + [(n, w.payloads[n])])
      && Ok(w', size)
  {
    var e := DataArrives(n, Packet(payload, n));
    NewDataStep(w, n, Packet(payload, n), size);
    StepOk(w, e, size);
    assert size > 1 ==> !Got(w.r, w.rbase, n + 1);
    OneFinished(w.r.slots[0 := End]);
    hide Finished, Slid, DeliveredOk, DataOk, Step, Ok;
  }

  lemma QuietAck(w: World, n: nat, size: nat)
    requires Ok(w, size) && w.base == n && |w.payloads| == n + 1 && n in w.acks && w.s.slots[0] == WaitForRes
    ensures Possible(w, AckArrives(n), size)
    ensures var w' := Step(w, AckArrives(n)); w' == w.(s := w'.s, base := n + 1) && Ok(w', size)
  {
    Lengths(w, size);
    NewAckStep(w, n, size);
    StepOk(w, AckArrives(n), size);
    assert size > 1 ==> w.s.slots[1] == Idle;
    OneFinished(w.s.slots[0 := End]);
    hide Finished, Slid, DeliveredOk, DataOk, Step, Ok;
  }

  ghost function After(w: World, events: seq<Event>): World
    decreases |events|
  {
    if events == [] then w else After(Step(w, events[0]), events[1..])
  }

  lemma {:induction false} RunAfter(w: World, events: seq<Event>, size: nat)
    requires PossibleRun(w, events, size)
    ensures Run(w, events, size) == After(w, events)
    decreases |events|
  {
    hide Possible, Step;
    if events != [] { RunAfter(Step(w, events[0]), events[1..], size); }
  }

  lemma {:induction false} PossibleAppend(w: World, one: seq<Event>, two: seq<Event>, size: nat)
    requires PossibleRun(w, one, size) && PossibleRun(After(w, one), two, size)
    ensures PossibleRun(w, one + two, size) && After(w, one + two) == After(After(w, one), two)
    decreases |one|
  {
    hide Possible, Step;
    if one == [] {
      assert one + two == two;
    } else {
      PossibleAppend(Step(w, one[0]), one[1..], two, size);
      assert (one + two)[1..] == one[1..] + two;
    }
  }

  lemma ThreeEvents(w: World, d: Event, e: Event, f: Event, size: nat)
    requires Possible(w, d, size) && Possible(Step(w, d), e, size) && Possible(Step(Step(w, d), e), f, size)
    ensures PossibleRun(w, [d, e, f], size) && After(w, [d, e, f]) == Step(Step(Step(w, d), e), f)
  {
    hide Possible, Step;
    assert [d, e, f][1..] == [e, f] && [e, f][1..] == [f] && [f][1..] == [];
    Empty(Step(Step(Step(w, d), e), f), size);
    assert PossibleRun(Step(Step(w, d), e), [f], size) && After(Step(Step(w, d), e), [f]) == Step(Step(Step(w, d), e), f);
    assert PossibleRun(Step(w, d), [e, f], size) && After(Step(w, d), [e, f]) == Step(Step(Step(w, d), e), f);
  }

  lemma QuietRound(w: World, payload: Bytes, n: nat, size: nat)
    requires Quiet(w, payload, n, size)
    ensures PossibleRun(w, Round(payload, n), size) && Quiet(After(w, Round(payload, n)), payload, n + 1, size)
  {
    var d, e, f := Send(payload), DataArrives(n, Packet(payload, n)), AckArrives(n);
    QuietSend(w, payload, n, size);
    hide Ok, Possible, Step, PossibleRun, After;
    var w1 := Step(w, d);
    QuietData(w1, payload, n, size);
    var w2 := Step(w1, e);
    QuietAck(w2, n, size);
    ThreeEvents(w, d, e, f, size);
  }

  /** Any number of rounds is a run that keeps the age bound. */
  lemma {:induction false} QuietRounds(payload: Bytes, n: nat, size: nat)
    requires 1 <= size <= 127
    ensures PossibleRun(Start(size), Rounds(payload, n), size)
    ensures Quiet(After(Start(size), Rounds(payload, n)), payload, n, size)
  {
    hide Ok, PossibleRun, After, Round;
    if n == 0 {
      StartOk(size);
      Empty(Start(size), size);
    } else {
      QuietRounds(payload, n - 1, size);
      QuietRound(After(Start(size), Rounds(payload, n - 1)), payload, n - 1, size);
      PossibleAppend(Start(size), Rounds(payload, n - 1), Round(payload, n - 1), size);
    }
  }

  lemma Empty(w: World, size: nat)
    ensures PossibleRun(w, [], size) && After(w, []) == w
  {}

  lemma QuietSlots(w: World, payload: Bytes, n: nat, size: nat)
    requires Quiet(w, payload, n, size)
    ensures |w.r.slots| == |w.s.slots| == size && w.r.stamp == w.s.stamp == n % 128
    ensures forall i :: 0 <= i < size ==> w.r.slots[i] != End && w.s.slots[i] == Idle
  {
    forall i: nat | i < size ensures w.r.slots[i] != End {
      assert !Got(w.r, w.rbase, n + i);
    }
    hide Got, DataOk, DeliveredOk, AcksOk;
  }

  /** After 128 rounds the first packet, still on the network, is delivered a second time. */
  lemma FirstPacketAgain(payload: Bytes, size: nat)
    requires 1 <= size <= 127
    ensures PossibleRun(Start(size), Rounds(payload, 128), size)
    ensures var w := Run(Start(size), Rounds(payload, 128), size);
      var e := DataArrives(0, Packet(payload, 0));
      && Occurs(w, e) && Breaks(w, e)
      && (exists k :: 0 <= k < |w.delivered| && w.delivered[k] == (0, payload))
      && Step(w, e).delivered == w.delivered + [(0, payload)]
      && !Promised(Step(w, e), size)
  {
    QuietRounds(payload, 128, size);
    RunAfter(Start(size), Rounds(payload, 128), size);
    var w := After(Start(size), Rounds(payload, 128));
    hide PossibleRun, Run, After, Rounds, Start;
    FirstPacketMistaken(w, payload, size);
  }

  lemma FirstPacketMistaken(w: World, payload: Bytes, size: nat)
    requires Quiet(w, payload, 128, size)
    ensures var e := DataArrives(0, Packet(payload, 0));
      && Occurs(w, e) && Breaks(w, e)
      && (exists k :: 0 <= k < |w.delivered| && w.delivered[k] == (0, payload))
      && Step(w, e).delivered == w.delivered + [(0, payload)]
      && !Promised(Step(w, e), size)
  {
    var packet := Packet(payload, 0);
    QuietSlots(w, payload, 128, size);
    FirstPayload(w, payload);
    DataOutcome(w, 0, packet, size);
    AheadNear(128, 0);
    hide Ok, Promised, Step, Arrived, DataOk, DeliveredOk, AcksOk;
    DeliveredTwice(w, 0, packet, size);
  }

  lemma FirstPayload(w: World, payload: Bytes)
    requires DataOk(w.data, w.payloads) && (0, Packet(payload, 0)) in w.data
    ensures |w.payloads| > 0 && w.payloads[0] == payload
  {
    assert Packet(payload, 0) == Numbered(w.payloads, 0);
    assert Packet(payload, 0)[..|payload|] == payload;
  }

  /** After 128 rounds and one more payload, the first acknowledgement releases a packet that never arrived. */
  lemma FirstAckAgain(payload: Bytes, size: nat)
    requires 1 <= size <= 127
    ensures PossibleRun(Start(size), Rounds(payload, 128) + [Send(payload)], size)
    ensures var w := Run(Start(size), Rounds(payload, 128) + [Send(payload)], size);
      && Occurs(w, AckArrives(0)) && Breaks(w, AckArrives(0))
      && w.base == 128 && Step(w, AckArrives(0)).base == 129
      && !DeliveredWhole(Step(w, AckArrives(0)), 128) && !Promised(Step(w, AckArrives(0)), size)
  {
    var events := Rounds(payload, 128);
    QuietRounds(payload, 128, size);
    var w := After(Start(size), events);
    QuietSend(w, payload, 128, size);
    assert [Send(payload)][1..] == [];
    Empty(Step(w, Send(payload)), size);
    assert PossibleRun(w, [Send(payload)], size) && After(w, [Send(payload)]) == Step(w, Send(payload));
    PossibleAppend(Start(size), events, [Send(payload)], size);
    RunAfter(Start(size), events + [Send(payload)], size);
    hide PossibleRun, Run, After, Rounds, Start, Step;
    QuietSlots(w, payload, 128, size);
    FirstAckMistaken(Step(w, Send(payload)), size);
  }

  lemma FirstAckMistaken(w: World, size: nat)
    requires Ok(w, size) && w.base == w.rbase == 128 && |w.payloads| == 129 && 0 in w.acks
    requires |w.s.slots| == size && w.s.slots[0] == WaitForRes && !Got(w.r, w.rbase, 128)
    requires forall i :: 0 < i < size ==> w.s.slots[i] == Idle
    ensures var w' := Step(w, AckArrives(0));
      Occurs(w, AckArrives(0)) && Breaks(w, AckArrives(0)) && w'.base == 129 && !DeliveredWhole(w', 128) && !Promised(w', size)
  {
    AheadNear(128, 0);
    Lengths(w, size);
    AckTakenFor(w, 0, 0, size);
    OneFinished(w.s.slots[0 := End]);
    hide Ok, Promised, Step, Got, DeliveredWhole, Finished, Slid;
    AckLoses(w, 0, 0, size);
  }

  lemma NoSlotBehind(w: World, payload: Bytes, n: nat, size: nat)
    requires Quiet(w, payload, n, size) && n + size == 128 && 1 <= size && n > 0
    ensures Occurs(w, DataArrives(0, Packet(payload, 0))) && Arrived(w.r, Last(Packet(payload, 0))).1 == NoSuchSlot
  {
    QuietSlots(w, payload, n, size);
    hide Ok, Arrived, Last, Ahead;
    AheadNear(n, 0);
    DataOutcome(w, 0, Packet(payload, 0), size);
  }

  /** After 128 - size rounds, with all slots free, the first packet stops the receiver: its slot does not exist. */
  lemma FirstPacketHasNoSlot(payload: Bytes, size: nat)
    requires 1 <= size <= 127
    ensures PossibleRun(Start(size), Rounds(payload, 128 - size), size)
    ensures var w := Run(Start(size), Rounds(payload, 128 - size), size);
      Occurs(w, DataArrives(0, Packet(payload, 0))) && Arrived(w.r, Last(Packet(payload, 0))).1 == NoSuchSlot
  {
    var n := 128 - size;
    QuietRounds(payload, n, size);
    RunAfter(Start(size), Rounds(payload, n), size);
    var w := After(Start(size), Rounds(payload, n));
    hide PossibleRun, Run, After, Rounds, Start, Arrived, Last, Occurs, Quiet;
    NoSlotBehind(w, payload, n, size);
  }

  // ---- how large a window may be -----------------------------------------------------------------

  /** With at most 64 slots a packet that is sent again is never taken for a new one. */
  lemma ResentIsKnown(w: World, slot: nat, size: nat)
    requires Ok(w, size) && 2 * size <= 128 && Occurs(w, Resend(slot))
    ensures var w' := Step(w, Resend(slot)); var e := DataArrives(w.base + slot, Numbered(w.payloads, w.base + slot));
      slot < |w.payloads| - w.base && Occurs(w', e) && !Breaks(w', e) && Promised(Step(w', e), size)
  {
    var a := w.base + slot;
    ResendOk(w, slot, size);
    assert slot < |w.payloads| - w.base;
    var w' := Step(w, Resend(slot));
    var e := DataArrives(a, Numbered(w.payloads, a));
    OkIsPromised(w, size);
    AheadNear(w.rbase, a);
    assert !Breaks(w', e) by { hide Ok, Step, Promised; Lengths(w, size); }
    hide Ok, Step, Promised, Breaks, Numbered;
    StepKeepsExactly(w', e, size);
  }

  function Sends(payload: Bytes, n: nat): seq<Event> {
    if n == 0 then [] else Sends(payload, n - 1) + [Send(payload)]
  }

  function Arrivals(payload: Bytes, n: nat): seq<Event> {
    if n == 0 then [] else Arrivals(payload, n - 1) + [DataArrives(n - 1, Packet(payload, n - 1))]
  }

  /** `sent` packets were sent, the first `got` of them have arrived, and no acknowledgement has. */
  ghost predicate Pending(w: World, payload: Bytes, sent: nat, got: nat, size: nat) {
    && Ok(w, size) && w.base == 0 && w.rbase == got <= |w.payloads| == sent <= size
    && (forall a: nat :: Got(w.r, w.rbase, a) <==> a < got)
    && forall a: nat :: a < sent ==> (a, Packet(payload, a)) in w.data
  }

  lemma {:induction false} SendsPend(payload: Bytes, n: nat, size: nat)
    requires 1 <= size <= 127 && n <= size
    ensures PossibleRun(Start(size), Sends(payload, n), size)
    ensures Pending(After(Start(size), Sends(payload, n)), payload, n, 0, size)
  {
    hide Ok, PossibleRun, After;
    if n == 0 {
      StartOk(size);
      Empty(Start(size), size);
    } else {
      SendsPend(payload, n - 1, size);
      var w := After(Start(size), Sends(payload, n - 1));
      OnePends(w, payload, n - 1, size);
      OneEvent(w, Send(payload), size);
      PossibleAppend(Start(size), Sends(payload, n - 1), [Send(payload)], size);
    }
  }

  lemma OneEvent(w: World, e: Event, size: nat)
    requires Possible(w, e, size)
    ensures PossibleRun(w, [e], size) && After(w, [e]) == Step(w, e)
  {
    hide Possible, Step;
    assert [e][1..] == [];
    Empty(Step(w, e), size);
  }

  lemma OnePends(w: World, payload: Bytes, n: nat, size: nat)
    requires Pending(w, payload, n, 0, size) && n < size
    ensures Possible(w, Send(payload), size) && Pending(Step(w, Send(payload)), payload, n + 1, 0, size)
  {
    SendSender(w.s, w.base, w.payloads, size, payload);
    StepOk(w, Send(payload), size);
    hide Sent, Got, Ok;
  }

  lemma {:induction false} ArrivalsPend(w: World, payload: Bytes, sent: nat, n: nat, size: nat)
    requires Pending(w, payload, sent, 0, size) && n <= sent
    ensures PossibleRun(w, Arrivals(payload, n), size)
    ensures Pending(After(w, Arrivals(payload, n)), payload, sent, n, size)
  {
    hide Pending, PossibleRun, After, Possible, Step;
    if n == 0 {
      Empty(w, size);
    } else {
      ArrivalsPend(w, payload, sent, n - 1, size);
      var w1 := After(w, Arrivals(payload, n - 1));
      OneArrives(w1, payload, sent, n - 1, size);
      var e := DataArrives(n - 1, Packet(payload, n - 1));
      OneEvent(w1, e, size);
      PossibleAppend(w, Arrivals(payload, n - 1), [e], size);
    }
  }

  lemma OneArrives(w: World, payload: Bytes, sent: nat, n: nat, size: nat)
    requires Pending(w, payload, sent, n, size) && n < sent
    ensures var e := DataArrives(n, Packet(payload, n)); Possible(w, e, size) && Pending(Step(w, e), payload, sent, n + 1, size)
  {
    var e := DataArrives(n, Packet(payload, n));
    assert !Got(w.r, w.rbase, n) && (size > 1 ==> !Got(w.r, w.rbase, n + 1));
    StepOk(w, e, size);
    NewDataStep(w, n, Packet(payload, n), size);
    OneFinished(w.r.slots[0 := End]);
    TakenGot(w.r, w.rbase, n, |w.payloads|, size);
    hide Finished, Slid, DeliveredOk, DataOk, Step, Ok, Got;
  }

  /** With more, it is: `size` packets are sent and arrive, no acknowledgement comes back, and packet 0 is sent again. */
  lemma ResentIsDeliveredAgain(payload: Bytes, size: nat)
    requires 64 < size <= 127
    ensures PossibleRun(Start(size), Sends(payload, size) + Arrivals(payload, size), size)
    ensures var w := Run(Start(size), Sends(payload, size) + Arrivals(payload, size), size);
      var e := DataArrives(0, Packet(payload, 0));
      && Occurs(w, Resend(0)) && Step(w, Resend(0)) == w
      && Occurs(w, e) && Breaks(w, e) && !Promised(Step(w, e), size)
  {
    var one, two := Sends(payload, size), Arrivals(payload, size);
    SendsPend(payload, size, size);
    ArrivalsPend(After(Start(size), one), payload, size, size, size);
    PossibleAppend(Start(size), one, two, size);
    RunAfter(Start(size), one + two, size);
    hide PossibleRun, Run, After, Sends, Arrivals, Pending, Step, Promised;
    FullIsMistaken(After(Start(size), one + two), payload, size);
  }

  lemma FullIsMistaken(w: World, payload: Bytes, size: nat)
    requires Pending(w, payload, size, size, size) && 64 < size
    ensures var e := DataArrives(0, Packet(payload, 0));
      && Occurs(w, Resend(0)) && Step(w, Resend(0)) == w
      && Occurs(w, e) && Breaks(w, e) && !Promised(Step(w, e), size)
  {
    hide Ok, Step, Promised, Breaks, Occurs;
    var e := DataArrives(0, Packet(payload, 0));
    FullResends(w, payload, size);
    FullBreaks(w, payload, size);
    StepKeepsExactly(w, e, size);
  }

  lemma FullBreaks(w: World, payload: Bytes, size: nat)
    requires Pending(w, payload, size, size, size) && 64 < size
    ensures Occurs(w, DataArrives(0, Packet(payload, 0))) && Breaks(w, DataArrives(0, Packet(payload, 0)))
  {
    assert size <= 127;
    hide Ok, Ahead;
    Lengths(w, size);
    AheadNear(size, 0);
    assert !Got(w.r, w.rbase, w.rbase + (128 - size));
  }

  lemma FullResends(w: World, payload: Bytes, size: nat)
    requires Pending(w, payload, size, size, size) && size > 0
    ensures Occurs(w, Resend(0)) && Step(w, Resend(0)) == w
  {
    assert (0, Packet(payload, 0)) in w.data;
    FirstPayload(w, payload);
  }
}
