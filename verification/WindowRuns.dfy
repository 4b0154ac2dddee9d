/**
 * Runs of a sending and a receiving window over a network that loses, repeats and reorders
 * packets. Every packet has a true number that never wraps; the windows see it modulo 128.
 */
module WindowRuns {
  import opened Windows

  /**
   * base and rbase are the true numbers of the first slots of the sender and the receiver;
   * payloads is what was handed over for sending, so that packet a carries payloads[a]; data and
   * acks are all packets and acknowledgements that were ever put on the network; delivered is
   * what the receiver passed on, in order.
   */
  datatype World = World(s: Sender, r: Receiver, base: nat, rbase: nat, payloads: seq<Bytes>,
                         data: set<(nat, Bytes)>, acks: set<nat>, delivered: seq<(nat, Bytes)>)

  /** A packet that is never delivered is lost; one that is delivered twice was repeated. */
  datatype Event =
    | Send(payload: Bytes)
    | Resend(slot: nat)
    | DataArrives(a: nat, packet: Bytes)
    | AckArrives(a: nat)

  function Start(size: nat): World {
    World(Sender(0, seq(size, _ => Idle), seq(size, _ => None)), Receiver(0, seq(size, _ => Idle)), 0, 0, [], {}, {}, [])
  }

  function Last(packet: Bytes): Byte {
    if packet == [] then 0 else packet[|packet| - 1]
  }

  /** What can happen: nothing more than 127 - size numbers behind the base of the window it meets. */
  ghost predicate Possible(w: World, e: Event, size: nat) {
    match e
    case Send(payload) => true
    case Resend(slot) => slot < |w.s.slots| && w.s.slots[slot] == WaitForRes
    case DataArrives(a, packet) => (a, packet) in w.data && w.rbase <= a + 127 - size
    case AckArrives(a) => a in w.acks && w.base <= a + 127 - size
  }

  function Body(packet: Bytes): Bytes {
    if packet == [] then [] else packet[..|packet| - 1]
  }

  /** One event; a window that fails with an index exception stops where it was. */
  ghost function Step(w: World, e: Event): World {
    if |w.s.slots| != |w.s.packets| then w else
    match e
    case Send(payload) =>
      var (s, packet) := Sent(w.s, payload);
      if packet == None then w
      else w.(s := s, payloads := w.payloads + [payload], data := w.data + {(|w.payloads|, packet.value)})
    case Resend(slot) =>
      if slot < |w.s.slots| && w.s.packets[slot] != None then w.(data := w.data + {(w.base + slot, w.s.packets[slot].value)})
      else w
    case DataArrives(a, packet) =>
      var (r, arrival) := Arrived(w.r, Last(packet));
      w.(r := r, rbase := w.rbase + Ahead(w.r.stamp, r.stamp), acks := w.acks + {a},
         delivered := if arrival == Delivered then w.delivered + [(a, Body(packet))] else w.delivered)
    case AckArrives(a) =>
      var s := Acknowledged(w.s, a % 128);
      if s == None then w else w.(s := s.value, base := w.base + Ahead(w.s.stamp, s.value.stamp))
  }

  // ---- what every world of a run satisfies -------------------------------------------------------

  /** The packet with true number a. */
  function Numbered(payloads: seq<Bytes>, a: nat): Bytes
    requires a < |payloads|
  {
    payloads[a] + [a % 128]
  }

  /** The receiver has passed on packet a. */
  ghost predicate Got(r: Receiver, rbase: nat, a: nat) {
    a < rbase || (a - rbase < |r.slots| && r.slots[a - rbase] == End)
  }

  ghost predicate SenderOk(s: Sender, base: nat, payloads: seq<Bytes>, size: nat) {
    && 1 <= size == |s.slots| == |s.packets| && s.stamp == base % 128
    && base <= |payloads| <= base + size
    && s.slots[0] != End
    && (forall i :: 0 <= i < |payloads| - base ==> s.slots[i] != Idle && s.packets[i] == Some(Numbered(payloads, base + i)))
    && (forall i :: |payloads| - base <= i < size ==> s.slots[i] == Idle)
  }

  ghost predicate ReceiverOk(r: Receiver, rbase: nat, sent: nat, size: nat) {
    && 1 <= size == |r.slots| && r.stamp == rbase % 128
    && r.slots[0] != End && rbase <= sent
    && (forall a: nat :: Got(r, rbase, a) ==> a < sent)
  }

  ghost predicate DataOk(data: set<(nat, Bytes)>, payloads: seq<Bytes>) {
    forall x :: x in data ==> x.0 < |payloads| && x.1 == Numbered(payloads, x.0)
  }

  ghost predicate AcksOk(acks: set<nat>, r: Receiver, rbase: nat) {
    forall a :: a in acks ==> Got(r, rbase, a)
  }

  ghost predicate IsDelivered(delivered: seq<(nat, Bytes)>, a: nat) {
    exists k :: 0 <= k < |delivered| && delivered[k].0 == a
  }

  /** Each packet that the receiver got was passed on once, with its payload, and nothing else was. */
  ghost predicate DeliveredOk(delivered: seq<(nat, Bytes)>, payloads: seq<Bytes>, r: Receiver, rbase: nat) {
    && (forall a: nat :: Got(r, rbase, a) ==> IsDelivered(delivered, a))
    && (forall k :: 0 <= k < |delivered| ==>
         Got(r, rbase, delivered[k].0) && delivered[k].0 < |payloads| && delivered[k].1 == payloads[delivered[k].0])
    && (forall k, l :: 0 <= k < l < |delivered| ==> delivered[k].0 != delivered[l].0)
  }

  /** What the sender holds as acknowledged has arrived. */
  ghost predicate AckedArrived(s: Sender, base: nat, r: Receiver, rbase: nat) {
    forall i :: 0 <= i < |s.slots| && s.slots[i] == End ==> Got(r, rbase, base + i)
  }

  ghost predicate Ok(w: World, size: nat) {
    && size <= 127 && w.base <= w.rbase
    && SenderOk(w.s, w.base, w.payloads, size)
    && ReceiverOk(w.r, w.rbase, |w.payloads|, size)
    && DataOk(w.data, w.payloads) && AcksOk(w.acks, w.r, w.rbase)
    && DeliveredOk(w.delivered, w.payloads, w.r, w.rbase)
    && AckedArrived(w.s, w.base, w.r, w.rbase)
  }

  lemma StartOk(size: nat)
    requires 1 <= size <= 127
    ensures Ok(Start(size), size)
  {}

  lemma RemainderAdd(base: nat, n: nat)
    ensures (base % 128 + n) % 128 == (base + n) % 128
  {
    assert base + n == 128 * (base / 128) + (base % 128 + n);
  }

  lemma OnwardBase(base: nat, n: nat)
    requires n < 128
    ensures Onward(base % 128, n) == (base + n) % 128 && Ahead(base % 128, Onward(base % 128, n)) == n
    ensures Onward(n, base % 128) == (base + n) % 128
  {
    RemainderAdd(base, n);
    SmallRemainder(base, n);
  }

  lemma SameStamp(stamp: nat)
    ensures Ahead(stamp, stamp) == 0
  {}

  // ---- a payload is sent -------------------------------------------------------------------------

  lemma NextFree(s: Sender, base: nat, payloads: seq<Bytes>, size: nat)
    requires SenderOk(s, base, payloads, size)
    ensures FirstIdle(s.slots) == |payloads| - base
  {
    var free := |payloads| - base;
    assert free < size ==> s.slots[free] == Idle;
    assert FirstIdle(s.slots) < |s.slots| ==> s.slots[FirstIdle(s.slots)] == Idle;
    hide Numbered;
  }

  /** A payload gets the next true number, in the first free slot. */
  lemma SendSender(s: Sender, base: nat, payloads: seq<Bytes>, size: nat, payload: Bytes)
    requires SenderOk(s, base, payloads, size) && size < 128
    ensures var free := |payloads| - base;
      && (free == size ==> Sent(s, payload) == (s, None))
      && (free < size ==>
           var packet := Numbered(payloads + [payload], |payloads|);
           && Sent(s, payload) == (Sender(s.stamp, s.slots[free := WaitForRes], s.packets[free := Some(packet)]), Some(packet))
           && SenderOk(Sent(s, payload).0, base, payloads + [payload], size))
  {
    var free := |payloads| - base;
    NextFree(s, base, payloads, size);
    OnwardBase(base, free);
    hide FirstIdle, Onward;
    if free < size {
      forall b: nat | b < |payloads| ensures Numbered(payloads + [payload], b) == Numbered(payloads, b) {}
      assert Numbered(payloads + [payload], |payloads|) == payload + [(base + free) % 128];
    }
  }

  lemma MorePayloads(w: World, payload: Bytes)
    requires DataOk(w.data, w.payloads) && DeliveredOk(w.delivered, w.payloads, w.r, w.rbase)
    ensures var n := |w.payloads|;
      DataOk(w.data + {(n, Numbered(w.payloads + [payload], n))}, w.payloads + [payload])
    ensures DeliveredOk(w.delivered, w.payloads + [payload], w.r, w.rbase)
  {
    hide Got;
    forall a: nat | a < |w.payloads| ensures Numbered(w.payloads + [payload], a) == Numbered(w.payloads, a) {}
    hide Numbered;
  }

  lemma SendOk(w: World, payload: Bytes, size: nat)
    requires Ok(w, size)
    ensures Ok(Step(w, Send(payload)), size)
  {
    SendSender(w.s, w.base, w.payloads, size, payload);
    MorePayloads(w, payload);
    var free := |w.payloads| - w.base;
    hide Sent, Got, Numbered, DataOk, DeliveredOk, AcksOk;
    if free < size {
      assert forall i :: 0 <= i < size && Sent(w.s, payload).0.slots[i] == End ==> w.s.slots[i] == End;
    }
  }

  // ---- a packet is sent again --------------------------------------------------------------------

  lemma ResendOk(w: World, slot: nat, size: nat)
    requires Ok(w, size) && Possible(w, Resend(slot), size)
    ensures Step(w, Resend(slot)) == w.(data := w.data + {(w.base + slot, Numbered(w.payloads, w.base + slot))})
    ensures Ok(Step(w, Resend(slot)), size)
    ensures 2 * size <= 127 ==> w.rbase <= w.base + slot + 127 - size
  {
    hide Got, Numbered, DeliveredOk, AcksOk;
    assert slot < |w.payloads| - w.base;
  }

  // ---- a packet arrives --------------------------------------------------------------------------

  lemma DataIndex(w: World, a: nat, packet: Bytes, size: nat)
    requires Ok(w, size) && Possible(w, DataArrives(a, packet), size)
    ensures a < |w.payloads| && Body(packet) == w.payloads[a] && |w.r.slots| == size
    ensures ConfirmBorder(w.r.stamp, size, Last(packet)) == if a >= w.rbase then a - w.rbase else -1
    ensures a >= w.rbase ==> a - w.rbase < size
  {
    assert (a, packet) in w.data;
    assert packet == Numbered(w.payloads, a);
    ConfirmBorderInRange(w.rbase, size, a);
    hide ConfirmBorder;
  }

  /** A packet that is not new changes nothing but that it is acknowledged again. */
  lemma OldDataOk(w: World, a: nat, packet: Bytes, size: nat)
    requires Ok(w, size) && Possible(w, DataArrives(a, packet), size) && Got(w.r, w.rbase, a)
    ensures Step(w, DataArrives(a, packet)) == w.(acks := w.acks + {a})
    ensures Ok(Step(w, DataArrives(a, packet)), size)
  {
    hide ConfirmBorder, Finished, Slid, Numbered, Last, Ahead, DeliveredOk, DataOk, Body;
    DataIndex(w, a, packet, size);
    assert Arrived(w.r, Last(packet)) == (w.r, Ignored);
    SameStamp(w.r.stamp);
  }

  /** What the receiver is after a new packet. */
  lemma NewDataStep(w: World, a: nat, packet: Bytes, size: nat)
    requires Ok(w, size) && Possible(w, DataArrives(a, packet), size) && !Got(w.r, w.rbase, a)
    ensures a >= w.rbase && a - w.rbase < size == |w.r.slots| && a < |w.payloads|
    ensures var (r, rbase) := Taken(w.r, w.rbase, a);
      Step(w, DataArrives(a, packet))
        == w.(r := r, rbase := rbase, acks := w.acks + {a}, delivered := w.delivered + [(a, w.payloads[a])])
  {
    hide ConfirmBorder, Slid, Numbered, Last, Ahead, DeliveredOk, DataOk, Body, Onward, AckedArrived, AcksOk;
    DataIndex(w, a, packet, size);
    var slots := w.r.slots[a - w.rbase := End];
    var n := Finished(slots);
    OnwardBase(w.rbase, n);
  }

  /** The receiver with packet a taken. */
  ghost function Taken(r: Receiver, rbase: nat, a: nat): (Receiver, nat)
    requires rbase <= a < rbase + |r.slots|
  {
    var slots := r.slots[a - rbase := End];
    var n := Finished(slots);
    (Receiver((rbase + n) % 128, Slid(slots, n, Idle)), rbase + n)
  }

  lemma TakenGot(r: Receiver, rbase: nat, a: nat, sent: nat, size: nat)
    requires ReceiverOk(r, rbase, sent, size) && rbase <= a < rbase + size && a < sent
    ensures var (r', rbase') := Taken(r, rbase, a);
      && rbase <= rbase' && ReceiverOk(r', rbase', sent, size)
      && forall b: nat :: Got(r', rbase', b) <==> Got(r, rbase, b) || b == a
  {
    var slots := r.slots[a - rbase := End];
    var n := Finished(slots);
    var after := Slid(slots, n, Idle);
    var (r', rbase') := Taken(r, rbase, a);
    hide Finished, Slid;
    forall b: nat ensures Got(r', rbase', b) <==> Got(r, rbase, b) || b == a {
      if rbase <= b < rbase + size {
        assert b == a || slots[b - rbase] == r.slots[b - rbase];
        if b - rbase >= n { assert after[b - rbase - n] == slots[b - rbase]; }
      }
    }
    if n > 0 { assert Got(r', rbase', rbase' - 1); }
  }

  lemma TakenDelivered(delivered: seq<(nat, Bytes)>, payloads: seq<Bytes>, r: Receiver, rbase: nat, r': Receiver, rbase': nat, a: nat)
    requires DeliveredOk(delivered, payloads, r, rbase) && !Got(r, rbase, a) && a < |payloads|
    requires forall b: nat :: Got(r', rbase', b) <==> Got(r, rbase, b) || b == a
    ensures DeliveredOk(delivered + [(a, payloads[a])], payloads, r', rbase')
  {
    hide Got;
    var after := delivered + [(a, payloads[a])];
    assert after[|delivered|] == (a, payloads[a]);
    forall b: nat | Got(r', rbase', b) ensures IsDelivered(after, b) {
      if b != a {
        assert IsDelivered(delivered, b);
        var k :| 0 <= k < |delivered| && delivered[k].0 == b;
        assert after[k] == delivered[k];
      }
    }
  }

  lemma NewDataOk(w: World, a: nat, packet: Bytes, size: nat)
    requires Ok(w, size) && Possible(w, DataArrives(a, packet), size) && !Got(w.r, w.rbase, a)
    ensures Ok(Step(w, DataArrives(a, packet)), size)
  {
    hide Step, Possible, Got, Taken, ReceiverOk, DeliveredOk, SenderOk, DataOk;
    NewDataStep(w, a, packet, size);
    var (r, rbase) := Taken(w.r, w.rbase, a);
    TakenGot(w.r, w.rbase, a, |w.payloads|, size);
    TakenDelivered(w.delivered, w.payloads, w.r, w.rbase, r, rbase, a);
  }

  // ---- an acknowledgement arrives ----------------------------------------------------------------

  lemma AckIndex(w: World, a: nat, size: nat)
    requires Ok(w, size) && Possible(w, AckArrives(a), size)
    ensures |w.s.slots| == |w.s.packets| == size && Got(w.r, w.rbase, a)
    ensures ConfirmBorder(w.s.stamp, size, a % 128) == if a >= w.base then a - w.base else -1
    ensures a >= w.base ==> a - w.base < size && w.s.slots[a - w.base] != Idle
  {
    hide ConfirmBorder, Numbered;
    ConfirmBorderInRange(w.base, size, a);
  }

  lemma OldAckOk(w: World, a: nat, size: nat)
    requires Ok(w, size) && Possible(w, AckArrives(a), size)
    requires a < w.base || (a - w.base < |w.s.slots| && w.s.slots[a - w.base] != WaitForRes)
    ensures Step(w, AckArrives(a)) == w
  {
    hide ConfirmBorder, Ahead, Ok, Slid, Finished;
    AckIndex(w, a, size);
    SameStamp(w.s.stamp);
  }

  /** The sender with packet a acknowledged. */
  ghost function Released(s: Sender, base: nat, a: nat): (Sender, nat)
    requires base <= a < base + |s.slots| && |s.slots| == |s.packets|
  {
    var slots := s.slots[a - base := End];
    var n := Finished(slots);
    (Sender((base + n) % 128, Slid(slots, n, Idle), Slid(s.packets, n, None)), base + n)
  }

  lemma NewAckStep(w: World, a: nat, size: nat)
    requires Ok(w, size) && Possible(w, AckArrives(a), size)
    requires a >= w.base && a - w.base < |w.s.slots| && w.s.slots[a - w.base] == WaitForRes
    ensures |w.s.slots| == |w.s.packets| == size
    ensures var (s, base) := Released(w.s, w.base, a); Step(w, AckArrives(a)) == w.(s := s, base := base)
  {
    hide ConfirmBorder, Slid, Numbered, Ahead, DeliveredOk, DataOk, Onward, AckedArrived, AcksOk, ReceiverOk;
    AckIndex(w, a, size);
    var slots := w.s.slots[a - w.base := End];
    var n := Finished(slots);
    OnwardBase(w.base, n);
  }

  lemma ReleasedSender(s: Sender, base: nat, payloads: seq<Bytes>, size: nat, a: nat)
    requires SenderOk(s, base, payloads, size) && base <= a < base + size && s.slots[a - base] == WaitForRes
    ensures var (s', base') := Released(s, base, a); base <= base' && SenderOk(s', base', payloads, size)
  {
    var slots := s.slots[a - base := End];
    var n := Finished(slots);
    assert |payloads| - base < size ==> slots[|payloads| - base] != End;
    hide Finished, Numbered;
  }

  /** The sender never runs ahead of the receiver: what it lets go of has arrived. */
  lemma ReleasedArrived(s: Sender, base: nat, r: Receiver, rbase: nat, sent: nat, size: nat, a: nat)
    requires |s.slots| == |s.packets| == size && base <= rbase && ReceiverOk(r, rbase, sent, size)
    requires AckedArrived(s, base, r, rbase) && base <= a < base + size && Got(r, rbase, a)
    ensures var (s', base') := Released(s, base, a); base' <= rbase && AckedArrived(s', base', r, rbase)
  {
    var slots := s.slots[a - base := End];
    var n := Finished(slots);
    var (s', base') := Released(s, base, a);
    forall i | 0 <= i < |slots| && slots[i] == End ensures Got(r, rbase, base + i) {
      assert i == a - base || s.slots[i] == End;
    }
    assert !Got(r, rbase, rbase) && base + (rbase - base) == rbase;
    assert rbase - base < size ==> slots[rbase - base] != End;
    hide Finished, ReceiverOk, Got;
    forall i | 0 <= i < |s'.slots| && s'.slots[i] == End ensures Got(r, rbase, base' + i) {
      assert s'.slots[i] == if i < size - n then slots[i + n] else Idle;
      assert Got(r, rbase, base + (i + n));
    }
  }

  lemma NewAckOk(w: World, a: nat, size: nat)
    requires Ok(w, size) && Possible(w, AckArrives(a), size)
    requires a >= w.base && a - w.base < |w.s.slots| && w.s.slots[a - w.base] == WaitForRes
    ensures Ok(Step(w, AckArrives(a)), size)
  {
    hide Step, Possible, Got, Released, ReceiverOk, DeliveredOk, SenderOk, DataOk, AcksOk, AckedArrived, ConfirmBorder;
    AckIndex(w, a, size);
    NewAckStep(w, a, size);
    ReleasedSender(w.s, w.base, w.payloads, size, a);
    ReleasedArrived(w.s, w.base, w.r, w.rbase, |w.payloads|, size, a);
  }

  // ---- runs --------------------------------------------------------------------------------------

  /** Whatever happens keeps everything. */
  lemma StepOk(w: World, e: Event, size: nat)
    requires Ok(w, size) && Possible(w, e, size)
    ensures Ok(Step(w, e), size)
  {
    hide Ok, Possible, Step, Got, ConfirmBorder;
    match e
    case Send(payload) => SendOk(w, payload, size);
    case Resend(slot) => ResendOk(w, slot, size);
    case DataArrives(a, packet) =>
      if Got(w.r, w.rbase, a) { OldDataOk(w, a, packet, size); } else { NewDataOk(w, a, packet, size); }
    case AckArrives(a) =>
      AckIndex(w, a, size);
      if a >= w.base && w.s.slots[a - w.base] == WaitForRes { NewAckOk(w, a, size); } else { OldAckOk(w, a, size); }
  }

  ghost predicate PossibleRun(w: World, events: seq<Event>, size: nat)
    decreases |events|
  {
    events == [] || (Possible(w, events[0], size) && PossibleRun(Step(w, events[0]), events[1..], size))
  }

  ghost function Run(w: World, events: seq<Event>, size: nat): World
    requires PossibleRun(w, events, size)
    decreases |events|
  {
    if events == [] then w else Run(Step(w, events[0]), events[1..], size)
  }

  lemma {:induction false} RunOk(w: World, events: seq<Event>, size: nat)
    requires Ok(w, size) && PossibleRun(w, events, size)
    ensures Ok(Run(w, events, size), size)
    decreases |events|
  {
    hide Ok, Possible, Step;
    if events != [] {
      StepOk(w, events[0], size);
      RunOk(Step(w, events[0]), events[1..], size);
    }
  }

  /** The packets of some slots go out again, one after the other. */
  function Resends(slots: seq<nat>): (events: seq<Event>)
    ensures |events| == |slots| && forall k :: 0 <= k < |events| ==> events[k] == Resend(slots[k])
  {
    seq(|slots|, k requires 0 <= k < |slots| => Resend(slots[k]))
  }

  /** x is the packet of one of the slots, with its true number. */
  ghost predicate IsCopy(w: World, slots: seq<nat>, x: (nat, Bytes)) {
    exists k :: 0 <= k < |slots| && HasPacket(w, slots[k], x)
  }

  ghost predicate HasPacket(w: World, slot: nat, x: (nat, Bytes)) {
    slot < |w.s.packets| && x.0 == w.base + slot && w.s.packets[slot] == Some(x.1)
  }

  /**
   * What `update` does is a run: its slots wait, and the packets it hands to the socket come to
   * what is on the network, with their true numbers. Nothing else changes.
   */
  lemma {:induction false} UpdateIsRun(w: World, slots: seq<nat>, size: nat)
    requires |w.s.slots| == |w.s.packets|
    requires forall k :: 0 <= k < |slots| ==>
      slots[k] < |w.s.slots| && w.s.slots[slots[k]] == WaitForRes && w.s.packets[slots[k]] != None
    ensures PossibleRun(w, Resends(slots), size)
    ensures var after := Run(w, Resends(slots), size);
      after == w.(data := after.data) && forall x :: x in after.data <==> x in w.data || IsCopy(w, slots, x)
    decreases |slots|
  {
    if slots != [] {
      var rest := slots[1..];
      var next := Step(w, Resend(slots[0]));
      UpdateIsRun(next, rest, size);
      assert Resends(slots)[1..] == Resends(rest) && Resends(slots)[0] == Resend(slots[0]);
      forall x ensures x in next.data || IsCopy(next, rest, x) <==> x in w.data || IsCopy(w, slots, x) {
        CopyOrRest(w, next, slots, x);
      }
    }
  }

  lemma CopyOrRest(w: World, next: World, slots: seq<nat>, x: (nat, Bytes))
    requires slots != [] && slots[0] < |w.s.packets| && w.s.packets[slots[0]] != None
    requires next == w.(data := w.data + {(w.base + slots[0], w.s.packets[slots[0]].value)})
    ensures x in next.data || IsCopy(next, slots[1..], x) <==> x in w.data || IsCopy(w, slots, x)
  {
    var rest := slots[1..];
    assert x in next.data <==> x in w.data || HasPacket(w, slots[0], x);
    forall slot: nat ensures HasPacket(next, slot, x) <==> HasPacket(w, slot, x) {}
    hide HasPacket;
    if k :| 0 <= k < |rest| && HasPacket(next, rest[k], x) { assert slots[k + 1] == rest[k]; }
    if k :| 0 <= k < |slots| && HasPacket(w, slots[k], x) { assert k > 0 ==> rest[k - 1] == slots[k]; }
  }

  /** Packet a was delivered with the payload it was sent with. */
  ghost predicate DeliveredWhole(w: World, a: nat) {
    a < |w.payloads| && exists k :: 0 <= k < |w.delivered| && w.delivered[k] == (a, w.payloads[a])
  }

  /** A waiting slot holds the packet with its number: the sender's, and the one a receiver will see. */
  ghost predicate HoldsItsPacket(w: World, i: nat) {
    && i < |w.s.packets| && w.base + i < |w.payloads|
    && w.s.packets[i] == Some(w.payloads[w.base + i] + [(w.s.stamp + i) % 128])
  }

  /** What the protocol promises of what was sent and delivered. */
  ghost predicate Kept(w: World) {
    // what the sender has let go of, or holds as acknowledged, was delivered
    && (forall a: nat :: a < w.base ==> DeliveredWhole(w, a))
    && (forall i: nat :: i < |w.s.slots| && w.s.slots[i] == End ==> DeliveredWhole(w, w.base + i))
    // nothing is delivered twice, and what is delivered was sent
    && (forall k, l :: 0 <= k < l < |w.delivered| ==> w.delivered[k].0 != w.delivered[l].0)
    && (forall k :: 0 <= k < |w.delivered| ==> DeliveredWhole(w, w.delivered[k].0) && w.delivered[k].1 == w.payloads[w.delivered[k].0])
    // free slots are a suffix; a waiting slot holds the packet with its number
    && (forall i, j :: 0 <= i < j < |w.s.slots| && w.s.slots[i] == Idle ==> w.s.slots[j] == Idle)
    && (forall i: nat :: i < |w.s.slots| && w.s.slots[i] == WaitForRes ==> HoldsItsPacket(w, i))
  }

  /**
   * The same without names: released and acknowledged packets were delivered; nothing twice, and nothing that was not sent;
   * a waiting slot is in front of all free ones and holds the packet with its number.
   */
  lemma KeptIs(w: World)
    requires Kept(w)
    ensures forall a: nat :: a < w.base ==> IsDelivered(w.delivered, a)
    ensures forall i: nat :: i < |w.s.slots| && w.s.slots[i] == End ==> IsDelivered(w.delivered, w.base + i)
    ensures forall k, l :: 0 <= k < l < |w.delivered| ==> w.delivered[k].0 != w.delivered[l].0
    ensures forall k :: 0 <= k < |w.delivered| ==>
      w.delivered[k].0 < |w.payloads| && w.delivered[k].1 == w.payloads[w.delivered[k].0]
    ensures forall i, j :: 0 <= i < j < |w.s.slots| && w.s.slots[j] != Idle ==> w.s.slots[i] != Idle
    ensures forall i: nat :: i < |w.s.slots| && w.s.slots[i] == WaitForRes ==>
      && i < |w.s.packets| && w.base + i < |w.payloads|
      && w.s.packets[i] == Some(w.payloads[w.base + i] + [(w.s.stamp + i) % 128])
  {
    forall a: nat | DeliveredWhole(w, a) ensures IsDelivered(w.delivered, a) {}
    forall k | 0 <= k < |w.delivered|
      ensures w.delivered[k].0 < |w.payloads| && w.delivered[k].1 == w.payloads[w.delivered[k].0]
    {
      assert DeliveredWhole(w, w.delivered[k].0);
    }
  }

  lemma IsKept(w: World)
    requires forall a: nat :: a < w.base ==> IsDelivered(w.delivered, a)
    requires forall i: nat :: i < |w.s.slots| && w.s.slots[i] == End ==> IsDelivered(w.delivered, w.base + i)
    requires forall k, l :: 0 <= k < l < |w.delivered| ==> w.delivered[k].0 != w.delivered[l].0
    requires forall k :: 0 <= k < |w.delivered| ==>
      w.delivered[k].0 < |w.payloads| && w.delivered[k].1 == w.payloads[w.delivered[k].0]
    requires forall i, j :: 0 <= i < j < |w.s.slots| && w.s.slots[j] != Idle ==> w.s.slots[i] != Idle
    requires forall i: nat :: i < |w.s.slots| && w.s.slots[i] == WaitForRes ==>
      && i < |w.s.packets| && w.base + i < |w.payloads|
      && w.s.packets[i] == Some(w.payloads[w.base + i] + [(w.s.stamp + i) % 128])
    ensures Kept(w)
  {
    forall a: nat | IsDelivered(w.delivered, a) ensures DeliveredWhole(w, a) {
      var k :| 0 <= k < |w.delivered| && w.delivered[k].0 == a;
      assert w.delivered[k] == (a, w.payloads[a]);
    }
    assert forall k :: 0 <= k < |w.delivered| ==> IsDelivered(w.delivered, w.delivered[k].0);
  }

  /** What it promises of a world: also that the two windows never drift apart. */
  ghost predicate Promised(w: World, size: nat) {
    w.base <= w.rbase <= w.base + size && Kept(w)
  }

  lemma OkIsPromised(w: World, size: nat)
    requires Ok(w, size)
    ensures Promised(w, size)
  {
    GotIsDelivered(w);
    WaitingHold(w, size);
    hide DeliveredWhole, HoldsItsPacket, Numbered, DataOk, AcksOk;
    assert forall a: nat :: a < w.base ==> Got(w.r, w.rbase, a);
    assert w.rbase > 0 ==> Got(w.r, w.rbase, w.rbase - 1);
  }

  lemma GotIsDelivered(w: World)
    requires DeliveredOk(w.delivered, w.payloads, w.r, w.rbase)
    ensures forall a: nat :: Got(w.r, w.rbase, a) ==> DeliveredWhole(w, a)
  {
    hide Got;
    forall a: nat | Got(w.r, w.rbase, a) ensures DeliveredWhole(w, a) {
      assert IsDelivered(w.delivered, a);
      var k :| 0 <= k < |w.delivered| && w.delivered[k].0 == a;
    }
  }

  lemma WaitingHold(w: World, size: nat)
    requires SenderOk(w.s, w.base, w.payloads, size)
    ensures forall i: nat :: i < |w.s.slots| && w.s.slots[i] == WaitForRes ==> HoldsItsPacket(w, i)
  {
    forall i: nat | i < |w.s.slots| && w.s.slots[i] == WaitForRes ensures HoldsItsPacket(w, i) {
      RemainderAdd(w.base, i);
    }
  }

  /** Every run keeps the promises of the protocol. */
  lemma RunsKeepThePromises(events: seq<Event>, size: nat)
    requires 1 <= size <= 127 && PossibleRun(Start(size), events, size)
    ensures Promised(Run(Start(size), events, size), size)
  {
    hide Ok, PossibleRun, Run, Promised;
    StartOk(size);
    RunOk(Start(size), events, size);
    OkIsPromised(Run(Start(size), events, size), size);
  }

  /** A packet sent again goes out with its number, and the receiver may still meet it. */
  lemma RetransmissionArrives(events: seq<Event>, size: nat, slot: nat)
    requires 1 <= size && 2 * size <= 127 && PossibleRun(Start(size), events, size)
    requires Possible(Run(Start(size), events, size), Resend(slot), size)
    ensures var w := Run(Start(size), events, size);
      && w.base + slot < |w.payloads|
      && Possible(Step(w, Resend(slot)), DataArrives(w.base + slot, Numbered(w.payloads, w.base + slot)), size)
  {
    hide PossibleRun, Run;
    StartOk(size);
    RunOk(Start(size), events, size);
    ResendOk(Run(Start(size), events, size), slot, size);
  }
}
