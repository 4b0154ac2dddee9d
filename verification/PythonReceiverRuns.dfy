/**
 * Runs in which the receiver is that of sliding_window.py: exactly when they keep what the protocol
 * promises, and runs from the start in which they do not.
 */
module PythonReceiverRuns {
  import opened Windows
  import opened WindowRuns
  import opened WindowLimits
  import opened PythonReceivers
  import opened PythonRuns

  /** One event; rbase follows the number of the receiving window. */
  ghost function StepTo(w: World, e: Event): World {
    if !e.DataArrives? then Step(w, e) else
    var (r, arrival) := ArrivedPython(w.r, Last(e.packet));
    w.(r := r, rbase := w.rbase + Ahead(w.r.stamp, r.stamp), acks := w.acks + {e.a},
       delivered := if arrival == Delivered then w.delivered + [(e.a, Body(e.packet))] else w.delivered)
  }

  /** What holds in every world of every run, promises kept or not. */
  ghost predicate Shape(w: World, size: nat) {
    && 1 <= size <= 127 && SenderOk(w.s, w.base, w.payloads, size)
    && |w.r.slots| == size && w.r.stamp == w.rbase % 128
    && DataOk(w.data, w.payloads) && Sound(w)
    && (forall a :: a in w.acks ==> a < |w.payloads|)
  }

  /** Only what was sent is delivered. */
  ghost predicate Sound(w: World) {
    forall k :: 0 <= k < |w.delivered| ==> w.delivered[k].0 < |w.payloads| && w.delivered[k].1 == w.payloads[w.delivered[k].0]
  }

  /** The promises, and that whatever is acknowledged was delivered: an acknowledged packet is never sent again. */
  ghost predicate Honest(w: World) {
    Kept(w) && forall a :: a in w.acks ==> DeliveredWhole(w, a)
  }

  /** The number of packet a is that of a free slot. */
  ghost predicate Open(w: World, a: nat) {
    var k := Ahead(w.rbase, a);
    k < |w.r.slots| && w.r.slots[k] == Idle
  }

  /**
   * The events that do harm: a packet that meets no free slot, though it was never passed on, or
   * that meets one, though it was; and an acknowledgement that is taken for that of a packet that
   * waits and was not passed on.
   */
  ghost predicate Harms(w: World, e: Event) {
    match e
    case DataArrives(a, packet) => Open(w, a) <==> IsDelivered(w.delivered, a)
    case AckArrives(a) =>
      && Mistaken(w.base, a, |w.s.slots|) && w.s.slots[Ahead(w.base, a)] == WaitForRes
      && !IsDelivered(w.delivered, w.base + Ahead(w.base, a))
    case _ => false
  }

  lemma WholeIsDelivered(w: World, a: nat)
    requires Sound(w)
    ensures DeliveredWhole(w, a) <==> IsDelivered(w.delivered, a)
  {
    if IsDelivered(w.delivered, a) {
      var k :| 0 <= k < |w.delivered| && w.delivered[k].0 == a;
      assert w.delivered[k] == (a, w.payloads[a]);
    }
    if DeliveredWhole(w, a) {
      var k :| 0 <= k < |w.delivered| && w.delivered[k] == (a, w.payloads[a]);
    }
  }

  /** Waiting slots hold their packets and free slots are a suffix, whoever the receiver is. */
  lemma SenderKept(w: World, size: nat)
    requires SenderOk(w.s, w.base, w.payloads, size)
    ensures forall i, j :: 0 <= i < j < |w.s.slots| && w.s.slots[i] == Idle ==> w.s.slots[j] == Idle
    ensures forall i: nat :: i < |w.s.slots| && w.s.slots[i] == WaitForRes ==> HoldsItsPacket(w, i)
  {
    WaitingHold(w, size);
    hide HoldsItsPacket, Numbered;
  }

  /** The sender has let go of packet b, or holds it as acknowledged. */
  ghost predicate LetGo(w: World, b: nat) {
    b < w.base || (b - w.base < |w.s.slots| && w.s.slots[b - w.base] == End)
  }

  ghost predicate AllLetGo(w: World) { forall b: nat :: LetGo(w, b) ==> DeliveredWhole(w, b) }

  ghost predicate AllAcks(w: World) { forall a :: a in w.acks ==> DeliveredWhole(w, a) }

  ghost predicate Distinct(delivered: seq<(nat, Bytes)>) {
    forall k, l :: 0 <= k < l < |delivered| ==> delivered[k].0 != delivered[l].0
  }

  lemma SoundIsWhole(w: World)
    requires Sound(w)
    ensures forall k :: 0 <= k < |w.delivered| ==> DeliveredWhole(w, w.delivered[k].0) && w.delivered[k].1 == w.payloads[w.delivered[k].0]
  {}

  lemma LetGoIs(w: World)
    ensures AllLetGo(w) <==>
      && (forall a: nat :: a < w.base ==> DeliveredWhole(w, a))
      && (forall i: nat :: i < |w.s.slots| && w.s.slots[i] == End ==> DeliveredWhole(w, w.base + i))
  {
    hide DeliveredWhole;
    if AllLetGo(w) {
      forall a: nat | a < w.base ensures DeliveredWhole(w, a) { assert LetGo(w, a); }
      forall i: nat | i < |w.s.slots| && w.s.slots[i] == End ensures DeliveredWhole(w, w.base + i) { assert LetGo(w, w.base + i); }
    }
    assert forall b: nat :: LetGo(w, b) && b >= w.base ==> w.base + (b - w.base) == b && b - w.base < |w.s.slots|;
  }

  /** What honesty comes to, packet by packet. */
  lemma HonestIs(w: World, size: nat)
    requires Shape(w, size)
    ensures Honest(w) <==> AllLetGo(w) && Distinct(w.delivered) && AllAcks(w)
  {
    SenderKept(w, size);
    SoundIsWhole(w);
    LetGoIs(w);
    hide DeliveredWhole, HoldsItsPacket, SenderOk, AllLetGo, DataOk, Sound;
  }

  // ---- a payload is sent, or sent again ----------------------------------------------------------

  lemma SendKeeps(w: World, payload: Bytes, size: nat)
    requires Shape(w, size) && Honest(w)
    ensures Shape(StepTo(w, Send(payload)), size) && Honest(StepTo(w, Send(payload)))
  {
    hide Shape, Honest, StepTo, DeliveredWhole, Distinct;
    SendShape(w, payload, size);
    var w' := StepTo(w, Send(payload));
    HonestIs(w, size);
    HonestIs(w', size);
    forall a: nat | DeliveredWhole(w, a) ensures DeliveredWhole(w', a) { MoreSent(w, w', a); }
  }

  lemma MoreSent(w: World, w': World, a: nat)
    requires DeliveredWhole(w, a) && w'.delivered == w.delivered && w.payloads <= w'.payloads
    ensures DeliveredWhole(w', a)
  {}

  lemma SendShape(w: World, payload: Bytes, size: nat)
    requires Shape(w, size)
    ensures var w' := StepTo(w, Send(payload));
      Shape(w', size) && w' == w.(s := w'.s, payloads := w'.payloads, data := w'.data) && w.payloads <= w'.payloads
    ensures var w' := StepTo(w, Send(payload));
      forall b: nat :: LetGo(w', b) ==> LetGo(w, b)
  {
    SendSender(w.s, w.base, w.payloads, size, payload);
    var free := |w.payloads| - w.base;
    hide Sent, Numbered;
    forall a: nat | a < |w.payloads| ensures Numbered(w.payloads + [payload], a) == Numbered(w.payloads, a) {
      SameNumbered(w.payloads, payload, a);
    }
  }

  lemma SameNumbered(payloads: seq<Bytes>, payload: Bytes, a: nat)
    requires a < |payloads|
    ensures Numbered(payloads + [payload], a) == Numbered(payloads, a)
  {}

  lemma ResendShape(w: World, slot: nat, size: nat)
    requires Shape(w, size) && Occurs(w, Resend(slot))
    ensures var w' := StepTo(w, Resend(slot)); Shape(w', size) && w' == w.(data := w'.data)
  {
    assert slot < |w.payloads| - w.base;
    hide Numbered;
  }

  lemma ResendKeeps(w: World, slot: nat, size: nat)
    requires Shape(w, size) && Honest(w) && Occurs(w, Resend(slot))
    ensures Shape(StepTo(w, Resend(slot)), size) && Honest(StepTo(w, Resend(slot)))
  {
    hide Shape, Honest, StepTo, DeliveredWhole, Distinct, Occurs;
    ResendShape(w, slot, size);
    var w' := StepTo(w, Resend(slot));
    HonestIs(w, size);
    HonestIs(w', size);
    forall a: nat ensures DeliveredWhole(w', a) == DeliveredWhole(w, a) { SameDelivered(w, w', a); }
    assert forall b: nat :: LetGo(w', b) == LetGo(w, b);
  }

  lemma SameDelivered(w: World, w': World, a: nat)
    requires w'.delivered == w.delivered && w'.payloads == w.payloads
    ensures DeliveredWhole(w', a) == DeliveredWhole(w, a)
  {}

  // ---- a packet arrives --------------------------------------------------------------------------

  /** A packet is passed on if and only if its number is that of a free slot. */
  lemma PassedOn(w: World, a: nat, packet: Bytes, size: nat)
    requires Shape(w, size) && Occurs(w, DataArrives(a, packet))
    ensures ArrivedPython(w.r, Last(packet)).1 == Delivered <==> Open(w, a)
    ensures a < |w.payloads| && Body(packet) == w.payloads[a] && Last(packet) == a % 128
    ensures var w' := StepTo(w, DataArrives(a, packet));
      && w' == w.(r := w'.r, rbase := w'.rbase, acks := w.acks + {a}, delivered := w'.delivered)
      && w'.delivered == if Open(w, a) then w.delivered + [(a, w.payloads[a])] else w.delivered
  {
    hide SenderOk, Numbered, ArrivedPython, Ahead, Last, Body;
    LastNumber(w, a, packet);
    AheadOfRemainders(w.rbase, a);
    PassedOnExactly(w.r, a % 128);
  }

  lemma ArrivedShape(r: Receiver, d: int)
    ensures |ArrivedPython(r, d).0.slots| == |r.slots| && (r.stamp < 128 ==> ArrivedPython(r, d).0.stamp < 128)
  {
    hide ConfirmBorderPython, Gone, Slid;
  }

  /** The number of the window moves on with its true number. */
  lemma StampFollows(base: nat, stamp: nat)
    requires stamp < 128
    ensures (base + Ahead(base % 128, stamp)) % 128 == stamp
  {
    var x := (stamp - base % 128) % 128;
    assert base + x == 128 * (base / 128) + (base % 128 + x);
    assert (base % 128 + x) % 128 == stamp;
  }

  lemma DataShape(w: World, a: nat, packet: Bytes, size: nat)
    requires Shape(w, size) && Occurs(w, DataArrives(a, packet))
    ensures Shape(StepTo(w, DataArrives(a, packet)), size)
  {
    hide SenderOk, ArrivedPython, Ahead, Last, Body, Open;
    PassedOn(w, a, packet, size);
    var r' := ArrivedPython(w.r, Last(packet)).0;
    ArrivedShape(w.r, Last(packet));
    StampFollows(w.rbase, r'.stamp);
  }

  lemma {:induction false} AppendedDelivered(w: World, w': World, a: nat, b: nat)
    requires a < |w.payloads| && w'.payloads == w.payloads && w'.delivered == w.delivered + [(a, w.payloads[a])]
    ensures DeliveredWhole(w', b) <==> DeliveredWhole(w, b) || b == a
  {
    var d := w'.delivered;
    if DeliveredWhole(w, b) {
      var k :| 0 <= k < |w.delivered| && w.delivered[k] == (b, w.payloads[b]);
      assert d[k] == (b, w.payloads[b]);
    }
    assert d[|w.delivered|] == (a, w.payloads[a]);
    if DeliveredWhole(w', b) {
      var k :| 0 <= k < |d| && d[k] == (b, w.payloads[b]);
      assert k < |w.delivered| ==> w.delivered[k] == (b, w.payloads[b]);
    }
  }

  /** A packet keeps the promises if and only if it is passed on exactly when it is new. */
  lemma DataKeepsHonest(w: World, a: nat, packet: Bytes, size: nat)
    requires Shape(w, size) && Honest(w) && Occurs(w, DataArrives(a, packet))
    ensures Shape(StepTo(w, DataArrives(a, packet)), size)
    ensures Honest(StepTo(w, DataArrives(a, packet))) <==> !Harms(w, DataArrives(a, packet))
  {
    hide Shape, Honest, StepTo, DeliveredWhole, Distinct, Occurs, Open, IsDelivered;
    var w' := StepTo(w, DataArrives(a, packet));
    DataShape(w, a, packet, size);
    PassedOn(w, a, packet, size);
    HonestIs(w, size);
    HonestIs(w', size);
    ShapeIsSound(w, size);
    WholeIsDelivered(w, a);
    forall b: nat ensures LetGo(w', b) == LetGo(w, b) {}
    if Open(w, a) {
      forall b: nat ensures DeliveredWhole(w', b) <==> DeliveredWhole(w, b) || b == a { AppendedDelivered(w, w', a, b); }
      OnceMore(w.delivered, (a, w.payloads[a]));
    } else {
      forall b: nat ensures DeliveredWhole(w', b) == DeliveredWhole(w, b) { SameDelivered(w, w', b); }
      assert a in w'.acks;
    }
  }

  lemma ShapeIsSound(w: World, size: nat)
    requires Shape(w, size)
    ensures Sound(w)
  {}

  /** Nothing is delivered twice after one delivery more if and only if that packet is new. */
  lemma OnceMore(delivered: seq<(nat, Bytes)>, x: (nat, Bytes))
    requires Distinct(delivered)
    ensures Distinct(delivered + [x]) <==> !IsDelivered(delivered, x.0)
  {
    var d, n := delivered + [x], |delivered|;
    assert d[n] == x && forall k :: 0 <= k < n ==> d[k] == delivered[k];
    if IsDelivered(delivered, x.0) {
      var k :| 0 <= k < n && delivered[k].0 == x.0;
      assert d[k].0 == d[n].0;
    }
  }

  // ---- an acknowledgement arrives ----------------------------------------------------------------

  /** One that is taken for a waiting slot k: what the sender lets go of is the packet of that slot, and what it held as acknowledged. */
  lemma AckTaken(w: World, a: nat, k: nat, size: nat)
    requires Shape(w, size) && k < size && k == Ahead(w.base, a)
    requires |w.s.slots| == |w.s.packets| == size && w.s.slots[k] == WaitForRes
    ensures var w' := StepTo(w, AckArrives(a));
      && Shape(w', size) && w' == w.(s := w'.s, base := w'.base)
      && w.base <= w'.base
      && (forall b: nat :: LetGo(w', b) <==> LetGo(w, b) || b == w.base + k)
  {
    hide Step, Ahead, Released, SenderOk, DataOk, LetGo;
    AckTakenFor(w, a, k, size);
    ReleasedSender(w.s, w.base, w.payloads, size, w.base + k);
    var (s', base') := Released(w.s, w.base, w.base + k);
    forall b: nat ensures LetGo(w.(s := s', base := base'), b) <==> LetGo(w, b) || b == w.base + k {
      ReleasedLetsGo(w, k, b);
    }
  }

  lemma ReleasedLetsGo(w: World, k: nat, b: nat)
    requires k < |w.s.slots| == |w.s.packets|
    ensures var (s', base') := Released(w.s, w.base, w.base + k);
      LetGo(w.(s := s', base := base'), b) <==> LetGo(w, b) || b == w.base + k
  {
    var slots := w.s.slots[k := End];
    var n := Finished(slots);
    assert w.base <= b < w.base + |slots| && b != w.base + k ==> slots[b - w.base] == w.s.slots[b - w.base];
    hide Finished;
  }

  lemma AckKeepsHonest(w: World, a: nat, size: nat)
    requires Shape(w, size) && Honest(w) && Occurs(w, AckArrives(a))
    ensures Shape(StepTo(w, AckArrives(a)), size)
    ensures Honest(StepTo(w, AckArrives(a))) <==> !Harms(w, AckArrives(a))
  {
    hide Shape, Honest, StepTo, Ahead, DeliveredWhole, LetGo, IsDelivered, Distinct;
    ShapeIsSender(w, size);
    AheadNear(w.base, a);
    var k := Ahead(w.base, a);
    var w' := StepTo(w, AckArrives(a));
    ShapeIsSound(w, size);
    HonestIs(w, size);
    WholeIsDelivered(w, a);
    if k < size && w.s.slots[k] == WaitForRes {
      OwnSlot(w, a, size);
      WholeIsDelivered(w, w.base + k);
      AckTaken(w, a, k, size);
      HonestIs(w', size);
      forall b: nat ensures DeliveredWhole(w', b) == DeliveredWhole(w, b) { SameDelivered(w, w', b); }
    } else {
      IgnoredAck(w, a, size);
    }
  }

  lemma ShapeIsSender(w: World, size: nat)
    requires Shape(w, size)
    ensures |w.s.slots| == |w.s.packets| == |w.r.slots| == size <= 127
  {}

  lemma IgnoredAck(w: World, a: nat, size: nat)
    requires Shape(w, size) && |w.s.slots| == |w.s.packets| == size
    requires Ahead(w.base, a) < size ==> w.s.slots[Ahead(w.base, a)] != WaitForRes
    ensures StepTo(w, AckArrives(a)) == w
  {
    hide Step, SenderOk, Ahead;
    AckIgnored(w, a, size);
  }

  /** What is not behind the base has its own slot. */
  lemma OwnSlot(w: World, a: nat, size: nat)
    requires Shape(w, size) && a in w.acks
    ensures a >= w.base ==> Ahead(w.base, a) == a - w.base
  {
    AheadNear(w.base, a);
    hide Ahead, Numbered, DataOk, Sound;
  }

  // ---- runs --------------------------------------------------------------------------------------

  /** Every event keeps the shape, harmful or not. */
  lemma StepShape(w: World, e: Event, size: nat)
    requires Shape(w, size) && Occurs(w, e)
    ensures Shape(StepTo(w, e), size)
  {
    hide Shape, StepTo, Ahead;
    ShapeIsSender(w, size);
    match e
    case Send(payload) => SendShape(w, payload, size);
    case Resend(slot) => ResendShape(w, slot, size);
    case DataArrives(a, packet) => DataShape(w, a, packet, size);
    case AckArrives(a) =>
      var k := Ahead(w.base, a);
      AheadNear(w.base, a);
      if k < size && w.s.slots[k] == WaitForRes { AckTaken(w, a, k, size); } else { IgnoredAck(w, a, size); }
  }

  /** One event: the promises are kept if and only if it is not harmful. */
  lemma StepKeepsHonest(w: World, e: Event, size: nat)
    requires Shape(w, size) && Honest(w) && Occurs(w, e)
    ensures Shape(StepTo(w, e), size)
    ensures Honest(StepTo(w, e)) <==> !Harms(w, e)
  {
    hide Shape, Honest, StepTo, Open, IsDelivered, Mistaken, Ahead;
    match e
    case Send(payload) => SendKeeps(w, payload, size);
    case Resend(slot) => ResendKeeps(w, slot, size);
    case DataArrives(a, packet) => DataKeepsHonest(w, a, packet, size);
    case AckArrives(a) => AckKeepsHonest(w, a, size);
  }

  ghost predicate OccursTo(w: World, events: seq<Event>)
    decreases |events|
  {
    events == [] || (Occurs(w, events[0]) && OccursTo(StepTo(w, events[0]), events[1..]))
  }

  ghost function AfterTo(w: World, events: seq<Event>): World
    decreases |events|
  {
    if events == [] then w else AfterTo(StepTo(w, events[0]), events[1..])
  }

  /** The promises hold at every point of the run. */
  ghost predicate AlwaysHonest(w: World, events: seq<Event>)
    decreases |events|
  {
    Honest(w) && (events == [] || AlwaysHonest(StepTo(w, events[0]), events[1..]))
  }

  /** No event of the run does harm. */
  ghost predicate NoHarm(w: World, events: seq<Event>)
    decreases |events|
  {
    events == [] || (!Harms(w, events[0]) && NoHarm(StepTo(w, events[0]), events[1..]))
  }

  lemma StartHonest(size: nat)
    requires 1 <= size <= 127
    ensures Shape(Start(size), size) && Honest(Start(size))
  {}

  lemma {:induction false} RunKeepsHonest(w: World, events: seq<Event>, size: nat)
    requires Shape(w, size) && Honest(w) && OccursTo(w, events)
    ensures AlwaysHonest(w, events) <==> NoHarm(w, events)
    decreases |events|
  {
    hide Shape, Honest, StepTo, Harms, Occurs;
    if events != [] {
      StepKeepsHonest(w, events[0], size);
      if !Harms(w, events[0]) { RunKeepsHonest(StepTo(w, events[0]), events[1..], size); }
    }
  }

  /** With the Python receiver, for windows of any size and packets of any age: exactly the harmful events break the promises. */
  lemma HonestExactly(events: seq<Event>, size: nat)
    requires 1 <= size <= 127 && OccursTo(Start(size), events)
    ensures AlwaysHonest(Start(size), events) <==> NoHarm(Start(size), events)
  {
    hide Shape, AlwaysHonest, NoHarm, OccursTo, Start;
    StartHonest(size);
    RunKeepsHonest(Start(size), events, size);
  }

  /** It makes no difference which version the sender has. */
  lemma EitherSender(w: World, e: Event, size: nat)
    requires Shape(w, size) && !e.DataArrives?
    ensures StepTo(w, e) == StepPython(w, e)
  {
    hide SenderOk, StepPython, Step;
    SameStep(w, e, size);
  }

  // ---- within the age bound ----------------------------------------------------------------------

  /** The slots of a window are those of its numbers, and nothing further on was passed on. */
  ghost predicate InStepAt(slots: seq<Status>, base: nat, delivered: seq<(nat, Bytes)>) {
    && (forall i :: 0 <= i < |slots| ==> slots[i] != WaitForRes)
    && (forall i: nat :: i < |slots| ==> (slots[i] == End <==> IsDelivered(delivered, base + i)))
    && (forall a: nat :: a >= base + |slots| ==> !IsDelivered(delivered, a))
  }

  ghost predicate InStep(w: World) { InStepAt(w.r.slots, w.rbase, w.delivered) }

  /** Packet a lies in the receiving window. */
  predicate InWindow(rbase: nat, a: nat, size: nat) { rbase <= a < rbase + size }

  /** The sender is not far enough ahead for numbers to come round. */
  lemma NotFarAhead(w: World, size: nat)
    requires Shape(w, size) && Honest(w) && InStep(w)
    ensures |w.payloads| <= w.rbase + 2 * size
  {
    if w.base > 0 { WholeIsDelivered(w, w.base - 1); }
  }

  /**
   * Within the age bound, and with two to 64 slots, a packet is harmful if and only if it was not
   * passed on and the window is past it or not yet at it; acknowledgements never are.
   */
  lemma HarmsWithinBound(w: World, e: Event, size: nat)
    requires Shape(w, size) && Honest(w) && InStep(w) && 2 <= size <= 64 && Possible(w, e, size)
    ensures Occurs(w, e)
    ensures Harms(w, e) <==> e.DataArrives? && !IsDelivered(w.delivered, e.a) && !InWindow(w.rbase, e.a, size)
    ensures e.DataArrives? && Open(w, e.a) && !Harms(w, e) ==> InWindow(w.rbase, e.a, size)
  {
    hide Honest, Ahead, IsDelivered, SenderOk;
    match e
    case Send(payload) =>
    case Resend(slot) =>
    case DataArrives(a, packet) =>
      NotFarAhead(w, size);
      AheadNear(w.rbase, a);
      assert a < |w.payloads| by { hide Sound; assert (a, packet) in w.data; }
    case AckArrives(a) =>
      SenderLengths(w, size);
      AheadNear(w.base, a);
  }

  /** The window after a packet is passed on. */
  lemma TakenTo(w: World, a: nat, packet: Bytes, size: nat)
    requires Shape(w, size) && Occurs(w, DataArrives(a, packet)) && Open(w, a)
    ensures Ahead(w.rbase, a) < |w.r.slots|
    ensures var slots := w.r.slots[Ahead(w.rbase, a) := End];
      var m, w' := Gone(slots), StepTo(w, DataArrives(a, packet));
      && w'.r.slots == Slid(slots, m, Idle)
      && w'.rbase == if size == 1 then w.rbase else w.rbase + m
  {
    LastNumber(w, a, packet);
    AheadOfRemainders(w.rbase, a);
    AheadRange(w.rbase, a);
    hide SenderOk, Numbered, ArrivedPython, Last, Body, Gone, Slid, Ahead, Onward;
    PassedOnExactly(w.r, a % 128);
    var m := Gone(w.r.slots[Ahead(w.rbase, a) := End]);
    OnwardBase(w.rbase, m);
    SameStamp(w.r.stamp);
    StampStays(w.r.stamp);
  }

  lemma StampStays(stamp: nat)
    ensures stamp < 128 ==> Onward(stamp, 0) == stamp
  {}

  lemma IsDeliveredAppend(delivered: seq<(nat, Bytes)>, x: (nat, Bytes), b: nat)
    ensures IsDelivered(delivered + [x], b) <==> IsDelivered(delivered, b) || b == x.0
  {
    var d := delivered + [x];
    assert d[|delivered|] == x;
    if IsDelivered(delivered, b) {
      var k :| 0 <= k < |delivered| && delivered[k].0 == b;
      assert d[k].0 == b;
    }
  }

  /** A slot more that is finished, and any number of slots taken off, leave slots and numbers in step. */
  lemma TakenInStep(slots: seq<Status>, base: nat, delivered: seq<(nat, Bytes)>, x: (nat, Bytes), m: nat)
    requires InStepAt(slots, base, delivered) && base <= x.0 < base + |slots| && m <= |slots|
    ensures InStepAt(Slid(slots[x.0 - base := End], m, Idle), base + m, delivered + [x])
  {
    hide IsDelivered, Slid;
    forall b: nat ensures IsDelivered(delivered + [x], b) <==> IsDelivered(delivered, b) || b == x.0 {
      IsDeliveredAppend(delivered, x, b);
    }
    var after := Slid(slots[x.0 - base := End], m, Idle);
    SlidAt(slots[x.0 - base := End], m);
    forall i: nat | i < |slots| ensures after[i] != WaitForRes && (after[i] == End <==> IsDelivered(delivered + [x], base + m + i)) {
      assert base + m + i == base + (m + i);
    }
  }

  lemma SlidAt(slots: seq<Status>, m: nat)
    requires m <= |slots|
    ensures |Slid(slots, m, Idle)| == |slots|
    ensures forall i: nat :: i < |slots| ==> Slid(slots, m, Idle)[i] == if m + i < |slots| then slots[m + i] else Idle
  {}

  /** A packet passed on in the window keeps the slots and the numbers in step. */
  lemma InStepTaken(w: World, a: nat, packet: Bytes, size: nat)
    requires Shape(w, size) && InStep(w) && 2 <= size && Occurs(w, DataArrives(a, packet))
    requires Open(w, a) && InWindow(w.rbase, a, size)
    ensures InStep(StepTo(w, DataArrives(a, packet)))
  {
    hide StepTo, SenderOk, Open, IsDelivered, Ahead, DataOk, Gone, Slid, Sound, InStepAt, Occurs;
    PassedOn(w, a, packet, size);
    TakenTo(w, a, packet, size);
    AheadNear(w.rbase, a);
    TakenInStep(w.r.slots, w.rbase, w.delivered, (a, w.payloads[a]), Gone(w.r.slots[a - w.rbase := End]));
  }

  lemma InStepKept(w: World, e: Event, size: nat)
    requires Shape(w, size) && Honest(w) && InStep(w) && 2 <= size <= 64 && Possible(w, e, size) && !Harms(w, e)
    ensures InStep(StepTo(w, e))
  {
    HarmsWithinBound(w, e, size);
    if e.DataArrives? {
      hide Shape, Honest, InStep, StepTo, Open, IsDelivered, Harms;
      if Open(w, e.a) {
        InStepTaken(w, e.a, e.packet, size);
      } else {
        NothingTaken(w, e.a, e.packet, size);
      }
    } else {
      hide IsDelivered, SenderOk, Honest, Sent, Acknowledged;
    }
  }

  lemma NothingTaken(w: World, a: nat, packet: Bytes, size: nat)
    requires Shape(w, size) && InStep(w) && Occurs(w, DataArrives(a, packet)) && !Open(w, a)
    ensures InStep(StepTo(w, DataArrives(a, packet)))
  {
    PassedOn(w, a, packet, size);
    LastNumber(w, a, packet);
    hide SenderOk, Numbered, ArrivedPython, Last, Body, Ahead, Open, IsDelivered;
    PassedOnExactly(w.r, a % 128);
    SameStamp(w.r.stamp);
  }

  ghost predicate PossibleTo(w: World, events: seq<Event>, size: nat)
    decreases |events|
  {
    events == [] || (Possible(w, events[0], size) && PossibleTo(StepTo(w, events[0]), events[1..], size))
  }

  /** Every packet that comes was passed on before or lies in the window it meets. */
  ghost predicate NonePassedOver(w: World, events: seq<Event>, size: nat)
    decreases |events|
  {
    events == [] || (
      && (events[0].DataArrives? ==> IsDelivered(w.delivered, events[0].a) || InWindow(w.rbase, events[0].a, size))
      && NonePassedOver(StepTo(w, events[0]), events[1..], size))
  }

  lemma {:induction false} RunWithinBound(w: World, events: seq<Event>, size: nat)
    requires Shape(w, size) && Honest(w) && InStep(w) && 2 <= size <= 64 && PossibleTo(w, events, size)
    ensures AlwaysHonest(w, events) <==> NonePassedOver(w, events, size)
    decreases |events|
  {
    hide Shape, Honest, InStep, StepTo, Harms, Possible, Occurs, IsDelivered, InWindow;
    if events != [] {
      HarmsWithinBound(w, events[0], size);
      StepKeepsHonest(w, events[0], size);
      if !Harms(w, events[0]) {
        InStepKept(w, events[0], size);
        RunWithinBound(StepTo(w, events[0]), events[1..], size);
      } else {
        NotHonest(StepTo(w, events[0]), events[1..]);
      }
    }
  }

  lemma NotHonest(w: World, events: seq<Event>)
    ensures !Honest(w) ==> !AlwaysHonest(w, events)
  {}

  /**
   * Within the age bound, for windows of two to 64 slots: the promises hold at every point of a run
   * if and only if every packet that comes was passed on before or lies in the window it meets, so
   * none was taken off without having come and none lies ahead of a window that lags.
   */
  lemma HonestWithinBound(events: seq<Event>, size: nat)
    requires 2 <= size <= 64 && PossibleTo(Start(size), events, size)
    ensures AlwaysHonest(Start(size), events) <==> NonePassedOver(Start(size), events, size)
  {
    StartHonest(size);
    assert InStep(Start(size));
    hide Shape, Honest, InStep, AlwaysHonest, NonePassedOver, PossibleTo, Start;
    RunWithinBound(Start(size), events, size);
  }

  // ---- a window of one slot ----------------------------------------------------------------------

  /** A window of one slot never moves: it passes on packets 0, 128, 256, ... each time they come, and no other. */
  lemma OneSlot(w: World, e: Event)
    requires Shape(w, 1) && w.r == Receiver(0, [Idle]) && w.rbase == 0 && Occurs(w, e)
    ensures StepTo(w, e).r == w.r && StepTo(w, e).rbase == 0
    ensures e.DataArrives? ==> (Harms(w, e) <==> (e.a % 128 == 0 <==> IsDelivered(w.delivered, e.a)))
  {
    if e.DataArrives? {
      PassedOn(w, e.a, e.packet, 1);
      LastNumber(w, e.a, e.packet);
      hide SenderOk, Numbered, ArrivedPython, Last, Body, IsDelivered;
      PassedOnExactly(w.r, e.a % 128);
      if Open(w, e.a) {
        TakenTo(w, e.a, e.packet, 1);
        assert Slid([End], 1, Idle) == [Idle];
        assert w.r.slots[0 := End] == [End];
        StampStays(0);
      }
      SameStamp(0);
    } else {
      hide SenderOk, Sent, Acknowledged;
    }
  }

  lemma {:induction false} OneSlotStays(w: World, events: seq<Event>)
    requires Shape(w, 1) && w.r == Receiver(0, [Idle]) && w.rbase == 0 && OccursTo(w, events)
    ensures AfterTo(w, events).r == Receiver(0, [Idle])
    decreases |events|
  {
    hide Shape, StepTo, Occurs, Harms;
    if events != [] {
      OneSlot(w, events[0]);
      StepShape(w, events[0], 1);
      OneSlotStays(StepTo(w, events[0]), events[1..]);
    }
  }

  /** In every run. */
  lemma OneSlotNeverMoves(events: seq<Event>)
    requires OccursTo(Start(1), events)
    ensures AfterTo(Start(1), events).r == Receiver(0, [Idle])
  {
    StartHonest(1);
    assert Start(1).r.slots == [Idle];
    hide Shape, AfterTo, OccursTo, Start;
    OneSlotStays(Start(1), events);
  }

  // ---- runs that get there -----------------------------------------------------------------------

  /** A run within the age bound, without harm, from w to w'. */
  ghost predicate Leads(w: World, events: seq<Event>, w': World, size: nat) {
    PossibleTo(w, events, size) && NoHarm(w, events) && AfterTo(w, events) == w'
  }

  /** Where it leads, and one more event that can happen there. */
  lemma LeadsThere(w: World, events: seq<Event>, w': World, e: Event, size: nat)
    requires Leads(w, events, w', size) && Possible(w', e, size)
    ensures AfterTo(w, events) == w' && NoHarm(w, events) && PossibleTo(w, events + [e], size)
  {
    PossibleOn(w, events, e, size);
  }

  lemma {:induction false} PossibleOn(w: World, events: seq<Event>, e: Event, size: nat)
    requires PossibleTo(w, events, size) && Possible(AfterTo(w, events), e, size)
    ensures PossibleTo(w, events + [e], size)
    decreases |events|
  {
    hide Possible, StepTo;
    if events == [] {
      assert [e][1..] == [];
    } else {
      PossibleOn(StepTo(w, events[0]), events[1..], e, size);
      assert (events + [e])[1..] == events[1..] + [e];
    }
  }

  lemma LeadsNowhere(w: World, size: nat)
    ensures Leads(w, [], w, size)
  {}

  lemma {:induction false} LeadsAppend(w: World, one: seq<Event>, middle: World, two: seq<Event>, w': World, size: nat)
    requires Leads(w, one, middle, size) && Leads(middle, two, w', size)
    ensures Leads(w, one + two, w', size)
    decreases |one|
  {
    hide Possible, StepTo, Harms;
    if one == [] {
      assert one + two == two;
    } else {
      LeadsAppend(StepTo(w, one[0]), one[1..], middle, two, w', size);
      assert (one + two)[1..] == one[1..] + two;
    }
  }

  /** One event more. */
  lemma LeadsOn(w: World, events: seq<Event>, middle: World, e: Event, size: nat)
    requires Leads(w, events, middle, size) && Possible(middle, e, size) && !Harms(middle, e)
    ensures Leads(w, events + [e], StepTo(middle, e), size)
  {
    hide Possible, StepTo, Harms;
    assert [e][1..] == [];
    LeadsNowhere(StepTo(middle, e), size);
    assert Leads(middle, [e], StepTo(middle, e), size);
    LeadsAppend(w, events, middle, [e], StepTo(middle, e), size);
  }

  function Free(size: nat): (slots: seq<Status>)
    ensures |slots| == size
  {
    seq(size, _ => Idle)
  }

  /** The first `sent` packets were sent, and no acknowledgement has come back. */
  ghost predicate Waiting(w: World, payload: Bytes, sent: nat, size: nat) {
    && Shape(w, size) && Honest(w) && w.base == 0 && |w.payloads| == sent <= size
    && (forall i :: 0 <= i < size ==> w.s.slots[i] != End)
    && (forall a: nat :: a < sent ==> (a, Packet(payload, a)) in w.data)
  }

  ghost predicate Untouched(w: World, size: nat) {
    w.r == Receiver(0, Free(size)) && w.rbase == 0 && w.delivered == [] && w.acks == {}
  }

  lemma SentPacket(w: World, payload: Bytes, size: nat)
    requires Shape(w, size) && |w.payloads| - w.base < size
    ensures var w' := StepTo(w, Send(payload));
      && w' == w.(s := w'.s, payloads := w.payloads + [payload], data := w.data + {(|w.payloads|, Packet(payload, |w.payloads|))})
      && forall i :: 0 <= i < size && w.s.slots[i] != End ==> |w'.s.slots| == size && w'.s.slots[i] != End
  {
    SendSender(w.s, w.base, w.payloads, size, payload);
    hide Sent;
  }

  lemma WaitingSend(w: World, payload: Bytes, sent: nat, size: nat)
    requires Waiting(w, payload, sent, size) && Untouched(w, size) && sent < size
    ensures Possible(w, Send(payload), size) && !Harms(w, Send(payload))
    ensures Waiting(StepTo(w, Send(payload)), payload, sent + 1, size) && Untouched(StepTo(w, Send(payload)), size)
  {
    SentPacket(w, payload, size);
    StepKeepsHonest(w, Send(payload), size);
    hide StepTo, Honest, SenderOk, DataOk, Sound;
  }

  lemma {:induction false} SendsWait(payload: Bytes, n: nat, size: nat) returns (w: World)
    requires 1 <= size <= 127 && n <= size
    ensures Leads(Start(size), Sends(payload, n), w, size) && Waiting(w, payload, n, size) && Untouched(w, size)
  {
    if n == 0 {
      w := Start(size);
      StartHonest(size);
      LeadsNowhere(w, size);
    } else {
      hide Leads, Waiting, Untouched, Possible, Harms, StepTo;
      var before := SendsWait(payload, n - 1, size);
      WaitingSend(before, payload, n - 1, size);
      LeadsOn(Start(size), Sends(payload, n - 1), before, Send(payload), size);
      w := StepTo(before, Send(payload));
    }
  }

  /** A packet that is passed on in the window, as the receiver alone says it. */
  lemma WaitingData(w: World, payload: Bytes, sent: nat, a: nat, r: Receiver, size: nat)
    requires Waiting(w, payload, sent, size) && a < sent && w.rbase == 0
    requires ArrivedPython(w.r, a % 128) == (r, Delivered) && !IsDelivered(w.delivered, a)
    ensures var e := DataArrives(a, Packet(payload, a));
      && Possible(w, e, size) && !Harms(w, e)
      && Waiting(StepTo(w, e), payload, sent, size)
      && StepTo(w, e) == w.(r := r, rbase := Ahead(w.r.stamp, r.stamp), acks := w.acks + {a}, delivered := w.delivered + [(a, w.payloads[a])])
  {
    var e := DataArrives(a, Packet(payload, a));
    assert (a, Packet(payload, a)) in w.data;
    LastNumber(w, a, Packet(payload, a));
    PassedOn(w, a, Packet(payload, a), size);
    hide ArrivedPython, SenderOk, Open, IsDelivered, Honest, Last, Body, Packet;
    StepKeepsHonest(w, e, size);
  }

  lemma WaitingIs(w: World, payload: Bytes, sent: nat, size: nat)
    requires Waiting(w, payload, sent, size)
    ensures Shape(w, size) && Honest(w) && w.base == 0 && |w.payloads| == sent && |w.s.slots| == size
    ensures forall i :: 0 <= i < size ==> w.s.slots[i] != End
    ensures forall a: nat :: a < sent ==> (a, Packet(payload, a)) in w.data
  {}

  lemma DropLeads(payload: Bytes, size: nat)
    requires 3 <= size <= 126
    ensures var events := Sends(payload, 3) + [DataArrives(2, Packet(payload, 2))] + [DataArrives(0, Packet(payload, 0))];
      var e := DataArrives(1, Packet(payload, 1));
      exists w :: Leads(Start(size), events, w, size) && Possible(w, e, size) && Harms(w, e)
        && StepTo(w, e).delivered == w.delivered && 1 in StepTo(w, e).acks && !DeliveredWhole(StepTo(w, e), 1)
        && !Honest(StepTo(w, e))
  {
    hide Leads, Waiting, ArrivedPython;
    var start := Start(size);
    var w0 := SendsWait(payload, 3, size);
    ThreePacketsLoseOne(size);
    var free := Free(size);
    var r1, r2 := Receiver(0, free[2 := End]), Receiver(2, free[0 := End]);
    assert w0.r == Receiver(0, free) && !IsDelivered(w0.delivered, 2);
    WaitingIs(w0, payload, 3, size);
    WaitingData(w0, payload, 3, 2, r1, size);
    var w1 := StepTo(w0, DataArrives(2, Packet(payload, 2)));
    IsDeliveredAppend(w0.delivered, (2, w0.payloads[2]), 0);
    IsDeliveredAppend(w0.delivered, (2, w0.payloads[2]), 1);
    WaitingData(w1, payload, 3, 0, r2, size);
    var w2 := StepTo(w1, DataArrives(0, Packet(payload, 0)));
    IsDeliveredAppend(w1.delivered, (0, w1.payloads[0]), 1);
    hide StepTo, Possible, Harms, Untouched, IsDelivered;
    LeadsOn(start, Sends(payload, 3), w0, DataArrives(2, Packet(payload, 2)), size);
    LeadsOn(start, Sends(payload, 3) + [DataArrives(2, Packet(payload, 2))], w1, DataArrives(0, Packet(payload, 0)), size);
    WaitingIs(w2, payload, 3, size);
    hide Shape, Honest;
    PassedOver(w2, payload, 3, 1, size);
  }

  /** Packets 0 to 2 are sent and arrive in the order 2, 0, 1: packet 1 is acknowledged and was never passed on. */
  lemma DropRun(payload: Bytes, size: nat)
    requires 3 <= size <= 126
    ensures var events := Sends(payload, 3) + [DataArrives(2, Packet(payload, 2))] + [DataArrives(0, Packet(payload, 0))];
      var e := DataArrives(1, Packet(payload, 1));
      var w := AfterTo(Start(size), events);
      && PossibleTo(Start(size), events + [e], size) && NoHarm(Start(size), events) && Harms(w, e)
      && StepTo(w, e).delivered == w.delivered && 1 in StepTo(w, e).acks && !DeliveredWhole(StepTo(w, e), 1)
      && !Honest(StepTo(w, e))
  {
    var events := Sends(payload, 3) + [DataArrives(2, Packet(payload, 2))] + [DataArrives(0, Packet(payload, 0))];
    var e := DataArrives(1, Packet(payload, 1));
    hide Leads, Possible, Harms, StepTo, DeliveredWhole, Honest, PossibleTo, NoHarm, AfterTo, Start, Sends;
    DropLeads(payload, size);
    var w :| Leads(Start(size), events, w, size) && Possible(w, e, size) && Harms(w, e)
      && StepTo(w, e).delivered == w.delivered && 1 in StepTo(w, e).acks && !DeliveredWhole(StepTo(w, e), 1)
      && !Honest(StepTo(w, e));
    LeadsThere(Start(size), events, w, e, size);
  }

  /** A packet that was not passed on and meets no free slot. */
  lemma PassedOver(w: World, payload: Bytes, sent: nat, a: nat, size: nat)
    requires Shape(w, size) && Honest(w) && (a, Packet(payload, a)) in w.data && w.rbase <= a + 127 - size
    requires !IsDelivered(w.delivered, a) && ArrivedPython(w.r, a % 128).1 != Delivered
    ensures var e := DataArrives(a, Packet(payload, a));
      && Possible(w, e, size) && Harms(w, e)
      && StepTo(w, e).delivered == w.delivered && a in StepTo(w, e).acks && !DeliveredWhole(StepTo(w, e), a)
      && !Honest(StepTo(w, e))
  {
    var e := DataArrives(a, Packet(payload, a));
    PassedOn(w, a, Packet(payload, a), size);
    hide ArrivedPython, SenderOk, Open, IsDelivered, Honest, Last, Body, Packet;
    StepKeepsHonest(w, e, size);
    WholeIsDelivered(StepTo(w, e), a);
  }

  /** Packets 0 and 1 have been passed on, the receiver lags by one, and the sender's window begins at base. */
  ghost predicate Lagging(w: World, payload: Bytes, base: nat, sent: nat, size: nat) {
    && Shape(w, size) && Honest(w) && w.base == base && |w.payloads| == sent && 2 <= size
    && w.r == Receiver(1, Free(size)[0 := End]) && w.rbase == 1
    && w.acks == {0, 1} && (forall k :: 0 <= k < |w.delivered| ==> w.delivered[k].0 < 2)
    && IsDelivered(w.delivered, 0) && IsDelivered(w.delivered, 1)
    && (forall i :: 0 <= i < size ==> w.s.slots[i] != End)
  }

  /** The acknowledgement of the first slot moves the sender on by one. */
  lemma LaggingAck(w: World, payload: Bytes, base: nat, sent: nat, size: nat)
    requires Lagging(w, payload, base, sent, size) && base < 2 <= sent
    ensures Possible(w, AckArrives(base), size) && !Harms(w, AckArrives(base))
    ensures Lagging(StepTo(w, AckArrives(base)), payload, base + 1, sent, size)
  {
    hide Honest, IsDelivered, DataOk, Sound, Ahead, Released, Step;
    assert w.s.slots[0] == WaitForRes;
    AheadNear(base, base);
    hide SenderOk;
    AckTakenFor(w, base, 0, size);
    FirstReleased(w.s, base);
    StepKeepsHonest(w, AckArrives(base), size);
  }

  lemma FirstReleased(s: Sender, base: nat)
    requires 0 < |s.slots| == |s.packets| && forall i :: 0 <= i < |s.slots| ==> s.slots[i] != End
    ensures var (s', base') := Released(s, base, base);
      base' == base + 1 && |s'.slots| == |s.slots| && forall i :: 0 <= i < |s'.slots| ==> s'.slots[i] != End
  {
    OneFinished(s.slots[0 := End]);
    hide Finished;
  }

  lemma LaggingSend(w: World, payload: Bytes, sent: nat, size: nat)
    requires Lagging(w, payload, 2, sent, size) && sent < size + 2
    ensures Possible(w, Send(payload), size) && !Harms(w, Send(payload))
    ensures Lagging(StepTo(w, Send(payload)), payload, 2, sent + 1, size)
    ensures (sent, Packet(payload, sent)) in StepTo(w, Send(payload)).data
  {
    SentPacket(w, payload, size);
    StepKeepsHonest(w, Send(payload), size);
    hide StepTo, Honest, SenderOk, DataOk, Sound, IsDelivered;
  }

  /** Packets 1 and 0 arrive, in this order, out of as many as the window has slots. */
  lemma LagBegins(payload: Bytes, size: nat) returns (w: World)
    requires 2 <= size <= 127
    ensures Leads(Start(size), Sends(payload, size) + [DataArrives(1, Packet(payload, 1))] + [DataArrives(0, Packet(payload, 0))], w, size)
    ensures Lagging(w, payload, 0, size, size)
  {
    hide Leads, Waiting, ArrivedPython, Shape, Honest;
    var w0 := SendsWait(payload, size, size);
    LagLosesOne(size);
    var free := Free(size);
    var r1, r2 := Receiver(0, free[1 := End]), Receiver(1, free[0 := End]);
    assert w0.r == Receiver(0, free) && !IsDelivered(w0.delivered, 1);
    WaitingIs(w0, payload, size, size);
    WaitingData(w0, payload, size, 1, r1, size);
    var w1 := StepTo(w0, DataArrives(1, Packet(payload, 1)));
    IsDeliveredAppend(w0.delivered, (1, w0.payloads[1]), 0);
    IsDeliveredAppend(w0.delivered, (1, w0.payloads[1]), 1);
    WaitingData(w1, payload, size, 0, r2, size);
    w := StepTo(w1, DataArrives(0, Packet(payload, 0)));
    IsDeliveredAppend(w1.delivered, (0, w1.payloads[0]), 0);
    IsDeliveredAppend(w1.delivered, (0, w1.payloads[0]), 1);
    assert w.r == r2 && w.rbase == 1 && w.base == 0;
    assert w0.acks == {} ==> w.acks == {0, 1};
    hide StepTo, Possible, Harms, IsDelivered;
    LeadsOn(Start(size), Sends(payload, size), w0, DataArrives(1, Packet(payload, 1)), size);
    LeadsOn(Start(size), Sends(payload, size) + [DataArrives(1, Packet(payload, 1))], w1, DataArrives(0, Packet(payload, 0)), size);
    WaitingIs(w, payload, size, size);
  }

  function LagEvents(payload: Bytes, size: nat): seq<Event> {
    Sends(payload, size) + [DataArrives(1, Packet(payload, 1))] + [DataArrives(0, Packet(payload, 0))]
      + [AckArrives(0)] + [AckArrives(1)] + [Send(payload)] + [Send(payload)]
  }

  lemma LagLeads(payload: Bytes, size: nat)
    requires 2 <= size <= 127
    ensures var e := DataArrives(size + 1, Packet(payload, size + 1));
      exists w :: Leads(Start(size), LagEvents(payload, size), w, size) && Possible(w, e, size) && Harms(w, e)
        && StepTo(w, e).delivered == w.delivered && size + 1 in StepTo(w, e).acks && !DeliveredWhole(StepTo(w, e), size + 1)
        && !Honest(StepTo(w, e))
  {
    hide Leads, Lagging, ArrivedPython, StepTo, Possible, Harms, Sends, Start, Honest, DeliveredWhole;
    var start := Start(size);
    var events := Sends(payload, size) + [DataArrives(1, Packet(payload, 1))] + [DataArrives(0, Packet(payload, 0))];
    var w0 := LagBegins(payload, size);
    LaggingAck(w0, payload, 0, size, size);
    LeadsOn(start, events, w0, AckArrives(0), size);
    var w1 := StepTo(w0, AckArrives(0));
    LaggingAck(w1, payload, 1, size, size);
    LeadsOn(start, events + [AckArrives(0)], w1, AckArrives(1), size);
    var w2 := StepTo(w1, AckArrives(1));
    LaggingSend(w2, payload, size, size);
    LeadsOn(start, events + [AckArrives(0)] + [AckArrives(1)], w2, Send(payload), size);
    var w3 := StepTo(w2, Send(payload));
    LaggingSend(w3, payload, size + 1, size);
    LeadsOn(start, events + [AckArrives(0)] + [AckArrives(1)] + [Send(payload)], w3, Send(payload), size);
    var w4 := StepTo(w3, Send(payload));
    LaggingMisses(w4, payload, size + 2, size);
  }

  lemma LaggingMisses(w: World, payload: Bytes, sent: nat, size: nat)
    requires Lagging(w, payload, 2, sent, size) && (size + 1, Packet(payload, size + 1)) in w.data
    ensures var e := DataArrives(size + 1, Packet(payload, size + 1));
      && Possible(w, e, size) && Harms(w, e)
      && StepTo(w, e).delivered == w.delivered && size + 1 in StepTo(w, e).acks && !DeliveredWhole(StepTo(w, e), size + 1)
      && !Honest(StepTo(w, e))
  {
    hide Honest, ArrivedPython, StepTo, DeliveredWhole, Harms, Possible, SenderOk, DataOk, Sound;
    LagLosesOne(size);
    PassedOver(w, payload, sent, size + 1, size);
  }

  /**
   * No slot is taken off too soon, and still: packets 1 and 0 arrive, both acknowledgements come
   * back, and the last packet the sender may send by then is acknowledged and not passed on.
   */
  lemma LagRun(payload: Bytes, size: nat)
    requires 2 <= size <= 127
    ensures var e := DataArrives(size + 1, Packet(payload, size + 1));
      var w := AfterTo(Start(size), LagEvents(payload, size));
      && PossibleTo(Start(size), LagEvents(payload, size) + [e], size) && NoHarm(Start(size), LagEvents(payload, size)) && Harms(w, e)
      && StepTo(w, e).delivered == w.delivered && size + 1 in StepTo(w, e).acks && !DeliveredWhole(StepTo(w, e), size + 1)
      && !Honest(StepTo(w, e))
  {
    var events, e := LagEvents(payload, size), DataArrives(size + 1, Packet(payload, size + 1));
    hide Leads, Possible, Harms, StepTo, DeliveredWhole, Honest, PossibleTo, NoHarm, AfterTo, Start, LagEvents;
    LagLeads(payload, size);
    var w :| Leads(Start(size), events, w, size) && Possible(w, e, size) && Harms(w, e)
      && StepTo(w, e).delivered == w.delivered && size + 1 in StepTo(w, e).acks && !DeliveredWhole(StepTo(w, e), size + 1)
      && !Honest(StepTo(w, e));
    LeadsThere(Start(size), events, w, e, size);
  }
}
