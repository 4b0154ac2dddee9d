/** Runs in which the sender is that of sliding_window.py, whose confirm_border differs from confirmBorder. */
module PythonRuns {
  import opened Windows
  import opened WindowRuns
  import opened WindowLimits

  /** One event, with acknowledgements looked up by confirm_border. */
  ghost function StepPython(w: World, e: Event): World {
    if |w.s.slots| != |w.s.packets| || !e.AckArrives? then Step(w, e) else
    var s := AcknowledgedAt(w.s, ConfirmBorderPython(w.s.stamp, |w.s.slots|, e.a % 128));
    if s == None then w else w.(s := s.value, base := w.base + Ahead(w.s.stamp, s.value.stamp))
  }

  /**
   * The two versions do the same to a window with a slot, whatever number is acknowledged: where
   * they differ, one names a slot that does not exist and the other none.
   */
  lemma SameAcknowledged(s: Sender, d: int)
    requires |s.slots| == |s.packets| && 1 <= |s.slots| < 128 && s.stamp < 128 && 0 <= d < 128
    ensures var one, two := Acknowledged(s, d), AcknowledgedAt(s, ConfirmBorderPython(s.stamp, |s.slots|, d));
      one == two || (one == None && two == Some(s) && s.stamp + |s.slots| == 128 && d == 0)
  {
    VersionsAgree(s.stamp, |s.slots|, d);
    AtTheEnd(s.stamp, |s.slots|);
    hide Finished, Slid, ConfirmBorder, ConfirmBorderPython;
  }

  /** The one kind of number on which they differ. */
  lemma AtTheEnd(stamp: nat, size: nat)
    requires 1 <= size < 128
    ensures stamp + size == 128 ==> ConfirmBorder(stamp, size, 0) == size && ConfirmBorderPython(stamp, size, 0) == -1
  {}

  /** So a run does not depend on the version its sender has. */
  lemma SameStep(w: World, e: Event, size: nat)
    requires SenderOk(w.s, w.base, w.payloads, size) && size <= 127
    ensures StepPython(w, e) == Step(w, e)
  {
    if e.AckArrives? {
      SenderLengths(w, size);
      SameAcknowledged(w.s, e.a % 128);
      SameStamp(w.s.stamp);
      hide AcknowledgedAt, ConfirmBorder, ConfirmBorderPython, Ahead;
    }
  }

  ghost predicate OccursPython(w: World, events: seq<Event>)
    decreases |events|
  {
    events == [] || (Occurs(w, events[0]) && OccursPython(StepPython(w, events[0]), events[1..]))
  }

  ghost predicate AlwaysPromisedPython(w: World, events: seq<Event>, size: nat)
    decreases |events|
  {
    Promised(w, size) && (events == [] || AlwaysPromisedPython(StepPython(w, events[0]), events[1..], size))
  }

  /** No event of the run does harm. */
  ghost predicate HarmlessPython(w: World, events: seq<Event>)
    decreases |events|
  {
    events == [] || (!Breaks(w, events[0]) && HarmlessPython(StepPython(w, events[0]), events[1..]))
  }

  lemma {:induction false} RunKeepsExactlyPython(w: World, events: seq<Event>, size: nat)
    requires Ok(w, size) && OccursPython(w, events)
    ensures AlwaysPromisedPython(w, events, size) <==> HarmlessPython(w, events)
    decreases |events|
  {
    hide Ok, Promised, Step, StepPython, Breaks, Occurs, SenderOk;
    OkIsPromised(w, size);
    if events != [] {
      Lengths(w, size);
      SameStep(w, events[0], size);
      StepKeepsExactly(w, events[0], size);
      if !Breaks(w, events[0]) { RunKeepsExactlyPython(StepPython(w, events[0]), events[1..], size); }
    }
  }

  /** With the Python sender too, exactly the harmful events break the promises. */
  lemma PythonKeepsExactly(events: seq<Event>, size: nat)
    requires 1 <= size <= 127 && OccursPython(Start(size), events)
    ensures AlwaysPromisedPython(Start(size), events, size) <==> HarmlessPython(Start(size), events)
  {
    hide Ok, AlwaysPromisedPython, HarmlessPython, OccursPython;
    StartOk(size);
    RunKeepsExactlyPython(Start(size), events, size);
  }

  ghost predicate PossiblePython(w: World, events: seq<Event>, size: nat)
    decreases |events|
  {
    events == [] || (Possible(w, events[0], size) && PossiblePython(StepPython(w, events[0]), events[1..], size))
  }

  lemma {:induction false} PossibleKeepsPython(w: World, events: seq<Event>, size: nat)
    requires Ok(w, size) && PossiblePython(w, events, size)
    ensures AlwaysPromisedPython(w, events, size)
    decreases |events|
  {
    hide Ok, Promised, Step, StepPython, Possible, SenderOk;
    OkIsPromised(w, size);
    if events != [] {
      Lengths(w, size);
      SameStep(w, events[0], size);
      StepOk(w, events[0], size);
      PossibleKeepsPython(StepPython(w, events[0]), events[1..], size);
    }
  }

  /** Every run of the Python sender within the age bound keeps the promises of the protocol. */
  lemma PythonRunsKeepThePromises(events: seq<Event>, size: nat)
    requires 1 <= size <= 127 && PossiblePython(Start(size), events, size)
    ensures AlwaysPromisedPython(Start(size), events, size)
  {
    hide Ok, AlwaysPromisedPython, PossiblePython;
    StartOk(size);
    PossibleKeepsPython(Start(size), events, size);
  }
}
