/** What the knock's schedule promises, whoever polls it and whatever the wire does. */
module KnockSchedule {
  import opened KnockModel

  // ---- control slots passed ----------------------------------------------------------

  function ControlIn(slots: seq<Emit>): nat {
    if slots == [] then 0
    else ControlIn(slots[..|slots| - 1]) + (if slots[|slots| - 1].Control() then 1 else 0)
  }

  /** Control slots of the spell up to position `p`. */
  function Passed(c: Cadence, p: Pos): int
    requires p.slot <= |c.cycle|
  {
    ControlIn(c.cycle) * (p.cycles - 1) + ControlIn(c.cycle[..p.slot])
  }

  function Attempts(t: Tally): nat { t.sent + t.late + t.sendErrors }

  lemma PassedTick(c: Cadence, p: Pos)
    requires InCycle(c, p)
    ensures InCycle(c, PosTick(c, p))
    ensures Passed(c, PosTick(c, p)) == Passed(c, p) +
              (if !p.resting && p.slot < |c.cycle| && c.cycle[p.slot].Control() then 1 else 0)
  {
    if !p.resting && p.slot < |c.cycle| {
      assert c.cycle[..p.slot + 1][..p.slot] == c.cycle[..p.slot];
    } else if p.resting {
      assert c.cycle[..p.slot] == c.cycle;
      assert ControlIn(c.cycle[..0]) == 0;
    }
  }

  lemma {:induction false} RunLoopAttempts(c: Cadence, k: Knock, now: nat, wire: Wire)
    requires InCycle(c, k.pos)
    ensures InCycle(c, RunLoop(c, k, now, wire).pos)
    ensures Attempts(RunLoop(c, k, now, wire).tally) - Attempts(k.tally)
         == Passed(c, RunLoop(c, k, now, wire).pos) - Passed(c, k.pos)
    decreases TimeLeft(k.pos, now), StepsLeft(c, k.pos, now)
  {
    if Ready(c, k.pos, now) {
      PassedTick(c, k.pos);
      TickProgress(c, k.pos, now);
      RunLoopAttempts(c, Tick(c, k, now, wire), now, wire);
    }
  }

  // ---- the polling schedule does not matter ------------------------------------------

  lemma {:induction false} PosLoopCompose(c: Cadence, p: Pos, a: nat, b: nat)
    requires a <= b
    ensures PosLoop(c, PosLoop(c, p, a), b) == PosLoop(c, p, b)
    decreases TimeLeft(p, a), StepsLeft(c, p, a)
  {
    if Ready(c, p, a) {
      TickProgress(c, p, a);
      PosLoopCompose(c, PosTick(c, p), a, b);
    }
  }

  function Polls(c: Cadence, s: State, times: seq<nat>, wire: Wire): (r: State)
    requires InCycle(c, s.knock.pos)
    ensures InCycle(c, r.knock.pos)
    decreases |times|
  {
    if times == [] then s
    else
      RunInCycle(c, s, times[0], wire);
      Polls(c, Run(c, s, times[0], wire), times[1..], wire)
  }

  lemma RunInCycle(c: Cadence, s: State, now: nat, wire: Wire)
    requires InCycle(c, s.knock.pos)
    ensures InCycle(c, Run(c, s, now, wire).knock.pos)
  {
    if s.ctl.mode.Knocking? {
      RunLoopPos(c, s.knock, now, wire);
      PosLoopInCycle(c, s.knock.pos, now);
    }
  }

  ghost predicate Ascending(times: seq<nat>) {
    forall i, j :: 0 <= i <= j < |times| ==> times[i] <= times[j]
  }

  /** However the sender is polled up to an instant, and whatever each wire does, the knock is
    * where one poll at that instant would leave it, the next due time is the same, and the
    * control slots accounted for are exactly the ones passed. */
  lemma {:induction false} PollingScheduleDoesNotMatter(c: Cadence, s: State, times: seq<nat>,
                                                        wire: Wire, other: Wire)
    requires InCycle(c, s.knock.pos) && s.ctl.mode.Knocking? && times != [] && Ascending(times)
    ensures var r, one := Polls(c, s, times, wire), Run(c, s, times[|times| - 1], other);
            && r.knock.pos == one.knock.pos && r.due == one.due && r.ctl == one.ctl
            && Attempts(r.knock.tally) == Attempts(one.knock.tally)
            && Attempts(r.knock.tally) - Attempts(s.knock.tally)
               == Passed(c, r.knock.pos) - Passed(c, s.knock.pos)
    decreases |times|
  {
    var last := times[|times| - 1];
    var mid := Run(c, s, times[0], wire);
    RunInCycle(c, s, times[0], wire);
    RunLoopPos(c, s.knock, last, other);
    RunLoopPos(c, s.knock, times[0], wire);
    RunLoopAttempts(c, s.knock, last, other);
    RunLoopAttempts(c, s.knock, times[0], wire);
    if |times| == 1 {
      assert Polls(c, mid, times[1..], wire) == mid;
    } else {
      assert times[1..][|times| - 2] == last;
      PollingScheduleDoesNotMatter(c, mid, times[1..], wire, other);
      RunLoopPos(c, mid.knock, last, other);
      PosLoopCompose(c, s.knock.pos, times[0], last);
      RunInCycle(c, mid, last, other);
    }
  }

  // ---- waking up ---------------------------------------------------------------------

  /** A cycle is over before the backoff's ceiling. */
  predicate Fits(c: Cadence) { CycleNs(c) <= PERIOD_MAX_NS }

  predicate EndsOnControl(c: Cadence) { c.cycle[|c.cycle| - 1].Control() }

  /** How long after its opening a knock's first control slot falls. */
  function HeaderNs(c: Cadence): nat { SlotNs(c, 0, FirstControl(c, 0)) }

  /** How long after its opening a knock last asks to be woken. */
  function LastDueNs(c: Cadence): nat {
    SlotNs(c, 0, if EndsOnControl(c) then |c.cycle| - 1 else |c.cycle|)
  }

  /** A knock asks to be woken for the last time no later than the first control slot of a knock
    * opened at the backoff's ceiling.  Of a cycle that starts on a control slot this says that
    * it fits the ceiling, or ends on a control slot that falls by then. */
  predicate NeverHides(c: Cadence) { LastDueNs(c) <= PERIOD_MAX_NS + HeaderNs(c) }

  lemma NeverHidesIff(c: Cadence)
    requires c.cycle[0].Control()
    ensures NeverHides(c) <==>
              Fits(c) || (EndsOnControl(c) && SlotNs(c, 0, |c.cycle| - 1) <= PERIOD_MAX_NS)
  {
    SlotNsMonotone(c, 0, |c.cycle| - 1, |c.cycle|);
  }

  /** Where a sender can stop: in a rest, or before a slot of its knock. */
  predicate CanStop(c: Cadence, p: Pos) { InCycle(c, p) && (p.resting || p.slot < |c.cycle|) }

  // A sender that runs stops only before a slot of a later nanosecond than the slot behind it.
  // Above one slot a nanosecond that is less than every place it could stop at.

  /** Where a sender that runs stops. */
  predicate Reached(c: Cadence, p: Pos) {
    CanStop(c, p) && (!p.resting && 0 < p.slot ==> SlotNs(c, 0, p.slot - 1) < SlotNs(c, 0, p.slot))
  }

  /** Some of those places have no control slot left: the last slot has its own nanosecond. */
  predicate StopsInTail(c: Cadence) {
    !EndsOnControl(c)
    && forall i :: 0 <= i < |c.cycle| && c.cycle[i].Control() ==>
         SlotNs(c, 0, i) < SlotNs(c, 0, |c.cycle| - 1)
  }

  /** How long after its opening a knock of a sender that runs last asks to be woken. */
  function LastAskNs(c: Cadence): nat {
    SlotNs(c, 0, if StopsInTail(c) then |c.cycle| else |c.cycle| - 1)
  }

  /** It asks no later than the first control slot of a knock opened at the backoff's ceiling. */
  predicate KeepsUp(c: Cadence) { LastAskNs(c) <= PERIOD_MAX_NS + HeaderNs(c) }

  /** The last slot and the end of its cycle share a nanosecond. */
  predicate InstantTail(c: Cadence) { SlotNs(c, 0, |c.cycle| - 1) == SlotNs(c, 0, |c.cycle|) }

  /** Up to one slot a nanosecond the two sorts of places ask alike. */
  lemma KeepsUpIff(c: Cadence)
    requires c.fps <= NANOS
    ensures (KeepsUp(c) <==> NeverHides(c)) && (StopsInTail(c) <==> !EndsOnControl(c)) && !InstantTail(c)
  {
    hide SlotNs;
    SlotsApart(c, |c.cycle| - 1);
    forall i | 0 <= i < |c.cycle| - 1 ensures SlotNs(c, 0, i) < SlotNs(c, 0, |c.cycle| - 1) {
      SlotsApart(c, |c.cycle| - 2);
      SlotNsMonotone(c, 0, i, |c.cycle| - 2);
    }
  }

  lemma NeverHidesKeepsUp(c: Cadence)
    requires NeverHides(c)
    ensures KeepsUp(c)
  {
    SlotNsMonotone(c, 0, |c.cycle| - 1, |c.cycle|);
  }

  /** The time of the next control slot the sender comes to, in this knock or the next. */
  function NextControl(c: Cadence, p: Pos): nat
    requires p.slot <= |c.cycle|
  {
    if p.resting then p.next + HeaderNs(c)
    else if FirstControl(c, p.slot) < |c.cycle| then SlotNs(c, p.t0, FirstControl(c, p.slot))
    else p.t0 + Period(c, p.unanswered) + HeaderNs(c)
  }

  predicate AtControl(c: Cadence, p: Pos) {
    !p.resting && p.slot < |c.cycle| && c.cycle[p.slot].Control()
  }

  lemma SlotNsMonotone(c: Cadence, t0: nat, a: nat, b: nat)
    requires a <= b
    ensures SlotNs(c, t0, a) <= SlotNs(c, t0, b)
  {
    DivMonotone(a * NANOS, b * NANOS, c.fps);
  }

  lemma DivMonotone(x: nat, y: nat, d: nat)
    requires 0 < d && x <= y
    ensures x / d <= y / d
  {
    DivAtLeast(d, y, x / d);
  }

  lemma PeriodCoversCycle(c: Cadence, n: nat)
    ensures Period(c, n) >= Min(CycleNs(c), PERIOD_MAX_NS)
    ensures !Fits(c) ==> Period(c, n) == PERIOD_MAX_NS
  {
    var one := Pow2(n);
    assert CycleNs(c) <= CycleNs(c) * one by { MulLeft(CycleNs(c), one); }
  }

  lemma MulLeft(a: nat, b: nat)
    requires 1 <= b
    ensures a <= a * b
  {
    assert a * b == a + a * (b - 1);
  }

  lemma FittingNeverHides(c: Cadence)
    requires Fits(c)
    ensures NeverHides(c)
  {
    SlotNsMonotone(c, 0, |c.cycle| - 1, |c.cycle|);
  }

  /** Where a knock of a long cycle is over, a knock of a short one is at least as soon. */
  lemma Covered(c: Cadence, slot: nat, n: nat)
    requires slot <= |c.cycle| && SlotNs(c, 0, slot) <= PERIOD_MAX_NS + HeaderNs(c)
    ensures SlotNs(c, 0, slot) <= Period(c, n) + HeaderNs(c)
  {
    PeriodCoversCycle(c, n);
    SlotNsMonotone(c, 0, slot, |c.cycle|);
  }

  /** Only passing a control slot moves on the next one, and only forward where the last slot of a
    * knock is not behind the header of the next. */
  lemma NextControlTick(c: Cadence, p: Pos)
    requires InCycle(c, p)
    ensures InCycle(c, PosTick(c, p))
    ensures AtControl(c, p) ==> NextControl(c, p) == SlotNs(c, p.t0, p.slot)
    ensures !AtControl(c, p) || KeepsUp(c) ==> NextControl(c, p) <= NextControl(c, PosTick(c, p))
  {
    hide SlotNs, Period;
    if p.resting {
      OpenedControl(c, p);
    } else if AtControl(c, p) {
      if KeepsUp(c) {
        ControlPassed(c, p);
      }
    }
  }

  lemma OpenedControl(c: Cadence, p: Pos)
    requires p.resting && InCycle(c, p)
    ensures NextControl(c, p) <= NextControl(c, OpenPos(p, p.next))
  {
    if FirstControl(c, 0) == |c.cycle| {
      PeriodCoversCycle(c, p.unanswered);
    }
  }

  lemma ControlPassed(c: Cadence, p: Pos)
    requires AtControl(c, p) && KeepsUp(c)
    ensures SlotNs(c, p.t0, p.slot) <= NextControl(c, p.(slot := p.slot + 1))
  {
    var next := FirstControl(c, p.slot + 1);
    SlotNsMonotone(c, p.t0, p.slot, next);
    SlotNsMonotone(c, 0, p.slot, |c.cycle| - 1);
    SlotNsMonotone(c, 0, |c.cycle| - 1, |c.cycle|);
    Covered(c, |c.cycle| - 1, p.unanswered);
  }

  /** A stopped sender is due later than now. */
  lemma DueIsLater(c: Cadence, p: Pos, now: nat)
    requires InCycle(c, p) && !Ready(c, p, now)
    ensures now < DueOf(c, p)
  {
    if !p.resting {
      SlotNsMonotone(c, p.t0, p.slot, FirstControl(c, p.slot));
    }
  }

  /** The due time is no later than the next control slot's. */
  lemma DueByControl(c: Cadence, p: Pos)
    requires InCycle(c, p) && (Fits(c) || (CanStop(c, p) && (EndsOnControl(c) || NeverHides(c))))
    ensures DueOf(c, p) <= NextControl(c, p)
  {
    if !p.resting && FirstControl(c, p.slot) == |c.cycle| {
      PeriodCoversCycle(c, p.unanswered);
      if !Fits(c) {
        Covered(c, |c.cycle|, p.unanswered);
      }
    }
  }

  /** So it is wherever a sender that runs stops. */
  lemma DueByControlReached(c: Cadence, p: Pos)
    requires Reached(c, p) && (KeepsUp(c) || !StopsInTail(c))
    ensures DueOf(c, p) <= NextControl(c, p)
  {
    if !p.resting && FirstControl(c, p.slot) == |c.cycle| {
      ReachedInTail(c, p);
      Covered(c, |c.cycle|, p.unanswered);
    }
  }

  lemma ReachedInTail(c: Cadence, p: Pos)
    requires Reached(c, p) && !p.resting && FirstControl(c, p.slot) == |c.cycle|
    ensures StopsInTail(c)
  {
    hide SlotNs;
    forall i | 0 <= i < |c.cycle| && c.cycle[i].Control()
      ensures SlotNs(c, 0, i) < SlotNs(c, 0, |c.cycle| - 1)
    {
      SlotNsMonotone(c, 0, i, p.slot - 1);
      SlotNsMonotone(c, 0, p.slot, |c.cycle| - 1);
    }
  }

  /** A call leaves the sender where one that runs stops. */
  lemma {:induction false} PosLoopReached(c: Cadence, p: Pos, now: nat)
    requires InCycle(c, p)
    requires !p.resting && 0 < p.slot ==>
               SlotNs(c, 0, p.slot - 1) < SlotNs(c, 0, p.slot) || SlotNs(c, p.t0, p.slot - 1) <= now
    ensures Reached(c, PosLoop(c, p, now))
    decreases TimeLeft(p, now), StepsLeft(c, p, now)
  {
    if Ready(c, p, now) {
      TickProgress(c, p, now);
      PosLoopReached(c, PosTick(c, p), now);
    }
  }

  /** A call earlier than the next control slot passes none. */
  lemma {:induction false} NothingBeforeControl(c: Cadence, p: Pos, b: nat)
    requires InCycle(c, p) && b < NextControl(c, p)
    ensures InCycle(c, PosLoop(c, p, b)) && Passed(c, PosLoop(c, p, b)) == Passed(c, p)
    decreases TimeLeft(p, b), StepsLeft(c, p, b)
  {
    hide NextControl;
    if Ready(c, p, b) {
      NextControlTick(c, p);
      PassedTick(c, p);
      TickProgress(c, p, b);
      NothingBeforeControl(c, PosTick(c, p), b);
    }
  }

  /** A call that comes before a knock's last slot stays in the knock. */
  lemma {:induction false} StaysIn(c: Cadence, p: Pos, now: nat)
    requires !p.resting && p.slot < |c.cycle| && now < SlotNs(c, p.t0, |c.cycle| - 1)
    ensures var q := PosLoop(c, p, now);
            q == p.(slot := q.slot) && p.slot <= q.slot < |c.cycle| && now < SlotNs(c, p.t0, q.slot)
    decreases |c.cycle| - p.slot
  {
    hide SlotNs;
    if Ready(c, p, now) {
      TickProgress(c, p, now);
      StaysIn(c, PosTick(c, p), now);
    }
  }

  lemma {:induction false} FillerPasses(c: Cadence, p: Pos, slot: nat)
    requires InCycle(c, p) && p.slot <= slot <= |c.cycle| && !p.resting
    requires forall i :: p.slot <= i < slot ==> c.cycle[i].Filler?
    ensures Passed(c, p.(slot := slot)) == Passed(c, p)
    decreases slot - p.slot
  {
    if p.slot < slot {
      PassedTick(c, p);
      FillerPasses(c, PosTick(c, p), slot);
    }
  }

  /** No control slot falls before the due time: a call earlier than it passes none. */
  lemma NothingBeforeDue(c: Cadence, p: Pos, b: nat)
    requires InCycle(c, p)
    requires Fits(c) || (CanStop(c, p) && (EndsOnControl(c) || NeverHides(c) || InstantTail(c)))
    requires b < DueOf(c, p)
    ensures InCycle(c, PosLoop(c, p, b)) && Passed(c, PosLoop(c, p, b)) == Passed(c, p)
  {
    if Fits(c) || EndsOnControl(c) || NeverHides(c) {
      DueByControl(c, p);
      NothingBeforeControl(c, p, b);
    } else {
      InstantTailIsQuiet(c, p, b);
    }
  }

  lemma InstantTailIsQuiet(c: Cadence, p: Pos, b: nat)
    requires CanStop(c, p) && InstantTail(c) && b < DueOf(c, p)
    ensures InCycle(c, PosLoop(c, p, b)) && Passed(c, PosLoop(c, p, b)) == Passed(c, p)
  {
    hide SlotNs;
    if !p.resting && FirstControl(c, p.slot) == |c.cycle| {
      Shifted(c, p.t0, |c.cycle| - 1);
      Shifted(c, p.t0, |c.cycle|);
      StaysIn(c, p, b);
      FillerPasses(c, p, PosLoop(c, p, b).slot);
    } else {
      NothingBeforeControl(c, p, b);
    }
  }

  /** A call at most LATE_NS after the next control slot records no late frame, through as many
    * rests and knocks as it passes. */
  lemma {:induction false} PromptLoop(c: Cadence, k: Knock, now: nat, wire: Wire)
    requires InCycle(c, k.pos) && KeepsUp(c) && now <= NextControl(c, k.pos) + LATE_NS
    ensures RunLoop(c, k, now, wire).tally.late == k.tally.late
    decreases TimeLeft(k.pos, now), StepsLeft(c, k.pos, now)
  {
    hide NextControl, KeepsUp;
    if Ready(c, k.pos, now) {
      NextControlTick(c, k.pos);
      TickProgress(c, k.pos, now);
      PromptLoop(c, Tick(c, k, now, wire), now, wire);
    }
  }

  /** Before the due time nothing is counted and nothing is sent. */
  lemma {:induction false} QuietBeforeDue(c: Cadence, k: Knock, b: nat, wire: Wire)
    requires InCycle(c, k.pos) && b < DueOf(c, k.pos)
    requires Fits(c) || (CanStop(c, k.pos) && EndsOnControl(c))
    ensures RunLoop(c, k, b, wire).tally == k.tally && RunLoop(c, k, b, wire).log == k.log
    decreases TimeLeft(k.pos, b), StepsLeft(c, k.pos, b)
  {
    if Ready(c, k.pos, b) {
      TickProgress(c, k.pos, b);
      PeriodCoversCycle(c, k.pos.unanswered);
      QuietBeforeDue(c, Tick(c, k, b, wire), b, wire);
    }
  }

  /** After a call of the sender the due time is later than now.  A call before it counts and
    * sends nothing when a cycle fits the ceiling or ends on a control slot.  A call no more than
    * LATE_NS after it loses no frame, every control slot it passes being handed to the wire, when
    * no knock hides the next one's header. */
  lemma WakeUp(c: Cadence, s: State, now: nat, wire: Wire)
    requires InCycle(c, s.knock.pos) && s.ctl.mode.Knocking?
    ensures var r := Run(c, s, now, wire);
            CanStop(c, r.knock.pos) && now < r.due == DueOf(c, r.knock.pos)
    ensures var r := Run(c, s, now, wire);
            Fits(c) || EndsOnControl(c) ==>
              forall b: nat | b < r.due ::
                Run(c, r, b, wire).knock.tally == r.knock.tally
                && Run(c, r, b, wire).knock.log == r.knock.log
    ensures var r := Run(c, s, now, wire);
            NeverHides(c) ==> forall b: nat | b <= r.due + LATE_NS :: Handed(c, r, Run(c, r, b, wire))
  {
    hide NeverHides, LastDueNs, HeaderNs, DueOf, RunLoop;
    RunCanStop(c, s, now, wire);
    var r := Run(c, s, now, wire);
    if Fits(c) || EndsOnControl(c) {
      forall b: nat | b < r.due
        ensures Run(c, r, b, wire).knock.tally == r.knock.tally
        ensures Run(c, r, b, wire).knock.log == r.knock.log
      {
        QuietBeforeDue(c, r.knock, b, wire);
      }
    }
    if NeverHides(c) {
      NeverHidesKeepsUp(c);
      DueByControl(c, r.knock.pos);
      forall b: nat | b <= r.due + LATE_NS ensures Handed(c, r, Run(c, r, b, wire)) {
        PromptRun(c, r, b, wire);
      }
    }
  }

  /** A call leaves the sender at a place where one stops, due later than now. */
  lemma RunCanStop(c: Cadence, s: State, now: nat, wire: Wire)
    requires InCycle(c, s.knock.pos) && s.ctl.mode.Knocking?
    ensures var r := Run(c, s, now, wire);
            CanStop(c, r.knock.pos) && now < r.due == DueOf(c, r.knock.pos)
            && r.ctl.mode.Knocking? && r.knock.pos == PosLoop(c, s.knock.pos, now)
  {
    RunInCycle(c, s, now, wire);
    RunLoopPos(c, s.knock, now, wire);
    PosLoopInCycle(c, s.knock.pos, now);
    DueIsLater(c, Run(c, s, now, wire).knock.pos, now);
  }

  /** Between `s` and `r` no slot was late, and every control slot passed reached the wire. */
  ghost predicate Handed(c: Cadence, s: State, r: State) {
    && InCycle(c, s.knock.pos) && InCycle(c, r.knock.pos)
    && r.knock.tally.late == s.knock.tally.late
    && (r.knock.tally.sent + r.knock.tally.sendErrors)
       - (s.knock.tally.sent + s.knock.tally.sendErrors)
       == Passed(c, r.knock.pos) - Passed(c, s.knock.pos)
  }

  lemma PromptRun(c: Cadence, s: State, now: nat, wire: Wire)
    requires InCycle(c, s.knock.pos) && KeepsUp(c) && s.ctl.mode.Knocking?
    requires now <= NextControl(c, s.knock.pos) + LATE_NS
    ensures Handed(c, s, Run(c, s, now, wire))
  {
    RunInCycle(c, s, now, wire);
    RunLoopAttempts(c, s.knock, now, wire);
    PromptLoop(c, s.knock, now, wire);
  }

  // ---- exactly when a caller in time loses nothing --------------------------------------

  /** From every place a sender can stop, a call no more than LATE_NS after the due time is late
    * for nothing. */
  ghost predicate InTimeIsPrompt(c: Cadence) {
    forall k: Knock, now: nat, wire: Wire ::
      CanStop(c, k.pos) && now <= DueOf(c, k.pos) + LATE_NS ==>
        RunLoop(c, k, now, wire).tally.late == k.tally.late
  }

  /** A caller in time loses nothing exactly when a knock asks to be woken for the last time no
    * later than the first control slot of a knock opened at the backoff's ceiling. */
  lemma InTimeIsPromptIff(c: Cadence)
    ensures InTimeIsPrompt(c) <==> NeverHides(c)
  {
    if NeverHides(c) {
      NeverHidesKeepsUp(c);
      forall k: Knock, now: nat, wire: Wire | CanStop(c, k.pos) && now <= DueOf(c, k.pos) + LATE_NS
        ensures RunLoop(c, k, now, wire).tally.late == k.tally.late
      {
        DueByControl(c, k.pos);
        PromptLoop(c, k, now, wire);
      }
    } else {
      var p := Pos(0, |c.cycle| - 1, false, 0, 0, 1);
      var k := Knock(p, Tally(0, 0, 0, 0, 0, false, 0), []);
      assert FirstControl(c, |c.cycle|) == |c.cycle|;
      assert DueOf(c, p) == LastDueNs(c);
      SlotNsMonotone(c, 0, |c.cycle| - 1, |c.cycle|);
      LateInTime(c, k, LastDueNs(c), LastDueNs(c) + LATE_NS, _ => true);
    }
  }

  /** A caller in time, at a last time to ask that comes after the next knock's header, finds that
    * header late. */
  lemma LateInTime(c: Cadence, k: Knock, ask: nat, now: nat, wire: Wire)
    requires InCycle(c, k.pos) && !k.pos.resting
    requires SlotNs(c, 0, |c.cycle| - 1) <= ask <= SlotNs(c, 0, |c.cycle|)
    requires PERIOD_MAX_NS + HeaderNs(c) < ask && k.pos.t0 + ask + LATE_NS <= now
    ensures k.tally.late < RunLoop(c, k, now, wire).tally.late
  {
    HiddenIsLong(c, ask);
    TailLate(c, k, now, wire);
  }

  lemma HiddenIsLong(c: Cadence, ask: nat)
    requires PERIOD_MAX_NS + HeaderNs(c) < ask <= SlotNs(c, 0, |c.cycle|)
    ensures !Fits(c) && FirstControl(c, 0) < |c.cycle|
  {
  }

  /** A knock whose slots have all gone by goes on to rest, to the next knock and past its
    * header, which is late. */
  lemma {:induction false} TailLate(c: Cadence, k: Knock, now: nat, wire: Wire)
    requires InCycle(c, k.pos) && !k.pos.resting && !Fits(c) && FirstControl(c, 0) < |c.cycle|
    requires SlotNs(c, k.pos.t0, |c.cycle| - 1) <= now
    requires k.pos.t0 + PERIOD_MAX_NS + HeaderNs(c) + LATE_NS < now
    ensures k.tally.late < RunLoop(c, k, now, wire).tally.late
    decreases |c.cycle| - k.pos.slot
  {
    hide SlotNs, FirstControl;
    if k.pos.slot < |c.cycle| {
      SlotNsMonotone(c, k.pos.t0, k.pos.slot, |c.cycle| - 1);
      LoopStep(c, k, now, wire);
      TailLate(c, Tick(c, k, now, wire), now, wire);
    } else {
      PeriodCoversCycle(c, k.pos.unanswered);
      LoopStep(c, k, now, wire);
      var rest := Tick(c, k, now, wire);
      LoopStep(c, rest, now, wire);
      var open := Tick(c, rest, now, wire);
      Shifted(c, open.pos.t0, FirstControl(c, 0));
      HeaderLate(c, open, now, wire);
    }
  }

  lemma Shifted(c: Cadence, t0: nat, slot: nat)
    ensures SlotNs(c, t0, slot) == t0 + SlotNs(c, 0, slot)
  {
  }

  lemma LoopStep(c: Cadence, k: Knock, now: nat, wire: Wire)
    requires Ready(c, k.pos, now)
    ensures RunLoop(c, k, now, wire) == RunLoop(c, Tick(c, k, now, wire), now, wire)
    ensures k.tally.late <= Tick(c, k, now, wire).tally.late
  {
  }

  lemma {:induction false} HeaderLate(c: Cadence, k: Knock, now: nat, wire: Wire)
    requires !k.pos.resting && k.pos.slot <= FirstControl(c, 0) < |c.cycle|
    requires SlotNs(c, k.pos.t0, FirstControl(c, 0)) + LATE_NS < now
    ensures k.tally.late < RunLoop(c, k, now, wire).tally.late
    decreases |c.cycle| - k.pos.slot
  {
    hide SlotNs, RunLoop;
    SlotNsMonotone(c, k.pos.t0, k.pos.slot, FirstControl(c, 0));
    LoopStep(c, k, now, wire);
    if k.pos.slot < FirstControl(c, 0) {
      HeaderLate(c, Tick(c, k, now, wire), now, wire);
    } else {
      LateGrows(c, Tick(c, k, now, wire), now, wire);
    }
  }

  lemma {:induction false} LateGrows(c: Cadence, k: Knock, now: nat, wire: Wire)
    ensures k.tally.late <= RunLoop(c, k, now, wire).tally.late
    decreases TimeLeft(k.pos, now), StepsLeft(c, k.pos, now)
  {
    if Ready(c, k.pos, now) {
      TickProgress(c, k.pos, now);
      LoopStep(c, k, now, wire);
      LateGrows(c, Tick(c, k, now, wire), now, wire);
    }
  }

  // ---- exactly when the due time can be trusted ---------------------------------------

  /** From every place a sender can stop, nothing is passed before the due time. */
  ghost predicate DueIsNext(c: Cadence) {
    forall p: Pos, b: nat ::
      CanStop(c, p) && b < DueOf(c, p) ==>
        PosLoop(c, p, b).slot <= |c.cycle| && Passed(c, PosLoop(c, p, b)) == Passed(c, p)
  }

  /** The due time names the next control slot exactly when a cycle ends on a control slot, or no
    * later than the first control slot of a knock opened at the backoff's ceiling, or in the
    * nanosecond of its last slot: otherwise the FILLER tail of a knock hides the header of the
    * next one. */
  lemma DueIsNextIff(c: Cadence)
    ensures DueIsNext(c) <==> EndsOnControl(c) || NeverHides(c) || InstantTail(c)
  {
    if EndsOnControl(c) || NeverHides(c) || InstantTail(c) {
      forall p: Pos, b: nat | CanStop(c, p) && b < DueOf(c, p)
        ensures PosLoop(c, p, b).slot <= |c.cycle| && Passed(c, PosLoop(c, p, b)) == Passed(c, p)
      {
        NothingBeforeDue(c, p, b);
      }
    } else {
      HiddenHeader(c);
    }
  }

  /** The knock at its last slot, a FILLER, of a cycle that hides the next header: a call one
    * nanosecond before the due time finds that header already past. */
  lemma HiddenHeader(c: Cadence)
    requires !NeverHides(c) && !EndsOnControl(c) && !InstantTail(c)
    ensures !DueIsNext(c)
  {
    var n := |c.cycle|;
    var p := Pos(0, n - 1, false, 0, 0, 1);
    var b := LastDueNs(c) - 1;
    assert FirstControl(c, n) == n && FirstControl(c, n - 1) == n;
    SlotNsMonotone(c, 0, n - 1, n);
    HiddenIsLong(c, LastDueNs(c));
    TailRunsOn(c, p, b);
    assert b < DueOf(c, p) && Passed(c, PosLoop(c, p, b)) > Passed(c, p);
  }

  /** A knock whose slots have all gone by goes on to rest, to the next knock and past its
    * header. */
  lemma {:induction false} TailRunsOn(c: Cadence, p: Pos, b: nat)
    requires InCycle(c, p) && !p.resting && !Fits(c) && FirstControl(c, 0) < |c.cycle|
    requires SlotNs(c, p.t0, |c.cycle| - 1) <= b && p.t0 + PERIOD_MAX_NS + HeaderNs(c) <= b
    ensures InCycle(c, PosLoop(c, p, b)) && Passed(c, p) < Passed(c, PosLoop(c, p, b))
    decreases |c.cycle| - p.slot
  {
    hide SlotNs, Passed;
    if p.slot < |c.cycle| {
      SlotNsMonotone(c, p.t0, p.slot, |c.cycle| - 1);
      OneStep(c, p, b);
      TailRunsOn(c, PosTick(c, p), b);
    } else {
      PeriodCoversCycle(c, p.unanswered);
      OneStep(c, p, b);
      var rest := RestPos(c, p);
      OneStep(c, rest, b);
      var open := OpenPos(rest, rest.next);
      Shifted(c, open.t0, FirstControl(c, 0));
      HeaderPassed(c, open, b);
    }
  }

  lemma {:induction false} HeaderPassed(c: Cadence, p: Pos, b: nat)
    requires !p.resting && p.slot <= FirstControl(c, 0) < |c.cycle|
    requires SlotNs(c, p.t0, FirstControl(c, 0)) <= b
    ensures InCycle(c, PosLoop(c, p, b)) && Passed(c, p) < Passed(c, PosLoop(c, p, b))
    decreases |c.cycle| - p.slot
  {
    hide SlotNs, PosLoop, Passed;
    SlotNsMonotone(c, p.t0, p.slot, FirstControl(c, 0));
    OneStep(c, p, b);
    if p.slot < FirstControl(c, 0) {
      HeaderPassed(c, PosTick(c, p), b);
    } else {
      PassedGrows(c, PosTick(c, p), b);
    }
  }

  lemma OneStep(c: Cadence, p: Pos, b: nat)
    requires InCycle(c, p) && Ready(c, p, b)
    ensures PosLoop(c, p, b) == PosLoop(c, PosTick(c, p), b)
    ensures InCycle(c, PosTick(c, p))
    ensures Passed(c, PosTick(c, p)) == Passed(c, p) +
              (if !p.resting && p.slot < |c.cycle| && c.cycle[p.slot].Control() then 1 else 0)
  {
    TickProgress(c, p, b);
    PassedTick(c, p);
  }

  lemma SlotsApart(c: Cadence, slot: nat)
    requires c.fps <= NANOS
    ensures SlotNs(c, 0, slot) + 1 <= SlotNs(c, 0, slot + 1)
  {
    var x := slot * NANOS;
    assert (slot + 1) * NANOS == x + NANOS;
    DivStep(x, NANOS, c.fps);
  }

  lemma DivStep(x: nat, y: nat, d: nat)
    requires 0 < d <= y
    ensures x / d + 1 <= (x + y) / d
  {
    assert (x / d + 1) * d == x / d * d + d;
    DivAtLeast(d, x + y, x / d + 1);
  }

  lemma {:induction false} PassedGrows(c: Cadence, p: Pos, b: nat)
    requires InCycle(c, p)
    ensures InCycle(c, PosLoop(c, p, b)) && Passed(c, p) <= Passed(c, PosLoop(c, p, b))
    decreases TimeLeft(p, b), StepsLeft(c, p, b)
  {
    if Ready(c, p, b) {
      PassedTick(c, p);
      TickProgress(c, p, b);
      PassedGrows(c, PosTick(c, p), b);
    }
  }
}
