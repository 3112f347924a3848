/** Every finished knock of a spell is a push, exactly when a caller in time can keep up with the
  * cadence. */
module KnockFinished {
  import opened KnockModel
  import opened KnockSchedule
  import opened KnockTrace

  function ChunkSlots(slots: seq<Emit>): nat {
    if slots == [] then 0
    else ChunkSlots(slots[..|slots| - 1]) + (if slots[|slots| - 1].SceneChunk? then 1 else 0)
  }

  /** The cycle carries one transfer: its header first, the final at `tail`, and the chunks of
    * a scene between them. */
  predicate OneTransfer(c: Cadence, tail: nat) {
    && 0 < tail < |c.cycle|
    && c.cycle[0].SceneHead? && c.cycle[tail].SceneTail?
    && (forall i :: 0 < i < |c.cycle| ==> !c.cycle[i].SceneHead?)
    && (forall i :: 0 <= i < |c.cycle| && i != tail ==> !c.cycle[i].SceneTail?)
    && ChunkSlots(c.cycle[..tail]) == SCENE_CHUNKS
  }

  ghost predicate Accepting(wire: Wire) { forall k :: wire(k) }

  /** Every frame of the spell has left: the transfer is where the slot says, and every knock
    * but this one, and this one past its final, has counted a push over `base`. */
  predicate Whole(c: Cadence, tail: nat, k: Knock, base: nat) {
    && k.pos.slot <= |c.cycle| && 1 <= k.pos.cycles
    && k.tally.pushes == base + k.pos.cycles - 1 + (if k.pos.slot > tail then 1 else 0)
    && k.tally.headSent == (0 < k.pos.slot <= tail)
    && (k.tally.headSent ==> k.tally.chunksSent == ChunkSlots(c.cycle[..k.pos.slot]))
  }

  lemma WholeTick(c: Cadence, tail: nat, k: Knock, now: nat, wire: Wire, base: nat)
    requires InCycle(c, k.pos) && OneTransfer(c, tail) && Accepting(wire)
    requires Ready(c, k.pos, now) && now <= NextControl(c, k.pos) + LATE_NS
    requires Whole(c, tail, k, base)
    ensures Whole(c, tail, Tick(c, k, now, wire), base)
  {
    if !k.pos.resting && k.pos.slot < |c.cycle| {
      var s := k.pos.slot;
      assert c.cycle[..s + 1][..s] == c.cycle[..s];
      assert ChunkSlots(c.cycle[..0]) == 0;
    }
  }

  lemma {:induction false} WholeLoop(c: Cadence, tail: nat, k: Knock, now: nat, wire: Wire, base: nat)
    requires InCycle(c, k.pos) && OneTransfer(c, tail) && Accepting(wire) && KeepsUp(c)
    requires now <= NextControl(c, k.pos) + LATE_NS && Whole(c, tail, k, base)
    ensures Whole(c, tail, RunLoop(c, k, now, wire), base)
    decreases TimeLeft(k.pos, now), StepsLeft(c, k.pos, now)
  {
    if Ready(c, k.pos, now) {
      TickProgress(c, k.pos, now);
      NextControlTick(c, k.pos);
      WholeTick(c, tail, k, now, wire, base);
      WholeLoop(c, tail, Tick(c, k, now, wire), now, wire, base);
    }
  }

  /** On a wire that accepts every frame, called in time, every finished knock of a spell counts
    * one push, through frames heard and polls alike. */
  lemma {:induction false} FinishedKnocksPush(c: Cadence, tail: nat, s: State, ops: seq<Op>, wire: Wire)
    requires SpellOpened(c, s) && OneTransfer(c, tail) && Accepting(wire) && KeepsUp(c)
    requires PromptTrace(c, s, ops, wire)
    ensures var r := Trace(c, s, ops, wire);
            r.ctl.mode.Knocking? && r.ctl.knocks == s.ctl.knocks ==>
              Whole(c, tail, r.knock, s.knock.tally.pushes)
              && (r.knock.pos.resting ==>
                    r.knock.tally.pushes == s.knock.tally.pushes + r.knock.pos.cycles)
    decreases |ops|
  {
    var r := Trace(c, s, ops, wire);
    if ops != [] && r.ctl.mode.Knocking? && r.ctl.knocks == s.ctl.knocks {
      SameSpell(c, s, ops, wire);
      FinishedKnocksPush(c, tail, s, ops[..|ops| - 1], wire);
      InvFrom(c, s, ops[..|ops| - 1], wire);
      var q := Trace(c, s, ops[..|ops| - 1], wire);
      if ops[|ops| - 1].Sends? {
        DueByControlReached(c, q.knock.pos);
        WholeLoop(c, tail, q.knock, ops[|ops| - 1].now, wire, s.knock.tally.pushes);
      }
    }
  }

  // ---- exactly when -----------------------------------------------------------------------

  /** On a wire that accepts every frame, called in time, a spell has at every moment counted a push
    * for each knock of it that is over. */
  ghost predicate FinishedKnocksCount(c: Cadence) {
    forall s: State, ops, wire: Wire
      | SpellOpened(c, s) && Accepting(wire) && PromptTrace(c, s, ops, wire) ::
      var r := Trace(c, s, ops, wire);
      r.ctl.mode.Knocking? && r.ctl.knocks == s.ctl.knocks ==>
        s.knock.tally.pushes + r.knock.pos.cycles - 1 <= r.knock.tally.pushes
  }

  /** The knock that is out can still count its push. */
  predicate CanPush(tail: nat, k: Knock) {
    k.pos.slot <= tail && (k.pos.slot == 0 || k.tally.headSent)
  }

  /** So many knocks, of those over and the one that is out, have counted no push and never will. */
  predicate Owes(tail: nat, k: Knock, base: nat, lost: nat) {
    k.tally.pushes + (if CanPush(tail, k) then 1 else 0) + lost <= base + k.pos.cycles
  }

  lemma OwesTick(c: Cadence, tail: nat, k: Knock, now: nat, wire: Wire, base: nat, lost: nat)
    requires InCycle(c, k.pos) && OneTransfer(c, tail) && Owes(tail, k, base, lost)
    ensures Owes(tail, Tick(c, k, now, wire), base, lost)
  {
  }

  lemma {:induction false} OwesLoop(c: Cadence, tail: nat, k: Knock, now: nat, wire: Wire, base: nat, lost: nat)
    requires InCycle(c, k.pos) && OneTransfer(c, tail) && Owes(tail, k, base, lost)
    ensures Owes(tail, RunLoop(c, k, now, wire), base, lost)
    decreases TimeLeft(k.pos, now), StepsLeft(c, k.pos, now)
  {
    hide Owes;
    if Ready(c, k.pos, now) {
      TickProgress(c, k.pos, now);
      PassedTick(c, k.pos);
      OwesTick(c, tail, k, now, wire, base, lost);
      LoopStep(c, k, now, wire);
      OwesLoop(c, tail, Tick(c, k, now, wire), now, wire, base, lost);
    }
  }

  /** A call that comes after the header of the next knock loses that knock's push. */
  lemma {:induction false} HeaderLost(c: Cadence, tail: nat, k: Knock, now: nat, wire: Wire, base: nat, lost: nat)
    requires InCycle(c, k.pos) && !k.pos.resting && !Fits(c)
    requires OneTransfer(c, tail) && Owes(tail, k, base, lost)
    requires SlotNs(c, k.pos.t0, |c.cycle| - 1) <= now && k.pos.t0 + PERIOD_MAX_NS + LATE_NS < now
    ensures Owes(tail, RunLoop(c, k, now, wire), base, lost + 1)
    decreases |c.cycle| - k.pos.slot
  {
    hide SlotNs, Owes;
    LoopStepIfDue(c, k, now, wire);
    OwesTick(c, tail, k, now, wire, base, lost);
    var t := Tick(c, k, now, wire);
    PassedTick(c, k.pos);
    if k.pos.slot < |c.cycle| {
      HeaderLost(c, tail, t, now, wire, base, lost);
    } else {
      PeriodCoversCycle(c, k.pos.unanswered);
      LoopStep(c, t, now, wire);
      OwesTick(c, tail, t, now, wire, base, lost);
      var open := Tick(c, t, now, wire);
      LateHeader(c, tail, open, now, wire, base, lost);
      LoopStep(c, open, now, wire);
      OwesLoop(c, tail, Tick(c, open, now, wire), now, wire, base, lost + 1);
    }
  }

  lemma LoopStepIfDue(c: Cadence, k: Knock, now: nat, wire: Wire)
    requires InCycle(c, k.pos) && !k.pos.resting && SlotNs(c, k.pos.t0, |c.cycle| - 1) <= now
    ensures RunLoop(c, k, now, wire) == RunLoop(c, Tick(c, k, now, wire), now, wire)
  {
    if k.pos.slot < |c.cycle| {
      SlotNsMonotone(c, k.pos.t0, k.pos.slot, |c.cycle| - 1);
    }
    LoopStep(c, k, now, wire);
  }

  lemma LateHeader(c: Cadence, tail: nat, k: Knock, now: nat, wire: Wire, base: nat, lost: nat)
    requires !k.pos.resting && k.pos.slot == 0 && OneTransfer(c, tail) && k.pos.t0 + LATE_NS < now
    requires Owes(tail, k, base, lost)
    ensures Ready(c, k.pos, now) && InCycle(c, PosTick(c, k.pos))
    ensures Owes(tail, Tick(c, k, now, wire), base, lost + 1)
  {
  }

  // ---- the run that loses two ---------------------------------------------------------------

  /** Where a call that is LATE_NS behind the last due time of a knock leaves the sender: in the
    * next knock, which is not over. */
  lemma {:induction false} IntoNext(c: Cadence, p: Pos, now: nat)
    requires InCycle(c, p) && !p.resting && !Fits(c)
    requires SlotNs(c, p.t0, |c.cycle| - 1) <= now && p.t0 + PERIOD_MAX_NS <= now
    requires now < p.t0 + PERIOD_MAX_NS + SlotNs(c, 0, |c.cycle| - 1)
    ensures !PosLoop(c, p, now).resting
    decreases |c.cycle| - p.slot
  {
    hide SlotNs;
    if p.slot < |c.cycle| {
      SlotNsMonotone(c, p.t0, p.slot, |c.cycle| - 1);
      OneStep(c, p, now);
      IntoNext(c, PosTick(c, p), now);
    } else {
      PeriodCoversCycle(c, p.unanswered);
      OneStep(c, p, now);
      var rest := RestPos(c, p);
      OneStep(c, rest, now);
      var open := OpenPos(rest, rest.next);
      Shifted(c, open.t0, |c.cycle| - 1);
      StaysIn(c, open, now);
    }
  }

  /** A slot lasts a second at most. */
  lemma SlotLasts(c: Cadence, slot: nat)
    ensures SlotNs(c, 0, slot + 1) <= SlotNs(c, 0, slot) + NANOS
  {
    var x := slot * NANOS;
    assert (slot + 1) * NANOS == x + NANOS;
    assert (x + NANOS) / c.fps <= x / c.fps + NANOS by { DivAdd(x, NANOS, c.fps); }
  }

  lemma DivAdd(x: nat, y: nat, d: nat)
    requires 0 < d
    ensures (x + y) / d <= x / d + y
  {
    var a, b := x / d, (x + y) / d;
    if a < b {
      var z := b - a - 1;
      assert d * b == d * a + d + z * d;
      MulLeft(z, d);
    }
  }

  /** What a spell owes it goes on owing. */
  lemma {:induction false} OwesTrace(c: Cadence, tail: nat, s: State, ops: seq<Op>, more: seq<Op>, wire: Wire,
                                     base: nat, lost: nat)
    requires InCycle(c, s.knock.pos) && OneTransfer(c, tail) && ops <= more
    requires Owes(tail, Trace(c, s, ops, wire).knock, base, lost)
    requires var r := Trace(c, s, more, wire); r.ctl.mode.Knocking? && r.ctl.knocks == s.ctl.knocks
    ensures Owes(tail, Trace(c, s, more, wire).knock, base, lost)
    decreases |more|
  {
    if |ops| < |more| {
      var init, op := more[..|more| - 1], more[|more| - 1];
      SameSpell(c, s, more, wire);
      OwesTrace(c, tail, s, ops, init, wire, base, lost);
      OwesApply(c, tail, Trace(c, s, init, wire), op, wire, base, lost);
    } else {
      assert ops == more;
    }
  }

  lemma OwesApply(c: Cadence, tail: nat, s: State, op: Op, wire: Wire, base: nat, lost: nat)
    requires InCycle(c, s.knock.pos) && OneTransfer(c, tail) && Owes(tail, s.knock, base, lost)
    requires s.ctl.mode.Knocking? && Apply(c, s, op, wire).ctl.mode.Knocking?
    ensures Owes(tail, Apply(c, s, op, wire).knock, base, lost)
  {
    if op.Sends? {
      OwesLoop(c, tail, s.knock, op.now, wire, base, lost);
    }
  }

  /** From a knock that is out, a run in time that loses the next one's push and leaves that one
    * out. */
  lemma LoseOne(c: Cadence, tail: nat, s: State, ops: seq<Op>, wire: Wire, base: nat, lost: nat)
    returns (more: seq<Op>)
    requires !KeepsUp(c) && OneTransfer(c, tail) && InCycle(c, s.knock.pos)
    requires InKnock(c, Trace(c, s, ops, wire)) && PromptTrace(c, s, ops, wire)
    requires Trace(c, s, ops, wire).ctl.knocks == s.ctl.knocks
    requires Owes(tail, Trace(c, s, ops, wire).knock, base, lost)
    ensures PromptTrace(c, s, more, wire) && InKnock(c, Trace(c, s, more, wire))
    ensures Trace(c, s, more, wire).ctl.knocks == s.ctl.knocks
    ensures Owes(tail, Trace(c, s, more, wire).knock, base, lost + 1)
  {
    hide SlotNs, DueOf, Trace, PromptTrace, Owes, LastAskNs;
    var towards := TowardsTail(c, s, ops, wire);
    OwesTrace(c, tail, s, ops, towards, wire, base, lost);
    var q := Trace(c, s, towards, wire);
    var now := q.due + LATE_NS;
    more := towards + [Sends(now)];
    Append(c, s, towards, Sends(now), wire);
    LastAskIs(c);
    HiddenIsLong(c, LastAskNs(c));
    Shifted(c, q.knock.pos.t0, |c.cycle| - 1);
    SlotLasts(c, |c.cycle| - 1);
    HeaderLost(c, tail, q.knock, now, wire, base, lost);
    IntoNext(c, q.knock.pos, now);
    RunCanStop(c, q, now, wire);
    PosLoopReached(c, q.knock.pos, now);
  }

  /** Every finished knock of a spell is a push, on a wire that accepts every frame and for a caller
    * in time, exactly when no knock of a sender that runs asks later than the next one's header. */
  lemma FinishedKnocksCountIff(c: Cadence, tail: nat)
    requires OneTransfer(c, tail)
    ensures FinishedKnocksCount(c) <==> KeepsUp(c)
  {
    hide PromptTrace, Trace, Whole;
    if KeepsUp(c) {
      forall s: State, ops, wire: Wire
        | SpellOpened(c, s) && Accepting(wire) && PromptTrace(c, s, ops, wire)
        ensures var r := Trace(c, s, ops, wire);
                r.ctl.mode.Knocking? && r.ctl.knocks == s.ctl.knocks ==>
                  s.knock.tally.pushes + r.knock.pos.cycles - 1 <= r.knock.tally.pushes
      {
        FinishedKnocksPush(c, tail, s, ops, wire);
        WholeCounts(c, tail, Trace(c, s, ops, wire).knock, s.knock.tally.pushes);
      }
    } else {
      LosesTwo(c, tail);
    }
  }

  lemma WholeCounts(c: Cadence, tail: nat, k: Knock, base: nat)
    ensures Whole(c, tail, k, base) ==> base + k.pos.cycles - 1 <= k.tally.pushes
  {
  }

  lemma LosesTwo(c: Cadence, tail: nat)
    requires OneTransfer(c, tail) && !KeepsUp(c)
    ensures !FinishedKnocksCount(c)
  {
    hide PromptTrace, DueOf, KeepsUp;
    var wire: Wire := _ => true;
    OpeningOpens(c, wire);
    var s := Trace(c, Init(0), Opening, wire);
    var base := s.knock.tally.pushes;
    FromThere(c, s, wire);
    var once := LoseOne(c, tail, s, [], wire, base, 0);
    var twice := LoseOne(c, tail, s, once, wire, base, 1);
    assert Accepting(wire);
    assert SpellOpened(c, s) && PromptTrace(c, s, twice, wire);
  }

  lemma FromThere(c: Cadence, s: State, wire: Wire)
    requires InCycle(c, s.knock.pos)
    ensures Trace(c, s, [], wire) == s && PromptTrace(c, s, [], wire)
  {
  }
}
