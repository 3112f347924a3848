/** Whole runs of a wire: polls, frames heard, calls of the sender and answers taken, in any
  * order and at any times, on a wire that may refuse any frame. */
module KnockTrace {
  import opened KnockModel
  import opened KnockSchedule
  import opened KnockBackoff
  import opened KnockPushes

  datatype Op =
    | Poll(now: nat, pinned: bool, trunk: bool)
    | Hears(now: nat, frame: Heard, evidence: bool)
    | Sends(now: nat)
    | Takes

  function Apply(c: Cadence, s: State, op: Op, wire: Wire): State
    requires InCycle(c, s.knock.pos)
  {
    match op
    case Poll(now, pinned, trunk) => Step(c, s, now, pinned, trunk).0
    case Hears(now, f, evidence) => Hear(s, now, f, evidence).0
    case Sends(now) => Run(c, s, now, wire)
    case Takes => AnswerTaken(s)
  }

  function Trace(c: Cadence, s: State, ops: seq<Op>, wire: Wire): (r: State)
    requires InCycle(c, s.knock.pos)
    ensures InCycle(c, r.knock.pos)
    decreases |ops|
  {
    if ops == [] then s
    else
      var r := Trace(c, s, ops[..|ops| - 1], wire);
      ApplyInCycle(c, r, ops[|ops| - 1], wire);
      Apply(c, r, ops[|ops| - 1], wire)
  }

  lemma ApplyInCycle(c: Cadence, s: State, op: Op, wire: Wire)
    requires InCycle(c, s.knock.pos)
    ensures InCycle(c, Apply(c, s, op, wire).knock.pos)
  {
    if op.Sends? {
      RunInCycle(c, s, op.now, wire);
    }
  }

  // ---- what every run keeps ----------------------------------------------------------

  function Count(log: seq<Event>, fate: Fate): nat {
    if log == [] then 0
    else Count(log[..|log| - 1], fate)
         + (if log[|log| - 1].Frame? && log[|log| - 1].fate == fate then 1 else 0)
  }

  /** Only control frames of the cycle, each in its slot's time: late exactly when its slot is
    * more than LATE_NS old, never before it. */
  predicate Lawful(c: Cadence, e: Event) {
    e.Frame? ==>
      && e.slot < |c.cycle| && e.emit == c.cycle[e.slot] && e.emit.Control()
      && e.at <= e.now && (e.fate.Late? <==> e.now > e.at + LATE_NS)
  }

  ghost predicate Accounts(c: Cadence, k: Knock) {
    && InCycle(c, k.pos)
    && Follows(k.log, k.tally)
    && k.tally.sent == Count(k.log, Left)
    && k.tally.late == Count(k.log, Late)
    && k.tally.sendErrors == Count(k.log, Refused)
    && (forall e :: e in k.log ==> Lawful(c, e))
    && k.tally.spellSent <= (if 1 <= k.pos.cycles then Passed(c, k.pos) else 0)
  }

  ghost predicate Inv(c: Cadence, s: State) {
    && Reached(c, s.knock.pos)
    && Accounts(c, s.knock)
    && (s.ctl.mode.Knocking? ==> 1 <= s.knock.pos.cycles && s.due == DueOf(c, s.knock.pos))
    && (!s.ctl.mode.Knocking? ==> s.due == 0)
    && |s.ctl.answers| <= ANSWERS
    && (forall a :: a in s.ctl.answers ==> 0 < |a| <= FRAME_BYTES)
    && (s.ctl.mode.Knocking? ==> s.ctl.answers == [])
  }

  lemma CountAppend(log: seq<Event>, e: Event, fate: Fate)
    ensures Count(log + [e], fate) == Count(log, fate) + (if e.Frame? && e.fate == fate then 1 else 0)
  {
  }

  lemma AccountsTick(c: Cadence, k: Knock, now: nat, wire: Wire)
    requires Accounts(c, k) && Ready(c, k.pos, now) && 1 <= k.pos.cycles
    ensures Accounts(c, Tick(c, k, now, wire))
  {
    PassedTick(c, k.pos);
    if k.pos.resting {
      TickFollows(c, k, now, wire);
      CountsOpened(c, k.log, k.pos.next);
    } else if k.pos.slot < |c.cycle| && c.cycle[k.pos.slot].Control() {
      AccountsFrame(c, k, now, wire);
    }
  }

  lemma CountsOpened(c: Cadence, log: seq<Event>, at: nat)
    requires forall e :: e in log ==> Lawful(c, e)
    ensures forall e :: e in log + [Opened(at)] ==> Lawful(c, e)
    ensures forall fate :: Count(log + [Opened(at)], fate) == Count(log, fate)
  {
  }

  lemma AccountsFrame(c: Cadence, k: Knock, now: nat, wire: Wire)
    requires Accounts(c, k) && !k.pos.resting && k.pos.slot < |c.cycle| && 1 <= k.pos.cycles
    requires c.cycle[k.pos.slot].Control() && SlotNs(c, k.pos.t0, k.pos.slot) <= now
    ensures Accounts(c, SlotTick(c, k, now, wire))
  {
    var t := SlotTick(c, k, now, wire);
    var e := t.log[|k.log|];
    assert t.log == k.log + [e];
    FrameFollows(k.log, k.tally, e);
    CountAppend(k.log, e, Left);
    CountAppend(k.log, e, Late);
    CountAppend(k.log, e, Refused);
    assert t.tally.spellSent <= Passed(c, t.pos) by {
      PassedTick(c, k.pos);
    }
    LawfulFrame(c, k, now, wire);
  }

  lemma LawfulFrame(c: Cadence, k: Knock, now: nat, wire: Wire)
    requires !k.pos.resting && k.pos.slot < |c.cycle| && SlotNs(c, k.pos.t0, k.pos.slot) <= now
    requires forall e :: e in k.log ==> Lawful(c, e)
    ensures forall e :: e in SlotTick(c, k, now, wire).log ==> Lawful(c, e)
  {
  }

  lemma {:induction false} AccountsLoop(c: Cadence, k: Knock, now: nat, wire: Wire)
    requires Accounts(c, k) && 1 <= k.pos.cycles
    ensures Accounts(c, RunLoop(c, k, now, wire))
    ensures k.pos.cycles <= RunLoop(c, k, now, wire).pos.cycles
    decreases TimeLeft(k.pos, now), StepsLeft(c, k.pos, now)
  {
    if Ready(c, k.pos, now) {
      TickProgress(c, k.pos, now);
      AccountsTick(c, k, now, wire);
      AccountsLoop(c, Tick(c, k, now, wire), now, wire);
    }
  }

  lemma OpenSpellInv(c: Cadence, s: State, licence: Licence, now: nat)
    requires Inv(c, s)
    ensures Inv(c, OpenSpell(c, s, licence, now))
  {
  }

  lemma PollInv(c: Cadence, s: State, now: nat, pinned: bool, trunk: bool)
    requires Inv(c, s)
    ensures Inv(c, Step(c, s, now, pinned, trunk).0)
  {
    if !trunk && !s.ctl.mode.Trunk? {
      OpenSpellInv(c, s, LicenceStep(s.ctl.licence, now).0, now);
    }
  }

  lemma RousedInv(c: Cadence, s: State, now: nat)
    requires Inv(c, s)
    ensures Inv(c, Roused(s, now))
  {
  }

  lemma HearInv(c: Cadence, s: State, now: nat, f: Heard, evidence: bool)
    requires Inv(c, s)
    ensures Inv(c, Hear(s, now, f, evidence).0)
  {
    RousedInv(c, s, now);
  }

  lemma ApplyInv(c: Cadence, s: State, op: Op, wire: Wire)
    requires Inv(c, s)
    ensures Inv(c, Apply(c, s, op, wire))
  {
    match op
    case Poll(now, pinned, trunk) => PollInv(c, s, now, pinned, trunk);
    case Hears(now, f, evidence) => HearInv(c, s, now, f, evidence);
    case Sends(now) =>
      if s.ctl.mode.Knocking? {
        RunCanStop(c, s, now, wire);
        PosLoopReached(c, s.knock.pos, now);
        AccountsLoop(c, s.knock, now, wire);
      }
    case Takes =>
  }

  lemma InitInv(c: Cadence, start: nat)
    ensures Inv(c, Init(start))
  {
  }

  /** Over every run, whatever the wire refuses and however the sender stalls: the counters are
    * the history's, a push is a whole transfer that left, only control frames are sent, each
    * in its slot's time, the due time is the next control slot's, and a spell has sent no more
    * than one cycle's control frames for each knock opened. */
  lemma RunsKeepInv(c: Cadence, start: nat, ops: seq<Op>, wire: Wire)
    ensures var s := Trace(c, Init(start), ops, wire);
            Inv(c, s) && s.knock.tally.spellSent <= ControlIn(c.cycle) * s.knock.pos.cycles
  {
    hide Trace, Follows, Lawful, Count, DueOf;
    var s := Trace(c, Init(start), ops, wire);
    InitInv(c, start);
    InvFrom(c, Init(start), ops, wire);
    if s.knock.pos.cycles > 0 {
      ControlInPrefix(c.cycle, s.knock.pos.slot);
      OneLess(ControlIn(c.cycle), s.knock.pos.cycles);
    }
  }

  lemma OneLess(a: nat, n: nat)
    requires 0 < n
    ensures a * (n - 1) + a == a * n
  {
  }

  lemma {:induction false} ControlInPrefix(slots: seq<Emit>, n: nat)
    requires n <= |slots|
    ensures ControlIn(slots[..n]) <= ControlIn(slots)
    decreases |slots|
  {
    if n < |slots| {
      ControlInPrefix(slots[..|slots| - 1], n);
      assert slots[..|slots| - 1][..n] == slots[..n];
    } else {
      assert slots[..n] == slots;
    }
  }

  // ---- a caller that wakes in time ---------------------------------------------------

  /** The sender is called no more than LATE_NS after the time it asked for. */
  predicate InTime(s: State, op: Op) {
    op.Sends? && s.ctl.mode.Knocking? ==> op.now <= s.due + LATE_NS
  }

  predicate PromptTrace(c: Cadence, s: State, ops: seq<Op>, wire: Wire)
    requires InCycle(c, s.knock.pos)
    decreases |ops|
  {
    ops == [] ||
    (PromptTrace(c, s, ops[..|ops| - 1], wire)
     && InTime(Trace(c, s, ops[..|ops| - 1], wire), ops[|ops| - 1]))
  }

  /** A caller that wakes in time never records a late frame, in any run. */
  lemma {:induction false} NeverLate(c: Cadence, start: nat, ops: seq<Op>, wire: Wire)
    requires KeepsUp(c) && PromptTrace(c, Init(start), ops, wire)
    ensures Trace(c, Init(start), ops, wire).knock.tally.late == 0
    decreases |ops|
  {
    if ops != [] {
      NeverLate(c, start, ops[..|ops| - 1], wire);
      RunsKeepInv(c, start, ops[..|ops| - 1], wire);
      LateAfter(c, Trace(c, Init(start), ops[..|ops| - 1], wire), ops[|ops| - 1], wire);
    }
  }

  lemma LateAfter(c: Cadence, s: State, op: Op, wire: Wire)
    requires Inv(c, s) && KeepsUp(c) && InTime(s, op)
    ensures Apply(c, s, op, wire).knock.tally.late == s.knock.tally.late
  {
    if op.Sends? && s.ctl.mode.Knocking? {
      DueByControlReached(c, s.knock.pos);
      PromptRun(c, s, op.now, wire);
    }
  }

  /** A run goes on with one operation more. */
  lemma Append(c: Cadence, s: State, ops: seq<Op>, op: Op, wire: Wire)
    requires InCycle(c, s.knock.pos)
    ensures Trace(c, s, ops + [op], wire) == Apply(c, Trace(c, s, ops, wire), op, wire)
    ensures PromptTrace(c, s, ops + [op], wire)
            <==> PromptTrace(c, s, ops, wire) && InTime(Trace(c, s, ops, wire), op)
  {
    assert (ops + [op])[..|ops|] == ops;
  }

  /** In a knock, before one of its slots, and due when the sender says. */
  predicate InKnock(c: Cadence, s: State) {
    && s.ctl.mode.Knocking? && Reached(c, s.knock.pos) && !s.knock.pos.resting
    && s.due == DueOf(c, s.knock.pos)
  }

  /** Calls on time, up to the last time the knock asks for. */
  lemma TowardsTail(c: Cadence, s: State, ops: seq<Op>, wire: Wire) returns (more: seq<Op>)
    requires InCycle(c, s.knock.pos) && InKnock(c, Trace(c, s, ops, wire)) && PromptTrace(c, s, ops, wire)
    ensures PromptTrace(c, s, more, wire) && ops <= more
    ensures var r, q := Trace(c, s, more, wire), Trace(c, s, ops, wire);
            && InKnock(c, r) && r.ctl == q.ctl && r.due == r.knock.pos.t0 + LastAskNs(c)
            && r.knock.pos == q.knock.pos.(slot := r.knock.pos.slot)
    decreases |c.cycle| - Trace(c, s, ops, wire).knock.pos.slot
  {
    hide Trace, PromptTrace, SlotNs;
    var q := Trace(c, s, ops, wire);
    more := ops;
    if q.due < q.knock.pos.t0 + LastAskNs(c) {
      Append(c, s, ops, Sends(q.due), wire);
      CallOnTime(c, q, wire);
      more := TowardsTail(c, s, ops + [Sends(q.due)], wire);
    } else {
      AsksNoLater(c, q.knock.pos);
    }
  }

  /** No place a sender reaches asks later than the last time of its knock. */
  lemma AsksNoLater(c: Cadence, p: Pos)
    requires Reached(c, p) && !p.resting
    ensures DueOf(c, p) <= p.t0 + LastAskNs(c)
  {
    hide SlotNs;
    var next := FirstControl(c, p.slot);
    Shifted(c, p.t0, next);
    SlotNsMonotone(c, 0, |c.cycle| - 1, |c.cycle|);
    if next == |c.cycle| {
      ReachedInTail(c, p);
    } else {
      SlotNsMonotone(c, 0, next, |c.cycle| - 1);
    }
  }

  /** A call on time before the last one of its knock stays in the knock and goes on. */
  lemma CallOnTime(c: Cadence, q: State, wire: Wire)
    requires InKnock(c, q) && q.due < q.knock.pos.t0 + LastAskNs(c)
    ensures var r := Run(c, q, q.due, wire);
            && InKnock(c, r) && r.ctl == q.ctl && q.knock.pos.slot < r.knock.pos.slot
            && r.knock.pos == q.knock.pos.(slot := r.knock.pos.slot)
  {
    hide SlotNs;
    var p := q.knock.pos;
    var next := FirstControl(c, p.slot);
    Shifted(c, p.t0, next);
    Shifted(c, p.t0, |c.cycle| - 1);
    if next == |c.cycle| {
      ReachedInTail(c, p);
    } else {
      SlotNsMonotone(c, 0, next, |c.cycle| - 1);
    }
    StaysIn(c, p, q.due);
    RunCanStop(c, q, q.due, wire);
    PosLoopReached(c, p, q.due);
    var r := Run(c, q, q.due, wire);
    if r.knock.pos.slot <= next {
      SlotNsMonotone(c, p.t0, r.knock.pos.slot, next);
    }
  }

  /** The run that opens a spell. */
  const Opening: seq<Op> := [Poll(LISTEN_NS, false, false)]

  lemma OpeningOpens(c: Cadence, wire: Wire)
    ensures InKnock(c, Trace(c, Init(0), Opening, wire)) && PromptTrace(c, Init(0), Opening, wire)
    ensures SpellOpened(c, Trace(c, Init(0), Opening, wire))
  {
    Append(c, Init(0), [], Opening[0], wire);
    assert [] + Opening == Opening;
    RunsKeepInv(c, 0, Opening, wire);
  }

  lemma LastAskIs(c: Cadence)
    ensures SlotNs(c, 0, |c.cycle| - 1) <= LastAskNs(c) <= SlotNs(c, 0, |c.cycle|)
  {
    SlotNsMonotone(c, 0, |c.cycle| - 1, |c.cycle|);
  }

  /** Of any other cadence some run in time is late: the spell is opened, every control slot is
    * called for on its due time, and the last call of the knock comes LATE_NS after it. */
  lemma LateInSomeRun(c: Cadence, wire: Wire) returns (ops: seq<Op>)
    requires !KeepsUp(c)
    ensures PromptTrace(c, Init(0), ops, wire) && 0 < Trace(c, Init(0), ops, wire).knock.tally.late
  {
    hide DueOf, SlotNs, LastAskNs, Trace;
    OpeningOpens(c, wire);
    var tail := TowardsTail(c, Init(0), Opening, wire);
    var s := Trace(c, Init(0), tail, wire);
    Append(c, Init(0), tail, Sends(s.due + LATE_NS), wire);
    LastAskIs(c);
    LateInTime(c, s.knock, LastAskNs(c), s.due + LATE_NS, wire);
    ops := tail + [Sends(s.due + LATE_NS)];
  }

  /** A caller that wakes in time is never late in any run, exactly when a knock of a sender that
    * runs asks no later than the header of a knock opened at the backoff's ceiling. */
  lemma NeverLateIff(c: Cadence)
    ensures KeepsUp(c) <==>
              forall start: nat, ops, wire: Wire | PromptTrace(c, Init(start), ops, wire) ::
                Trace(c, Init(start), ops, wire).knock.tally.late == 0
  {
    if KeepsUp(c) {
      forall start: nat, ops, wire: Wire | PromptTrace(c, Init(start), ops, wire)
        ensures Trace(c, Init(start), ops, wire).knock.tally.late == 0
      {
        NeverLate(c, start, ops, wire);
      }
    } else {
      var wire: Wire := _ => true;
      var ops := LateInSomeRun(c, wire);
      assert PromptTrace(c, Init(0), ops, wire);
    }
  }

  // ---- a due time that can be trusted in every run ---------------------------------------

  /** In no run does a call before the due time account for a control slot. */
  ghost predicate DueIsNextInRuns(c: Cadence) {
    forall start: nat, ops, wire: Wire, b: nat | b < Trace(c, Init(start), ops, wire).due ::
      var s := Trace(c, Init(start), ops, wire);
      Attempts(Apply(c, s, Sends(b), wire).knock.tally) == Attempts(s.knock.tally)
  }

  /** The due time names the next control slot in every run exactly when no run stops in the FILLER
    * tail of a knock, or that tail ends in its last slot's nanosecond or by the next header. */
  lemma DueIsNextInRunsIff(c: Cadence)
    ensures DueIsNextInRuns(c) <==> !StopsInTail(c) || NeverHides(c) || InstantTail(c)
  {
    if !StopsInTail(c) || NeverHides(c) || InstantTail(c) {
      forall start: nat, ops, wire: Wire, b: nat | b < Trace(c, Init(start), ops, wire).due
        ensures var s := Trace(c, Init(start), ops, wire);
                Attempts(Apply(c, s, Sends(b), wire).knock.tally) == Attempts(s.knock.tally)
      {
        RunsKeepInv(c, start, ops, wire);
        EarlyCall(c, Trace(c, Init(start), ops, wire), b, wire);
      }
    } else {
      var wire: Wire := _ => true;
      var ops, b := HiddenInSomeRun(c, wire);
      assert b < Trace(c, Init(0), ops, wire).due;
    }
  }

  lemma EarlyCall(c: Cadence, s: State, b: nat, wire: Wire)
    requires Inv(c, s) && b < s.due && (!StopsInTail(c) || NeverHides(c) || InstantTail(c))
    ensures Attempts(Run(c, s, b, wire).knock.tally) == Attempts(s.knock.tally)
  {
    hide StopsInTail, NeverHides, InstantTail, DueOf;
    var p := s.knock.pos;
    if !StopsInTail(c) {
      DueByControlReached(c, p);
      NothingBeforeControl(c, p, b);
    } else {
      NothingBeforeDue(c, p, b);
    }
    RunInCycle(c, s, b, wire);
    RunLoopPos(c, s.knock, b, wire);
    RunLoopAttempts(c, s.knock, b, wire);
  }

  /** Of any other cadence some run has a call before its due time that passes the next header. */
  lemma HiddenInSomeRun(c: Cadence, wire: Wire) returns (ops: seq<Op>, b: nat)
    requires StopsInTail(c) && !NeverHides(c) && !InstantTail(c)
    ensures var s := Trace(c, Init(0), ops, wire);
            b < s.due && Attempts(s.knock.tally) < Attempts(Apply(c, s, Sends(b), wire).knock.tally)
  {
    hide DueOf, StopsInTail;
    OpeningOpens(c, wire);
    ops := TowardsTail(c, Init(0), Opening, wire);
    var s := Trace(c, Init(0), ops, wire);
    b := s.due - 1;
    SlotNsMonotone(c, 0, |c.cycle| - 1, |c.cycle|);
    Shifted(c, s.knock.pos.t0, |c.cycle| - 1);
    TailIsLastDue(c);
    HiddenIsLong(c, LastAskNs(c));
    TailRunsOn(c, s.knock.pos, b);
    RunInCycle(c, s, b, wire);
    RunLoopPos(c, s.knock, b, wire);
    RunLoopAttempts(c, s.knock, b, wire);
  }

  lemma TailIsLastDue(c: Cadence)
    requires StopsInTail(c)
    ensures LastAskNs(c) == LastDueNs(c) == SlotNs(c, 0, |c.cycle|)
  {
  }

  // ---- a spell ---------------------------------------------------------------------------

  /** A spell that is still on is the spell it was: leaving it and knocking again is a new one. */
  lemma {:induction false} SameSpell(c: Cadence, s: State, ops: seq<Op>, wire: Wire)
    requires InCycle(c, s.knock.pos) && ops != []
    ensures var r := Trace(c, s, ops, wire);
            var q := Trace(c, s, ops[..|ops| - 1], wire);
            s.ctl.knocks <= q.ctl.knocks <= r.ctl.knocks
            && (r.ctl.mode.Knocking? && r.ctl.knocks == s.ctl.knocks ==>
                  q.ctl.mode.Knocking? && q.ctl.knocks == s.ctl.knocks)
    decreases |ops|
  {
    hide Apply;
    if |ops| > 1 {
      SameSpell(c, s, ops[..|ops| - 1], wire);
    }
    ApplySpell(c, Trace(c, s, ops[..|ops| - 1], wire), ops[|ops| - 1], wire);
  }

  lemma ApplySpell(c: Cadence, s: State, op: Op, wire: Wire)
    requires InCycle(c, s.knock.pos)
    ensures var r := Apply(c, s, op, wire);
            s.ctl.knocks <= r.ctl.knocks
            && (r.ctl.mode.Knocking? && r.ctl.knocks == s.ctl.knocks ==> s.ctl.mode.Knocking?)
  {
  }

  ghost predicate SpellOpened(c: Cadence, s: State) {
    && Inv(c, s) && s.ctl.mode.Knocking? && s.knock.pos.slot == 0 && !s.knock.pos.resting
    && s.knock.pos.cycles == 1 && !s.knock.tally.headSent
  }

  lemma {:induction false} InvFrom(c: Cadence, s: State, ops: seq<Op>, wire: Wire)
    requires Inv(c, s)
    ensures Inv(c, Trace(c, s, ops, wire))
    decreases |ops|
  {
    if ops != [] {
      InvFrom(c, s, ops[..|ops| - 1], wire);
      ApplyInv(c, Trace(c, s, ops[..|ops| - 1], wire), ops[|ops| - 1], wire);
    }
  }

  /** While nothing is heard, every knock of a spell opens where the backoff puts it. */
  lemma {:induction false} SpellBacksOff(c: Cadence, s: State, ops: seq<Op>, wire: Wire)
    requires SpellOpened(c, s) && forall op :: op in ops ==> !op.Hears?
    ensures var r := Trace(c, s, ops, wire);
            r.ctl.mode.Knocking? && r.ctl.knocks == s.ctl.knocks ==>
              OnBackoff(c, r.knock.pos, s.knock.pos.t0, s.knock.pos.unanswered, 1)
    decreases |ops|
  {
    var r := Trace(c, s, ops, wire);
    if ops == [] {
      assert SumPeriods(c, s.knock.pos.unanswered, 0) == 0;
    } else if r.ctl.mode.Knocking? && r.ctl.knocks == s.ctl.knocks {
      SameSpell(c, s, ops, wire);
      SpellBacksOff(c, s, ops[..|ops| - 1], wire);
      var q := Trace(c, s, ops[..|ops| - 1], wire);
      assert ops[|ops| - 1] in ops;
      if ops[|ops| - 1].Sends? {
        var now := ops[|ops| - 1].now;
        OnBackoffLoop(c, q.knock.pos, now, s.knock.pos.t0, s.knock.pos.unanswered, 1);
        RunLoopPos(c, q.knock, now, wire);
      }
    }
  }

  /** So it does in nanoseconds, whatever else is polled. */
  lemma SpellInNanoseconds(c: Cadence, s: State, ops: seq<Op>, wire: Wire, d: nat)
    requires SpellOpened(c, s) && forall op :: op in ops ==> !op.Hears?
    ensures var r := Trace(c, s, ops, wire);
            r.ctl.mode.Knocking? && r.ctl.knocks == s.ctl.knocks ==>
              InNanoseconds(c, r.knock.pos, s.knock.pos.t0, s.knock.pos.unanswered, 1, d)
  {
    hide OnBackoff, InNanoseconds;
    SpellBacksOff(c, s, ops, wire);
    var r := Trace(c, s, ops, wire);
    if r.ctl.mode.Knocking? && r.ctl.knocks == s.ctl.knocks {
      BackoffInNanoseconds(c, r.knock.pos, s.knock.pos.t0, s.knock.pos.unanswered, 1, d);
    }
  }

  /** A frame after a silence ends a rest: the next call of the sender opens a knock there and
    * the backoff runs from its shortest period again. */
  lemma RousedOpensAtOnce(c: Cadence, s: State, now: nat, f: Heard, wire: Wire)
    requires Inv(c, s) && s.ctl.mode.Knocking? && s.knock.pos.resting
    requires AfterSilence(s.ctl.lastHeard, now)
    ensures var h := Hear(s, now, f, false).0;
            InCycle(c, h.knock.pos) && h.due == now
            && var p := Run(c, h, now, wire).knock.pos;
               && p.cycles == s.knock.pos.cycles + 1
               && OnBackoff(c, p, now, 0, s.knock.pos.cycles + 1)
  {
    var h := Hear(s, now, f, false).0;
    var p := h.knock.pos;
    RunLoopPos(c, h.knock, now, wire);
    TickProgress(c, p, now);
    var q := PosTick(c, p);
    assert SumPeriods(c, 0, 0) == 0;
    OnBackoffLoop(c, q, now, now, 0, q.cycles);
    StartsByNow(c, q, now);
    var r := PosLoop(c, q, now);
    var m := r.cycles - q.cycles;
    if m > 0 {
      PeriodPositive(c, 0);
      SumPeriodsPositive(c, 0, m);
    }
  }

  lemma SumPeriodsPositive(c: Cadence, u: nat, n: nat)
    requires 0 < n
    ensures 0 < SumPeriods(c, u, n)
  {
  }

  // ---- what answered -------------------------------------------------------------------

  /** The control frames heard in `ops`, in order, each as much of it as is kept. */
  function ControlFrames(ops: seq<Op>): seq<seq<nat>>
    decreases |ops|
  {
    if ops == [] then []
    else
      var op, before := ops[|ops| - 1], ControlFrames(ops[..|ops| - 1]);
      if op.Hears? && op.frame.control && op.frame.bytes != []
      then before + [op.frame.bytes[..Min(|op.frame.bytes|, FRAME_BYTES)]] else before
  }

  function FirstFew(frames: seq<seq<nat>>): seq<seq<nat>> { frames[..Min(|frames|, ANSWERS)] }

  lemma KeptIsFirstFew(frames: seq<seq<nat>>, f: Heard)
    ensures KeepAnswer(FirstFew(frames), f)
         == FirstFew(if f.control && f.bytes != []
                     then frames + [f.bytes[..Min(|f.bytes|, FRAME_BYTES)]] else frames)
  {
  }

  /** What the evidence that ended a knock left, as long as nobody took it. */
  ghost predicate AnswerOf(s: State, op: Op, frames: seq<seq<nat>>, r: State)
    requires op.Hears?
  {
    && r.ctl.answers == FirstFew(frames)
    && r.ctl.answeredCycle == s.knock.pos.cycles && r.due == 0
    && r.ctl.answerSrc == if |op.frame.bytes| >= 12 then op.frame.bytes[6..12] else s.ctl.answerSrc
  }

  /** Evidence in a knock is its end.  Until somebody takes the answer, the answer is the first four
    * control frames heard, the evidence included, through every other operation. */
  lemma {:induction false} AnswerIsTheFirstFrames(c: Cadence, s: State, op: Op, ops: seq<Op>, wire: Wire)
    requires InCycle(c, s.knock.pos) && s.ctl.mode.Knocking? && op.Hears? && op.evidence
    ensures var r := Trace(c, s, [op] + ops, wire);
            && s.ctl.knocks <= r.ctl.knocks
            && (r.ctl.knocks == s.ctl.knocks ==> !r.ctl.mode.Knocking?)
            && (r.ctl.knocks == s.ctl.knocks && r.ctl.mode.Answered? ==>
                  AnswerOf(s, op, ControlFrames([op] + ops), r))
    decreases |ops|
  {
    hide KeepAnswer, FirstFew, Apply;
    var all := [op] + ops;
    var init, last := all[..|all| - 1], all[|all| - 1];
    var q := Trace(c, s, init, wire);
    KeptIsFirstFew(ControlFrames(init), if last.Hears? then last.frame else op.frame);
    if ops == [] {
      assert init == [] && last == op;
      EvidenceAnswers(c, s, op, wire);
    } else {
      assert init == [op] + ops[..|ops| - 1];
      AnswerIsTheFirstFrames(c, s, op, ops[..|ops| - 1], wire);
      AnswerGoesOn(c, q, last, wire);
    }
  }

  lemma EvidenceAnswers(c: Cadence, s: State, op: Op, wire: Wire)
    requires InCycle(c, s.knock.pos) && s.ctl.mode.Knocking? && op.Hears? && op.evidence
    ensures var r := Apply(c, s, op, wire);
            && r.ctl.mode.Answered? && r.ctl.knocks == s.ctl.knocks && FirstFew([]) == []
            && r.ctl.answers == KeepAnswer([], op.frame)
            && r.ctl.answeredCycle == s.knock.pos.cycles && r.due == 0
            && r.ctl.answerSrc == if |op.frame.bytes| >= 12 then op.frame.bytes[6..12] else s.ctl.answerSrc
  {
    hide KeepAnswer;
  }

  /** An answer that waits grows by the control frames heard and changes in nothing else; leaving
    * it is taking it, a trunk, or a new spell. */
  lemma AnswerGoesOn(c: Cadence, q: State, op: Op, wire: Wire)
    requires InCycle(c, q.knock.pos)
    ensures var r := Apply(c, q, op, wire);
            && q.ctl.knocks <= r.ctl.knocks
            && (r.ctl.knocks == q.ctl.knocks && !q.ctl.mode.Knocking? ==> !r.ctl.mode.Knocking?)
            && (r.ctl.mode.Answered? && !q.ctl.mode.Knocking? ==>
                  && q.ctl.mode.Answered? && r.ctl.knocks == q.ctl.knocks && r.due == q.due
                  && r.ctl.answers == (if op.Hears? then KeepAnswer(q.ctl.answers, op.frame) else q.ctl.answers)
                  && r.ctl.answeredCycle == q.ctl.answeredCycle && r.ctl.answerSrc == q.ctl.answerSrc)
  {
    hide KeepAnswer;
  }

  // ---- when a spell may open ---------------------------------------------------------

  ghost predicate Clocked(ops: seq<Op>, from: nat) {
    && (forall i :: 0 <= i < |ops| && !ops[i].Takes? ==> from <= ops[i].now)
    && (forall i, j :: 0 <= i < j < |ops| && !ops[i].Takes? && !ops[j].Takes? ==>
          ops[i].now <= ops[j].now)
  }

  /** A spell opens only on a wire that is neither pinned nor a trunk and on which no frame has
    * been heard for LISTEN_NS, nor since it came up. */
  lemma KnocksOnlyOnSilence(c: Cadence, start: nat, ops: seq<Op>, wire: Wire,
                            now: nat, pinned: bool, trunk: bool)
    requires Clocked(ops + [Poll(now, pinned, trunk)], start)
    ensures var s := Trace(c, Init(start), ops, wire);
            Step(c, s, now, pinned, trunk).1.ActKnock? ==>
              && !pinned && !trunk && start + LISTEN_NS <= now
              && (0 < s.ctl.lastHeard ==> s.ctl.lastHeard + LISTEN_NS <= now)
  {
    var all := ops + [Poll(now, pinned, trunk)];
    assert all[..|ops|] == ops;
    assert forall i :: 0 <= i < |ops| ==> all[i] == ops[i];
    assert all[|ops|] == Poll(now, pinned, trunk);
    LicenceSince(c, start, ops, wire, now);
  }

  predicate Watched(s: State, start: nat, now: nat) {
    start <= s.ctl.licence.since <= now && s.ctl.lastHeard <= s.ctl.licence.since
  }

  lemma ApplyWatched(c: Cadence, s: State, op: Op, wire: Wire, start: nat, now: nat)
    requires InCycle(c, s.knock.pos) && Watched(s, start, now)
    requires !op.Takes? ==> start <= op.now <= now && s.ctl.licence.since <= op.now
    ensures Watched(Apply(c, s, op, wire), start, now)
  {
  }

  lemma {:induction false} LicenceSince(c: Cadence, start: nat, ops: seq<Op>, wire: Wire, now: nat)
    requires Clocked(ops, start) && start <= now
    requires forall i :: 0 <= i < |ops| && !ops[i].Takes? ==> ops[i].now <= now
    ensures Watched(Trace(c, Init(start), ops, wire), start, now)
    decreases |ops|
  {
    if ops != [] {
      var init, op := ops[..|ops| - 1], ops[|ops| - 1];
      assert forall i :: 0 <= i < |init| ==> init[i] == ops[i];
      LicenceSince(c, start, init, wire, if op.Takes? then now else op.now);
      ApplyWatched(c, Trace(c, Init(start), init, wire), op, wire, start, now);
    }
  }
}
