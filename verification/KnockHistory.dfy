/** What a wire is doing, read off what was done to it and what left it, and not off the fields that
  * say so. */
module KnockHistory {
  import opened KnockModel
  import opened KnockSchedule
  import opened KnockBackoff
  import opened KnockTrace

  // ---- trunks, frames and silences ------------------------------------------------------------

  /** The last poll found a trunk. */
  predicate OnTrunk(ops: seq<Op>)
    decreases |ops|
  {
    ops != [] && if ops[|ops| - 1].Poll? then ops[|ops| - 1].trunk else OnTrunk(ops[..|ops| - 1])
  }

  /** The last operation is a frame heard off a trunk. */
  predicate EndsHeard(ops: seq<Op>) {
    ops != [] && ops[|ops| - 1].Hears? && !OnTrunk(ops[..|ops| - 1])
  }

  /** The last operation is a poll that finds no trunk where the poll before it found one. */
  predicate EndsTrunk(ops: seq<Op>) {
    ops != [] && ops[|ops| - 1].Poll? && !ops[|ops| - 1].trunk && OnTrunk(ops[..|ops| - 1])
  }

  /** When the last frame off a trunk was heard, or 0. */
  function LastHeard(ops: seq<Op>): nat
    decreases |ops|
  {
    if ops == [] then 0
    else if EndsHeard(ops) then ops[|ops| - 1].now
    else LastHeard(ops[..|ops| - 1])
  }

  /** Since when nothing was heard: the last frame, the end of the last trunk, or the start. */
  function QuietSince(start: nat, ops: seq<Op>): nat
    decreases |ops|
  {
    if ops == [] then start
    else if EndsHeard(ops) || EndsTrunk(ops) then ops[|ops| - 1].now
    else QuietSince(start, ops[..|ops| - 1])
  }

  /** In every run the mode says whether the wire is a trunk, the wire was last heard when it was,
    * and a licence runs from the last silence and is used up only by a spell or a trunk. */
  predicate Tells(s: State, trunk: bool, heard: nat, quiet: nat) {
    && (s.ctl.mode.Trunk? <==> trunk) && s.ctl.lastHeard == heard && s.ctl.licence.since == quiet
    && (s.ctl.licence.granted ==> s.ctl.mode.Knocking? || s.ctl.mode.Trunk?)
  }

  lemma {:induction false} StateTellsHistory(c: Cadence, start: nat, ops: seq<Op>, wire: Wire)
    ensures Tells(Trace(c, Init(start), ops, wire), OnTrunk(ops), LastHeard(ops), QuietSince(start, ops))
    decreases |ops|
  {
    if ops != [] {
      StateTellsHistory(c, start, ops[..|ops| - 1], wire);
      ApplyTells(c, Trace(c, Init(start), ops[..|ops| - 1], wire), ops[|ops| - 1], wire);
    }
  }

  lemma ApplyTells(c: Cadence, s: State, op: Op, wire: Wire)
    requires InCycle(c, s.knock.pos) && (s.ctl.licence.granted ==> s.ctl.mode.Knocking? || s.ctl.mode.Trunk?)
    ensures var r := Apply(c, s, op, wire);
            var heard := op.Hears? && !s.ctl.mode.Trunk?;
            var ended := op.Poll? && !op.trunk && s.ctl.mode.Trunk?;
            Tells(r, if op.Poll? then op.trunk else s.ctl.mode.Trunk?,
                  if heard then op.now else s.ctl.lastHeard,
                  if heard || ended then op.now else s.ctl.licence.since)
  {
  }

  /** A poll opens a spell exactly when it finds neither pin nor trunk, the wire is not knocked on
    * already, and nothing was heard for 500 ms, nor since it came up. */
  lemma SpellOpensIff(c: Cadence, start: nat, ops: seq<Op>, wire: Wire, now: nat, pinned: bool, trunk: bool)
    ensures var s := Trace(c, Init(start), ops, wire);
            Step(c, s, now, pinned, trunk).1.ActKnock? <==>
              && !pinned && !trunk && !OnTrunk(ops) && !s.ctl.mode.Knocking?
              && QuietSince(start, ops) + 500_000_000 <= now
  {
    StateTellsHistory(c, start, ops, wire);
  }

  /** What a poll and a frame heard return, and the mode they leave. */
  lemma ActsAndModes(c: Cadence, s: State, now: nat, pinned: bool, trunk: bool, f: Heard, evidence: bool)
    ensures var (r, act) := Step(c, s, now, pinned, trunk);
            && (act.ActTrunk? <==> trunk && !s.ctl.mode.Trunk?)
            && (act.ActUntrunk? <==> !trunk && s.ctl.mode.Trunk?)
            && !act.ActHush?
            && r.ctl.mode == (match act
                              case ActTrunk => Trunk
                              case ActUntrunk => Listening
                              case ActKnock => Knocking
                              case _ => s.ctl.mode)
    ensures var (r, act) := Hear(s, now, f, evidence);
            && (act.ActHush? <==> s.ctl.mode.Knocking? && evidence) && (act.ActHush? || act.ActNone?)
            && r.ctl.mode == (if act.ActHush? then Answered else s.ctl.mode)
    ensures var r := AnswerTaken(s);
            && r.ctl.mode == (if s.ctl.mode.Answered? then Listening else s.ctl.mode)
            && r.ctl.answers == [] && r.knock == s.knock && r.due == s.due
  {
  }

  // ---- spells -------------------------------------------------------------------------------------

  function Spells(c: Cadence, start: nat, ops: seq<Op>, wire: Wire): nat
    decreases |ops|
  {
    if ops == [] then 0
    else
      var init, op := ops[..|ops| - 1], ops[|ops| - 1];
      Spells(c, start, init, wire)
      + (if op.Poll? && Step(c, Trace(c, Init(start), init, wire), op.now, op.pinned, op.trunk).1.ActKnock?
         then 1 else 0)
  }

  lemma {:induction false} SpellsCounted(c: Cadence, start: nat, ops: seq<Op>, wire: Wire)
    ensures Trace(c, Init(start), ops, wire).ctl.knocks == Spells(c, start, ops, wire)
    decreases |ops|
  {
    if ops != [] {
      SpellsCounted(c, start, ops[..|ops| - 1], wire);
    }
  }

  function Opens(log: seq<Event>): nat {
    if log == [] then 0 else Opens(log[..|log| - 1]) + (if log[|log| - 1].Opened? then 1 else 0)
  }

  lemma OpensAppend(log: seq<Event>, e: Event)
    ensures Opens(log + [e]) == Opens(log) + (if e.Opened? then 1 else 0)
  {
    assert (log + [e])[..|log|] == log;
  }

  /** The poll that opens a spell opens its first knock then and there, with nothing of the spells
    * before counted in it. */
  lemma FirstKnock(c: Cadence, s: State, now: nat, pinned: bool, trunk: bool)
    requires Step(c, s, now, pinned, trunk).1.ActKnock?
    ensures var r := Step(c, s, now, pinned, trunk).0;
            && r.knock.log == s.knock.log + [Opened(now)]
            && r.knock.pos.cycles == 1 && r.knock.tally.spellSent == 0
            && r.knock.pos.t0 == now && r.knock.pos.slot == 0 && !r.knock.pos.resting
            && r.knock.pos.unanswered == s.knock.pos.unanswered && r.ctl.answers == []
            && r.ctl.knocks == s.ctl.knocks + 1
  {
  }

  /** A spell counts the knocks it opened and the frames of it that left. */
  lemma {:induction false} SpellCounts(c: Cadence, s: State, ops: seq<Op>, wire: Wire)
    requires InCycle(c, s.knock.pos) && s.ctl.mode.Knocking?
    ensures var r := Trace(c, s, ops, wire);
            r.ctl.mode.Knocking? && r.ctl.knocks == s.ctl.knocks ==>
              && r.knock.pos.cycles - s.knock.pos.cycles == Opens(r.knock.log) - Opens(s.knock.log)
              && r.knock.tally.spellSent - s.knock.tally.spellSent == r.knock.tally.sent - s.knock.tally.sent
    decreases |ops|
  {
    var r := Trace(c, s, ops, wire);
    if ops != [] && r.ctl.mode.Knocking? && r.ctl.knocks == s.ctl.knocks {
      var init, op := ops[..|ops| - 1], ops[|ops| - 1];
      SameSpell(c, s, ops, wire);
      SpellCounts(c, s, init, wire);
      if op.Sends? {
        LoopCounts(c, Trace(c, s, init, wire).knock, op.now, wire);
      }
    }
  }

  /** The rests the sender began between two moments: one for every knock it opened, but for a rest
    * that lasts still and one that lasted already. */
  function RestsBegun(before: Knock, after: Knock): int {
    Opens(after.log) - Opens(before.log)
    + (if after.pos.resting then 1 else 0) - (if before.pos.resting then 1 else 0)
  }

  lemma {:induction false} LoopCounts(c: Cadence, k: Knock, now: nat, wire: Wire)
    requires InCycle(c, k.pos)
    ensures var r := RunLoop(c, k, now, wire);
            && r.pos.cycles - k.pos.cycles == Opens(r.log) - Opens(k.log)
            && r.tally.spellSent - k.tally.spellSent == r.tally.sent - k.tally.sent
            && r.pos.unanswered - k.pos.unanswered == RestsBegun(k, r)
    decreases TimeLeft(k.pos, now), StepsLeft(c, k.pos, now)
  {
    if Ready(c, k.pos, now) {
      TickProgress(c, k.pos, now);
      PassedTick(c, k.pos);
      TickCounts(c, k, now, wire);
      LoopStep(c, k, now, wire);
      LoopCounts(c, Tick(c, k, now, wire), now, wire);
    }
  }

  lemma TickCounts(c: Cadence, k: Knock, now: nat, wire: Wire)
    requires InCycle(c, k.pos)
    ensures var r := Tick(c, k, now, wire);
            && r.pos.cycles - k.pos.cycles == Opens(r.log) - Opens(k.log)
            && r.tally.spellSent - k.tally.spellSent == r.tally.sent - k.tally.sent
            && r.pos.unanswered - k.pos.unanswered == RestsBegun(k, r)
  {
    var r := Tick(c, k, now, wire);
    if |k.log| < |r.log| {
      assert r.log == k.log + [r.log[|k.log|]];
      OpensAppend(k.log, r.log[|k.log|]);
    }
  }

  // ---- the backoff's floor ------------------------------------------------------------------------

  /** The last operation is the first frame ever, or the first after 500 ms of silence, off a trunk. */
  predicate EndsSilence(ops: seq<Op>) {
    EndsHeard(ops)
    && var before := LastHeard(ops[..|ops| - 1]);
       before == 0 || (ops[|ops| - 1].now - before) % 0x1_0000_0000_0000_0000 >= 500_000_000
  }

  /** The rests begun since the last frame that ended a silence, and the last trunk that ended. */
  function RestsSince(c: Cadence, start: nat, ops: seq<Op>, wire: Wire): int
    decreases |ops|
  {
    if ops == [] || EndsSilence(ops) || EndsTrunk(ops) then 0
    else
      var init, op := ops[..|ops| - 1], ops[|ops| - 1];
      RestsSince(c, start, init, wire)
      + if op.Sends? then RestsBegun(Trace(c, Init(start), init, wire).knock,
                                     Trace(c, Init(start), ops, wire).knock) else 0
  }

  /** In every run the backoff stands at the rests begun since then, so a spell that follows starts
    * from the shortest period. */
  lemma {:induction false} UnansweredAreRests(c: Cadence, start: nat, ops: seq<Op>, wire: Wire)
    ensures Trace(c, Init(start), ops, wire).knock.pos.unanswered == RestsSince(c, start, ops, wire)
    decreases |ops|
  {
    if ops != [] {
      var init, op := ops[..|ops| - 1], ops[|ops| - 1];
      var s := Trace(c, Init(start), init, wire);
      UnansweredAreRests(c, start, init, wire);
      StateTellsHistory(c, start, init, wire);
      if op.Sends? {
        if s.ctl.mode.Knocking? {
          LoopCounts(c, s.knock, op.now, wire);
        }
      } else {
        ApplyFloor(c, s, op, wire);
      }
    }
  }

  lemma ApplyFloor(c: Cadence, s: State, op: Op, wire: Wire)
    requires InCycle(c, s.knock.pos) && !op.Sends?
    ensures var last := s.ctl.lastHeard;
            var ends := op.Hears? && !s.ctl.mode.Trunk?
                        && (last == 0 || (op.now - last) % 0x1_0000_0000_0000_0000 >= 500_000_000);
            Apply(c, s, op, wire).knock.pos.unanswered
            == if ends || (op.Poll? && !op.trunk && s.ctl.mode.Trunk?) then 0 else s.knock.pos.unanswered
  {
  }

  /** A frame that ends a silence puts the backoff at its floor in every mode, and what rests is due
    * then and there; any other frame leaves the knock where it is. */
  lemma SilenceEndsAtTheFloor(s: State, now: nat, f: Heard, evidence: bool)
    requires !s.ctl.mode.Trunk?
    ensures var r, last, p := Hear(s, now, f, evidence).0, s.ctl.lastHeard, s.knock.pos;
            if last == 0 || (now - last) % 0x1_0000_0000_0000_0000 >= 500_000_000
            then r.knock.pos == p.(unanswered := 0,
                                   next := if s.ctl.mode.Knocking? && p.resting then now else p.next)
            else r.knock.pos == p
  {
  }

  /** A spell opened when nothing has rested since a silence ended, or a trunk, has its first rest end
    * one cycle after it opened, and each after twice as long, cut to 30 s. */
  lemma SpellFromTheFloor(c: Cadence, start: nat, ops: seq<Op>, poll: Op, quiet: seq<Op>, wire: Wire, d: nat)
    requires poll.Poll? && forall op :: op in quiet ==> !op.Hears?
    requires Step(c, Trace(c, Init(start), ops, wire), poll.now, poll.pinned, poll.trunk).1.ActKnock?
    requires RestsSince(c, start, ops, wire) == 0
    ensures var s := Trace(c, Init(start), ops + [poll], wire);
            InCycle(c, s.knock.pos)
            && var r := Trace(c, s, quiet, wire);
               r.ctl.mode.Knocking? && r.ctl.knocks == s.ctl.knocks ==>
                 InNanoseconds(c, r.knock.pos, poll.now, 0, 1, d)
  {
    hide InNanoseconds;
    var s := Trace(c, Init(start), ops, wire);
    assert (ops + [poll])[..|ops|] == ops;
    RunsKeepInv(c, start, ops + [poll], wire);
    UnansweredAreRests(c, start, ops, wire);
    FirstKnock(c, s, poll.now, poll.pinned, poll.trunk);
    SpellInNanoseconds(c, Trace(c, Init(start), ops + [poll], wire), quiet, wire, d);
  }

  // ---- what left, in order and on time -----------------------------------------------------------

  /** The control slots of a cycle before slot `n`, in order. */
  function ControlSlots(c: Cadence, n: nat): seq<nat>
    requires n <= |c.cycle|
  {
    if n == 0 then []
    else ControlSlots(c, n - 1) + (if c.cycle[n - 1].Filler? then [] else [n - 1])
  }

  /** The control slots passed since the last knock opened. */
  function SinceOpened(log: seq<Event>): seq<Event> {
    if log == [] || log[|log| - 1].Opened? then []
    else SinceOpened(log[..|log| - 1]) + [log[|log| - 1]]
  }

  function OpenedAt(log: seq<Event>): nat {
    if log == [] then 0
    else if log[|log| - 1].Opened? then log[|log| - 1].opensAt
    else OpenedAt(log[..|log| - 1])
  }

  /** Slot `slot` of a knock opened at `t0` falls `slot`/fps seconds after it, to the nanosecond
    * below. */
  predicate AtCadence(c: Cadence, t0: nat, slot: nat, at: nat) {
    t0 <= at && c.fps * (at - t0) <= slot * 1_000_000_000 < c.fps * (at - t0) + c.fps
  }

  /** The knock that is out has passed each of its control slots once, in order, at its time. */
  predicate InOrder(c: Cadence, k: Knock) {
    && InCycle(c, k.pos) && OpenedAt(k.log) == k.pos.t0
    && var events, slots := SinceOpened(k.log), ControlSlots(c, k.pos.slot);
       && |events| == |slots|
       && forall i :: 0 <= i < |events| ==>
            && events[i].Frame? && events[i].slot == slots[i]
            && slots[i] < |c.cycle| && events[i].emit == c.cycle[slots[i]]
            && AtCadence(c, k.pos.t0, slots[i], events[i].at)
  }

  /** What one step of the sender adds to the history: an opening, a control slot, or nothing. */
  lemma TickLog(c: Cadence, k: Knock, now: nat, wire: Wire)
    ensures var r, p := Tick(c, k, now, wire), k.pos;
            if p.resting then
              r.log == k.log + [Opened(p.next)] && r.tally.sent == k.tally.sent
              && r.tally.sendErrors == k.tally.sendErrors
            else if p.slot < |c.cycle| && !c.cycle[p.slot].Filler? then
              var at := SlotNs(c, p.t0, p.slot);
              var fate := FateOf(at, now, wire(HandedTo(k.tally)));
              r.log == k.log + [Frame(p.slot, at, c.cycle[p.slot], fate, now)]
              && HandedTo(r.tally) == HandedTo(k.tally) + (if fate.Late? then 0 else 1)
            else r.log == k.log && HandedTo(r.tally) == HandedTo(k.tally)
  {
  }

  lemma SinceAppend(log: seq<Event>, e: Event)
    ensures SinceOpened(log + [e]) == if e.Opened? then [] else SinceOpened(log) + [e]
    ensures OpenedAt(log + [e]) == if e.Opened? then e.opensAt else OpenedAt(log)
  {
    assert (log + [e])[..|log|] == log;
  }

  lemma SlotAtCadence(c: Cadence, t0: nat, slot: nat)
    ensures AtCadence(c, t0, slot, SlotNs(c, t0, slot))
  {
    hide SlotNs;
    SlotIs(c, t0, slot);
    DivCadence(c.fps, t0, slot * NANOS);
  }

  lemma SlotIs(c: Cadence, t0: nat, slot: nat)
    ensures SlotNs(c, t0, slot) == t0 + slot * NANOS / c.fps
  {
  }

  lemma DivCadence(fps: nat, t0: nat, x: nat)
    requires 0 < fps
    ensures var at := t0 + x / fps; fps * (at - t0) <= x < fps * (at - t0) + fps
  {
    DivBounds(x, fps);
    var since := x / fps;
    assert t0 + since - t0 == since;
  }

  lemma TickInOrder(c: Cadence, k: Knock, now: nat, wire: Wire)
    requires InOrder(c, k)
    ensures InOrder(c, Tick(c, k, now, wire))
  {
    hide AtCadence, SlotNs, Tick, Passed;
    var r := Tick(c, k, now, wire);
    PassedTick(c, k.pos);
    TickLog(c, k, now, wire);
    if k.pos.resting {
      SinceAppend(k.log, Opened(k.pos.next));
    } else if k.pos.slot < |c.cycle| && !c.cycle[k.pos.slot].Filler? {
      SinceAppend(k.log, r.log[|k.log|]);
      SlotAtCadence(c, k.pos.t0, k.pos.slot);
    }
  }

  lemma {:induction false} LoopInOrder(c: Cadence, k: Knock, now: nat, wire: Wire)
    requires InOrder(c, k)
    ensures InOrder(c, RunLoop(c, k, now, wire))
    decreases TimeLeft(k.pos, now), StepsLeft(c, k.pos, now)
  {
    hide InOrder;
    if Ready(c, k.pos, now) {
      TickProgress(c, k.pos, now);
      TickInOrder(c, k, now, wire);
      LoopStep(c, k, now, wire);
      LoopInOrder(c, Tick(c, k, now, wire), now, wire);
    }
  }

  /** In every run the knock that is out, or over, has passed exactly the control slots of its cycle
    * up to where it is, each once, in order and at the cadence from its opening. */
  lemma {:induction false} KnocksInOrder(c: Cadence, start: nat, ops: seq<Op>, wire: Wire)
    ensures InOrder(c, Trace(c, Init(start), ops, wire).knock)
    decreases |ops|
  {
    if ops != [] {
      var init, op := ops[..|ops| - 1], ops[|ops| - 1];
      var s := Trace(c, Init(start), init, wire);
      KnocksInOrder(c, start, init, wire);
      if op.Sends? && s.ctl.mode.Knocking? {
        LoopInOrder(c, s.knock, op.now, wire);
      } else if op.Poll? {
        SinceAppend(s.knock.log, Opened(op.now));
      }
    }
  }

  /** How many frames were handed to the wire. */
  function HandedIn(log: seq<Event>): nat {
    if log == [] then 0
    else HandedIn(log[..|log| - 1]) + (if log[|log| - 1].Frame? && !log[|log| - 1].fate.Late? then 1 else 0)
  }

  /** Every frame handed to the wire met the fate the wire has for that many frames before it. */
  ghost predicate FatesOf(log: seq<Event>, wire: Wire) {
    forall i :: 0 <= i < |log| && log[i].Frame? && !log[i].fate.Late? ==>
      (log[i].fate.Left? <==> wire(HandedIn(log[..i])))
  }

  ghost predicate Fated(k: Knock, wire: Wire) {
    FatesOf(k.log, wire) && HandedIn(k.log) == HandedTo(k.tally)
  }

  lemma FatedAppend(log: seq<Event>, e: Event, wire: Wire)
    requires FatesOf(log, wire)
    requires e.Frame? && !e.fate.Late? ==> (e.fate.Left? <==> wire(HandedIn(log)))
    ensures FatesOf(log + [e], wire)
    ensures HandedIn(log + [e]) == HandedIn(log) + (if e.Frame? && !e.fate.Late? then 1 else 0)
  {
    assert (log + [e])[..|log|] == log;
    forall i | 0 <= i < |log| && log[i].Frame? && !log[i].fate.Late?
      ensures (log + [e])[i].fate.Left? <==> wire(HandedIn((log + [e])[..i]))
    {
      assert (log + [e])[..i] == log[..i];
    }
  }

  lemma TickFated(c: Cadence, k: Knock, now: nat, wire: Wire)
    requires Fated(k, wire)
    ensures Fated(Tick(c, k, now, wire), wire)
  {
    hide Tick, FatesOf;
    var r := Tick(c, k, now, wire);
    TickLog(c, k, now, wire);
    if |k.log| < |r.log| {
      FatedAppend(k.log, r.log[|k.log|], wire);
    }
  }

  lemma {:induction false} LoopFated(c: Cadence, k: Knock, now: nat, wire: Wire)
    requires Fated(k, wire)
    ensures Fated(RunLoop(c, k, now, wire), wire)
    decreases TimeLeft(k.pos, now), StepsLeft(c, k.pos, now)
  {
    hide Fated;
    if Ready(c, k.pos, now) {
      TickProgress(c, k.pos, now);
      TickFated(c, k, now, wire);
      LoopStep(c, k, now, wire);
      LoopFated(c, Tick(c, k, now, wire), now, wire);
    }
  }

  /** In every run a frame not late is counted sent or refused as the wire has it. */
  lemma {:induction false} FramesMeetTheWire(c: Cadence, start: nat, ops: seq<Op>, wire: Wire)
    ensures Fated(Trace(c, Init(start), ops, wire).knock, wire)
    decreases |ops|
  {
    if ops != [] {
      var init, op := ops[..|ops| - 1], ops[|ops| - 1];
      var s := Trace(c, Init(start), init, wire);
      FramesMeetTheWire(c, start, init, wire);
      if op.Sends? && s.ctl.mode.Knocking? {
        LoopFated(c, s.knock, op.now, wire);
      } else if op.Poll? {
        FatedAppend(s.knock.log, Opened(op.now), wire);
      }
    }
  }
}
