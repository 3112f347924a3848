/** The bounded knock as a transition system on values: what one slot, one poll, one heard
  * frame and one call of the sender do to it.  The class KnockWire changes its fields step
  * by step and is proved to take exactly these transitions. */
module KnockModel {
  const NANOS: nat := 1_000_000_000
  const PERIOD_MAX_NS: nat := 30 * NANOS
  const LATE_NS: nat := 8_000_000
  const LISTEN_NS: nat := 500_000_000
  const ANSWERS: nat := 4
  const FRAME_BYTES: nat := 1492
  const SCENE_CHUNKS: nat := 341
  const TWO64: nat := 0x1_0000_0000_0000_0000

  // ---- libreac's master, as a parameter ----------------------------------------------

  datatype Emit = Filler | SceneHead | SceneChunk | SceneTail | OtherControl {
    predicate Control() { !Filler? }
    predicate Scene() { SceneHead? || SceneChunk? || SceneTail? }
  }

  /** One hunting cycle of the master from its header, and the slots it is stepped at per
    * second.  The last conjunct says one cycle lasts at least a nanosecond, which holds of
    * every `int` cadence and every cycle of three slots or more. */
  datatype CadenceShape = Cadence(cycle: seq<Emit>, fps: nat)

  type Cadence = c: CadenceShape | 0 < |c.cycle| && 0 < c.fps <= |c.cycle| * NANOS
    witness CadenceShape.Cadence([SceneHead], 1)

  /** What the wire does with the k-th frame ever handed to it: true when the frame left. */
  type Wire = nat -> bool

  // ---- the state ---------------------------------------------------------------------

  datatype Mode = Listening | Knocking | Answered | Trunk
  datatype Act = ActNone | ActKnock | ActHush | ActTrunk | ActUntrunk

  /** libreac's masterless licence: granted once after LISTEN_NS without a frame. */
  datatype Licence = Licence(since: nat, granted: bool)

  /** Where the knock is.  The master's own position is always `slot`. */
  datatype Pos = Pos(t0: nat, slot: nat, resting: bool, next: nat, unanswered: nat, cycles: nat)

  datatype Tally = Tally(sent: nat, spellSent: nat, sendErrors: nat, late: nat,
                         pushes: nat, headSent: bool, chunksSent: nat)

  datatype Fate = Left | Late | Refused

  /** What happened, in order: a knock opened, or a control slot was passed at `now`. */
  datatype Event =
    | Opened(opensAt: nat)
    | Frame(slot: nat, at: nat, emit: Emit, fate: Fate, now: nat)

  datatype Knock = Knock(pos: Pos, tally: Tally, log: seq<Event>)

  /** A frame heard: its bytes, and whether libreac parses it as a control frame. */
  datatype Heard = Heard(bytes: seq<nat>, control: bool)

  datatype Control = Control(mode: Mode, licence: Licence, knocks: nat, lastHeard: nat,
                             answers: seq<seq<nat>>, answerSrc: seq<nat>, answeredCycle: nat,
                             host: bool)

  datatype State = State(ctl: Control, knock: Knock, due: nat)

  function Init(now: nat): State {
    State(Control(Listening, Licence(now, false), 0, 0, [], seq(6, _ => 0), 0, false),
          Knock(Pos(0, 0, false, 0, 0, 0), Tally(0, 0, 0, 0, 0, false, 0), []), 0)
  }

  // ---- the schedule ------------------------------------------------------------------

  function Pow2(n: nat): (p: nat)
    ensures 1 <= p
  {
    if n == 0 then 1 else 2 * Pow2(n - 1)
  }

  function Min(a: nat, b: nat): nat { if a <= b then a else b }

  function SlotNs(c: Cadence, t0: nat, slot: nat): nat { t0 + slot * NANOS / c.fps }

  function CycleNs(c: Cadence): nat { |c.cycle| * NANOS / c.fps }

  /** The distance from knock n of the backoff to the one after it. */
  function Period(c: Cadence, n: nat): nat { Min(CycleNs(c) * Pow2(n), PERIOD_MAX_NS) }

  /** The first control slot at or after `slot`, or the cycle's length. */
  function FirstControl(c: Cadence, slot: nat): (s: nat)
    requires slot <= |c.cycle|
    ensures slot <= s <= |c.cycle|
    ensures s < |c.cycle| ==> c.cycle[s].Control()
    ensures forall i :: slot <= i < s ==> c.cycle[i].Filler?
    decreases |c.cycle| - slot
  {
    if slot == |c.cycle| || c.cycle[slot].Control() then slot else FirstControl(c, slot + 1)
  }

  /** When the sender asks to be called again. */
  function DueOf(c: Cadence, p: Pos): nat
    requires p.slot <= |c.cycle|
  {
    if p.resting then p.next else SlotNs(c, p.t0, FirstControl(c, p.slot))
  }

  predicate InCycle(c: Cadence, p: Pos) {
    p.slot <= |c.cycle| && (p.resting ==> p.slot == |c.cycle|)
  }

  // ---- one step of the sender --------------------------------------------------------

  /** The sender has something to do at `now`: a rest is over, the cycle is, or a slot's
    * time has come. */
  predicate Ready(c: Cadence, p: Pos, now: nat) {
    if p.resting then p.next <= now
    else p.slot >= |c.cycle| || SlotNs(c, p.t0, p.slot) <= now
  }

  function OpenPos(p: Pos, at: nat): Pos {
    p.(resting := false, t0 := at, slot := 0, cycles := p.cycles + 1)
  }

  function OpenKnock(k: Knock, at: nat): Knock {
    Knock(OpenPos(k.pos, at), k.tally.(headSent := false, chunksSent := 0), k.log + [Opened(at)])
  }

  function RestPos(c: Cadence, p: Pos): Pos {
    p.(next := p.t0 + Period(c, p.unanswered), unanswered := p.unanswered + 1, resting := true)
  }

  function PosTick(c: Cadence, p: Pos): Pos {
    if p.resting then OpenPos(p, p.next)
    else if p.slot >= |c.cycle| then RestPos(c, p)
    else p.(slot := p.slot + 1)
  }

  function FateOf(at: nat, now: nat, leaves: bool): Fate {
    if now > at + LATE_NS then Late else if leaves then Left else Refused
  }

  /** The counters after a control slot whose frame met `fate`. */
  function Counted(t: Tally, fate: Fate): Tally {
    match fate
    case Late => t.(late := t.late + 1)
    case Refused => t.(sendErrors := t.sendErrors + 1)
    case Left => t.(sent := t.sent + 1, spellSent := t.spellSent + 1)
  }

  /** The transfer's own counters after one of its frames. */
  function Transferred(t: Tally, emit: Emit, fate: Fate): Tally {
    if !emit.Scene() then t
    else if !fate.Left? then t.(headSent := false)
    else if emit.SceneHead? then t.(headSent := true, chunksSent := 0)
    else if emit.SceneChunk? then t.(chunksSent := t.chunksSent + 1)
    else if t.headSent && t.chunksSent == SCENE_CHUNKS
    then t.(pushes := t.pushes + 1, headSent := false)
    else t
  }

  function SlotTick(c: Cadence, k: Knock, now: nat, wire: Wire): Knock
    requires k.pos.slot < |c.cycle| && !k.pos.resting
  {
    var emit := c.cycle[k.pos.slot];
    var at := SlotNs(c, k.pos.t0, k.pos.slot);
    if emit.Filler? then k.(pos := PosTick(c, k.pos))
    else
      var fate := FateOf(at, now, wire(k.tally.sent + k.tally.sendErrors));
      Knock(PosTick(c, k.pos), Transferred(Counted(k.tally, fate), emit, fate),
            k.log + [Frame(k.pos.slot, at, emit, fate, now)])
  }

  function Tick(c: Cadence, k: Knock, now: nat, wire: Wire): (r: Knock)
    ensures r.pos == PosTick(c, k.pos)
  {
    if k.pos.resting then OpenKnock(k, k.pos.next)
    else if k.pos.slot >= |c.cycle| then k.(pos := RestPos(c, k.pos))
    else SlotTick(c, k, now, wire)
  }

  // ---- one call of the sender --------------------------------------------------------

  /** The instant the current knock, or the one being waited for, opens. */
  function Anchor(p: Pos): nat { if p.resting then p.next else p.t0 }

  function TimeLeft(p: Pos, now: nat): nat {
    if Anchor(p) <= now then now - Anchor(p) + 1 else 0
  }

  function StepsLeft(c: Cadence, p: Pos, now: nat): nat {
    if p.resting then (if p.next <= now then |c.cycle| + 2 else 0)
    else if p.slot <= |c.cycle| then |c.cycle| - p.slot + 1
    else 1
  }

  lemma PeriodPositive(c: Cadence, n: nat)
    ensures 1 <= Period(c, n)
  {
    assert CycleNs(c) >= 1 by { DivAtLeast(c.fps, |c.cycle| * NANOS, 1); }
    MulAtLeast(CycleNs(c), Pow2(n));
  }

  lemma MulAtLeast(a: nat, b: nat)
    requires 1 <= a && 1 <= b
    ensures a <= a * b && b <= a * b
  {
  }

  lemma DivAtLeast(d: nat, x: nat, q: nat)
    requires 0 < d && q * d <= x
    ensures q <= x / d
  {
    if x / d < q {
      assert x < (x / d + 1) * d;
      assert (x / d + 1) * d <= q * d by { MulLe(x / d + 1, q, d); }
    }
  }

  lemma MulLe(a: nat, b: nat, d: nat)
    requires a <= b
    ensures a * d <= b * d
  {
  }

  /** Every step of the sender's loop makes progress, however far behind it is: the time left
    * falls, or it does not and the steps left do. */
  lemma TickProgress(c: Cadence, p: Pos, now: nat)
    requires Ready(c, p, now)
    ensures var q := PosTick(c, p);
            TimeLeft(q, now) < TimeLeft(p, now) ||
            (TimeLeft(q, now) == TimeLeft(p, now) && StepsLeft(c, q, now) < StepsLeft(c, p, now))
  {
  }

  function RunLoop(c: Cadence, k: Knock, now: nat, wire: Wire): Knock
    decreases TimeLeft(k.pos, now), StepsLeft(c, k.pos, now)
  {
    if Ready(c, k.pos, now) then
      TickProgress(c, k.pos, now);
      RunLoop(c, Tick(c, k, now, wire), now, wire)
    else k
  }

  function PosLoop(c: Cadence, p: Pos, now: nat): Pos
    decreases TimeLeft(p, now), StepsLeft(c, p, now)
  {
    if Ready(c, p, now) then
      TickProgress(c, p, now);
      PosLoop(c, PosTick(c, p), now)
    else p
  }

  function Peeked(c: Cadence, s: State, k: Knock): State
    requires k.pos.slot <= |c.cycle|
  {
    State(s.ctl, k, DueOf(c, k.pos))
  }

  lemma {:induction false} PosLoopInCycle(c: Cadence, p: Pos, now: nat)
    requires InCycle(c, p)
    ensures InCycle(c, PosLoop(c, p, now)) && !Ready(c, PosLoop(c, p, now), now)
    decreases TimeLeft(p, now), StepsLeft(c, p, now)
  {
    if Ready(c, p, now) {
      TickProgress(c, p, now);
      PosLoopInCycle(c, PosTick(c, p), now);
    }
  }

  /** Where a call of the sender leaves the knock does not depend on the wire. */
  lemma {:induction false} RunLoopPos(c: Cadence, k: Knock, now: nat, wire: Wire)
    ensures RunLoop(c, k, now, wire).pos == PosLoop(c, k.pos, now)
    decreases TimeLeft(k.pos, now), StepsLeft(c, k.pos, now)
  {
    if Ready(c, k.pos, now) {
      TickProgress(c, k.pos, now);
      RunLoopPos(c, Tick(c, k, now, wire), now, wire);
    }
  }

  function Run(c: Cadence, s: State, now: nat, wire: Wire): State
    requires InCycle(c, s.knock.pos)
  {
    if !s.ctl.mode.Knocking? then s
    else
      RunLoopPos(c, s.knock, now, wire);
      PosLoopInCycle(c, s.knock.pos, now);
      Peeked(c, s, RunLoop(c, s.knock, now, wire))
  }

  // ---- one poll, one frame heard -----------------------------------------------------

  function LicenceStep(l: Licence, now: nat): (Licence, bool) {
    if !l.granted && now >= l.since + LISTEN_NS then (l.(granted := true), true) else (l, false)
  }

  /** The licence was granted: a spell of knocks opens. */
  function OpenSpell(c: Cadence, s: State, licence: Licence, now: nat): State {
    var k0 := s.knock.(pos := s.knock.pos.(cycles := 0),
                          tally := s.knock.tally.(spellSent := 0));
    var k := OpenKnock(k0, now);
    State(s.ctl.(mode := Knocking, licence := licence, knocks := s.ctl.knocks + 1, answers := []),
          k, DueOf(c, k.pos))
  }

  function Step(c: Cadence, s: State, now: nat, pinned: bool, trunk: bool): (State, Act) {
    if trunk then
      if s.ctl.mode.Trunk? then (s, ActNone)
      else (s.(ctl := s.ctl.(mode := Trunk), due := 0), ActTrunk)
    else if s.ctl.mode.Trunk? then
      (s.(ctl := s.ctl.(mode := Listening, licence := Licence(now, false)),
          knock := s.knock.(pos := s.knock.pos.(unanswered := 0))), ActUntrunk)
    else if pinned || s.ctl.mode.Knocking? then (s, ActNone)
    else
      var (licence, granted) := LicenceStep(s.ctl.licence, now);
      if granted then (OpenSpell(c, s, licence, now), ActKnock)
      else (s.(ctl := s.ctl.(licence := licence)), ActNone)
  }

  /** From `then_` to `now` as an unsigned 64-bit difference: huge when the clock is behind. */
  function Since(now: nat, then_: nat): nat { (now - then_) % TWO64 }

  /** No frame for LISTEN_NS. */
  predicate AfterSilence(lastHeard: nat, now: nat) {
    lastHeard == 0 || Since(now, lastHeard) >= LISTEN_NS
  }

  /** A frame after a silence starts the backoff again and ends a rest. */
  function Roused(s: State, now: nat): State {
    if !AfterSilence(s.ctl.lastHeard, now) then s
    else
      var p := s.knock.pos.(unanswered := 0);
      if s.ctl.mode.Knocking? && p.resting
      then s.(knock := s.knock.(pos := p.(next := now)), due := now)
      else s.(knock := s.knock.(pos := p))
  }

  function KeepAnswer(answers: seq<seq<nat>>, f: Heard): seq<seq<nat>> {
    if |f.bytes| > 0 && |answers| < ANSWERS && f.control
    then answers + [f.bytes[..Min(|f.bytes|, FRAME_BYTES)]]
    else answers
  }

  function Hear(s: State, now: nat, f: Heard, evidence: bool): (State, Act) {
    if s.ctl.mode.Trunk? then (s, ActNone)
    else
      var r := Roused(s, now);
      var ctl := r.ctl.(lastHeard := now, licence := Licence(now, false));
      if ctl.mode.Knocking? && evidence then
        var src := if |f.bytes| >= 12 then f.bytes[6..12] else ctl.answerSrc;
        (State(ctl.(mode := Answered, answers := KeepAnswer([], f), answerSrc := src,
                    answeredCycle := r.knock.pos.cycles), r.knock, 0), ActHush)
      else if ctl.mode.Answered? then
        (State(ctl.(answers := KeepAnswer(ctl.answers, f)), r.knock, r.due), ActNone)
      else (State(ctl, r.knock, r.due), ActNone)
  }

  function AnswerTaken(s: State): State {
    s.(ctl := s.ctl.(answers := [], mode := if s.ctl.mode.Answered? then Listening else s.ctl.mode))
  }
}
