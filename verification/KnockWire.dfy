/** The knock as the daemon keeps it: one object whose fields every call updates in place. */
module KnockWire {
  import opened KnockModel
  import opened KnockSchedule

  /** How many slots of a cycle are not FILLER. */
  method ControlPerCycle(c: Cadence) returns (n: nat)
    ensures n == ControlIn(c.cycle)
  {
    n := 0;
    var i := 0;
    while i < |c.cycle|
      invariant 0 <= i <= |c.cycle|
      invariant n == ControlIn(c.cycle[..i])
    {
      assert c.cycle[..i + 1][..i] == c.cycle[..i];
      if !c.cycle[i].Filler? {
        n := n + 1;
      }
      i := i + 1;
    }
    assert c.cycle[..i] == c.cycle;
  }

  /** The doubling stops at the ceiling, which is where doubling on would have been capped. */
  method PeriodNs(c: Cadence, n: nat) returns (p: nat)
    ensures p == Period(c, n)
  {
    p := |c.cycle| * NANOS / c.fps;
    var i := 0;
    while i < n && p < PERIOD_MAX_NS
      invariant 0 <= i <= n
      invariant p == CycleNs(c) * Pow2(i)
    {
      DoubledAgain(CycleNs(c), i);
      p := p * 2;
      i := i + 1;
    }
    DoublingGrows(CycleNs(c), i, n);
    p := if p < PERIOD_MAX_NS then p else PERIOD_MAX_NS;
  }

  lemma DoubledAgain(a: nat, i: nat)
    ensures a * Pow2(i + 1) == a * Pow2(i) * 2
  {
  }

  lemma {:induction false} DoublingGrows(a: nat, i: nat, n: nat)
    requires i <= n
    ensures a * Pow2(i) <= a * Pow2(n)
    decreases n
  {
    if i < n {
      DoublingGrows(a, i, n - 1);
      DoubledAgain(a, n - 1);
    }
  }

  class KnockWire {
    const cadence: Cadence
    var mode: Mode
    var licence: Licence
    var master: nat          // libreac's master: its place in the cycle, from the header
    var host: bool
    var pos: Pos             // the backoff, and this knock
    var due: nat
    var tally: Tally         // what left
    var knocks: nat
    var lastHeard: nat
    var answers: seq<seq<nat>>
    var answerSrc: seq<nat>
    var answeredCycle: nat
    ghost var log: seq<Event>

    /** The master has been stepped exactly once for each slot of the knock, and is back at its
      * header after the last. */
    ghost predicate Valid()
      reads this
    {
      InCycle(cadence, pos) && master == MasterAt(pos.slot)
    }

    function MasterAt(steps: nat): nat { if steps == |cadence.cycle| then 0 else steps }

    ghost function Ctl(): Control
      reads this
    {
      Control(mode, licence, knocks, lastHeard, answers, answerSrc, answeredCycle, host)
    }

    ghost function Current(): Knock
      reads this
    {
      Knock(pos, tally, log)
    }

    ghost function Value(): State
      reads this
    {
      State(Ctl(), Current(), due)
    }

    constructor (cadence: Cadence, now: nat)
      ensures this.cadence == cadence && Valid() && Value() == Init(now)
    {
      this.cadence := cadence;
      mode, licence, master, host := Listening, Licence(now, false), 0, false;
      pos, due, tally := Pos(0, 0, false, 0, 0, 0), 0, Tally(0, 0, 0, 0, 0, false, 0);
      knocks, lastHeard := 0, 0;
      answers, answerSrc, answeredCycle, log := [], seq(6, _ => 0), 0, [];
    }

    method SetHost(isHost: bool)
      requires Valid()
      modifies this`host
      ensures Valid() && Value() == old(Value()).(ctl := old(Ctl()).(host := isHost))
    {
      host := isHost;
    }

    /** The time of the first control slot from here on, or of the knock's end; the master keeps
      * its place. */
    method KnockPeek()
      requires Valid()
      modifies this`due
      ensures Valid() && due == DueOf(cadence, pos)
    {
      if pos.resting {
        due := pos.next;
        return;
      }
      var peek := master;
      var s := pos.slot;
      while s < |cadence.cycle|
        invariant pos.slot <= s <= |cadence.cycle| && peek == MasterAt(s)
        invariant FirstControl(cadence, s) == FirstControl(cadence, pos.slot)
      {
        var emit := cadence.cycle[peek];
        peek := MasterAt(peek + 1);
        if !emit.Filler? {
          due := SlotNs(cadence, pos.t0, s);
          return;
        }
        s := s + 1;
      }
      due := SlotNs(cadence, pos.t0, |cadence.cycle|);
    }

    method KnockOpen(at: nat)
      requires Valid()
      modifies this`master, this`pos, this`tally, this`due, this`log
      ensures Valid() && Current() == OpenKnock(old(Current()), at) && due == DueOf(cadence, pos)
    {
      master := 0;
      pos := pos.(resting := false, t0 := at, slot := 0);
      tally := tally.(headSent := false, chunksSent := 0);
      pos := pos.(cycles := pos.cycles + 1);
      log := log + [Opened(at)];
      KnockPeek();
    }

    /** From a knock that is over to the rest after it. */
    method KnockRest()
      requires Valid() && !pos.resting && pos.slot == |cadence.cycle|
      modifies this`pos, this`due
      ensures Valid() && pos == RestPos(cadence, old(pos)) && due == DueOf(cadence, pos)
    {
      var period := PeriodNs(cadence, pos.unanswered);
      pos := pos.(next := pos.t0 + period);
      pos := pos.(unanswered := pos.unanswered + 1);
      pos := pos.(resting := true);
      KnockPeek();
    }

    method Step(now: nat, pinned: bool, trunk: bool) returns (act: Act)
      requires Valid()
      modifies this
      ensures Valid() && (Value(), act) == KnockModel.Step(cadence, old(Value()), now, pinned, trunk)
    {
      hide OpenKnock, DueOf, LicenceStep;
      if trunk {
        if mode.Trunk? {
          return ActNone;
        }
        mode := Trunk;
        due := 0;
        return ActTrunk;
      }
      if mode.Trunk? {
        mode := Listening;
        licence := Licence(now, false);
        pos := pos.(unanswered := 0);
        return ActUntrunk;
      }
      if pinned || mode.Knocking? {
        return ActNone;
      }
      var (l, granted) := LicenceStep(licence, now);
      licence := l;
      if granted {
        StartSpell(now);
        return ActKnock;
      }
      return ActNone;
    }

    /** The licence was granted: a spell of knocks opens. */
    method StartSpell(now: nat)
      requires Valid()
      modifies this
      ensures Valid() && Value() == OpenSpell(cadence, old(Value()), licence, now)
      ensures licence == old(licence)
    {
      hide DueOf;
      mode := Knocking;
      knocks := knocks + 1;
      pos := pos.(cycles := 0);
      tally := tally.(spellSent := 0);
      answers := [];
      KnockOpen(now);
    }

    /** The first frame after a silence makes the next knock the first of the backoff, and due. */
    method Rouse(now: nat)
      requires Valid()
      modifies this`pos, this`due
      ensures Valid() && Value() == Roused(old(Value()), now)
    {
      if lastHeard == 0 || Since(now, lastHeard) >= LISTEN_NS {
        pos := pos.(unanswered := 0);
        if mode.Knocking? && pos.resting {
          pos := pos.(next := now);
          due := now;
        }
      }
    }

    /** The first evidence ends the knock; which knock it answered and who sent it are kept. */
    method Answer(f: Heard)
      modifies this`mode, this`due, this`answers, this`answerSrc, this`answeredCycle
      ensures mode == Answered && due == 0 && answers == [] && answeredCycle == pos.cycles
      ensures answerSrc == if |f.bytes| >= 12 then f.bytes[6..12] else old(answerSrc)
    {
      mode := Answered;
      due := 0;
      answers := [];
      answeredCycle := pos.cycles;
      if |f.bytes| >= 12 {
        answerSrc := f.bytes[6..12];
      }
    }

    method Hears(now: nat, f: Heard, evidence: bool) returns (act: Act)
      requires Valid()
      modifies this`mode, this`licence, this`pos, this`due, this`lastHeard
      modifies this`answers, this`answerSrc, this`answeredCycle
      ensures Valid() && (Value(), act) == Hear(old(Value()), now, f, evidence)
    {
      hide Roused, KeepAnswer;
      if mode.Trunk? {
        return ActNone;
      }
      Rouse(now);
      lastHeard := now;
      licence := Licence(now, false);
      act := ActNone;
      if mode.Knocking? && evidence {
        Answer(f);
        act := ActHush;
      }
      if mode.Answered? {
        answers := KeepAnswer(answers, f);
      }
    }

    method TakeAnswer()
      requires Valid()
      modifies this
      ensures Valid() && Value() == AnswerTaken(old(Value()))
    {
      answers := [];
      if mode.Answered? {
        mode := Listening;
      }
    }

    /** One slot whose time has come: the master is stepped, a FILLER is never sent, and a
      * control frame is unless its slot is too old. */
    method PassSlot(now: nat, at: nat, wire: Wire) returns (left: bool)
      requires Valid() && !pos.resting && pos.slot < |cadence.cycle|
      requires at == SlotNs(cadence, pos.t0, pos.slot) <= now
      modifies this`master, this`pos, this`tally, this`log
      ensures Valid() && Current() == SlotTick(cadence, old(Current()), now, wire)
      ensures tally.sent == old(tally.sent) + (if left then 1 else 0)
    {
      left := false;
      var emit := cadence.cycle[master];
      master := MasterAt(master + 1);
      pos := pos.(slot := pos.slot + 1);
      if emit.Filler? {
        return;
      }
      var attempt := tally.sent + tally.sendErrors;
      log := log + [Frame(pos.slot - 1, at, emit, FateOf(at, now, wire(attempt)), now)];
      if now - at > LATE_NS {
        tally := tally.(late := tally.late + 1);
      } else if wire(attempt) {
        left := true;
      } else {
        tally := tally.(sendErrors := tally.sendErrors + 1);
      }
      if left {
        tally := tally.(sent := tally.sent + 1, spellSent := tally.spellSent + 1);
      }
      if !emit.Scene() {
        return;
      }
      if !left {
        tally := tally.(headSent := false);
      } else if emit.SceneHead? {
        tally := tally.(headSent := true, chunksSent := 0);
      } else if emit.SceneChunk? {
        tally := tally.(chunksSent := tally.chunksSent + 1);
      } else if tally.headSent && tally.chunksSent == SCENE_CHUNKS {
        tally := tally.(pushes := tally.pushes + 1, headSent := false);
      }
    }

    /** One call of the sender: it takes steps of the knock until none is ready. */
    method Run(now: nat, wire: Wire) returns (sentNow: nat)
      requires Valid()
      modifies this`master, this`pos, this`tally, this`due, this`log
      ensures Valid() && Value() == KnockModel.Run(cadence, old(Value()), now, wire)
      ensures sentNow == tally.sent - old(tally.sent)
    {
      sentNow := 0;
      if !mode.Knocking? {
        return;
      }
      while true
        invariant Valid()
        invariant RunLoop(cadence, Current(), now, wire) == RunLoop(cadence, old(Current()), now, wire)
        invariant sentNow == tally.sent - old(tally.sent)
        decreases TimeLeft(pos, now), StepsLeft(cadence, pos, now)
      {
        if Ready(cadence, pos, now) {
          TickProgress(cadence, pos, now);
        }
        if pos.resting {
          if now < pos.next {
            break;
          }
          KnockOpen(pos.next);
          if Ready(cadence, pos, now) {
            TickProgress(cadence, pos, now);
          }
        }
        if pos.slot >= |cadence.cycle| {
          KnockRest();
          continue;
        }
        var at := SlotNs(cadence, pos.t0, pos.slot);
        if at > now {
          break;
        }
        var left := PassSlot(now, at, wire);
        if left {
          sentNow := sentNow + 1;
        }
      }
      KnockPeek();
    }
  }
}
