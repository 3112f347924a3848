/** The bounded ladder that rebuilds a node which is not on the graph, over whole absences. */
module NodeRecover {
  const GRACE_TICKS: nat := 10
  const MAX_ATTEMPTS: nat := 5
  const MAX_SHIFT: nat := 4

  datatype RecoverAct = Wait | Rebuild | GiveUp

  function Shifted(ticks: nat, shift: nat): nat {
    if shift == 0 then ticks else 2 * Shifted(ticks, shift - 1)
  }

  class NodeRecover {
    var absent: nat
    var attempts: nat
    var gaveUp: bool

    constructor ()
      ensures Value() == Start
    {
      absent, attempts, gaveUp := 0, 0, false;
    }

    ghost function Value(): Ladder
      reads this
    {
      Ladder(absent, attempts, gaveUp)
    }

    /** How many ticks of absence are allowed now. */
    function Window(): nat
      reads this
    {
      WindowOf(attempts)
    }

    /** The window before this one, or the first while there is none before it. */
    function Spent(): nat
      reads this
    {
      if attempts == 0 then GRACE_TICKS else WindowOf(attempts - 1)
    }

    method Step(onGraph: bool) returns (act: RecoverAct)
      modifies this
      ensures (Value(), act) == LadderStep(old(Value()), onGraph)
      ensures !act.Wait? ==> Spent() == old(Window())
    {
      if onGraph {
        absent, attempts, gaveUp := 0, 0, false;
        return Wait;
      }
      if gaveUp {
        return Wait;
      }
      absent := absent + 1;
      if absent < Window() {
        return Wait;
      }
      absent := 0;
      if attempts >= MAX_ATTEMPTS {
        gaveUp := true;
        return GiveUp;
      }
      attempts := attempts + 1;
      return Rebuild;
    }

    /** Two nodes on one ladder: present when both are, and each absent one marked. */
    method StepPair(srcOnGraph: bool, srcWhy: string, sinkOnGraph: bool, sinkWhy: string)
      returns (v: PairVerdict)
      modifies this
      ensures (Value(), v.act) == LadderStep(old(Value()), srcOnGraph && sinkOnGraph)
      ensures v.srcGone == !srcOnGraph && v.sinkGone == !sinkOnGraph
      ensures !v.act.Wait? ==> v.srcGone || v.sinkGone
      ensures v.why == (if srcOnGraph && !sinkOnGraph then sinkWhy else srcWhy)
    {
      var srcGone, sinkGone := !srcOnGraph, !sinkOnGraph;
      var why := if srcGone then srcWhy else if sinkGone then sinkWhy else srcWhy;
      var act := Step(srcOnGraph && sinkOnGraph);
      v := PairVerdict(act, srcGone, sinkGone, why);
    }
  }

  datatype PairVerdict = PairVerdict(act: RecoverAct, srcGone: bool, sinkGone: bool, why: string)

  // ---- the ladder on values -----------------------------------------------------------

  datatype Ladder = Ladder(absent: nat, attempts: nat, gaveUp: bool)

  const Start: Ladder := Ladder(0, 0, false)

  function WindowOf(attempts: nat): nat {
    Shifted(GRACE_TICKS, if attempts < MAX_SHIFT then attempts else MAX_SHIFT)
  }

  function LadderStep(l: Ladder, onGraph: bool): (Ladder, RecoverAct) {
    if onGraph then (Start, Wait)
    else if l.gaveUp then (l, Wait)
    else if l.absent + 1 < WindowOf(l.attempts) then (l.(absent := l.absent + 1), Wait)
    else if l.attempts >= MAX_ATTEMPTS then (Ladder(0, l.attempts, true), GiveUp)
    else (Ladder(0, l.attempts + 1, false), Rebuild)
  }

  // ---- every absence ------------------------------------------------------------------

  /** What the n-th consecutive tick of an absence does. */
  function Schedule(n: nat): RecoverAct {
    if n == 10 || n == 30 || n == 70 || n == 150 || n == 310 then Rebuild
    else if n == 470 then GiveUp
    else Wait
  }

  function After(ticks: seq<bool>): Ladder
    decreases |ticks|
  {
    if ticks == [] then Start else LadderStep(After(ticks[..|ticks| - 1]), ticks[|ticks| - 1]).0
  }

  /** The consecutive ticks at the end of `ticks` on which the node was not there. */
  function AbsentFor(ticks: seq<bool>): nat
    decreases |ticks|
  {
    if ticks == [] || ticks[|ticks| - 1] then 0 else 1 + AbsentFor(ticks[..|ticks| - 1])
  }

  /** Where the ladder stands on the n-th tick of an absence. */
  function Standing(n: nat): Ladder {
    if n < 10 then Ladder(n, 0, false)
    else if n < 30 then Ladder(n - 10, 1, false)
    else if n < 70 then Ladder(n - 30, 2, false)
    else if n < 150 then Ladder(n - 70, 3, false)
    else if n < 310 then Ladder(n - 150, 4, false)
    else if n < 470 then Ladder(n - 310, 5, false)
    else Ladder(0, 5, true)
  }

  lemma Windows()
    ensures WindowOf(0) == 10 && WindowOf(1) == 20 && WindowOf(2) == 40
    ensures WindowOf(3) == 80 && WindowOf(4) == 160 && WindowOf(5) == 160
  {
  }

  /** In every run the ladder is a function of how long the node has now been gone. */
  lemma {:induction false} StandsByAbsence(ticks: seq<bool>)
    ensures After(ticks) == Standing(AbsentFor(ticks))
    decreases |ticks|
  {
    if ticks != [] {
      StandsByAbsence(ticks[..|ticks| - 1]);
      Windows();
    }
  }

  /** In every run, each tick does what the schedule says of the absence it belongs to: five
    * rebuilds, one last word at 470 ticks, then nothing until the node comes back. */
  lemma EveryAbsenceFollowsTheSchedule(ticks: seq<bool>, onGraph: bool)
    ensures LadderStep(After(ticks), onGraph).1
         == if onGraph then Wait else Schedule(AbsentFor(ticks) + 1)
  {
    StandsByAbsence(ticks);
    Windows();
  }
}
