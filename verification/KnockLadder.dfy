/** When the daemon may take a silent wire's link down and up, given what the knock on that wire
  * has counted. */
module KnockLadder {
  import KnockModel

  const MIN_PUSHES: nat := 3
  const GRACE_NS: nat := 12_000_000_000
  const SETTLE_NS: nat := 20_000_000_000
  const MAX_BOUNCES: nat := 2

  datatype WakeAct = WakeNone | Bounce | Exhausted

  datatype Refusal = Ok | NotProbing | NoCarrier | CarrierUnknown | BoxIsTalking | HostNic
                   | NothingSent | PushNotProven | Settling | SiblingServed | Spent

  datatype Carrier = Down | Up | Unknown

  datatype Obs = Obs(probing: bool, carrier: Carrier, rxBoxFrames: nat, scenePushes: nat,
                     siblingsServed: nat, hostNic: bool, txFrames: nat)

  /** What one turn of the ladder is shown: the knock's counters and the wire's. */
  datatype Turn = Turn(now: nat, knocks: nat, pushes: nat, spellSent: nat, rxFrames: nat,
                       carrier: Carrier, siblings: nat, hostNic: bool)

  datatype Wake = Wake(openedAt: nat, lastBounce: nat, bounces: nat, spentSaid: bool, refusal: Refusal)

  datatype Ladder = Ladder(wake: Wake, pushes0: nat, pushesLast: nat, frames0: nat, knocksSeen: nat)

  /** The first fact that refuses an edge, cheapest first; Ok when none does. */
  function Refuses(w: Wake, now: nat, o: Obs): Refusal {
    if !o.probing then NotProbing
    else if o.carrier.Down? then NoCarrier
    else if o.carrier.Unknown? then CarrierUnknown
    else if o.rxBoxFrames > 0 then BoxIsTalking
    else if o.hostNic then HostNic
    else if o.txFrames == 0 then NothingSent
    else if o.siblingsServed > 0 then SiblingServed
    else if w.bounces >= MAX_BOUNCES then Spent
    else if w.lastBounce > 0 && KnockModel.Since(now, w.lastBounce) < SETTLE_NS then Settling
    else if o.scenePushes < MIN_PUSHES || KnockModel.Since(now, w.openedAt) < GRACE_NS then PushNotProven
    else Ok
  }

  function WakeStep(w: Wake, now: nat, o: Obs): (Wake, WakeAct) {
    var r := Refuses(w, now, o);
    if r.Ok? then (w.(refusal := Ok, bounces := w.bounces + 1, lastBounce := now), Bounce)
    else if r.Spent? && !w.spentSaid then (w.(refusal := Spent, spentSaid := true), Exhausted)
    else (w.(refusal := r), WakeNone)
  }

  function Fresh(): Ladder { Ladder(Wake(0, 0, 0, false, Ok), 0, 0, 0, 0) }

  predicate NewSpell(l: Ladder, t: Turn) {
    l.wake.openedAt == 0 || t.knocks != l.knocksSeen || t.pushes < l.pushesLast || t.rxFrames < l.frames0
  }

  /** A turn that opens a spell sets the grace and the counters and leaves what was spent. */
  function Opening(l: Ladder, t: Turn): Ladder {
    if !NewSpell(l, t) then l
    else
      var wake := if l.wake.openedAt == 0 then Wake(t.now, 0, 0, false, Ok)
                  else l.wake.(openedAt := t.now, refusal := Ok);
      Ladder(wake, t.pushes, l.pushesLast, t.rxFrames, t.knocks)
  }

  function Seen(l: Ladder, t: Turn): Obs
    requires l.pushes0 <= t.pushes && l.frames0 <= t.rxFrames
  {
    Obs(true, t.carrier, t.rxFrames - l.frames0, t.pushes - l.pushes0, t.siblings, t.hostNic,
        t.spellSent)
  }

  predicate Sound(l: Ladder) { l.pushes0 <= l.pushesLast }

  function LadderStep(l: Ladder, t: Turn): (Ladder, WakeAct)
    requires Sound(l)
  {
    var o := Opening(l, t);
    var (wake, act) := WakeStep(o.wake, t.now, Seen(o, t));
    (o.(wake := wake, pushesLast := t.pushes), act)
  }

  class KnockLadder {
    var openedAt: nat
    var lastBounce: nat
    var bounces: nat
    var spentSaid: bool
    var refusal: Refusal
    var pushes0: nat
    var pushesLast: nat
    var frames0: nat
    var knocksSeen: nat

    ghost function Value(): Ladder
      reads this
    {
      Ladder(Wake(openedAt, lastBounce, bounces, spentSaid, refusal), pushes0, pushesLast, frames0,
             knocksSeen)
    }

    constructor ()
      ensures Value() == Fresh()
    {
      openedAt, lastBounce, bounces, spentSaid, refusal := 0, 0, 0, false, Ok;
      pushes0, pushesLast, frames0, knocksSeen := 0, 0, 0, 0;
    }

    /** The two differences never wrap: the guards of `Reopen` keep both subtrahends below. */
    method Step(t: Turn) returns (act: WakeAct)
      requires Sound(Value())
      modifies this
      ensures Sound(Value()) && (Value(), act) == LadderStep(old(Value()), t)
    {
      hide WakeStep;
      Reopen(t);
      pushesLast := t.pushes;
      var o := Obs(true, t.carrier, t.rxFrames - frames0, t.pushes - pushes0, t.siblings, t.hostNic,
                   t.spellSent);
      act := Judge(t.now, o);
    }

    /** The fields of a turn that opens a spell. */
    method Reopen(t: Turn)
      requires Sound(Value())
      modifies this
      ensures Value() == Opening(old(Value()), t)
    {
      if openedAt == 0 {
        openedAt, lastBounce, bounces, spentSaid, refusal := t.now, 0, 0, false, Ok;
      } else if t.knocks != knocksSeen || t.pushes < pushesLast || t.rxFrames < frames0 {
        openedAt := t.now;
        refusal := Ok;
      } else {
        return;
      }
      pushes0 := t.pushes;
      knocksSeen := t.knocks;
      frames0 := t.rxFrames;
    }

    /** One reading of the ladder, its two times taken as 64-bit differences: on a clock behind
      * the last edge or the opening they are huge and refuse nothing. */
    method Judge(now: nat, o: Obs) returns (act: WakeAct)
      modifies this`refusal, this`spentSaid, this`bounces, this`lastBounce
      ensures (Value().wake, act) == WakeStep(old(Value()).wake, now, o)
    {
      refusal := Refuses(Wake(openedAt, lastBounce, bounces, spentSaid, refusal), now, o);
      if refusal.Ok? {
        bounces := bounces + 1;
        lastBounce := now;
        return Bounce;
      }
      if refusal.Spent? && !spentSaid {
        spentSaid := true;
        return Exhausted;
      }
      return WakeNone;
    }
  }

  // ---- over every sequence of turns ---------------------------------------------------

  function After(turns: seq<Turn>): (l: Ladder)
    ensures Sound(l)
    decreases |turns|
  {
    if turns == [] then Fresh()
    else LadderStep(After(turns[..|turns| - 1]), turns[|turns| - 1]).0
  }

  function ActAt(turns: seq<Turn>, i: nat): WakeAct
    requires i < |turns|
  {
    LadderStep(After(turns[..i]), turns[i]).1
  }

  function Acts(turns: seq<Turn>, act: WakeAct): nat
    decreases |turns|
  {
    if turns == [] then 0
    else Acts(turns[..|turns| - 1], act)
         + (if LadderStep(After(turns[..|turns| - 1]), turns[|turns| - 1]).1 == act then 1 else 0)
  }

  /** No turn reads the clock's zero, which stands for a ladder that has not begun. */
  ghost predicate Begun(turns: seq<Turn>) { forall i :: 0 <= i < |turns| ==> 0 < turns[i].now }

  /** And the clock never steps back. */
  ghost predicate Clock(turns: seq<Turn>) {
    Begun(turns) && forall i, j :: 0 <= i < j < |turns| ==> turns[i].now <= turns[j].now
  }

  /** How the edges and the last word stand after any turn. */
  predicate Standing(w: Wake) {
    w.bounces <= MAX_BOUNCES && (0 < w.bounces ==> 0 < w.lastBounce)
    && (w.spentSaid ==> w.bounces == MAX_BOUNCES)
  }

  lemma TurnStands(l: Ladder, t: Turn)
    requires Sound(l) && Standing(l.wake) && 0 < t.now
    requires l.wake.openedAt == 0 ==> l == Fresh()
    ensures var (r, act) := LadderStep(l, t);
            && Standing(r.wake) && 0 < r.wake.openedAt
            && r.wake.bounces == l.wake.bounces + (if act.Bounce? then 1 else 0)
            && (if r.wake.spentSaid then 1 else 0)
               == (if l.wake.spentSaid then 1 else 0) + (if act.Exhausted? then 1 else 0)
            && (r.wake.lastBounce == l.wake.lastBounce || r.wake.lastBounce == t.now)
  {
  }

  lemma {:induction false} EdgesCounted(turns: seq<Turn>)
    requires Begun(turns)
    ensures var l := After(turns);
            && Acts(turns, Bounce) == l.wake.bounces
            && Acts(turns, Exhausted) == (if l.wake.spentSaid then 1 else 0)
            && (if turns == [] then l == Fresh() else 0 < l.wake.openedAt)
            && Standing(l.wake)
    decreases |turns|
  {
    hide LadderStep, Standing;
    if turns == [] {
      FreshStands();
    } else {
      EdgesCounted(turns[..|turns| - 1]);
      TurnStands(After(turns[..|turns| - 1]), turns[|turns| - 1]);
    }
  }

  lemma FreshStands()
    ensures Standing(Fresh().wake)
  {
  }

  /** On a clock that never steps back the last edge is in the past. */
  lemma {:induction false} LastEdgeIsPast(turns: seq<Turn>)
    requires Clock(turns) && turns != []
    ensures After(turns).wake.lastBounce <= turns[|turns| - 1].now
    decreases |turns|
  {
    hide LadderStep, Standing;
    var init := turns[..|turns| - 1];
    EdgesCounted(init);
    TurnStands(After(init), turns[|turns| - 1]);
    if init != [] {
      ClockPrefix(turns);
      LastEdgeIsPast(init);
      assert turns[|turns| - 2].now <= turns[|turns| - 1].now;
    }
  }

  /** In every run: at most two edges and one last word, and the last word only after both. */
  lemma LadderIsBounded(turns: seq<Turn>)
    requires Begun(turns)
    ensures Acts(turns, Bounce) <= MAX_BOUNCES && Acts(turns, Exhausted) <= 1
    ensures 0 < Acts(turns, Exhausted) ==> Acts(turns, Bounce) == MAX_BOUNCES
  {
    EdgesCounted(turns);
  }

  /** Turn `t` goes on with what turn `s` saw: the same spell, no push and no frame forgotten. */
  predicate GoesOn(s: Turn, t: Turn) {
    s.knocks == t.knocks && s.pushes <= t.pushes && s.rxFrames <= t.rxFrames
  }

  /** The spell seen at the last turn opened at turn `b`: no turn since has started it again. */
  ghost predicate SpellFrom(turns: seq<Turn>, b: nat)
    requires b < |turns|
  {
    forall i :: b <= i < |turns| ==> GoesOn(turns[b], turns[i])
  }

  /** The grace and both counters run from turn `t`. */
  predicate RunsFrom(l: Ladder, t: Turn) {
    l.wake.openedAt == t.now && l.pushes0 == t.pushes && l.frames0 == t.rxFrames
    && l.knocksSeen == t.knocks
  }

  lemma TurnRunsFrom(l: Ladder, s: Turn, t: Turn)
    requires Sound(l) && 0 < l.wake.openedAt && RunsFrom(l, s) && s.pushes <= l.pushesLast
    ensures var r := LadderStep(l, t).0;
            r.pushesLast == t.pushes
            && (if NewSpell(l, t) then RunsFrom(r, t) else RunsFrom(r, s) && GoesOn(s, t))
  {
  }

  /** The turn at which the spell seen at the last turn opened: the first, or one that saw another
    * spell than the one it would go on with, or a push or a frame forgotten. */
  function SpellStart(turns: seq<Turn>): (b: nat)
    requires turns != []
    ensures b < |turns|
    decreases |turns|
  {
    var n := |turns| - 1;
    if n == 0 then 0
    else
      var a := SpellStart(turns[..n]);
      if turns[n].knocks != turns[a].knocks || turns[n].pushes < turns[n - 1].pushes
         || turns[n].rxFrames < turns[a].rxFrames
      then n else a
  }

  /** In every run the grace and the counters run from there, and every turn since goes on with it. */
  lemma {:induction false} SpellOpensAt(turns: seq<Turn>)
    requires turns != [] && Begun(turns)
    ensures SpellFrom(turns, SpellStart(turns)) && RunsFrom(After(turns), turns[SpellStart(turns)])
    ensures After(turns).pushesLast == turns[|turns| - 1].pushes
    decreases |turns|
  {
    hide LadderStep;
    var n := |turns| - 1;
    var init := turns[..n];
    if init == [] {
      FirstTurn(turns[0]);
      assert After(init) == Fresh();
    } else {
      EdgesCounted(init);
      SpellOpensAt(init);
      var a := SpellStart(init);
      assert GoesOn(init[a], init[n - 1]);
      TurnRunsFrom(After(init), init[a], turns[n]);
      if SpellStart(turns) == a {
        SpellExtends(turns, a);
      }
    }
  }

  lemma FirstTurn(t: Turn)
    ensures RunsFrom(LadderStep(Fresh(), t).0, t) && LadderStep(Fresh(), t).0.pushesLast == t.pushes
  {
  }

  lemma ClockPrefix(turns: seq<Turn>)
    requires turns != [] && Clock(turns)
    ensures Clock(turns[..|turns| - 1])
  {
  }

  lemma SpellExtends(turns: seq<Turn>, b: nat)
    requires b < |turns| - 1 && SpellFrom(turns[..|turns| - 1], b)
    requires GoesOn(turns[b], turns[|turns| - 1])
    ensures SpellFrom(turns, b)
  {
  }

  // ---- exactly when there is an edge ---------------------------------------------------------

  /** When the last edge was made, or 0. */
  function LastEdge(turns: seq<Turn>): nat
    decreases |turns|
  {
    if turns == [] then 0
    else if ActAt(turns, |turns| - 1).Bounce? then turns[|turns| - 1].now
    else LastEdge(turns[..|turns| - 1])
  }

  lemma {:induction false} LastEdgeKept(turns: seq<Turn>)
    requires Begun(turns)
    ensures After(turns).wake.lastBounce == LastEdge(turns)
    decreases |turns|
  {
    hide LadderStep, Standing;
    if turns != [] {
      var init := turns[..|turns| - 1];
      LastEdgeKept(init);
      EdgesCounted(init);
      TurnEdge(After(init), turns[|turns| - 1]);
    }
  }

  lemma TurnEdge(l: Ladder, t: Turn)
    requires Sound(l) && (l.wake.openedAt == 0 ==> l == Fresh())
    ensures var (r, act) := LadderStep(l, t);
            r.wake.lastBounce == if act.Bounce? then t.now else l.wake.lastBounce
  {
  }

  /** From `then_` to `now` in unsigned 64-bit nanoseconds. */
  function Ns(now: nat, then_: nat): nat { (now - then_) % 0x1_0000_0000_0000_0000 }

  /** The wire has carrier, has carried no frame since the spell began, is not the host's and serves
    * nobody, and frames of the spell have left. */
  predicate SilentWire(turns: seq<Turn>)
    requires turns != []
  {
    var b, t := turns[SpellStart(turns)], turns[|turns| - 1];
    t.carrier.Up? && t.rxFrames == b.rxFrames && !t.hostNic && 0 < t.spellSent && t.siblings == 0
  }

  /** Twenty seconds have gone by since the last edge, if there was one. */
  predicate Settled(turns: seq<Turn>)
    requires turns != []
  {
    var last := LastEdge(turns[..|turns| - 1]);
    last == 0 || 20_000_000_000 <= Ns(turns[|turns| - 1].now, last)
  }

  /** Three transfers have left whole since the spell began, and it is twelve seconds old. */
  predicate PushProven(turns: seq<Turn>)
    requires turns != []
  {
    var b, t := turns[SpellStart(turns)], turns[|turns| - 1];
    b.pushes + 3 <= t.pushes && 12_000_000_000 <= Ns(t.now, b.now)
  }

  /** In every run a turn makes an edge exactly on a silent wire whose push is proven, as the first or
    * the second edge, and once the edge before it has settled. */
  lemma EdgeIff(turns: seq<Turn>)
    requires turns != [] && Begun(turns)
    ensures ActAt(turns, |turns| - 1).Bounce? <==>
              && SilentWire(turns) && Acts(turns[..|turns| - 1], Bounce) < 2
              && Settled(turns) && PushProven(turns)
  {
    TurnFacts(turns);
  }

  /** And it says the last word exactly when it would make another after two, and has not said it. */
  lemma LastWordIff(turns: seq<Turn>)
    requires turns != [] && Begun(turns)
    ensures ActAt(turns, |turns| - 1).Exhausted? <==>
              && SilentWire(turns) && Acts(turns[..|turns| - 1], Bounce) >= 2
              && Acts(turns[..|turns| - 1], Exhausted) == 0
  {
    TurnFacts(turns);
  }

  /** Each refusal is the first fact, in this order, that stands against an edge. */
  lemma RefusalSays(turns: seq<Turn>)
    requires turns != [] && Begun(turns)
    ensures var r, t, b := After(turns).wake.refusal, turns[|turns| - 1], turns[SpellStart(turns)];
            var spent := Acts(turns[..|turns| - 1], Bounce) >= 2;
            && !r.NotProbing?
            && (r.NoCarrier? <==> t.carrier.Down?)
            && (r.CarrierUnknown? <==> t.carrier.Unknown?)
            && (r.BoxIsTalking? <==> t.carrier.Up? && t.rxFrames != b.rxFrames)
            && (r.HostNic? <==> t.carrier.Up? && t.rxFrames == b.rxFrames && t.hostNic)
            && (r.NothingSent? <==>
                  t.carrier.Up? && t.rxFrames == b.rxFrames && !t.hostNic && t.spellSent == 0)
            && (r.SiblingServed? <==>
                  t.carrier.Up? && t.rxFrames == b.rxFrames && !t.hostNic && 0 < t.spellSent && 0 < t.siblings)
            && (r.Spent? <==> SilentWire(turns) && spent)
            && (r.Settling? <==> SilentWire(turns) && !spent && !Settled(turns))
            && (r.PushNotProven? <==> SilentWire(turns) && !spent && Settled(turns) && !PushProven(turns))
  {
    hide After, Acts, LastEdge, SpellStart;
    TurnFacts(turns);
  }

  /** What the last turn of a run judges by, in the terms of the run. */
  lemma TurnFacts(turns: seq<Turn>)
    requires turns != [] && Begun(turns)
    ensures var l, t, b := After(turns[..|turns| - 1]), turns[|turns| - 1], turns[SpellStart(turns)];
            var o := Opening(l, t);
            && b.pushes <= t.pushes && b.rxFrames <= t.rxFrames
            && Seen(o, t) == Obs(true, t.carrier, t.rxFrames - b.rxFrames, t.pushes - b.pushes, t.siblings,
                                 t.hostNic, t.spellSent)
            && o.wake.openedAt == b.now && o.wake.lastBounce == LastEdge(turns[..|turns| - 1])
            && o.wake.bounces == Acts(turns[..|turns| - 1], Bounce)
            && (o.wake.spentSaid <==> Acts(turns[..|turns| - 1], Exhausted) > 0)
            && (After(turns), ActAt(turns, |turns| - 1)) == LadderStep(l, t)
  {
    hide LadderStep, Opening, SpellStart, After, Acts, LastEdge, ActAt, Standing;
    LastTurn(turns);
    var init, t := turns[..|turns| - 1], turns[|turns| - 1];
    SpellOpensAt(turns);
    EdgesCounted(init);
    LastEdgeKept(init);
    OpenedFacts(After(init), t);
    assert SpellFrom(turns, SpellStart(turns));
    assert GoesOn(turns[SpellStart(turns)], t);
  }

  lemma LastTurn(turns: seq<Turn>)
    requires turns != []
    ensures (After(turns), ActAt(turns, |turns| - 1))
         == LadderStep(After(turns[..|turns| - 1]), turns[|turns| - 1])
    ensures Begun(turns) ==> Begun(turns[..|turns| - 1])
  {
    hide LadderStep;
  }

  lemma OpenedFacts(l: Ladder, t: Turn)
    requires Sound(l) && (l.wake.openedAt == 0 ==> l == Fresh())
    ensures var o, r := Opening(l, t), LadderStep(l, t).0;
            && o.pushes0 == r.pushes0 && o.frames0 == r.frames0 && o.wake.openedAt == r.wake.openedAt
            && o.wake.lastBounce == l.wake.lastBounce && o.wake.bounces == l.wake.bounces
            && o.wake.spentSaid == l.wake.spentSaid
  {
  }

  lemma NsOnAClock(now: nat, then_: nat, least: nat)
    requires then_ <= now && least <= Ns(now, then_)
    ensures then_ + least <= now
  {
  }

  /** An edge is made only on a wire whose spell has lasted the grace, has seen three whole transfers
    * leave and not one frame arrive, that is up and not the host's, and only once the edge before it
    * has settled: on a clock that never steps back the differences are plain ones. */
  lemma EdgeOnlyOnASilentWire(turns: seq<Turn>)
    requires turns != [] && Clock(turns) && ActAt(turns, |turns| - 1).Bounce?
    ensures var b, t := turns[SpellStart(turns)], turns[|turns| - 1];
            && t.now >= b.now + GRACE_NS && t.pushes >= b.pushes + MIN_PUSHES && t.rxFrames == b.rxFrames
            && t.carrier.Up? && !t.hostNic && t.siblings == 0 && 0 < t.spellSent
    ensures var w := After(turns[..|turns| - 1]).wake;
            0 < w.bounces ==> w.lastBounce + SETTLE_NS <= turns[|turns| - 1].now
  {
    hide LadderStep, SpellStart, Ns, Acts;
    var init, t, b := turns[..|turns| - 1], turns[|turns| - 1], turns[SpellStart(turns)];
    EdgeIff(turns);
    LastEdgeKept(init);
    EdgesCounted(init);
    NsOnAClock(t.now, b.now, GRACE_NS);
    if |turns| > 1 {
      ClockPrefix(turns);
      LastEdgeIsPast(init);
      assert turns[|turns| - 2].now <= turns[|turns| - 1].now;
      if 0 < LastEdge(init) {
        NsOnAClock(t.now, LastEdge(init), SETTLE_NS);
      }
    }
  }
}
