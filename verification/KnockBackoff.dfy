/** The backoff: when each knock of a spell opens, how many have opened, and how many frames
  * one call of the sender can put on the wire. */
module KnockBackoff {
  import opened KnockModel
  import opened KnockSchedule

  /** The periods of `n` knocks, the first of them unanswered knock `u`. */
  function SumPeriods(c: Cadence, u: nat, n: nat): nat {
    if n == 0 then 0 else SumPeriods(c, u, n - 1) + Period(c, u + n - 1)
  }

  /** Position `p` belongs to the backoff that opened its first knock at `start`, with `u`
    * knocks unanswered and `first` knocks of the spell already open. */
  predicate OnBackoff(c: Cadence, p: Pos, start: nat, u: nat, first: nat) {
    && first <= p.cycles
    && var m := p.cycles - first;
       && p.t0 == start + SumPeriods(c, u, m)
       && p.unanswered == u + m + (if p.resting then 1 else 0)
       && (p.resting ==> p.next == start + SumPeriods(c, u, m + 1))
  }

  lemma {:induction false} OnBackoffLoop(c: Cadence, p: Pos, now: nat, start: nat, u: nat, first: nat)
    requires OnBackoff(c, p, start, u, first)
    ensures OnBackoff(c, PosLoop(c, p, now), start, u, first)
    decreases TimeLeft(p, now), StepsLeft(c, p, now)
  {
    if Ready(c, p, now) {
      TickProgress(c, p, now);
      OnBackoffLoop(c, PosTick(c, p), now, start, u, first);
    }
  }

  /** The last slot of a cycle has its time by the backoff's ceiling. */
  predicate Reopens(c: Cadence) { SlotNs(c, 0, |c.cycle| - 1) <= PERIOD_MAX_NS }

  /** A spell opened at `start` and polled at `now`, with nothing heard between: `m` more knocks
    * have opened, the last of them at the start plus the periods before it.  Where the last slot
    * of a cycle has its time by the ceiling the sums of the periods say exactly which `m` that
    * is. */
  lemma KnocksOpenOnSchedule(c: Cadence, s: State, start: nat, now: nat, wire: Wire)
    requires s.ctl.mode.Knocking? && start <= now
    requires s.knock.pos.t0 == start && s.knock.pos.slot == 0 && !s.knock.pos.resting
    ensures var u, p := s.knock.pos.unanswered, Run(c, s, now, wire).knock.pos;
            && s.knock.pos.cycles <= p.cycles
            && var m := p.cycles - s.knock.pos.cycles;
               && p.t0 == start + SumPeriods(c, u, m)
               && SumPeriods(c, u, m) <= now - start
               && (Reopens(c) ==> now - start < SumPeriods(c, u, m + 1))
  {
    var p := s.knock.pos;
    OnBackoffLoop(c, p, now, start, p.unanswered, p.cycles);
    RunCanStop(c, s, now, wire);
    PosLoopInCycle(c, p, now);
    StartsByNow(c, p, now);
    if Reopens(c) {
      NextNotYet(c, PosLoop(c, p, now), now);
    }
  }

  /** A stopped sender has not reached the next knock. */
  lemma NextNotYet(c: Cadence, q: Pos, now: nat)
    requires Reopens(c) && CanStop(c, q) && !Ready(c, q, now)
    ensures now < (if q.resting then q.next else q.t0 + Period(c, q.unanswered))
  {
    if !q.resting {
      SlotNsMonotone(c, q.t0, q.slot, |c.cycle| - 1);
      SlotNsMonotone(c, q.t0, |c.cycle| - 1, |c.cycle|);
      PeriodCoversCycle(c, q.unanswered);
    }
  }

  /** A sender always has opened every knock whose time has come. */
  ghost predicate OpensOnTime(c: Cadence) {
    forall p: Pos, now: nat | p.slot == 0 && !p.resting && p.t0 <= now ::
      var q := PosLoop(c, p, now);
      p.cycles <= q.cycles && now - p.t0 < SumPeriods(c, p.unanswered, q.cycles - p.cycles + 1)
  }

  /** A knock is never still out when the next one's time has come, exactly when the last slot of
    * a cycle has its time by the ceiling. */
  lemma OpensOnTimeIff(c: Cadence)
    ensures OpensOnTime(c) <==> Reopens(c)
  {
    if Reopens(c) {
      forall p: Pos, now: nat | p.slot == 0 && !p.resting && p.t0 <= now
        ensures var q := PosLoop(c, p, now);
                p.cycles <= q.cycles && now - p.t0 < SumPeriods(c, p.unanswered, q.cycles - p.cycles + 1)
      {
        OnBackoffLoop(c, p, now, p.t0, p.unanswered, p.cycles);
        PosLoopInCycle(c, p, now);
        NextNotYet(c, PosLoop(c, p, now), now);
      }
    } else {
      var p := Pos(0, 0, false, 0, 0, 1);
      StaysIn(c, p, PERIOD_MAX_NS);
      assert SumPeriods(c, 0, 0) == 0 && SumPeriods(c, 0, 1) == Period(c, 0);
      assert PosLoop(c, p, PERIOD_MAX_NS).cycles == p.cycles;
    }
  }

  lemma {:induction false} StartsByNow(c: Cadence, p: Pos, now: nat)
    requires p.t0 <= now
    ensures PosLoop(c, p, now).t0 <= now
    decreases TimeLeft(p, now), StepsLeft(c, p, now)
  {
    if Ready(c, p, now) {
      TickProgress(c, p, now);
      StartsByNow(c, PosTick(c, p), now);
    }
  }

  /** Consecutive knocks never overlap exactly when a cycle ends before the ceiling. */
  lemma KnocksOverlapIff(c: Cadence)
    ensures (forall t0: nat, n: nat :: SlotNs(c, t0, |c.cycle|) <= t0 + Period(c, n)) <==> Fits(c)
  {
    if Fits(c) {
      forall t0: nat, n: nat ensures SlotNs(c, t0, |c.cycle|) <= t0 + Period(c, n) {
        PeriodCoversCycle(c, n);
      }
    } else {
      assert Pow2(0) == 1;
      assert SlotNs(c, 0, |c.cycle|) > 0 + Period(c, 0);
    }
  }

  /** The first period is one cycle, cut to the ceiling.  The backoff never shortens, and from the
    * first capped period on it is the ceiling. */
  lemma PeriodGrows(c: Cadence, n: nat)
    ensures Period(c, 0) == Min(|c.cycle| * 1_000_000_000 / c.fps, 30_000_000_000)
    ensures Period(c, n) <= Period(c, n + 1)
    ensures Period(c, n) == PERIOD_MAX_NS ==> Period(c, n + 1) == PERIOD_MAX_NS
    ensures Period(c, n) < PERIOD_MAX_NS ==> Period(c, n + 1) == Min(2 * Period(c, n), PERIOD_MAX_NS)
  {
  }

  // ---- the backoff in nanoseconds -------------------------------------------------------

  /** `at` is `m` openings after `start`, whose knock followed `u` unanswered ones: a cycle apart
    * doubled each time, as long as the last of the distances is no more than 30 s. */
  predicate DoublesTo(c: Cadence, at: nat, start: nat, u: nat, m: nat) {
    var cycle := |c.cycle| * 1_000_000_000 / c.fps;
    m == 0 || cycle * Pow2(u + m - 1) <= 30_000_000_000 ==> at == start + cycle * (Pow2(u + m) - Pow2(u))
  }

  /** Or doubled `d` times, which brings it to 30 s, and 30 s apart from then on. */
  predicate CapsAt(c: Cadence, at: nat, start: nat, u: nat, m: nat, d: nat) {
    var cycle := |c.cycle| * 1_000_000_000 / c.fps;
    d <= m && cycle * Pow2(u + d) >= 30_000_000_000
    && (d == 0 || cycle * Pow2(u + d - 1) <= 30_000_000_000) ==>
      at == start + cycle * (Pow2(u + d) - Pow2(u)) + (m - d) * 30_000_000_000
  }

  lemma {:induction false} SumDoubles(c: Cadence, start: nat, u: nat, m: nat)
    ensures DoublesTo(c, start + SumPeriods(c, u, m), start, u, m)
    decreases m
  {
    var cycle := |c.cycle| * 1_000_000_000 / c.fps;
    if m > 0 && cycle * Pow2(u + m - 1) <= 30_000_000_000 {
      if m > 1 {
        Pow2Step(cycle, u + m - 2);
      }
      SumDoubles(c, start, u, m - 1);
      Distribute(cycle, Pow2(u + m - 1), Pow2(u));
    } else {
      assert cycle * (Pow2(u) - Pow2(u)) == 0;
    }
  }

  lemma Pow2Step(a: nat, n: nat)
    ensures Pow2(n + 1) == 2 * Pow2(n) && a * Pow2(n + 1) == 2 * (a * Pow2(n))
  {
  }

  lemma Distribute(a: nat, p: nat, q: nat)
    ensures a * (2 * p - q) == a * (p - q) + a * p
  {
  }

  lemma {:induction false} SumCaps(c: Cadence, start: nat, u: nat, m: nat, d: nat)
    ensures CapsAt(c, start + SumPeriods(c, u, m), start, u, m, d)
    decreases m
  {
    var cycle := |c.cycle| * 1_000_000_000 / c.fps;
    if d < m && cycle * Pow2(u + d) >= 30_000_000_000 {
      StaysCapped(c, u + d, u + m - 1);
      SumCaps(c, start, u, m - 1, d);
    } else if d == m {
      SumDoubles(c, start, u, m);
    }
  }

  lemma {:induction false} StaysCapped(c: Cadence, i: nat, n: nat)
    requires i <= n && CycleNs(c) * Pow2(i) >= PERIOD_MAX_NS
    ensures CycleNs(c) * Pow2(n) >= PERIOD_MAX_NS
    decreases n
  {
    if i < n {
      StaysCapped(c, i, n - 1);
      Pow2Step(CycleNs(c), n - 1);
    }
  }

  /** Where a backoff that opened at `start` has the sender: the knock that is out, and the one a
    * rest waits for. */
  predicate InNanoseconds(c: Cadence, p: Pos, start: nat, u: nat, first: nat, d: nat) {
    && first <= p.cycles
    && var m := p.cycles - first;
       && DoublesTo(c, p.t0, start, u, m) && CapsAt(c, p.t0, start, u, m, d)
       && (p.resting ==> DoublesTo(c, p.next, start, u, m + 1) && CapsAt(c, p.next, start, u, m + 1, d))
  }

  lemma BackoffInNanoseconds(c: Cadence, p: Pos, start: nat, u: nat, first: nat, d: nat)
    requires OnBackoff(c, p, start, u, first)
    ensures InNanoseconds(c, p, start, u, first, d)
  {
    var m := p.cycles - first;
    SumDoubles(c, start, u, m);
    SumDoubles(c, start, u, m + 1);
    SumCaps(c, start, u, m, d);
    SumCaps(c, start, u, m + 1, d);
  }

  /** With nothing heard, after any call: knock m of a spell with nothing unanswered opened
    * (2^m - 1) cycles after the first while the distances are no more than 30 s, and 30 s after
    * the one before it from there on. */
  lemma KnocksOpenInNanoseconds(c: Cadence, s: State, now: nat, wire: Wire, d: nat)
    requires s.ctl.mode.Knocking? && s.knock.pos.slot == 0 && !s.knock.pos.resting
    ensures var p := s.knock.pos;
            InNanoseconds(c, Run(c, s, now, wire).knock.pos, p.t0, p.unanswered, p.cycles, d)
  {
    var p := s.knock.pos;
    OnBackoffLoop(c, p, now, p.t0, p.unanswered, p.cycles);
    RunLoopPos(c, s.knock, now, wire);
    BackoffInNanoseconds(c, PosLoop(c, p, now), p.t0, p.unanswered, p.cycles, d);
  }

  // ---- the burst of one call ---------------------------------------------------------

  /** Knocks opened in the window of slots still sent. */
  function RecentOpens(log: seq<Event>, now: nat): nat {
    if log == [] then 0
    else RecentOpens(log[..|log| - 1], now)
         + (if log[|log| - 1].Opened? && now <= log[|log| - 1].opensAt + LATE_NS + 1 then 1 else 0)
  }

  function HandedTo(t: Tally): nat { t.sent + t.sendErrors }

  /** How far the next slot lies past the start of the window of slots still sent, in 1/fps
    * ns, one nanosecond ahead of itself while a rest lasts. */
  function Ahead(c: Cadence, p: Pos, now: nat): int {
    c.fps * (Anchor(p) - now + LATE_NS) + (if p.resting then c.fps else p.slot * NANOS)
  }

  function Lead(c: Cadence, p: Pos, now: nat): nat {
    if Ahead(c, p, now) < 0 then 0 else Ahead(c, p, now)
  }

  lemma RecentOpensAppend(log: seq<Event>, e: Event, now: nat)
    ensures RecentOpens(log + [e], now) == RecentOpens(log, now)
              + (if e.Opened? && now <= e.opensAt + LATE_NS + 1 then 1 else 0)
  {
  }

  /** The slots handed over by one call all fall in a window LATE_NS wide, so there are no more
    * of them than the cadence puts there, one for the edge, and one nanosecond's worth for
    * every knock that opened inside it. */
  lemma {:induction false} BurstLoop(c: Cadence, k: Knock, now: nat, wire: Wire)
    requires InCycle(c, k.pos) && Fits(c)
    ensures var r := RunLoop(c, k, now, wire);
            var n := HandedTo(r.tally) - HandedTo(k.tally);
            var m := RecentOpens(r.log, now) - RecentOpens(k.log, now);
            && 0 <= m && 0 <= n
            && (n > 0 ==> n * NANOS + Lead(c, k.pos, now) <= c.fps * (LATE_NS + 1 + m) + NANOS)
    decreases TimeLeft(k.pos, now), StepsLeft(c, k.pos, now)
  {
    if Ready(c, k.pos, now) {
      TickProgress(c, k.pos, now);
      PassedTick(c, k.pos);
      var t := Tick(c, k, now, wire);
      BurstLoop(c, t, now, wire);
      var r := RunLoop(c, k, now, wire);
      var n1 := HandedTo(r.tally) - HandedTo(t.tally);
      var m1 := RecentOpens(r.log, now) - RecentOpens(t.log, now);
      BurstTick(c, k, now, wire, n1, m1);
    }
  }

  lemma BurstTick(c: Cadence, k: Knock, now: nat, wire: Wire, n1: nat, m1: nat)
    requires InCycle(c, k.pos) && Fits(c) && Ready(c, k.pos, now)
    requires var t := Tick(c, k, now, wire);
             n1 > 0 ==> n1 * NANOS + Lead(c, t.pos, now) <= c.fps * (LATE_NS + 1 + m1) + NANOS
    ensures var t := Tick(c, k, now, wire);
            var n := n1 + HandedTo(t.tally) - HandedTo(k.tally);
            var m := m1 + RecentOpens(t.log, now) - RecentOpens(k.log, now);
            && m1 <= m && n1 <= n
            && (n > 0 ==> n * NANOS + Lead(c, k.pos, now) <= c.fps * (LATE_NS + 1 + m) + NANOS)
  {
    var p := k.pos;
    if p.resting {
      RecentOpensAppend(k.log, Opened(p.next), now);
      OpenLead(c, p, now);
      MoreOpens(c, m1);
    } else if p.slot == |c.cycle| {
      RestLead(c, p, now);
    } else {
      SlotLead(c, p, now);
      if c.cycle[p.slot].Control() {
        RecentOpensAppend(k.log, Tick(c, k, now, wire).log[|k.log|], now);
        NoOpens(c, m1);
      }
    }
  }

  lemma MoreOpens(c: Cadence, m: int)
    ensures c.fps * (LATE_NS + 1 + (m + 1)) == c.fps * (LATE_NS + 1 + m) + c.fps
  {
  }

  lemma NoOpens(c: Cadence, m: int)
    requires 0 <= m
    ensures c.fps * (LATE_NS + 1) <= c.fps * (LATE_NS + 1 + m)
  {
  }

  lemma OpenLead(c: Cadence, p: Pos, now: nat)
    requires p.resting
    ensures Lead(c, p, now) <= Lead(c, OpenPos(p, p.next), now) + c.fps
    ensures now > p.next + LATE_NS + 1 ==> Lead(c, p, now) == 0
  {
    var x := p.next - now + LATE_NS;
    assert Ahead(c, OpenPos(p, p.next), now) == c.fps * x;
    if x < -1 {
      assert c.fps * (x + 1) <= 0;
    }
  }

  lemma RestLead(c: Cadence, p: Pos, now: nat)
    requires !p.resting && p.slot == |c.cycle| && Fits(c)
    ensures Lead(c, p, now) <= Lead(c, RestPos(c, p), now)
  {
    var q := RestPos(c, p);
    PeriodCoversCycle(c, p.unanswered);
    var x, y := p.t0 - now + LATE_NS, q.next - now + LATE_NS;
    DivBounds(|c.cycle| * NANOS, c.fps);
    assert c.fps * (x + CycleNs(c)) <= c.fps * y by { MulMonotone(c.fps, x + CycleNs(c), y); }
    assert c.fps * (x + CycleNs(c)) == c.fps * x + c.fps * CycleNs(c);
  }

  lemma SlotLead(c: Cadence, p: Pos, now: nat)
    requires !p.resting && p.slot < |c.cycle| && SlotNs(c, p.t0, p.slot) <= now
    ensures Lead(c, p, now) <= Lead(c, p.(slot := p.slot + 1), now)
    ensures now <= SlotNs(c, p.t0, p.slot) + LATE_NS ==>
              Lead(c, p.(slot := p.slot + 1), now) == Lead(c, p, now) + NANOS
    ensures Lead(c, p, now) <= c.fps * (LATE_NS + 1)
  {
    var x, d := p.t0 - now + LATE_NS, p.slot * NANOS / c.fps;
    DivBounds(p.slot * NANOS, c.fps);
    assert Ahead(c, p.(slot := p.slot + 1), now) == Ahead(c, p, now) + NANOS;
    assert c.fps * (x + d) == c.fps * x + c.fps * d;
    MulMonotone(c.fps, x + d, LATE_NS);
    assert c.fps * (LATE_NS + 1) == c.fps * LATE_NS + c.fps;
    MulMonotone(c.fps, 0, LATE_NS + 1);
    if 0 <= x + d {
      MulMonotone(c.fps, 0, x + d);
    }
  }

  lemma DivBounds(x: nat, d: nat)
    requires 0 < d
    ensures d * (x / d) <= x < d * (x / d) + d
  {
  }

  lemma MulMonotone(d: nat, x: int, y: int)
    requires x <= y
    ensures d * x <= d * y
  {
  }

  // ---- a knock that overlaps the next -------------------------------------------------

  /** As many frames as fall due in LATE_NS and a nanosecond, and one for the edge, in 1/fps ns. */
  function Window(c: Cadence): nat { c.fps * (LATE_NS + 1) + NANOS }

  /** A call that comes before a knock's last slot hands over no more than one window of it. */
  lemma {:induction false} OneWindow(c: Cadence, k: Knock, now: nat, wire: Wire)
    requires !k.pos.resting && k.pos.slot < |c.cycle| && now < SlotNs(c, k.pos.t0, |c.cycle| - 1)
    ensures var n := HandedTo(RunLoop(c, k, now, wire).tally) - HandedTo(k.tally);
            0 <= n && (n > 0 ==> n * NANOS + Lead(c, k.pos, now) <= Window(c))
    decreases |c.cycle| - k.pos.slot
  {
    hide SlotNs, Lead;
    if Ready(c, k.pos, now) {
      SlotLead(c, k.pos, now);
      LoopStep(c, k, now, wire);
      OneWindow(c, Tick(c, k, now, wire), now, wire);
    }
  }

  /** A knock's slots that this call may still hand over have all had the ones before them. */
  predicate Handing(c: Cadence, p: Pos, now: nat) {
    && !p.resting && now <= SlotNs(c, p.t0, |c.cycle| - 1) + LATE_NS
    && (p.slot > 0 ==> SlotNs(c, p.t0, p.slot - 1) <= now)
  }

  /** Of a cycle longer than the ceiling, one call hands over at most a window of a knock and a
    * window of the next, which is not over by then. */
  lemma {:induction false} TwoWindows(c: Cadence, k: Knock, now: nat, wire: Wire)
    requires InCycle(c, k.pos) && !Fits(c)
    ensures var n := HandedTo(RunLoop(c, k, now, wire).tally) - HandedTo(k.tally);
            && 0 <= n && n * NANOS <= 2 * Window(c)
            && (n > 0 && Handing(c, k.pos, now) ==> n * NANOS + Lead(c, k.pos, now) <= 2 * Window(c))
    decreases TimeLeft(k.pos, now), StepsLeft(c, k.pos, now)
  {
    hide SlotNs, Lead, Window;
    var p := k.pos;
    if Ready(c, p, now) {
      TickProgress(c, p, now);
      LoopStep(c, k, now, wire);
      var t := Tick(c, k, now, wire);
      PassedTick(c, p);
      TwoWindows(c, t, now, wire);
      if !p.resting && p.slot < |c.cycle| {
        SlotWindows(c, k, now, wire, HandedTo(RunLoop(c, t, now, wire).tally) - HandedTo(t.tally));
      } else if !p.resting && Handing(c, p, now) {
        OverlappingKnock(c, k, now, wire);
      }
    } else {
      assert RunLoop(c, k, now, wire) == k;
    }
  }

  /** What one slot adds to the frames handed over after it. */
  lemma SlotWindows(c: Cadence, k: Knock, now: nat, wire: Wire, after: nat)
    requires InCycle(c, k.pos) && !k.pos.resting && k.pos.slot < |c.cycle| && Ready(c, k.pos, now)
    requires after * NANOS <= 2 * Window(c)
    requires var q := PosTick(c, k.pos);
             after > 0 && Handing(c, q, now) ==> after * NANOS + Lead(c, q, now) <= 2 * Window(c)
    ensures var n := after + HandedTo(Tick(c, k, now, wire).tally) - HandedTo(k.tally);
            && 0 <= n && n * NANOS <= 2 * Window(c)
            && (n > 0 && Handing(c, k.pos, now) ==> n * NANOS + Lead(c, k.pos, now) <= 2 * Window(c))
  {
    hide SlotNs, Lead;
    var p := k.pos;
    SlotLead(c, p, now);
    SlotNsMonotone(c, p.t0, p.slot, |c.cycle| - 1);
    if p.slot > 0 {
      SlotNsMonotone(c, p.t0, p.slot - 1, p.slot);
    }
  }

  /** The knock has just handed over its last slot: the next one, if it is open, is not over. */
  lemma OverlappingKnock(c: Cadence, k: Knock, now: nat, wire: Wire)
    requires !k.pos.resting && k.pos.slot == |c.cycle| && !Fits(c) && Handing(c, k.pos, now)
    ensures var n := HandedTo(RunLoop(c, k, now, wire).tally) - HandedTo(k.tally);
            n > 0 ==> n * NANOS + Lead(c, k.pos, now) <= 2 * Window(c)
  {
    hide SlotNs;
    PeriodCoversCycle(c, k.pos.unanswered);
    LoopStep(c, k, now, wire);
    var rest := Tick(c, k, now, wire);
    if Ready(c, rest.pos, now) {
      LoopStep(c, rest, now, wire);
      var open := Tick(c, rest, now, wire);
      Shifted(c, k.pos.t0, |c.cycle| - 1);
      Shifted(c, open.pos.t0, |c.cycle| - 1);
      OneWindow(c, open, now, wire);
      LeadAtEnd(c, k.pos, now);
    } else {
      assert RunLoop(c, rest, now, wire) == rest;
    }
  }

  lemma LeadAtEnd(c: Cadence, p: Pos, now: nat)
    requires !p.resting && p.slot == |c.cycle| && SlotNs(c, p.t0, |c.cycle| - 1) <= now
    ensures Lead(c, p, now) <= Window(c)
  {
    SlotLead(c, p.(slot := |c.cycle| - 1), now);
    assert Ahead(c, p, now) == Ahead(c, p.(slot := |c.cycle| - 1), now) + NANOS;
  }

  /** The frames one call hands to the wire, however long the caller stalled: one window of slots
    * when a cycle fits the ceiling, stretched a nanosecond by every knock that opened in it, and
    * two when the knocks overlap. */
  lemma BurstIsBounded(c: Cadence, s: State, now: nat, wire: Wire)
    requires InCycle(c, s.knock.pos) && s.ctl.mode.Knocking?
    ensures var r := Run(c, s, now, wire);
            var n := HandedTo(r.knock.tally) - HandedTo(s.knock.tally);
            var m := RecentOpens(r.knock.log, now) - RecentOpens(s.knock.log, now);
            if Fits(c) then n * NANOS <= c.fps * (LATE_NS + 1 + m) + NANOS else n * NANOS <= 2 * Window(c)
  {
    if Fits(c) {
      BurstLoop(c, s.knock, now, wire);
      var r := Run(c, s, now, wire);
      MulMonotone(c.fps, 0, LATE_NS + 1 + RecentOpens(r.knock.log, now) - RecentOpens(s.knock.log, now));
    } else {
      TwoWindows(c, s.knock, now, wire);
    }
  }

  /** A cycle longer than the window opens at most one knock inside it. */
  lemma {:induction false} OneRecentOpen(c: Cadence, k: Knock, now: nat, wire: Wire)
    requires InCycle(c, k.pos) && LATE_NS + 1 < CycleNs(c)
    ensures RecentOpens(RunLoop(c, k, now, wire).log, now) <= RecentOpens(k.log, now) + 1
    ensures !k.pos.resting && now <= k.pos.t0 + LATE_NS + 1 ==>
              RecentOpens(RunLoop(c, k, now, wire).log, now) == RecentOpens(k.log, now)
    ensures k.pos.resting && now < k.pos.next ==>
              RecentOpens(RunLoop(c, k, now, wire).log, now) == RecentOpens(k.log, now)
    decreases TimeLeft(k.pos, now), StepsLeft(c, k.pos, now)
  {
    if Ready(c, k.pos, now) {
      TickProgress(c, k.pos, now);
      PassedTick(c, k.pos);
      OneRecentOpen(c, Tick(c, k, now, wire), now, wire);
      if k.pos.resting {
        RecentOpensAppend(k.log, Opened(k.pos.next), now);
      } else if k.pos.slot == |c.cycle| {
        PeriodCoversCycle(c, k.pos.unanswered);
      } else if c.cycle[k.pos.slot].Control() {
        RecentOpensAppend(k.log, Tick(c, k, now, wire).log[|k.log|], now);
      }
    }
  }

  /** Of a cycle longer than the window the bound has no knocks to count. */
  lemma BurstOfALongCycle(c: Cadence, s: State, now: nat, wire: Wire)
    requires InCycle(c, s.knock.pos) && s.ctl.mode.Knocking? && LATE_NS + 1 < CycleNs(c)
    ensures (HandedTo(Run(c, s, now, wire).knock.tally) - HandedTo(s.knock.tally)) * NANOS
            <= if Fits(c) then c.fps * (LATE_NS + 2) + NANOS else 2 * Window(c)
  {
    BurstIsBounded(c, s, now, wire);
    OneRecentOpen(c, s.knock, now, wire);
    var r := Run(c, s, now, wire);
    var m := RecentOpens(r.knock.log, now) - RecentOpens(s.knock.log, now);
    MulMonotone(c.fps, LATE_NS + 1 + m, LATE_NS + 2);
  }
}
