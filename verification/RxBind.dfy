/** The lock of a segment's receive gate. */
module RxBind {
  const BIND_FRAMES: nat := 8
  const STABLE_NS: nat := 500_000_000

  /** A MAC address packed in 48 bits; the engine's answer 0 means none. */
  type Mac = m: int | 0 <= m < 0x1_0000_0000_0000

  datatype Binding = Binding(locked: bool, lockedMac: Mac, fromHint: bool,
                             haveCand: bool, cand: Mac, candSince: nat)

  const Unbound: Binding := Binding(false, 0, false, false, 0, 0)

  function Hinted(b: Binding, mac: Mac): Binding {
    b.(lockedMac := mac, locked := true, fromHint := true)
  }

  function Ticked(b: Binding, mac: Mac, frames: nat, now: nat): (Binding, bool) {
    if b.locked && b.fromHint then (b, false)
    else if mac == 0 || (b.locked && b.lockedMac == mac) then (b.(haveCand := false), false)
    else if !b.haveCand || b.cand != mac then
      (b.(cand := mac, haveCand := true, candSince := now), false)
    else if frames < BIND_FRAMES || now < b.candSince || now - b.candSince < STABLE_NS then (b, false)
    else (b.(lockedMac := mac, locked := true, fromHint := false, haveCand := false), true)
  }

  class RxBind {
    var lockedMac: Mac
    var locked: bool
    var fromHint: bool
    var cand: Mac
    var haveCand: bool
    var candSince: nat
    ghost var resets: seq<Mac>   // every peer the gate was told, in order

    ghost function Value(): Binding
      reads this
    {
      Binding(locked, lockedMac, fromHint, haveCand, cand, candSince)
    }

    /** The gate compares against the peer it was last told, and that is the lock. */
    ghost predicate Valid()
      reads this
    {
      if locked then resets != [] && resets[|resets| - 1] == lockedMac else resets == []
    }

    constructor ()
      ensures Valid() && Value() == Unbound
    {
      lockedMac, locked, fromHint, cand, haveCand, candSince := 0, false, false, 0, false, 0;
      resets := [];
    }

    method LockTo(mac: Mac, hint: bool)
      modifies this`lockedMac, this`locked, this`fromHint, this`resets
      ensures Valid()
      ensures Value() == old(Value()).(lockedMac := mac, locked := true, fromHint := hint)
      ensures resets == old(resets) + [mac]
    {
      lockedMac := mac;
      locked := true;
      fromHint := hint;
      resets := resets + [mac];
    }

    method Hint(mac: Mac)
      requires Valid()
      modifies this
      ensures Valid() && Value() == Hinted(old(Value()), mac)
      ensures resets == old(resets) + [mac]
    {
      LockTo(mac, true);
    }

    method Tick(mac: Mac, frames: nat, now: nat) returns (moved: bool)
      requires Valid()
      modifies this
      ensures Valid() && (Value(), moved) == Ticked(old(Value()), mac, frames, now)
      ensures resets == old(resets) + (if moved then [mac] else [])
    {
      if locked && fromHint {
        return false;
      }
      if mac == 0 {
        haveCand := false;
        return false;
      }
      if locked && lockedMac == mac {
        haveCand := false;
        return false;
      }
      if !haveCand || cand != mac {
        cand := mac;
        haveCand := true;
        candSince := now;
        return false;
      }
      if frames < BIND_FRAMES || now < candSince || now - candSince < STABLE_NS {
        return false;
      }
      LockTo(mac, false);
      haveCand := false;
      return true;
    }
  }

  // ---- over every run -----------------------------------------------------------------

  datatype Op = Hint(hint: Mac) | Tick(mac: Mac, frames: nat, now: nat)

  function Apply(b: Binding, op: Op): Binding {
    match op
    case Hint(mac) => Hinted(b, mac)
    case Tick(mac, frames, now) => Ticked(b, mac, frames, now).0
  }

  function After(ops: seq<Op>): Binding
    decreases |ops|
  {
    if ops == [] then Unbound else Apply(After(ops[..|ops| - 1]), ops[|ops| - 1])
  }

  /** The last operation is a tick that reported `mac`. */
  predicate EndsOn(ops: seq<Op>, mac: Mac) {
    ops != [] && ops[|ops| - 1].Tick? && ops[|ops| - 1].mac == mac
  }

  /** When the unbroken run of ticks reporting the last one's MAC began. */
  function HeldSince(ops: seq<Op>): nat
    requires ops != [] && ops[|ops| - 1].Tick?
    decreases |ops|
  {
    if EndsOn(ops[..|ops| - 1], ops[|ops| - 1].mac) then HeldSince(ops[..|ops| - 1])
    else ops[|ops| - 1].now
  }

  ghost predicate HasHint(ops: seq<Op>) { exists i :: 0 <= i < |ops| && ops[i].Hint? }

  lemma HasHintInit(ops: seq<Op>)
    requires ops != []
    ensures HasHint(ops) <==> HasHint(ops[..|ops| - 1]) || ops[|ops| - 1].Hint?
  {
  }

  /** What every run leaves: a hint's lock stands, and otherwise the candidate is the MAC the
    * unbroken run at the end has held, timed from that run's first tick. */
  lemma {:induction false} Timed(ops: seq<Op>)
    ensures var b := After(ops);
            && (HasHint(ops) <==> b.locked && b.fromHint)
            && (!HasHint(ops) && ops != [] ==>
                  var mac := ops[|ops| - 1].mac;
                  && (b.haveCand <==> mac != 0 && !(b.locked && b.lockedMac == mac))
                  && (b.haveCand ==> b.cand == mac && b.candSince == HeldSince(ops)))
            && (ops == [] ==> b == Unbound)
    decreases |ops|
  {
    if ops != [] {
      HasHintInit(ops);
      Timed(ops[..|ops| - 1]);
    }
  }

  /** A tick moves the lock exactly when no hint has locked the gate, enough frames were decoded,
    * and every tick for at least the stable span has reported this one MAC, which the lock is
    * not already on. */
  lemma TickMovesIff(ops: seq<Op>, mac: Mac, frames: nat, now: nat)
    ensures var b := After(ops);
            Ticked(b, mac, frames, now).1 <==>
              && !HasHint(ops) && mac != 0 && !(b.locked && b.lockedMac == mac)
              && BIND_FRAMES <= frames
              && EndsOn(ops, mac) && HeldSince(ops) + STABLE_NS <= now
  {
    Timed(ops);
  }

  /** The unbroken run is what it says: from some tick on, every operation is a tick that
    * reported the same MAC. */
  lemma {:induction false} HeldSinceIsARun(ops: seq<Op>) returns (j: nat)
    requires ops != [] && ops[|ops| - 1].Tick?
    ensures j < |ops| && ops[j].Tick? && ops[j].now == HeldSince(ops)
    ensures forall i :: j <= i < |ops| ==> ops[i].Tick? && ops[i].mac == ops[|ops| - 1].mac
    ensures 0 < j && ops[j - 1].Tick? ==> ops[j - 1].mac != ops[j].mac
    decreases |ops|
  {
    var init := ops[..|ops| - 1];
    j := |ops| - 1;
    if EndsOn(init, ops[j].mac) {
      j := HeldSinceIsARun(init);
      assert forall i :: j <= i < |init| ==> init[i] == ops[i];
    }
  }

  function LastHint(ops: seq<Op>): Mac
    decreases |ops|
  {
    if ops == [] then 0
    else if ops[|ops| - 1].Hint? then ops[|ops| - 1].hint
    else LastHint(ops[..|ops| - 1])
  }

  /** A lock the hint set is never changed by any sequence of ticks, only by another hint. */
  lemma {:induction false} HintStands(ops: seq<Op>)
    requires HasHint(ops)
    ensures After(ops).locked && After(ops).fromHint && After(ops).lockedMac == LastHint(ops)
    decreases |ops|
  {
    HasHintInit(ops);
    Timed(ops[..|ops| - 1]);
    if ops[|ops| - 1].Tick? {
      HintStands(ops[..|ops| - 1]);
    }
  }
}
