/** What a REAC master costs its port, which masters a port admits, and when the empty ones on it
  * give way. */
module LinkBudget {
  const FRAME_BYTES: nat := 1492
  const OVERHEAD_BYTES: nat := 24
  const SAMPLES_PER_PKT: nat := 12
  const MAX_LISTENERS: nat := 8
  const YIELD_MAX: nat := 32

  function CostKbit(pps: nat, frameBytes: nat): nat {
    if pps == 0 || frameBytes == 0 then 0
    else pps * (frameBytes + OVERHEAD_BYTES) * 8 / 1000
  }

  function MasterPps(rate: nat): nat { rate / SAMPLES_PER_PKT }

  /** A link whose speed is not known always fits. */
  predicate Fits(linkMbit: nat, used: nat, want: nat) {
    linkMbit == 0 || used + want <= linkMbit * 1000
  }

  function MasterCost(rate: nat): nat { CostKbit(MasterPps(rate), FRAME_BYTES) }

  /** Two masters of one rate share a 100 Mbit/s port exactly below 49476 Hz: at 44.1 and 48 kHz
    * they do, at 96 kHz they do not, whatever the header beside the code says. */
  lemma TwoMastersFitIff(rate: nat)
    ensures Fits(100, MasterCost(rate), MasterCost(rate)) <==> rate < 49476
    ensures MasterCost(48000) == 48512 && MasterCost(96000) == 97024
    ensures MasterCost(rate) == rate / 12 * (1492 + 24) * 8 / 1000
  {
    var pps := MasterPps(rate);
    assert MasterCost(rate) == pps * 12128 / 1000;
    if pps <= 4122 {
      assert pps * 12128 / 1000 <= 50000;
    } else {
      assert pps * 12128 / 1000 > 50000;
    }
  }

  // ---- the listeners of the daemon ----------------------------------------------------

  datatype Listener = Listener(isOpen: bool, sink: bool, port: string, source: string, rate: nat,
                               tap: bool, heard: bool, pastProbing: bool, recognized: bool,
                               pinned: bool)

  predicate Holds(l: Listener, port: string) { l.isOpen && l.sink && l.port == port }

  /** Probing at nobody: no frames arriving, no grant, no box recognised. */
  predicate Empty(l: Listener) {
    l.isOpen && l.sink && !l.tap && !l.heard && !l.pastProbing && !l.recognized
  }

  predicate Yields(l: Listener) { Empty(l) && !l.pinned }

  function CostOn(l: Listener, port: string): nat {
    if Holds(l, port) then MasterCost(l.rate) else 0
  }

  /** The cost committed on a port by the running engines. */
  function Committed(slots: seq<Listener>, port: string): nat
    decreases |slots|
  {
    if slots == [] then 0
    else Committed(slots[..|slots| - 1], port) + CostOn(slots[|slots| - 1], port)
  }

  function Closed(l: Listener): Listener { l.(isOpen := false, sink := false) }

  /** Every other holder of the port is empty and unpinned, and there is one. */
  ghost predicate MayYield(slots: seq<Listener>, taker: string, port: string) {
    && (exists i :: 0 <= i < |slots| && Holds(slots[i], port) && slots[i].source != taker)
    && (forall i :: 0 <= i < |slots| && Holds(slots[i], port) && slots[i].source != taker ==>
          Yields(slots[i]))
  }

  /** The port with every holder but the taker closed. */
  function Vacated(slots: seq<Listener>, taker: string, port: string): (r: seq<Listener>)
    ensures |r| == |slots|
  {
    seq(|slots|, i requires 0 <= i < |slots| =>
      if Holds(slots[i], port) && slots[i].source != taker then Closed(slots[i]) else slots[i])
  }

  /** One served segment, one listener. */
  ghost predicate Distinct(slots: seq<Listener>) {
    forall i, j :: 0 <= i < j < |slots| && slots[i].isOpen && slots[j].isOpen ==>
      slots[i].source != slots[j].source
  }

  ghost predicate Free(slots: seq<Listener>, source: string) {
    forall i :: 0 <= i < |slots| ==> !(slots[i].isOpen && slots[i].source == source)
  }

  /** What an open leaves of the other listeners, and whether the master is admitted. */
  ghost function Admission(slots: seq<Listener>, want: Listener, linkMbit: nat, wireHeard: bool)
    : (seq<Listener>, bool)
  {
    var cost := MasterCost(want.rate);
    if Fits(linkMbit, Committed(slots, want.port), cost) then (slots, true)
    else if wireHeard && MayYield(slots, want.source, want.port) then
      var left := Vacated(slots, want.source, want.port);
      (left, Fits(linkMbit, Committed(left, want.port), cost))
    else (slots, false)
  }

  class Hearing {
    var slots: seq<Listener>

    constructor (n: nat)
      requires n <= MAX_LISTENERS
      ensures Valid() && |slots| == n && forall i :: 0 <= i < n ==> !slots[i].isOpen
    {
      slots := seq(n, _ => Listener(false, false, "", "", 0, false, false, false, false, false));
    }

    ghost predicate Valid()
      reads this
    {
      |slots| <= MAX_LISTENERS && Distinct(slots)
    }

    /** What the other listeners' masters cost the port. */
    method LinkUsed(port: string, self: nat) returns (used: nat)
      requires self < |slots|
      ensures used == Committed(slots, port) - CostOn(slots[self], port)
    {
      used := 0;
      var i := 0;
      while i < |slots|
        invariant 0 <= i <= |slots|
        invariant used == Committed(slots[..i], port) - (if self < i then CostOn(slots[self], port) else 0)
      {
        assert slots[..i + 1][..i] == slots[..i];
        if i != self && Holds(slots[i], port) {
          used := used + CostKbit(MasterPps(slots[i].rate), FRAME_BYTES);
        }
        i := i + 1;
      }
      assert slots[..i] == slots;
    }

    /** The holders of the port, the taker apart, when all of them are empty and unpinned. */
    method Yielding(taker: string, port: string) returns (names: seq<string>)
      requires Valid()
      ensures names != [] <==> MayYield(slots, taker, port)
      ensures names != [] ==>
                forall s :: s in names <==>
                  exists i :: 0 <= i < |slots| && Holds(slots[i], port) && slots[i].source != taker
                              && slots[i].source == s
    {
      names := [];
      var i := 0;
      while i < |slots|
        invariant 0 <= i <= |slots| && |names| <= i
        invariant forall k :: 0 <= k < i && Holds(slots[k], port) && slots[k].source != taker ==>
                    Yields(slots[k]) && slots[k].source in names
        invariant forall s :: s in names ==>
                    exists k :: 0 <= k < i && Holds(slots[k], port) && slots[k].source != taker
                                && slots[k].source == s
      {
        if Holds(slots[i], port) && slots[i].source != taker {
          if !Empty(slots[i]) || slots[i].pinned {
            return [];
          }
          if |names| < YIELD_MAX {
            names := names + [slots[i].source];
          }
        }
        i := i + 1;
      }
      assert names != [] ==> names[0] in names;
    }

    /** Close the open listener of a segment, if there is one. */
    method Drop(name: string)
      requires Valid()
      modifies this
      ensures Valid() && |slots| == |old(slots)|
      ensures forall i :: 0 <= i < |slots| ==>
                slots[i] == if old(slots)[i].isOpen && old(slots)[i].source == name
                            then Closed(old(slots)[i]) else old(slots)[i]
    {
      var i := 0;
      while i < |slots| && !(slots[i].isOpen && slots[i].source == name)
        invariant 0 <= i <= |slots| && slots == old(slots)
        invariant forall k :: 0 <= k < i ==> !(slots[k].isOpen && slots[k].source == name)
      {
        i := i + 1;
      }
      if i < |slots| {
        slots := slots[i := Closed(slots[i])];
      }
    }

    /** All or nothing: the empty holders of the port all go back to listening, or none does. */
    method Yield(taker: string, port: string) returns (yielded: bool)
      requires Valid()
      modifies this
      ensures Valid()
      ensures yielded == MayYield(old(slots), taker, port)
      ensures slots == if yielded then Vacated(old(slots), taker, port) else old(slots)
    {
      var names := Yielding(taker, port);
      if names == [] {
        return false;
      }
      var k := 0;
      while k < |names|
        invariant 0 <= k <= |names| && Valid() && |slots| == |old(slots)|
        invariant forall i :: 0 <= i < |slots| ==>
                    slots[i] == if old(slots)[i].isOpen && old(slots)[i].source in names[..k]
                                then Closed(old(slots)[i]) else old(slots)[i]
      {
        Drop(names[k]);
        assert names[..k + 1] == names[..k] + [names[k]];
        k := k + 1;
      }
      assert names[..k] == names;
      forall i | 0 <= i < |slots| ensures slots[i] == Vacated(old(slots), taker, port)[i] {
        if old(slots)[i].isOpen && old(slots)[i].source in names {
          var j :| 0 <= j < |slots| && Holds(old(slots)[j], port) && old(slots)[j].source != taker
                   && old(slots)[j].source == old(slots)[i].source;
          assert i == j;
        }
      }
      return true;
    }

    /** Open a master engine on slot `i`: admitted when it fits, or when it fits after empty
      * neighbours gave way, which they do only for a wire that was heard. */
    method Open(i: nat, want: Listener, linkMbit: nat, wireHeard: bool) returns (admitted: bool)
      requires Valid() && i < |slots| && !slots[i].isOpen && Free(slots, want.source)
      modifies this
      ensures Valid()
      ensures (slots, admitted) == Opened(old(slots), i, want, linkMbit, wireHeard)
    {
      hide Committed, CostKbit, MasterPps, MayYield;
      var cost := CostKbit(MasterPps(want.rate), FRAME_BYTES);
      var used := LinkUsed(want.port, i);
      if !Fits(linkMbit, used, cost) && wireHeard {
        var yielded := Yield(want.source, want.port);
        if yielded {
          used := LinkUsed(want.port, i);
        }
      }
      if !Fits(linkMbit, used, cost) {
        return false;
      }
      slots := slots[i := want.(isOpen := true, sink := true)];
      return true;
    }

    /** A clean re-open at another rate: closed first, then admitted like any other. */
    method ReopenAtRate(i: nat, rate: nat, linkMbit: nat, wireHeard: bool) returns (admitted: bool)
      requires Valid() && i < |slots| && slots[i].isOpen
      modifies this
      ensures Valid()
      ensures (slots, admitted) == Reopened(old(slots), i, rate, linkMbit, wireHeard)
    {
      var want := slots[i].(rate := rate);
      slots := slots[i := Closed(slots[i])];
      admitted := Open(i, want, linkMbit, wireHeard);
    }
  }

  ghost function Opened(slots: seq<Listener>, i: nat, want: Listener, linkMbit: nat, wireHeard: bool)
    : (seq<Listener>, bool)
    requires i < |slots|
  {
    var (left, admitted) := Admission(slots, want, linkMbit, wireHeard);
    (if admitted then left[i := want.(isOpen := true, sink := true)] else left, admitted)
  }

  ghost function Reopened(slots: seq<Listener>, i: nat, rate: nat, linkMbit: nat, wireHeard: bool)
    : (seq<Listener>, bool)
    requires i < |slots|
  {
    Opened(slots[i := Closed(slots[i])], i, slots[i].(rate := rate), linkMbit, wireHeard)
  }

  // ---- a port stays within its link ----------------------------------------------------

  lemma {:induction false} CommittedUpdate(slots: seq<Listener>, i: nat, l: Listener, port: string)
    requires i < |slots|
    ensures Committed(slots[i := l], port)
         == Committed(slots, port) - CostOn(slots[i], port) + CostOn(l, port)
    decreases |slots|
  {
    var n := |slots| - 1;
    if i < n {
      CommittedUpdate(slots[..n], i, l, port);
      assert slots[i := l][..n] == slots[..n][i := l];
    } else {
      assert slots[i := l][..n] == slots[..n];
    }
  }

  lemma {:induction false} VacatedCosts(slots: seq<Listener>, taker: string, port: string, other: string)
    ensures Committed(Vacated(slots, taker, port), other) <= Committed(slots, other)
    ensures other != port ==> Committed(Vacated(slots, taker, port), other) == Committed(slots, other)
    decreases |slots|
  {
    if slots != [] {
      var n := |slots| - 1;
      VacatedCosts(slots[..n], taker, port, other);
      assert Vacated(slots, taker, port)[..n] == Vacated(slots[..n], taker, port);
    }
  }

  /** A yield empties the port but for the taker's own segment. */
  lemma {:induction false} VacatedIsEmpty(slots: seq<Listener>, taker: string, port: string)
    requires Free(slots, taker)
    ensures Committed(Vacated(slots, taker, port), port) == 0
    decreases |slots|
  {
    if slots != [] {
      var n := |slots| - 1;
      assert forall i :: 0 <= i < n ==> slots[..n][i] == slots[i];
      VacatedIsEmpty(slots[..n], taker, port);
      assert Vacated(slots, taker, port)[..n] == Vacated(slots[..n], taker, port);
    }
  }

  datatype Op =
    | OpOpen(i: nat, want: Listener, wireHeard: bool)
    | OpDrop(i: nat)
    | OpReopen(i: nat, rate: nat, wireHeard: bool)
    | OpFacts(i: nat, heard: bool, pastProbing: bool, recognized: bool)

  /** The operations hearing mode performs: an open on a free slot for a segment not served, a
    * close, a re-open, and what an engine hears and recognises meanwhile. */
  ghost predicate Allowed(slots: seq<Listener>, op: Op) {
    op.i < |slots| &&
    match op
    case OpOpen(i, want, _) => !slots[i].isOpen && Free(slots, want.source)
    case OpDrop(i) => true
    case OpReopen(i, _, _) => slots[i].isOpen
    case OpFacts(i, _, _, _) => true
  }

  ghost function Apply(slots: seq<Listener>, op: Op, link: string -> nat): seq<Listener>
    requires op.i < |slots|
  {
    match op
    case OpOpen(i, want, wireHeard) => Opened(slots, i, want, link(want.port), wireHeard).0
    case OpDrop(i) => slots[i := Closed(slots[i])]
    case OpReopen(i, rate, wireHeard) =>
      Reopened(slots, i, rate, link(slots[i].port), wireHeard).0
    case OpFacts(i, heard, past, recognized) =>
      slots[i := slots[i].(heard := heard, pastProbing := past, recognized := recognized)]
  }

  ghost predicate WithinLinks(slots: seq<Listener>, link: string -> nat) {
    forall port :: link(port) > 0 ==> Committed(slots, port) <= link(port) * 1000
  }

  lemma OpenedWithin(slots: seq<Listener>, i: nat, want: Listener, wireHeard: bool, link: string -> nat)
    requires i < |slots| && !slots[i].isOpen && WithinLinks(slots, link)
    ensures WithinLinks(Opened(slots, i, want, link(want.port), wireHeard).0, link)
  {
    var (left, admitted) := Admission(slots, want, link(want.port), wireHeard);
    forall port | link(port) > 0
      ensures Committed(Opened(slots, i, want, link(want.port), wireHeard).0, port) <= link(port) * 1000
    {
      VacatedCosts(slots, want.source, want.port, port);
      if admitted {
        CommittedUpdate(left, i, want.(isOpen := true, sink := true), port);
      }
    }
  }

  lemma ClosedWithin(slots: seq<Listener>, i: nat, link: string -> nat)
    requires i < |slots| && WithinLinks(slots, link)
    ensures WithinLinks(slots[i := Closed(slots[i])], link)
  {
    forall port | link(port) > 0
      ensures Committed(slots[i := Closed(slots[i])], port) <= link(port) * 1000
    {
      CommittedUpdate(slots, i, Closed(slots[i]), port);
    }
  }

  /** Every operation keeps every port of known speed within its link. */
  lemma EveryOperationStaysWithin(slots: seq<Listener>, op: Op, link: string -> nat)
    requires Allowed(slots, op) && WithinLinks(slots, link)
    ensures WithinLinks(Apply(slots, op, link), link)
  {
    match op
    case OpOpen(i, want, wireHeard) => OpenedWithin(slots, i, want, wireHeard, link);
    case OpDrop(i) => ClosedWithin(slots, i, link);
    case OpReopen(i, rate, wireHeard) =>
      ClosedWithin(slots, i, link);
      OpenedWithin(slots[i := Closed(slots[i])], i, slots[i].(rate := rate), wireHeard, link);
    case OpFacts(i, heard, past, recognized) =>
      forall port | link(port) > 0
        ensures Committed(Apply(slots, op, link), port) <= link(port) * 1000
      {
        CommittedUpdate(slots, i,
          slots[i].(heard := heard, pastProbing := past, recognized := recognized), port);
      }
  }

  ghost predicate Run(slots: seq<Listener>, ops: seq<Op>, link: string -> nat)
    decreases |ops|
  {
    ops == [] || (Allowed(slots, ops[0]) && Run(Apply(slots, ops[0], link), ops[1..], link))
  }

  ghost function After(slots: seq<Listener>, ops: seq<Op>, link: string -> nat): seq<Listener>
    requires Run(slots, ops, link)
    decreases |ops|
  {
    if ops == [] then slots else After(Apply(slots, ops[0], link), ops[1..], link)
  }

  /** Over every sequence of opens, yields, drops, rate re-opens and changes on the wire, the
    * masters on a port of known speed never cost more than the link carries. */
  lemma {:induction false} RunsStayWithinLinks(slots: seq<Listener>, ops: seq<Op>, link: string -> nat)
    requires Run(slots, ops, link) && WithinLinks(slots, link)
    ensures WithinLinks(After(slots, ops, link), link)
    decreases |ops|
  {
    if ops != [] {
      EveryOperationStaysWithin(slots, ops[0], link);
      RunsStayWithinLinks(Apply(slots, ops[0], link), ops[1..], link);
    }
  }

  /** An open touches a neighbour only for a wire with gear on it that did not fit, and then only
    * when every holder of the port was empty and unpinned: all of them are closed, no other
    * listener changes, and the taker is admitted exactly when it fits the port alone. */
  lemma YieldIsAllOrNothing(slots: seq<Listener>, want: Listener, linkMbit: nat, wireHeard: bool)
    requires Free(slots, want.source)
    ensures var (left, admitted) := Admission(slots, want, linkMbit, wireHeard);
            left != slots ==>
              && wireHeard && !Fits(linkMbit, Committed(slots, want.port), MasterCost(want.rate))
              && (forall i :: 0 <= i < |slots| && Holds(slots[i], want.port) ==>
                    Yields(slots[i]) && left[i] == Closed(slots[i]))
              && (forall i :: 0 <= i < |slots| && !Holds(slots[i], want.port) ==> left[i] == slots[i])
              && (admitted <==> Fits(linkMbit, 0, MasterCost(want.rate)))
  {
    var (left, admitted) := Admission(slots, want, linkMbit, wireHeard);
    if left != slots {
      VacatedIsEmpty(slots, want.source, want.port);
    }
  }

  // ---- an open, in the listeners' own facts ------------------------------------------------

  /** A listener that runs a master on the port for another segment than the taker's. */
  predicate Other(l: Listener, taker: string, port: string) {
    l.isOpen && l.sink && l.port == port && l.source != taker
  }

  /** It has heard nothing, granted nothing, recognised no box, and nobody pinned it there. */
  predicate GivesWay(l: Listener) {
    !l.tap && !l.heard && !l.pastProbing && !l.recognized && !l.pinned
  }

  /** An open is admitted beside the others when the port has room for its cost, or its speed is not
    * known, and touches nobody.  Without room it is refused and touches nobody, unless its wire was
    * heard and there are others and all of them give way: then they go, and it is admitted exactly
    * when the port has room for it alone. */
  lemma OpenFacts(slots: seq<Listener>, want: Listener, linkMbit: nat, wireHeard: bool)
    requires Free(slots, want.source)
    ensures var (left, admitted) := Admission(slots, want, linkMbit, wireHeard);
            var cost := want.rate / 12 * (1492 + 24) * 8 / 1000;
            var room := linkMbit == 0 || Committed(slots, want.port) + cost <= linkMbit * 1000;
            var give := wireHeard
                        && (exists i :: 0 <= i < |slots| && Other(slots[i], want.source, want.port))
                        && (forall i :: 0 <= i < |slots| && Other(slots[i], want.source, want.port) ==>
                              GivesWay(slots[i]));
            && |left| == |slots|
            && (room || !give ==> left == slots && (admitted <==> room))
            && (!room && give ==>
                  && (admitted <==> cost <= linkMbit * 1000)
                  && forall i :: 0 <= i < |slots| ==>
                       left[i] == if Other(slots[i], want.source, want.port)
                                  then slots[i].(isOpen := false, sink := false) else slots[i])
  {
    hide Committed, Free;
    TwoMastersFitIff(want.rate);
    OthersHold(slots, want.source, want.port);
    VacatedIsEmpty(slots, want.source, want.port);
  }

  lemma OthersHold(slots: seq<Listener>, taker: string, port: string)
    ensures MayYield(slots, taker, port) <==>
              && (exists i :: 0 <= i < |slots| && Other(slots[i], taker, port))
              && (forall i :: 0 <= i < |slots| && Other(slots[i], taker, port) ==> GivesWay(slots[i]))
  {
    if exists i :: 0 <= i < |slots| && Other(slots[i], taker, port) {
      var i :| 0 <= i < |slots| && Other(slots[i], taker, port);
      assert Holds(slots[i], port);
    }
    if exists i :: 0 <= i < |slots| && Holds(slots[i], port) && slots[i].source != taker {
      var i :| 0 <= i < |slots| && Holds(slots[i], port) && slots[i].source != taker;
      assert Other(slots[i], taker, port);
    }
    forall i | 0 <= i < |slots| ensures Other(slots[i], taker, port) <==> Holds(slots[i], port) && slots[i].source != taker {
    }
  }

  /** What is committed on a port counts every master on it. */
  lemma {:induction false} CommittedCounts(slots: seq<Listener>, port: string, i: nat, j: nat)
    requires i < j < |slots|
    ensures CostOn(slots[i], port) + CostOn(slots[j], port) <= Committed(slots, port)
    decreases |slots|
  {
    var n := |slots| - 1;
    if j < n {
      CommittedCounts(slots[..n], port, i, j);
    } else {
      CommittedCountsOne(slots[..n], port, i);
    }
  }

  lemma {:induction false} CommittedCountsOne(slots: seq<Listener>, port: string, i: nat)
    requires i < |slots|
    ensures CostOn(slots[i], port) <= Committed(slots, port)
    decreases |slots|
  {
    if i < |slots| - 1 {
      CommittedCountsOne(slots[..|slots| - 1], port, i);
    }
  }

  /** And nothing but them. */
  lemma {:induction false} CommittedIsTheirs(slots: seq<Listener>, port: string)
    requires forall i :: 0 <= i < |slots| ==> !(slots[i].isOpen && slots[i].sink && slots[i].port == port)
    ensures Committed(slots, port) == 0
    decreases |slots|
  {
    if slots != [] {
      CommittedIsTheirs(slots[..|slots| - 1], port);
    }
  }

  /** So no run ends with two 96 kHz masters on one 100 Mbit/s port. */
  lemma NoTwoFastMasters(slots: seq<Listener>, ops: seq<Op>, link: string -> nat, port: string, i: nat, j: nat)
    requires Run(slots, ops, link) && WithinLinks(slots, link) && link(port) == 100
    requires i < j < |After(slots, ops, link)|
    ensures var l, m := After(slots, ops, link)[i], After(slots, ops, link)[j];
            !(l.isOpen && l.sink && l.port == port && l.rate == 96000
              && m.isOpen && m.sink && m.port == port && m.rate == 96000)
  {
    RunsStayWithinLinks(slots, ops, link);
    TwoMastersFitIff(96000);
    CommittedCounts(After(slots, ops, link), port, i, j);
  }

  /** Admitted, the slot runs the master it was opened for, and refused, none. */
  lemma OpenedSlot(slots: seq<Listener>, i: nat, want: Listener, linkMbit: nat, wireHeard: bool)
    requires i < |slots| && !slots[i].isOpen && Free(slots, want.source)
    ensures var (after, admitted) := Opened(slots, i, want, linkMbit, wireHeard);
            && |after| == |slots|
            && (if admitted then after[i] == want.(isOpen := true, sink := true) else !after[i].isOpen)
            && forall j :: 0 <= j < |slots| && j != i ==>
                 after[j] == Admission(slots, want, linkMbit, wireHeard).0[j]
  {
    OpenFacts(slots, want, linkMbit, wireHeard);
  }

  /** A re-open leaves its segment at the new rate, on the same port, or closed, and is admitted as if
    * it had not been open. */
  lemma ReopenedSlot(slots: seq<Listener>, i: nat, rate: nat, linkMbit: nat, wireHeard: bool)
    requires i < |slots| && slots[i].isOpen && Distinct(slots)
    ensures var (after, admitted) := Reopened(slots, i, rate, linkMbit, wireHeard);
            var closed := slots[i := slots[i].(isOpen := false, sink := false)];
            && |after| == |slots|
            && (if admitted then after[i] == slots[i].(rate := rate, isOpen := true, sink := true)
                else !after[i].isOpen)
            && (admitted <==> Admission(closed, slots[i].(rate := rate), linkMbit, wireHeard).1)
  {
    var closed := slots[i := slots[i].(isOpen := false, sink := false)];
    OpenedSlot(closed, i, slots[i].(rate := rate), linkMbit, wireHeard);
  }
}
