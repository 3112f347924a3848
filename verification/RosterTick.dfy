/** The roster node on the graph and the timer that keeps it in step with the segments: the node
  * can only merge what it is told, its server can go at any time, and making one can fail. */
module RosterTick {
  import opened RosterTable
  import opened RosterDelta
  import opened Roster

  // ---- the protocol on values ---------------------------------------------------------------

  datatype Slot = NoNode | Node(onGraph: bool, props: map<string, string>)

  /** What the daemon keeps between two ticks: its node, how often it looked for one, and the
    * roster it believes the node carries. */
  datatype Daemon = Daemon(node: Slot, ticks: nat, pub: seq<Seg>)

  /** What the world answers in one tick: whether a node can be made when there is none, whether
    * one can be made in place of another, whether publishing finds memory, and the wires found. */
  datatype World = World(opens: bool, rebuilds: bool, allocates: bool, wires: seq<Entry>)

  /** What a new node carries. */
  const Bare: map<string, string> := map["reac.roster" := "1"]

  predicate Removes(kvs: seq<Kv>) { exists i :: 0 <= i < |kvs| && kvs[i].remove }

  function Swept(d: Daemon): Daemon {
    if d.node.Node? && !d.node.onGraph then Daemon(NoNode, d.ticks, []) else d
  }

  function Sought(d: Daemon, opens: bool): Daemon {
    if d.node.Node? then d
    else Daemon(if d.ticks % 10 == 0 && opens then Node(true, Bare) else NoNode, d.ticks + 1, d.pub)
  }

  function Cleared(d: Daemon, want: seq<Seg>, rebuilds: bool): Daemon {
    if |want| < |d.pub| then Daemon(if rebuilds then Node(true, Bare) else NoNode, d.ticks, []) else d
  }

  /** The delta handed to the node, or none when there is nothing to hand it. */
  function Offer(d: Daemon, want: seq<Seg>): seq<Kv> {
    var kvs := Delta(d.pub, want);
    if d.node.NoNode? || |kvs| > KV_MAX then [] else kvs
  }

  function Told(d: Daemon, want: seq<Seg>, allocates: bool): Daemon {
    var kvs := Offer(d, want);
    if kvs == [] || Removes(kvs) || !allocates then d
    else Daemon(Node(d.node.onGraph, Applied(d.node.props, kvs)), d.ticks, want)
  }

  lemma NobodyToTell(d: Daemon, w: World)
    requires d.node.NoNode?
    ensures Told(d, Collected(w.wires), w.allocates) == d
  {
  }

  /** The node this tick has to tell, before it is told. */
  function Ready(d: Daemon, w: World): Daemon {
    var sought := Sought(Swept(d), w.opens);
    if sought.node.NoNode? then sought else Cleared(sought, Collected(w.wires), w.rebuilds)
  }

  function Ticked(d: Daemon, w: World): Daemon { Told(Ready(d, w), Collected(w.wires), w.allocates) }

  /** The node of before the tick is the node after it. */
  predicate Stays(d: Daemon, w: World) {
    d.node.Node? && d.node.onGraph && |d.pub| <= |Collected(w.wires)|
  }

  // ---- one tick --------------------------------------------------------------------------------

  /** No node means nothing recorded as published; a node carries exactly what is. */
  ghost predicate InStep(d: Daemon) {
    && |d.pub| <= ROSTER_MAX
    && (d.node.NoNode? ==> d.pub == [])
    && (d.node.Node? ==> d.node.props == Render(d.pub))
  }

  lemma BareIsRendered()
    ensures Render([]) == Bare
  {
  }

  lemma ReadyInStep(d: Daemon, w: World)
    requires InStep(d)
    ensures var r := Ready(d, w);
            InStep(r) && (r.node.Node? ==> |r.pub| <= |Collected(w.wires)|)
    ensures Stays(d, w) ==> Ready(d, w) == d
    ensures !Stays(d, w) ==> Ready(d, w).pub == []
    ensures !Stays(d, w) && Ready(d, w).node.Node? ==> Ready(d, w).node == Node(true, Bare)
  {
  }

  /** Whatever reaches the node fits the caller's table and asks for no removal. */
  lemma NoRemovalIsOffered(d: Daemon, w: World)
    requires InStep(d)
    ensures var kvs := Offer(Ready(d, w), Collected(w.wires));
            !Removes(kvs) && |kvs| <= KV_MAX
            && (Ready(d, w).node.Node? ==> kvs == Delta(Ready(d, w).pub, Collected(w.wires)))
  {
    hide Render, Collected, Delta, Ready;
    var r, want := Ready(d, w), Collected(w.wires);
    ReadyInStep(d, w);
    CollectedSorted(w.wires);
    if r.node.Node? {
      RemovalIffShrank(r.pub, want);
      DeltaFits(r.pub, want);
    }
  }

  /** What the node carries after the tick: the roster of this tick when it could be told, and
    * what it carried before otherwise. */
  lemma TickedNode(d: Daemon, w: World)
    requires InStep(d)
    ensures var r, after, want := Ready(d, w), Ticked(d, w), Collected(w.wires);
            && after.ticks == r.ticks && after.node.Node? == r.node.Node?
            && (r.node.Node? ==> after.node.onGraph == r.node.onGraph)
            && (after.node.NoNode? ==> after.pub == [])
            && (after.node.Node? && w.allocates ==> after.node.props == Render(want))
            && (after.node.Node? && w.allocates ==> Render(after.pub) == Render(want))
            && (!w.allocates ==> after == r)
            && |after.pub| <= ROSTER_MAX
  {
    hide Render, Collected, Delta, Ready;
    var r, want := Ready(d, w), Collected(w.wires);
    ReadyInStep(d, w);
    NoRemovalIsOffered(d, w);
    CollectedSorted(w.wires);
    if r.node.Node? {
      EmptyDeltaIff(r.pub, want);
      DeltaGivesTheWanted(r.pub, want);
      assert want == [] ==> r.pub == [];
    }
  }

  /** Key by key: after a tick that could publish, a node says what was found of each wire of that
    * tick, under that wire's keys, and nothing of any other. */
  lemma TickCarries(d: Daemon, w: World)
    requires InStep(d) && Ticked(d, w).node.Node? && w.allocates
    ensures Carries(Ticked(d, w).node.props, Collected(w.wires))
    ensures CarriesNoMore(Ticked(d, w).node.props, Collected(w.wires))
  {
    hide Render, Collected, Ready, Ticked, Carries, CarriesNoMore;
    TickedNode(d, w);
    RenderCarries(Collected(w.wires));
  }

  lemma TickKeepsInStep(d: Daemon, w: World)
    requires InStep(d)
    ensures InStep(Ticked(d, w))
  {
    hide Render, Collected, Delta, Ready;
    ReadyInStep(d, w);
    TickedNode(d, w);
    NoRemovalIsOffered(d, w);
  }

  /** A tick leaves its node carrying exactly the roster of that tick unless publishing found no
    * memory and the node did not carry that roster already. */
  lemma TickShowsTheWiresIff(d: Daemon, w: World)
    requires InStep(d) && Ticked(d, w).node.Node?
    ensures Ticked(d, w).node.props == Render(Collected(w.wires))
            <==> w.allocates || (if Stays(d, w) then d.node.props else Bare) == Render(Collected(w.wires))
  {
    hide Render, Collected, Delta, Ready, Told;
    ReadyInStep(d, w);
    TickedNode(d, w);
  }

  /** The node changes only because its server went, a segment left, or there was none. */
  lemma NodeMovesOnlyFor(d: Daemon, w: World)
    requires InStep(d)
    ensures Stays(d, w) ==> Ticked(d, w).node.Node? && Ticked(d, w).node.onGraph
    ensures !Stays(d, w) && d.node.Node? && d.node.onGraph ==>
              Ticked(d, w).node.Node? == w.rebuilds && Ticked(d, w).ticks == d.ticks
    ensures !(d.node.Node? && d.node.onGraph) ==>
              Ticked(d, w).node.Node? == (d.ticks % 10 == 0 && w.opens)
              && Ticked(d, w).ticks == d.ticks + 1
    ensures Ticked(d, w).node.Node? ==> Ticked(d, w).node.onGraph
  {
  }

  // ---- runs ------------------------------------------------------------------------------------

  datatype Event = ServerLost | Tick(world: World)

  function Lost(d: Daemon): Daemon { if d.node.Node? then d.(node := d.node.(onGraph := false)) else d }

  function After(d: Daemon, e: Event): Daemon { if e.Tick? then Ticked(d, e.world) else Lost(d) }

  function Run(d: Daemon, es: seq<Event>): Daemon
    decreases |es|
  {
    if es == [] then d else After(Run(d, es[..|es| - 1]), es[|es| - 1])
  }

  /** Every delta the run handed to a node. */
  function Offers(d: Daemon, es: seq<Event>): seq<seq<Kv>>
    decreases |es|
  {
    if es == [] then []
    else
      var init, e := es[..|es| - 1], es[|es| - 1];
      Offers(d, init)
      + if e.Tick? then [Offer(Ready(Run(d, init), e.world), Collected(e.world.wires))] else []
  }

  const Start: Daemon := Daemon(NoNode, 0, [])

  /** In every run a node carries exactly the last roster committed, there is nothing recorded
    * as published while there is no node, and no delta with a removal reaches one. */
  lemma {:induction false} RunsStayInStep(d: Daemon, es: seq<Event>)
    requires InStep(d)
    ensures InStep(Run(d, es))
    ensures forall i :: 0 <= i < |Offers(d, es)| ==> !Removes(Offers(d, es)[i]) && |Offers(d, es)[i]| <= KV_MAX
    decreases |es|
  {
    hide Render, Ticked, Ready, Offer, Removes, Collected;
    if es != [] {
      var init, e := es[..|es| - 1], es[|es| - 1];
      RunsStayInStep(d, init);
      if e.Tick? {
        TickKeepsInStep(Run(d, init), e.world);
        NoRemovalIsOffered(Run(d, init), e.world);
      }
    }
  }

  /** Ticks in a world where nodes can be made. */
  ghost predicate Up(es: seq<Event>) {
    forall i :: 0 <= i < |es| ==> es[i].Tick? && es[i].world.opens && es[i].world.rebuilds
  }

  function ToWait(d: Daemon): nat {
    if d.node.Node? && d.node.onGraph then 0 else (10 - d.ticks % 10) % 10
  }

  /** While nodes can be made, one is there from the next tenth look on, and never before. */
  lemma {:induction false} NodeIsBackIff(d: Daemon, es: seq<Event>)
    requires InStep(d) && Up(es) && es != []
    ensures var after := Run(d, es);
            (after.node.Node? <==> ToWait(d) < |es|)
            && (after.node.Node? ==> after.node.onGraph)
            && (after.node.NoNode? ==> after.ticks == d.ticks + |es|)
    decreases |es|
  {
    hide InStep, Ticked, Stays, Collected, Render;
    var init, e := es[..|es| - 1], es[|es| - 1];
    var before := Run(d, init);
    RunsStayInStep(d, init);
    NodeMovesOnlyFor(before, e.world);
    if init != [] {
      NodeIsBackIff(d, init);
    }
  }

  /** After ten ticks of a world that has its server back, the node is on the graph and shows
    * exactly the wires of the last of them, whatever happened before. */
  lemma TenTicksCatchUp(past: seq<Event>, es: seq<Event>)
    requires Up(es) && |es| >= 10 && es[|es| - 1].world.allocates
    ensures var after := Run(Run(Start, past), es);
            after.node == Node(true, Render(Collected(es[|es| - 1].world.wires)))
  {
    hide Render, Ticked, Ready, Collected;
    BareIsRendered();
    RunsStayInStep(Start, past);
    var d, init, w := Run(Start, past), es[..|es| - 1], es[|es| - 1].world;
    NodeIsBackIff(d, es);
    RunsStayInStep(d, init);
    TickShowsTheWiresIff(Run(d, init), w);
  }

  // ---- the daemon -------------------------------------------------------------------------------

  class RosterNode {
    var onGraph: bool
    var props: map<string, string>

    constructor ()
      ensures onGraph && props == Bare
    {
      onGraph, props := true, Bare;
    }

    /** Merge a delta into what the node carries; one that asks for a removal changes nothing. */
    method Publish(kv: array<Kv>, n: int, allocates: bool) returns (ok: bool)
      requires n <= kv.Length
      modifies this`props
      ensures ok == (0 < n && !Removes(kv[..n]) && allocates)
      ensures props == if ok then Applied(old(props), kv[..n]) else old(props)
    {
      if n <= 0 {
        return false;
      }
      var i := 0;
      while i < n
        invariant 0 <= i <= n && forall j :: 0 <= j < i ==> !kv[j].remove
        invariant props == old(props)
      {
        if kv[i].remove {
          return false;
        }
        i := i + 1;
      }
      if !allocates {
        return false;
      }
      i := 0;
      while i < n
        invariant 0 <= i <= n && props == Applied(old(props), kv[..i])
      {
        assert kv[..i + 1][..i] == kv[..i];
        props := props[kv[i].key := kv[i].val];
        i := i + 1;
      }
      return true;
    }

    /** The node is on the graph no longer. */
    method Lose()
      modifies this`onGraph
      ensures !onGraph
    {
      onGraph := false;
    }
  }

  class RosterDaemon {
    const roster: Roster
    var node: RosterNode?
    var ticks: nat

    ghost function State(): Daemon
      requires roster.Valid()
      reads this, roster, roster.pub, roster.want, node
    {
      Daemon(if node == null then NoNode else Node(node.onGraph, node.props), ticks, roster.Pub())
    }

    ghost predicate Valid()
      reads this, roster, roster.pub, roster.want, node
    {
      roster.Valid() && InStep(State())
    }

    constructor ()
      ensures Valid() && State() == Start
      ensures fresh(roster) && fresh(roster.pub) && fresh(roster.want)
    {
      roster := new Roster();
      node, ticks := null, 0;
      new;
      BareIsRendered();
    }

    /** The wires this daemon knows of, into the wanted roster. */
    method Collect(wires: seq<Entry>)
      requires roster.Valid()
      modifies roster`nWant, roster`overflow, roster.want
      ensures roster.Valid() && roster.Want() == Collected(wires) && roster.Pub() == old(roster.Pub())
    {
      hide Added, Said, Accepts, Fit, RowFits;
      roster.Begin();
      var i := 0;
      while i < |wires|
        invariant 0 <= i <= |wires|
        invariant roster.Valid() && roster.Want() == Collected(wires[..i]) && roster.Pub() == old(roster.Pub())
      {
        assert wires[..i + 1][..i] == wires[..i];
        var ok := roster.Add(wires[i]);
        if ok && wires[i].said != "" {
          var _ := roster.Status(wires[i].name, wires[i].said);
        }
        i := i + 1;
      }
      assert wires[..|wires|] == wires;
    }

    method Tick(w: World)
      requires Valid()
      modifies this, roster, roster.pub, roster.want, if node == null then {} else {node}
      ensures Valid() && State() == Ticked(old(State()), w)
      ensures if Stays(old(State()), w) then node == old(node) else node == null || fresh(node)
      ensures node != null && w.allocates ==>
                Carries(node.props, Collected(w.wires)) && CarriesNoMore(node.props, Collected(w.wires))
    {
      hide Render, Collected, Told, RowFits, Fit, Carries, CarriesNoMore;
      TickKeepsInStep(State(), w);
      if Ticked(State(), w).node.Node? && w.allocates {
        TickCarries(State(), w);
      }
      FindNode(w.opens);
      if node == null {
        NobodyToTell(State(), w);
        return;
      }
      Collect(w.wires);
      MakeWay(w.rebuilds);
      if node == null {
        NobodyToTell(State(), w);
        return;
      }
      Tell(w.allocates);
    }

    /** A node whose server went is destroyed, and every tenth tick without one makes one. */
    method FindNode(opens: bool)
      requires roster.Valid()
      modifies this, roster`nPub, roster.pub
      ensures roster.Valid() && State() == Sought(Swept(old(State())), opens)
      ensures if Swept(old(State())).node.Node? then node == old(node) else node == null || fresh(node)
    {
      if node != null && !node.onGraph {
        node := null;
        roster.Forget();
      }
      if node == null {
        ticks := ticks + 1;
        if (ticks - 1) % 10 == 0 && opens {
          node := new RosterNode();
        }
      }
    }

    /** A node that carries more rows than are wanted is replaced by a bare one. */
    method MakeWay(rebuilds: bool)
      requires roster.Valid() && node != null
      modifies this`node, roster`nPub, roster.pub
      ensures roster.Valid() && roster.Want() == old(roster.Want())
      ensures State() == Cleared(old(State()), roster.Want(), rebuilds)
      ensures if |roster.Want()| < |old(roster.Pub())| then node == null || fresh(node) else node == old(node)
    {
      var shrank := roster.Shrank();
      if shrank {
        node := null;
        roster.Forget();
        if rebuilds {
          node := new RosterNode();
        }
      }
    }

    /** Publish what moved and, only when it was published, record it as what the node carries. */
    method Tell(allocates: bool)
      requires roster.Valid() && node != null
      modifies roster`nPub, roster.pub, node`props
      ensures roster.Valid() && State() == Told(old(State()), old(roster.Want()), allocates)
    {
      hide Removes, Delta;
      var kv := new Kv[KV_MAX](_ => Kv("", "", false));
      var n := roster.Delta(kv, KV_MAX);
      if n <= 0 {
        return;
      }
      var ok := node.Publish(kv, n, allocates);
      if ok {
        roster.Commit();
      }
    }
  }
}
