/** A push is counted exactly when a whole transfer left, read off the history of the wire and
  * not off the counters. */
module KnockPushes {
  import opened KnockModel

  predicate LeftAs(e: Event, emit: Emit) { e.Frame? && e.emit == emit && e.fate.Left? }

  function ChunksLeft(log: seq<Event>): nat {
    if log == [] then 0
    else ChunksLeft(log[..|log| - 1]) + (if LeftAs(log[|log| - 1], SceneChunk) then 1 else 0)
  }

  /** Nothing about `e` breaks a transfer whose header has left: no new knock, no other header,
    * no scene frame late or refused. */
  predicate Carries(e: Event) {
    e.Frame? && !e.emit.SceneHead? && (e.emit.Scene() ==> e.fate.Left?)
  }

  /** The header at `h` left, nothing since has broken its transfer, and no final since has
    * found it whole. */
  ghost predicate OpenHead(log: seq<Event>, h: nat) {
    && h < |log| && LeftAs(log[h], SceneHead)
    && (forall j :: h < j < |log| ==> Carries(log[j]))
    && (forall j :: h < j < |log| && LeftAs(log[j], SceneTail) ==>
          ChunksLeft(log[h + 1..j]) != SCENE_CHUNKS)
  }

  /** The last event is a final that left, its header left, and exactly the transfer's chunks
    * left between them with nothing late or refused. */
  ghost predicate Completes(log: seq<Event>, e: Event) {
    LeftAs(e, SceneTail) && exists h :: OpenHead(log, h) && ChunksLeft(log[h + 1..]) == SCENE_CHUNKS
  }

  ghost function Pushes(log: seq<Event>): nat {
    if log == [] then 0
    else Pushes(log[..|log| - 1])
         + (if Completes(log[..|log| - 1], log[|log| - 1]) then 1 else 0)
  }

  /** The transfer counters say where the transfer is. */
  ghost predicate Follows(log: seq<Event>, t: Tally) {
    && t.pushes == Pushes(log)
    && (t.headSent ==> exists h :: OpenHead(log, h) && ChunksLeft(log[h + 1..]) == t.chunksSent)
    && (!t.headSent ==> forall h :: !OpenHead(log, h))
  }

  lemma ChunksLeftAppend(log: seq<Event>, h: nat, e: Event)
    requires h < |log|
    ensures ChunksLeft((log + [e])[h + 1..])
         == ChunksLeft(log[h + 1..]) + (if LeftAs(e, SceneChunk) then 1 else 0)
  {
    assert (log + [e])[h + 1..] == log[h + 1..] + [e];
    assert (log[h + 1..] + [e])[..|log| - h - 1] == log[h + 1..];
  }

  lemma PushesAppend(log: seq<Event>, e: Event)
    ensures Pushes(log + [e]) == Pushes(log) + (if Completes(log, e) then 1 else 0)
  {
  }

  /** A transfer open before an event is open after it exactly when the event carries it on
    * and is not the final that completes it. */
  lemma OpenHeadAppend(log: seq<Event>, e: Event, h: nat)
    requires h < |log|
    ensures OpenHead(log + [e], h) <==>
              OpenHead(log, h) && Carries(e)
              && (LeftAs(e, SceneTail) ==> ChunksLeft(log[h + 1..]) != SCENE_CHUNKS)
  {
    var after := log + [e];
    assert after[h + 1..|log|] == log[h + 1..];
    assert forall j :: h < j < |log| ==> after[j] == log[j];
    if OpenHead(after, h) {
      forall j | h < j < |log| && LeftAs(log[j], SceneTail)
        ensures ChunksLeft(log[h + 1..j]) != SCENE_CHUNKS
      {
        assert LeftAs(after[j], SceneTail) && after[h + 1..j] == log[h + 1..j];
      }
      assert after[|log|] == e;
    } else if OpenHead(log, h) {
      forall j | h < j < |log| && LeftAs(after[j], SceneTail)
        ensures ChunksLeft(after[h + 1..j]) != SCENE_CHUNKS
      {
        assert LeftAs(log[j], SceneTail) && after[h + 1..j] == log[h + 1..j];
      }
    }
  }

  lemma OneOpenHead(log: seq<Event>, g: nat, h: nat)
    requires OpenHead(log, g) && OpenHead(log, h)
    ensures g == h
  {
  }

  lemma OpenedFollows(log: seq<Event>, t: Tally, at: nat)
    requires Follows(log, t)
    ensures Follows(log + [Opened(at)], t.(headSent := false, chunksSent := 0))
  {
  }

  /** One control slot keeps the counters and the history together. */
  lemma FrameFollows(log: seq<Event>, t: Tally, e: Event)
    requires Follows(log, t) && e.Frame?
    ensures Follows(log + [e], Transferred(Counted(t, e.fate), e.emit, e.fate))
  {
    var u := Transferred(Counted(t, e.fate), e.emit, e.fate);
    var after := log + [e];
    PushesAppend(log, e);
    forall h: nat | h < |log| ensures OpenHead(after, h) <==>
        OpenHead(log, h) && Carries(e)
        && (LeftAs(e, SceneTail) ==> ChunksLeft(log[h + 1..]) != SCENE_CHUNKS)
    {
      OpenHeadAppend(log, e, h);
    }
    if LeftAs(e, SceneHead) {
      assert after[|log| + 1..] == [];
      assert OpenHead(after, |log|);
    } else if t.headSent {
      var h :| OpenHead(log, h) && ChunksLeft(log[h + 1..]) == t.chunksSent;
      ChunksLeftAppend(log, h, e);
      forall g | OpenHead(log, g) ensures g == h {
        OneOpenHead(log, g, h);
      }
      if u.headSent {
        assert OpenHead(after, h);
      }
    }
  }

  lemma {:induction false} RunLoopFollows(c: Cadence, k: Knock, now: nat, wire: Wire)
    requires Follows(k.log, k.tally)
    ensures var r := RunLoop(c, k, now, wire); Follows(r.log, r.tally)
    decreases TimeLeft(k.pos, now), StepsLeft(c, k.pos, now)
  {
    if Ready(c, k.pos, now) {
      TickProgress(c, k.pos, now);
      TickFollows(c, k, now, wire);
      RunLoopFollows(c, Tick(c, k, now, wire), now, wire);
    }
  }

  lemma TickFollows(c: Cadence, k: Knock, now: nat, wire: Wire)
    requires Follows(k.log, k.tally)
    ensures var t := Tick(c, k, now, wire); Follows(t.log, t.tally)
  {
    var t := Tick(c, k, now, wire);
    if k.pos.resting {
      OpenedFollows(k.log, k.tally, k.pos.next);
    } else if k.pos.slot < |c.cycle| && c.cycle[k.pos.slot].Control() {
      FrameFollows(k.log, k.tally, t.log[|k.log|]);
    }
  }
}
