/** The roster as the daemon keeps it: what the node carries, what this tick wants, and the delta
  * between them. */
module Roster {
  import opened Text
  import opened RosterTable
  import opened RosterDelta

  /** The texts of a row fit the buffers they are kept in. */
  predicate RowFits(s: Seg) {
    |s.name| < IFNAMSIZ && |s.model| < 32 && |s.role| < 16 && |s.source| < 112 && |s.status| < 112
  }

  ghost predicate RowsFit(t: seq<Seg>) { forall i :: 0 <= i < |t| ==> RowFits(t[i]) }

  lemma RowFitsDelta(s: Seg, f: nat)
    requires RowFits(s) && f < FIELDS
    ensures |FieldVal(s, f)| < 112
  {
    hide Dec, DecInt, StateName, StateSaid;
    StateSaidFits(s.state);
    if f == 5 {
      Int32Length(s.in_);
      Int32Length(s.out);
    }
  }

  lemma StateSaidFits(s: SegState)
    ensures |StateName(s)| < 112 && |StateSaid(s)| < 112
  {
    hide StateSaid;
    if s.Listening? || s.Knocking? || s.Trunk? {
      SilentSaidFits(s);
    } else if s.Probing? || s.Established? || s.Slave? {
      ServedSaidFits(s);
    } else {
      UnservedSaidFits(s);
    }
  }

  lemma SilentSaidFits(s: SegState)
    requires s.Listening? || s.Knocking? || s.Trunk?
    ensures |StateSaid(s)| < 112
  {
  }

  lemma ServedSaidFits(s: SegState)
    requires s.Probing? || s.Established? || s.Slave?
    ensures |StateSaid(s)| < 112
  {
  }

  lemma UnservedSaidFits(s: SegState)
    requires s.Tap? || s.Refused? || s.Ignored?
    ensures |StateSaid(s)| < 112
  {
  }

  lemma Int32Length(n: int)
    requires -0x8000_0000 <= n <= 0x8000_0000
    ensures |DecInt(n)| <= 11
  {
    hide Dec;
    assert Pow10(10) == 10_000_000_000 by { assert Pow10(5) == 100_000; }
    DecLength(if n < 0 then -n else n, 10, Pow10(10));
  }

  lemma KeyFits(k: PropKey)
    requires Proper(k) && (k.GroupKey? ==> k.group < ROSTER_MAX)
    ensures |Printed(k)| < 40
  {
    if k.GroupKey? {
      assert Pow10(2) == 100;
      DecLength(k.group, 2, 100);
    }
  }

  /** Neither the key nor the value of an entry is cut by the buffer it is printed into. */
  lemma EntryFits(want: seq<Seg>, k: PropKey)
    requires Proper(k) && RowsFit(want) && |want| <= ROSTER_MAX
    requires k.GroupKey? ==> k.group < ROSTER_MAX
    ensures |EntryOf(want, k).key| < 40 && |EntryOf(want, k).val| < 112
  {
    hide Printed, FieldVal;
    KeyFits(k);
    if k.GroupKey? && k.group < |want| {
      RowFitsDelta(want[k.group], k.field);
    }
    assert Pow10(2) == 100;
    DecLength(|want|, 2, 100);
  }

  lemma CollectedRowFits(e: Entry)
    ensures RowFits(SegOf(e))
  {
  }

  const Blank: Seg := Seg("", Probing, "", "", "", 0, 0, "")

  class Roster {
    const pub: array<Seg>
    const want: array<Seg>
    var nPub: nat
    var nWant: nat
    var overflow: nat

    ghost predicate Valid()
      reads this, pub, want
    {
      && pub != want && pub.Length == ROSTER_MAX && want.Length == ROSTER_MAX
      && nPub <= ROSTER_MAX && nWant <= ROSTER_MAX
      && RowsFit(pub[..nPub]) && RowsFit(want[..nWant])
    }

    ghost function Pub(): seq<Seg>
      requires Valid()
      reads this, pub, want
    {
      pub[..nPub]
    }

    ghost function Want(): seq<Seg>
      requires Valid()
      reads this, pub, want
    {
      want[..nWant]
    }

    constructor ()
      ensures Valid() && Pub() == [] && Want() == [] && overflow == 0 && fresh(pub) && fresh(want)
    {
      pub := new Seg[ROSTER_MAX](_ => Blank);
      want := new Seg[ROSTER_MAX](_ => Blank);
      nPub, nWant, overflow := 0, 0, 0;
    }

    method Begin()
      requires Valid()
      modifies this`nWant, this`overflow
      ensures Valid() && Want() == [] && Pub() == old(Pub()) && overflow == 0
    {
      nWant := 0;
      overflow := 0;
    }

    /** The place a name belongs, and whether it is there already. */
    method Search(name: string) returns (at: nat, listed: bool)
      requires Valid()
      ensures at == Place(Want(), name) && listed == (at < nWant && want[at].name == name)
    {
      at := 0;
      while at < nWant && Less(want[at].name, name)
        invariant at <= nWant
        invariant forall i :: 0 <= i < at ==> Less(want[i].name, name)
      {
        at := at + 1;
      }
      PlaceIs(Want(), name, at);
      listed := at < nWant && want[at].name == name;
    }

    /** Add one segment in byte order of its name. */
    method Add(e: Entry) returns (ok: bool)
      requires Valid()
      modifies this`nWant, this`overflow, want
      ensures Valid() && Pub() == old(Pub())
      ensures ok == Accepts(old(Want()), e.name) && Want() == Added(old(Want()), e)
      ensures overflow == old(overflow) + (if e.name != "" && old(nWant) == ROSTER_MAX then 1 else 0)
    {
      if e.name == "" {
        return false;
      }
      if nWant >= ROSTER_MAX {
        overflow := overflow + 1;
        return false;
      }
      var at, listed := Search(e.name);
      if listed {
        return false;
      }
      CollectedRowFits(e);
      MakeRoom(at, SegOf(e));
      return true;
    }

    method MakeRoom(at: nat, s: Seg)
      requires Valid() && at <= nWant < ROSTER_MAX && RowFits(s)
      modifies this`nWant, want
      ensures Valid() && Pub() == old(Pub()) && overflow == old(overflow)
      ensures Want() == old(Want())[..at] + [s] + old(Want())[at..]
    {
      hide RowFits;
      ghost var t := Want();
      ShiftUp(want, at, nWant);
      want[at] := s;
      nWant := nWant + 1;
      Shifted(t, want[..nWant], at, s);
    }

    /** Say what was found on a segment of this tick. */
    method Status(name: string, text: string) returns (found: bool)
      requires Valid()
      modifies want
      ensures Valid() && Pub() == old(Pub()) && Want() == Said(old(Want()), name, text)
      ensures found == (Find(old(Want()), name) < nWant)
    {
      var i := 0;
      while i < nWant && want[i].name != name
        invariant i <= nWant
        invariant forall k :: 0 <= k < i ==> want[k].name != name
      {
        i := i + 1;
      }
      if i == nWant {
        return false;
      }
      ghost var t := Want();
      assert Find(t, name) == i;
      want[i] := want[i].(status := Fit(text, 112));
      assert want[..nWant] == t[i := t[i].(status := Fit(text, 112))];
      return true;
    }

    method Shrank() returns (shrank: bool)
      requires Valid()
      ensures shrank == (|Want()| < |Pub()|)
    {
      return nWant < nPub;
    }

    method Forget()
      requires Valid()
      modifies this`nPub, pub
      ensures Valid() && Pub() == [] && Want() == old(Want())
    {
      nPub := 0;
      forall i | 0 <= i < ROSTER_MAX {
        pub[i] := Blank;
      }
    }

    method Commit()
      requires Valid()
      modifies this`nPub, pub
      ensures Valid() && Pub() == Want() == old(Want())
    {
      forall i | 0 <= i < ROSTER_MAX {
        pub[i] := want[i];
      }
      nPub := nWant;
      assert pub[..nPub] == want[..nWant];
    }

    /** One entry into the caller's table, counted even when there is no room for it. */
    method Emit(out: array<Kv>, max: nat, n: nat, kv: Kv, ghost d: seq<Kv>) returns (next: nat)
      requires max <= out.Length && Holds(out, max, n, d)
      requires |kv.key| < 40 && |kv.val| < 112
      modifies out
      ensures Holds(out, max, next, d + [kv])
    {
      if n < max {
        out[n] := Kv(Fit(kv.key, 40), Fit(kv.val, 112), kv.remove);
      }
      return n + 1;
    }

    /** The whole delta in the caller's table, or -1 if the table is too small for it. */
    method Delta(out: array<Kv>, max: int) returns (n: int)
      requires Valid() && max <= out.Length
      modifies out
      ensures Valid() && Pub() == old(Pub()) && Want() == old(Want())
      ensures var d := RosterDelta.Delta(Pub(), Want());
              if max < 0 || max < |d| then n == -1 else n == |d| && out[..n] == d
    {
      hide Printed, FieldVal, Fit, RowFits, DeltaTo, Dec;
      if max < 0 {
        return -1;
      }
      ghost var P, W := Pub(), Want();
      var e: nat := 0;
      CountEntry(P, W);
      if nWant != nPub {
        e := Emit(out, max, e, Kv("reac.roster.n", Dec(nWant), false), []);
      }
      var i := 0;
      while i < nWant || i < nPub
        invariant 0 <= i <= (if nWant < nPub then nPub else nWant)
        invariant Pub() == P && Want() == W
        invariant Holds(out, max, e, DeltaTo(P, W, 1 + FIELDS * i))
        decreases (if nWant < nPub then nPub else nWant) - i
      {
        e := EmitGroup(out, max, e, i);
        i := i + 1;
      }
      if e > max {
        return -1;
      }
      return e;
    }

    /** The fields of one group: those that differ while it is wanted, all of them removed when
      * it is not. */
    method EmitGroup(out: array<Kv>, max: nat, n: nat, i: nat) returns (next: nat)
      requires Valid() && max <= out.Length && (i < nWant || i < nPub)
      requires Holds(out, max, n, DeltaTo(Pub(), Want(), 1 + FIELDS * i))
      modifies out
      ensures Holds(out, max, next, DeltaTo(Pub(), Want(), 1 + FIELDS * (i + 1)))
    {
      hide Printed, FieldVal, Fit, DeltaTo, RowFits;
      next := n;
      var f := 0;
      while f < FIELDS
        invariant 0 <= f <= FIELDS
        invariant Holds(out, max, next, DeltaTo(Pub(), Want(), 1 + FIELDS * i + f))
      {
        ghost var d := DeltaTo(Pub(), Want(), 1 + FIELDS * i + f);
        var k := GroupKey(i, f);
        NextEntry(Pub(), Want(), k);
        if i < nWant {
          if i >= nPub || FieldVal(want[i], f) != FieldVal(pub[i], f) {
            next := Emit(out, max, next, Kv(Printed(k), FieldVal(want[i], f), false), d);
          }
        } else {
          next := Emit(out, max, next, Kv(Printed(k), "", true), d);
        }
        f := f + 1;
      }
    }
  }

  lemma CountEntry(pub: seq<Seg>, want: seq<Seg>)
    requires RowsFit(want) && |want| <= ROSTER_MAX
    ensures var e := Kv("reac.roster.n", Dec(|want|), false);
            DeltaTo(pub, want, 1) == (if |want| != |pub| then [] + [e] else [])
            && |e.key| < 40 && |e.val| < 112
  {
  }

  /** What the next key adds to a delta. */
  lemma NextEntry(pub: seq<Seg>, want: seq<Seg>, k: PropKey)
    requires k.GroupKey? && k.field < FIELDS && (k.group < |pub| || k.group < |want|)
    requires RowsFit(want) && |want| <= ROSTER_MAX && |pub| <= ROSTER_MAX
    ensures var d, e := DeltaTo(pub, want, Rank(k)), EntryOf(want, k);
            DeltaTo(pub, want, Rank(k) + 1) == (if Moved(pub, want, k) then d + [e] else d)
            && |e.key| < 40 && |e.val| < 112
  {
    hide Printed, FieldVal;
    KeyAtOfRank(k);
    EntryFits(want, k);
  }

  /** Every row from `at` on moves up one place. */
  method ShiftUp(rows: array<Seg>, at: nat, n: nat)
    requires at <= n < rows.Length
    modifies rows
    ensures forall k :: 0 <= k < at ==> rows[k] == old(rows[k])
    ensures forall k :: at < k <= n ==> rows[k] == old(rows[k - 1])
  {
    var i := n;
    while i > at
      invariant at <= i <= n
      invariant forall k :: 0 <= k < i ==> rows[k] == old(rows[k])
      invariant forall k :: i < k <= n ==> rows[k] == old(rows[k - 1])
    {
      rows[i] := rows[i - 1];
      i := i - 1;
    }
  }

  /** The caller's table after `n` entries of `d` were emitted. */
  ghost predicate Holds(out: array<Kv>, max: nat, n: nat, d: seq<Kv>)
    reads out
  {
    n == |d| && max <= out.Length && forall j :: 0 <= j < n && j < max ==> out[j] == d[j]
  }

  lemma Shifted(t: seq<Seg>, w: seq<Seg>, at: nat, s: Seg)
    requires at <= |t| && |w| == |t| + 1 && w[at] == s
    requires forall k :: 0 <= k < at ==> w[k] == t[k]
    requires forall k :: at < k <= |t| ==> w[k] == t[k - 1]
    ensures w == t[..at] + [s] + t[at..]
    ensures RowsFit(t) && RowFits(s) ==> RowsFit(w)
  {
  }

  lemma PlaceIs(t: seq<Seg>, name: string, at: nat)
    requires at <= |t| && (at < |t| ==> !Less(t[at].name, name))
    requires forall i :: 0 <= i < at ==> Less(t[i].name, name)
    ensures Place(t, name) == at
  {
  }
}
