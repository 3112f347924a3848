/** A tick's roster as a table of segments in byte order of their names. */
module RosterTable {
  import opened Text

  const ROSTER_MAX: nat := 32
  const IFNAMSIZ: nat := 16
  const FIELDS: nat := 7
  const KV_MAX: nat := 1 + ROSTER_MAX * FIELDS

  datatype SegState = Probing | Established | Slave | Tap | Refused | Ignored
                    | Listening | Knocking | Trunk

  function StateName(s: SegState): string {
    match s
    case Probing => "probing"
    case Established => "established"
    case Slave => "slave"
    case Tap => "tap"
    case Refused => "refused"
    case Ignored => "ignored"
    case Listening => "listening"
    case Knocking => "knocking"
    case Trunk => "trunk"
  }

  /** What is published of a state that came without a sentence. */
  function StateSaid(s: SegState): string {
    match s
    case Listening => "listening: nothing heard here yet, and nothing is sent"
    case Knocking => "nothing heard here: knocking for a box now and then, inside a declared budget"
    case Trunk => "a trunk: its VLANs carry the boxes and are the segments; nothing is sent here"
    case Probing => "the master is running and no box is enrolled yet"
    case Established => "box enrolled: the master is running and its audio is on the graph"
    case Slave => "following the master on this wire"
    case Tap => "a desk masters this wire: listening to it and sending nothing"
    case Refused => "refused: this wire is not served; the journal says why and what to change"
    case Ignored => "switched off in the conf: never listened to, never sent on"
  }

  type Int32 = n: int | -0x8000_0000 <= n < 0x8000_0000

  datatype Seg = Seg(name: string, state: SegState, model: string, role: string, source: string,
                     in_: Int32, out: Int32, status: string)

  /** The state a name stands for. */
  function StateNamed(name: string): seq<SegState> {
    if name == "listening" then [Listening]
    else if name == "knocking" then [Knocking]
    else if name == "trunk" then [Trunk]
    else if name == "probing" then [Probing]
    else if name == "established" then [Established]
    else if name == "slave" then [Slave]
    else if name == "tap" then [Tap]
    else if name == "refused" then [Refused]
    else if name == "ignored" then [Ignored]
    else []
  }

  lemma StateNameReadsBack(s: SegState)
    ensures StateNamed(StateName(s)) == [s]
  {
  }

  // The sentences a console shows, state by state.

  lemma SilentSentences()
    ensures StateSaid(Listening) == "listening: nothing heard here yet, and nothing is sent"
    ensures StateSaid(Trunk) == "a trunk: its VLANs carry the boxes and are the segments; nothing is sent here"
  {
  }

  lemma KnockingSentence()
    ensures StateSaid(Knocking) == "nothing heard here: knocking for a box now and then, inside a declared budget"
  {
  }

  lemma ServedSentences()
    ensures StateSaid(Probing) == "the master is running and no box is enrolled yet"
    ensures StateSaid(Established) == "box enrolled: the master is running and its audio is on the graph"
    ensures StateSaid(Slave) == "following the master on this wire"
  {
  }

  lemma UnservedSentences()
    ensures StateSaid(Tap) == "a desk masters this wire: listening to it and sending nothing"
    ensures StateSaid(Refused) == "refused: this wire is not served; the journal says why and what to change"
    ensures StateSaid(Ignored) == "switched off in the conf: never listened to, never sent on"
  {
  }

  /** What a bounded print leaves of a text in a buffer of `n` bytes. */
  function Fit(s: string, n: nat): (r: string)
    requires 0 < n
    ensures |r| < n && r <= s && (|s| < n ==> r == s)
  {
    if |s| < n then s else s[..n - 1]
  }

  /** One wire as a table of the daemon claims it; an empty text is an absent one. */
  datatype Entry = Entry(name: string, state: SegState, model: string, role: string, source: string,
                         in_: Int32, out: Int32, said: string)

  function Or(s: string, absent: string): string { if s == "" then absent else s }

  function SegOf(e: Entry): Seg {
    Seg(Fit(e.name, IFNAMSIZ), e.state, Fit(Or(e.model, "none"), 32), Fit(Or(e.role, "auto"), 16),
        Fit(Or(e.source, "autodetected"), 112), e.in_, e.out, "")
  }

  // ---- byte order --------------------------------------------------------------------------

  predicate Less(a: string, b: string) {
    b != "" && (a == "" || a[0] < b[0] || (a[0] == b[0] && Less(a[1..], b[1..])))
  }

  /** One text is before another where it is a beginning of it, or has the smaller byte at the first
    * place where they differ. */
  lemma {:induction false} LessIff(a: string, b: string)
    ensures Less(a, b) <==>
              exists k :: 0 <= k <= |a| && k < |b| && a[..k] == b[..k] && (k == |a| || a[k] < b[k])
    decreases |a|
  {
    if Less(a, b) {
      var k := FirstDifference(a, b);
      assert a[..k] == b[..k];
    } else {
      forall k | 0 <= k <= |a| && k < |b| && a[..k] == b[..k] ensures !(k == |a| || a[k] < b[k]) {
        if k == |a| || a[k] < b[k] {
          SmallerThere(a, b, k);
        }
      }
    }
  }

  lemma {:induction false} FirstDifference(a: string, b: string) returns (k: nat)
    requires Less(a, b)
    ensures k <= |a| && k < |b| && a[..k] == b[..k] && (k == |a| || a[k] < b[k])
    decreases |a|
  {
    if a != "" && a[0] == b[0] {
      k := FirstDifference(a[1..], b[1..]);
      assert a[..k + 1] == [a[0]] + a[1..][..k] && b[..k + 1] == [b[0]] + b[1..][..k];
      k := k + 1;
    } else {
      k := 0;
    }
  }

  lemma {:induction false} SmallerThere(a: string, b: string, k: nat)
    requires k <= |a| && k < |b| && a[..k] == b[..k] && (k == |a| || a[k] < b[k])
    ensures Less(a, b)
    decreases |a|
  {
    if k > 0 {
      assert a[..k][0] == b[..k][0];
      assert a[1..][..k - 1] == a[..k][1..] && b[1..][..k - 1] == b[..k][1..];
      SmallerThere(a[1..], b[1..], k - 1);
    }
  }

  lemma {:induction false} LessOneWay(a: string, b: string)
    ensures (if Less(a, b) then 1 else 0) + (if Less(b, a) then 1 else 0) + (if a == b then 1 else 0) == 1
    decreases |a|
  {
    if a != "" && b != "" && a[0] == b[0] {
      LessOneWay(a[1..], b[1..]);
      assert a == [a[0]] + a[1..] && b == [b[0]] + b[1..];
    }
  }

  lemma {:induction false} LessTransitive(a: string, b: string, c: string)
    requires Less(a, b) && Less(b, c)
    ensures Less(a, c)
    decreases |a|
  {
    if a != "" && a[0] == b[0] && b[0] == c[0] {
      LessTransitive(a[1..], b[1..], c[1..]);
    }
  }

  /** Cutting a name to a length no shorter than `s` keeps it after `s`, or brings it to `s`. */
  lemma {:induction false} CutStaysAfter(s: string, name: string, n: nat)
    requires Less(s, name) && |s| <= n < |name|
    ensures Less(s, name[..n]) || s == name[..n]
    decreases |s|
  {
    if s != "" && s[0] == name[0] {
      CutStaysAfter(s[1..], name[1..], n - 1);
      assert name[..n][1..] == name[1..][..n - 1];
      assert s == [s[0]] + s[1..] && name[..n] == [name[0]] + name[1..][..n - 1];
    }
  }

  lemma {:induction false} CutStaysBefore(name: string, s: string, n: nat)
    requires Less(name, s) && n <= |name|
    ensures Less(name[..n], s)
    decreases n
  {
    if n > 0 && name[0] == s[0] {
      CutStaysBefore(name[1..], s[1..], n - 1);
      assert name[..n][1..] == name[1..][..n - 1];
    }
  }

  // ---- adding ------------------------------------------------------------------------------

  /** The first row whose name is not before `name`. */
  function Place(t: seq<Seg>, name: string): (at: nat)
    ensures at <= |t| && (at < |t| ==> !Less(t[at].name, name))
    ensures forall i :: 0 <= i < at ==> Less(t[i].name, name)
  {
    if t == [] || !Less(t[0].name, name) then 0 else 1 + Place(t[1..], name)
  }

  predicate Accepts(t: seq<Seg>, name: string) {
    name != "" && |t| < ROSTER_MAX
    && (Place(t, name) < |t| ==> t[Place(t, name)].name != name)
  }

  function Added(t: seq<Seg>, e: Entry): seq<Seg> {
    if Accepts(t, e.name) then
      var at := Place(t, e.name);
      t[..at] + [SegOf(e)] + t[at..]
    else t
  }

  function Find(t: seq<Seg>, name: string): (i: nat)
    ensures i <= |t| && (i < |t| ==> t[i].name == name)
    ensures forall j :: 0 <= j < i ==> t[j].name != name
  {
    if t == [] || t[0].name == name then 0 else 1 + Find(t[1..], name)
  }

  function Said(t: seq<Seg>, name: string, text: string): seq<Seg> {
    var i := Find(t, name);
    if i < |t| then t[i := t[i].(status := Fit(text, 112))] else t
  }

  /** One wire collected: added, and what was found on it said when there is something to say. */
  function Taken(t: seq<Seg>, e: Entry): seq<Seg> {
    if Accepts(t, e.name) && e.said != "" then Said(Added(t, e), e.name, e.said) else Added(t, e)
  }

  function Collected(es: seq<Entry>): seq<Seg>
    decreases |es|
  {
    if es == [] then [] else Taken(Collected(es[..|es| - 1]), es[|es| - 1])
  }

  // ---- sorted, always; strictly, for names that fit --------------------------------------------

  ghost predicate Sorted(t: seq<Seg>) {
    forall i, j :: 0 <= i < j < |t| ==> !Less(t[j].name, t[i].name)
  }

  ghost predicate StrictlySorted(t: seq<Seg>) {
    forall i, j :: 0 <= i < j < |t| ==> Less(t[i].name, t[j].name)
  }

  ghost predicate Short(t: seq<Seg>) { forall i :: 0 <= i < |t| ==> |t[i].name| < IFNAMSIZ }

  lemma StrictIsSorted(t: seq<Seg>)
    requires StrictlySorted(t)
    ensures Sorted(t)
  {
    forall i, j | 0 <= i < j < |t| ensures !Less(t[j].name, t[i].name) {
      LessOneWay(t[i].name, t[j].name);
    }
  }

  /** The new row's name, cut to fit, stands no earlier than the rows before its place and no
    * later than the rows after it. */
  lemma PlaceBrackets(t: seq<Seg>, e: Entry)
    requires Sorted(t) && Short(t) && Accepts(t, e.name)
    ensures var at, name := Place(t, e.name), SegOf(e).name;
            && (forall i :: 0 <= i < at ==> Less(t[i].name, name) || t[i].name == name)
            && (forall i :: at <= i < |t| ==> Less(name, t[i].name))
  {
    var at, name := Place(t, e.name), SegOf(e).name;
    forall i | 0 <= i < at ensures Less(t[i].name, name) || t[i].name == name {
      if |e.name| >= IFNAMSIZ {
        CutStaysAfter(t[i].name, e.name, IFNAMSIZ - 1);
      }
    }
    forall i | at <= i < |t| ensures Less(name, t[i].name) {
      LessOneWay(t[at].name, e.name);
      if i > at {
        LessOneWay(t[i].name, t[at].name);
        if t[i].name != t[at].name {
          LessTransitive(e.name, t[at].name, t[i].name);
        }
      }
      if |e.name| >= IFNAMSIZ {
        CutStaysBefore(e.name, t[i].name, IFNAMSIZ - 1);
      }
    }
  }

  lemma AddedSorted(t: seq<Seg>, e: Entry)
    requires Sorted(t) && Short(t)
    ensures Sorted(Added(t, e)) && Short(Added(t, e))
  {
    hide Less, Fit;
    if Accepts(t, e.name) {
      PlaceBrackets(t, e);
      var at, name := Place(t, e.name), SegOf(e).name;
      forall i | 0 <= i < at ensures !Less(name, t[i].name) {
        LessOneWay(t[i].name, name);
      }
      forall i | at <= i < |t| ensures !Less(t[i].name, name) {
        LessOneWay(t[i].name, name);
      }
    }
  }

  /** An add keeps the table strictly sorted exactly when the name fits, or is refused, or does
    * not cut to a name already listed. */
  lemma AddStrictIff(t: seq<Seg>, e: Entry)
    requires StrictlySorted(t) && Short(t)
    ensures StrictlySorted(Added(t, e)) <==>
              |e.name| < IFNAMSIZ || !Accepts(t, e.name)
              || forall i :: 0 <= i < |t| ==> t[i].name != SegOf(e).name
  {
    hide Less, Fit;
    if Accepts(t, e.name) {
      StrictIsSorted(t);
      PlaceBrackets(t, e);
      var at, name, r := Place(t, e.name), SegOf(e).name, Added(t, e);
      forall i | 0 <= i < |t| ensures |e.name| < IFNAMSIZ ==> t[i].name != name {
        LessOneWay(t[i].name, name);
      }
      if StrictlySorted(r) {
        forall i | 0 <= i < |t| ensures t[i].name != name {
          assert r[at].name == name;
          assert i < at ==> r[i] == t[i] && Less(r[i].name, r[at].name);
          assert at <= i ==> r[i + 1] == t[i] && Less(r[at].name, r[i + 1].name);
          LessOneWay(t[i].name, name);
        }
      }
    }
  }

  /** A name too long by one character claims its wire twice.  The daemon's own tables keep names in
    * IFNAMSIZ bytes, so such a name comes only from another caller of the add. */
  lemma LongNameListedTwice()
    ensures var e := Entry("enp131s0f0np0.11", Listening, "", "", "", 0, 0, "");
            |Collected([e, e])| == 2 && !StrictlySorted(Collected([e, e]))
  {
    var e := Entry("enp131s0f0np0.11", Listening, "", "", "", 0, 0, "");
    var s := SegOf(e);
    assert [e, e][..1] == [e] && [e][..0] == [];
    assert Collected([e]) == [s];
    assert s.name == e.name[..15];
    assert |e.name| == 16 && |s.name| == 15;
    PrefixLess(s.name, e.name);
    assert [s][1..] == [];
    assert Place([s], e.name) == 1;
    assert Collected([e, e]) == [s, s];
    LessOneWay(s.name, s.name);
    assert [s, s][0].name == [s, s][1].name;
  }

  lemma {:induction false} PrefixLess(a: string, b: string)
    requires a <= b && |a| < |b|
    ensures Less(a, b)
    decreases |a|
  {
    if a != "" {
      PrefixLess(a[1..], b[1..]);
    }
  }

  lemma SaidKeepsNames(t: seq<Seg>, name: string, text: string)
    ensures |Said(t, name, text)| == |t|
    ensures forall i :: 0 <= i < |t| ==> Said(t, name, text)[i].name == t[i].name
  {
  }

  ghost predicate NamesFit(es: seq<Entry>) { forall i :: 0 <= i < |es| ==> |es[i].name| < IFNAMSIZ }

  /** After any sequence of wires the table is sorted, and strictly when every name fits. */
  lemma {:induction false} CollectedSorted(es: seq<Entry>)
    ensures Sorted(Collected(es)) && Short(Collected(es)) && |Collected(es)| <= ROSTER_MAX
    ensures NamesFit(es) ==> StrictlySorted(Collected(es))
    decreases |es|
  {
    if es != [] {
      var init, e := es[..|es| - 1], es[|es| - 1];
      var t := Collected(init);
      CollectedSorted(init);
      AddedSorted(t, e);
      if NamesFit(es) {
        assert NamesFit(init);
        AddStrictIff(t, e);
      }
      SaidKeepsNames(Added(t, e), e.name, e.said);
    }
  }

  // ---- the rows of a table ------------------------------------------------------------------------

  /** The wires the table took, of those that claimed a row. */
  function Admitted(es: seq<Entry>): seq<Entry>
    decreases |es|
  {
    if es == [] then []
    else
      var init, e := es[..|es| - 1], es[|es| - 1];
      if Accepts(Collected(init), e.name) then Admitted(init) + [e] else Admitted(init)
  }

  /** A wire's row.  A sentence is kept for a name that fits: no row answers to a longer one. */
  function RowOf(e: Entry): Seg {
    if e.said == "" || |e.name| >= IFNAMSIZ then SegOf(e) else SegOf(e).(status := Fit(e.said, 112))
  }

  /** A text in a field that keeps its first `n` characters. */
  function Clip(s: string, n: nat): string { if |s| <= n then s else s[..n] }

  /** Every field of a wire's row, in what was found of the wire: its own texts cut to their fields,
    * and for each that is absent the word that says so. */
  lemma RowSays(e: Entry)
    ensures var s := RowOf(e);
            && s.name == Clip(e.name, 15) && s.state == e.state
            && s.model == (if e.model == "" then "none" else Clip(e.model, 31))
            && s.role == (if e.role == "" then "auto" else Clip(e.role, 15))
            && s.source == (if e.source == "" then "autodetected" else Clip(e.source, 111))
            && s.in_ == e.in_ && s.out == e.out
            && s.status == (if |e.name| <= 15 then Clip(e.said, 111) else "")
  {
  }

  function Rows(es: seq<Entry>): multiset<Seg>
    decreases |es|
  {
    if es == [] then multiset{} else Rows(es[..|es| - 1]) + multiset{RowOf(es[|es| - 1])}
  }

  lemma SegName(e: Entry)
    requires |e.name| < IFNAMSIZ
    ensures SegOf(e).name == e.name
  {
  }

  lemma SaidAt(t: seq<Seg>, at: nat, s: Seg, text: string)
    requires at <= |t| && forall i :: 0 <= i < |t| ==> t[i].name != s.name
    ensures Said(t[..at] + [s] + t[at..], s.name, text)
         == t[..at] + [s.(status := Fit(text, 112))] + t[at..]
  {
  }

  lemma SaidOfNobody(t: seq<Seg>, name: string, text: string)
    requires forall i :: 0 <= i < |t| ==> t[i].name != name
    ensures Said(t, name, text) == t
  {
  }

  /** An add is refused exactly for no name, for want of room, or for a name some row has: looking
    * where the name belongs finds it wherever it is. */
  lemma AcceptsIff(t: seq<Seg>, name: string)
    requires Sorted(t)
    ensures Accepts(t, name) <==>
              name != "" && |t| < ROSTER_MAX && forall i :: 0 <= i < |t| ==> t[i].name != name
  {
    hide Less;
    var at := Place(t, name);
    forall i | 0 <= i < |t| ensures Accepts(t, name) ==> t[i].name != name {
      LessOneWay(t[i].name, name);
      if at < |t| {
        LessOneWay(t[at].name, name);
      }
    }
  }

  /** A wire that is taken becomes one new row, said and all, in its place. */
  lemma TakenRow(t: seq<Seg>, e: Entry)
    requires Sorted(t) && Short(t) && Accepts(t, e.name)
    ensures var at := Place(t, e.name); Taken(t, e) == t[..at] + [RowOf(e)] + t[at..]
  {
    hide Place, Less, Fit, SegOf, Said, Sorted;
    AcceptsIff(t, e.name);
    if |e.name| < IFNAMSIZ {
      SegName(e);
      SaidAt(t, Place(t, e.name), SegOf(e), e.said);
    } else {
      AddedSorted(t, e);
      SaidOfNobody(Added(t, e), e.name, e.said);
    }
  }

  lemma InsertedRow(t: seq<Seg>, at: nat, row: Seg)
    requires at <= |t|
    ensures multiset(t[..at] + [row] + t[at..]) == multiset(t) + multiset{row}
    ensures forall x :: x in t[..at] + [row] + t[at..] ==> x in t || x == row
  {
    assert t == t[..at] + t[at..];
  }

  lemma RowsSnoc(a: seq<Entry>, e: Entry)
    ensures Rows(a + [e]) == Rows(a) + multiset{RowOf(e)}
  {
  }

  /** After any wires the table holds one row for each that it took and nothing else. */
  lemma {:induction false} CollectedRows(es: seq<Entry>)
    ensures multiset(Collected(es)) == Rows(Admitted(es)) && |Collected(es)| == |Admitted(es)|
    decreases |es|
  {
    hide RowOf, Place, Less, Rows, Accepts, Added, Said, Sorted, Short;
    if es == [] {
      NoRows();
    } else {
      var init, e := es[..|es| - 1], es[|es| - 1];
      var t := Collected(init);
      CollectedRows(init);
      CollectedSorted(init);
      if Accepts(t, e.name) {
        TakenRow(t, e);
        InsertedRow(t, Place(t, e.name), RowOf(e));
        RowsSnoc(Admitted(init), e);
      } else {
        NotTaken(t, e);
      }
    }
  }

  lemma NoRows()
    ensures Rows([]) == multiset{}
  {
  }

  lemma NotTaken(t: seq<Seg>, e: Entry)
    requires !Accepts(t, e.name)
    ensures Taken(t, e) == t
  {
  }

  // ---- the order the wires were found in does not matter ------------------------------------------

  /** Distinct wires the table has room for, each with a name that fits. */
  ghost predicate Plain(es: seq<Entry>) {
    && |es| <= ROSTER_MAX && NamesFit(es)
    && (forall i :: 0 <= i < |es| ==> es[i].name != "")
    && (forall i, j :: 0 <= i < j < |es| ==> es[i].name != es[j].name)
  }

  function Names(es: seq<Entry>): set<string>
    decreases |es|
  {
    if es == [] then {} else Names(es[..|es| - 1]) + {es[|es| - 1].name}
  }

  lemma {:induction false} NamesAre(es: seq<Entry>, name: string)
    ensures name in Names(es) <==> exists i :: 0 <= i < |es| && es[i].name == name
    decreases |es|
  {
    if es != [] {
      var init := es[..|es| - 1];
      NamesAre(init, name);
      assert forall i :: 0 <= i < |init| ==> init[i] == es[i];
    }
  }

  lemma PlainInit(es: seq<Entry>)
    requires es != [] && Plain(es)
    ensures Plain(es[..|es| - 1]) && es[|es| - 1].name !in Names(es[..|es| - 1])
  {
    NamesAre(es[..|es| - 1], es[|es| - 1].name);
  }

  /** All of them are taken. */
  lemma {:induction false} PlainAdmitted(es: seq<Entry>)
    requires Plain(es)
    ensures Admitted(es) == es
    ensures forall s :: s in Collected(es) ==> s.name in Names(es)
    decreases |es|
  {
    hide Taken, RowOf, Less, Sorted, Short;
    if es != [] {
      var init, e := es[..|es| - 1], es[|es| - 1];
      var t := Collected(init);
      PlainInit(es);
      PlainAdmitted(init);
      CollectedRows(init);
      CollectedSorted(init);
      assert forall i :: 0 <= i < |t| ==> t[i] in t;
      assert Accepts(t, e.name);
      TakenRow(t, e);
      InsertedRow(t, Place(t, e.name), RowOf(e));
      RowName(e);
      assert es == init + [e];
    }
  }

  lemma RowName(e: Entry)
    requires |e.name| < IFNAMSIZ
    ensures RowOf(e).name == e.name
  {
  }

  /** A strictly sorted table is all there is to its rows. */
  lemma {:induction false} StrictUnique(a: seq<Seg>, b: seq<Seg>)
    requires StrictlySorted(a) && StrictlySorted(b) && multiset(a) == multiset(b)
    ensures a == b
    decreases |a|
  {
    hide StrictlySorted;
    SameSize(a, b);
    if a != [] {
      SameHead(a, b);
      TailRows(a);
      TailRows(b);
      StrictUnique(a[1..], b[1..]);
      assert a == [a[0]] + a[1..] && b == [b[0]] + b[1..];
    }
  }

  lemma SameSize(a: seq<Seg>, b: seq<Seg>)
    requires multiset(a) == multiset(b)
    ensures |a| == |b|
  {
    assert |multiset(a)| == |a| && |multiset(b)| == |b|;
  }

  lemma SameHead(a: seq<Seg>, b: seq<Seg>)
    requires a != [] && b != [] && StrictlySorted(a) && StrictlySorted(b) && multiset(a) == multiset(b)
    ensures a[0] == b[0]
  {
    hide Less, StrictlySorted;
    HeadIsFirst(a, b);
    HeadIsFirst(b, a);
    LessOneWay(a[0].name, b[0].name);
  }

  lemma TailRows(a: seq<Seg>)
    requires a != []
    ensures multiset(a[1..]) == multiset(a) - multiset{a[0]}
    ensures StrictlySorted(a) ==> StrictlySorted(a[1..])
  {
    hide Less;
    assert a == [a[0]] + a[1..];
  }

  /** The first row of one table is a row of the other, so not before its first. */
  lemma HeadIsFirst(a: seq<Seg>, b: seq<Seg>)
    requires a != [] && b != [] && StrictlySorted(b) && multiset(a) == multiset(b)
    ensures a[0] == b[0] || Less(b[0].name, a[0].name)
  {
    assert a[0] in multiset(a);
    assert a[0] in b;
    var i :| 0 <= i < |b| && b[i] == a[0];
    if i > 0 {
      assert Less(b[0].name, b[i].name);
    }
  }

  /** Distinct wires with names that fit make the same table whatever order they came in. */
  lemma OrderDoesNotMatter(a: seq<Entry>, b: seq<Entry>)
    requires Plain(a) && Plain(b) && multiset(a) == multiset(b)
    ensures Collected(a) == Collected(b)
  {
    CollectedRows(a);
    CollectedRows(b);
    PlainAdmitted(a);
    PlainAdmitted(b);
    CollectedSorted(a);
    CollectedSorted(b);
    RowsOfSame(a, b);
    StrictUnique(Collected(a), Collected(b));
  }

  lemma {:induction false} RowsOfSame(a: seq<Entry>, b: seq<Entry>)
    requires multiset(a) == multiset(b)
    ensures Rows(a) == Rows(b)
    decreases |a|
  {
    hide RowOf;
    assert |multiset(a)| == |a| && |multiset(b)| == |b|;
    if a != [] {
      var init, e := a[..|a| - 1], a[|a| - 1];
      assert a == init + [e];
      var i := Where(b, e);
      var rest := b[..i] + b[i + 1..];
      RowsWithout(b, i);
      assert multiset(init) == multiset(rest);
      RowsOfSame(init, rest);
    }
  }

  lemma Where(b: seq<Entry>, e: Entry) returns (i: nat)
    requires e in multiset(b)
    ensures i < |b| && b[i] == e
    ensures multiset(b[..i] + b[i + 1..]) == multiset(b) - multiset{e}
  {
    assert e in b;
    i :| 0 <= i < |b| && b[i] == e;
    assert b == b[..i] + [b[i]] + b[i + 1..];
  }

  lemma {:induction false} RowsWithout(b: seq<Entry>, i: nat)
    requires i < |b|
    ensures Rows(b) == Rows(b[..i] + b[i + 1..]) + multiset{RowOf(b[i])}
    decreases |b|
  {
    hide RowOf, Rows;
    var init, e := b[..|b| - 1], b[|b| - 1];
    assert b == init + [e];
    RowsSnoc(init, e);
    if i < |init| {
      var rest := init[..i] + init[i + 1..];
      RowsWithout(init, i);
      RowsSnoc(rest, e);
      assert b[..i] + b[i + 1..] == rest + [e];
    } else {
      assert b[..i] + b[i + 1..] == init;
    }
  }
}
