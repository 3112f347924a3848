/** What moved between the roster a node carries and the one wanted, as properties, and that
  * applying it to the one rendering gives the other. */
module RosterDelta {
  import opened Text
  import opened RosterTable

  // ---- keys and values -----------------------------------------------------------------------

  /** A property of the node: the count, or one field of one group. */
  datatype PropKey = CountKey | GroupKey(group: nat, field: nat)

  predicate Proper(k: PropKey) { k.GroupKey? ==> k.field < FIELDS }

  function FieldKey(f: nat): string
    requires f < FIELDS
  {
    if f == 0 then "name" else if f == 1 then "state" else if f == 2 then "model"
    else if f == 3 then "role" else if f == 4 then "source" else if f == 5 then "width" else "status"
  }

  function Printed(k: PropKey): string
    requires Proper(k)
  {
    match k
    case CountKey => "reac.roster.n"
    case GroupKey(i, f) => "reac.roster." + (Dec(i) + "." + FieldKey(f))
  }

  function FieldVal(s: Seg, f: nat): string
    requires f < FIELDS
  {
    if f == 0 then s.name else if f == 1 then StateName(s.state) else if f == 2 then s.model
    else if f == 3 then s.role else if f == 4 then s.source
    else if f == 5 then DecInt(s.in_) + "/" + DecInt(s.out)
    else if s.status != "" then s.status else StateSaid(s.state)
  }

  lemma FieldKeyInjective(f: nat, g: nat)
    requires f < FIELDS && g < FIELDS && FieldKey(f) == FieldKey(g)
    ensures f == g
  {
  }

  lemma TailInjective(i: nat, f: nat, j: nat, g: nat)
    requires f < FIELDS && g < FIELDS
    requires Dec(i) + "." + FieldKey(f) == Dec(j) + "." + FieldKey(g)
    ensures i == j && f == g
  {
    hide FieldKey, Dec;
    DigitsLack(Dec(i), '.');
    DigitsLack(Dec(j), '.');
    SplitFirst(Dec(i), FieldKey(f), Dec(j), FieldKey(g), '.');
    DecInjective(i, j);
    FieldKeyInjective(f, g);
  }

  /** No two properties print the same key. */
  lemma PrintedInjective(a: PropKey, b: PropKey)
    requires Proper(a) && Proper(b) && Printed(a) == Printed(b)
    ensures a == b
  {
    var head := "reac.roster.";
    if a.GroupKey? && b.GroupKey? {
      assert Printed(a)[|head|..] == Dec(a.group) + "." + FieldKey(a.field);
      assert Printed(b)[|head|..] == Dec(b.group) + "." + FieldKey(b.field);
      TailInjective(a.group, a.field, b.group, b.field);
    } else {
      KeyGoesOn(a);
      KeyGoesOn(b);
    }
  }

  /** The count's key is the one that goes on with a letter where a group's has a digit. */
  lemma KeyGoesOn(k: PropKey)
    requires Proper(k)
    ensures |Printed(k)| > 12 && (k.CountKey? <==> !Digit(Printed(k)[12]))
  {
  }

  // ---- rendering --------------------------------------------------------------------------------

  function KeyAt(r: nat): (k: PropKey)
    ensures Proper(k)
  {
    if r == 0 then CountKey else GroupKey((r - 1) / FIELDS, (r - 1) % FIELDS)
  }

  function Rank(k: PropKey): nat { if k.CountKey? then 0 else 1 + FIELDS * k.group + k.field }

  lemma RankOfKeyAt(r: nat)
    ensures Rank(KeyAt(r)) == r
  {
  }

  lemma KeyAtOfRank(k: PropKey)
    requires Proper(k)
    ensures KeyAt(Rank(k)) == k
  {
  }

  datatype Maybe = Absent | Value(text: string)

  /** A view gives each property its value, or none. */
  type View = PropKey -> Maybe

  /** The properties of the first `n` keys of a view, as a node carries them. */
  ghost function PropsOf(v: View, n: nat): map<string, string> {
    if n == 0 then map["reac.roster" := "1"]
    else
      var k := KeyAt(n - 1);
      if v(k).Absent? then PropsOf(v, n - 1) else PropsOf(v, n - 1)[Printed(k) := v(k).text]
  }

  /** Enough keys for a table. */
  function KeyCount(t: seq<Seg>): nat { 1 + FIELDS * |t| }

  function RosterView(t: seq<Seg>): View {
    (k: PropKey) =>
      if k.CountKey? then (if t == [] then Absent else Value(Dec(|t|)))
      else if k.group < |t| && k.field < FIELDS then Value(FieldVal(t[k.group], k.field))
      else Absent
  }

  /** The simple full rendering of a roster: the mark of a roster node, the count unless there is
    * nothing to count, and all fields of all rows. */
  ghost function Render(t: seq<Seg>): map<string, string> { PropsOf(RosterView(t), KeyCount(t)) }

  lemma {:induction false} PropsExt(v: View, w: View, n: nat)
    requires forall r :: 0 <= r < n ==> v(KeyAt(r)) == w(KeyAt(r))
    ensures PropsOf(v, n) == PropsOf(w, n)
  {
    if n > 0 {
      PropsExt(v, w, n - 1);
    }
  }

  /** Keys past the end of a table add nothing. */
  lemma {:induction false} RenderPast(t: seq<Seg>, n: nat)
    requires KeyCount(t) <= n
    ensures PropsOf(RosterView(t), n) == Render(t)
    decreases n
  {
    hide Printed, FieldVal;
    if KeyCount(t) < n {
      RenderPast(t, n - 1);
      RankOfKeyAt(n - 1);
      assert RosterView(t)(KeyAt(n - 1)).Absent?;
    }
  }

  // ---- what a node carries, key by key ------------------------------------------------------------

  predicate Has(m: map<string, string>, key: string, val: string) { key in m && m[key] == val }

  /** The properties of one row. */
  predicate CarriesRow(m: map<string, string>, i: nat, s: Seg) {
    var row := "reac.roster." + Dec(i);
    && Has(m, row + ".name", s.name)
    && Has(m, row + ".state", StateName(s.state))
    && Has(m, row + ".model", s.model)
    && Has(m, row + ".role", s.role)
    && Has(m, row + ".source", s.source)
    && Has(m, row + ".width", DecInt(s.in_) + "/" + DecInt(s.out))
    && Has(m, row + ".status", if s.status == "" then StateSaid(s.state) else s.status)
  }

  /** The words that end the keys of a row. */
  const Words: set<string> := {"name", "state", "model", "role", "source", "width", "status"}

  /** The node says it is a roster, how many rows it has unless it has none, and each of its rows. */
  ghost predicate Carries(m: map<string, string>, t: seq<Seg>) {
    && Has(m, "reac.roster", "1")
    && (if t == [] then "reac.roster.n" !in m else Has(m, "reac.roster.n", Dec(|t|)))
    && (forall i :: 0 <= i < |t| ==> CarriesRow(m, i, t[i]))
  }

  /** And nothing else. */
  ghost predicate CarriesNoMore(m: map<string, string>, t: seq<Seg>) {
    forall key :: key in m && key != "reac.roster" && key != "reac.roster.n" ==>
      exists i, word :: 0 <= i < |t| && word in Words && key == "reac.roster." + Dec(i) + "." + word
  }

  lemma KeyText(i: nat, f: nat)
    requires f < FIELDS
    ensures Printed(GroupKey(i, f)) == "reac.roster." + Dec(i) + "." + FieldKey(f)
  {
    assert "reac.roster." + (Dec(i) + "." + FieldKey(f)) == "reac.roster." + Dec(i) + "." + FieldKey(f);
  }

  lemma FieldAt(t: seq<Seg>, i: nat, f: nat)
    requires i < |t| && f < FIELDS
    ensures Has(Render(t), "reac.roster." + Dec(i) + "." + FieldKey(f), FieldVal(t[i], f))
  {
    hide Printed, FieldVal, FieldKey, PropsOf;
    KeyText(i, f);
    LookUp(RosterView(t), KeyCount(t), GroupKey(i, f));
  }

  lemma RowCarried(t: seq<Seg>, i: nat)
    requires i < |t|
    ensures CarriesRow(Render(t), i, t[i])
  {
    hide Render, Has, Dec, DecInt, StateName, StateSaid;
    FieldAt(t, i, 0);
    FieldAt(t, i, 1);
    FieldAt(t, i, 2);
    FieldAt(t, i, 3);
    FieldAt(t, i, 4);
    FieldAt(t, i, 5);
    FieldAt(t, i, 6);
    var row := "reac.roster." + Dec(i);
    Joined(row, "name", ".name");
    Joined(row, "state", ".state");
    Joined(row, "model", ".model");
    Joined(row, "role", ".role");
    Joined(row, "source", ".source");
    Joined(row, "width", ".width");
    Joined(row, "status", ".status");
  }

  lemma Joined(row: string, word: string, tail: string)
    requires tail == "." + word
    ensures row + "." + word == row + tail
  {
  }

  lemma {:induction false} DeclarationStays(v: View, n: nat)
    ensures Has(PropsOf(v, n), "reac.roster", "1")
  {
    hide Printed, KeyAt;
    if n > 0 {
      DeclarationStays(v, n - 1);
      KeyGoesOn(KeyAt(n - 1));
    }
  }

  lemma {:induction false} KeysOf(v: View, n: nat, key: string)
    requires key in PropsOf(v, n) && key != "reac.roster"
    ensures exists r :: 0 <= r < n && v(KeyAt(r)).Value? && key == Printed(KeyAt(r))
  {
    hide Printed, KeyAt;
    if n > 0 {
      var k := KeyAt(n - 1);
      if key != Printed(k) || v(k).Absent? {
        KeysOf(v, n - 1, key);
      }
    }
  }

  /** The rendering of a roster, key by key. */
  lemma RenderCarries(t: seq<Seg>)
    ensures Carries(Render(t), t) && CarriesNoMore(Render(t), t)
  {
    hide CarriesRow, KeyAt, PropsOf, FieldVal, Has;
    DeclarationStays(RosterView(t), KeyCount(t));
    forall i | 0 <= i < |t| ensures CarriesRow(Render(t), i, t[i]) {
      RowCarried(t, i);
    }
    CountCarried(t);
    forall key | key in Render(t) && key != "reac.roster" && key != "reac.roster.n"
      ensures exists i, word :: 0 <= i < |t| && word in Words && key == "reac.roster." + Dec(i) + "." + word
    {
      OtherKey(t, key);
    }
  }

  lemma CountCarried(t: seq<Seg>)
    ensures if t == [] then "reac.roster.n" !in Render(t) else Has(Render(t), "reac.roster.n", Dec(|t|))
  {
    hide PropsOf;
    LookUp(RosterView(t), KeyCount(t), CountKey);
  }

  lemma OtherKey(t: seq<Seg>, key: string)
    requires key in Render(t) && key != "reac.roster" && key != "reac.roster.n"
    ensures exists i, word :: 0 <= i < |t| && word in Words && key == "reac.roster." + Dec(i) + "." + word
  {
    hide FieldVal, PropsOf, KeyAt;
    KeysOf(RosterView(t), KeyCount(t), key);
    var r :| 0 <= r < KeyCount(t) && RosterView(t)(KeyAt(r)).Value? && key == Printed(KeyAt(r));
    var k := KeyAt(r);
    if k.GroupKey? {
      KeyText(k.group, k.field);
      FieldWord(k.field);
      assert k.group < |t| && FieldKey(k.field) in Words;
    }
  }

  lemma FieldWord(f: nat)
    requires f < FIELDS
    ensures FieldKey(f) in Words
  {
  }

  // ---- changing one property -----------------------------------------------------------------------

  function Changed(v: View, key: PropKey, val: Maybe): View { (k: PropKey) => if k == key then val else v(k) }

  function Put(m: map<string, string>, key: string, val: Maybe): map<string, string> {
    if val.Absent? then m - {key} else m[key := val.text]
  }

  lemma {:induction false} NotYetPrinted(v: View, n: nat, k: PropKey)
    requires Proper(k) && n <= Rank(k)
    ensures Printed(k) !in PropsOf(v, n)
  {
    if n > 0 {
      NotYetPrinted(v, n - 1, k);
      RankOfKeyAt(n - 1);
      if Printed(KeyAt(n - 1)) == Printed(k) {
        PrintedInjective(KeyAt(n - 1), k);
      }
    } else {
      KeyGoesOn(k);
    }
  }

  /** Setting or removing one property of a node is changing that one value of its view. */
  lemma {:induction false} PutIsChanged(v: View, n: nat, k: PropKey, val: Maybe)
    requires Proper(k) && Rank(k) < n
    ensures Put(PropsOf(v, n), Printed(k), val) == PropsOf(Changed(v, k, val), n)
  {
    hide Printed, KeyAt, Rank;
    var w := Changed(v, k, val);
    var last := KeyAt(n - 1);
    RankOfKeyAt(n - 1);
    KeyAtOfRank(k);
    if last == k {
      PropsExt(v, w, n - 1) by {
        forall r | 0 <= r < n - 1 ensures v(KeyAt(r)) == w(KeyAt(r)) {
          RankOfKeyAt(r);
        }
      }
      NotYetPrinted(v, n - 1, k);
    } else {
      PutIsChanged(v, n - 1, k, val);
      if Printed(last) == Printed(k) {
        PrintedInjective(last, k);
      }
    }
  }

  // ---- the delta --------------------------------------------------------------------------------------

  /** An entry of a delta. */
  datatype Kv = Kv(key: string, val: string, remove: bool)

  predicate Moved(pub: seq<Seg>, want: seq<Seg>, k: PropKey)
    requires Proper(k)
  {
    match k
    case CountKey => |want| != |pub|
    case GroupKey(i, f) =>
      if i < |want| then i >= |pub| || FieldVal(want[i], f) != FieldVal(pub[i], f) else i < |pub|
  }

  function EntryOf(want: seq<Seg>, k: PropKey): Kv
    requires Proper(k)
  {
    match k
    case CountKey => Kv(Printed(k), Dec(|want|), false)
    case GroupKey(i, f) =>
      if i < |want| then Kv(Printed(k), FieldVal(want[i], f), false) else Kv(Printed(k), "", true)
  }

  /** The entries of the first `r` keys: those that moved, in key order. */
  function DeltaTo(pub: seq<Seg>, want: seq<Seg>, r: nat): (d: seq<Kv>)
    ensures |d| <= r
  {
    if r == 0 then []
    else
      var k := KeyAt(r - 1);
      if Moved(pub, want, k) then DeltaTo(pub, want, r - 1) + [EntryOf(want, k)]
      else DeltaTo(pub, want, r - 1)
  }

  function BothKeys(pub: seq<Seg>, want: seq<Seg>): nat {
    if |pub| < |want| then KeyCount(want) else KeyCount(pub)
  }

  function Delta(pub: seq<Seg>, want: seq<Seg>): seq<Kv> { DeltaTo(pub, want, BothKeys(pub, want)) }

  function Applied(m: map<string, string>, kvs: seq<Kv>): map<string, string>
    decreases |kvs|
  {
    if kvs == [] then m
    else
      var before, kv := Applied(m, kvs[..|kvs| - 1]), kvs[|kvs| - 1];
      if kv.remove then before - {kv.key} else before[kv.key := kv.val]
  }

  lemma AppliedSnoc(m: map<string, string>, kvs: seq<Kv>, kv: Kv)
    ensures Applied(m, kvs + [kv])
         == Put(Applied(m, kvs), kv.key, if kv.remove then Absent else Value(kv.val))
  {
  }

  /** What the delta makes of the view: the wanted roster, and a count of none said as 0. */
  function TargetView(pub: seq<Seg>, want: seq<Seg>): View {
    (k: PropKey) => if k.CountKey? && want == [] && pub != [] then Value("0") else RosterView(want)(k)
  }

  /** The view after the first `r` keys of the delta. */
  function Between(pub: seq<Seg>, want: seq<Seg>, r: nat): View {
    (k: PropKey) => if Rank(k) < r then TargetView(pub, want)(k) else RosterView(pub)(k)
  }

  lemma MovedIff(pub: seq<Seg>, want: seq<Seg>, k: PropKey)
    requires Proper(k)
    ensures Moved(pub, want, k) <==> TargetView(pub, want)(k) != RosterView(pub)(k)
    ensures Moved(pub, want, k) ==>
              TargetView(pub, want)(k)
              == (if EntryOf(want, k).remove then Absent else Value(EntryOf(want, k).val))
  {
    hide FieldVal, Printed;
    assert Dec(0) == "0";
    var was, is_ := RosterView(pub)(k), RosterView(want)(k);
    match k {
      case CountKey =>
        if Dec(|want|) == Dec(|pub|) {
          DecInjective(|want|, |pub|);
        }
        assert was == if pub == [] then Absent else Value(Dec(|pub|));
        assert is_ == if want == [] then Absent else Value(Dec(|want|));
        assert want == [] ==> Dec(|want|) == "0";
      case GroupKey(i, f) =>
        assert is_ == if i < |want| then Value(FieldVal(want[i], f)) else Absent;
        assert was == if i < |pub| then Value(FieldVal(pub[i], f)) else Absent;
    }
  }

  lemma BetweenStep(pub: seq<Seg>, want: seq<Seg>, r: nat, n: nat)
    requires 0 < r
    ensures var k := KeyAt(r - 1);
            PropsOf(Between(pub, want, r), n)
            == PropsOf(Changed(Between(pub, want, r - 1), k, TargetView(pub, want)(k)), n)
  {
    hide Printed, TargetView, RosterView, KeyAt, PropsOf;
    var k := KeyAt(r - 1);
    var after, changed := Between(pub, want, r), Changed(Between(pub, want, r - 1), k, TargetView(pub, want)(k));
    RankOfKeyAt(r - 1);
    forall q | 0 <= q < n ensures after(KeyAt(q)) == changed(KeyAt(q)) {
      RankOfKeyAt(q);
    }
    PropsExt(after, changed, n);
  }

  lemma {:induction false} DeltaApplies(pub: seq<Seg>, want: seq<Seg>, r: nat, n: nat)
    requires r <= n
    ensures Applied(PropsOf(RosterView(pub), n), DeltaTo(pub, want, r)) == PropsOf(Between(pub, want, r), n)
    decreases r
  {
    hide Printed, EntryOf, Moved, TargetView, PropsOf, Put, KeyAt, RosterView;
    if r == 0 {
      PropsExt(RosterView(pub), Between(pub, want, 0), n);
    } else {
      var k := KeyAt(r - 1);
      var before := Between(pub, want, r - 1);
      var props := PropsOf(RosterView(pub), n);
      DeltaApplies(pub, want, r - 1, n);
      RankOfKeyAt(r - 1);
      MovedIff(pub, want, k);
      BetweenStep(pub, want, r, n);
      if Moved(pub, want, k) {
        EntryKey(want, k);
        AppliedSnoc(props, DeltaTo(pub, want, r - 1), EntryOf(want, k));
        PutIsChanged(before, n, k, TargetView(pub, want)(k));
      } else {
        PropsExt(before, Changed(before, k, TargetView(pub, want)(k)), n);
      }
    }
  }

  lemma EntryKey(want: seq<Seg>, k: PropKey)
    requires Proper(k)
    ensures EntryOf(want, k).key == Printed(k)
  {
  }

  /** Applying the delta to the rendering of what is published gives the rendering of what is
    * wanted, but for the count of an emptied roster, which is left saying 0. */
  lemma DeltaGivesTheWanted(pub: seq<Seg>, want: seq<Seg>)
    ensures Applied(Render(pub), Delta(pub, want))
         == if want == [] && pub != [] then Render(want)["reac.roster.n" := "0"] else Render(want)
  {
    hide FieldVal;
    var n := BothKeys(pub, want);
    RenderPast(pub, n);
    DeltaApplies(pub, want, n, n);
    var target := TargetView(pub, want);
    forall q | 0 <= q < n ensures Between(pub, want, n)(KeyAt(q)) == target(KeyAt(q)) {
      RankOfKeyAt(q);
    }
    PropsExt(Between(pub, want, n), target, n);
    RenderPast(want, n);
    if want == [] && pub != [] {
      PropsExt(target, Changed(RosterView(want), CountKey, Value("0")), n);
      PutIsChanged(RosterView(want), n, CountKey, Value("0"));
    } else {
      PropsExt(target, RosterView(want), n);
    }
  }

  // ---- what the delta says ----------------------------------------------------------------------------

  /** The delta always fits the table a caller has for it. */
  lemma DeltaFits(pub: seq<Seg>, want: seq<Seg>)
    requires |pub| <= ROSTER_MAX && |want| <= ROSTER_MAX
    ensures |Delta(pub, want)| <= KV_MAX
  {
  }

  /** The entry is what the key of rank `q` moved to. */
  ghost predicate MovedAt(pub: seq<Seg>, want: seq<Seg>, q: nat, kv: Kv) {
    Moved(pub, want, KeyAt(q)) && kv == EntryOf(want, KeyAt(q))
  }

  /** Every entry is one key that moved, and every key that moved is an entry. */
  lemma {:induction false} DeltaEntries(pub: seq<Seg>, want: seq<Seg>, r: nat, kv: Kv)
    ensures kv in DeltaTo(pub, want, r) <==> exists q :: 0 <= q < r && MovedAt(pub, want, q, kv)
  {
    hide Moved, EntryOf, KeyAt;
    if r > 0 {
      DeltaEntries(pub, want, r - 1, kv);
      if MovedAt(pub, want, r - 1, kv) {
        assert DeltaTo(pub, want, r)[|DeltaTo(pub, want, r)| - 1] == kv;
      }
    }
  }

  /** No key appears twice. */
  lemma {:induction false} DeltaKeysDistinct(pub: seq<Seg>, want: seq<Seg>, r: nat)
    ensures var d := DeltaTo(pub, want, r); forall i, j :: 0 <= i < j < |d| ==> d[i].key != d[j].key
  {
    hide Moved, EntryOf, KeyAt, Printed;
    if r > 0 {
      var d, last := DeltaTo(pub, want, r - 1), KeyAt(r - 1);
      DeltaKeysDistinct(pub, want, r - 1);
      EntryKey(want, last);
      forall i | 0 <= i < |d| ensures d[i].key != Printed(last) {
        DeltaEntries(pub, want, r - 1, d[i]);
        var q :| 0 <= q < r - 1 && MovedAt(pub, want, q, d[i]);
        EntryKey(want, KeyAt(q));
        RankOfKeyAt(q);
        RankOfKeyAt(r - 1);
        if Printed(KeyAt(q)) == Printed(last) {
          PrintedInjective(KeyAt(q), last);
        }
      }
    }
  }

  /** The count comes first, then group by group and field by field. */
  predicate Before(a: PropKey, b: PropKey) {
    b.GroupKey? && (a.CountKey? || a.group < b.group || (a.group == b.group && a.field < b.field))
  }

  /** An entry is about a key. */
  ghost predicate About(kv: Kv, k: PropKey) { Proper(k) && kv.key == Printed(k) }

  /** The entries of a delta come in the order of their keys. */
  lemma {:induction false} DeltaInOrder(pub: seq<Seg>, want: seq<Seg>, r: nat, i: nat, j: nat)
    requires i < j < |DeltaTo(pub, want, r)|
    ensures exists a, b :: About(DeltaTo(pub, want, r)[i], a) && About(DeltaTo(pub, want, r)[j], b) && Before(a, b)
    decreases r
  {
    hide Moved, EntryOf, KeyAt, Printed;
    var d := DeltaTo(pub, want, r - 1);
    if j < |d| {
      DeltaInOrder(pub, want, r - 1, i, j);
      var a, b :| About(d[i], a) && About(d[j], b) && Before(a, b);
      assert About(DeltaTo(pub, want, r)[i], a) && About(DeltaTo(pub, want, r)[j], b);
    } else {
      DeltaEntries(pub, want, r - 1, d[i]);
      var q :| 0 <= q < r - 1 && MovedAt(pub, want, q, d[i]);
      EntryKey(want, KeyAt(q));
      EntryKey(want, KeyAt(r - 1));
      LaterKey(q, r - 1);
      assert About(DeltaTo(pub, want, r)[i], KeyAt(q));
      assert About(DeltaTo(pub, want, r)[j], KeyAt(r - 1));
    }
  }

  lemma LaterKey(q: nat, r: nat)
    requires q < r
    ensures Before(KeyAt(q), KeyAt(r))
  {
  }

  lemma {:induction false} LookUp(v: View, n: nat, k: PropKey)
    requires Proper(k)
    ensures var m, key := PropsOf(v, n), Printed(k);
            if Rank(k) < n && v(k).Value? then key in m && m[key] == v(k).text else key !in m
    decreases n
  {
    hide Printed, KeyAt;
    if n <= Rank(k) {
      NotYetPrinted(v, n, k);
    } else {
      RankOfKeyAt(n - 1);
      KeyAtOfRank(k);
      if KeyAt(n - 1) != k {
        LookUp(v, n - 1, k);
        if Printed(KeyAt(n - 1)) == Printed(k) {
          PrintedInjective(KeyAt(n - 1), k);
        }
      } else {
        NotYetPrinted(v, n - 1, k);
      }
    }
  }

  /** No key is set to the value it already has, and no key is removed that is not there. */
  lemma NothingSetInVain(pub: seq<Seg>, want: seq<Seg>, kv: Kv)
    requires kv in Delta(pub, want)
    ensures !kv.remove && kv.key in Render(pub) ==> Render(pub)[kv.key] != kv.val
    ensures kv.remove ==> kv.key in Render(pub)
  {
    hide Moved, EntryOf, Printed, KeyAt, FieldVal, PropsOf, DeltaTo;
    var n := BothKeys(pub, want);
    DeltaEntries(pub, want, n, kv);
    var q :| 0 <= q < n && MovedAt(pub, want, q, kv);
    var k := KeyAt(q);
    MovedIff(pub, want, k);
    EntryKey(want, k);
    RankOfKeyAt(q);
    LookUp(RosterView(pub), KeyCount(pub), k);
    PastTheEnd(pub, k);
  }

  lemma PastTheEnd(t: seq<Seg>, k: PropKey)
    requires Proper(k)
    ensures KeyCount(t) <= Rank(k) ==> RosterView(t)(k).Absent?
  {
  }

  /** The delta asks to remove something exactly when the wanted roster is the shorter. */
  lemma RemovalIffShrank(pub: seq<Seg>, want: seq<Seg>)
    ensures (exists kv :: kv in Delta(pub, want) && kv.remove) <==> |want| < |pub|
  {
    hide Printed, FieldVal, DeltaTo;
    var n := BothKeys(pub, want);
    if |want| < |pub| {
      var k := GroupKey(|want|, 0);
      KeyAtOfRank(k);
      assert Rank(k) < n && MovedAt(pub, want, Rank(k), EntryOf(want, k));
      DeltaEntries(pub, want, n, EntryOf(want, k));
      assert EntryOf(want, k) in Delta(pub, want);
    }
    forall kv | kv in Delta(pub, want) ensures kv.remove ==> |want| < |pub| {
      DeltaEntries(pub, want, n, kv);
      var q :| 0 <= q < n && MovedAt(pub, want, q, kv);
    }
  }

  /** Nothing moved exactly when the two rosters render alike. */
  lemma EmptyDeltaIff(pub: seq<Seg>, want: seq<Seg>)
    ensures Delta(pub, want) == [] <==> Render(pub) == Render(want)
  {
    hide Delta, Render;
    if Delta(pub, want) == [] {
      DeltaGivesTheWanted(pub, want);
      RemovalIffShrank(pub, want);
      assert |want| >= |pub|;
    } else {
      FirstEntryTells(pub, want);
    }
  }

  lemma ViewsTell(a: seq<Seg>, b: seq<Seg>, k: PropKey)
    requires Proper(k) && RosterView(a)(k) != RosterView(b)(k)
    ensures Render(a) != Render(b)
  {
    hide Printed, FieldVal, PropsOf;
    LookUp(RosterView(a), KeyCount(a), k);
    LookUp(RosterView(b), KeyCount(b), k);
    PastTheEnd(a, k);
    PastTheEnd(b, k);
  }

  lemma FirstEntryTells(pub: seq<Seg>, want: seq<Seg>)
    requires Delta(pub, want) != []
    ensures Render(pub) != Render(want)
  {
    hide Moved, EntryOf, Printed, KeyAt, FieldVal, Render, DeltaTo;
    var n := BothKeys(pub, want);
    var kv := Delta(pub, want)[0];
    DeltaEntries(pub, want, n, kv);
    var q :| 0 <= q < n && MovedAt(pub, want, q, kv);
    var k := KeyAt(q);
    MovedIff(pub, want, k);
    assert RosterView(pub)(k) != RosterView(want)(k);
    ViewsTell(pub, want, k);
  }
}
