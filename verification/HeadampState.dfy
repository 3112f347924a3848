/** What the daemon asserts of the head-amps, and the bounded text it publishes of it. */
module HeadampState {
  import opened Text

  const MAX_CH: nat := 48
  const NPARAMS: nat := 3
  const CELLS: nat := MAX_CH * NPARAMS
  const SENS_MAX: nat := 0x37
  /** The longest text, its NUL included: every cell is at most seven characters and a comma. */
  const ASSERTED_MAX: nat := CELLS * 8 + 1

  datatype Cell = Unset | Cell(value: nat)

  /** The table in rendering order: channel by channel, parameter by parameter. */
  type Table = t: seq<Cell> | |t| == CELLS witness seq(CELLS, _ => Unset)

  /** Where a cell stands in the table. */
  function Index(ch: nat, param: nat): (k: nat)
    ensures param < NPARAMS ==> k / NPARAMS == ch && k % NPARAMS == param
  {
    NPARAMS * ch + param
  }

  predicate ValueInRange(param: nat, value: nat) {
    if param <= 1 then value <= 1 else param == 2 && value <= SENS_MAX
  }

  function CellText(k: nat, value: nat): (s: string)
    ensures s != ""
  {
    Dec(k / NPARAMS) + ":" + (Dec(k % NPARAMS) + "=" + Dec(value))
  }

  /** The text of the first `k` cells: the set ones, in order, separated by commas. */
  function Rendered(t: seq<Cell>, k: nat): string
    requires k <= |t|
  {
    if k == 0 then ""
    else if t[k - 1].Unset? then Rendered(t, k - 1)
    else
      var before := Rendered(t, k - 1);
      (if before == "" then "" else before + ",") + CellText(k - 1, t[k - 1].value)
  }

  predicate InRange(t: Table) {
    forall k :: 0 <= k < CELLS && t[k].Cell? ==> ValueInRange(k % NPARAMS, t[k].value)
  }

  function Updated(t: Table, ch: nat, param: nat, value: nat): Table
    requires ch < MAX_CH && param < NPARAMS
  {
    t[Index(ch, param) := Cell(value)]
  }

  class Asserted {
    var value: array2<nat>
    var set_: array2<bool>

    ghost predicate Valid()
      reads this, value, set_
    {
      && value.Length0 == set_.Length0 == MAX_CH
      && value.Length1 == set_.Length1 == NPARAMS
    }

    ghost function Contents(): (t: Table)
      requires Valid()
      reads this, value, set_
    {
      seq(CELLS, k requires 0 <= k < CELLS reads this, value, set_ requires Valid() =>
        if set_[k / NPARAMS, k % NPARAMS] then Cell(value[k / NPARAMS, k % NPARAMS]) else Unset)
    }

    constructor ()
      ensures Valid() && fresh(value) && fresh(set_)
      ensures Contents() == seq(CELLS, _ => Unset)
    {
      value := new nat[MAX_CH, NPARAMS]((_, _) => 0);
      set_ := new bool[MAX_CH, NPARAMS]((_, _) => false);
    }

    /** Record one accepted cell, or refuse it and change nothing. */
    method Set(ch: nat, param: nat, v: nat) returns (ok: bool)
      requires Valid()
      modifies value, set_
      ensures Valid()
      ensures ok == (ch < MAX_CH && param < NPARAMS && ValueInRange(param, v))
      ensures Contents() == if ok then Updated(old(Contents()), ch, param, v) else old(Contents())
    {
      if ch >= MAX_CH || param >= NPARAMS || !ValueInRange(param, v) {
        return false;
      }
      ghost var was := Contents();
      value[ch, param] := v;
      set_[ch, param] := true;
      forall k | 0 <= k < CELLS
        ensures Contents()[k] == Updated(was, ch, param, v)[k]
      {
        if k != Index(ch, param) {
          assert k / NPARAMS != ch || k % NPARAMS != param;
        }
      }
      return true;
    }

    /** Append what fits of one cell's text after the first `used` characters. */
    static method Append(buf: array<char>, used: nat, cell: string, ghost before: string)
      requires |before| == used && Holds(buf, before)
      modifies buf
      ensures Holds(buf, before + cell)
    {
      if buf.Length > 0 && used < buf.Length - 1 {
        var room := buf.Length - 1 - used;
        var take := if |cell| < room then |cell| else room;
        forall j | 0 <= j < take {
          buf[used + j] := cell[j];
        }
        buf[used + take] := '\0';
        assert buf[..used] == before;
        assert (before + cell)[..used + take] == before + cell[..take];
        assert buf[..used + take] == before + cell[..take];
      } else if buf.Length > 0 {
        assert (before + cell)[..buf.Length - 1] == before[..buf.Length - 1];
      }
    }

    method Render(buf: array<char>) returns (len: nat)
      requires Valid()
      modifies buf
      ensures len == |Rendered(Contents(), CELLS)|
      ensures Holds(buf, Rendered(Contents(), CELLS))
    {
      len := 0;
      if buf.Length > 0 {
        buf[0] := '\0';
      }
      var ch := 0;
      while ch < MAX_CH
        invariant 0 <= ch <= MAX_CH && Contents() == old(Contents())
        invariant len == |Rendered(Contents(), Index(ch, 0))|
        invariant Holds(buf, Rendered(Contents(), Index(ch, 0)))
      {
        len := RenderChannel(buf, ch, len);
        ch := ch + 1;
      }
    }

    method RenderChannel(buf: array<char>, ch: nat, used: nat) returns (len: nat)
      requires Valid() && ch < MAX_CH
      requires used == |Rendered(Contents(), Index(ch, 0))| && Holds(buf, Rendered(Contents(), Index(ch, 0)))
      modifies buf
      ensures len == |Rendered(Contents(), Index(ch + 1, 0))|
      ensures Holds(buf, Rendered(Contents(), Index(ch + 1, 0)))
    {
      len := used;
      var p := 0;
      while p < NPARAMS
        invariant 0 <= p <= NPARAMS && Contents() == old(Contents())
        invariant len == |Rendered(Contents(), Index(ch, p))|
        invariant Holds(buf, Rendered(Contents(), Index(ch, p)))
      {
        len := RenderCell(buf, ch, p, len);
        p := p + 1;
      }
    }

    method RenderCell(buf: array<char>, ch: nat, p: nat, used: nat) returns (len: nat)
      requires Valid() && ch < MAX_CH && p < NPARAMS
      requires used == |Rendered(Contents(), Index(ch, p))| && Holds(buf, Rendered(Contents(), Index(ch, p)))
      modifies buf
      ensures len == |Rendered(Contents(), Index(ch, p + 1))|
      ensures Holds(buf, Rendered(Contents(), Index(ch, p + 1)))
    {
      hide Rendered, Dec;
      len := used;
      ghost var before := Rendered(Contents(), Index(ch, p));
      NextCell(Contents(), ch, p);
      if set_[ch, p] {
        var cell := (if used > 0 then "," else "")
                    + (Dec(ch) + ":" + (Dec(p) + "=" + Dec(value[ch, p])));
        Append(buf, used, cell, before);
        len := used + |cell|;
      }
    }
  }

  lemma NextCell(t: Table, ch: nat, p: nat)
    requires ch < MAX_CH && p < NPARAMS
    ensures var k := Index(ch, p);
            && k < CELLS && k / NPARAMS == ch && k % NPARAMS == p
            && var before := Rendered(t, k);
               Rendered(t, Index(ch, p + 1))
               == if t[k].Unset? then before
                  else before + ((if |before| > 0 then "," else "")
                                 + (Dec(ch) + ":" + (Dec(p) + "=" + Dec(t[k].value))))
  {
  }

  /** The buffer holds all of the text that fits, and a NUL after it; nothing fits in no buffer. */
  ghost predicate Holds(buf: array<char>, text: string)
    reads buf
  {
    buf.Length > 0 ==>
      var n := if |text| < buf.Length - 1 then |text| else buf.Length - 1;
      buf[..n] == text[..n] && buf[n] == '\0'
  }

  // ---- the text fits, and says which table it is ----------------------------------------

  datatype Write = Write(ch: nat, param: nat, value: nat)

  predicate Accepts(w: Write) {
    w.ch < MAX_CH && w.param < NPARAMS && ValueInRange(w.param, w.value)
  }

  /** The table any sequence of writes builds, refused ones among them. */
  function Built(writes: seq<Write>): (t: Table)
    ensures InRange(t)
    decreases |writes|
  {
    if writes == [] then seq(CELLS, _ => Unset)
    else
      var t, w := Built(writes[..|writes| - 1]), writes[|writes| - 1];
      if Accepts(w) then Updated(t, w.ch, w.param, w.value) else t
  }

  /** What the last write to a cell within its range asked for. */
  function LastWrite(writes: seq<Write>, ch: nat, param: nat): Cell
    decreases |writes|
  {
    if writes == [] then Unset
    else
      var w := writes[|writes| - 1];
      if w.ch == ch && w.param == param && w.value <= (if param == 2 then 0x37 else 1) then Cell(w.value)
      else LastWrite(writes[..|writes| - 1], ch, param)
  }

  /** After any writes every cell of the wire holds it, refused writes and those to other cells
    * notwithstanding. */
  lemma {:induction false} LastWriteWins(writes: seq<Write>, ch: nat, param: nat)
    requires ch < 48 && param < 3
    ensures Index(ch, param) < CELLS
    ensures Built(writes)[Index(ch, param)] == LastWrite(writes, ch, param)
    decreases |writes|
  {
    if writes != [] {
      var w := writes[|writes| - 1];
      LastWriteWins(writes[..|writes| - 1], ch, param);
      assert w.param < 3 && Index(w.ch, w.param) == Index(ch, param) ==> w.ch == ch && w.param == param;
    }
  }

  lemma {:induction false} RenderedLength(t: Table, k: nat)
    requires InRange(t) && k <= CELLS
    ensures |Rendered(t, k)| <= 8 * k
    decreases k
  {
    if k > 0 {
      RenderedLength(t, k - 1);
      if t[k - 1].Cell? {
        assert Pow10(1) == 10 && Pow10(2) == 100;
        DecLength((k - 1) / NPARAMS, 2, 100);
        DecLength((k - 1) % NPARAMS, 1, 10);
        DecLength(t[k - 1].value, 2, 100);
      }
    }
  }

  /** The text of any table the writes build fits its bound, NUL included. */
  lemma BuiltTablesFit(writes: seq<Write>)
    ensures |Rendered(Built(writes), CELLS)| < ASSERTED_MAX
  {
    RenderedLength(Built(writes), CELLS);
  }

  lemma CellTextInjective(j: nat, v: nat, k: nat, w: nat)
    requires CellText(j, v) == CellText(k, w)
    ensures j == k && v == w
  {
    DigitsLack(Dec(j / NPARAMS), ':');
    DigitsLack(Dec(k / NPARAMS), ':');
    SplitFirst(Dec(j / NPARAMS), Dec(j % NPARAMS) + "=" + Dec(v),
               Dec(k / NPARAMS), Dec(k % NPARAMS) + "=" + Dec(w), ':');
    DigitsLack(Dec(j % NPARAMS), '=');
    DigitsLack(Dec(k % NPARAMS), '=');
    SplitFirst(Dec(j % NPARAMS), Dec(v), Dec(k % NPARAMS), Dec(w), '=');
    DecInjective(j / NPARAMS, k / NPARAMS);
    DecInjective(j % NPARAMS, k % NPARAMS);
    DecInjective(v, w);
  }

  lemma CellTextLacksComma(k: nat, v: nat)
    ensures Lacks(CellText(k, v), ',')
  {
  }

  /** A text that is not empty ends in the text of its last set cell. */
  lemma {:induction false} LastCell(t: seq<Cell>, k: nat) returns (j: nat)
    requires k <= |t| && Rendered(t, k) != ""
    ensures j < k && t[j].Cell? && Rendered(t, k) == Rendered(t, j + 1)
    ensures forall i :: j < i < k ==> t[i].Unset?
    decreases k
  {
    j := k - 1;
    if t[k - 1].Unset? {
      j := LastCell(t, k - 1);
    }
  }

  lemma {:induction false} EmptyText(t: seq<Cell>, k: nat)
    requires k <= |t| && Rendered(t, k) == ""
    ensures forall i :: 0 <= i < k ==> t[i].Unset?
    decreases k
  {
    if k > 0 {
      EmptyText(t, k - 1);
    }
  }

  /** Two cells that end the same text are the same cell, after the same text. */
  lemma SameEnd(a: string, j: nat, v: nat, b: string, k: nat, w: nat)
    requires (if a == "" then "" else a + ",") + CellText(j, v)
          == (if b == "" then "" else b + ",") + CellText(k, w)
    ensures j == k && v == w && a == b
  {
    CellTextLacksComma(j, v);
    CellTextLacksComma(k, w);
    var x, y := CellText(j, v), CellText(k, w);
    assert a != "" ==> (a + "," + x)[|a|] == ',';
    assert b != "" ==> (b + "," + y)[|b|] == ',';
    assert a == "" <==> b == "";
    if a != "" {
      SplitLast(a, x, b, y, ',');
    } else {
      assert "" + x == x && "" + y == y;
    }
    CellTextInjective(j, v, k, w);
  }

  /** Every set cell of `t` before `m` is a cell of `u` before `n`. */
  predicate Within(t: seq<Cell>, m: nat, u: seq<Cell>, n: nat)
    requires m <= |t| && n <= |u|
  {
    forall i :: 0 <= i < m && t[i].Cell? ==> i < n && u[i] == t[i]
  }

  lemma WithinExtends(t: seq<Cell>, m: nat, u: seq<Cell>, n: nat, j: nat)
    requires j < m <= |t| && j < n <= |u| && t[j] == u[j]
    requires Within(t, j, u, j) && forall i :: j < i < m ==> t[i].Unset?
    ensures Within(t, m, u, n)
  {
  }

  lemma {:induction false} RenderedInjective(t: seq<Cell>, u: seq<Cell>, m: nat, n: nat)
    requires m <= |t| && n <= |u| && Rendered(t, m) == Rendered(u, n)
    ensures Within(t, m, u, n) && Within(u, n, t, m)
    decreases m
  {
    if Rendered(t, m) == "" {
      EmptyText(t, m);
      EmptyText(u, n);
    } else {
      var j := LastCell(t, m);
      var k := LastCell(u, n);
      SameEnd(Rendered(t, j), j, t[j].value, Rendered(u, k), k, u[k].value);
      RenderedInjective(t, u, j, k);
      WithinExtends(t, m, u, n, j);
      WithinExtends(u, n, t, m, j);
    }
  }

  /** Two tables have the same text exactly when they are the same table, cell for cell. */
  lemma TextNamesTheTable(t: Table, u: Table)
    ensures Rendered(t, CELLS) == Rendered(u, CELLS) <==> t == u
  {
    if Rendered(t, CELLS) == Rendered(u, CELLS) {
      RenderedInjective(t, u, CELLS, CELLS);
      forall i | 0 <= i < CELLS ensures t[i] == u[i] {
      }
    }
  }
}
