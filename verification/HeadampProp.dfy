/** The head-amp cells a controller writes, read out of a list of pods that pairs String keys with
  * values. */
module HeadampProp {
  import opened Text
  import opened FloatNear
  import HeadampState

  const PREFIX: string := "reac.headamp."

  /** What the accessors make of a pod; Other is a pod that none of the four reads. */
  datatype Pod = Bool(flag: bool) | Int(number: int) | Real(float: Float) | String(text: string) | Other

  /** The object a client sets, as the reader finds its params property. */
  datatype Props = NotProps | NoParams | Params(pods: seq<Pod>)

  datatype Setting = Setting(ch: nat, param: nat, value: nat)

  datatype Refusal = RefuseNone | BadKey | OutOfRange

  // ---- the pairing rule ----------------------------------------------------------------

  /** The pairs from pod `at` on: each String met where a key is looked for, with the pod that
    * follows it.  The search for a key passes over pods of every other type. */
  function Pairs(pods: seq<Pod>, at: nat): seq<(string, Pod)>
    decreases |pods| - at
  {
    if at >= |pods| then []
    else if !pods[at].String? then Pairs(pods, at + 1)
    else if at + 1 == |pods| then []
    else [(pods[at].text, pods[at + 1])] + Pairs(pods, at + 2)
  }

  /** One step of the pairing: a key and where its value stands, at `|pods|` for no more pairs. */
  method NextPair(pods: seq<Pod>, at: nat) returns (key: string, value: nat, next: nat)
    requires at <= |pods|
    ensures at <= next <= |pods| && value <= |pods|
    ensures Pairs(pods, at)
         == if value < |pods| then [(key, pods[value])] + Pairs(pods, next) else []
  {
    key := "";
    var pending := false;
    next := at;
    while next < |pods|
      invariant at <= next <= |pods|
      invariant pending ==> at < next && pods[next - 1] == String(key)
      invariant Pairs(pods, at) == Pairs(pods, if pending then next - 1 else next)
    {
      if !pending {
        if pods[next].String? {
          key := pods[next].text;
          pending := true;
        }
        next := next + 1;
      } else {
        return key, next, next + 1;
      }
    }
    value := |pods|;
  }

  /** Pod `i` is a key: a String that is not the value of the key before it. */
  predicate IsKey(pods: seq<Pod>, i: nat)
    requires i < |pods|
  {
    pods[i].String? && !(i > 0 && IsKey(pods, i - 1))
  }

  /** Each key but a last pod, with the pod behind it, in order from `at` on. */
  function KeysAndValues(pods: seq<Pod>, at: nat): seq<(string, Pod)>
    decreases |pods| - at
  {
    if at + 1 >= |pods| then []
    else (if IsKey(pods, at) then [(pods[at].text, pods[at + 1])] else []) + KeysAndValues(pods, at + 1)
  }

  /** Wherever no key waits for its value the pairs to come are the keys to come with their values:
    * what is a key depends on the pods before it alone. */
  lemma {:induction false} PairsAreKeysAndValues(pods: seq<Pod>, at: nat)
    requires 0 < at <= |pods| ==> !IsKey(pods, at - 1)
    ensures Pairs(pods, at) == KeysAndValues(pods, at)
    decreases |pods| - at
  {
    if at < |pods| {
      if !pods[at].String? {
        PairsAreKeysAndValues(pods, at + 1);
      } else if at + 1 < |pods| {
        PairsAreKeysAndValues(pods, at + 2);
        if at + 2 <= |pods| {
          assert !IsKey(pods, at + 1);
        }
      }
    }
  }

  // ---- one key -------------------------------------------------------------------------

  predicate Space(c: char) {
    c == ' ' || c == '\t' || c == '\n' || c == '\r' || c == '\U{0B}' || c == '\U{0C}'
  }

  function SpaceLen(s: string): (n: nat)
    ensures n <= |s| && (n < |s| ==> !Space(s[n])) && forall i :: 0 <= i < n ==> Space(s[i])
  {
    if s == "" || !Space(s[0]) then 0 else 1 + SpaceLen(s[1..])
  }

  function SignLen(s: string): (n: nat)
    ensures n <= |s|
  {
    if s != "" && (s[0] == '-' || s[0] == '+') then 1 else 0
  }

  function DigitLen(s: string): (n: nat)
    ensures n <= |s| && (n < |s| ==> !Digit(s[n])) && forall i :: 0 <= i < n ==> Digit(s[i])
  {
    if s == "" || !Digit(s[0]) then 0 else 1 + DigitLen(s[1..])
  }

  /** `strtol` in base ten: the number, and where it ends, 0 when there is none.  The source's
    * saturation changes no answer below: a saturated number is out of every range asked of it. */
  function Strtol(s: string): (int, nat) {
    var w := SpaceLen(s);
    var (n, end) := SignedNumber(s[w..]);
    if end == 0 then (0, 0) else (n, w + end)
  }

  function SignedNumber(s: string): (int, nat) {
    var g := SignLen(s);
    var d := DigitLen(s[g..]);
    if d == 0 then (0, 0) else (Signed(s[..g], s[g..][..d]), g + d)
  }

  function Signed(sign: string, digits: string): int
    requires forall i :: 0 <= i < |digits| ==> Digit(digits[i])
  {
    if sign == "-" then -(ValueOf(digits) as int) else ValueOf(digits)
  }

  function ParamName(p: nat): string
    requires p < HeadampState.NPARAMS
  {
    if p == 0 then "phantom" else if p == 1 then "pad" else "sens"
  }

  function ParamId(name: string): (p: int)
    ensures -1 <= p < HeadampState.NPARAMS && (0 <= p ==> ParamName(p) == name)
    ensures forall q :: 0 <= q < HeadampState.NPARAMS && ParamName(q) == name ==> p == q
  {
    if name == "phantom" then 0 else if name == "pad" then 1 else if name == "sens" then 2 else -1
  }

  datatype Address = Address(ch: nat, param: nat) | NotAddress(why: Refusal)

  function ParseKey(rest: string): Address {
    var (c, dot) := Strtol(rest);
    if dot == 0 || dot == |rest| || rest[dot] != '.' then NotAddress(BadKey)
    else
      var p := ParamId(rest[dot + 1..]);
      if p < 0 then NotAddress(BadKey)
      else if c < 0 || c >= HeadampState.MAX_CH then NotAddress(OutOfRange)
      else Address(c, p)
  }

  function ByteOf(v: Pod): int
  {
    match v
    case Bool(b) => if b then 1 else 0
    case Int(i) => if 0 <= i <= 255 then i else -1
    case Real(f) => (match FloatNearest(f, 0, 255) case Nearest(n) => n case NoneNear => -1)
    case String(_) => -1
    case Other => -1
  }

  datatype Verdict = Skip | Good(cell: Setting) | Bad(why: Refusal)

  predicate Prefixed(key: string) { PREFIX <= key }

  /** What becomes of one pair. */
  function Judge(pair: (string, Pod)): Verdict {
    if !Prefixed(pair.0) then Skip
    else
      match ParseKey(pair.0[|PREFIX|..])
      case NotAddress(why) => Bad(why)
      case Address(ch, param) =>
        FloatBytes(pair.1);
        var v := ByteOf(pair.1);
        if v < 0 || !HeadampState.ValueInRange(param, v) then Bad(OutOfRange)
        else Good(Setting(ch, param, v))
  }

  lemma FloatBytes(v: Pod)
    ensures -1 <= ByteOf(v) <= 255
  {
  }

  // ---- the walk, specified on what becomes of the pairs ---------------------------------

  function Verdicts(pairs: seq<(string, Pod)>): (vs: seq<Verdict>)
    ensures |vs| == |pairs|
  {
    if pairs == [] then [] else [Judge(pairs[0])] + Verdicts(pairs[1..])
  }

  /** What becomes of the pairs from pod `at` on. */
  function VerdictsFrom(pods: seq<Pod>, at: nat): seq<Verdict> { Verdicts(Pairs(pods, at)) }

  function Goods(vs: seq<Verdict>): seq<Setting> {
    if vs == [] then [] else (if vs[0].Good? then [vs[0].cell] else []) + Goods(vs[1..])
  }

  /** How far the walk looks: to the end, or as far as the first well-formed cell that the caller
    * has no room for, that one included. */
  function Reached(vs: seq<Verdict>, room: nat): seq<Verdict> {
    if vs == [] then []
    else if !vs[0].Good? then [vs[0]] + Reached(vs[1..], room)
    else if room == 0 then [vs[0]]
    else [vs[0]] + Reached(vs[1..], room - 1)
  }

  /** How many pairs were not skipped. */
  function Keys(vs: seq<Verdict>): nat {
    if vs == [] then 0 else (if vs[0].Skip? then 0 else 1) + Keys(vs[1..])
  }

  function FirstRefusal(vs: seq<Verdict>): Refusal {
    if vs == [] then RefuseNone else if vs[0].Bad? then vs[0].why else FirstRefusal(vs[1..])
  }

  function Take(cells: seq<Setting>, room: nat): seq<Setting> {
    if |cells| <= room then cells else cells[..room]
  }

  datatype Found = Found(cells: seq<Setting>, keys: nat, refusal: Refusal)

  const Nothing: Found := Found([], 0, RefuseNone)

  /** What the walk has found in all, having found `f` with `left` still to come. */
  function InAll(f: Found, left: seq<Verdict>, room: nat): Found
    requires |f.cells| <= room
  {
    var more := Reached(left, room - |f.cells|);
    Found(f.cells + Take(Goods(left), room - |f.cells|), f.keys + Keys(more),
          if f.refusal != RefuseNone then f.refusal else FirstRefusal(more))
  }

  lemma SkipStep(f: Found, left: seq<Verdict>, room: nat)
    requires |f.cells| <= room && left != [] && left[0].Skip?
    ensures InAll(f, left, room) == InAll(f, left[1..], room)
  {
    var more := Reached(left[1..], room - |f.cells|);
    assert ([left[0]] + more)[1..] == more;
    assert Goods(left) == Goods(left[1..]);
  }

  /** Taking a bad pair: it is counted, and its refusal kept if there was none. */
  lemma BadStep(f: Found, left: seq<Verdict>, room: nat)
    requires |f.cells| <= room && left != [] && left[0].Bad? && left[0].why != RefuseNone
    ensures InAll(f, left, room)
         == InAll(Found(f.cells, f.keys + 1, if f.refusal == RefuseNone then left[0].why else f.refusal),
                  left[1..], room)
  {
    var more := Reached(left[1..], room - |f.cells|);
    assert ([left[0]] + more)[1..] == more;
    assert Goods(left) == Goods(left[1..]);
  }

  lemma GoodStep(f: Found, left: seq<Verdict>, room: nat)
    requires |f.cells| < room && left != [] && left[0].Good?
    ensures InAll(f, left, room)
         == InAll(Found(f.cells + [left[0].cell], f.keys + 1, f.refusal), left[1..], room)
  {
    var rest, n := left[1..], room - |f.cells| - 1;
    var more := Reached(rest, n);
    assert ([left[0]] + more)[1..] == more;
    assert Take(Goods(left), n + 1) == [left[0].cell] + Take(Goods(rest), n);
    assert f.cells + [left[0].cell] + Take(Goods(rest), n)
        == f.cells + ([left[0].cell] + Take(Goods(rest), n));
  }

  lemma FullStep(f: Found, left: seq<Verdict>, room: nat)
    requires |f.cells| == room && left != [] && left[0].Good?
    ensures InAll(f, left, room) == Found(f.cells, f.keys + 1, f.refusal)
  {
    assert Keys([left[0]]) == 1 && FirstRefusal([left[0]]) == RefuseNone;
    assert f.cells + Take(Goods(left), 0) == f.cells;
  }

  /** One pair as the reader takes it: not a head-amp key, or its key first, then its value. */
  method ReadPair(key: string, value: Pod) returns (v: Verdict)
    ensures v == Judge((key, value)) && (v.Bad? ==> v.why != RefuseNone)
  {
    if !Prefixed(key) {
      return Skip;
    }
    var address := ParseKey(key[|PREFIX|..]);
    if address.NotAddress? {
      return Bad(address.why);
    }
    var b := ByteOf(value);
    FloatBytes(value);
    if b < 0 || !HeadampState.ValueInRange(address.param, b) {
      return Bad(OutOfRange);
    }
    return Good(Setting(address.ch, address.param, b));
  }

  /** The reader: the cells written to `out`, how many keys it saw, the first thing wrong. */
  method ParseResult(props: Props, out: array<Setting>, max: int)
    returns (n: int, keys: nat, refusal: Refusal)
    requires max <= out.Length
    modifies out
    ensures props.NotProps? ==> n == -1 && keys == 0 && refusal == RefuseNone
    ensures props.NoParams? ==> n == 0 && keys == 0 && refusal == RefuseNone
    ensures props.Params? ==>
              0 <= n <= out.Length
              && Found(out[..n], keys, refusal)
                 == InAll(Nothing, VerdictsFrom(props.pods, 0), if max < 0 then 0 else max)
    ensures forall i :: (if n < 0 then 0 else n) <= i < out.Length ==> out[i] == old(out[i])
  {
    if props.NotProps? {
      return -1, 0, RefuseNone;
    }
    if props.NoParams? {
      return 0, 0, RefuseNone;
    }
    n, keys, refusal := WalkPods(props.pods, out, max);
  }

  /** The walk with its pending key: a pair is taken when its value is reached. */
  method WalkPods(pods: seq<Pod>, out: array<Setting>, max: int)
    returns (n: nat, keys: nat, refusal: Refusal)
    requires max <= out.Length
    modifies out
    ensures n <= out.Length
    ensures Found(out[..n], keys, refusal)
         == InAll(Nothing, VerdictsFrom(pods, 0), if max < 0 then 0 else max)
    ensures forall i :: n <= i < out.Length ==> out[i] == old(out[i])
  {
    hide InAll, VerdictsFrom;
    n, keys, refusal := 0, 0, RefuseNone;
    ghost var room := if max < 0 then 0 else max;
    ghost var left := VerdictsFrom(pods, 0);
    ghost var total := InAll(Nothing, left, room);
    var pending, i := false, 0;
    while i < |pods|
      invariant 0 <= i <= |pods| && 0 <= n <= room
      invariant pending ==> 0 < i && pods[i - 1].String?
      invariant left == VerdictsFrom(pods, if pending then i - 1 else i)
      invariant InAll(Found(out[..n], keys, refusal), left, room) == total
      invariant forall k :: n <= k < out.Length ==> out[k] == old(out[k])
    {
      if !pending {
        KeySlot(pods, i);
        pending := pods[i].String?;
      } else {
        var v := ReadNext(pods, i, left);
        var full;
        n, keys, refusal, full := TakeVerdict(v, out, max, n, keys, refusal, left);
        if full {
          return;
        }
        left := left[1..];
        pending := false;
      }
      i := i + 1;
    }
    NoneLeft(pods, pending);
    NothingLeft(Found(out[..n], keys, refusal), room);
  }

  lemma NothingLeft(f: Found, room: nat)
    requires |f.cells| <= room
    ensures InAll(f, [], room) == f
  {
  }

  lemma KeySlot(pods: seq<Pod>, i: nat)
    requires i < |pods|
    ensures !pods[i].String? ==> VerdictsFrom(pods, i) == VerdictsFrom(pods, i + 1)
  {
  }

  lemma NoneLeft(pods: seq<Pod>, pending: bool)
    requires pending ==> pods != [] && pods[|pods| - 1].String?
    ensures VerdictsFrom(pods, if pending then |pods| - 1 else |pods|) == []
  {
  }

  method ReadNext(pods: seq<Pod>, i: nat, ghost left: seq<Verdict>) returns (v: Verdict)
    requires 0 < i < |pods| && pods[i - 1].String? && left == VerdictsFrom(pods, i - 1)
    ensures left != [] && v == left[0] && left[1..] == VerdictsFrom(pods, i + 1)
    ensures v.Bad? ==> v.why != RefuseNone
  {
    NextVerdict(pods, i);
    v := ReadPair(pods[i - 1].text, pods[i]);
  }

  /** What one pair adds; `full` when it is a cell that `out` has no room for. */
  method TakeVerdict(v: Verdict, out: array<Setting>, max: int, n0: nat, keys0: nat, refusal0: Refusal,
                     ghost left: seq<Verdict>)
    returns (n: nat, keys: nat, refusal: Refusal, full: bool)
    requires max <= out.Length && n0 <= (if max < 0 then 0 else max)
    requires left != [] && left[0] == v && (v.Bad? ==> v.why != RefuseNone)
    modifies out
    ensures n0 <= n <= (if max < 0 then 0 else max)
    ensures var room, was := if max < 0 then 0 else max, Found(old(out[..n0]), keys0, refusal0);
            InAll(was, left, room) == if full then Found(out[..n], keys, refusal)
                                      else InAll(Found(out[..n], keys, refusal), left[1..], room)
    ensures forall i :: n <= i < out.Length ==> out[i] == old(out[i])
  {
    hide InAll;
    n, keys, refusal, full := n0, keys0, refusal0, false;
    ghost var room := if max < 0 then 0 else max;
    ghost var was := Found(out[..n], keys, refusal);
    match v {
      case Skip => SkipStep(was, left, room);
      case Bad(why) =>
        BadStep(was, left, room);
        keys := keys + 1;
        if refusal == RefuseNone {
          refusal := why;
        }
      case Good(cell) =>
        keys := keys + 1;
        if n >= max {
          FullStep(was, left, room);
          full := true;
          return;
        }
        GoodStep(was, left, room);
        out[n] := cell;
        n := n + 1;
        assert out[..n] == was.cells + [cell];
    }
  }

  lemma NextVerdict(pods: seq<Pod>, i: nat)
    requires 0 < i < |pods| && pods[i - 1].String?
    ensures var vs := VerdictsFrom(pods, i - 1);
            vs != [] && vs[0] == Judge((pods[i - 1].text, pods[i])) && vs[1..] == VerdictsFrom(pods, i + 1)
  {
  }

  // ---- what a key addresses --------------------------------------------------------------

  predicate Spaces(s: string) { forall i :: 0 <= i < |s| ==> Space(s[i]) }

  predicate Sign(s: string) { s == "" || s == "+" || s == "-" }

  /** The text names channel `c` and parameter `p`: blanks, a sign and digits, a dot, a name. */
  ghost predicate Names(rest: string, c: int, p: nat) {
    p < HeadampState.NPARAMS && exists blanks, sign, digits ::
      Spaces(blanks) && Sign(sign) && Digits(digits) && c == Signed(sign, digits)
      && rest == blanks + sign + digits + "." + ParamName(p)
  }

  lemma {:induction false} SpaceLenOf(blanks: string, tail: string)
    requires Spaces(blanks) && (tail == "" || !Space(tail[0]))
    ensures SpaceLen(blanks + tail) == |blanks|
    decreases |blanks|
  {
    if blanks == "" {
      assert "" + tail == tail;
    } else {
      assert (blanks + tail)[1..] == blanks[1..] + tail;
      SpaceLenOf(blanks[1..], tail);
    }
  }

  lemma {:induction false} DigitLenOf(digits: string, tail: string)
    requires forall i :: 0 <= i < |digits| ==> Digit(digits[i])
    requires tail == "" || !Digit(tail[0])
    ensures DigitLen(digits + tail) == |digits|
    decreases |digits|
  {
    if digits == "" {
      assert "" + tail == tail;
    } else {
      assert (digits + tail)[1..] == digits[1..] + tail;
      DigitLenOf(digits[1..], tail);
    }
  }

  lemma SignedNumberOf(sign: string, digits: string, tail: string)
    requires Sign(sign) && Digits(digits) && (tail == "" || !Digit(tail[0]))
    ensures SignedNumber(sign + digits + tail) == (Signed(sign, digits), |sign| + |digits|)
    ensures !Space((sign + digits + tail)[0])
  {
    hide Signed, DigitLen;
    var s, rest := sign + digits + tail, digits + tail;
    SignOf(sign, digits, tail);
    DigitLenOf(digits, tail);
    assert rest[..|digits|] == digits;
  }

  /** A number's sign is what stands before its digits. */
  lemma SignOf(sign: string, digits: string, tail: string)
    requires Sign(sign) && Digits(digits)
    ensures var s := sign + digits + tail;
            && SignLen(s) == |sign| && s[..|sign|] == sign && s[|sign|..] == digits + tail
            && !Space(s[0])
  {
    var s := sign + digits + tail;
    assert Digit(digits[0]) && s[0] == (if sign == "" then digits[0] else sign[0]);
    assert s[|sign|..] == digits + tail && s[..|sign|] == sign;
  }

  lemma StrtolOf(blanks: string, sign: string, digits: string, tail: string)
    requires Spaces(blanks) && Sign(sign) && Digits(digits) && (tail == "" || !Digit(tail[0]))
    ensures Strtol(blanks + sign + digits + tail)
         == (Signed(sign, digits), |blanks| + |sign| + |digits|)
  {
    hide SignedNumber, Signed;
    var rest := sign + digits + tail;
    assert blanks + sign + digits + tail == blanks + rest;
    SignedNumberOf(sign, digits, tail);
    SpaceLenOf(blanks, rest);
    assert (blanks + rest)[|blanks|..] == rest;
  }

  lemma SignedNumberReads(s: string) returns (sign: string, digits: string)
    requires SignedNumber(s).1 > 0
    ensures Sign(sign) && Digits(digits) && SignedNumber(s).0 == Signed(sign, digits)
    ensures SignedNumber(s).1 <= |s| && s[..SignedNumber(s).1] == sign + digits
  {
    hide Signed;
    var g := SignLen(s);
    var d := DigitLen(s[g..]);
    sign, digits := s[..g], s[g..][..d];
    assert g > 0 ==> sign == [s[0]];
    assert s[..g + d] == sign + digits;
  }

  /** A number read is blanks, a sign and digits of the text, up to where the reading ends. */
  lemma StrtolReads(s: string) returns (blanks: string, sign: string, digits: string)
    requires Strtol(s).1 > 0
    ensures Spaces(blanks) && Sign(sign) && Digits(digits)
    ensures Strtol(s).1 <= |s| && Strtol(s).0 == Signed(sign, digits)
    ensures s[..Strtol(s).1] == blanks + sign + digits
  {
    hide SignedNumber, Signed, Digits;
    var w := SpaceLen(s);
    var (_, end) := SignedNumber(s[w..]);
    blanks := s[..w];
    sign, digits := SignedNumberReads(s[w..]);
    assert s[..w + end] == s[..w] + s[w..][..end];
    assert blanks + (sign + digits) == blanks + sign + digits;
  }

  lemma NamedKeyParses(rest: string, c: int, p: nat)
    requires Names(rest, c, p)
    ensures ParseKey(rest)
         == if 0 <= c < HeadampState.MAX_CH then Address(c, p) else NotAddress(OutOfRange)
  {
    hide Strtol, Signed, ParamName, ParamId;
    var blanks, sign, digits :|
      Spaces(blanks) && Sign(sign) && Digits(digits) && c == Signed(sign, digits)
      && rest == blanks + sign + digits + "." + ParamName(p);
    var head, tail := blanks + sign + digits, "." + ParamName(p);
    assert rest == head + tail;
    assert tail[0] == '.';
    StrtolOf(blanks, sign, digits, tail);
    assert rest[|head|] == '.' && rest[|head| + 1..] == ParamName(p);
  }

  lemma ParsedKeyIsNamed(rest: string)
    requires ParseKey(rest) != NotAddress(BadKey)
    ensures exists p :: Names(rest, Strtol(rest).0, p)
  {
    hide Strtol, Signed, ParamName, ParamId;
    var (c, dot) := Strtol(rest);
    var blanks, sign, digits := StrtolReads(rest);
    var p := ParamId(rest[dot + 1..]);
    assert ParamName(p) == rest[dot + 1..];
    assert rest == rest[..dot] + "." + rest[dot + 1..];
    assert Names(rest, c, p);
  }

  /** A key is refused as no address exactly when it names no cell at all; when it names one, the
    * cell is the one it names if its channel exists, and out of range if not. */
  lemma KeyAddressesIff(rest: string)
    ensures ParseKey(rest) == NotAddress(BadKey) <==> forall c, p :: !Names(rest, c, p)
    ensures forall c, p :: Names(rest, c, p) ==>
              ParseKey(rest)
              == if 0 <= c < HeadampState.MAX_CH then Address(c, p) else NotAddress(OutOfRange)
  {
    forall c: int, p: nat | Names(rest, c, p)
      ensures ParseKey(rest)
           == if 0 <= c < HeadampState.MAX_CH then Address(c, p) else NotAddress(OutOfRange)
    {
      NamedKeyParses(rest, c, p);
    }
    if ParseKey(rest) != NotAddress(BadKey) {
      ParsedKeyIsNamed(rest);
    }
  }

  /** The blanks a number may follow: a space, and the controls from tab to carriage return. */
  lemma BlanksAre(c: char)
    ensures Space(c) <==> c as int == 32 || 9 <= c as int <= 13
  {
  }

  /** A plus changes nothing, and a minus leaves only channel 0, whose number it is as well. */
  lemma SignedKeysParse(n: nat)
    ensures ParseKey("+" + Dec(n) + ".pad") == if n < 48 then Address(n, 1) else NotAddress(OutOfRange)
    ensures ParseKey("-" + Dec(n) + ".pad") == if n == 0 then Address(0, 1) else NotAddress(OutOfRange)
  {
    hide ParseKey, Dec;
    DecValue(n);
    SignedKeyNames("+", n);
    SignedKeyNames("-", n);
    KeyAddressesIff("+" + Dec(n) + ".pad");
    KeyAddressesIff("-" + Dec(n) + ".pad");
  }

  lemma SignedKeyNames(sign: string, n: nat)
    requires sign == "+" || sign == "-"
    ensures ValueOf(Dec(n)) == n && Names(sign + Dec(n) + ".pad", if sign == "-" then -(n as int) else n, 1)
  {
    hide Dec;
    DecValue(n);
    var c := if sign == "-" then -(n as int) else n;
    Tail(sign + Dec(n), "pad", ".pad");
    assert sign + Dec(n) + ".pad" == "" + sign + Dec(n) + "." + ParamName(1);
    assert Spaces("") && Sign(sign) && Digits(Dec(n)) && c == Signed(sign, Dec(n));
  }

  /** The key a controller prints for a cell is read back as that cell. */
  lemma PrintedKeyReadsBack(ch: nat, p: nat)
    requires ch < HeadampState.MAX_CH && p < HeadampState.NPARAMS
    ensures ParseKey(Dec(ch) + "." + ParamName(p)) == Address(ch, p)
  {
    var rest := Dec(ch) + "." + ParamName(p);
    DecValue(ch);
    assert rest == "" + "" + Dec(ch) + "." + ParamName(p);
    assert Spaces("") && Sign("");
    NamedKeyParses(rest, ch, p);
  }

  /** The byte a value is for a parameter, or none: a switch's flag, or a number in the range of the
    * parameter, the nearest one to a Float. */
  ghost predicate ReadsAs(v: Pod, top: nat, n: nat) {
    n <= top
    && match v
       case Bool(flag) => n == (if flag then 1 else 0)
       case Int(number) => n == number
       case Real(f) => f.Finite? && IsNearest(f.value, n)
       case String(_) => false
       case Other => false
  }

  lemma ByteReadsAs(v: Pod, top: nat, n: nat)
    requires 1 <= top <= 255
    ensures ReadsAs(v, top, n) <==> n <= top && ByteOf(v) == n
  {
    if v.Real? {
      FloatNearestCorrect(v.float, 0, 255);
      assert FloatNearest(v.float, 0, 255) == Nearest(n) <==> v.float.Finite? && IsNearest(v.float.value, n) && n <= 255;
    }
  }

  /** The key of a cell, as a controller writes it. */
  predicate KeyOf(key: string, ch: nat, param: nat) {
    || (param == 0 && key == "reac.headamp." + Dec(ch) + ".phantom")
    || (param == 1 && key == "reac.headamp." + Dec(ch) + ".pad")
    || (param == 2 && key == "reac.headamp." + Dec(ch) + ".sens")
  }

  /** The largest value of a parameter: on for a switch, 0x37 for the sensitivity. */
  function Top(param: nat): nat { if param == 2 then 0x37 else 1 }

  /** A pair whose key is a cell's gives exactly the cell with the value that its pod reads as, and is
    * refused as out of range when it reads as none. */
  lemma PairGivesCell(key: string, v: Pod, ch: nat, param: nat)
    requires ch < 48 && (KeyOf(key, ch, param) || ("reac.headamp." <= key && Names(key[13..], ch, param)))
    ensures forall n: nat :: Judge((key, v)) == Good(Setting(ch, param, n)) <==> ReadsAs(v, Top(param), n)
    ensures (forall n: nat :: !ReadsAs(v, Top(param), n)) ==> Judge((key, v)) == Bad(OutOfRange)
  {
    hide ByteOf, Strtol, ReadsAs, ParseKey, KeyOf, Names;
    if KeyOf(key, ch, param) {
      KeyParses(key, ch, param);
    } else {
      NamesParam(key[13..], ch, param);
      KeyAddressesIff(key[13..]);
    }
    var top, b := Top(param), ByteOf(v);
    FloatBytes(v);
    forall n: nat ensures ReadsAs(v, top, n) <==> n <= top && b == n {
      ByteReadsAs(v, top, n);
    }
    if 0 <= b <= top {
      assert ReadsAs(v, top, b);
    }
  }

  lemma KeyParses(key: string, ch: nat, param: nat)
    requires ch < 48 && KeyOf(key, ch, param)
    ensures param < 3 && Prefixed(key) && ParseKey(key[|PREFIX|..]) == Address(ch, param)
  {
    hide ParseKey, Dec;
    PrintedKeyReadsBack(ch, param);
    var rest := Dec(ch) + "." + ParamName(param);
    Tail(Dec(ch), ParamName(param), "." + ParamName(param));
    assert key == PREFIX + rest;
    assert (PREFIX + rest)[|PREFIX|..] == rest;
  }

  lemma NamesParam(rest: string, c: int, p: nat)
    requires Names(rest, c, p)
    ensures p < 3
  {
  }

  lemma Tail(number: string, name: string, tail: string)
    requires tail == "." + name
    ensures number + "." + name == number + tail
  {
  }

  /** A pair whose key is prefixed and names no cell is refused for its key whatever its value, one
    * whose channel does not exist is out of range, and any other pair is nobody's. */
  lemma OtherPairs(key: string, v: Pod)
    ensures !("reac.headamp." <= key) ==> Judge((key, v)) == Skip
    ensures "reac.headamp." <= key && (forall c, p :: !Names(key[13..], c, p)) ==> Judge((key, v)) == Bad(BadKey)
    ensures "reac.headamp." <= key && (exists c, p :: Names(key[13..], c, p) && !(0 <= c < 48)) ==>
              Judge((key, v)) == Bad(OutOfRange)
  {
    hide ParseKey, Names, ByteOf;
    if "reac.headamp." <= key {
      KeyAddressesIff(key[13..]);
    }
  }

  /** Every cell handed on is a cell of the wire with a value its parameter takes. */
  lemma {:induction false} CellsHandedOnAreInRange(pods: seq<Pod>, at: nat)
    ensures forall cell :: cell in Goods(VerdictsFrom(pods, at)) ==>
              cell.ch < HeadampState.MAX_CH && cell.param < HeadampState.NPARAMS
              && HeadampState.ValueInRange(cell.param, cell.value)
    decreases |pods| - at
  {
    if at < |pods| {
      if !pods[at].String? {
        KeySlot(pods, at);
        CellsHandedOnAreInRange(pods, at + 1);
      } else if at + 1 < |pods| {
        NextVerdict(pods, at + 1);
        CellsHandedOnAreInRange(pods, at + 2);
      }
    }
  }
}
