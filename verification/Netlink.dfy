/** The netlink message grammar (section 2.3.2 of RFC 3549, in a little-endian host's order): how
  * a chunk of bytes is walked into messages and a region into attributes, the writer that builds
  * such chunks, and that the one undoes the other. */
module Netlink {
  type Byte = b: int | 0 <= b < 256
  type Bytes = seq<Byte>

  const NL_HDR: nat := 16
  const RTA_HDR: nat := 4
  const NL_ERROR: nat := 2
  const NL_ERR_BODY: nat := 20
  const CHUNK_MAX: nat := 4096

  function Align(n: nat): (a: nat)
    ensures n <= a < n + 4 && a % 4 == 0
  {
    (n + 3) / 4 * 4
  }

  function Rd16(s: Bytes, at: nat): (v: nat)
    requires at + 2 <= |s|
    ensures v < 0x1_0000
  {
    (s[at] as int) + 256 * s[at + 1] as int
  }

  function Rd32(s: Bytes, at: nat): (v: nat)
    requires at + 4 <= |s|
    ensures v < 0x1_0000_0000
  {
    (s[at] as int) + 256 * s[at + 1] as int + 0x1_0000 * s[at + 2] as int + 0x100_0000 * s[at + 3] as int
  }

  function Le16(v: nat): (s: Bytes)
    requires v < 0x1_0000
    ensures |s| == 2 && Rd16(s, 0) == v
  {
    [v % 256, v / 256]
  }

  function Le32(v: nat): (s: Bytes)
    requires v < 0x1_0000_0000
    ensures |s| == 4 && Rd32(s, 0) == v
  {
    var lo, hi := v % 0x1_0000, v / 0x1_0000;
    [lo % 256, lo / 256, hi % 256, hi / 256]
  }

  function Zeros(n: nat): (s: Bytes)
    ensures |s| == n
  {
    seq(n, _ => 0)
  }

  // ---- walking --------------------------------------------------------------------------

  /** A message as walked: its type, and its bytes, header included. */
  datatype Msg = Msg(kind: nat, bytes: Bytes)

  datatype Attr = Attr(kind: nat, data: Bytes)

  /** The length of the message at `off`, or 0 if no whole one stands there. */
  function NlMsg(c: Bytes, off: nat, left: int): (len: nat)
    requires left <= |c| - off
    ensures len > 0 ==> NL_HDR <= len <= left
  {
    if left < NL_HDR then 0
    else
      var len := Rd32(c, off);
      if len < NL_HDR || len > left then 0 else len
  }

  function NlAttr(c: Bytes, off: nat, left: int): (len: nat)
    requires left <= |c| - off
    ensures len > 0 ==> RTA_HDR <= len <= left
  {
    if left < RTA_HDR then 0
    else
      var len := Rd16(c, off);
      if len < RTA_HDR || len > left then 0 else len
  }

  /** The messages from `off` on, each on a boundary of four from the one before it.  An unpadded
    * last message may leave that boundary outside the chunk. */
  function Messages(c: Bytes, off: nat): seq<Msg>
    decreases |c| - off
  {
    var len := NlMsg(c, off, |c| - off);
    if len == 0 then []
    else [Msg(Rd16(c, off + 4), c[off..off + len])] + Messages(c, off + Align(len))
  }

  /** The attributes of the region from `off` to `end`. */
  function Attrs(c: Bytes, off: nat, end: nat): seq<Attr>
    requires end <= |c|
    decreases end - off
  {
    var len := NlAttr(c, off, end - off);
    if len == 0 then []
    else [Attr(Rd16(c, off + 2), c[off + RTA_HDR..off + len])] + Attrs(c, off + Align(len), end)
  }

  // ---- encoding ---------------------------------------------------------------------------

  /** An attribute to be written: data, or attributes. */
  datatype Tree = Leaf(kind: nat, data: Bytes) | Nest(kind: nat, inner: seq<Tree>)

  function PadOf(n: nat): Bytes { Zeros(Align(n) - n) }

  function Payload(t: Tree): Bytes
    decreases t, 0
  {
    match t
    case Leaf(_, data) => data
    case Nest(_, inner) => EncAll(inner)
  }

  /** The lengths and types a header has room for. */
  predicate Fits(t: Tree)
    decreases t
  {
    t.kind < 0x1_0000 && RTA_HDR + |Payload(t)| < 0x1_0000
    && (t.Nest? ==> AllFit(t.inner))
  }

  predicate AllFit(ts: seq<Tree>) { forall t :: t in ts ==> Fits(t) }

  /** Sixteen bits of a length, as the writer's cast leaves it. */
  function Low16(n: nat): (v: nat)
    ensures v < 0x1_0000 && (n < 0x1_0000 ==> v == n)
  {
    n % 0x1_0000
  }

  function EncTree(t: Tree): (e: Bytes)
    ensures |e| == RTA_HDR + Align(|Payload(t)|)
    decreases t, 1
  {
    Le16(Low16(RTA_HDR + |Payload(t)|)) + Le16(Low16(t.kind)) + Payload(t) + PadOf(|Payload(t)|)
  }

  function EncAll(ts: seq<Tree>): (s: Bytes)
    ensures |s| % 4 == 0
    decreases ts, 2
  {
    if ts == [] then []
    else
      var head, tail := EncTree(ts[0]), EncAll(ts[1..]);
      WholeWords(Align(|Payload(ts[0])|), |tail|);
      head + tail
  }

  lemma WholeWords(a: nat, b: nat)
    requires a % 4 == 0 && b % 4 == 0
    ensures (RTA_HDR + a + b) % 4 == 0
  {
  }

  function Raw(t: Tree): Attr { Attr(t.kind, Payload(t)) }

  function Raws(ts: seq<Tree>): seq<Attr> { if ts == [] then [] else [Raw(ts[0])] + Raws(ts[1..]) }

  /** A message header as the writer lays it down: no flags, sequence 1, port 0. */
  function Header(len: nat, kind: nat): (h: Bytes)
    requires len < 0x1_0000_0000 && kind < 0x1_0000
    ensures |h| == NL_HDR && h[..4] == Le32(len) && h[4..6] == Le16(kind)
  {
    Le32(len) + Le16(kind) + Le16(0) + Le32(1) + Le32(0)
  }

  function EncMsg(kind: nat, body: Bytes): (e: Bytes)
    requires kind < 0x1_0000 && NL_HDR + |body| < 0x1_0000_0000
    ensures |e| == NL_HDR + |body|
  {
    Header(NL_HDR + |body|, kind) + body
  }

  // ---- the writer ---------------------------------------------------------------------------

  /** A reply being built: bytes appended to a fixed buffer, and lengths patched once they are
    * known.  `full` is set, and stays set, when something did not fit and was left out. */
  class NlWriter {
    var b: array<Byte>
    var n: nat
    var full: bool

    ghost predicate Valid()
      reads this
    {
      b.Length == CHUNK_MAX && n <= CHUNK_MAX
    }

    ghost function Contents(): Bytes
      reads this, b
      requires Valid()
    {
      b[..n]
    }

    constructor ()
      ensures Valid() && fresh(b) && Contents() == [] && !full
    {
      b := new Byte[CHUNK_MAX](_ => 0);
      n, full := 0, false;
    }

    method Put(p: Bytes)
      requires Valid()
      modifies this`n, this`full, b
      ensures Valid() && full == (old(full) || old(n) + |p| > CHUNK_MAX)
      ensures Contents() == if old(n) + |p| > CHUNK_MAX then old(Contents()) else old(Contents()) + p
    {
      if n + |p| > CHUNK_MAX {
        full := true;
        return;
      }
      forall i | 0 <= i < |p| {
        b[n + i] := p[i];
      }
      n := n + |p|;
      assert b[..old(n)] == old(b[..n]);
      assert b[old(n)..n] == p;
      assert b[..n] == b[..old(n)] + b[old(n)..n];
    }

    method Put16(v: nat)
      requires Valid() && v < 0x1_0000
      modifies this`n, this`full, b
      ensures Valid() && full == (old(full) || old(n) + 2 > CHUNK_MAX)
      ensures Contents() == if old(n) + 2 > CHUNK_MAX then old(Contents()) else old(Contents()) + Le16(v)
    {
      Put(Le16(v));
    }

    method Put32(v: nat)
      requires Valid() && v < 0x1_0000_0000
      modifies this`n, this`full, b
      ensures Valid() && full == (old(full) || old(n) + 4 > CHUNK_MAX)
      ensures Contents() == if old(n) + 4 > CHUNK_MAX then old(Contents()) else old(Contents()) + Le32(v)
    {
      Put(Le32(v));
    }

    /** Up to the next multiple of four of the whole buffer. */
    method Pad()
      requires Valid()
      modifies this`n, this`full, b
      ensures Valid() && full == old(full) && n % 4 == 0
      ensures Contents() == old(Contents()) + PadOf(old(n))
    {
      assert Align(n) <= CHUNK_MAX;
      Put(Zeros(Align(n) - n));
    }

    method Patch(at: nat, p: Bytes)
      requires Valid()
      modifies b
      ensures Valid()
      ensures Contents() == if at + |p| <= n then old(Contents())[..at] + p + old(Contents())[at + |p|..]
                            else old(Contents())
    {
      if at + |p| <= n {
        forall i | 0 <= i < |p| {
          b[at + i] := p[i];
        }
        assert b[..at] == old(b[..n])[..at];
        assert b[at..at + |p|] == p;
        assert b[at + |p|..n] == old(b[..n])[at + |p|..];
        assert b[..n] == b[..at] + b[at..at + |p|] + b[at + |p|..n];
      }
    }

    /** A message header with no length yet. */
    method Begin(kind: nat) returns (at: nat)
      requires Valid() && kind < 0x1_0000
      modifies this`n, this`full, b
      ensures Valid() && at == old(n) && full == (old(full) || old(n) + NL_HDR > CHUNK_MAX)
      ensures !full ==> Contents() == old(Contents()) + Header(0, kind)
    {
      hide Le16, Le32, Rd16, Rd32, Header;
      at := n;
      ghost var was := Contents();
      Put32(0);
      Put16(kind);
      Put16(0);
      assert !full ==> Contents() == was + (Le32(0) + Le16(kind) + Le16(0));
      Put32(1);
      Put32(0);
      HeaderIs(0, kind);
      assert was + (Le32(0) + Le16(kind) + Le16(0)) + Le32(1) + Le32(0) == was + Header(0, kind);
    }

    method End(at: nat)
      requires Valid() && at <= n
      modifies b
      ensures Valid()
      ensures at + 4 <= n ==>
                Contents() == old(Contents())[..at] + Le32(n - at) + old(Contents())[at + 4..]
    {
      Patch(at, Le32(n - at));
    }

    method AttrPut(kind: nat, data: Bytes)
      requires Valid() && kind < 0x1_0000
      modifies this`n, this`full, b
      ensures Valid() && (old(full) ==> full) && n % 4 == 0
      ensures old(n) % 4 == 0 ==>
                && full == (old(full) || old(n) + |EncTree(Leaf(kind, data))| > CHUNK_MAX)
                && (!full ==> Contents() == old(Contents()) + EncTree(Leaf(kind, data)))
    {
      hide Le16, PadOf, Low16, Rd16, Zeros, Align, EncTree, Payload;
      ghost var was := Contents();
      LeafIs(was, kind, data);
      PutHead(Low16(RTA_HDR + |data|), kind);
      Put(data);
      if old(n) % 4 == 0 {
        AlignShift(old(n) + RTA_HDR, |data|);
        RoomWhenAligned(old(n) + RTA_HDR, |data|);
      }
      Pad();
    }

    /** The header of an attribute: its length and its type. */
    method PutHead(len: nat, kind: nat)
      requires Valid() && len < 0x1_0000 && kind < 0x1_0000
      modifies this`n, this`full, b
      ensures Valid() && full == (old(full) || old(n) + RTA_HDR > CHUNK_MAX)
      ensures !full ==> Contents() == old(Contents()) + Le16(len) + Le16(kind)
      ensures old(n) <= n <= old(n) + RTA_HDR
    {
      hide Le16, Rd16;
      Put16(len);
      Put16(kind);
    }

    method OpenNest(kind: nat) returns (at: nat)
      requires Valid() && kind < 0x1_0000
      modifies this`n, this`full, b
      ensures Valid() && at == old(n) && full == (old(full) || old(n) + RTA_HDR > CHUNK_MAX)
      ensures !full ==> Contents() == old(Contents()) + Le16(0) + Le16(kind)
    {
      at := n;
      PutHead(0, kind);
    }

    method CloseNest(at: nat)
      requires Valid() && at <= n
      modifies b
      ensures Valid()
      ensures at + 2 <= n ==>
                Contents() == old(Contents())[..at] + Le16(Low16(n - at)) + old(Contents())[at + 2..]
    {
      Patch(at, Le16(Low16(n - at)));
    }

    /** One attribute, nested ones and all. */
    method WriteTree(t: Tree)
      requires Valid() && Fits(t) && n % 4 == 0
      modifies this`n, this`full, b
      ensures Valid() && full == (old(full) || old(n) + |EncTree(t)| > CHUNK_MAX)
      ensures !full ==> n % 4 == 0 && Contents() == old(Contents()) + EncTree(t)
      decreases t, 1
    {
      hide EncTree, EncAll, Le16, Low16, Zeros;
      match t {
        case Leaf(kind, data) => AttrPut(kind, data);
        case Nest(kind, inner) =>
          NestSealed(Contents(), kind, inner);
          var at := OpenNest(kind);
          if full {
            return;
          }
          WriteTrees(inner);
          if full {
            return;
          }
          CloseNest(at);
      }
    }

    method WriteTrees(ts: seq<Tree>)
      requires Valid() && AllFit(ts) && n % 4 == 0
      modifies this`n, this`full, b
      ensures Valid() && full == (old(full) || old(n) + |EncAll(ts)| > CHUNK_MAX)
      ensures !full ==> n % 4 == 0 && Contents() == old(Contents()) + EncAll(ts)
      decreases ts, 2
    {
      if ts == [] {
        return;
      }
      WriteTree(ts[0]);
      if full {
        return;
      }
      ghost var mid := Contents();
      WriteTrees(ts[1..]);
      assert !full ==> Contents() == old(Contents()) + (EncTree(ts[0]) + EncAll(ts[1..]));
    }

    /** A message: its header, its fixed part, its attributes, its length patched in. */
    method WriteMessage(kind: nat, fixed: Bytes, ts: seq<Tree>)
      requires Valid() && kind < 0x1_0000 && AllFit(ts) && n % 4 == 0 && |fixed| % 4 == 0
      modifies this`n, this`full, b
      ensures Valid() && full == (old(full) || old(n) + NL_HDR + |fixed| + |EncAll(ts)| > CHUNK_MAX)
      ensures !full ==> n % 4 == 0 && NL_HDR + |fixed + EncAll(ts)| < 0x1_0000_0000
                        && Contents() == old(Contents()) + EncMsg(kind, fixed + EncAll(ts))
    {
      hide Header, EncMsg, EncAll, Le32, Le16, Rd16, Rd32, Zeros, Align;
      ghost var was := Contents();
      var at := Begin(kind);
      if full {
        return;
      }
      Put(fixed);
      if full {
        return;
      }
      WriteTrees(ts);
      if full {
        return;
      }
      Regroup(was + Header(0, kind), fixed, EncAll(ts));
      Sealed(was, kind, fixed + EncAll(ts));
      End(at);
    }

    /** An NLMSG_ERROR, whole or cut after `cut` bytes of its body. */
    method WriteError(code: int, cut: int)
      requires Valid() && -0x8000_0000 <= code < 0x8000_0000 && n % 4 == 0
      modifies this`n, this`full, b
      ensures Valid() && full == (old(full) || old(n) + NL_HDR + |ErrorBody(code, cut)| > CHUNK_MAX)
      ensures !full ==> n % 4 == 0
                        && Contents() == old(Contents()) + EncMsg(NL_ERROR, ErrorBody(code, cut))
                                         + PadOf(|ErrorBody(code, cut)|)
    {
      hide Header, EncMsg, ErrorBody, Le32, PadOf, Le16, Rd16, Rd32, Zeros;
      var at := Begin(NL_ERROR);
      if full {
        return;
      }
      Put(ErrorBody(code, cut));
      if full {
        return;
      }
      Sealed(old(Contents()), NL_ERROR, ErrorBody(code, cut));
      End(at);
      AlignShift(at + NL_HDR, |ErrorBody(code, cut)|);
      Pad();
    }
  }

  lemma HeaderIs(len: nat, kind: nat)
    requires len < 0x1_0000_0000 && kind < 0x1_0000
    ensures Header(len, kind) == Le32(len) + Le16(kind) + Le16(0) + Le32(1) + Le32(0)
  {
  }

  lemma LeafIs(was: Bytes, kind: nat, data: Bytes)
    requires kind < 0x1_0000
    ensures var e := EncTree(Leaf(kind, data));
            && was + Le16(Low16(RTA_HDR + |data|)) + Le16(kind) + data + PadOf(|data|) == was + e
            && |e| == RTA_HDR + Align(|data|)
  {
    hide Le16, PadOf, Align;
  }

  lemma Regroup(a: Bytes, b: Bytes, c: Bytes)
    ensures a + b + c == a + (b + c)
  {
  }

  /** A nest laid down with no length and then patched is the nest. */
  lemma NestSealed(was: Bytes, kind: nat, inner: seq<Tree>)
    requires kind < 0x1_0000
    ensures var payload := EncAll(inner);
            var c := was + Le16(0) + Le16(kind) + payload;
            && c[..|was|] + Le16(Low16(|c| - |was|)) + c[|was| + 2..] == was + EncTree(Nest(kind, inner))
            && |EncTree(Nest(kind, inner))| == RTA_HDR + |payload|
  {
    hide EncAll, Le16, Low16;
    var payload := EncAll(inner);
    var c := was + Le16(0) + Le16(kind) + payload;
    assert PadOf(|payload|) == [];
    assert c[..|was|] == was && c[|was| + 2..] == Le16(kind) + payload;
  }

  /** What fits a buffer of whole words fits it padded. */
  lemma RoomWhenAligned(base: nat, n: nat)
    requires base % 4 == 0
    ensures base + n > CHUNK_MAX <==> base + Align(n) > CHUNK_MAX
  {
  }

  /** Patching the length into a message laid down with none gives the message. */
  lemma Sealed(was: Bytes, kind: nat, body: Bytes)
    requires kind < 0x1_0000 && NL_HDR + |body| < 0x1_0000_0000
    ensures var c, at, len := was + Header(0, kind) + body, |was|, NL_HDR + |body|;
            |c| == at + len && c[..at] + Le32(len) + c[at + 4..] == was + EncMsg(kind, body)
  {
  }

  function ErrorBody(code: int, cut: int): (s: Bytes)
    requires -0x8000_0000 <= code < 0x8000_0000
    ensures |s| <= NL_ERR_BODY
  {
    var body := Le32(if code < 0 then code + 0x1_0000_0000 else code) + Zeros(NL_ERR_BODY - 4);
    if 0 <= cut < NL_ERR_BODY then body[..cut] else body
  }

  lemma AlignShift(base: nat, n: nat)
    requires base % 4 == 0
    ensures Align(base + n) == base + Align(n) && PadOf(base + n) == PadOf(n)
  {
  }

  // ---- the round trip -------------------------------------------------------------------------

  lemma Read16(c: Bytes, at: nat, v: nat)
    requires at + 2 <= |c| && v < 0x1_0000 && c[at..at + 2] == Le16(v)
    ensures Rd16(c, at) == v
  {
  }

  lemma Read32(c: Bytes, at: nat, v: nat)
    requires at + 4 <= |c| && v < 0x1_0000_0000 && c[at..at + 4] == Le32(v)
    ensures Rd32(c, at) == v
  {
    assert c[at] == Le32(v)[0] && c[at + 1] == Le32(v)[1];
    assert c[at + 2] == Le32(v)[2] && c[at + 3] == Le32(v)[3];
  }

  /** Four bytes as the number they are on a little-endian host, written out. */
  function Word(s: Bytes, at: nat): nat
    requires at + 4 <= |s|
  {
    s[at] as int + 256 * s[at + 1] as int + 65536 * s[at + 2] as int + 16777216 * s[at + 3] as int
  }

  /** The least byte comes first. */
  lemma LeastByteFirst(v: nat, w: nat)
    requires v < 0x1_0000_0000 && w < 0x1_0000
    ensures Word(Le32(v), 0) == v
    ensures var s := Le16(w); s[0] as int + 256 * s[1] as int == w
  {
  }

  lemma TreeAt(p: Bytes, t: Tree, q: Bytes, end: nat)
    requires Fits(t) && |p| + |EncTree(t)| <= end <= |p + EncTree(t) + q|
    ensures var c := p + EncTree(t) + q;
            Attrs(c, |p|, end) == [Raw(t)] + Attrs(c, |p| + |EncTree(t)|, end)
  {
    hide Le16, Rd16, EncAll, Zeros;
    var e := EncTree(t);
    var c, len := p + e + q, RTA_HDR + |Payload(t)|;
    AlignShift(RTA_HDR, |Payload(t)|);
    assert |e| == Align(len);
    assert c[|p|..|p| + 2] == e[..2] == Le16(len);
    assert c[|p| + 2..|p| + 4] == e[2..4] == Le16(t.kind);
    assert c[|p| + RTA_HDR..|p| + len] == e[RTA_HDR..len] == Payload(t);
    Read16(c, |p|, len);
    Read16(c, |p| + 2, t.kind);
  }

  /** Walking attributes the writer laid down gives back exactly those attributes, in order; the
    * data of a nested one is attributes again, to be walked the same way. */
  lemma {:induction false} AttrsRoundTrip(p: Bytes, ts: seq<Tree>, q: Bytes)
    requires AllFit(ts)
    ensures Attrs(p + EncAll(ts) + q, |p|, |p| + |EncAll(ts)|) == Raws(ts)
    decreases |ts|
  {
    hide EncTree, NlAttr, Rd16, Raw;
    var end := |p| + |EncAll(ts)|;
    if ts == [] {
      NoAttrs(p + EncAll(ts) + q, |p|);
    } else {
      var t, rest := ts[0], ts[1..];
      var tail := EncAll(rest) + q;
      assert p + EncAll(ts) + q == p + EncTree(t) + tail;
      TreeAt(p, t, tail, end);
      assert p + EncTree(t) + tail == (p + EncTree(t)) + EncAll(rest) + q;
      AttrsRoundTrip(p + EncTree(t), rest, q);
    }
  }

  lemma NoAttrs(c: Bytes, end: nat)
    requires end <= |c|
    ensures Attrs(c, end, end) == []
  {
  }

  lemma NestRoundTrip(t: Tree)
    requires Fits(t) && t.Nest?
    ensures Attrs(Raw(t).data, 0, |Raw(t).data|) == Raws(t.inner)
  {
    hide EncTree, EncAll, Attrs, Raws;
    AttrsRoundTrip([], t.inner, []);
    assert [] + EncAll(t.inner) + [] == Payload(t);
  }

  /** A message to be written: its type and everything after its header. */
  datatype MessageShape = Message(kind: nat, body: Bytes)

  type Message = m: MessageShape | m.kind < 0x1_0000 && NL_HDR + |m.body| < 0x1_0000_0000
    witness MessageShape.Message(0, [])

  function Laid(m: Message): Bytes { EncMsg(m.kind, m.body) }

  function RawMsg(m: Message): Msg { Msg(m.kind, Laid(m)) }

  /** A chunk of messages, each padded to where the next begins. */
  function EncReply(ms: seq<Message>): Bytes {
    if ms == [] then [] else Laid(ms[0]) + PadOf(|ms[0].body|) + EncReply(ms[1..])
  }

  function RawMsgs(ms: seq<Message>): seq<Msg> {
    if ms == [] then [] else [RawMsg(ms[0])] + RawMsgs(ms[1..])
  }

  lemma LaidHead(m: Message)
    ensures var e := Laid(m);
            |e| == NL_HDR + |m.body| && e[..4] == Le32(|e|) && e[4..6] == Le16(m.kind)
  {
  }

  lemma MessageAt(p: Bytes, m: Message, q: Bytes)
    ensures var c := p + Laid(m) + q;
            Messages(c, |p|) == [RawMsg(m)] + Messages(c, |p| + Align(|Laid(m)|))
  {
    hide Laid, Align, Messages, Le16, Le32, NlMsg;
    LaidHead(m);
    FoundAt(p, Laid(m), q, m.kind);
    Unroll(p + Laid(m) + q, |p|);
  }

  /** Bytes whose head holds their length and a type are a message where they stand. */
  lemma FoundAt(p: Bytes, e: Bytes, q: Bytes, kind: nat)
    requires NL_HDR <= |e| < 0x1_0000_0000 && kind < 0x1_0000
    requires e[..4] == Le32(|e|) && e[4..6] == Le16(kind)
    ensures var c := p + e + q;
            && NlMsg(c, |p|, |c| - |p|) == |e| && Rd16(c, |p| + 4) == kind
            && c[|p|..|p| + |e|] == e
  {
  }

  lemma Unroll(c: Bytes, off: nat)
    requires 0 < NlMsg(c, off, |c| - off)
    ensures var len := NlMsg(c, off, |c| - off);
            Messages(c, off) == [Msg(Rd16(c, off + 4), c[off..off + len])] + Messages(c, off + Align(len))
  {
  }

  /** Walking a chunk of messages gives back exactly the messages written, each with its bytes,
    * and then whatever follows them. */
  lemma {:induction false} MessagesRoundTrip(p: Bytes, ms: seq<Message>, q: Bytes)
    ensures Messages(p + EncReply(ms) + q, |p|)
         == RawMsgs(ms) + Messages(p + EncReply(ms) + q, |p| + |EncReply(ms)|)
    decreases |ms|
  {
    hide Messages, Laid, PadOf, Align;
    if ms != [] {
      var m, rest := ms[0], ms[1..];
      var e := PaddedMessage(m);
      var c := p + EncReply(ms) + q;
      assert c == p + Laid(m) + (PadOf(|m.body|) + EncReply(rest) + q);
      MessageAt(p, m, PadOf(|m.body|) + EncReply(rest) + q);
      assert c == (p + e) + EncReply(rest) + q;
      MessagesRoundTrip(p + e, rest, q);
    }
  }

  lemma PaddedMessage(m: Message) returns (e: Bytes)
    ensures e == Laid(m) + PadOf(|m.body|) && |e| == Align(|Laid(m)|)
  {
    e := Laid(m) + PadOf(|m.body|);
    AlignShift(NL_HDR, |m.body|);
  }

  /** A whole reply, its last message unpadded as the writer leaves it. */
  lemma ReplyRoundTrip(ms: seq<Message>, last: Message)
    ensures Messages(EncReply(ms) + Laid(last), 0) == RawMsgs(ms) + [RawMsg(last)]
  {
    hide Laid, NlMsg, EncReply, RawMsgs, Messages, Align;
    var p, e := EncReply(ms), Laid(last);
    MessagesRoundTrip([], ms, e);
    MessageAt(p, last, []);
    assert [] + p + e == p + e && p + e + [] == p + e;
    NoMessages(p + e, |p| + Align(|e|));
  }

  lemma NoMessages(c: Bytes, off: nat)
    requires |c| <= off
    ensures Messages(c, off) == []
  {
  }
}
