/** Reading and writing one netdev's alias over rtnetlink. */
module LinkAlias {
  import opened Netlink

  const RTM_NEWLINK: nat := 16
  const IFI_LEN: nat := 16
  const IFLA_INFO_KIND: nat := 1
  const IFLA_LINKINFO: nat := 18
  const IFLA_IFALIAS: nat := 20
  const IFALIASZ: nat := 256
  const RECV_MAX: nat := 16384
  const EIO: int := 5
  const ENODEV: int := 19
  const EINVAL: int := 22
  const ENAMETOOLONG: int := 36

  // ---- text in a byte buffer --------------------------------------------------------------

  /** The length up to the first NUL. */
  function StrLen(s: Bytes): (n: nat)
    ensures n <= |s| && (n < |s| ==> s[n] == 0) && forall i :: 0 <= i < n ==> s[i] != 0
  {
    if s == [] || s[0] == 0 then 0 else 1 + StrLen(s[1..])
  }

  /** Data cut at its NUL and to a buffer of `n` bytes with its own NUL. */
  function Cut(data: Bytes, n: nat): Bytes
    requires 0 < n
  {
    if StrLen(data) < n then data[..StrLen(data)] else data[..n - 1]
  }

  /** A buffer after one attribute's data was copied into it. */
  function Copied(buf: Bytes, data: Bytes): (r: Bytes)
    ensures |r| == |buf|
  {
    if buf == [] then buf
    else
      var text := Cut(data, |buf|);
      text + [0] + buf[|text| + 1..]
  }

  function CopiedAll(buf: Bytes, datas: seq<Bytes>): (r: Bytes)
    ensures |r| == |buf|
    decreases |datas|
  {
    if datas == [] then buf else CopiedAll(Copied(buf, datas[0]), datas[1..])
  }

  method CopyAttr(data: Bytes, out: array<Byte>)
    modifies out
    ensures out[..] == Copied(old(out[..]), data)
  {
    if out.Length == 0 {
      return;
    }
    var k := 0;
    while k < |data| && data[k] != 0
      invariant 0 <= k <= |data|
      invariant forall i :: 0 <= i < k ==> data[i] != 0
    {
      k := k + 1;
    }
    if k >= out.Length {
      k := out.Length - 1;
    }
    forall i | 0 <= i < k {
      out[i] := data[i];
    }
    out[k] := 0;
    assert k == |Cut(data, out.Length)| && data[..k] == Cut(data, out.Length);
    assert out[..] == data[..k] + [0] + old(out[..])[k + 1..];
  }

  lemma CopiedReads(buf: Bytes, data: Bytes)
    requires buf != []
    ensures var r := Copied(buf, data); r[..StrLen(r)] == Cut(data, |buf|)
  {
    var text, r := Cut(data, |buf|), Copied(buf, data);
    assert r[|text|] == 0;
    assert forall i :: 0 <= i < |text| ==> r[i] == text[i] && text[i] != 0;
  }

  /** Of data up to its NUL, or all of it, a buffer takes what leaves room for a NUL of its own. */
  lemma CutReads(text: Bytes, rest: Bytes, n: nat)
    requires 0 < n && forall i :: 0 <= i < |text| ==> text[i] != 0
    ensures Cut(text, n) == if |text| < n then text else text[..n - 1]
    ensures Cut(text + [0] + rest, n) == if |text| < n then text else text[..n - 1]
  {
    var data := text + [0] + rest;
    assert data[|text|] == 0 && forall i :: 0 <= i < |text| ==> data[i] == text[i];
    assert StrLen(data) == |text| && StrLen(text) == |text|;
  }

  /** And past that NUL it is as it was. */
  lemma CopiedKeeps(buf: Bytes, data: Bytes)
    requires buf != []
    ensures var r, n := Copied(buf, data), |Cut(data, |buf|)|;
            n < |buf| && r[n] == 0 && r[n + 1..] == buf[n + 1..]
  {
  }

  lemma CopiedNone(buf: Bytes)
    ensures CopiedAll(buf, []) == buf
  {
  }

  /** Read as text, a buffer holds the last data copied into it, cut to fit. */
  lemma {:induction false} LastCopyWins(buf: Bytes, datas: seq<Bytes>)
    requires buf != [] && datas != []
    ensures var r := CopiedAll(buf, datas); r[..StrLen(r)] == Cut(datas[|datas| - 1], |buf|)
    decreases |datas|
  {
    hide Copied, Cut, StrLen;
    if |datas| == 1 {
      CopiedReads(buf, datas[0]);
      CopiedNone(Copied(buf, datas[0]));
    } else {
      LastCopyWins(Copied(buf, datas[0]), datas[1..]);
    }
  }

  // ---- what a reply says --------------------------------------------------------------------

  predicate Decides(m: Msg) { m.kind == NL_ERROR || m.kind == RTM_NEWLINK }

  function FirstDecisive(msgs: seq<Msg>): seq<Msg> {
    if msgs == [] then [] else if Decides(msgs[0]) then [msgs[0]] else FirstDecisive(msgs[1..])
  }

  /** What recv hands over of a chunk. */
  function Received(chunk: Bytes): (c: Bytes)
    ensures c <= chunk && |c| <= RECV_MAX && (|c| == |chunk| || |c| == RECV_MAX)
  {
    if |chunk| <= RECV_MAX then chunk else chunk[..RECV_MAX]
  }

  /** The first message of any chunk that is an error or a link, if there is one. */
  function Decisive(chunks: seq<Bytes>): seq<Msg> {
    if chunks == [] then []
    else
      var first := FirstDecisive(Messages(Received(chunks[0]), 0));
      if first != [] then first else Decisive(chunks[1..])
  }

  function Signed32(v: nat): int { if v < 0x8000_0000 then v else v - 0x1_0000_0000 }

  /** What a decisive message returns: 0 for a link, for an error its code, and -EIO for one
    * without room for a code. */
  function Answer(m: Msg): int {
    if m.kind != NL_ERROR then 0
    else if |m.bytes| < NL_HDR + NL_ERR_BODY then -EIO
    else Signed32(Rd32(m.bytes, NL_HDR))
  }

  function LinkAttrs(bytes: Bytes): seq<Attr> { Attrs(bytes, NL_HDR + IFI_LEN, |bytes|) }

  function DatasOf(attrs: seq<Attr>, kind: nat): seq<Bytes> {
    if attrs == [] then []
    else (if attrs[0].kind == kind then [attrs[0].data] else []) + DatasOf(attrs[1..], kind)
  }

  /** The kinds inside every link-info attribute, in the order they are met. */
  function KindsOf(attrs: seq<Attr>): seq<Bytes> {
    if attrs == [] then []
    else (if attrs[0].kind == IFLA_LINKINFO then InfoKinds(attrs[0].data) else []) + KindsOf(attrs[1..])
  }

  function InfoKinds(data: Bytes): seq<Bytes> { DatasOf(Attrs(data, 0, |data|), IFLA_INFO_KIND) }

  /** The two texts a caller asks for, as the bytes of its buffers. */
  datatype Texts = Texts(kind: Bytes, alias: Bytes)

  /** What a link message leaves in the buffers: the last alias and the last kind win. */
  function Told(was: Texts, attrs: seq<Attr>): Texts {
    Texts(CopiedAll(was.kind, KindsOf(attrs)), CopiedAll(was.alias, DatasOf(attrs, IFLA_IFALIAS)))
  }

  // ---- the reader -----------------------------------------------------------------------------

  /** The other end of the socket: what opening and sending answer, the chunks it hands out, and
    * the error that ends them. */
  datatype Kernel = Kernel(socketErrno: int, sendErrno: int, chunks: seq<Bytes>, endErrno: int)

  lemma {:induction false} CopiedAppend(buf: Bytes, a: seq<Bytes>, b: seq<Bytes>)
    ensures CopiedAll(buf, a + b) == CopiedAll(CopiedAll(buf, a), b)
    decreases |a|
  {
    if a == [] {
      assert a + b == b;
    } else {
      assert (a + b)[1..] == a[1..] + b;
      CopiedAppend(Copied(buf, a[0]), a[1..], b);
    }
  }

  lemma PartReads(c: Bytes, a: nat, b: nat, at: nat)
    requires a <= b <= |c| && a + at + 4 <= b
    ensures Rd16(c[a..b], at) == Rd16(c, a + at) && Rd16(c[a..b], at + 2) == Rd16(c, a + at + 2)
    ensures Rd32(c[a..b], at) == Rd32(c, a + at)
  {
  }

  lemma SliceOfSlice(c: Bytes, a: nat, b: nat, x: nat, y: nat)
    requires x <= y && a + y <= b <= |c|
    ensures c[a..b][x..y] == c[a + x..a + y]
  {
    assert forall i :: 0 <= i < y - x ==> c[a..b][x..y][i] == c[a + x..a + y][i];
  }

  lemma UnrollAttrs(c: Bytes, off: nat, end: nat)
    requires end <= |c|
    ensures var len := NlAttr(c, off, end - off);
            Attrs(c, off, end)
            == if len == 0 then []
               else [Attr(Rd16(c, off + 2), c[off + RTA_HDR..off + len])] + Attrs(c, off + Align(len), end)
  {
  }

  /** A region walks the same inside its message as it does on its own. */
  lemma {:induction false} AttrsShift(c: Bytes, a: nat, b: nat, off: nat)
    requires a <= b <= |c|
    ensures Attrs(c[a..b], off, b - a) == Attrs(c, a + off, b)
    decreases b - a - off
  {
    hide Attrs, Rd16, Align;
    var part := c[a..b];
    if off + RTA_HDR <= b - a {
      PartReads(c, a, b, off);
    }
    UnrollAttrs(part, off, b - a);
    UnrollAttrs(c, a + off, b);
    var len := NlAttr(c, a + off, b - a - off);
    if len > 0 {
      SliceOfSlice(c, a, b, off + RTA_HDR, off + len);
      AttrsShift(c, a, b, off + Align(len));
    }
  }

  /** Walk a region and copy the data of every attribute of one kind, in order. */
  method CopyKind(c: Bytes, at: nat, end: nat, kind: nat, out: array<Byte>)
    requires at <= end <= |c|
    modifies out
    ensures out[..] == CopiedAll(old(out[..]), DatasOf(Attrs(c, at, end), kind))
  {
    hide Copied, Align, Rd16, DatasOf, CopiedAll;
    var off, left: int := at, end - at;
    var len := NlAttr(c, off, left);
    while len > 0
      invariant at <= off && left == end - off && len == NlAttr(c, off, left)
      invariant CopiedAll(out[..], DatasOf(Attrs(c, off, end), kind))
             == CopiedAll(old(out[..]), DatasOf(Attrs(c, at, end), kind))
      decreases left
    {
      NextData(c, off, end, kind, out[..]);
      if Rd16(c, off + 2) == kind {
        CopyAttr(c[off + RTA_HDR..off + len], out);
      }
      off := off + Align(len);
      left := left - Align(len);
      len := NlAttr(c, off, left);
    }
    NoData(c, off, end, kind, out[..]);
  }

  lemma NoData(c: Bytes, off: nat, end: nat, kind: nat, buf: Bytes)
    requires end <= |c| && NlAttr(c, off, end - off) == 0
    ensures CopiedAll(buf, DatasOf(Attrs(c, off, end), kind)) == buf
  {
  }

  lemma NextData(c: Bytes, off: nat, end: nat, kind: nat, buf: Bytes)
    requires end <= |c| && 0 < NlAttr(c, off, end - off)
    ensures var len := NlAttr(c, off, end - off);
            CopiedAll(buf, DatasOf(Attrs(c, off, end), kind))
            == CopiedAll(if Rd16(c, off + 2) == kind then Copied(buf, c[off + RTA_HDR..off + len]) else buf,
                         DatasOf(Attrs(c, off + Align(len), end), kind))
  {
    hide Copied, Rd16, Align;
    var len := NlAttr(c, off, end - off);
    var attr := Attr(Rd16(c, off + 2), c[off + RTA_HDR..off + len]);
    var rest := Attrs(c, off + Align(len), end);
    assert Attrs(c, off, end) == [attr] + rest && ([attr] + rest)[1..] == rest;
    var more := DatasOf(rest, kind);
    assert ([attr.data] + more)[1..] == more;
    assert [] + more == more;
  }

  /** The attributes of one link message. */
  method ReadLink(c: Bytes, at: nat, end: nat, kind: array<Byte>, alias: array<Byte>)
    requires end <= |c| && kind != alias
    modifies kind, alias
    ensures Texts(kind[..], alias[..]) == Told(Texts(old(kind[..]), old(alias[..])), Attrs(c, at, end))
  {
    hide Told, Align, Rd16, Copied, CopiedAll, DatasOf, InfoKinds, Attrs;
    var off, left: int := at, end - at;
    var len := NlAttr(c, off, left);
    ghost var was := Texts(old(kind[..]), old(alias[..]));
    while len > 0
      invariant at <= off && left == end - off && len == NlAttr(c, off, left)
      invariant Told(Texts(kind[..], alias[..]), Attrs(c, off, end)) == Told(was, Attrs(c, at, end))
      decreases left
    {
      NextTold(c, off, end, Texts(kind[..], alias[..]));
      if Rd16(c, off + 2) == IFLA_IFALIAS {
        CopyAttr(c[off + RTA_HDR..off + len], alias);
      } else if Rd16(c, off + 2) == IFLA_LINKINFO {
        InfoShift(c, off + RTA_HDR, off + len);
        CopyKind(c, off + RTA_HDR, off + len, IFLA_INFO_KIND, kind);
      }
      off := off + Align(len);
      left := left - Align(len);
      len := NlAttr(c, off, left);
    }
    NoneTold(c, off, end, Texts(kind[..], alias[..]));
  }

  lemma InfoShift(c: Bytes, a: nat, b: nat)
    requires a <= b <= |c|
    ensures InfoKinds(c[a..b]) == DatasOf(Attrs(c, a, b), IFLA_INFO_KIND)
  {
    hide Attrs, DatasOf;
    AttrsShift(c, a, b, 0);
  }

  lemma NoneTold(c: Bytes, off: nat, end: nat, was: Texts)
    requires end <= |c| && NlAttr(c, off, end - off) == 0
    ensures Told(was, Attrs(c, off, end)) == was
  {
  }

  lemma NextTold(c: Bytes, off: nat, end: nat, was: Texts)
    requires end <= |c| && 0 < NlAttr(c, off, end - off)
    ensures var len := NlAttr(c, off, end - off);
            var data := c[off + RTA_HDR..off + len];
            var next := if Rd16(c, off + 2) == IFLA_IFALIAS then was.(alias := Copied(was.alias, data))
                        else if Rd16(c, off + 2) == IFLA_LINKINFO
                        then was.(kind := CopiedAll(was.kind, InfoKinds(data)))
                        else was;
            Told(was, Attrs(c, off, end)) == Told(next, Attrs(c, off + Align(len), end))
  {
    hide Copied, Rd16, Align, CopiedAll, InfoKinds;
    NextData(c, off, end, IFLA_IFALIAS, was.alias);
    var len := NlAttr(c, off, end - off);
    var attr := Attr(Rd16(c, off + 2), c[off + RTA_HDR..off + len]);
    var rest := Attrs(c, off + Align(len), end);
    assert Attrs(c, off, end) == [attr] + rest && ([attr] + rest)[1..] == rest;
    CopiedAppend(was.kind, InfoKinds(attr.data), KindsOf(rest));
    assert [] + KindsOf(rest) == KindsOf(rest);
  }

  /** One chunk as received: walked until a message decides, or to its end. */
  method WalkChunk(c: Bytes, kind: array<Byte>, alias: array<Byte>) returns (decided: bool, rc: int)
    requires kind != alias
    modifies kind, alias
    ensures var d, was := FirstDecisive(Messages(c, 0)), Texts(old(kind[..]), old(alias[..]));
            && decided == (d != [])
            && (decided ==> rc == Answer(d[0]) && Texts(kind[..], alias[..]) == Left(was, d[0]))
            && (!decided ==> Texts(kind[..], alias[..]) == was)
  {
    hide Told, Align, Rd16, Rd32, Attrs;
    rc := -EIO;
    var off, left: int := 0, |c|;
    var len := NlMsg(c, off, left);
    while len > 0
      invariant left == |c| - off && len == NlMsg(c, off, left)
      invariant FirstDecisive(Messages(c, off)) == FirstDecisive(Messages(c, 0))
      invariant Texts(kind[..], alias[..]) == Texts(old(kind[..]), old(alias[..]))
      decreases left
    {
      NextMessage(c, off);
      var type_ := Rd16(c, off + 4);
      if type_ == NL_ERROR {
        if len < NL_HDR + NL_ERR_BODY {
          rc := -EIO;
        } else {
          PartReads(c, off, off + len, NL_HDR);
          rc := Signed32(Rd32(c, off + NL_HDR));
        }
        return true, rc;
      }
      if type_ == RTM_NEWLINK {
        AttrsShift(c, off, off + len, NL_HDR + IFI_LEN);
        ReadLink(c, off + NL_HDR + IFI_LEN, off + len, kind, alias);
        return true, 0;
      }
      off := off + Align(len);
      left := left - Align(len);
      len := NlMsg(c, off, left);
    }
    NoMoreMessages(c, off);
    decided := false;
  }

  /** What a decisive message leaves in the caller's buffers. */
  function Left(was: Texts, m: Msg): Texts {
    if m.kind == NL_ERROR then was else Told(was, LinkAttrs(m.bytes))
  }

  lemma NextMessage(c: Bytes, off: nat)
    requires 0 < NlMsg(c, off, |c| - off)
    ensures var len := NlMsg(c, off, |c| - off);
            var m := Msg(Rd16(c, off + 4), c[off..off + len]);
            FirstDecisive(Messages(c, off))
            == if Decides(m) then [m] else FirstDecisive(Messages(c, off + Align(len)))
  {
  }

  lemma NoMoreMessages(c: Bytes, off: nat)
    requires NlMsg(c, off, |c| - off) == 0
    ensures FirstDecisive(Messages(c, off)) == []
  {
  }

  /** One exchange with the kernel, returning what `Reply` says of it. */
  method Talk(k: Kernel, kind: array<Byte>, alias: array<Byte>) returns (rc: int)
    requires kind != alias
    modifies kind, alias
    ensures var was := Texts(old(kind[..]), old(alias[..]));
            (rc, Texts(kind[..], alias[..])) == Reply(k, was)
  {
    if k.socketErrno != 0 {
      return -k.socketErrno;
    }
    if k.sendErrno != 0 {
      return -k.sendErrno;
    }
    var i := 0;
    while i < |k.chunks|
      invariant 0 <= i <= |k.chunks|
      invariant Decisive(k.chunks[i..]) == Decisive(k.chunks)
      invariant Texts(kind[..], alias[..]) == Texts(old(kind[..]), old(alias[..]))
    {
      NextChunk(k.chunks, i);
      var decided;
      decided, rc := WalkChunk(Received(k.chunks[i]), kind, alias);
      if decided {
        return;
      }
      i := i + 1;
    }
    return -k.endErrno;
  }

  lemma NextChunk(chunks: seq<Bytes>, i: nat)
    requires i < |chunks|
    ensures var first := FirstDecisive(Messages(Received(chunks[i]), 0));
            Decisive(chunks[i..]) == if first != [] then first else Decisive(chunks[i + 1..])
  {
  }

  function Reply(k: Kernel, was: Texts): (int, Texts) {
    if k.socketErrno != 0 then (-k.socketErrno, was)
    else if k.sendErrno != 0 then (-k.sendErrno, was)
    else
      var d := Decisive(k.chunks);
      if d == [] then (-k.endErrno, was) else (Answer(d[0]), Left(was, d[0]))
  }

  // ---- the two doors --------------------------------------------------------------------------

  function Emptied(buf: Bytes): Bytes { if buf == [] then buf else buf[0 := 0] }

  /** Read a netdev's kind and alias; `index` is 0 for an interface that does not exist. */
  method Read(name: string, index: nat, k: Kernel, kind: array<Byte>, alias: array<Byte>)
    returns (rc: int)
    requires kind != alias
    modifies kind, alias
    ensures var was := Texts(Emptied(old(kind[..])), Emptied(old(alias[..])));
            (rc, Texts(kind[..], alias[..]))
            == if name == "" then (-EINVAL, was) else if index == 0 then (-ENODEV, was) else Reply(k, was)
  {
    if kind.Length > 0 {
      kind[0] := 0;
    }
    if alias.Length > 0 {
      alias[0] := 0;
    }
    assert Texts(kind[..], alias[..]) == Texts(Emptied(old(kind[..])), Emptied(old(alias[..])));
    if name == "" {
      return -EINVAL;
    }
    if index == 0 {
      return -ENODEV;
    }
    rc := Talk(k, kind, alias);
  }

  const NLM_F_REQUEST: nat := 1
  const NLM_F_ACK: nat := 4
  const REQ_LEN: nat := 32 + 4 + 256

  function IfInfo(index: nat): (s: Bytes)
    requires index < 0x1_0000_0000
    ensures |s| == IFI_LEN
  {
    Zeros(4) + Le32(index) + Zeros(8)
  }

  /** The request that sets an alias, as a message of the grammar. */
  function SetRequest(index: nat, alias: Bytes): Bytes
    requires index < 0x1_0000_0000 && |alias| < IFALIASZ
  {
    var attr := EncTree(Leaf(IFLA_IFALIAS, alias));
    Le32(NL_HDR + IFI_LEN + |attr|) + Le16(RTM_NEWLINK) + Le16(NLM_F_REQUEST + NLM_F_ACK)
    + Le32(1) + Le32(0) + IfInfo(index) + attr
  }

  /** A request laid down as far as `head`, and zero from there on. */
  ghost predicate LaidTo(req: array<Byte>, head: Bytes)
    reads req
  {
    |head| <= req.Length && req[..] == head + Zeros(req.Length - |head|)
  }

  /** Copy bytes into a request being built in place, leaving `gap` zeros before them. */
  method Lay(req: array<Byte>, at: nat, p: Bytes, ghost head: Bytes, ghost gap: nat)
    requires LaidTo(req, head) && at == |head| + gap && at + |p| <= req.Length
    modifies req
    ensures LaidTo(req, head + Zeros(gap) + p)
  {
    forall i | 0 <= i < |p| {
      req[at + i] := p[i];
    }
  }

  method LayHead(req: array<Byte>, index: nat)
    requires req.Length == REQ_LEN && LaidTo(req, []) && index < 0x1_0000_0000
    modifies req
    ensures LaidTo(req, Zeros(4) + RequestTail(index))
  {
    hide Le16, Le32, Zeros, LaidTo;
    Lay(req, 4, Le16(RTM_NEWLINK), [], 4);
    ghost var h1 := [] + Zeros(4) + Le16(RTM_NEWLINK);
    Lay(req, 6, Le16(NLM_F_REQUEST + NLM_F_ACK), h1, 0);
    ghost var h2 := h1 + Zeros(0) + Le16(NLM_F_REQUEST + NLM_F_ACK);
    Lay(req, 8, Le32(1), h2, 0);
    ghost var h3 := h2 + Zeros(0) + Le32(1);
    Lay(req, 20, Le32(index), h3, 8);
    ghost var h4 := h3 + Zeros(8) + Le32(index);
    Lay(req, 32, [], h4, 8);
    assert Zeros(0) == [];
    assert h4 + Zeros(8) + [] == Zeros(4) + RequestTail(index);
  }

  /** The request between its length and its attribute. */
  function RequestTail(index: nat): (s: Bytes)
    requires index < 0x1_0000_0000
    ensures |s| == NL_HDR + IFI_LEN - 4
  {
    Le16(RTM_NEWLINK) + Le16(NLM_F_REQUEST + NLM_F_ACK) + Le32(1) + Zeros(8) + Le32(index) + Zeros(8)
  }

  /** Fill the request in place: header, interface, the attribute, and last its own length. */
  method BuildRequest(index: nat, alias: Bytes) returns (req: array<Byte>, len: nat)
    requires index < 0x1_0000_0000 && |alias| < IFALIASZ
    ensures fresh(req) && len <= req.Length && req[..len] == SetRequest(index, alias)
  {
    hide Le16, Le32, Zeros, LaidTo, RequestTail, Align, SetRequest;
    req := new Byte[REQ_LEN](_ => 0);
    AllZero(req);
    LayHead(req, index);
    ghost var h0 := Zeros(4) + RequestTail(index);
    Lay(req, 32, Le16(RTA_HDR + |alias|), h0, 0);
    ghost var h1 := h0 + Zeros(0) + Le16(RTA_HDR + |alias|);
    Lay(req, 34, Le16(IFLA_IFALIAS), h1, 0);
    ghost var h2 := h1 + Zeros(0) + Le16(IFLA_IFALIAS);
    Lay(req, 36, alias, h2, 0);
    ghost var h3 := h2 + Zeros(0) + alias;
    len := NL_HDR + IFI_LEN + Align(RTA_HDR + |alias|);
    PatchLength(req, index, alias, h3, len);
  }

  lemma AllZero(req: array<Byte>)
    requires forall i :: 0 <= i < req.Length ==> req[i] == 0
    ensures LaidTo(req, [])
  {
  }

  method PatchLength(req: array<Byte>, index: nat, alias: Bytes, ghost head: Bytes, len: nat)
    requires req.Length == REQ_LEN && index < 0x1_0000_0000 && |alias| < IFALIASZ
    requires len == NL_HDR + IFI_LEN + Align(RTA_HDR + |alias|) && LaidTo(req, head)
    requires head == Zeros(4) + RequestTail(index) + Zeros(0) + Le16(RTA_HDR + |alias|)
                     + Zeros(0) + Le16(IFLA_IFALIAS) + Zeros(0) + alias
    modifies req
    ensures len <= req.Length && req[..len] == SetRequest(index, alias)
  {
    hide Le16, Le32, RequestTail, SetRequest;
    ghost var rta := Le16(RTA_HDR + |alias|) + Le16(IFLA_IFALIAS) + alias;
    RequestLaid(index, alias, len);
    var l := Le32(len);
    forall i | 0 <= i < 4 {
      req[i] := l[i];
    }
    assert head == Zeros(4) + (RequestTail(index) + rta);
    assert req[..len] == l + (RequestTail(index) + rta) + PadOf(|alias|);
  }

  lemma ZeroWord()
    ensures Le32(0) + Zeros(4) == Zeros(8)
  {
  }

  lemma RequestLaid(index: nat, alias: Bytes, len: nat)
    requires index < 0x1_0000_0000 && |alias| < IFALIASZ
    requires len == NL_HDR + IFI_LEN + Align(RTA_HDR + |alias|)
    ensures len == NL_HDR + IFI_LEN + RTA_HDR + |alias| + |PadOf(|alias|)| <= REQ_LEN
    ensures SetRequest(index, alias)
         == Le32(len) + (RequestTail(index) + (Le16(RTA_HDR + |alias|) + Le16(IFLA_IFALIAS) + alias))
            + PadOf(|alias|)
  {
    hide Le16, Le32, Zeros, Align;
    AlignShift(RTA_HDR, |alias|);
    ZeroWord();
    var rta := Le16(RTA_HDR + |alias|) + Le16(IFLA_IFALIAS) + alias;
    var mid := Le16(RTM_NEWLINK) + Le16(NLM_F_REQUEST + NLM_F_ACK) + Le32(1);
    assert EncTree(Leaf(IFLA_IFALIAS, alias)) == rta + PadOf(|alias|);
    assert SetRequest(index, alias)
        == Le32(len) + (mid + (Le32(0) + Zeros(4)) + Le32(index) + Zeros(8) + rta) + PadOf(|alias|);
  }

  /** A text a caller may leave out. */
  datatype Given = NoText | Given(text: Bytes)

  /** Set a netdev's alias: what is sent is the request, and the answer is its acknowledgement. */
  method Write(name: string, alias: Given, index: nat, k: Kernel) returns (rc: int, sent: Bytes)
    requires index < 0x1_0000_0000
    ensures name == "" || alias.NoText? ==> rc == -EINVAL && sent == []
    ensures name != "" && alias.Given? && |alias.text| >= IFALIASZ ==> rc == -ENAMETOOLONG && sent == []
    ensures name != "" && alias.Given? && |alias.text| < IFALIASZ && index == 0 ==> rc == -ENODEV && sent == []
    ensures name != "" && alias.Given? && |alias.text| < IFALIASZ && index > 0 ==>
              rc == Reply(k, Texts([], [])).0 && sent == SetRequest(index, alias.text)
  {
    sent := [];
    if name == "" || alias.NoText? {
      return -EINVAL, [];
    }
    if |alias.text| >= IFALIASZ {
      return -ENAMETOOLONG, [];
    }
    if index == 0 {
      return -ENODEV, [];
    }
    var req, len := BuildRequest(index, alias.text);
    sent := req[..len];
    var noKind, noAlias := new Byte[0], new Byte[0];
    assert noKind[..] == [] && noAlias[..] == [];
    rc := Talk(k, noKind, noAlias);
  }

  // ---- what comes back ---------------------------------------------------------------------------

  function AllMessages(chunks: seq<Bytes>): seq<Msg> {
    if chunks == [] then [] else Messages(Received(chunks[0]), 0) + AllMessages(chunks[1..])
  }

  lemma {:induction false} FirstDecisiveAppend(a: seq<Msg>, b: seq<Msg>)
    ensures FirstDecisive(a + b) == if FirstDecisive(a) != [] then FirstDecisive(a) else FirstDecisive(b)
    decreases |a|
  {
    if a == [] {
      assert a + b == b;
    } else {
      assert (a + b)[1..] == a[1..] + b;
      FirstDecisiveAppend(a[1..], b);
    }
  }

  /** An error is a message of type 2 and a link one of type 16; no other decides. */
  lemma DecisiveTypes(m: Msg)
    ensures Decides(m) <==> m.kind in {2, 16}
  {
  }

  lemma {:induction false} FirstDecisiveIs(msgs: seq<Msg>)
    ensures FirstDecisive(msgs) == [] <==> forall i :: 0 <= i < |msgs| ==> !Decides(msgs[i])
    ensures FirstDecisive(msgs) != [] ==>
              exists i :: 0 <= i < |msgs| && Decides(msgs[i]) && FirstDecisive(msgs) == [msgs[i]]
                          && forall j :: 0 <= j < i ==> !Decides(msgs[j])
    decreases |msgs|
  {
    if msgs != [] && !Decides(msgs[0]) {
      FirstDecisiveIs(msgs[1..]);
      if FirstDecisive(msgs[1..]) != [] {
        var i :| 0 <= i < |msgs[1..]| && Decides(msgs[1..][i]) && FirstDecisive(msgs[1..]) == [msgs[1..][i]]
                 && forall j :: 0 <= j < i ==> !Decides(msgs[1..][j]);
        assert msgs[i + 1] == msgs[1..][i];
        assert forall j :: 1 <= j < i + 1 ==> msgs[j] == msgs[1..][j - 1];
      }
    }
  }

  /** Of all the messages of all the chunks, in order, the first error or link decides. */
  lemma {:induction false} FirstErrorOrLinkDecides(chunks: seq<Bytes>)
    ensures Decisive(chunks) == FirstDecisive(AllMessages(chunks))
    decreases |chunks|
  {
    if chunks != [] {
      FirstDecisiveAppend(Messages(Received(chunks[0]), 0), AllMessages(chunks[1..]));
      FirstErrorOrLinkDecides(chunks[1..]);
    }
  }

  /** After an answer of 0 from a link message, each buffer reads as the last attribute of its
    * kind, cut at its NUL and to the buffer, and is as it was when there was none. */
  lemma LastAliasAndKindWin(k: Kernel, was: Texts)
    requires k.socketErrno == 0 && k.sendErrno == 0
    requires Decisive(k.chunks) != [] && Decisive(k.chunks)[0].kind == RTM_NEWLINK
    ensures var (rc, r) := Reply(k, was);
            var attrs := LinkAttrs(Decisive(k.chunks)[0].bytes);
            var aliases, kinds := DatasOf(attrs, IFLA_IFALIAS), KindsOf(attrs);
            && rc == 0
            && (aliases == [] ==> r.alias == was.alias)
            && (aliases != [] && was.alias != [] ==>
                  r.alias[..StrLen(r.alias)] == Cut(aliases[|aliases| - 1], |was.alias|))
            && (kinds == [] ==> r.kind == was.kind)
            && (kinds != [] && was.kind != [] ==>
                  r.kind[..StrLen(r.kind)] == Cut(kinds[|kinds| - 1], |was.kind|))
  {
    hide LinkAttrs, DatasOf, KindsOf, Cut, StrLen, CopiedAll, Decisive;
    var attrs := LinkAttrs(Decisive(k.chunks)[0].bytes);
    var aliases, kinds := DatasOf(attrs, IFLA_IFALIAS), KindsOf(attrs);
    CopiedNone(was.alias);
    CopiedNone(was.kind);
    if aliases != [] && was.alias != [] {
      LastCopyWins(was.alias, aliases);
    }
    if kinds != [] && was.kind != [] {
      LastCopyWins(was.kind, kinds);
    }
  }

  /** Attribute `i` is the last of its kind. */
  ghost predicate LastAttr(attrs: seq<Attr>, i: nat, kind: nat)
    requires i < |attrs|
  {
    attrs[i].kind == kind && forall j :: i < j < |attrs| ==> attrs[j].kind != kind
  }

  /** The last of the data of one kind is that of the last attribute of the kind. */
  lemma {:induction false} LastOfKind(attrs: seq<Attr>, kind: nat) returns (i: nat)
    ensures var datas := DatasOf(attrs, kind);
            if datas == [] then forall i :: 0 <= i < |attrs| ==> attrs[i].kind != kind
            else i < |attrs| && LastAttr(attrs, i, kind) && datas[|datas| - 1] == attrs[i].data
  {
    i := 0;
    if attrs != [] {
      assert forall j :: 0 < j < |attrs| ==> attrs[j] == attrs[1..][j - 1];
      i := LastOfKind(attrs[1..], kind);
      i := if DatasOf(attrs[1..], kind) == [] then 0 else i + 1;
    }
  }

  /** Attribute `i` is the last link-info attribute with a kind inside. */
  ghost predicate LastInfo(attrs: seq<Attr>, i: nat)
    requires i < |attrs|
  {
    && attrs[i].kind == IFLA_LINKINFO && InfoKinds(attrs[i].data) != []
    && forall j :: i < j < |attrs| && attrs[j].kind == IFLA_LINKINFO ==> InfoKinds(attrs[j].data) == []
  }

  /** The last kind is the last one inside that attribute. */
  lemma {:induction false} LastKind(attrs: seq<Attr>) returns (i: nat)
    ensures var kinds := KindsOf(attrs);
            if kinds == [] then
              forall i :: 0 <= i < |attrs| && attrs[i].kind == IFLA_LINKINFO ==> InfoKinds(attrs[i].data) == []
            else
              i < |attrs| && LastInfo(attrs, i)
              && kinds[|kinds| - 1] == InfoKinds(attrs[i].data)[|InfoKinds(attrs[i].data)| - 1]
  {
    hide InfoKinds;
    i := 0;
    if attrs != [] {
      assert forall j :: 0 < j < |attrs| ==> attrs[j] == attrs[1..][j - 1];
      i := LastKind(attrs[1..]);
      var rest := KindsOf(attrs[1..]);
      var inner := if attrs[0].kind == IFLA_LINKINFO then InfoKinds(attrs[0].data) else [];
      assert KindsOf(attrs) == inner + rest;
      if rest == [] {
        i := 0;
      } else {
        i := i + 1;
        assert attrs[i] == attrs[1..][i - 1];
      }
    }
  }

  /** What went wrong with the socket is the answer, negated, the first of the three, and the buffers
    * are untouched. */
  lemma SocketErrors(k: Kernel, was: Texts)
    ensures k.socketErrno != 0 ==> Reply(k, was).0 + k.socketErrno == 0
    ensures k.socketErrno == 0 && k.sendErrno != 0 ==> Reply(k, was).0 + k.sendErrno == 0
    ensures k.socketErrno == 0 && k.sendErrno == 0 && Decisive(k.chunks) == [] ==>
              Reply(k, was).0 + k.endErrno == 0
    ensures k.socketErrno != 0 || k.sendErrno != 0 || Decisive(k.chunks) == [] ==> Reply(k, was).1 == was
  {
    hide Decisive;
  }

  lemma EmptiedReadsEmpty(buf: Bytes)
    ensures StrLen(Emptied(buf)) == 0 && |Emptied(buf)| == |buf|
  {
  }

  // ---- round trips --------------------------------------------------------------------------------

  lemma LaidIs(m: Message)
    ensures Laid(m) == Header(NL_HDR + |m.body|, m.kind) + m.body
  {
  }

  lemma MessageAlone(m: Message)
    requires Decides(Msg(m.kind, [])) && |Laid(m)| <= RECV_MAX
    ensures Messages(Laid(m), 0) == [RawMsg(m)] && Decisive([Laid(m)]) == [RawMsg(m)]
  {
    hide Laid, Messages;
    MessageAt([], m, []);
    assert [] + Laid(m) + [] == Laid(m);
    NoMessages(Laid(m), Align(|Laid(m)|));
  }

  /** A link message the writer built is walked back to the attributes it was given. */
  lemma LinkMessageReadsBack(fixed: Bytes, ts: seq<Tree>)
    requires |fixed| == IFI_LEN && AllFit(ts) && NL_HDR + |fixed + EncAll(ts)| <= RECV_MAX
    ensures var e := EncMsg(RTM_NEWLINK, fixed + EncAll(ts));
            Decisive([e]) == [Msg(RTM_NEWLINK, e)] && LinkAttrs(e) == Raws(ts)
  {
    hide Messages, Attrs, EncAll, Raws, EncMsg, Header;
    var body := fixed + EncAll(ts);
    var m := Message.Message(RTM_NEWLINK, body);
    var e := Laid(m);
    MessageAlone(m);
    var h := Header(NL_HDR + |body|, RTM_NEWLINK);
    LaidIs(m);
    AttrsRoundTrip(h + fixed, ts, []);
    assert (h + fixed) + EncAll(ts) + [] == e;
  }

  lemma ErrorLaid(code: int, cut: int)
    requires -0x8000_0000 <= code < 0x8000_0000
    ensures var e := EncMsg(NL_ERROR, ErrorBody(code, cut));
            if 0 <= cut < NL_ERR_BODY then |e| == NL_HDR + cut
            else |e| == NL_HDR + NL_ERR_BODY && e[NL_HDR..NL_HDR + 4] == Le32(if code < 0 then code + 0x1_0000_0000 else code)
  {
    hide Le32, Le16;
  }

  /** The error a kernel answers is the answer, to the sign, and it leaves both buffers; cut anywhere
    * inside its body it is no answer. */
  lemma ErrorReadsBack(code: int, cut: int, k: Kernel, was: Texts)
    requires -0x8000_0000 <= code < 0x8000_0000
    requires k.socketErrno == 0 && k.sendErrno == 0
    requires k.chunks != [] && k.chunks[0] == EncMsg(NL_ERROR, ErrorBody(code, cut))
    ensures Reply(k, was) == (if 0 <= cut < 20 then -5 else code, was)
    ensures !(0 <= cut < 20) ==> |k.chunks[0]| == 36 && (Word(k.chunks[0], 16) - code) % 0x1_0000_0000 == 0
  {
    hide EncMsg, ErrorBody, Messages, Le32, Rd32, Received, Word;
    var e := k.chunks[0];
    var m := Message.Message(NL_ERROR, ErrorBody(code, cut));
    var v := if code < 0 then code + 0x1_0000_0000 else code;
    ErrorLaid(code, cut);
    WholeChunk(e);
    MessageAlone(m);
    assert Laid(m) == e;
    FirstChunk(k.chunks, e);
    if !(0 <= cut < 20) {
      Read32(e, NL_HDR, v);
      WordIs(e, NL_HDR, v);
    }
  }

  lemma WholeChunk(e: Bytes)
    requires |e| <= RECV_MAX
    ensures Received(e) == e
  {
  }

  lemma FirstChunk(chunks: seq<Bytes>, e: Bytes)
    requires chunks != [] && chunks[0] == e && Decisive([e]) != []
    ensures Decisive(chunks) == Decisive([e])
  {
    hide Messages;
    assert [e][1..] == [];
  }

  lemma WordIs(c: Bytes, at: nat, v: nat)
    requires at + 4 <= |c| && v < 0x1_0000_0000 && c[at..at + 4] == Le32(v)
    ensures Word(c, at) == v
  {
    hide Le32;
    LeastByteFirst(v, 0);
    assert c[at] == Le32(v)[0] && c[at + 1] == Le32(v)[1];
    assert c[at + 2] == Le32(v)[2] && c[at + 3] == Le32(v)[3];
  }

  /** The bytes before the attribute: the length of the whole, RTM_NEWLINK, a request that wants an
    * acknowledgement, sequence 1, port 0, no family and no type, and the interface's index. */
  lemma RequestSays(index: nat, alias: Bytes)
    requires index < 0x1_0000_0000 && |alias| < IFALIASZ
    ensures var r := SetRequest(index, alias);
            && |r| == 32 + 4 + Align(|alias|) && Word(r, 0) == |r|
            && r[4..8] == [16, 0, 5, 0] && Word(r, 8) == 1 && Word(r, 12) == 0
            && r[16..20] == [0, 0, 0, 0] && Word(r, 20) == index
  {
    hide Le32, EncTree, Align;
    var r, n := SetRequest(index, alias), 32 + |EncTree(Leaf(IFLA_IFALIAS, alias))|;
    AlignShift(RTA_HDR, |alias|);
    assert r[0..4] == Le32(n) && r[8..12] == Le32(1) && r[12..16] == Le32(0) && r[20..24] == Le32(index);
    WordIs(r, 0, n);
    WordIs(r, 8, 1);
    WordIs(r, 12, 0);
    WordIs(r, 20, index);
    assert r[16..20] == Zeros(4);
  }

  /** What the kernel says of a link: its alias, and its kind inside the link info. */
  function LinkTrees(alias: Bytes, kind: Bytes): seq<Tree> {
    [Leaf(IFLA_IFALIAS, alias), Nest(IFLA_LINKINFO, [Leaf(IFLA_INFO_KIND, kind)])]
  }

  /** The alias and the kind a link answers are read back into the caller's buffers. */
  lemma AliasReadsBack(fixed: Bytes, alias: Bytes, kind: Bytes, k: Kernel, was: Texts)
    requires |fixed| == IFI_LEN && was.alias != [] && was.kind != []
    requires AllFit(LinkTrees(alias, kind)) && NL_HDR + |fixed + EncAll(LinkTrees(alias, kind))| <= RECV_MAX
    requires k.socketErrno == 0 && k.sendErrno == 0
    requires k.chunks == [EncMsg(RTM_NEWLINK, fixed + EncAll(LinkTrees(alias, kind)))]
    ensures var (rc, r) := Reply(k, was);
            && rc == 0
            && r.alias[..StrLen(r.alias)] == Cut(alias, |was.alias|)
            && r.kind[..StrLen(r.kind)] == Cut(kind, |was.kind|)
  {
    hide EncAll, EncMsg, Raws, LinkTrees, Reply, Decisive, AllFit, Cut;
    LinkMessageReadsBack(fixed, LinkTrees(alias, kind));
    AliasAndKindOf(alias, kind);
    LastAliasAndKindWin(k, was);
  }

  lemma AliasAndKindOf(alias: Bytes, kind: Bytes)
    requires AllFit(LinkTrees(alias, kind))
    ensures var attrs := Raws(LinkTrees(alias, kind));
            DatasOf(attrs, IFLA_IFALIAS) == [alias] && KindsOf(attrs) == [kind]
  {
    hide EncAll, EncTree, Attrs, AllFit, Fits;
    var ts := LinkTrees(alias, kind);
    var info := ts[1].inner;
    assert Fits(ts[1]) by { InnerFits(ts); }
    NestRoundTrip(ts[1]);
    OneTree(info[0]);
    var a, b := Raw(ts[0]), Raw(ts[1]);
    assert ts[1..] == [ts[1]];
    OneTree(ts[1]);
    assert Raws(ts) == [a, b];
    assert [a, b][1..] == [b] && [b][1..] == [];
    OneData(Raw(info[0]), IFLA_INFO_KIND);
    OneData(b, IFLA_IFALIAS);
    assert DatasOf([a, b], IFLA_IFALIAS) == [alias] + DatasOf([b], IFLA_IFALIAS);
    assert KindsOf([b]) == InfoKinds(b.data) + KindsOf([]);
    assert KindsOf([a, b]) == [] + KindsOf([b]);
  }

  lemma InnerFits(ts: seq<Tree>)
    requires AllFit(ts)
    ensures forall i :: 0 <= i < |ts| ==> Fits(ts[i])
  {
  }

  lemma OneData(a: Attr, kind: nat)
    ensures DatasOf([a], kind) == if a.kind == kind then [a.data] else []
  {
  }

  /** The request that sets an alias is one link message holding one alias attribute with exactly
    * the alias's bytes, for every alias the caller may set. */
  lemma RequestReadsBack(index: nat, alias: Bytes)
    requires index < 0x1_0000_0000 && |alias| < IFALIASZ
    ensures var r := SetRequest(index, alias);
            Messages(r, 0) == [Msg(RTM_NEWLINK, r)] && LinkAttrs(r) == [Attr(IFLA_IFALIAS, alias)]
  {
    hide Messages, Attrs, EncAll, EncTree, Rd16, SetRequest, NlMsg, Align;
    var ts := [Leaf(IFLA_IFALIAS, alias)];
    var r := SetRequest(index, alias);
    var head := RequestHead(index, alias);
    FoundAt([], r, [], RTM_NEWLINK);
    assert [] + r + [] == r;
    Unroll(r, 0);
    NoMessages(r, Align(|r|));
    OneTree(ts[0]);
    assert r == head + EncAll(ts) + [];
    AttrsRoundTrip(head, ts, []);
  }

  lemma RequestHead(index: nat, alias: Bytes) returns (head: Bytes)
    requires index < 0x1_0000_0000 && |alias| < IFALIASZ
    ensures var r := SetRequest(index, alias);
            && NL_HDR <= |r| < 0x1_0000_0000 && r[..4] == Le32(|r|) && r[4..6] == Le16(RTM_NEWLINK)
            && |head| == NL_HDR + IFI_LEN && r == head + EncTree(Leaf(IFLA_IFALIAS, alias))
  {
    hide Le16, Le32, IfInfo, EncTree;
    var r := SetRequest(index, alias);
    head := r[..NL_HDR + IFI_LEN];
  }

  lemma OneTree(t: Tree)
    ensures EncAll([t]) == EncTree(t) && Raws([t]) == [Raw(t)]
  {
  }
}
