/**
 The packets of cpdup's link between hosts: a 16 byte header and aligned leaves, and what a
 chain of packets on a byte stream means to its reader. Both sides have the same byte
 order, written here with the low byte first.
 */
module CpdupWire {

  type Byte = b: int | 0 <= b < 256
  type Bytes = seq<Byte>
  type Int16 = v: int | 0 <= v < 0x1_0000
  type Int32 = v: int | -0x8000_0000 <= v < 0x8000_0000

  const BUFSIZE := 65536
  const HEAD := 16
  const LEAF := 8
  const MAGIC: Int32 := 0x48435052
  const CONTINUE := 0x4000
  const REPLY := 0x8000

  // HCC_ALIGN
  function Align(n: int): (r: int)
    ensures r % 8 == 0 && n <= r < n + 8
  {
    (n + 7) / 8 * 8
  }

  lemma AlignFurther(w: nat, n: nat)
    requires w % 8 == 0 && w + n < BUFSIZE
    ensures Align(w + n) == w + Align(n) <= BUFSIZE
  {
  }

  lemma AlignBound(n: int)
    requires HEAD <= n < BUFSIZE
    ensures HEAD <= Align(n) <= BUFSIZE
  {
  }

  // One bit of a command word, and the word with that bit set.
  predicate Flag(cmd: Int16, f: int)
    requires f == CONTINUE || f == REPLY
  {
    cmd / f % 2 == 1
  }

  function WithFlag(cmd: Int16, f: int): (r: Int16)
    requires f == CONTINUE || f == REPLY
    ensures Flag(r, f)
    ensures f == REPLY ==> (Flag(r, CONTINUE) <==> Flag(cmd, CONTINUE))
    ensures f == CONTINUE ==> (Flag(r, REPLY) <==> Flag(cmd, REPLY))
  {
    if Flag(cmd, f) then cmd else cmd + f
  }

  function Put16(v: Int16): (r: Bytes)
    ensures |r| == 2
  {
    [v % 256, v / 256]
  }

  function Get16(s: Bytes): Int16
    requires |s| == 2
  {
    s[0] as int + 256 * s[1] as int
  }

  function Put32(v: Int32): (r: Bytes)
    ensures |r| == 4
  {
    var u := if v < 0 then v + 0x1_0000_0000 else v;
    [u % 256, u / 256 % 256, u / 65536 % 256, u / 0x100_0000]
  }

  function Get32(s: Bytes): Int32
    requires |s| == 4
  {
    var u := s[0] as int + 256 * s[1] as int + 65536 * s[2] as int + 0x100_0000 * s[3] as int;
    if u >= 0x8000_0000 then u - 0x1_0000_0000 else u
  }

  lemma Get16Put16(v: Int16)
    ensures Get16(Put16(v)) == v
  {
  }

  lemma Get32Put32(v: Int32)
    ensures Get32(Put32(v)) == v
  {
    var u := if v < 0 then v + 0x1_0000_0000 else v;
    assert u / 256 == u / 65536 * 256 + u / 256 % 256;
    assert u / 65536 == u / 0x100_0000 * 256 + u / 65536 % 256;
  }

  datatype Leaf = Leaf(id: Int16, data: Bytes)

  datatype Option<T> = None | Some(value: T)

  /** The leaves a reader finds in the body of a packet; None when one of the reader's
      assertions on a leaf fails. */
  function Items(s: Bytes): (r: Option<seq<Leaf>>)
    decreases |s|
  {
    if |s| == 0 then Some([])
    else if |s| < LEAF then None
    else
      var n := Get32(s[4..8]);
      if n > |s| || n < LEAF || n >= BUFSIZE || Align(n) > |s| then None
      else match Items(s[Align(n)..])
        case None => None
        case Some(rest) => Some([Leaf(Get16(s[..2]), s[LEAF..n])] + rest)
  }

  // The bytes of a leaf, with whatever fills it up to the alignment.
  ghost predicate Encodes(s: Bytes, leaf: Leaf) {
    && LEAF + |leaf.data| < BUFSIZE && |s| == Align(LEAF + |leaf.data|)
    && s[..2] == Put16(leaf.id) && s[4..8] == Put32(LEAF + |leaf.data|)
    && s[LEAF..LEAF + |leaf.data|] == leaf.data
  }

  lemma ItemsLeaf(s: Bytes, leaf: Leaf, t: Bytes)
    requires Encodes(s, leaf)
    ensures Items(s + t) == match Items(t) case None => None case Some(ls) => Some([leaf] + ls)
  {
    hide Put16, Put32, Get16, Get32;
    var n := LEAF + |leaf.data|;
    Get16Put16(leaf.id);
    Get32Put32(n);
    var x := s + t;
    assert x[..2] == s[..2] && x[4..8] == s[4..8] && x[LEAF..n] == s[LEAF..n];
    assert x[Align(n)..] == t;
  }

  // A leaf after others.
  lemma {:induction false} ItemsMore(b: Bytes, s: Bytes, leaf: Leaf)
    requires Encodes(s, leaf) && Items(b).Some?
    ensures Items(b + s) == Some(Items(b).value + [leaf])
    decreases |b|
  {
    hide Put16, Put32, Get16, Get32, Encodes;
    if |b| == 0 {
      assert b + s == s + [] && [leaf] + [] == Items(b).value + [leaf];
      ItemsLeaf(s, leaf, []);
    } else {
      var n := Get32(b[4..8]);
      var x := b + s;
      assert x[..2] == b[..2] && x[4..8] == b[4..8] && x[LEAF..n] == b[LEAF..n];
      assert x[Align(n)..] == b[Align(n)..] + s;
      ItemsMore(b[Align(n)..], s, leaf);
      var first, rest := [Leaf(Get16(b[..2]), b[LEAF..n])], Items(b[Align(n)..]).value;
      assert first + (rest + [leaf]) == first + rest + [leaf];
    }
  }

  datatype Head = Head(magic: Int32, bytes: Int32, cmd: Int16, id: Int16, error: Int32)

  function PutHead(h: Head): (r: Bytes)
    ensures |r| == HEAD
  {
    Put32(h.magic) + Put32(h.bytes) + Put16(h.cmd) + Put16(h.id) + Put32(h.error)
  }

  function GetHead(s: Bytes): Head
    requires |s| >= HEAD
  {
    Head(Get32(s[..4]), Get32(s[4..8]), Get16(s[8..10]), Get16(s[10..12]), Get32(s[12..16]))
  }

  lemma GetPutHead(h: Head, t: Bytes)
    ensures GetHead(PutHead(h) + t) == h
  {
    hide Put16, Put32, Get16, Get32;
    Get32Put32(h.magic);
    Get32Put32(h.bytes);
    Get16Put16(h.cmd);
    Get16Put16(h.id);
    Get32Put32(h.error);
    var s := PutHead(h) + t;
    assert s[..4] == Put32(h.magic) && s[4..8] == Put32(h.bytes);
    assert s[8..10] == Put16(h.cmd) && s[10..12] == Put16(h.id) && s[12..16] == Put32(h.error);
  }

  // What hcc_read_command finds at the front of the stream.
  datatype Arrival = Eof | Mismatch | Oversize | Packet(size: int)

  function Next(input: Bytes): (r: Arrival)
    ensures r.Packet? ==> HEAD <= GetHeadBytes(input) < BUFSIZE && r.size == Align(GetHeadBytes(input)) <= |input|
    ensures r.Packet? ==> HEAD <= r.size <= BUFSIZE
  {
    if |input| < HEAD then Eof
    else
      var h := GetHead(input);
      if h.magic != MAGIC then Mismatch
      else if !(HEAD <= h.bytes < BUFSIZE) then Oversize
      else
        AlignBound(h.bytes);
        if |input| < Align(h.bytes) then Eof else Packet(Align(h.bytes))
  }

  function GetHeadBytes(input: Bytes): int {
    if |input| < HEAD then 0 else GetHead(input).bytes
  }

  /** The leaves of a chain of packets for transaction id; None when the stream ends early,
      belongs to another transaction or fails an assertion. */
  function Chain(id: Int16, input: Bytes): Option<seq<Leaf>>
    decreases |input|
  {
    var p := Next(input);
    if !p.Packet? || GetHead(input).id != id then None
    else
      match Items(input[HEAD..GetHead(input).bytes])
      case None => None
      case Some(ls) =>
        if !Flag(GetHead(input).cmd, CONTINUE) then Some(ls)
        else Join(Some(ls), Chain(id, input[p.size..]))
  }

  function Join(a: Option<seq<Leaf>>, b: Option<seq<Leaf>>): Option<seq<Leaf>> {
    if a.Some? && b.Some? then Some(a.value + b.value) else None
  }

  lemma JoinAssoc(a: Option<seq<Leaf>>, b: Option<seq<Leaf>>, c: Option<seq<Leaf>>)
    ensures Join(a, Join(b, c)) == Join(Join(a, b), c)
    ensures Join(Some([]), a) == a
  {
    if a.Some? {
      assert [] + a.value == a.value;
      if b.Some? && c.Some? {
        assert a.value + (b.value + c.value) == a.value + b.value + c.value;
      }
    }
  }

  /** What the reader's walk makes of a stream from a continuation packet on: a stream that ends
      before the first continuation packet does (`first`) ends the walk like the end of the
      chain, and so does a packet of another transaction; None when the walk breaks off. */
  function Heard(id: Int16, input: Bytes, first: bool): Option<seq<Leaf>>
    decreases |input|
  {
    var p := Next(input);
    if p.Eof? then (if first then Some([]) else None)
    else if !p.Packet? then None
    else if GetHead(input).id != id then Some([])
    else
      match Items(input[HEAD..GetHead(input).bytes])
      case None => None
      case Some(ls) =>
        if !Flag(GetHead(input).cmd, CONTINUE) then Some(ls)
        else Join(Some(ls), Heard(id, input[p.size..], false))
  }

  // The same from the first packet of a reply on.
  function Reading(id: Int16, input: Bytes): Option<seq<Leaf>> {
    var p := Next(input);
    if !p.Packet? || GetHead(input).id != id then None
    else
      match Items(input[HEAD..GetHead(input).bytes])
      case None => None
      case Some(ls) =>
        if !Flag(GetHead(input).cmd, CONTINUE) then Some(ls)
        else Join(Some(ls), Heard(id, input[p.size..], true))
  }

  lemma {:induction false} HeardChain(id: Int16, input: Bytes, first: bool)
    requires Chain(id, input).Some?
    ensures Heard(id, input, first) == Chain(id, input)
    decreases |input|
  {
    hide Items, GetHead, Flag;
    if Flag(GetHead(input).cmd, CONTINUE) {
      HeardChain(id, input[Next(input).size..], false);
    }
  }

  // A readable stream reads as its chain.
  lemma ReadingChain(id: Int16, input: Bytes)
    requires Chain(id, input).Some?
    ensures Reading(id, input) == Chain(id, input)
  {
    hide Items, GetHead, Flag;
    if Flag(GetHead(input).cmd, CONTINUE) {
      HeardChain(id, input[Next(input).size..], true);
    }
  }

  // The bytes that a readable chain takes.
  ghost function Extent(id: Int16, input: Bytes): (n: nat)
    requires Chain(id, input).Some?
    ensures n <= |input|
    decreases |input|
  {
    var p := Next(input);
    if Flag(GetHead(input).cmd, CONTINUE) then p.size + Extent(id, input[p.size..]) else p.size
  }

  lemma HeadPrefix(input: Bytes, n: nat)
    requires HEAD <= n <= |input|
    ensures GetHead(input[..n]) == GetHead(input)
  {
    var t := input[..n];
    assert t[..4] == input[..4] && t[4..8] == input[4..8] && t[8..10] == input[8..10];
    assert t[10..12] == input[10..12] && t[12..16] == input[12..16];
  }

  // A packet that is not all there, and one that is.
  lemma NextPrefix(input: Bytes, n: nat)
    requires Next(input).Packet? && n <= |input|
    ensures n < Next(input).size ==> Next(input[..n]) == Eof
    ensures n >= Next(input).size ==>
      && Next(input[..n]) == Next(input) && GetHead(input[..n]) == GetHead(input)
      && input[..n][HEAD..GetHead(input).bytes] == input[HEAD..GetHead(input).bytes]
      && input[..n][Next(input).size..] == input[Next(input).size..][..n - Next(input).size]
  {
    hide GetHead, Align;
    if n >= HEAD {
      HeadPrefix(input, n);
    }
  }

  lemma {:induction false} HeardCut(id: Int16, input: Bytes, n: nat, first: bool)
    requires Chain(id, input).Some? && n < Extent(id, input)
    ensures Heard(id, input[..n], first) == if first && n < Next(input).size then Some([]) else None
    decreases |input|
  {
    hide Items, GetHead, Flag, Next;
    NextPrefix(input, n);
    if n >= Next(input).size {
      HeardCut(id, input[Next(input).size..], n - Next(input).size, false);
    }
  }

  /** Of the streams cut off before the end of their chain, the reader takes exactly those for
      complete that hold the first packet and not all of the second, and gets the leaves of the
      first packet; on every other one its walk breaks off. */
  lemma Truncated(id: Int16, input: Bytes, n: nat)
    requires Chain(id, input).Some? && n < Extent(id, input)
    ensures var size, rest := Next(input).size, input[Next(input).size..];
      Reading(id, input[..n]) ==
        if size <= n && Next(rest).Packet? && n - size < Next(rest).size
        then Items(input[HEAD..GetHead(input).bytes])
        else None
  {
    hide Items, GetHead, Flag, Next, Heard;
    NextPrefix(input, n);
    if n >= Next(input).size {
      HeardCut(id, input[Next(input).size..], n - Next(input).size, true);
      var ls := Items(input[HEAD..GetHead(input).bytes]).value;
      assert ls + [] == ls;
    }
  }

  // The stream is whole packets of transaction id up to the last one of a chain, or to one that
  // is too long to be read.
  ghost predicate Sane(id: Int16, input: Bytes)
    decreases |input|
  {
    var p := Next(input);
    p.Oversize? ||
    (p.Packet? && GetHead(input).id == id &&
     (Flag(GetHead(input).cmd, CONTINUE) ==> Sane(id, input[p.size..])))
  }

  lemma {:induction false} SaneHeard(id: Int16, input: Bytes, first: bool)
    requires Sane(id, input)
    ensures Heard(id, input, first) == Chain(id, input)
    decreases |input|
  {
    hide Items, GetHead, Flag;
    if Next(input).Packet? && Flag(GetHead(input).cmd, CONTINUE) {
      SaneHeard(id, input[Next(input).size..], false);
    }
  }

  // Such a stream reads as its chain or, when that is not readable, breaks off.
  lemma SaneReading(id: Int16, input: Bytes)
    requires Sane(id, input)
    ensures Reading(id, input) == Chain(id, input)
  {
    hide Items, GetHead, Flag;
    if Next(input).Packet? && Flag(GetHead(input).cmd, CONTINUE) {
      SaneHeard(id, input[Next(input).size..], true);
    }
  }

  // A whole packet of transaction id with these leaves. One of BUFSIZE bytes can be written.
  ghost predicate Carries(p: Bytes, h: Head, ls: seq<Leaf>) {
    && |p| % 8 == 0 && HEAD <= |p| <= BUFSIZE && h.magic == MAGIC && h.bytes == |p|
    && p[..HEAD] == PutHead(h)
    && Items(p[HEAD..]) == Some(ls)
  }

  // A packet in front of a stream.
  lemma ChainPacket(p: Bytes, h: Head, ls: seq<Leaf>, t: Bytes)
    requires Carries(p, h, ls)
    ensures |p| == BUFSIZE ==> Chain(h.id, p + t) == None
    ensures |p| < BUFSIZE && !Flag(h.cmd, CONTINUE) ==> Chain(h.id, p + t) == Some(ls)
    ensures |p| < BUFSIZE && Flag(h.cmd, CONTINUE) ==> Chain(h.id, p + t) == Join(Some(ls), Chain(h.id, t))
    ensures |p| == BUFSIZE || !Flag(h.cmd, CONTINUE) || Sane(h.id, t) ==> Sane(h.id, p + t)
  {
    hide PutHead, GetHead, Items, Flag, Join;
    var x := p + t;
    assert x == PutHead(h) + x[HEAD..];
    GetPutHead(h, x[HEAD..]);
    assert Align(|p|) == |p|;
    assert x[HEAD..|p|] == p[HEAD..] && x[|p|..] == t;
  }

  // What the stream so far contributes, whatever follows it.
  ghost predicate Leads(id: Int16, sent: Bytes, part: Option<seq<Leaf>>) {
    forall t: Bytes :: LeadsTo(id, sent, part, t)
  }

  ghost predicate LeadsTo(id: Int16, sent: Bytes, part: Option<seq<Leaf>>, t: Bytes) {
    Chain(id, sent + t) == Join(part, Chain(id, t)) && (Sane(id, t) ==> Sane(id, sent + t))
  }

  lemma LeadsNone(id: Int16)
    ensures Leads(id, [], Some([]))
  {
    hide Chain;
    forall t: Bytes ensures LeadsTo(id, [], Some([]), t) {
      assert [] + t == t;
      JoinAssoc(Chain(id, t), None, None);
    }
  }

  // Another packet of a reply, with HCF_CONTINUE.
  lemma LeadsMore(sent: Bytes, part: Option<seq<Leaf>>, p: Bytes, h: Head, ls: seq<Leaf>)
    requires Leads(h.id, sent, part) && Carries(p, h, ls) && Flag(h.cmd, CONTINUE)
    ensures Leads(h.id, sent + p, Join(part, if |p| < BUFSIZE then Some(ls) else None))
  {
    hide Chain, Join, Flag, Items, PutHead, Sane;
    var own := if |p| < BUFSIZE then Some(ls) else None;
    forall t: Bytes ensures LeadsTo(h.id, sent + p, Join(part, own), t) {
      assert sent + p + t == sent + (p + t);
      assert LeadsTo(h.id, sent, part, p + t);
      ChainPacket(p, h, ls, t);
      NoneJoin(part, Chain(h.id, t));
      JoinAssoc(part, own, Chain(h.id, t));
    }
  }

  lemma NoneJoin(a: Option<seq<Leaf>>, b: Option<seq<Leaf>>)
    ensures Join(None, a) == None && Join(a, None) == None
    ensures Join(Join(a, None), b) == None
  {
  }

  // The last packet of a reply.
  lemma LeadsLast(sent: Bytes, part: Option<seq<Leaf>>, p: Bytes, h: Head, ls: seq<Leaf>)
    requires Leads(h.id, sent, part) && Carries(p, h, ls) && !Flag(h.cmd, CONTINUE)
    ensures Chain(h.id, sent + p) == Join(part, if |p| < BUFSIZE then Some(ls) else None)
    ensures Sane(h.id, sent + p)
  {
    hide Chain, Flag, Items, PutHead, Sane;
    ChainPacket(p, h, ls, []);
    assert p + [] == p;
    assert LeadsTo(h.id, sent, part, p);
  }

  // A packet of one leaf.
  lemma OneLeafPacket(cmd: Int16, leaf: Leaf, s: Bytes)
    requires Encodes(s, leaf) && HEAD + |s| < BUFSIZE
    ensures var h := Head(MAGIC, HEAD + |s|, cmd, 0, 0); Carries(PutHead(h) + s, h, [leaf])
  {
    hide PutHead, Items, Put16, Put32;
    ItemsLeaf(s, leaf, []);
    assert s + [] == s && [leaf] + [] == [leaf];
    NoItems();
    var p := PutHead(Head(MAGIC, HEAD + |s|, cmd, 0, 0)) + s;
    assert p[..HEAD] == PutHead(Head(MAGIC, HEAD + |s|, cmd, 0, 0)) && p[HEAD..] == s;
  }

  lemma NoItems()
    ensures Items([]) == Some([])
  {
  }

  lemma PacketIs(p: Bytes, h: Head, ls: seq<Leaf>, t: Bytes)
    requires Carries(p, h, ls) && |p| < BUFSIZE
    ensures GetHead(p + t) == h && Next(p + t) == Packet(|p|) && (p + t)[|p|..] == t
    ensures (p + t)[HEAD..|p|] == p[HEAD..]
  {
    hide PutHead, GetHead, Items;
    var x := p + t;
    assert x == PutHead(h) + x[HEAD..];
    GetPutHead(h, x[HEAD..]);
    assert Align(|p|) == |p|;
  }

  /** Such a stream: a packet with a leaf and HCF_CONTINUE and a last one with the same leaf are
      a chain of two leaves; cut off after the first packet they read as complete, with one. */
  lemma FalseEnd(leaf: Leaf, s: Bytes)
    requires Encodes(s, leaf) && HEAD + |s| < BUFSIZE
    ensures var p := PutHead(Head(MAGIC, HEAD + |s|, WithFlag(REPLY, CONTINUE), 0, 0)) + s;
      var q := PutHead(Head(MAGIC, HEAD + |s|, REPLY, 0, 0)) + s;
      Chain(0, p + q) == Some([leaf, leaf]) && Reading(0, (p + q)[..|p|]) == Some([leaf])
  {
    hide PutHead, GetHead, Items, Chain, Reading, Encodes, Next;
    var c, d: Int16 := WithFlag(REPLY, CONTINUE), REPLY;
    var h, g := Head(MAGIC, HEAD + |s|, c, 0, 0), Head(MAGIC, HEAD + |s|, d, 0, 0);
    var p, q := PutHead(h) + s, PutHead(g) + s;
    assert !Flag(d, CONTINUE);
    OneLeafPacket(c, leaf, s);
    OneLeafPacket(d, leaf, s);
    assert q + [] == q && [leaf] + [leaf] == [leaf, leaf];
    ChainPacket(q, g, [leaf], []);
    ChainPacket(p, h, [leaf], q);
    PacketIs(p, h, [leaf], q);
    PacketIs(q, g, [leaf], []);
    ExtentMore(0, p + q);
    Truncated(0, p + q, |p|);
  }

  lemma ExtentMore(id: Int16, input: Bytes)
    requires Chain(id, input).Some? && Flag(GetHead(input).cmd, CONTINUE)
    ensures Next(input).Packet? && Extent(id, input) > Next(input).size
  {
  }

  /** One leaf without data, and what a file of 65536 bytes is sent as: two leaves of 32768, the
      second of which no longer fits the packet of the first. */
  lemma FalseEndInputs()
    ensures Encodes(Put16(0) + Put16(0) + Put32(LEAF), Leaf(0, []))
    ensures !Flushes(HEAD, 1, 32768) && After(HEAD, [32768]) == Some(32792) && Flushes(32792, 1, 32768)
  {
    hide Put16, Put32;
    var s := Put16(0) + Put16(0) + Put32(LEAF);
    assert s[..2] == Put16(0) && s[4..8] == Put32(LEAF) && s[LEAF..LEAF] == [];
    assert [32768][1..] == [];
  }

  /** A header byte by byte: the constants, the order of the fields and of the bytes in them,
      the flag bits and the two's complement of the error. */
  lemma SomeHeader()
    ensures PutHead(Head(MAGIC, 25, WithFlag(WithFlag(0, REPLY), CONTINUE), 258, -2)) ==
      [0x52, 0x50, 0x43, 0x48, 25, 0, 0, 0, 0x00, 0xC0, 2, 1, 0xFE, 0xFF, 0xFF, 0xFF]
  {
    assert Put32(MAGIC) == [0x52, 0x50, 0x43, 0x48] && Put32(25) == [25, 0, 0, 0];
    assert Put32(-2) == [0xFE, 0xFF, 0xFF, 0xFF];
    assert WithFlag(WithFlag(0, REPLY), CONTINUE) == 0xC000;
    assert Put16(0xC000) == [0x00, 0xC0] && Put16(258) == [2, 1];
    hide Put32, Put16, WithFlag;
  }

  // A leaf of one byte.
  lemma SomeLeaf()
    ensures Items([4, 3, 0, 0, 9, 0, 0, 0, 5, 0, 0, 0, 0, 0, 0, 0]) == Some([Leaf(0x0304, [5])])
  {
    var s: Bytes := [4, 3, 0, 0, 9, 0, 0, 0, 5, 0, 0, 0, 0, 0, 0, 0];
    assert Put16(0x0304) == [4, 3] && Put32(9) == [9, 0, 0, 0];
    assert |s| == Align(9);
    hide Put16, Put32, Align, Items;
    assert s[..2] == [4, 3];
    assert s[4..8] == [9, 0, 0, 0];
    assert s[8..9] == [5];
    ItemsLeaf(s, Leaf(0x0304, [5]), []);
    NoItems();
    assert s + [] == s && [Leaf(0x0304, [5])] + [] == [Leaf(0x0304, [5])];
  }

  // HCF_CONTINUE is bit 14 of the command word, HCF_REPLY bit 15.
  lemma FlagBits(cmd: Int16)
    ensures Flag(cmd, REPLY) <==> cmd >= 0x8000
    ensures Flag(cmd, CONTINUE) <==> 0x4000 <= cmd < 0x8000 || 0xC000 <= cmd
  {
  }

  /** What arrives when a header g and the bytes t are on the stream. */
  lemma Arrives(g: Head, t: Bytes)
    ensures Next(PutHead(g) + t) ==
      if g.magic != 0x48435052 then Mismatch
      else if g.bytes < 16 || g.bytes >= 65536 then Oversize
      else if 16 + |t| < Align(g.bytes) then Eof
      else Packet(Align(g.bytes))
  {
    hide PutHead, GetHead, Align;
    GetPutHead(g, t);
  }

  /** What a client that has read a packet with HCF_CONTINUE makes of the stream behind it: it
      takes the reply for complete when nothing, not all of a packet, or another transaction's
      packet comes, and fails when the header is not one or its length is out of range. */
  lemma ReadingOn(p: Bytes, h: Head, ls: seq<Leaf>, g: Head, t: Bytes)
    requires Carries(p, h, ls) && |p| < BUFSIZE && Flag(h.cmd, CONTINUE)
    ensures |t| < 16 ==> Reading(h.id, p + t) == Some(ls)
    ensures g.magic != 0x48435052 || g.bytes < 16 || g.bytes >= 65536 ==> Reading(h.id, p + (PutHead(g) + t)) == None
    ensures g.magic == 0x48435052 && 16 <= g.bytes < 65536 && (16 + |t| < Align(g.bytes) || g.id != h.id) ==>
      Reading(h.id, p + (PutHead(g) + t)) == Some(ls)
  {
    hide PutHead, GetHead, Items, Flag, Align, Next;
    PacketIs(p, h, ls, t);
    PacketIs(p, h, ls, PutHead(g) + t);
    GetPutHead(g, t);
    Arrives(g, t);
    NothingArrives(t);
    assert ls + [] == ls;
  }

  /** Behind two of them only another transaction's packet completes the reply. */
  lemma ReadingFurther(p: Bytes, h: Head, ls: seq<Leaf>, q: Bytes, h': Head, ls': seq<Leaf>, g: Head, t: Bytes)
    requires Carries(p, h, ls) && |p| < BUFSIZE && Flag(h.cmd, CONTINUE)
    requires Carries(q, h', ls') && |q| < BUFSIZE && Flag(h'.cmd, CONTINUE) && h'.id == h.id
    ensures |t| < 16 ==> Reading(h.id, p + (q + t)) == None
    ensures g.magic != 0x48435052 || g.bytes < 16 || g.bytes >= 65536 || 16 + |t| < Align(g.bytes) ==>
      Reading(h.id, p + (q + (PutHead(g) + t))) == None
    ensures g.magic == 0x48435052 && 16 <= g.bytes < 65536 && 16 + |t| >= Align(g.bytes) && g.id != h.id ==>
      Reading(h.id, p + (q + (PutHead(g) + t))) == Some(ls + ls')
  {
    hide PutHead, GetHead, Items, Flag, Align, Next, Carries, Reading;
    var u := PutHead(g) + t;
    PacketHeard(p, h, ls, q + t);
    PacketHeard(p, h, ls, q + u);
    PacketHeard(q, h', ls', t);
    PacketHeard(q, h', ls', u);
    GetPutHead(g, t);
    Arrives(g, t);
    NothingArrives(t);
    assert ls' + [] == ls';
  }

  // A packet with HCF_CONTINUE in front of what is heard behind it.
  lemma PacketHeard(p: Bytes, h: Head, ls: seq<Leaf>, t: Bytes)
    requires Carries(p, h, ls) && |p| < BUFSIZE && Flag(h.cmd, CONTINUE)
    ensures Reading(h.id, p + t) == Join(Some(ls), Heard(h.id, t, true))
    ensures forall first :: Heard(h.id, p + t, first) == Join(Some(ls), Heard(h.id, t, false))
  {
    hide PutHead, GetHead, Items, Flag, Align, Next;
    PacketIs(p, h, ls, t);
  }

  lemma NothingArrives(t: Bytes)
    ensures |t| < 16 ==> Next(t) == Eof
  {
  }

  // The same for the first packet of a reply: only a whole packet of the transaction will do.
  lemma ReadingNothing(id: Int16, g: Head, t: Bytes)
    ensures |t| < 16 ==> Reading(id, t) == None
    ensures g.magic != 0x48435052 || g.bytes < 16 || g.bytes >= 65536 || 16 + |t| < Align(g.bytes) || g.id != id ==>
      Reading(id, PutHead(g) + t) == None
  {
    hide PutHead, GetHead, Items, Flag, Align, Next;
    GetPutHead(g, t);
    Arrives(g, t);
    NothingArrives(t);
  }

  // Space in the write buffer. What a leaf with n data bytes takes, and several.
  function Room(sizes: seq<nat>): (r: nat)
    ensures r % 8 == 0
  {
    if |sizes| == 0 then 0 else LEAF + Align(sizes[0]) + Room(sizes[1..])
  }

  // The write index after the leaves; None when the assertion of a hcc_leaf function fails.
  function After(w: nat, sizes: seq<nat>): Option<nat>
    decreases |sizes|
  {
    if |sizes| == 0 then Some(w)
    else if w + LEAF + sizes[0] >= BUFSIZE then None
    else After(Align(w + LEAF + sizes[0]), sizes[1..])
  }

  // No assertion fails on either side: the leaves are written and the packet is not too long to be read.
  predicate Fits(w: nat, sizes: seq<nat>) {
    After(w, sizes).Some? && After(w, sizes).value < BUFSIZE
  }

  lemma {:induction false} FitsRoom(w: nat, sizes: seq<nat>)
    requires w % 8 == 0 && w < BUFSIZE
    ensures Fits(w, sizes) <==> w + Room(sizes) < BUFSIZE
    ensures After(w, sizes).Some? ==> After(w, sizes).value == w + Room(sizes)
    decreases |sizes|
  {
    hide Align;
    if |sizes| > 0 {
      var n, v := LEAF + sizes[0], w + LEAF + Align(sizes[0]);
      AlignLeaf(sizes[0]);
      if w + n < BUFSIZE {
        AlignFurther(w, n);
        if v < BUFSIZE {
          FitsRoom(v, sizes[1..]);
        } else {
          Full(v, sizes[1..]);
        }
      }
    }
  }

  lemma AlignLeaf(n: nat)
    ensures Align(LEAF + n) == LEAF + Align(n) && n <= Align(n)
  {
  }

  lemma Full(w: nat, sizes: seq<nat>)
    requires w == BUFSIZE
    ensures After(w, sizes) == if |sizes| == 0 then Some(w) else None
  {
  }

  // What hcc_check_space reserves for n leaves with `size` data bytes, and when it sends the
  // packet first.
  function Reserve(n: nat, size: nat): (r: nat)
    ensures r % 8 == 0
  {
    Align(size) + n * LEAF
  }

  predicate Flushes(w: nat, n: nat, size: nat) {
    Reserve(n, size) >= BUFSIZE - w
  }

  /** Leaves guarded by hcc_check_space fit wherever it lets them in, exactly when they take
      no more than it reserves. */
  lemma CheckSpaceExact(n: nat, size: nat, sizes: seq<nat>)
    requires HEAD + Reserve(n, size) < BUFSIZE
    ensures (forall w: nat :: HEAD <= w < BUFSIZE && w % 8 == 0 && !Flushes(w, n, size) ==> Fits(w, sizes))
            <==> Room(sizes) <= Reserve(n, size)
  {
    hide Room, Reserve, Fits;
    if Room(sizes) <= Reserve(n, size) {
      forall w: nat | HEAD <= w < BUFSIZE && w % 8 == 0 && !Flushes(w, n, size) ensures Fits(w, sizes) {
        FitsRoom(w, sizes);
      }
    } else {
      var w := BUFSIZE - 8 - Reserve(n, size);
      assert w % 8 == 0 && !Flushes(w, n, size);
      FitsRoom(w, sizes);
      assert !Fits(w, sizes);
    }
  }

  function Sum(sizes: seq<nat>): nat {
    if |sizes| == 0 then 0 else sizes[0] + Sum(sizes[1..])
  }

  // The bytes that fill leaves up to their alignment.
  function Padding(sizes: seq<nat>): nat {
    if |sizes| == 0 then 0 else Align(sizes[0]) - sizes[0] + Padding(sizes[1..])
  }

  lemma {:induction false} RoomSum(sizes: seq<nat>)
    ensures Room(sizes) == |sizes| * LEAF + Sum(sizes) + Padding(sizes)
  {
    if |sizes| > 0 {
      RoomSum(sizes[1..]);
    }
  }

  lemma Aligned(n: nat, m: nat)
    requires m % 8 == 0 && n <= m
    ensures m <= Align(n) <==> m - n < 8
  {
  }

  /** With the true number of leaves and of data bytes, the reservation is enough exactly when
      the leaves need less than 8 bytes of padding in all. */
  lemma TruthfulExact(sizes: seq<nat>)
    ensures Room(sizes) <= Reserve(|sizes|, Sum(sizes)) <==> Padding(sizes) < 8
  {
    hide Align, Room, Sum, Padding;
    RoomSum(sizes);
    Aligned(Sum(sizes), Sum(sizes) + Padding(sizes));
  }

  // One leaf is always safe; so is a stat record with a name as rc_scandir reserves it.
  lemma OneLeaf(size: nat)
    ensures Room([size]) == Reserve(1, size)
  {
    assert [size][1..] == [];
  }

  // One more leaf and eight more bytes.
  lemma ReserveMore(n: nat, size: nat)
    ensures Reserve(n + 1, size + 8) == Reserve(n, size) + LEAF + 8
  {
  }

  lemma {:induction false} NumbersAndName(numbers: seq<nat>, name: nat, n: nat)
    requires |numbers| < n && forall i :: 0 <= i < |numbers| ==> numbers[i] <= 8
    ensures Room(numbers + [name]) <= Reserve(n, (n - 1) * 8 + name)
    decreases |numbers|
  {
    hide Align;
    if |numbers| == 0 {
      assert numbers + [name] == [name];
      OneLeaf(name);
    } else {
      assert (numbers + [name])[1..] == numbers[1..] + [name];
      NumbersAndName(numbers[1..], name, n - 1);
      ReserveMore(n - 1, (n - 2) * 8 + name);
    }
  }

  /** Two leaves of one byte each, truthfully announced: at write index 65504 they are let in,
      and the packet has 65536 bytes, which its reader's assertion refuses; with three at
      65496 the writer's own assertion fails. */
  lemma TwoShortLeaves()
    ensures !Flushes(65504, 2, Sum([1, 1])) && After(65504, [1, 1]) == Some(BUFSIZE)
    ensures !Flushes(65496, 3, Sum([1, 1, 1])) && After(65496, [1, 1, 1]) == None
  {
    assert [1, 1][1..] == [1] && [1][1..] == [] && [1, 1, 1][1..] == [1, 1];
    assert After(65520, [1]) == Some(BUFSIZE);
    assert After(65504, [1, 1]) == Some(BUFSIZE);
    assert After(65528, [1]) == None;
    assert After(65512, [1, 1]) == None;
  }

  // Leaves written together after one hcc_check_space.
  datatype Group = Group(n: nat, size: nat, leaves: seq<Leaf>)

  function Sizes(ls: seq<Leaf>): (r: seq<nat>)
    ensures |r| == |ls|
  {
    if |ls| == 0 then [] else [|ls[0].data|] + Sizes(ls[1..])
  }

  // The reservation fits an empty packet and covers the leaves.
  ghost predicate Guarded(g: Group) {
    HEAD + Reserve(g.n, g.size) < BUFSIZE && Room(Sizes(g.leaves)) <= Reserve(g.n, g.size)
  }

  // Whether a whole reply goes through, from write index w.
  predicate GoesThrough(w: nat, groups: seq<Group>)
    decreases |groups|
  {
    if |groups| == 0 then w < BUFSIZE
    else
      var v := if Flushes(w, groups[0].n, groups[0].size) then HEAD else w;
      w < BUFSIZE && Fits(v, Sizes(groups[0].leaves)) &&
      GoesThrough(After(v, Sizes(groups[0].leaves)).value, groups[1..])
  }

  lemma {:induction false} GuardedThrough(w: nat, groups: seq<Group>)
    requires HEAD <= w < BUFSIZE && w % 8 == 0
    requires forall i :: 0 <= i < |groups| ==> Guarded(groups[i])
    ensures GoesThrough(w, groups)
    decreases |groups|
  {
    hide Room, Reserve, Sizes, After;
    if |groups| > 0 {
      var g := groups[0];
      var v := if Flushes(w, g.n, g.size) then HEAD else w;
      FitsRoom(v, Sizes(g.leaves));
      GuardedThrough(v + Room(Sizes(g.leaves)), groups[1..]);
    }
  }

  // The two limits as numbers.
  lemma SpaceNeeded(w: nat, n: nat, size: nat)
    ensures Flushes(w, n, size) <==> w + 8 * n + Align(size) >= 65536
  {
  }

  /** A reply of one leaf goes through exactly when header, leaf and alignment are less than
      65536 bytes. */
  lemma LoneLeaf(leaf: Leaf)
    ensures GoesThrough(HEAD, [Group(1, |leaf.data|, [leaf])]) <==> 24 + Align(|leaf.data|) < 65536
  {
    hide Align, After;
    var g := Group(1, |leaf.data|, [leaf]);
    assert Sizes(g.leaves) == [|leaf.data|] && [g][1..] == [];
    OneLeaf(|leaf.data|);
    FitsRoom(HEAD, [|leaf.data|]);
  }

  // A group of one leaf of zero bytes, truthfully announced.
  function Filler(size: nat): Group {
    Group(1, size, [Leaf(0, Zeros(size))])
  }

  function Zeros(n: nat): (r: Bytes)
    ensures |r| == n
  {
    if n == 0 then [] else [0] + Zeros(n - 1)
  }

  // A reply of safe leaves, if any, that a group not guarded spoils.
  function Spoiled(g: Group): seq<Group> {
    var w := BUFSIZE - 8 - Reserve(g.n, g.size);
    if w < HEAD + LEAF then [] else [Filler(w - HEAD - LEAF)]
  }

  lemma UnguardedFails(g: Group)
    requires HEAD + Reserve(g.n, g.size) < BUFSIZE && !Guarded(g)
    ensures !GoesThrough(HEAD, Spoiled(g) + [g])
    ensures forall i :: 0 <= i < |Spoiled(g)| ==> Guarded(Spoiled(g)[i])
  {
    hide Room, Sizes, After, Filler, Align, GoesThrough, Guarded, Fits, Flushes, Reserve;
    var w := BUFSIZE - 8 - Reserve(g.n, g.size);
    SpoiledIndex(g);
    NotThrough(w, g);
    if w < HEAD + LEAF {
      assert w == HEAD && [] + [g] == [g];
    } else {
      FillTo(w, g);
    }
  }

  // At this index the group is let in and does not fit.
  lemma SpoiledIndex(g: Group)
    requires HEAD + Reserve(g.n, g.size) < BUFSIZE && !Guarded(g)
    ensures var w := BUFSIZE - 8 - Reserve(g.n, g.size);
      HEAD <= w < BUFSIZE && w % 8 == 0 && !Flushes(w, g.n, g.size) && !Fits(w, Sizes(g.leaves))
  {
    hide Room, Sizes, Fits, Reserve;
    FitsRoom(BUFSIZE - 8 - Reserve(g.n, g.size), Sizes(g.leaves));
  }

  lemma NotThrough(w: nat, g: Group)
    requires !Flushes(w, g.n, g.size) && !Fits(w, Sizes(g.leaves))
    ensures !GoesThrough(w, [g])
  {
  }

  lemma GuardedMore(before: seq<Group>, g: Group)
    requires Guarded(g) && forall i :: 0 <= i < |before| ==> Guarded(before[i])
    ensures GoesThrough(HEAD, before + [g])
  {
    hide Guarded, GoesThrough;
    GuardedThrough(HEAD, before + [g]);
  }

  /** A group that hcc_check_space accepts goes through in every reply of guarded groups that
      it joins exactly when it is guarded itself: otherwise some reply of a single safe leaf
      and that group, or the group alone, fails. */
  lemma GroupExact(g: Group)
    requires HEAD + Reserve(g.n, g.size) < BUFSIZE
    ensures Guarded(g) <==>
      forall before: seq<Group> :: (forall i :: 0 <= i < |before| ==> Guarded(before[i])) ==>
        GoesThrough(HEAD, before + [g])
  {
    hide Guarded, GoesThrough, Spoiled, Reserve;
    if Guarded(g) {
      forall before: seq<Group> | forall i :: 0 <= i < |before| ==> Guarded(before[i])
        ensures GoesThrough(HEAD, before + [g])
      {
        GuardedMore(before, g);
      }
    } else {
      UnguardedFails(g);
      assert !GoesThrough(HEAD, Spoiled(g) + [g]);
    }
  }

  // A filler brings the write index to w.
  lemma FillTo(w: nat, g: Group)
    requires HEAD + LEAF <= w < BUFSIZE && w % 8 == 0
    ensures Guarded(Filler(w - HEAD - LEAF))
    ensures GoesThrough(HEAD, [Filler(w - HEAD - LEAF)] + [g]) <==> GoesThrough(w, [g])
  {
    hide Room, After;
    var f := Filler(w - HEAD - LEAF);
    assert Sizes(f.leaves) == [w - HEAD - LEAF];
    OneLeaf(w - HEAD - LEAF);
    FitsRoom(HEAD, Sizes(f.leaves));
    assert ([f] + [g])[1..] == [g];
  }
}
