/**
 The two ends of cpdup's link: the side that writes a reply as a chain of packets and the
 side that walks the leaves of the chain. A C assertion that fails is a false result.
 */
module CpdupLink {
  import opened CpdupWire

  method Poke(a: array<Byte>, at: nat, s: Bytes)
    requires at + |s| <= a.Length
    modifies a
    ensures a[..at] == old(a[..at]) && a[at..at + |s|] == s && a[at + |s|..] == old(a[at + |s|..])
  {
    forall i | 0 <= i < |s| {
      a[at + i] := s[i];
    }
  }

  function AllLeaves(groups: seq<Group>): seq<Leaf> {
    if |groups| == 0 then [] else groups[0].leaves + AllLeaves(groups[1..])
  }

  lemma {:induction false} AllLeavesMore(groups: seq<Group>, g: Group)
    ensures AllLeaves(groups + [g]) == AllLeaves(groups) + g.leaves
  {
    if |groups| == 0 {
      assert groups + [g] == [g] && [g][1..] == [];
    } else {
      AllLeavesMore(groups[1..], g);
      assert (groups + [g])[1..] == groups[1..] + [g];
    }
  }

  class Writer {
    const wbuf: array<Byte>
    var windex: nat
    var sent: Bytes            // what went to fdout
    ghost var leaves: seq<Leaf>           // in the write buffer
    ghost var part: Option<seq<Leaf>>     // in the packets sent

    // A reply to the command (cmd, id) is under construction.
    ghost predicate Valid(cmd: Int16, id: Int16)
      reads this, wbuf
    {
      && wbuf.Length == BUFSIZE && HEAD <= windex <= BUFSIZE && windex % 8 == 0
      && wbuf[..HEAD] == PutHead(Head(MAGIC, 0, WithFlag(cmd, REPLY), id, 0))
      && Items(wbuf[HEAD..windex]) == Some(leaves)
      && Leads(id, sent, part)
    }

    constructor ()
      ensures wbuf.Length == BUFSIZE && fresh(wbuf) && sent == [] && part == Some([])
    {
      wbuf := new Byte[BUFSIZE];
      windex, sent, leaves, part := 0, [], [], Some([]);
    }

    // hcc_start_reply
    method StartReply(cmd: Int16, id: Int16)
      requires wbuf.Length == BUFSIZE && Leads(id, sent, part)
      modifies this`windex, this`leaves, wbuf
      ensures Valid(cmd, id) && windex == HEAD && leaves == []
    {
      hide PutHead, WithFlag, Leads;
      Poke(wbuf, 0, PutHead(Head(MAGIC, 0, WithFlag(cmd, REPLY), id, 0)));
      assert wbuf[0..HEAD] == wbuf[..HEAD];
      windex, leaves := HEAD, [];
    }

    // hcc_finish_reply: the length and the error go into the header, and the packet out.
    method FinishReply(error: Int32, ghost h: Head)
      requires wbuf.Length == BUFSIZE && HEAD <= windex <= BUFSIZE && windex % 8 == 0
      requires h.magic == MAGIC && h.bytes == windex && h.error == error
      requires wbuf[..HEAD] == PutHead(Head(MAGIC, 0, h.cmd, h.id, 0))
      modifies this`sent, wbuf
      ensures wbuf[..HEAD] == PutHead(h) && wbuf[HEAD..] == old(wbuf[HEAD..])
      ensures sent == old(sent) + wbuf[..windex]
    {
      hide Put32, Put16;
      ghost var head := wbuf[..HEAD];
      ghost var middle := Put16(h.cmd) + Put16(h.id);
      assert head[..4] == Put32(MAGIC) && head[8..12] == middle;
      PokeHead(4, Put32(windex));
      assert wbuf[..4] == head[..4] && wbuf[8..12] == wbuf[8..HEAD][..4] == head[8..][..4] == middle;
      PokeHead(12, Put32(error));
      assert wbuf[..HEAD] == wbuf[..12] + wbuf[12..16];
      sent := sent + wbuf[..Align(windex)];
    }

    // A field of four bytes in the header.
    method PokeHead(at: nat, s: Bytes)
      requires |s| == 4 && at + 4 <= HEAD && wbuf.Length == BUFSIZE
      modifies wbuf
      ensures wbuf[..at] == old(wbuf[..at]) && wbuf[at..at + 4] == s
      ensures wbuf[at + 4..HEAD] == old(wbuf[at + 4..HEAD]) && wbuf[HEAD..] == old(wbuf[HEAD..])
    {
      ghost var was := wbuf[at + 4..];
      Poke(wbuf, at, s);
      assert wbuf[at + 4..HEAD] == was[..HEAD - at - 4] && wbuf[HEAD..] == was[HEAD - at - 4..];
    }

    // A leaf at the write index.
    method PutLeaf(leaf: Leaf)
      requires wbuf.Length == BUFSIZE && HEAD <= windex <= BUFSIZE && windex % 8 == 0
      requires windex + LEAF + |leaf.data| < BUFSIZE
      modifies wbuf
      ensures wbuf[..windex] == old(wbuf[..windex])
      ensures Encodes(wbuf[windex..Align(windex + LEAF + |leaf.data|)], leaf)
    {
      hide Put16, Put32, Align;
      var n := LEAF + |leaf.data|;
      AlignFurther(windex, n);
      var s := Put16(leaf.id) + Put16(0) + Put32(n) + leaf.data;
      Poke(wbuf, windex, s);
      ghost var e := Align(windex + n);
      ghost var t := wbuf[windex..e];
      assert t[..n] == s by { assert wbuf[windex..windex + n] == s; }
      assert t[..2] == s[..2] && t[4..8] == s[4..8] && t[LEAF..n] == s[LEAF..n];
    }

    /** hcc_leaf_data: one leaf, or a failed assertion. */
    method LeafData(cmd: Int16, id: Int16, leaf: Leaf) returns (ok: bool)
      requires Valid(cmd, id)
      modifies this`windex, this`leaves, wbuf
      ensures Valid(cmd, id)
      ensures ok <==> old(windex) + LEAF + |leaf.data| < BUFSIZE
      ensures ok ==> windex == Align(old(windex) + LEAF + |leaf.data|) && leaves == old(leaves) + [leaf]
      ensures !ok ==> windex == old(windex) && leaves == old(leaves)
    {
      hide PutHead, WithFlag, Leads, Items, Encodes;
      if windex + LEAF + |leaf.data| >= BUFSIZE {
        return false;
      }
      ghost var was := wbuf[..windex];
      PutLeaf(leaf);
      ghost var w := windex;
      windex := Align(windex + LEAF + |leaf.data|);
      ItemsMore(was[HEAD..], wbuf[w..windex], leaf);
      leaves := leaves + [leaf];
      assert wbuf[..HEAD] == was[..HEAD] && wbuf[HEAD..w] == was[HEAD..];
      assert wbuf[HEAD..windex] == wbuf[HEAD..w] + wbuf[w..windex];
      ok := true;
    }

    // The leaves of a group, until an assertion fails.
    method PutLeaves(cmd: Int16, id: Int16, ls: seq<Leaf>) returns (ok: bool)
      requires Valid(cmd, id)
      modifies this`windex, this`leaves, wbuf
      ensures Valid(cmd, id)
      ensures ok <==> After(old(windex), Sizes(ls)).Some?
      ensures ok ==> After(old(windex), Sizes(ls)) == Some(windex) && leaves == old(leaves) + ls
    {
      hide Valid, Items;
      assert ls[0..] == ls;
      for i := 0 to |ls|
        invariant Valid(cmd, id) && leaves == old(leaves) + ls[..i]
        invariant After(windex, Sizes(ls[i..])) == After(old(windex), Sizes(ls))
      {
        assert ls[i..][1..] == ls[i + 1..];
        assert ls[..i + 1] == ls[..i] + [ls[i]];
        var s := Sizes(ls[i..]);
        assert s[0] == |ls[i].data| && s[1..] == Sizes(ls[i + 1..]);
        ok := LeafData(cmd, id, ls[i]);
        if !ok {
          return;
        }
      }
      assert ls[..|ls|] == ls;
      ok := true;
    }

    /** hcc_check_space: with too little space the packet is sent and a new one begins. */
    method CheckSpace(cmd: Int16, id: Int16, error: Int32, n: nat, size: nat)
      requires Valid(cmd, id)
      modifies this, wbuf
      ensures Valid(cmd, id)
      ensures !Flushes(old(windex), n, size) ==>
        windex == old(windex) && leaves == old(leaves) && part == old(part)
      ensures Flushes(old(windex), n, size) ==> windex == HEAD && leaves == []
      ensures Flushes(old(windex), n, size) ==>
        part == Join(old(part), if old(windex) < BUFSIZE then Some(old(leaves)) else None)
    {
      hide Leads, Items, Flag, Put16, Put32, Join;
      if Flushes(windex, n, size) {
        ghost var c := WithFlag(WithFlag(cmd, REPLY), CONTINUE);
        ghost var h := Head(MAGIC, windex, c, id, error);
        ghost var body, before := wbuf[HEAD..], sent;
        assert body[..windex - HEAD] == wbuf[HEAD..windex];
        SetContinue(cmd, id);
        FinishReply(error, h);
        ghost var p := wbuf[..windex];
        assert p[..HEAD] == wbuf[..HEAD] && p[HEAD..] == wbuf[HEAD..][..windex - HEAD];
        LeadsMore(before, part, p, h, leaves);
        part := Join(part, if windex < BUFSIZE then Some(leaves) else None);
        StartReply(cmd, id);
      }
    }

    // whead->cmd |= HCF_CONTINUE
    method SetContinue(cmd: Int16, id: Int16)
      requires wbuf.Length == BUFSIZE
      requires wbuf[..HEAD] == PutHead(Head(MAGIC, 0, WithFlag(cmd, REPLY), id, 0))
      modifies wbuf
      ensures wbuf[..HEAD] == PutHead(Head(MAGIC, 0, WithFlag(WithFlag(cmd, REPLY), CONTINUE), id, 0))
      ensures wbuf[HEAD..] == old(wbuf[HEAD..])
    {
      hide Put16, Put32, Get16, WithFlag;
      ghost var head := wbuf[..HEAD];
      ghost var tail := wbuf[10..];
      assert head[8..10] == Put16(WithFlag(cmd, REPLY)) == wbuf[8..10];
      Get16Put16(WithFlag(cmd, REPLY));
      Poke(wbuf, 8, Put16(WithFlag(Get16(wbuf[8..10]), CONTINUE)));
      assert wbuf[..8] == head[..8] && wbuf[10..HEAD] == tail[..6] == head[10..];
      assert wbuf[..HEAD] == wbuf[..8] + wbuf[8..10] + wbuf[10..HEAD];
      assert wbuf[HEAD..] == tail[6..];
    }

    // The end of a reply.
    method EndReply(cmd: Int16, id: Int16, error: Int32)
      requires Valid(cmd, id) && !Flag(cmd, CONTINUE)
      modifies this`sent, wbuf
      ensures Chain(id, sent) == Join(part, if windex < BUFSIZE then Some(leaves) else None)
      ensures Sane(id, sent)
    {
      hide Leads, Items, Flag, Put16, Put32, Join, Chain, Sane;
      ghost var h := Head(MAGIC, windex, WithFlag(cmd, REPLY), id, error);
      ghost var body, before := wbuf[HEAD..], sent;
      assert body[..windex - HEAD] == wbuf[HEAD..windex];
      FinishReply(error, h);
      ghost var p := wbuf[..windex];
      assert p[..HEAD] == wbuf[..HEAD] && p[HEAD..] == wbuf[HEAD..][..windex - HEAD];
      LeadsLast(before, part, p, h, leaves);
    }

    // One group behind its hcc_check_space; `rest` follows it.
    method PutGroup(cmd: Int16, id: Int16, error: Int32, g: Group, ghost rest: seq<Group>) returns (ok: bool)
      requires Valid(cmd, id)
      modifies this, wbuf
      ensures Valid(cmd, id)
      ensures !ok ==> !GoesThrough(old(windex), [g] + rest)
      ensures ok ==> (GoesThrough(old(windex), [g] + rest) && old(part).Some? <==>
                      GoesThrough(windex, rest) && part.Some?)
      ensures ok && part.Some? ==> old(part).Some?
      ensures ok && part.Some? ==> part.value + leaves == old(part.value + leaves) + g.leaves
    {
      hide Leads, PutHead, WithFlag, Items, After, Sizes, Flushes, GoesThrough;
      ThroughStep(windex, g, rest);
      CheckSpace(cmd, id, error, g.n, g.size);
      ok := PutLeaves(cmd, id, g.leaves);
    }
  }

  lemma ThroughStep(w: nat, g: Group, rest: seq<Group>)
    requires w <= BUFSIZE
    ensures !Flushes(w, g.n, g.size) ==> w < BUFSIZE
    ensures var a := After(if Flushes(w, g.n, g.size) then HEAD else w, Sizes(g.leaves));
      GoesThrough(w, [g] + rest) <==> w < BUFSIZE && a.Some? && GoesThrough(a.value, rest)
  {
    hide After, Sizes;
    assert ([g] + rest)[1..] == rest;
  }

  /** A reply: every group of leaves behind its own hcc_check_space. It is written without a
      failed assertion and is readable exactly when it goes through, and then it reads as the
      leaves in order. */
  method Reply(cmd: Int16, id: Int16, error: Int32, groups: seq<Group>) returns (ok: bool, sent: Bytes)
    requires !Flag(cmd, CONTINUE)
    ensures ok && Chain(id, sent).Some? <==> GoesThrough(HEAD, groups)
    ensures ok && Chain(id, sent).Some? ==> Chain(id, sent).value == AllLeaves(groups)
    ensures ok ==> Sane(id, sent)
  {
    hide Flag, Chain, Sane, Leads, Items, PutHead, GoesThrough, AllLeaves;
    var w := new Writer();
    LeadsNone(id);
    w.StartReply(cmd, id);
    assert groups[0..] == groups;
    ghost var got: seq<Leaf> := [];
    for i := 0 to |groups|
      invariant w.Valid(cmd, id) && fresh(w) && fresh(w.wbuf)
      invariant w.part.Some? && GoesThrough(w.windex, groups[i..]) <==> GoesThrough(HEAD, groups)
      invariant w.part.Some? ==> w.part.value + w.leaves == got
      invariant got + AllLeaves(groups[i..]) == AllLeaves(groups)
    {
      LeavesStep(groups, i, got);
      ok := w.PutGroup(cmd, id, error, groups[i], groups[i + 1..]);
      if !ok {
        return false, w.sent;
      }
      got := got + groups[i].leaves;
    }
    NoGroups(groups, w.windex, got);
    w.EndReply(cmd, id, error);
    ok, sent := true, w.sent;
  }

  lemma LeavesStep(groups: seq<Group>, i: nat, got: seq<Leaf>)
    requires i < |groups|
    ensures groups[i..] == [groups[i]] + groups[i + 1..]
    ensures got + AllLeaves(groups[i..]) == got + groups[i].leaves + AllLeaves(groups[i + 1..])
  {
    assert groups[i..][1..] == groups[i + 1..];
  }

  lemma NoGroups(groups: seq<Group>, w: nat, got: seq<Leaf>)
    ensures GoesThrough(w, groups[|groups|..]) <==> w < BUFSIZE
    ensures got + AllLeaves(groups[|groups|..]) == got
  {
  }

  // A field of a header or leaf in a buffer.
  function At32(s: Bytes, at: nat): Int32
    requires at + 4 <= |s|
  {
    Get32(s[at..at + 4])
  }

  // What the reader's step gives: an item, the end of the chain, or a failed read or assertion.
  datatype Step = Item(leaf: Leaf) | End | Fail

  // The state of the transaction on the reader's side.
  datatype Phase = Sent | Replied | Done

  class Reader {
    const id: Int16
    var state: Phase
    const rbuf: array<Byte>
    var input: Bytes           // what is still to come on fdin
    var windex: nat            // the current item, or 0

    // A packet is in the read buffer and windex is 0 or one of its items.
    ghost predicate Valid()
      reads this, rbuf
    {
      && rbuf.Length == BUFSIZE
      && HEAD <= At32(rbuf[..], 4) < BUFSIZE
      && (windex == 0 || InItem(rbuf[..], windex))
    }

    // The leaves still to be found from offset o of the packet on.
    ghost function Todo(o: nat): Option<seq<Leaf>>
      requires rbuf.Length == BUFSIZE
      reads this, rbuf
    {
      Ahead(rbuf[..], o, id, input, state.Done?)
    }

    constructor (id: Int16, input: Bytes)
      ensures this.id == id && this.input == input && rbuf.Length == BUFSIZE && fresh(rbuf) && windex == 0
      ensures state == Sent
    {
      this.id, this.input, state := id, input, Sent;
      rbuf := new Byte[BUFSIZE];
      windex := 0;
    }

    // Reads of any sizes until buf[from..to] is full.
    method ReadBytes(buf: array<Byte>, from: nat, to: nat) returns (ok: bool)
      requires from <= to <= buf.Length
      modifies this`input, buf
      ensures ok <==> |old(input)| >= to - from
      ensures ok ==> buf[..to] == old(buf[..from]) + old(input)[..to - from]
      ensures ok ==> input == old(input)[to - from..]
    {
      var n := from;
      ghost var got: Bytes := [];
      Joint(got, input);
      while n < to
        invariant from <= n <= to && |got| == n - from
        invariant buf[..n] == old(buf[..from]) + got
        invariant old(input) == got + input
      {
        if |input| == 0 {
          return false;
        }
        var r: nat :| 1 <= r <= to - n && r <= |input|;
        Poke(buf, n, input[..r]);
        Rejoin(old(buf[..from]), got, input, r);
        got, input := got + input[..r], input[r..];
        n := n + r;
      }
      Joint(got, input);
      ok := true;
    }

    /** hcc_read_command: the packet at the front of the stream; only then does the state change. */
    method ReadCommand() returns (a: Arrival)
      requires rbuf.Length == BUFSIZE
      modifies this`input, this`state, rbuf
      ensures a == Next(old(input)) && state == if a.Packet? then Replied else old(state)
      ensures a.Packet? ==> rbuf[..a.size] == old(input)[..a.size] && input == old(input)[a.size..]
    {
      hide GetHead, Get16, Get32, Align;
      ghost var all := input;
      ghost var next := Next(all);
      var tmp := new Byte[HEAD];
      var ok := ReadBytes(tmp, 0, HEAD);
      if !ok {
        return Eof;
      }
      var h := GetHead(tmp[..]);
      assert tmp[..] == tmp[..HEAD] == all[..HEAD];
      HeadPrefix(all, HEAD);
      if h.magic != MAGIC {
        return Mismatch;
      }
      if !(HEAD <= h.bytes < BUFSIZE) {
        return Oversize;
      }
      Poke(rbuf, 0, tmp[..]);
      assert rbuf[..HEAD] == rbuf[0..HEAD] == all[..HEAD];
      ok := ReadBytes(rbuf, HEAD, Align(h.bytes));
      if !ok {
        return Eof;
      }
      a, state := Packet(Align(h.bytes)), Replied;
      assert all[..HEAD] + all[HEAD..][..a.size - HEAD] == all[..a.size];
    }

    /** hcc_nextitem: the offset of the item after the one at `item`, or of the first one for 0. */
    method NextItem(item: nat) returns (r: Option<nat>, failed: bool)
      requires rbuf.Length == BUFSIZE && HEAD <= At32(rbuf[..], 4) < BUFSIZE
      requires item == 0 || InItem(rbuf[..], item)
      ensures var o := Following(rbuf[..], item);
        if o == At32(rbuf[..], 4) then r == None && !failed
        else if InItem(rbuf[..], o) then r == Some(o) && !failed
        else failed
    {
      hide Get32;
      var bytes := At32(rbuf[..], 4);
      var o := if item == 0 then HEAD else item + Align(At32(rbuf[..], item + 4));
      if o == bytes {
        return None, false;
      }
      if bytes < o + LEAF {
        return None, true;
      }
      var n := At32(rbuf[..], o + 4);
      if bytes < o + n || !(LEAF <= n < BUFSIZE) {
        return None, true;
      }
      r, failed := Some(o), false;
    }

    // The next packet of the chain, and what it holds.
    method NextPacket() returns (a: Arrival)
      requires rbuf.Length == BUFSIZE
      modifies this`input, this`state, rbuf
      ensures a == Next(old(input)) && state == if a.Packet? then Replied else old(state)
      ensures a.Packet? ==> HEAD <= At32(rbuf[..], 4) < BUFSIZE && |input| < |old(input)|
      ensures a.Packet? ==> GetHead(rbuf[..]) == GetHead(old(input))
      ensures a.Packet? && GetHead(rbuf[..]).id == id ==>
        && (forall first :: Heard(id, old(input), first) == Ahead(rbuf[..], HEAD, id, input, false))
        && Reading(id, old(input)) == Ahead(rbuf[..], HEAD, id, input, true)
    {
      hide GetHead, Get32, Heard, Reading, Ahead;
      ghost var all := input;
      a := ReadCommand();
      if a.Packet? {
        assert rbuf[..][..a.size] == rbuf[..a.size];
        HeardHead(id, all, rbuf[..]);
      }
    }

    /** The read of hcc_finish_command: the first packet of the reply. */
    method FinishCommand() returns (ok: bool)
      requires rbuf.Length == BUFSIZE && state == Sent
      modifies this`input, this`state, this`windex, rbuf
      ensures ok ==> Valid() && state == Done && windex == 0
      ensures ok ==> Todo(HEAD) == Reading(id, old(input))
      ensures !ok ==> Reading(id, old(input)) == None
    {
      hide GetHead, Get32, Heard, Ahead, InItem, At32;
      windex := 0;
      ghost var all := input;
      var a := NextPacket();
      ok := state == Replied && GetHead(rbuf[..]).id == id;
      if ok {
        state := Done;
      }
    }

    /** hcc_nextchaineditem: the next leaf of the chain, across packets; the end of the walk; or
        a failure. A continuation packet that does not arrive ends the walk if it is the first,
        because the state still says DONE, and otherwise its missing header is looked into. */
    method NextChainedItem() returns (r: Step)
      requires Valid() && !state.Sent?
      modifies this, rbuf
      ensures r.Item? ==> Valid() && !state.Sent? && windex < BUFSIZE
      ensures r.Item? ==> |input| < |old(input)| || (|input| == |old(input)| && windex > old(windex))
      ensures old(Todo(Following(rbuf[..], windex))) ==
        match r
        case Item(leaf) => Join(Some([leaf]), Todo(Following(rbuf[..], windex)))
        case End => Some([])
        case Fail => None
    {
      hide GetHead, Get16, Get32, Heard, Reading, Ahead, Flag, InItem, At32;
      var item := windex;
      ghost var todo := Todo(Following(rbuf[..], windex));
      while true
        invariant HEAD <= At32(rbuf[..], 4) < BUFSIZE && (item == 0 || InItem(rbuf[..], item)) && !state.Sent?
        invariant |input| < |old(input)| || (|input| == |old(input)| && item == old(windex))
        invariant Todo(Following(rbuf[..], item)) == todo
        decreases |input|
      {
        AheadEnd(rbuf[..], item, id, input, state.Done?);
        HeardEnd(id, input, state.Done?);
        var o, failed := NextItem(item);
        if failed {
          return Fail;
        }
        if o.Some? {
          Onward(rbuf[..], item);
          item := o.value;
          break;
        }
        if !Flag(GetHead(rbuf[..]).cmd, CONTINUE) {
          return End;
        }
        var a := NextPacket();
        if a.Mismatch? || a.Oversize? {
          return Fail;
        }
        if state != Replied {
          return End;
        }
        if a.Eof? {
          return Fail;
        }
        if GetHead(rbuf[..]).id != id {
          return End;
        }
        item := 0;
      }
      windex := item;
      r := Item(LeafAt(rbuf[..], item));
    }
  }

  // Where the walk ends without another packet of the transaction.
  lemma HeardEnd(id: Int16, input: Bytes, first: bool)
    ensures Next(input).Eof? ==> Heard(id, input, first) == if first then Some([]) else None
    ensures Next(input).Mismatch? || Next(input).Oversize? ==> Heard(id, input, first) == None
    ensures Next(input).Packet? && GetHead(input).id != id ==> Heard(id, input, first) == Some([])
  {
  }

  function LeafAt(s: Bytes, o: nat): Leaf
    requires |s| == BUFSIZE && InItem(s, o)
  {
    Leaf(Get16(s[o..o + 2]), s[o + LEAF..o + At32(s, o + 4)])
  }

  lemma Onward(s: Bytes, item: nat)
    requires |s| == BUFSIZE && (item == 0 || InItem(s, item))
    ensures Following(s, item) > item
    ensures InItem(s, Following(s, item)) ==> Following(s, item) < BUFSIZE
  {
  }

  // The end of a packet, an item, or a failing assertion.
  lemma AheadEnd(s: Bytes, item: nat, id: Int16, input: Bytes, first: bool)
    requires |s| == BUFSIZE && HEAD <= At32(s, 4) < BUFSIZE && (item == 0 || InItem(s, item))
    ensures var o := Following(s, item);
      o == At32(s, 4) ==>
        Ahead(s, o, id, input, first) ==
          if Flag(GetHead(s).cmd, CONTINUE) then Heard(id, input, first) else Some([])
    ensures var o := Following(s, item);
      o != At32(s, 4) ==>
        Ahead(s, o, id, input, first) ==
          if InItem(s, o) then Join(Some([LeafAt(s, o)]), Ahead(s, Following(s, o), id, input, first)) else None
  {
    hide At32, Get16, Get32, Heard, Flag, GetHead, Items, LeafAt;
    var o, bytes := Following(s, item), At32(s, 4);
    if o == bytes {
      assert s[o..bytes] == [];
      NoItems();
      JoinAssoc(Heard(id, input, first), None, None);
    } else if HEAD <= o < bytes {
      AheadItem(s, o);
      if InItem(s, o) && Following(s, o) <= bytes {
        JoinAssoc(Some([LeafAt(s, o)]), Items(s[Following(s, o)..bytes]), Heard(id, input, first));
      }
    }
  }

  lemma AheadItem(s: Bytes, o: nat)
    requires |s| == BUFSIZE && HEAD <= o < At32(s, 4) < BUFSIZE
    ensures Items(s[o..At32(s, 4)]) ==
      if InItem(s, o) && Following(s, o) <= At32(s, 4)
      then Join(Some([LeafAt(s, o)]), Items(s[Following(s, o)..At32(s, 4)]))
      else None
  {
    hide Get16, Get32, Items, Align;
    var bytes := At32(s, 4);
    var t := s[o..bytes];
    ItemsFirst(t);
    if |t| >= LEAF {
      Subrange(s, o, bytes, 4, 8);
      var n := Get32(t[4..8]);
      if LEAF <= n <= |t| && Align(n) <= |t| {
        Subrange(s, o, bytes, 0, 2);
        Subrange(s, o, bytes, LEAF, n);
        Subrange(s, o, bytes, Align(n), |t|);
      }
    }
  }

  // The first item and the others.
  lemma ItemsFirst(t: Bytes)
    requires 0 < |t| < BUFSIZE
    ensures Items(t) ==
      if |t| >= LEAF && LEAF <= Get32(t[4..8]) && Align(Get32(t[4..8])) <= |t| then
        var n := Get32(t[4..8]);
        Join(Some([Leaf(Get16(t[0..2]), t[LEAF..n])]), Items(t[Align(n)..|t|]))
      else None
  {
    hide Get16, Get32;
    if |t| >= LEAF {
      assert t[0..2] == t[..2];
      var n := Get32(t[4..8]);
      if LEAF <= n && Align(n) <= |t| {
        assert t[Align(n)..] == t[Align(n)..|t|];
      }
    }
  }

  lemma Joint(a: Bytes, b: Bytes)
    ensures (a + b)[..|a|] == a && (a + b)[|a|..] == b && (a == [] ==> a + b == b)
  {
  }

  // The front of what is left moves over.
  lemma Rejoin(front: Bytes, a: Bytes, b: Bytes, r: nat)
    requires 0 < r <= |b|
    ensures a + b[..r] + b[r..] == a + b && front + a + b[..r] == front + (a + b[..r])
  {
  }

  lemma Subrange(s: Bytes, o: nat, e: nat, a: nat, b: nat)
    requires o <= e <= |s| && a <= b <= e - o
    ensures s[o..e][a..b] == s[o + a..o + b]
  {
    var l, r := s[o..e][a..b], s[o + a..o + b];
    assert |l| == |r|;
    forall i | 0 <= i < |l| ensures l[i] == r[i] {
      assert l[i] == s[o..e][a + i] == s[o + (a + i)];
    }
  }

  lemma HeardHead(id: Int16, all: Bytes, s: Bytes)
    requires |s| == BUFSIZE && Next(all).Packet?
    requires s[..Next(all).size] == all[..Next(all).size]
    ensures GetHead(s) == GetHead(all) && At32(s, 4) == GetHead(all).bytes
    ensures GetHead(all).id == id ==>
      && (forall first :: Heard(id, all, first) == Ahead(s, HEAD, id, all[Next(all).size..], false))
      && Reading(id, all) == Ahead(s, HEAD, id, all[Next(all).size..], true)
  {
    hide Get16, Get32, Flag, Align, Items;
    var n := Next(all).size;
    assert s[..HEAD] == s[..n][..HEAD] == all[..HEAD];
    HeadPrefix(s, HEAD);
    HeadPrefix(all, HEAD);
    var b := GetHead(all).bytes;
    Subrange(s, 0, n, HEAD, b);
    Subrange(all, 0, n, HEAD, b);
    assert s[0..n] == s[..n] && all[0..n] == all[..n];
  }

  // The reader's assertions hold of the item at offset o.
  ghost predicate InItem(s: Bytes, o: nat)
    requires |s| == BUFSIZE
  {
    && HEAD <= o && o + LEAF <= At32(s, 4) < BUFSIZE
    && LEAF <= At32(s, o + 4) < BUFSIZE && o + At32(s, o + 4) <= At32(s, 4)
  }

  // The offset after an item.
  ghost function Following(s: Bytes, item: nat): nat
    requires |s| == BUFSIZE && (item == 0 || InItem(s, item))
  {
    if item == 0 then HEAD else item + Align(At32(s, item + 4))
  }

  // What the walk still finds from offset o of the packet s on, and in the stream that follows.
  ghost function Ahead(s: Bytes, o: nat, id: Int16, input: Bytes, first: bool): Option<seq<Leaf>>
    requires |s| == BUFSIZE
  {
    if HEAD <= o <= At32(s, 4) < BUFSIZE then
      var here := Items(s[o..At32(s, 4)]);
      if Flag(GetHead(s).cmd, CONTINUE) then Join(here, Heard(id, input, first)) else here
    else None
  }

  /** The client: the first packet as hcc_finish_command takes it, and the walk over the chain.
      It gets what the stream reads as, and fails when that breaks off. */
  method Client(id: Int16, stream: Bytes) returns (ok: bool, got: seq<Leaf>)
    ensures ok <==> Reading(id, stream).Some?
    ensures ok ==> got == Reading(id, stream).value
  {
    hide Reading, Heard, Ahead, GetHead, Get32, InItem, Following, At32;
    var r := new Reader(id, stream);
    got := [];
    ok := r.FinishCommand();
    if !ok {
      return;
    }
    FirstItem(r.rbuf[..]);
    ghost var want := Reading(id, stream);
    JoinAssoc(want, None, None);
    while true
      invariant r.Valid() && !r.state.Sent? && fresh(r) && fresh(r.rbuf) && r.windex < BUFSIZE
      invariant want == Join(Some(got), r.Todo(Following(r.rbuf[..], r.windex)))
      decreases |r.input|, BUFSIZE - r.windex
    {
      var step := r.NextChainedItem();
      match step {
        case End =>
          assert got + [] == got;
          return true, got;
        case Fail => return false, got;
        case Item(leaf) =>
          JoinAssoc(Some(got), Some([leaf]), r.Todo(Following(r.rbuf[..], r.windex)));
          got := got + [leaf];
      }
    }
  }

  lemma FirstItem(s: Bytes)
    requires |s| == BUFSIZE
    ensures Following(s, 0) == HEAD
  {
  }

  /** A reply written group by group and read back leaf by leaf, for any splitting of the
      stream into reads: no assertion fails on either side exactly when the reply goes through,
      as it does when every group is guarded, and then the client gets the leaves in order. */
  method Transfer(cmd: Int16, id: Int16, error: Int32, groups: seq<Group>) returns (ok: bool, got: seq<Leaf>)
    requires !Flag(cmd, CONTINUE)
    ensures ok <==> GoesThrough(HEAD, groups)
    ensures (forall i :: 0 <= i < |groups| ==> Guarded(groups[i])) ==> ok
    ensures ok ==> got == AllLeaves(groups)
  {
    hide Chain, Flag, GoesThrough, AllLeaves, Guarded, Reading, Sane;
    if forall i :: 0 <= i < |groups| ==> Guarded(groups[i]) {
      GuardedThrough(HEAD, groups);
    }
    var written, sent := Reply(cmd, id, error, groups);
    if !written {
      return false, [];
    }
    SaneReading(id, sent);
    ok, got := Client(id, sent);
  }
}
