/**
 The reblocking engine of dd: input read in chunks into one buffer, converted, and written
 from another (or the same) buffer in output blocks, by writes that may be short.
 */
module DdEngine {
  import opened DdRecords
  import opened Slices

  // memmove: the moved bytes are those before the call, also when the ranges overlap.
  method Memmove(dst: array<Byte>, to: nat, src: array<Byte>, from: nat, n: nat)
    requires to + n <= dst.Length && from + n <= src.Length
    modifies dst
    ensures dst[..to] == old(dst[..to]) && forall i :: to + n <= i < dst.Length ==> dst[i] == old(dst[i])
    ensures Slice(dst[..], to, n) == old(Slice(src[..], from, n))
  {
    forall i | 0 <= i < n {
      dst[to + i] := src[from + i];
    }
  }

  method Memset(dst: array<Byte>, to: nat, b: Byte, n: nat)
    requires to + n <= dst.Length
    modifies dst
    ensures dst[..to] == old(dst[..to]) && forall i :: to + n <= i < dst.Length ==> dst[i] == old(dst[i])
    ensures Slice(dst[..], to, n) == Fill(b, n)
  {
    forall i | 0 <= i < n {
      dst[to + i] := b;
    }
  }

  // Which conversion function is in use.
  datatype Conv = Def | Block | Unblock

  // The whole output for the whole input.
  ghost function Output(f: Conv, t: Table, c: nat, x: seq<Byte>): seq<Byte>
    requires f != Def ==> c > 0
  {
    match f
    case Def => TrAll(t, x)
    case Block => DdRecords.Block(t, c, x)
    case Unblock => DdRecords.Unblock(c, TrAll(t, x))
  }

  /** Without block or unblock every byte is translated once. */
  lemma OutputDef(t: Table, c: nat, x: seq<Byte>)
    ensures var y := Output(Def, t, c, x);
      |y| == |x| && forall i :: 0 <= i < |x| ==> y[i] == if t.Same? then x[i] else t.code(x[i])
  {
  }

  class Dd {
    const cfunc: Conv
    const ctab: Table
    const ibs: nat    // in.dbsz
    const obs: nat    // out.dbsz
    const cbs: nat    // cbsz
    const inDb: array<Byte>
    const outDb: array<Byte>
    var inp: nat      // in.dbp - in.db
    var inCnt: nat    // in.dbcnt
    var inRead: nat   // in.dbrcnt
    var outp: nat     // out.dbp - out.db
    var outCnt: nat   // out.dbcnt
    var intrunc: bool
    var bytes: nat    // st.bytes
    var written: seq<Byte>

    // The buffers as setup allocates them.
    ghost predicate Sized() {
      && ibs > 0 && obs > 0
      && (if cfunc == Def then inDb == outDb && inDb.Length == obs + ibs - 1
          else
            && cbs > 0 && inDb != outDb
            && inDb.Length == (if ibs > cbs then ibs else cbs) + cbs
            && outDb.Length == obs + cbs)
    }

    // The output so far, written or buffered.
    ghost function Stream(): seq<Byte>
      requires outCnt <= outDb.Length
      reads this, outDb
    {
      written + outDb[..outCnt]
    }

    // The input not yet converted.
    ghost function Left(): seq<Byte>
      requires inCnt <= inp <= inDb.Length
      reads this, inDb
    {
      Slice(inDb[..], inp - inCnt, inCnt)
    }

    // Less than a block is buffered, from the start of the buffer; only whole blocks were written.
    ghost predicate OutReady()
      reads this
    {
      obs > 0 && outp == outCnt < obs && bytes == |written| && Blocks(obs, |written|)
    }

    // Between two reads: the input buffer holds less than a record, or in Def mode the same
    // bytes as the output buffer.
    ghost predicate Rest()
      reads this, inDb, outDb
    {
      && Sized()
      && OutReady()
      && inp == inCnt
      && (if cfunc == Def then inCnt == outCnt else inCnt < cbs && (cfunc == Block ==> Plain(inDb[..inCnt])))
      && (intrunc ==> cfunc == Block && inCnt == 0)
    }

    // The whole output if `rest` is still to be read.
    ghost function Pending(rest: seq<Byte>): seq<Byte>
      requires Sized() && outCnt <= outDb.Length && inCnt <= inp <= inDb.Length
      reads this, inDb, outDb
    {
      Stream() + match cfunc
      case Def => TrAll(ctab, rest)
      case Block => Cont(ctab, cbs, intrunc, Left(), rest)
      case Unblock => DdRecords.Unblock(cbs, Left() + TrAll(ctab, rest))
    }

    // setup
    constructor (cfunc: Conv, ctab: Table, ibs: nat, obs: nat, cbs: nat)
      requires ibs > 0 && obs > 0 && (cfunc != Def ==> cbs > 0)
      ensures this.cfunc == cfunc && this.ctab == ctab && this.ibs == ibs && this.obs == obs && this.cbs == cbs
      ensures fresh(inDb) && fresh(outDb)
      ensures if cfunc == Def then inDb == outDb && inDb.Length == obs + ibs - 1
        else inDb != outDb && inDb.Length == (if ibs > cbs then ibs else cbs) + cbs && outDb.Length == obs + cbs
      ensures Rest() && written == [] && inCnt == outCnt == 0
      ensures forall rest :: Pending(rest) == Output(cfunc, ctab, cbs, rest)
    {
      this.cfunc, this.ctab, this.ibs, this.obs, this.cbs := cfunc, ctab, ibs, obs, cbs;
      inp, inCnt, inRead, outp, outCnt, intrunc, bytes, written := 0, 0, 0, 0, 0, false, 0, [];
      if cfunc == Def {
        var db := new Byte[obs + ibs - 1];
        inDb, outDb := db, db;
      } else {
        inDb := new Byte[(if ibs > cbs then ibs else cbs) + cbs];
        outDb := new Byte[obs + cbs];
      }
      new;
      Whole(obs, 0);
      forall rest: seq<Byte> ensures Pending(rest) == Output(cfunc, ctab, cbs, rest) {
        assert Stream() == [] && Left() == [];
        Nothing(rest);
        var x: seq<Byte> := TrAll(ctab, rest);
        Nothing(x);
        Nothing(Output(cfunc, ctab, cbs, rest));
      }
    }

    // One output block of n bytes, by writes of any sizes.
    method WriteBlock(from: nat, n: nat)
      requires n > 0 && from + n <= outDb.Length && bytes == |written|
      modifies this`bytes, this`written
      ensures written == old(written) + Slice(outDb[..], from, n) && bytes == |written|
    {
      hide Slice;
      var cnt := n;
      SliceNone(outDb[..], from);
      Nothing(written);
      while true
        invariant 0 < cnt <= n && bytes == |written|
        invariant written == old(written) + Slice(outDb[..], from, n - cnt)
        decreases cnt
      {
        var at := from + n - cnt;
        var nw: nat :| 1 <= nw <= cnt;
        Adjoin(outDb[..], from, n - cnt, nw);
        Assoc(old(written), Slice(outDb[..], from, n - cnt), Slice(outDb[..], at, nw));
        written := written + Slice(outDb[..], at, nw);
        bytes := bytes + nw;
        if nw == cnt {
          break;
        }
        cnt := cnt - nw;
      }
    }

    // The block loop of dd_out.
    method WriteBlocks(force: bool) returns (w: nat)
      requires obs > 0 && bytes == |written| && 0 < outCnt <= outDb.Length
      requires force || outCnt >= obs
      modifies this`bytes, this`written, this`outCnt
      ensures w + outCnt == old(outCnt) && outCnt < obs && (force ==> outCnt == 0)
      ensures written == old(written) + outDb[..w] && bytes == |written|
      ensures !force && Blocks(obs, old(|written|)) ==> Blocks(obs, |written|)
    {
      hide Slice, Blocks;
      w := 0;
      var n := if force then outCnt else obs;
      SliceNone(outDb[..], 0);
      Nothing(written);
      while true
        invariant 0 < n <= outCnt && w + outCnt == old(outCnt) && (force ==> n == outCnt) && (!force ==> n == obs)
        invariant written == old(written) + outDb[..w] && bytes == |written|
        invariant !force && Blocks(obs, old(|written|)) ==> Blocks(obs, |written|)
        decreases outCnt
      {
        ghost var before := |written|;
        WriteBlock(w, n);
        Upto(outDb[..], w, n);
        Assoc(old(written), outDb[..w], Slice(outDb[..], w, n));
        if Blocks(obs, before) {
          MoreBlocks(obs, before);
        }
        w, outCnt := w + n, outCnt - n;
        if outCnt < obs {
          break;
        }
        n := obs;
      }
    }

    /** dd_out: unforced, writes whole blocks until less than one is left and moves the rest
        to the front of the buffer; forced, writes everything. */
    method DdOut(force: bool)
      requires obs > 0 && bytes == |written| && 0 < outCnt <= outDb.Length
      requires force || outp == outCnt >= obs
      modifies this`bytes, this`written, this`outp, this`outCnt, outDb
      ensures outp == outCnt < obs && outCnt <= outDb.Length && bytes == |written|
      ensures Stream() == old(Stream())
      ensures force ==> outCnt == 0
      ensures !force && Blocks(obs, old(|written|)) ==> Blocks(obs, |written|)
    {
      hide Slice, Blocks;
      var w := WriteBlocks(force);
      Upto(outDb[..], w, outCnt);
      Assoc(old(written), outDb[..w], Slice(outDb[..], w, outCnt));
      if outCnt > 0 {
        Memmove(outDb, 0, outDb, outp - outCnt, outCnt);
        FromZero(outDb[..], outCnt);
      } else {
        SliceNone(outDb[..], w);
      }
      outp := outCnt;
    }

    // The read of dd_in and its bookkeeping.
    method Read(chunk: seq<Byte>)
      requires 0 < |chunk| <= ibs && inp + ibs <= inDb.Length && inCnt <= inp
      modifies this`inp, this`inCnt, this`inRead, inDb
      ensures inp == old(inp) + |chunk| && inCnt == old(inCnt) + |chunk| && inRead == |chunk|
      ensures inDb[..inp] == old(inDb[..inp]) + chunk
      ensures inDb[..old(inp)] == old(inDb[..inp])
    {
      forall i | 0 <= i < |chunk| {
        inDb[inp + i] := chunk[i];
      }
      inCnt, inRead := inCnt + |chunk|, |chunk|;
      inp := inp + inRead;
    }

    // def's loop: the bytes just read, from the first to the last.
    method TranslateUp()
      requires inRead <= inp <= inDb.Length
      modifies inDb
      ensures inDb[..inp - inRead] == old(inDb[..inp - inRead])
      ensures Slice(inDb[..], inp - inRead, inRead) == TrAll(ctab, old(Slice(inDb[..], inp - inRead, inRead)))
    {
      hide Slice, TrAll;
      ghost var v := inDb[..];
      var p := inp - inRead;
      while p < inp
        invariant inp - inRead <= p <= inp
        invariant forall i :: 0 <= i < inp - inRead || p <= i < inp ==> inDb[i] == v[i]
        invariant forall i :: inp - inRead <= i < p ==> inDb[i] == Tr(ctab, v[i])
      {
        inDb[p] := Tr(ctab, inDb[p]);
        p := p + 1;
      }
      TrIn(ctab, v, inDb[..], inp - inRead, inRead);
      SameFront(inDb[..], v, inp - inRead);
    }

    // unblock's loop: the same bytes, from the last to the first.
    method TranslateDown()
      requires inRead <= inp <= inDb.Length
      modifies inDb
      ensures inDb[..inp - inRead] == old(inDb[..inp - inRead])
      ensures Slice(inDb[..], inp - inRead, inRead) == TrAll(ctab, old(Slice(inDb[..], inp - inRead, inRead)))
    {
      hide Slice, TrAll;
      ghost var v := inDb[..];
      var cnt, p := inRead, inp;
      while cnt > 0
        invariant 0 <= cnt <= inRead && p == inp - inRead + cnt
        invariant forall i :: 0 <= i < p ==> inDb[i] == v[i]
        invariant forall i :: p <= i < inp ==> inDb[i] == Tr(ctab, v[i])
      {
        cnt, p := cnt - 1, p - 1;
        inDb[p] := Tr(ctab, inDb[p]);
      }
      TrIn(ctab, v, inDb[..], inp - inRead, inRead);
      SameFront(inDb[..], v, inp - inRead);
    }

    /** def: the bytes just read are translated in place and appended to the output. */
    method DefConv()
      requires Sized() && cfunc == Def && !intrunc
      requires inRead <= inCnt == inp <= inDb.Length && outCnt == inCnt - inRead < obs
      requires bytes == |written| && Blocks(obs, |written|)
      modifies this, inDb
      ensures Rest()
      ensures Stream() == old(Stream()) + TrAll(ctab, old(Slice(inDb[..], inp - inRead, inRead)))
    {
      hide TrAll, Plain, Blocks, Slice;
      ghost var k := inp - inRead;
      if !ctab.Same? {
        TranslateUp();
      } else {
        TrSame(Slice(inDb[..], k, inRead));
      }
      Upto(inDb[..], k, inRead);
      Assoc(written, inDb[..k], Slice(inDb[..], k, inRead));
      outp, outCnt := inp, inCnt;
      if inCnt >= obs {
        DdOut(false);
        inp, inCnt := outp, outCnt;
      }
    }

    // A record in the output buffer: counted, and written when a block is full.
    method Emit(n: nat)
      requires Sized() && cfunc != Def
      requires OutReady()
      requires outCnt + n <= outDb.Length && n > 0
      modifies this`bytes, this`written, this`outp, this`outCnt, outDb
      ensures OutReady()
      ensures Stream() == old(Stream() + Slice(outDb[..], outCnt, n))
    {
      hide Blocks, Slice;
      Upto(outDb[..], outCnt, n);
      Assoc(written, outDb[..outCnt], Slice(outDb[..], outCnt, n));
      outp := outp + n;
      outCnt := outCnt + n;
      if outCnt >= obs {
        DdOut(false);
      }
    }

    // The head of block: the rest of a line cut in an earlier read is tossed.
    method SkipTruncated(ghost rest: seq<Byte>) returns (done: bool)
      requires intrunc && inRead == inCnt == inp <= inDb.Length && 0 < inRead
      modifies this`inp, this`inCnt, this`intrunc
      ensures inCnt <= inp <= old(inp)
      ensures done ==> intrunc && inp == inCnt == 0
      ensures !done ==> !intrunc
      ensures Cont(ctab, cbs, intrunc, Left(), rest) == old(Cont(ctab, cbs, true, Left(), rest))
    {
      hide Cont, Plain, Slice;
      SliceNone(inDb[..], 0);
      PlainNone();
      var p, cnt: nat := 0, inRead;
      while cnt > 0 && inDb[p] != NL
        invariant 0 <= p && p + cnt == inRead && Plain(Slice(inDb[..], 0, p))
        invariant intrunc && inp == inCnt == inRead
        decreases cnt
      {
        PlainStep(inDb[..], 0, p);
        p, cnt := p + 1, cnt - 1;
      }
      TossIn(ctab, cbs, inDb[..], 0, p, inRead, rest);
      if cnt == 0 {
        inCnt, inp := 0, 0;
        return true;
      }
      p := p + 1;
      intrunc := false;
      inCnt, inp := cnt - 1, p + cnt - 1;
      done := false;
    }

    // The copying loop of block: up to a newline or maxlen bytes, to the end of the output.
    method CopyRecord(p: nat, maxlen: nat) returns (cnt: nat, nl: bool)
      requires inDb != outDb && p + maxlen <= inDb.Length && outp + maxlen <= outDb.Length
      modifies outDb
      ensures cnt <= maxlen && (nl <==> cnt < maxlen) && (nl ==> inDb[p + cnt] == NL)
      ensures Plain(Slice(inDb[..], p, cnt))
      ensures outDb[..outp] == old(outDb[..outp])
      ensures Slice(outDb[..], outp, cnt) == TrAll(ctab, Slice(inDb[..], p, cnt))
    {
      hide TrAll, Plain, Slice;
      SliceNone(inDb[..], p);
      SliceNone(outDb[..], outp);
      PlainNone();
      TrNone(ctab);
      cnt := 0;
      while cnt < maxlen && inDb[p + cnt] != NL
        invariant cnt <= maxlen && Plain(Slice(inDb[..], p, cnt))
        invariant outDb[..outp] == old(outDb[..outp])
        invariant Slice(outDb[..], outp, cnt) == TrAll(ctab, Slice(inDb[..], p, cnt))
      {
        ghost var v := outDb[..];
        outDb[outp + cnt] := Tr(ctab, inDb[p + cnt]);
        SameFront(outDb[..], v, outp);
        SameSlice(outDb[..], v, outp, cnt);
        SliceMore(outDb[..], outp, cnt);
        TrStep(ctab, inDb[..], p, cnt);
        PlainStep(inDb[..], p, cnt);
        cnt := cnt + 1;
      }
      nl := cnt < maxlen;
    }

    // The tossing loop of block, after a full record.
    method TossLine(p: nat, ghost rest: seq<Byte>)
      requires p == inp - inCnt && inCnt <= inp <= inDb.Length && !intrunc
      modifies this`inCnt, this`intrunc
      ensures inCnt <= old(inCnt) && (intrunc ==> inCnt == 0)
      ensures Cont(ctab, cbs, intrunc, Left(), rest) == Cont(ctab, cbs, true, old(Left()), rest)
    {
      hide Cont, Plain, Slice;
      var q := p;
      SliceNone(inDb[..], p);
      PlainNone();
      while inCnt > 0 && inDb[q] != NL
        invariant q + inCnt == inp && p <= q && Plain(Slice(inDb[..], p, q - p)) && !intrunc
        decreases inCnt
      {
        PlainStep(inDb[..], p, q - p);
        q, inCnt := q + 1, inCnt - 1;
      }
      TossIn(ctab, cbs, inDb[..], p, q - p, inp - p, rest);
      if inCnt == 0 {
        intrunc := true;
        SliceNone(inDb[..], inp);
      } else {
        inCnt := inCnt - 1;
      }
    }

    // A line shorter than a record: padded with spaces.
    method ShortRecord(p: nat, cnt: nat, ghost rest: seq<Byte>)
      requires Sized() && cfunc == Block && !intrunc
      requires p == inp - inCnt && cnt < inCnt <= inp <= inDb.Length && cnt < cbs
      requires inDb[p + cnt] == NL && Plain(Slice(inDb[..], p, cnt))
      requires outp == outCnt < obs && Slice(outDb[..], outp, cnt) == TrAll(ctab, Slice(inDb[..], p, cnt))
      modifies this`inCnt, outDb
      ensures inCnt < old(inCnt)
      ensures outDb[..outp] == old(outDb[..outp])
      ensures Cont(ctab, cbs, false, old(Left()), rest)
        == Slice(outDb[..], outp, cbs) + Cont(ctab, cbs, false, Left(), rest)
    {
      hide Cont, Plain, TrAll, Fill, Slice;
      ShortIn(ctab, cbs, inDb[..], p, cnt, inCnt, rest);
      inCnt := inCnt - cnt - 1;
      Pad(cnt);
    }

    // The padding of a record of cnt bytes at the end of the output.
    method Pad(cnt: nat)
      requires cnt <= cbs && outp + cbs <= outDb.Length
      modifies outDb
      ensures outDb[..outp] == old(outDb[..outp])
      ensures Slice(outDb[..], outp, cbs) == old(Slice(outDb[..], outp, cnt)) + Fill(Tr(ctab, SP), cbs - cnt)
    {
      hide Fill, Slice;
      ghost var v := outDb[..];
      Memset(outDb, outp + cnt, Tr(ctab, SP), cbs - cnt);
      FrontAt(outDb[..], v, outp + cnt);
      SameFront(outDb[..], v, outp);
      SameSlice(outDb[..], v, outp, cnt);
      Adjoin(outDb[..], outp, cnt, cbs - cnt);
    }

    // A line of at least a record: cut.
    method FullRecord(p: nat, ghost rest: seq<Byte>)
      requires Sized() && cfunc == Block && !intrunc
      requires p == inp - inCnt && cbs <= inCnt <= inp <= inDb.Length
      requires Plain(Slice(inDb[..], p, cbs))
      requires outp == outCnt < obs && Slice(outDb[..], outp, cbs) == TrAll(ctab, Slice(inDb[..], p, cbs))
      modifies this`inCnt, this`intrunc
      ensures inCnt < old(inCnt) && (intrunc ==> inCnt == 0)
      ensures Cont(ctab, cbs, false, old(Left()), rest)
        == Slice(outDb[..], outp, cbs) + Cont(ctab, cbs, intrunc, Left(), rest)
    {
      hide Cont, Plain, TrAll, Slice;
      LongIn(ctab, cbs, inDb[..], p, inCnt, rest);
      inCnt := inCnt - cbs;
      TossLine(p + cbs, rest);
    }

    // The copied record is completed.
    method CloseRecord(p: nat, cnt: nat, ghost rest: seq<Byte>)
      requires Sized() && cfunc == Block && !intrunc && OutReady()
      requires p == inp - inCnt && inCnt <= inp <= inDb.Length && cnt <= cbs && cnt <= inCnt
      requires cnt < cbs ==> cnt < inCnt && inDb[p + cnt] == NL
      requires Plain(Slice(inDb[..], p, cnt)) && Slice(outDb[..], outp, cnt) == TrAll(ctab, Slice(inDb[..], p, cnt))
      modifies this`inCnt, this`intrunc, outDb
      ensures inCnt < old(inCnt) && (intrunc ==> inCnt == 0) && Stream() == old(Stream())
      ensures Slice(outDb[..], outp, cbs) + Cont(ctab, cbs, intrunc, Left(), rest)
        == old(Cont(ctab, cbs, intrunc, Left(), rest))
    {
      hide Cont, Plain, TrAll, Blocks, Slice;
      if cnt < cbs {
        ShortRecord(p, cnt, rest);
      } else {
        FullRecord(p, rest);
      }
    }

    // The copied record is completed, and written when a block is full.
    method EmitRecord(p: nat, cnt: nat, ghost rest: seq<Byte>)
      requires Sized() && cfunc == Block && !intrunc && OutReady()
      requires p == inp - inCnt && inCnt <= inp <= inDb.Length && cnt <= cbs && cnt <= inCnt
      requires cnt < cbs ==> cnt < inCnt && inDb[p + cnt] == NL
      requires Plain(Slice(inDb[..], p, cnt)) && Slice(outDb[..], outp, cnt) == TrAll(ctab, Slice(inDb[..], p, cnt))
      modifies this`inCnt, this`intrunc, this`bytes, this`written, this`outp, this`outCnt, outDb
      ensures OutReady() && inCnt < old(inCnt) && (intrunc ==> inCnt == 0)
      ensures Stream() + Cont(ctab, cbs, intrunc, Left(), rest)
        == old(Stream() + Cont(ctab, cbs, intrunc, Left(), rest))
    {
      hide Cont, Plain, TrAll, Blocks, Slice;
      ghost var s := Stream();
      CloseRecord(p, cnt, rest);
      ghost var record, left := Slice(outDb[..], outp, cbs), Left();
      Assoc(s, record, Cont(ctab, cbs, intrunc, left, rest));
      Emit(cbs);
      assert Left() == left;
    }

    // One round of block's loop; at its end a piece of a line shorter than a record may be left.
    method BlockRecord(ghost rest: seq<Byte>) returns (stop: bool)
      requires Sized() && cfunc == Block && !intrunc && OutReady()
      requires 0 < inCnt <= inp <= inDb.Length
      modifies this`inCnt, this`intrunc, this`bytes, this`written, this`outp, this`outCnt, inDb, outDb
      ensures OutReady() && inCnt <= inp && (intrunc ==> inCnt == 0)
      ensures stop ==> inDb[..inCnt] == old(Left()) && Plain(inDb[..inCnt]) && inCnt < cbs
      ensures stop ==> Stream() == old(Stream()) && !intrunc
      ensures stop || inCnt < old(inCnt)
      ensures stop || Stream() + Cont(ctab, cbs, intrunc, Left(), rest)
        == old(Stream() + Cont(ctab, cbs, intrunc, Left(), rest))
    {
      hide Cont, Plain, TrAll, Blocks, Slice;
      ghost var s, left := Stream(), Left();
      var p := inp - inCnt;
      var cnt, nl := CopyRecord(p, if cbs < inCnt then cbs else inCnt);
      assert Stream() == s && Left() == left;
      stop := !nl && inCnt < cbs;
      if stop {
        Memmove(inDb, 0, inDb, inp - inCnt, inCnt);
        FromZero(inDb[..], inCnt);
      } else {
        EmitRecord(p, cnt, rest);
      }
    }

    // block's loop, and the move of what is left.
    method BlockRecords(ghost rest: seq<Byte>)
      requires Sized() && cfunc == Block && !intrunc && OutReady() && inCnt <= inp <= inDb.Length
      modifies this`inp, this`inCnt, this`intrunc, this`bytes, this`written, this`outp, this`outCnt, inDb, outDb
      ensures Rest()
      ensures Stream() + Cont(ctab, cbs, intrunc, Left(), rest)
        == old(Stream() + Cont(ctab, cbs, intrunc, Left(), rest))
    {
      hide Cont, Plain, Blocks, Slice;
      PlainNone();
      var stop := false;
      while inCnt > 0 && !stop
        invariant OutReady() && inCnt <= inp <= inDb.Length && (intrunc ==> inCnt == 0)
        invariant stop ==> inCnt < cbs && Plain(inDb[..inCnt]) && !intrunc
        invariant Stream() + Cont(ctab, cbs, intrunc, if stop then inDb[..inCnt] else Left(), rest)
          == old(Stream() + Cont(ctab, cbs, intrunc, Left(), rest))
        decreases inCnt, !stop
      {
        stop := BlockRecord(rest);
      }
      SliceNone(inDb[..], inp);
      FromZero(inDb[..], inCnt);
      inp := inCnt;
    }

    // The head of block between two reads.
    method SkipHead(ghost rest: seq<Byte>) returns (done: bool)
      requires Sized() && cfunc == Block && OutReady()
      requires intrunc && inRead == inCnt == inp <= inDb.Length && 0 < inRead
      modifies this`inp, this`inCnt, this`intrunc
      ensures OutReady() && Stream() == old(Stream())
      ensures if done then Rest() else !intrunc && inCnt <= inp <= inDb.Length
      ensures Cont(ctab, cbs, intrunc, Left(), rest) == old(Cont(ctab, cbs, intrunc, Left(), rest))
    {
      hide Cont, Plain, Blocks, Slice;
      done := SkipTruncated(rest);
      SliceNone(inDb[..], 0);
      PlainNone();
    }

    /** block */
    method BlockConv(ghost rest: seq<Byte>)
      requires Sized() && cfunc == Block && OutReady()
      requires inCnt == inp <= inDb.Length && 0 < inRead && (intrunc ==> inRead == inCnt)
      modifies this, inDb, outDb
      ensures Rest()
      ensures Stream() + Cont(ctab, cbs, intrunc, Left(), rest)
        == old(Stream() + Cont(ctab, cbs, intrunc, Left(), rest))
    {
      hide Cont, Plain, Blocks, OutReady, Slice;
      var done := false;
      if intrunc {
        done := SkipHead(rest);
      }
      if !done {
        BlockRecords(rest);
      }
    }

    // Where the trailing spaces of the n bytes from p on begin.
    method TrimEnd(p: nat, n: nat) returns (k: nat)
      requires p + n <= inDb.Length
      ensures k <= n && Slice(inDb[..], p, k) == Trim(Slice(inDb[..], p, n))
    {
      hide Slice, Trim;
      k := n;
      while k > 0 && inDb[p + k - 1] == SP
        invariant k <= n && forall i :: p + k <= i < p + n ==> inDb[i] == SP
      {
        k := k - 1;
      }
      TrimIn(inDb[..], p, n, k);
    }

    // A line for the n bytes from p on: trimmed, and a newline, at the end of the output.
    method PutLine(p: nat, n: nat) returns (len: nat)
      requires Sized() && cfunc == Unblock && n <= cbs && p + n <= inDb.Length
      requires outp == outCnt < obs
      modifies outDb
      ensures len > 0 && outp + len <= outDb.Length && outDb[..outp] == old(outDb[..outp])
      ensures Slice(outDb[..], outp, len) == Trim(Slice(inDb[..], p, n)) + [NL]
    {
      hide Slice, Trim;
      var k := TrimEnd(p, n);
      ghost var v := outDb[..];
      SliceNone(outDb[..], outp);
      SliceNone(inDb[..], p);
      if k > 0 {
        Memmove(outDb, outp, inDb, p, k);
      }
      ghost var w := outDb[..];
      outDb[outp + k] := NL;
      SameFront(outDb[..], w, outp);
      SameSlice(outDb[..], w, outp, k);
      SliceMore(outDb[..], outp, k);
      len := k + 1;
    }

    // unblock's loop over whole records, and the move of what is left.
    method UnblockRecords(ghost x: seq<Byte>)
      requires Sized() && cfunc == Unblock && !intrunc && OutReady()
      requires inCnt == inp <= inDb.Length
      modifies this`inp, this`inCnt, this`bytes, this`written, this`outp, this`outCnt, inDb, outDb
      ensures OutReady() && inp == inCnt < cbs && inCnt <= old(inCnt) && Blocks(cbs, old(inCnt) - inCnt)
      ensures Stream() + DdRecords.Unblock(cbs, inDb[..inCnt] + x)
        == old(Stream() + DdRecords.Unblock(cbs, inDb[..inCnt] + x))
    {
      hide DdRecords.Unblock, Trim, Blocks, Slice;
      ghost var total := Stream() + DdRecords.Unblock(cbs, inDb[..inCnt] + x);
      var p: nat := 0;
      NoBlocks(cbs);
      FromZero(inDb[..], inp);
      while inCnt >= cbs
        invariant p + inCnt == inp == old(inp) <= inDb.Length && OutReady() && Blocks(cbs, p)
        invariant Stream() + DdRecords.Unblock(cbs, Slice(inDb[..], p, inCnt) + x) == total
        decreases inCnt
      {
        OneLine(p, inCnt, x);
        MoreBlocks(cbs, p);
        p, inCnt := p + cbs, inCnt - cbs;
      }
      SliceNone(inDb[..], p);
      if inCnt > 0 {
        Memmove(inDb, 0, inDb, inp - inCnt, inCnt);
        FromZero(inDb[..], inCnt);
      }
      assert p == old(inCnt) - inCnt;
      inp := inCnt;
    }

    // One record at p becomes a line; the rest of the n bytes and x follow it.
    method OneLine(p: nat, n: nat, ghost x: seq<Byte>)
      requires Sized() && cfunc == Unblock && OutReady() && cbs <= n && p + n <= inDb.Length
      modifies this`bytes, this`written, this`outp, this`outCnt, outDb
      ensures OutReady()
      ensures Stream() + DdRecords.Unblock(cbs, Slice(inDb[..], p + cbs, n - cbs) + x)
        == old(Stream()) + DdRecords.Unblock(cbs, Slice(inDb[..], p, n) + x)
    {
      hide DdRecords.Unblock, Trim, Blocks, Slice;
      ghost var s, line := Stream(), Trim(Slice(inDb[..], p, cbs)) + [NL];
      ghost var y := DdRecords.Unblock(cbs, Slice(inDb[..], p + cbs, n - cbs) + x);
      RecordFirst(cbs, inDb[..], p, n, x);
      var len := PutLine(p, cbs);
      assert Stream() == s;
      Emit(len);
      Assoc(s, line, y);
    }

    /** unblock */
    method UnblockConv(ghost rest: seq<Byte>)
      requires Sized() && cfunc == Unblock && !intrunc && OutReady()
      requires inRead <= inCnt == inp <= inDb.Length
      modifies this, inDb, outDb
      ensures Rest() && inCnt <= old(inCnt) && Blocks(cbs, old(inCnt) - inCnt)
      ensures Stream() + DdRecords.Unblock(cbs, Left() + TrAll(ctab, rest)) ==
        old(Stream() + DdRecords.Unblock(cbs,
          inDb[..inp - inRead] + TrAll(ctab, Slice(inDb[..], inp - inRead, inRead)) + TrAll(ctab, rest)))
    {
      hide DdRecords.Unblock, TrAll, Blocks, Cont, Slice;
      ghost var k, s := inp - inRead, Stream();
      ghost var x := TrAll(ctab, rest);
      if !ctab.Same? {
        TranslateDown();
      } else {
        TrSame(Slice(inDb[..], k, inRead));
      }
      Upto(inDb[..], k, inRead);
      assert Stream() == s;
      UnblockRecords(x);
      FromZero(inDb[..], inCnt);
    }

    // One read and its conversion, in the three modes.
    method ReadDef(chunk: seq<Byte>, ghost rest: seq<Byte>)
      requires Rest() && cfunc == Def && 0 < |chunk| <= ibs
      modifies this, inDb
      ensures Rest() && Pending(rest) == old(Pending(chunk + rest))
    {
      hide TrAll, Plain, Blocks, Cont, DdRecords.Unblock, Slice;
      ghost var s := Stream();
      ghost var left := inDb[..inp];
      Read(chunk);
      Tail(inDb[..], left, chunk);
      assert Stream() == s;
      DefConv();
      TrAppend(ctab, chunk, rest);
      Assoc(s, TrAll(ctab, chunk), TrAll(ctab, rest));
    }

    method ReadBlock(chunk: seq<Byte>, ghost rest: seq<Byte>)
      requires Rest() && cfunc == Block && 0 < |chunk| <= ibs
      modifies this, inDb, outDb
      ensures Rest() && Pending(rest) == old(Pending(chunk + rest))
    {
      hide TrAll, Plain, Blocks, DdRecords.Unblock, Cont, Slice;
      ghost var s, left := Stream(), Left();
      FromZero(inDb[..], inp);
      Read(chunk);
      FromZero(inDb[..], inp);
      assert Stream() == s && Left() == left + chunk;
      ContMore(ctab, cbs, intrunc, left, chunk, rest);
      BlockConv(rest);
    }

    method ReadUnblock(chunk: seq<Byte>, ghost rest: seq<Byte>)
      requires Rest() && cfunc == Unblock && 0 < |chunk| <= ibs
      modifies this, inDb, outDb
      ensures Rest() && Pending(rest) == old(Pending(chunk + rest))
    {
      hide TrAll, Plain, Blocks, DdRecords.Unblock, Cont, Slice;
      ghost var s, left := Stream(), Left();
      FromZero(inDb[..], inp);
      Read(chunk);
      Tail(inDb[..], left, chunk);
      assert Stream() == s;
      TrAppend(ctab, chunk, rest);
      Assoc(left, TrAll(ctab, chunk), TrAll(ctab, rest));
      UnblockConv(rest);
    }

    /** dd_in: however the input is cut into reads, what was output and what is still to come
        stay what they were. */
    method DdIn(chunks: seq<seq<Byte>>)
      requires Rest() && forall i :: 0 <= i < |chunks| ==> 0 < |chunks[i]| <= ibs
      modifies this, inDb, outDb
      ensures Rest() && Pending([]) == old(Pending(Concat(chunks)))
    {
      hide Pending;
      assert chunks[0..] == chunks;
      for i := 0 to |chunks|
        invariant Rest() && Pending(Concat(chunks[i..])) == old(Pending(Concat(chunks)))
      {
        ghost var rest := Concat(chunks[i + 1..]);
        assert chunks[i..][0] == chunks[i] && chunks[i..][1..] == chunks[i + 1..];
        assert Concat(chunks[i..]) == chunks[i] + rest;
        match cfunc {
          case Def => ReadDef(chunks[i], rest);
          case Block => ReadBlock(chunks[i], rest);
          case Unblock => ReadUnblock(chunks[i], rest);
        }
      }
    }

    method DefClose()
      requires Rest() && cfunc == Def
      modifies this`outCnt
      ensures outCnt <= outDb.Length && bytes == |written|
      ensures Stream() == old(Pending([]))
    {
      if inCnt > 0 {
        outCnt := inCnt;
      }
    }

    // The record of what is left, at the end of the output.
    method CloseLine()
      requires inDb != outDb && inp == inCnt <= cbs && inCnt <= inDb.Length && outp + cbs <= outDb.Length
      modifies outDb
      ensures outDb[..outp + cbs] == old(outDb[..outp]) + (inDb[..inCnt] + Fill(Tr(ctab, SP), cbs - inCnt))
    {
      hide Fill, Slice;
      Memmove(outDb, outp, inDb, inp - inCnt, inCnt);
      Pad(inCnt);
      FromZero(inDb[..], inCnt);
      Upto(outDb[..], outp, cbs);
    }

    // What is left is a piece of a line; the pointer into the output buffer does not advance.
    method BlockClose()
      requires Rest() && cfunc == Block
      modifies this`outCnt, outDb
      ensures outCnt <= outDb.Length && bytes == |written|
      ensures Stream() == old(Pending([]))
    {
      hide Plain, Fill, Cont, Blocks, TrAll, DdRecords.Unblock, Slice;
      ghost var left, s := Left(), outDb[..outCnt];
      FromZero(inDb[..], inCnt);
      ContEnd(ctab, cbs, intrunc, left);
      ghost var tail := Cont(ctab, cbs, intrunc, left, []);
      if inCnt > 0 {
        assert tail == left + Fill(Tr(ctab, SP), cbs - inCnt);
        CloseLine();
        outCnt := outCnt + cbs;
        assert outDb[..outCnt] == s + tail;
        Assoc(written, s, tail);
      } else {
        assert tail == [];
      }
    }

    // The line of what is left, at the end of the output.
    method LastLine() returns (len: nat)
      requires Sized() && cfunc == Unblock && inCnt <= cbs && inCnt <= inDb.Length && outp == outCnt < obs
      modifies outDb
      ensures outp + len <= outDb.Length
      ensures outDb[..outp + len] == old(outDb[..outp]) + (Trim(inDb[..inCnt]) + [NL])
    {
      hide Trim, Slice;
      len := PutLine(0, inCnt);
      FromZero(inDb[..], inCnt);
      Upto(outDb[..], outp, len);
    }

    method UnblockClose()
      requires Rest() && cfunc == Unblock
      modifies this`outCnt, this`outp, outDb
      ensures outCnt <= outDb.Length && bytes == |written|
      ensures Stream() == old(Pending([]))
    {
      hide Plain, TrAll, Trim, Blocks, DdRecords.Unblock, Cont, Slice;
      ghost var left, s := Left(), outDb[..outCnt];
      FromZero(inDb[..], inCnt);
      Nothing(left);
      TrNone(ctab);
      UnblockRest(cbs, left);
      ghost var tail, all := DdRecords.Unblock(cbs, left), Pending([]);
      assert all == written + s + tail;
      if inCnt > 0 {
        var len := LastLine();
        outp, outCnt := outp + len, outCnt + len;
        assert outDb[..outCnt] == s + tail;
        Assoc(written, s, tail);
      } else {
        Nothing(written + s);
      }
    }

    /** dd_close: everything still to come is written. */
    method DdClose()
      requires Rest()
      modifies this, outDb
      ensures written == old(Pending([])) && bytes == |written| && outCnt == 0
    {
      match cfunc {
        case Def => DefClose();
        case Block => BlockClose();
        case Unblock => UnblockClose();
      }
      if outCnt > 0 {
        DdOut(true);
      }
      assert Stream() == written;
    }
  }

  /** The whole program: for every way the reads and writes are split, the output is the
      conversion of the whole input, and st.bytes counts it. */
  method Reblock(f: Conv, t: Table, ibs: nat, obs: nat, cbs: nat, chunks: seq<seq<Byte>>)
    returns (written: seq<Byte>, bytes: nat)
    requires ibs > 0 && obs > 0 && (f != Def ==> cbs > 0)
    requires forall i :: 0 <= i < |chunks| ==> 0 < |chunks[i]| <= ibs
    ensures written == Output(f, t, cbs, Concat(chunks)) && bytes == |written|
    ensures f == Def ==>
      var x := Concat(chunks);
      |written| == |x| && forall i :: 0 <= i < |x| ==> written[i] == if t.Same? then x[i] else t.code(x[i])
  {
    hide Output, Dd.Pending;
    OutputDef(t, cbs, Concat(chunks));
    var dd := new Dd(f, t, ibs, obs, cbs);
    dd.DdIn(chunks);
    dd.DdClose();
    written, bytes := dd.written, dd.bytes;
  }

  /** conv=block and then conv=unblock, with any reads, writes and buffer sizes on both
      passes, gives back the text exactly when it is Normal. */
  method BlockThenUnblock(cbs: nat, ibs: nat, obs: nat, text: seq<seq<Byte>>,
                          ibs2: nat, obs2: nat) returns (back: seq<Byte>)
    requires cbs > 0 && ibs > 0 && obs > 0 && ibs2 > 0 && obs2 > 0
    requires forall i :: 0 <= i < |text| ==> 0 < |text[i]| <= ibs
    ensures back == Concat(text) <==> Normal(cbs, Concat(text))
  {
    hide Normal, DdRecords.Block, DdRecords.Unblock;
    var records, _ := Reblock(Block, Same, ibs, obs, cbs, text);
    var chunks := Cut(records, ibs2);
    var out, _ := Reblock(Unblock, Same, ibs2, obs2, cbs, chunks);
    back := out;
    TrSame(records);
    UnblockBlock(cbs, Concat(text));
  }

  /** The output buffer has not a byte too many: after obs - 1 blank records, the line of a
      record without trailing spaces fills unblock's buffer to its last byte. */
  method Brim(obs: nat, cbs: nat) returns (dd: Dd, len: nat)
    requires obs > 0 && cbs > 0
    ensures dd.cfunc == Unblock && dd.obs == obs && dd.cbs == cbs && dd.outDb.Length == obs + cbs
    ensures dd.outp == obs - 1 && dd.outp + len == dd.outDb.Length && dd.outDb[dd.outDb.Length - 1] == NL
  {
    hide Trim, DdRecords.Unblock, Plain, TrAll, Fill, Cont, Slice;
    dd := new Dd(Unblock, Same, cbs, obs, cbs);
    for k := 0 to obs - 1
      invariant fresh(dd) && fresh(dd.inDb) && fresh(dd.outDb)
      invariant dd.cfunc == Unblock && dd.ctab == Same && dd.ibs == cbs && dd.obs == obs && dd.cbs == cbs
      invariant dd.Rest() && dd.inCnt == 0 && dd.outCnt == k && dd.written == []
    {
      BlankRecord(dd, k);
    }
    ReadFill(dd, 88);
    TrimFull(88, cbs);
    len := dd.PutLine(0, cbs);
    SliceAt(dd.outDb[..], dd.outp, len, cbs);
  }

  // A record of spaces: one newline more in the output buffer.
  method BlankRecord(dd: Dd, k: nat)
    requires dd.cfunc == Unblock && dd.ctab == Same && dd.ibs == dd.cbs && k < dd.obs - 1
    requires dd.Rest() && dd.inCnt == 0 && dd.outCnt == k && dd.written == []
    modifies dd, dd.inDb, dd.outDb
    ensures dd.Rest() && dd.inCnt == 0 && dd.outCnt == k + 1 && dd.written == []
  {
    hide Trim, DdRecords.Unblock, Plain, TrAll, Fill, Cont, Blocks, Slice;
    ghost var s := dd.Stream();
    ReadFill(dd, SP);
    assert dd.Stream() == s;
    dd.UnblockConv([]);
    BlankLine(dd.cbs);
    OneBlock(dd.cbs, dd.inCnt);
    SliceNone(dd.inDb[..], dd.inp);
    Nothing(dd.Stream());
    assert |dd.Stream()| == |dd.written| + dd.outCnt;
    FewBlocks(dd.obs, |dd.written|);
  }

  // A read of one record of equal bytes.
  method ReadFill(dd: Dd, b: Byte)
    requires dd.inp == dd.inCnt == 0 && 0 < dd.cbs == dd.ibs <= dd.inDb.Length
    modifies dd`inp, dd`inCnt, dd`inRead, dd.inDb
    ensures dd.inp == dd.inCnt == dd.inRead == dd.cbs
    ensures dd.inDb[..dd.inp - dd.inRead] == [] && Slice(dd.inDb[..], 0, dd.cbs) == Fill(b, dd.cbs)
  {
    hide Fill, Slice;
    var record := Fill(b, dd.cbs);
    SliceNone(dd.inDb[..], 0);
    dd.Read(record);
    Nothing(record);
    FromZero(dd.inDb[..], dd.cbs);
    SliceNone(dd.inDb[..], 0);
  }

  // Reads of any sizes from 1 to max that give x.
  method Cut(x: seq<Byte>, max: nat) returns (chunks: seq<seq<Byte>>)
    requires max > 0
    ensures Concat(chunks) == x && forall i :: 0 <= i < |chunks| ==> 0 < |chunks[i]| <= max
  {
    var rest := x;
    chunks := [];
    while |rest| > 0
      invariant Concat(chunks) + rest == x
      invariant forall i :: 0 <= i < |chunks| ==> 0 < |chunks[i]| <= max
      decreases |rest|
    {
      var k: nat :| 1 <= k <= max && k <= |rest|;
      ConcatMore(chunks, rest[..k]);
      CutFront(rest, k);
      Assoc(Concat(chunks), rest[..k], rest[k..]);
      chunks, rest := chunks + [rest[..k]], rest[k..];
    }
  }

  lemma {:induction false} ConcatMore(chunks: seq<seq<Byte>>, last: seq<Byte>)
    ensures Concat(chunks + [last]) == Concat(chunks) + last
  {
    if |chunks| > 0 {
      ConcatMore(chunks[1..], last);
      assert (chunks + [last])[1..] == chunks[1..] + [last];
      Assoc(chunks[0], Concat(chunks[1..]), last);
    }
  }
}
