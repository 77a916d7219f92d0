/**
 ed's encrypted files: cipher block chaining (section 6.2 of NIST SP 800-38A) over any
 block permutation, a byte at a time, with the number of bytes of the last block in its
 last byte.
 */
module EdCbc {
  import opened Slices

  type Bytes = seq<bv8>

  const EOF := -1

  type Block = b: Bytes | |b| == 8 witness [0, 0, 0, 0, 0, 0, 0, 0]

  // The keyed block permutation and its inverse.
  datatype Cipher = Cipher(enc: Block -> Block, dec: Block -> Block)

  ghost predicate Permutes(k: Cipher) {
    forall b: Block :: k.dec(k.enc(b)) == b
  }

  function Xor(a: Bytes, b: Bytes): (r: Bytes)
    requires |a| == |b|
    ensures |r| == |a|
  {
    seq(|a|, i requires 0 <= i < |a| => a[i] ^ b[i])
  }

  lemma XorTwice(a: Bytes, b: Bytes)
    requires |a| == |b|
    ensures Xor(Xor(a, b), b) == a
  {
  }

  // A last block of fewer than eight bytes: padding, and the count in the last byte.
  function Padded(p: Bytes, pad: Block): (r: Block)
    requires |p| < 8
    ensures |r| == 8 && r[..|p|] == p && r[7] == |p| as bv8
  {
    (p + pad[..8 - |p|])[7 := |p| as bv8]
  }

  lemma PaddedAt(p: Bytes, pad: Block, r: Bytes)
    requires |p| < 8 && |r| == 8 && r[..|p|] == p && r[7] == |p| as bv8
    requires forall j :: |p| <= j < 7 ==> r[j] == pad[j - |p|]
    ensures r == Padded(p, pad)
  {
  }

  function Encode(k: Cipher, iv: Block, p: Bytes, pad: Block): Bytes
    decreases |p|
  {
    if |p| >= 8 then
      var c := k.enc(Xor(p[..8], iv));
      c + Encode(k, c, p[8..], pad)
    else
      k.enc(Xor(Padded(p, pad), iv))
  }

  // What a reader gets from a file before the first end-of-file.
  function Decode(k: Cipher, iv: Block, c: Bytes): Bytes
    decreases |c|
  {
    if |c| < 8 then []
    else
      var b := Xor(k.dec(c[..8]), iv);
      if |c| == 8 then
        if b[7] as int <= 7 then b[..b[7] as int] else []
      else b + Decode(k, c[..8], c[8..])
  }

  lemma {:induction false} EncodeLength(k: Cipher, iv: Block, p: Bytes, pad: Block)
    ensures |Encode(k, iv, p, pad)| == |p| + 8 - |p| % 8
    decreases |p|
  {
    hide Xor, Padded;
    if |p| >= 8 {
      EncodeLength(k, k.enc(Xor(p[..8], iv)), p[8..], pad);
    }
  }

  /** Decoding what was encoded gives back the text, whatever the padding. */
  lemma {:induction false} DecodeEncode(k: Cipher, iv: Block, p: Bytes, pad: Block)
    requires Permutes(k)
    ensures Decode(k, iv, Encode(k, iv, p, pad)) == p
    decreases |p|
  {
    hide Xor, Padded;
    var b := if |p| >= 8 then p[..8] else Padded(p, pad);
    var c, e := k.enc(Xor(b, iv)), Encode(k, iv, p, pad);
    XorTwice(b, iv);
    if |p| >= 8 {
      EncodeLength(k, c, p[8..], pad);
      DecodeEncode(k, c, p[8..], pad);
      assert e[..8] == c && e[8..] == Encode(k, c, p[8..], pad);
      assert p == p[..8] + p[8..];
    } else {
      assert e[..8] == e;
      assert (|p| as bv8) as int == |p|;
    }
  }

  lemma XorAt(a: Bytes, b: Bytes, i: nat)
    requires i < |a| == |b|
    ensures Xor(a, b)[i] == a[i] ^ b[i]
  {
  }

  // Byte i of what block j is chained to: the block of ciphertext before it, or the vector.
  function Before(iv: Block, c: Bytes, j: nat, i: nat): bv8
    requires i < 8 && 8 * j <= |c|
  {
    if j == 0 then iv[i] else c[8 * j - 8 + i]
  }

  lemma PaddedBytes(p: Bytes, pad: Block)
    requires |p| < 8
    ensures forall i :: 0 <= i < 8 ==>
      Padded(p, pad)[i] == if i < |p| then p[i] else if i == 7 then |p| as bv8 else pad[i - |p|]
  {
  }

  /** What is read from any bytes, written by ed or not: a block with something behind it gives
      all its bytes; one at the end as many as its last byte says, or none when that is more
      than seven; less than a block nothing. */
  lemma {:induction false} PlainBlock(k: Cipher, iv: Block, c: Bytes, j: nat, x: Block)
    requires 8 * j + 8 <= |c| && forall i :: 0 <= i < 8 ==> x[i] == c[8 * j + i]
    ensures var r, n := Decode(k, iv, c), (k.dec(x)[7] ^ Before(iv, c, j, 7)) as int;
      && |r| >= (if |c| > 8 * j + 8 then 8 * j + 8 else 8 * j)
      && (|c| == 8 * j + 8 ==> |r| == 8 * j + if n <= 7 then n else 0)
      && (8 * j + 8 < |c| < 8 * j + 16 ==> |r| == 8 * j + 8)
      && forall i :: 0 <= i < 8 && 8 * j + i < |r| ==> r[8 * j + i] == k.dec(x)[i] ^ Before(iv, c, j, i)
    decreases j
  {
    hide Xor, Decode;
    DecodeFirst(k, iv, c);
    var b := Xor(k.dec(c[..8]), iv);
    forall i | 0 <= i < 8 ensures b[i] == k.dec(c[..8])[i] ^ iv[i] {
      XorAt(k.dec(c[..8]), iv, i);
    }
    if j == 0 {
      assert x == c[..8];
    } else {
      PlainBlock(k, c[..8], c[8..], j - 1, x);
    }
  }

  lemma DecodeFirst(k: Cipher, iv: Block, c: Bytes)
    requires |c| >= 8
    ensures var b := Xor(k.dec(c[..8]), iv);
      Decode(k, iv, c) ==
        if |c| > 8 then b + Decode(k, c[..8], c[8..]) else if b[7] as int <= 7 then b[..b[7] as int] else []
    ensures 8 < |c| < 16 ==> Decode(k, c[..8], c[8..]) == []
  {
  }

  // Whole blocks only: their ciphertext, and the chaining value after them.
  function EncodeBlocks(k: Cipher, iv: Block, p: Bytes): (r: (Bytes, Block))
    requires |p| % 8 == 0
    decreases |p|
  {
    if |p| == 0 then ([], iv)
    else
      var c := k.enc(Xor(p[..8], iv));
      var (s, iv') := EncodeBlocks(k, c, p[8..]);
      (c + s, iv')
  }

  lemma {:induction false} EncodeSplit(k: Cipher, iv: Block, done: Bytes, rest: Bytes, pad: Block)
    requires |done| % 8 == 0
    ensures var (s, iv') := EncodeBlocks(k, iv, done);
      Encode(k, iv, done + rest, pad) == s + Encode(k, iv', rest, pad)
    decreases |done|
  {
    if |done| == 0 {
      assert done + rest == rest;
    } else {
      var c := k.enc(Xor(done[..8], iv));
      assert (done + rest)[..8] == done[..8] && (done + rest)[8..] == done[8..] + rest;
      EncodeSplit(k, c, done[8..], rest, pad);
      var (s, iv') := EncodeBlocks(k, c, done[8..]);
      assert c + (s + Encode(k, iv', rest, pad)) == (c + s) + Encode(k, iv', rest, pad);
    }
  }

  lemma {:induction false} BlocksAppend(k: Cipher, iv: Block, done: Bytes, b: Block)
    requires |done| % 8 == 0
    ensures var (s, iv') := EncodeBlocks(k, iv, done);
      var c := k.enc(Xor(b, iv'));
      EncodeBlocks(k, iv, done + b) == (s + c, c)
    decreases |done|
  {
    hide Xor;
    if |done| == 0 {
      Nothing(b);
      var c := k.enc(Xor(b, iv));
      Nothing(c);
      assert b[..8] == b && EncodeBlocks(k, c, b[8..]) == ([], c);
    } else {
      var c := k.enc(Xor(done[..8], iv));
      assert (done + b)[..8] == done[..8] && (done + b)[8..] == done[8..] + b;
      BlocksAppend(k, c, done[8..], b);
      var (s, iv') := EncodeBlocks(k, c, done[8..]);
      Assoc(c, s, k.enc(Xor(b, iv')));
    }
  }

  // They are as long as the text, and chain on with their last block.
  lemma {:induction false} BlocksChain(k: Cipher, iv: Block, done: Bytes)
    requires |done| % 8 == 0
    ensures var (s, iv') := EncodeBlocks(k, iv, done);
      && |s| == |done|
      && iv' == if |s| == 0 then iv else Slice(s, |s| - 8, 8)
    decreases |done|
  {
    hide Xor, Slice;
    if |done| > 0 {
      var c := k.enc(Xor(done[..8], iv));
      BlocksChain(k, c, done[8..]);
      var (s, iv') := EncodeBlocks(k, c, done[8..]);
      LastOf(c, s);
    }
  }

  lemma LastOf(c: Block, s: Bytes)
    ensures |s| >= 8 ==> Slice(c + s, |c + s| - 8, 8) == Slice(s, |s| - 8, 8)
    ensures |s| == 0 ==> Slice(c + s, |c + s| - 8, 8) == c
  {
  }

  /** Every block of ciphertext is the enciphered exclusive or of eight bytes of text, at the end
      padded, and the block of ciphertext before it. */
  lemma CipherBlock(k: Cipher, iv: Block, p: Bytes, pad: Block, j: nat)
    requires 8 * j <= |p|
    ensures var e, m := Encode(k, iv, p, pad), |p| - 8 * j;
      && |e| == |p| + 8 - |p| % 8
      && var before := if j == 0 then iv else Slice(e, 8 * j - 8, 8);
         var text := if m >= 8 then Slice(p, 8 * j, 8) else Padded(Slice(p, 8 * j, m), pad);
         Slice(e, 8 * j, 8) == k.enc(Xor(text, before))
  {
    hide Xor, Padded, Slice, EncodeBlocks, Encode;
    var e, done, rest := Encode(k, iv, p, pad), p[..8 * j], Slice(p, 8 * j, |p| - 8 * j);
    EncodeLength(k, iv, p, pad);
    Upto(p, 8 * j, |rest|);
    assert p[..|p|] == p;
    EncodeSplit(k, iv, done, rest, pad);
    BlocksChain(k, iv, done);
    var (s, iv') := EncodeBlocks(k, iv, done);
    EncodeLength(k, iv', rest, pad);
    FirstBlock(k, iv', rest, pad);
    if j > 0 {
      Middle(s, Encode(k, iv', rest, pad), 8 * j - 8);
    }
    Middle(s, Encode(k, iv', rest, pad), 8 * j);
    if |rest| >= 8 {
      SliceFront(p, 8 * j, |rest|, 8);
    }
  }

  lemma Middle(s: Bytes, t: Bytes, i: nat)
    requires |t| >= 8 && i <= |s|
    ensures i + 8 <= |s| ==> Slice(s + t, i, 8) == Slice(s, i, 8)
    ensures i == |s| ==> Slice(s + t, i, 8) == t[..8]
  {
    var l := Slice(s + t, i, 8);
    forall n | 0 <= n < 8 && i == |s| ensures l[n] == t[n] {
      SliceAt(s + t, i, 8, n);
    }
  }

  lemma FirstBlock(k: Cipher, iv: Block, p: Bytes, pad: Block)
    requires |Encode(k, iv, p, pad)| >= 8
    ensures Encode(k, iv, p, pad)[..8] == k.enc(Xor(if |p| >= 8 then p[..8] else Padded(p, pad), iv))
  {
  }

  // All but the last n bytes.
  function Sent(plain: Bytes, n: nat): Bytes
    requires n <= |plain|
  {
    plain[..|plain| - n]
  }

  // The bytes b wait behind whole blocks.
  ghost predicate Waiting(plain: Bytes, b: Bytes) {
    |b| <= |plain| && plain == Sent(plain, |b|) + b && |Sent(plain, |b|)| % 8 == 0
  }

  // The shared state of the encoder and the decoder, and the file they work on.
  class Des {
    const k: Cipher
    var ivec: Block
    var pvec: Block
    const buf: array<bv8>
    var n: int
    var ct: int
    var file: Bytes
    var pos: nat

    // init_des_cipher: the padding vector is random.
    constructor (k: Cipher, pad: Block, file: Bytes)
      ensures fresh(buf) && this.k == k && pvec == pad && this.file == file && pos == 0
      ensures buf.Length == 8 && n == 0 && ct == 0 && ivec == [0, 0, 0, 0, 0, 0, 0, 0]
    {
      this.k, ivec, pvec, n, ct := k, [0, 0, 0, 0, 0, 0, 0, 0], pad, 0, 0;
      buf := new bv8[8];
      this.file, pos := file, 0;
    }

    // The writer has put `plain`: the whole blocks before the buffer are in the file.
    ghost predicate Writing(iv: Block, plain: Bytes)
      reads this, buf
    {
      && buf.Length == 8 && 0 <= n <= 8 && ct >= 0
      && Waiting(plain, buf[..n])
      && EncodeBlocks(k, iv, Sent(plain, n)) == (file, ivec)
    }

    lemma StartWriting()
      requires buf.Length == 8 && n == 0 && ct >= 0 && file == []
      ensures Writing(ivec, [])
    {
      var none: Bytes := [];
      assert none[..0] == none && buf[..0] == none;
      assert EncodeBlocks(k, ivec, none) == (none, ivec);
    }

    // buf ^= ivec, byte by byte
    method XorBuffer()
      requires buf.Length == 8
      modifies buf
      ensures buf[..] == Xor(old(buf[..]), ivec)
    {
      hide Xor;
      ghost var was, mix := buf[..], Xor(buf[..], ivec);
      for i := 0 to 8
        invariant forall j :: 0 <= j < i ==> buf[j] == mix[j]
        invariant forall j :: i <= j < 8 ==> buf[j] == was[j]
      {
        XorAt(was, ivec, i);
        buf[i] := buf[i] ^ ivec[i];
      }
      assert buf[..] == mix;
    }

    method Fill(b: Block)
      requires buf.Length == 8
      modifies buf
      ensures buf[..] == b
    {
      for i := 0 to 8
        invariant forall j :: 0 <= j < i ==> buf[j] == b[j]
      {
        buf[i] := b[i];
      }
    }

    // cbc_encode with a full block
    method EncodeFull()
      requires buf.Length == 8
      modifies buf, this`ivec, this`file
      ensures ivec == k.enc(Xor(old(buf[..]), old(ivec))) && file == old(file) + ivec
    {
      XorBuffer();
      var b := k.enc(buf[..]);
      Fill(b);
      ivec := b;
      file := file + b;
    }

    // cbc_encode with m < 8 bytes: the last block
    method EncodeLast(m: int)
      requires buf.Length == 8 && 0 <= m < 8
      modifies buf, this`file
      ensures file == old(file) + k.enc(Xor(Padded(old(buf[..m]), pvec), ivec))
    {
      ghost var p := buf[..m];
      var i := m;
      while i < 8
        invariant m <= i <= 8 && buf[..m] == p && file == old(file)
        invariant forall j :: m <= j < i ==> buf[j] == pvec[j - m]
      {
        buf[i] := pvec[i - m];
        i := i + 1;
      }
      buf[7] := m as bv8;
      PaddedAt(p, pvec, buf[..]);
      XorBuffer();
      var b := k.enc(buf[..]);
      Fill(b);
      file := file + b;
    }

    /** put_des_char: one more byte. */
    method Put(c: bv8, ghost iv: Block, ghost plain: Bytes)
      requires Writing(iv, plain)
      modifies this`ivec, this`n, this`ct, this`file, buf
      ensures Writing(iv, plain + [c])
    {
      hide EncodeBlocks, Sent, Waiting;
      Drain(iv, plain);
      ghost var b := buf[..n];
      buf[n] := c;
      OneMore(plain, b, c);
      LastAt(buf[..], n);
      n := n + 1;
    }

    // A full buffer is encoded before anything else happens to it.
    method Drain(ghost iv: Block, ghost plain: Bytes)
      requires Writing(iv, plain)
      modifies this`ivec, this`n, this`ct, this`file, buf
      ensures Writing(iv, plain) && n < 8
    {
      hide EncodeBlocks, Xor;
      if n == 8 {
        ghost var b := buf[..];
        assert b == buf[..8];
        BlocksAppend(k, iv, Sent(plain, 8), b);
        EncodeFull();
        ct, n := 8, 0;
        assert Sent(plain, 0) == plain && buf[..0] == [];
        Nothing(plain);
      }
    }

    /** flush_des_file: the file now holds the encoding of all that was put. */
    method Flush(ghost iv: Block, ghost plain: Bytes)
      requires Writing(iv, plain)
      modifies this`ivec, this`n, this`ct, this`file, buf
      ensures file == Encode(k, iv, plain, pvec)
    {
      hide EncodeBlocks, Encode, Xor, Padded;
      Drain(iv, plain);
      ghost var done, b := Sent(plain, n), buf[..n];
      EncodeSplit(k, iv, done, b, pvec);
      EncodeShort(k, ivec, b, pvec);
      EncodeLast(n);
    }

    // What is still to be read before the end of the file.
    ghost function Remaining(): Bytes
      reads this, buf
      requires Reading()
    {
      (if n < ct then Slice(buf[..], n, ct - n) else []) + Unread()
    }

    // What is in the blocks still to be read.
    ghost function Unread(): Bytes
      reads this
      requires pos <= |file|
    {
      Decode(k, ivec, Slice(file, pos, |file| - pos))
    }

    ghost predicate Reading()
      reads this, buf
    {
      buf.Length == 8 && 0 <= n && ct <= 8 && pos <= |file|
    }

    /** cbc_decode: the bytes of the next block, all eight of them unless it is the last. */
    method CbcDecode() returns (r: int)
      requires buf.Length == 8 && pos <= |file|
      modifies this`ivec, this`pos, buf
      ensures pos <= |file| && r <= 8 && (r <= 0 ==> pos == |file|)
      ensures (if r > 0 then buf[..r] else []) + Unread() == old(Unread())
    {
      hide Slice, Xor;
      ghost var c, left := Slice(file, pos, |file| - pos), |file| - pos;
      if |file| - pos >= 8 {
        var b := Slice(file, pos, 8);
        SliceFront(file, pos, left, 8);
        SliceBack(file, pos, left, 8);
        pos := pos + 8;
        Fill(k.dec(b));
        XorBuffer();
        ivec := b;
        r := 8;
        assert buf[..8] == buf[..];
        if pos == |file| {
          r := buf[7] as int;
          if r > 7 {
            r := EOF;
          }
        }
      } else {
        pos := |file|;
        r := EOF;
      }
    }

    // An empty buffer is filled from the file.
    method Refill()
      requires Reading()
      modifies this`ivec, this`pos, this`n, this`ct, buf
      ensures Reading() && Remaining() == old(Remaining())
      ensures n < ct || (ct <= 0 && Remaining() == [])
    {
      hide Slice, Decode;
      if n >= ct {
        ghost var rest := Unread();
        Nothing(rest);
        assert Remaining() == rest;
        n := 0;
        ct := CbcDecode();
        if ct > 0 {
          FromZero(buf[..], ct);
        } else {
          SliceNone(file, pos);
          NoBlocks(k, ivec);
        }
      }
    }

    /** get_des_char: the next byte of the text, or the end of the file. */
    method Get() returns (r: int)
      requires Reading()
      modifies this`ivec, this`pos, this`n, this`ct, buf
      ensures Reading()
      ensures old(Remaining()) == [] ==> r == EOF && Remaining() == []
      ensures old(Remaining()) != [] ==> r == old(Remaining())[0] as int && Remaining() == old(Remaining())[1..]
    {
      hide Slice, Decode;
      Refill();
      if ct > 0 {
        r := buf[n] as int;
        SliceFirst(buf[..], n, ct - n - 1);
        TailOf(buf[n], Slice(buf[..], n + 1, ct - n - 1), Unread());
        n := n + 1;
        SliceNone(buf[..], ct);
      } else {
        r := EOF;
      }
    }
  }

  lemma OneMore(plain: Bytes, b: Bytes, c: bv8)
    requires Waiting(plain, b)
    ensures Waiting(plain + [c], b + [c]) && Sent(plain + [c], |b| + 1) == Sent(plain, |b|)
  {
    Assoc(Sent(plain, |b|), b, [c]);
  }

  lemma EncodeShort(k: Cipher, iv: Block, p: Bytes, pad: Block)
    requires |p| < 8
    ensures Encode(k, iv, p, pad) == k.enc(Xor(Padded(p, pad), iv))
  {
  }

  lemma NoBlocks(k: Cipher, iv: Block)
    ensures Decode(k, iv, []) == []
  {
  }

  lemma TailOf(c: bv8, s: Bytes, t: Bytes)
    ensures ([c] + s + t)[0] == c && ([c] + s + t)[1..] == s + t
  {
  }

  method PutAll(w: Des, text: Bytes, ghost iv: Block)
    requires w.Writing(iv, [])
    modifies w`ivec, w`n, w`ct, w`file, w.buf
    ensures w.Writing(iv, text)
  {
    hide w.Writing;
    ghost var plain: Bytes := [];
    var i := 0;
    while i < |text|
      invariant 0 <= i <= |text| && w.Writing(iv, plain) && plain == text[..i]
    {
      w.Put(text[i], iv, plain);
      plain := plain + [text[i]];
      i := i + 1;
    }
    assert plain == text;
  }

  method WriteAll(w: Des, text: Bytes)
    requires w.buf.Length == 8 && w.n == 0 && w.ct >= 0 && w.file == []
    modifies w`ivec, w`n, w`ct, w`file, w.buf
    ensures w.file == Encode(w.k, old(w.ivec), text, w.pvec)
  {
    hide w.Writing, Encode;
    ghost var iv := w.ivec;
    w.StartWriting();
    PutAll(w, text, iv);
    w.Flush(iv, text);
  }

  method ReadAll(r: Des) returns (back: Bytes)
    requires r.Reading()
    modifies r, r.buf
    ensures back == old(r.Remaining())
  {
    hide r.Remaining;
    back := [];
    Nothing(r.Remaining());
    while true
      invariant r.Reading() && back + r.Remaining() == old(r.Remaining())
      decreases |r.Remaining()|
    {
      ghost var rest := r.Remaining();
      var c := r.Get();
      if c == EOF {
        Nothing(back);
        return;
      }
      Assoc(back, [rest[0]], rest[1..]);
      CutFront(rest, 1);
      back := back + [c as bv8];
    }
  }

  /** Writing any bytes, flushing, and reading the file back from the start gives exactly
      those bytes and then the end of the file; the file is as long as ed reports. */
  method WriteThenRead(k: Cipher, text: Bytes, pad: Block, pad': Block) returns (back: Bytes, size: nat)
    requires Permutes(k)
    ensures back == text
    ensures size == |text| + 8 - |text| % 8
  {
    hide Encode, Decode, Permutes, Slice, Des.Writing;
    var w := new Des(k, pad, []);
    var iv := w.ivec;
    WriteAll(w, text);
    size := |w.file|;
    EncodeLength(k, iv, text, pad);
    DecodeEncode(k, iv, text, pad);
    var r := new Des(k, pad', w.file);
    FromZero(r.file, |r.file|);
    assert r.file[..|r.file|] == r.file;
    Nothing(text);
    back := ReadAll(r);
  }
}
