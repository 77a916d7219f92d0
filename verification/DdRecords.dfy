/**
 The conversions of dd as functions on the whole input: translation by a table,
 `conv=block` (lines to fixed records) and `conv=unblock` (fixed records to lines).
 */
module DdRecords {
  import opened Slices

  type Byte = b: int | 0 <= b < 256

  const NL: Byte := 10
  const SP: Byte := 32

  // ctab: absent, or the code of each byte.
  datatype Table = Same | Codes(code: Byte -> Byte)

  function Tr(t: Table, b: Byte): Byte {
    if t.Same? then b else t.code(b)
  }

  function TrAll(t: Table, s: seq<Byte>): (r: seq<Byte>)
    ensures |r| == |s| && forall i :: 0 <= i < |s| ==> r[i] == Tr(t, s[i])
  {
    if |s| == 0 then [] else [Tr(t, s[0])] + TrAll(t, s[1..])
  }

  lemma TrAppend(t: Table, a: seq<Byte>, b: seq<Byte>)
    ensures TrAll(t, a + b) == TrAll(t, a) + TrAll(t, b)
  {}

  lemma TrNone(t: Table)
    ensures TrAll(t, []) == []
  {}

  lemma TrSame(s: seq<Byte>)
    ensures TrAll(Same, s) == s
  {}

  function Fill(b: Byte, n: nat): (r: seq<Byte>)
    ensures |r| == n && forall i :: 0 <= i < n ==> r[i] == b
  {
    if n == 0 then [] else [b] + Fill(b, n - 1)
  }

  ghost predicate Plain(x: seq<Byte>) {
    forall i :: 0 <= i < |x| ==> x[i] != NL
  }

  lemma PlainNone()
    ensures Plain([])
  {}

  lemma PlainSnoc(s: seq<Byte>, b: Byte)
    ensures Plain(s + [b]) <==> Plain(s) && b != NL
  {
    var x := s + [b];
    assert x[|s|] == b;
    assert forall i :: 0 <= i < |s| ==> x[i] == s[i];
  }

  // What a list of reads holds.
  function Concat(chunks: seq<seq<Byte>>): seq<Byte> {
    if |chunks| == 0 then [] else chunks[0] + Concat(chunks[1..])
  }

  // The end of the first line: the index of its newline, or the end of the text.
  function Eol(x: seq<Byte>): (k: nat)
    ensures k <= |x| && (forall i :: 0 <= i < k ==> x[i] != NL) && (k < |x| ==> x[k] == NL)
  {
    if |x| == 0 || x[0] == NL then 0 else 1 + Eol(x[1..])
  }

  // What follows the first newline.
  function Toss(x: seq<Byte>): (r: seq<Byte>)
    ensures |r| <= |x| && (|x| > 0 ==> |r| < |x|)
  {
    if Eol(x) < |x| then x[Eol(x) + 1..] else []
  }

  // A line cut or padded to c bytes.
  function Record(t: Table, c: nat, line: seq<Byte>): (r: seq<Byte>)
    ensures |r| == c
  {
    if |line| >= c then TrAll(t, line[..c]) else TrAll(t, line) + Fill(Tr(t, SP), c - |line|)
  }

  // The record of a last line shorter than c that no newline ends: padded, not translated.
  function LastRecord(t: Table, c: nat, line: seq<Byte>): (r: seq<Byte>)
    requires |line| < c
    ensures |r| == c
  {
    line + Fill(Tr(t, SP), c - |line|)
  }

  /** conv=block: one record for every line, counting a nonempty last line without newline. */
  function Block(t: Table, c: nat, x: seq<Byte>): seq<Byte>
    decreases |x|
  {
    if |x| == 0 then []
    else if Eol(x) == |x| < c then LastRecord(t, c, x)
    else Record(t, c, x[..Eol(x)]) + Block(t, c, Toss(x))
  }

  // What is still to come after leftover input b and before input r; after a record that was
  // cut short, the rest of its line is tossed.
  ghost function Cont(t: Table, c: nat, trunc: bool, b: seq<Byte>, r: seq<Byte>): seq<Byte> {
    if trunc then Block(t, c, Toss(b + r)) else Block(t, c, b + r)
  }

  lemma {:induction false} EolIs(x: seq<Byte>, k: nat)
    requires k <= |x| && Plain(x[..k]) && (k < |x| ==> x[k] == NL)
    ensures Eol(x) == k
  {
    if k > 0 {
      assert x[..k][0] == x[0] && x[1..][..k - 1] == x[..k][1..];
      EolIs(x[1..], k - 1);
    }
  }

  // Any text is a line, and perhaps a newline and what follows it.
  lemma FirstLine(x: seq<Byte>)
    ensures Plain(x[..Eol(x)])
    ensures Eol(x) < |x| ==> x == x[..Eol(x)] + [NL] + x[Eol(x) + 1..]
    ensures Eol(x) == |x| ==> x == x[..Eol(x)]
  {
    var k := Eol(x);
    hide Eol;
    PlainFront(x, k);
    hide Plain;
    if k < |x| {
      CutAt(x, k);
    }
  }

  lemma CutAt(x: seq<Byte>, k: nat)
    requires k < |x|
    ensures x == x[..k] + [x[k]] + x[k + 1..]
  {
  }

  lemma PlainFront(x: seq<Byte>, k: nat)
    requires k <= |x| && forall i :: 0 <= i < k ==> x[i] != NL
    ensures Plain(x[..k])
  {
  }

  lemma LineEnd(line: seq<Byte>, rest: seq<Byte>)
    requires Plain(line)
    ensures Eol(line + [NL] + rest) == |line| && Toss(line + [NL] + rest) == rest
    ensures (line + [NL] + rest)[..|line|] == line
    ensures Eol(line) == |line| && Toss(line) == []
  {
    var x := line + [NL] + rest;
    assert x[..|line|] == line && line[..|line|] == line;
    EolIs(x, |line|);
    EolIs(line, |line|);
    assert x[|line| + 1..] == rest;
  }

  lemma TossPlain(a: seq<Byte>, r: seq<Byte>)
    requires Plain(a)
    ensures Toss(a + r) == Toss(r)
  {
    FirstLine(r);
    var k := Eol(r);
    if k < |r| {
      assert a + r == (a + r[..k]) + [NL] + r[k + 1..];
      LineEnd(a + r[..k], r[k + 1..]);
    } else {
      LineEnd(a + r, []);
    }
  }

  // Block on a line that a newline ends, and on one that ends with the text.
  lemma BlockLine(t: Table, c: nat, line: seq<Byte>, rest: seq<Byte>)
    requires Plain(line)
    ensures Block(t, c, line + [NL] + rest) == Record(t, c, line) + Block(t, c, rest)
    ensures |line| >= c > 0 ==> Block(t, c, line) == Record(t, c, line)
    ensures 0 < |line| < c ==> Block(t, c, line) == LastRecord(t, c, line)
  {
    hide Record, LastRecord, Eol, Toss, Plain;
    LineEnd(line, rest);
    var x := line + [NL] + rest;
    assert |x| > |line|;
    assert line[..|line|] == line;
    if |line| >= c > 0 {
      assert Block(t, c, line) == Record(t, c, line) + Block(t, c, []);
    }
  }

  lemma ContMore(t: Table, c: nat, trunc: bool, a: seq<Byte>, x: seq<Byte>, r: seq<Byte>)
    ensures Cont(t, c, trunc, a, x + r) == Cont(t, c, trunc, a + x, r)
  {
    assert a + (x + r) == a + x + r;
  }

  // A line that ends within the buffer a after k bytes.
  lemma BlockShort(t: Table, c: nat, a: seq<Byte>, k: nat, r: seq<Byte>)
    requires k < |a| && k < c && Plain(a[..k]) && a[k] == NL
    ensures Cont(t, c, false, a, r) ==
      TrAll(t, a[..k]) + Fill(Tr(t, SP), c - k) + Cont(t, c, false, a[k + 1..], r)
  {
    hide Block, Fill, TrAll;
    assert a + r == a[..k] + [NL] + (a[k + 1..] + r);
    BlockLine(t, c, a[..k], a[k + 1..] + r);
  }

  // A line of at least c bytes: the record is full and the rest of the line is tossed.
  lemma BlockLong(t: Table, c: nat, a: seq<Byte>, r: seq<Byte>)
    requires 0 < c <= |a| && Plain(a[..c])
    ensures Cont(t, c, false, a, r) == TrAll(t, a[..c]) + Cont(t, c, true, a[c..], r)
  {
    hide Block, TrAll, Eol, Toss;
    var y := a[c..] + r;
    FirstLine(y);
    var k := Eol(y);
    var line := a[..c] + y[..k];
    assert line[..c] == a[..c];
    TossPlain(a[..c], y);
    if k < |y| {
      LineEnd(y[..k], y[k + 1..]);
      assert a + r == line + [NL] + y[k + 1..];
      BlockLine(t, c, line, y[k + 1..]);
    } else {
      LineEnd(y[..k], []);
      assert a + r == line;
      BlockLine(t, c, line, []);
      BlockNone(t, c);
    }
  }

  // Tossing in n bytes of a buffer from p on: the line goes on through them, or ends after k.
  lemma TossIn(t: Table, c: nat, v: seq<Byte>, p: nat, k: nat, n: nat, r: seq<Byte>)
    requires p + n <= |v| && k <= n && Plain(Slice(v, p, k)) && (k < n ==> v[p + k] == NL)
    ensures Cont(t, c, true, Slice(v, p, n), r) ==
      if k == n then Cont(t, c, true, [], r) else Cont(t, c, false, Slice(v, p + k + 1, n - k - 1), r)
  {
    hide Cont, Plain, Slice;
    SliceFront(v, p, n, k);
    if k < n {
      SliceAt(v, p, n, k);
      SliceBack(v, p, n, k + 1);
    }
    ContToss(t, c, Slice(v, p, n), k, r);
  }

  // A line of the buffer that ends after k bytes.
  lemma ShortIn(t: Table, c: nat, v: seq<Byte>, p: nat, k: nat, n: nat, r: seq<Byte>)
    requires p + n <= |v| && k < n && k < c && Plain(Slice(v, p, k)) && v[p + k] == NL
    ensures Cont(t, c, false, Slice(v, p, n), r) ==
      TrAll(t, Slice(v, p, k)) + Fill(Tr(t, SP), c - k) + Cont(t, c, false, Slice(v, p + k + 1, n - k - 1), r)
  {
    hide Cont, Plain, Slice, TrAll, Fill;
    SliceFront(v, p, n, k);
    SliceAt(v, p, n, k);
    SliceBack(v, p, n, k + 1);
    BlockShort(t, c, Slice(v, p, n), k, r);
  }

  // A line of the buffer of at least c bytes.
  lemma LongIn(t: Table, c: nat, v: seq<Byte>, p: nat, n: nat, r: seq<Byte>)
    requires p + n <= |v| && 0 < c <= n && Plain(Slice(v, p, c))
    ensures Cont(t, c, false, Slice(v, p, n), r)
      == TrAll(t, Slice(v, p, c)) + Cont(t, c, true, Slice(v, p + c, n - c), r)
  {
    hide Cont, Plain, Slice, TrAll;
    SliceFront(v, p, n, c);
    SliceBack(v, p, n, c);
    BlockLong(t, c, Slice(v, p, n), r);
  }

  // One byte more.
  lemma PlainStep(v: seq<Byte>, p: nat, k: nat)
    requires p + k < |v|
    ensures Plain(Slice(v, p, k + 1)) <==> Plain(Slice(v, p, k)) && v[p + k] != NL
  {
    hide Slice;
    SliceMore(v, p, k);
    PlainSnoc(Slice(v, p, k), v[p + k]);
  }

  lemma TrStep(t: Table, v: seq<Byte>, p: nat, k: nat)
    requires p + k < |v|
    ensures TrAll(t, Slice(v, p, k + 1)) == TrAll(t, Slice(v, p, k)) + [Tr(t, v[p + k])]
  {
    hide Slice;
    SliceMore(v, p, k);
    TrAppend(t, Slice(v, p, k), [v[p + k]]);
    TrOne(t, v[p + k]);
  }

  lemma TrOne(t: Table, b: Byte)
    ensures TrAll(t, [b]) == [Tr(t, b)]
  {
  }

  // n bytes translated one by one.
  lemma TrIn(t: Table, v: seq<Byte>, w: seq<Byte>, p: nat, n: nat)
    requires p + n <= |v| == |w| && forall k :: p <= k < p + n ==> w[k] == Tr(t, v[k])
    ensures Slice(w, p, n) == TrAll(t, Slice(v, p, n))
  {
    hide Slice;
    var l, r := Slice(w, p, n), TrAll(t, Slice(v, p, n));
    forall k | 0 <= k < n ensures l[k] == r[k] {
      SliceAt(w, p, n, k);
      SliceAt(v, p, n, k);
    }
  }

  lemma BlockNone(t: Table, c: nat)
    ensures Block(t, c, []) == []
  {
  }

  // The line of a cut record goes on through the whole buffer, or ends in it.
  lemma ContToss(t: Table, c: nat, a: seq<Byte>, k: nat, r: seq<Byte>)
    requires k <= |a| && Plain(a[..k]) && (k < |a| ==> a[k] == NL)
    ensures k == |a| ==> Cont(t, c, true, a, r) == Cont(t, c, true, [], r)
    ensures k < |a| ==> Cont(t, c, true, a, r) == Cont(t, c, false, a[k + 1..], r)
  {
    hide Block, Toss;
    if k < |a| {
      assert a + r == a[..k] + [NL] + (a[k + 1..] + r);
      LineEnd(a[..k], a[k + 1..] + r);
    } else {
      assert a[..k] == a && [] + r == r;
      TossPlain(a, r);
    }
  }

  // No more input: a piece of a line that is left becomes a padded record.
  lemma ContEnd(t: Table, c: nat, trunc: bool, a: seq<Byte>)
    requires Plain(a) && |a| < c && (trunc ==> a == [])
    ensures Cont(t, c, trunc, a, []) == if a == [] then [] else a + Fill(Tr(t, SP), c - |a|)
  {
    hide Block, Toss, Plain, Fill;
    assert a + [] == a;
    BlockNone(t, c);
    LineEnd(a, []);
    BlockLine(t, c, a, []);
  }

  // Trailing spaces removed.
  function Trim(s: seq<Byte>): (r: seq<Byte>)
    ensures |r| <= |s| && r == s[..|r|]
    ensures |r| > 0 ==> r[|r| - 1] != SP
    ensures forall i :: |r| <= i < |s| ==> s[i] == SP
  {
    if |s| == 0 || s[|s| - 1] != SP then s else Trim(s[..|s| - 1])
  }

  /** conv=unblock: every c bytes, and a shorter rest, trimmed and ended with a newline. */
  function Unblock(c: nat, x: seq<Byte>): seq<Byte>
    requires c > 0
  {
    if |x| == 0 then []
    else if |x| < c then Trim(x) + [NL]
    else Trim(x[..c]) + [NL] + Unblock(c, x[c..])
  }

  lemma UnblockRecord(c: nat, r: seq<Byte>, y: seq<Byte>)
    requires |r| == c > 0
    ensures Unblock(c, r + y) == Trim(r) + [NL] + Unblock(c, y)
    ensures Unblock(c, r) == Trim(r) + [NL]
  {
    hide Trim;
    assert (r + y)[..c] == r && (r + y)[c..] == y && r[..c] == r && r[c..] == [];
    assert Unblock(c, r) == Trim(r) + [NL] + Unblock(c, []);
  }

  lemma UnblockRest(c: nat, r: seq<Byte>)
    requires |r| < c
    ensures Unblock(c, r) == if |r| == 0 then [] else Trim(r) + [NL]
  {
  }

  lemma {:induction false} TrimIs(s: seq<Byte>, n: nat)
    requires n <= |s| && (n > 0 ==> s[n - 1] != SP) && forall i :: n <= i < |s| ==> s[i] == SP
    ensures Trim(s) == s[..n]
  {
    if n < |s| {
      TrimIs(s[..|s| - 1], n);
      assert s[..|s| - 1][..n] == s[..n];
    } else {
      assert s[..n] == s;
    }
  }

  // Trailing spaces in n bytes of a buffer.
  lemma TrimIn(v: seq<Byte>, p: nat, n: nat, k: nat)
    requires p + n <= |v| && k <= n && (k > 0 ==> v[p + k - 1] != SP)
    requires forall i :: p + k <= i < p + n ==> v[i] == SP
    ensures Trim(Slice(v, p, n)) == Slice(v, p, k)
  {
    hide Slice, Trim;
    if k > 0 {
      SliceAt(v, p, n, k - 1);
    }
    forall i | k <= i < n ensures Slice(v, p, n)[i] == SP {
      SliceAt(v, p, n, i);
    }
    TrimIs(Slice(v, p, n), k);
    SliceFront(v, p, n, k);
  }

  // The first record of a buffer and what follows it.
  lemma RecordFirst(c: nat, v: seq<Byte>, p: nat, n: nat, x: seq<Byte>)
    requires p + n <= |v| && 0 < c <= n
    ensures Unblock(c, Slice(v, p, n) + x) ==
      Trim(Slice(v, p, c)) + [NL] + Unblock(c, Slice(v, p + c, n - c) + x)
  {
    hide Slice, Trim, Unblock;
    Adjoin(v, p, c, n - c);
    Assoc(Slice(v, p, c), Slice(v, p + c, n - c), x);
    UnblockRecord(c, Slice(v, p, c), Slice(v, p + c, n - c) + x);
  }

  lemma TrimPad(s: seq<Byte>, n: nat)
    ensures Trim(s + Fill(SP, n)) == Trim(s)
    ensures Trim(s) == s <==> (|s| > 0 ==> s[|s| - 1] != SP)
  {
    hide Trim, Fill;
    var r, k := s + Fill(SP, n), |Trim(s)|;
    assert r[..k] == Trim(s) && s[..|s|] == s;
    assert k > 0 ==> r[k - 1] == Trim(s)[k - 1];
    TrimIs(r, k);
    if |s| > 0 && s[|s| - 1] != SP {
      TrimIs(s, |s|);
    }
  }

  lemma TrimFull(b: Byte, c: nat)
    requires b != SP
    ensures Trim(Fill(b, c)) == Fill(b, c)
  {
    TrimIs(Fill(b, c), c);
    assert Fill(b, c)[..c] == Fill(b, c);
  }

  lemma BlankLine(c: nat)
    requires c > 0
    ensures TrAll(Same, []) == [] && [] + TrAll(Same, []) == [] && Unblock(c, []) == []
    ensures Unblock(c, [] + TrAll(Same, Fill(SP, c)) + TrAll(Same, [])) == [NL]
  {
    var r := Fill(SP, c);
    TrSame(r);
    TrimIs(r, 0);
    assert [] + r + [] == r;
    UnblockRecord(c, r, []);
  }

  // A text that unblock gives back after block: every line ends with a newline, has at most
  // c bytes and no space at its end.
  ghost predicate Normal(c: nat, x: seq<Byte>)
    decreases |x|
  {
    |x| > 0 ==>
      && Eol(x) < |x|
      && Kept(c, x[..Eol(x)])
      && Normal(c, Toss(x))
  }

  ghost predicate Kept(c: nat, line: seq<Byte>) {
    |line| <= c && (|line| > 0 ==> line[|line| - 1] != SP)
  }

  // One line through block and unblock.
  lemma LineThrough(c: nat, line: seq<Byte>)
    requires c > 0
    ensures |Trim(Record(Same, c, line))| <= |line|
    ensures Plain(line) ==> Plain(Trim(Record(Same, c, line)))
    ensures Trim(Record(Same, c, line)) == line <==> Kept(c, line)
    ensures |line| < c ==> LastRecord(Same, c, line) == Record(Same, c, line)
  {
    TrSame(line);
    if |line| >= c {
      hide Trim;
      TrSame(line[..c]);
      TrimPad(line[..c], 0);
      assert line == line[..c] + line[c..];
    } else {
      hide Trim, TrAll, Fill;
      TrimPad(line, c - |line|);
    }
  }

  /** unblock after block gives the text back exactly when the text is Normal. */
  lemma {:induction false} UnblockBlock(c: nat, x: seq<Byte>)
    requires c > 0
    ensures Unblock(c, Block(Same, c, x)) == x <==> Normal(c, x)
    decreases |x|
  {
    hide Unblock, Block, Trim, Record, LastRecord, Plain, Eol, Toss, Kept;
    if |x| == 0 {
      BlockNone(Same, c);
      UnblockNone(c);
    } else {
      FirstLine(x);
      var k := Eol(x);
      var line := x[..k];
      LineThrough(c, line);
      var r := Record(Same, c, line);
      if k < |x| {
        var rest := x[k + 1..];
        BlockLine(Same, c, line, rest);
        LineEnd(line, rest);
        UnblockRecord(c, r, Block(Same, c, rest));
        UnblockBlock(c, rest);
        SameLine(Trim(r), Unblock(c, Block(Same, c, rest)), line, rest);
      } else {
        BlockLine(Same, c, line, []);
        UnblockRecord(c, r, []);
        SamePlain(Trim(r), x);
      }
    }
  }

  lemma UnblockNone(c: nat)
    requires c > 0
    ensures Unblock(c, []) == []
  {
  }

  // Two texts are equal when their first lines and what follows are.
  lemma SameLine(a: seq<Byte>, x: seq<Byte>, b: seq<Byte>, y: seq<Byte>)
    requires Plain(a) && Plain(b)
    ensures a + [NL] + x == b + [NL] + y <==> a == b && x == y
  {
    hide Eol, Toss;
    LineEnd(a, x);
    LineEnd(b, y);
  }

  lemma SamePlain(a: seq<Byte>, x: seq<Byte>)
    requires Plain(x)
    ensures a + [NL] != x
  {
    assert (a + [NL])[|a|] == NL;
  }

  // What block writes is whole records without a newline.
  lemma {:induction false} BlockShape(c: nat, x: seq<Byte>)
    requires c > 0
    ensures |Block(Same, c, x)| % c == 0 && Plain(Block(Same, c, x))
    decreases |x|
  {
    hide Block, Record, LastRecord, Eol, Toss;
    if |x| == 0 {
      BlockNone(Same, c);
      Whole(c, 0);
    } else {
      FirstLine(x);
      var k := Eol(x);
      var line := x[..k];
      RecordPlain(c, line);
      Whole(c, 0);
      BlockLine(Same, c, line, if k < |x| then x[k + 1..] else []);
      if k < |x| {
        BlockShape(c, x[k + 1..]);
        Whole(c, |Block(Same, c, x[k + 1..])|);
      }
    }
  }

  lemma RecordPlain(c: nat, line: seq<Byte>)
    requires Plain(line)
    ensures Plain(Record(Same, c, line))
    ensures |line| < c ==> Plain(LastRecord(Same, c, line))
  {
  }

  // n bytes are whole blocks of c.
  ghost predicate Blocks(c: nat, n: nat)
    requires c > 0
  {
    n % c == 0
  }

  lemma Whole(c: nat, n: nat)
    requires c > 0
    ensures (c + n) % c == n % c && 0 % c == 0
  {
    var q := n / c;
    assert n == q * c + n % c;
    assert (q + 1) * c == q * c + c;
    Quotient(c, c + n, q + 1, n % c);
    Quotient(c, 0, 0, 0);
  }

  lemma Quotient(c: nat, n: nat, q: nat, m: nat)
    requires n == q * c + m && m < c
    ensures n % c == m
  {
    var d := n / c - q;
    assert d * c == (n / c) * c - q * c;
    Multiple(c, d);
  }

  // The only multiple of c strictly between -c and c is 0.
  lemma Multiple(c: nat, d: int)
    ensures 0 - c < d * c < c ==> d * c == 0
  {
    if d >= 1 {
      assert d * c >= c;
    } else if d <= -1 {
      assert -d * c >= c;
    }
  }

  lemma NoBlocks(c: nat)
    requires c > 0
    ensures Blocks(c, 0)
  {
    Whole(c, 0);
  }

  lemma MoreBlocks(c: nat, n: nat)
    requires c > 0 && Blocks(c, n)
    ensures Blocks(c, n + c)
  {
    Whole(c, n);
  }

  lemma OneBlock(c: nat, n: nat)
    requires 0 < c && n < c && Blocks(c, c - n)
    ensures n == 0
  {
    if n > 0 {
      Quotient(c, c - n, 0, c - n);
    }
  }

  lemma FewBlocks(c: nat, n: nat)
    requires n < c && Blocks(c, n)
    ensures n == 0
  {
    Quotient(c, n, 0, n);
  }

  /** block after unblock gives the records back exactly when they are whole and hold no newline. */
  lemma BlockUnblock(c: nat, y: seq<Byte>)
    requires c > 0
    ensures Block(Same, c, Unblock(c, y)) == y <==> |y| % c == 0 && Plain(y)
  {
    hide Block, Unblock;
    BlockShape(c, Unblock(c, y));
    if |y| % c == 0 && Plain(y) {
      Blocked(c, y);
    }
  }

  lemma {:induction false} Blocked(c: nat, y: seq<Byte>)
    requires c > 0 && |y| % c == 0 && Plain(y)
    ensures Block(Same, c, Unblock(c, y)) == y
  {
    hide Block, Unblock;
    if |y| == 0 {
      BlockNone(Same, c);
      UnblockNone(c);
    } else {
      if |y| < c {
        Quotient(c, |y|, 0, |y|);
      }
      Whole(c, |y| - c);
      Blocked(c, y[c..]);
      var r, rest := y[..c], y[c..];
      assert y == r + rest;
      UnblockRecord(c, r, rest);
      BlockLine(Same, c, Trim(r), Unblock(c, rest));
      Padded(c, r);
    }
  }

  lemma Padded(c: nat, r: seq<Byte>)
    requires |r| == c
    ensures Record(Same, c, Trim(r)) == r
  {
    TrSame(Trim(r));
    assert r[..c] == r;
  }

  // Every record translated, the last one too.
  function BlockAll(t: Table, c: nat, x: seq<Byte>): seq<Byte>
    decreases |x|
  {
    if |x| == 0 then [] else Record(t, c, x[..Eol(x)]) + BlockAll(t, c, Toss(x))
  }

  // The last line when no newline ends it and it is shorter than a record.
  ghost function Unended(c: nat, x: seq<Byte>): seq<Byte>
    decreases |x|
  {
    if |x| == 0 then [] else if Eol(x) == |x| then (if |x| < c then x else []) else Unended(c, Toss(x))
  }

  /** With a table, block translates every record except a short last line that no newline
      ends: the output is as if it did exactly when the table leaves that line alone. */
  lemma {:induction false} LastUntranslated(t: Table, c: nat, x: seq<Byte>)
    ensures Block(t, c, x) == BlockAll(t, c, x) <==> TrAll(t, Unended(c, x)) == Unended(c, x)
    decreases |x|
  {
    hide TrAll, Fill, Record, LastRecord;
    if |x| > 0 {
      if Eol(x) < |x| {
        var r, rest := Record(t, c, x[..Eol(x)]), Toss(x);
        LastUntranslated(t, c, rest);
        SameTail(r, Block(t, c, rest), BlockAll(t, c, rest));
      } else {
        assert x[..|x|] == x;
        if |x| < c {
          LastPair(t, c, x);
        }
      }
    }
  }

  // conv=ucase as a table.
  function Upper(b: Byte): Byte {
    if 97 <= b <= 122 then b - 32 else b
  }

  /** An input where it shows: the letter a without a newline, records of two bytes and the
      table for upper case give an a and the padding, not an A. */
  lemma LowerCaseTail()
    ensures Block(Codes(Upper), 2, [97]) == [97, 32]
    ensures BlockAll(Codes(Upper), 2, [97]) == [65, 32]
  {
    var x: seq<Byte> := [97];
    var t := Codes(Upper);
    EolIs(x, 1);
    assert x[..1] == x && x[1..] == [];
    assert Fill(32, 1) == [32] by { assert Fill(32, 0) == []; }
    assert TrAll(t, x) == [65] by { assert TrAll(t, x[1..]) == []; }
    assert Record(t, 2, x) == [65, 32];
    assert BlockAll(t, 2, x) == Record(t, 2, x) + BlockAll(t, 2, []);
  }

  lemma SameTail(r: seq<Byte>, a: seq<Byte>, b: seq<Byte>)
    ensures r + a == r + b <==> a == b
  {
    assert (r + a)[|r|..] == a && (r + b)[|r|..] == b;
  }

  lemma LastPair(t: Table, c: nat, x: seq<Byte>)
    requires |x| < c
    ensures LastRecord(t, c, x) == Record(t, c, x) <==> TrAll(t, x) == x
  {
    assert LastRecord(t, c, x)[..|x|] == x && Record(t, c, x)[..|x|] == TrAll(t, x);
  }
}
