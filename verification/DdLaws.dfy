/**
 What dd writes, byte by byte: in terms of the bytes read, the table's own code, the newline 10
 and the space 32.
 */
module DdLaws {
  import opened DdRecords
  import opened DdEngine

  // Lines, each ended by a newline.
  function Ended(lines: seq<seq<Byte>>): seq<Byte> {
    if |lines| == 0 then [] else lines[0] + [10] + Ended(lines[1..])
  }

  // Every text is lines and a rest without a newline.
  lemma {:induction false} LinesOf(x: seq<Byte>) returns (lines: seq<seq<Byte>>, tail: seq<Byte>)
    ensures x == Ended(lines) + tail
    ensures forall i :: 0 <= i < |tail| ==> tail[i] != 10
    ensures forall k, i :: 0 <= k < |lines| && 0 <= i < |lines[k]| ==> lines[k][i] != 10
    decreases |x|
  {
    FirstLine(x);
    hide Toss;
    var k := Eol(x);
    if k == |x| {
      lines, tail := [], x;
      assert [] + x == x;
    } else {
      var rest;
      rest, tail := LinesOf(x[k + 1..]);
      lines := [x[..k]] + rest;
      assert lines[1..] == rest;
      assert x[..k] + [10] + (Ended(rest) + tail) == x[..k] + [10] + Ended(rest) + tail;
    }
  }

  // The first line of several.
  lemma FirstEnded(lines: seq<seq<Byte>>, tail: seq<Byte>)
    requires |lines| > 0
    ensures Ended(lines) + tail == lines[0] + [NL] + (Ended(lines[1..]) + tail)
  {
    var a, b := lines[0] + [10], Ended(lines[1..]);
    assert a + b + tail == a + (b + tail);
  }

  lemma RecordByte(t: Table, c: nat, line: seq<Byte>, i: nat)
    requires i < c
    ensures Record(t, c, line)[i] ==
      var b := if i < |line| then line[i] else 32; if t.Same? then b else t.code(b)
    ensures |line| < c ==>
      LastRecord(t, c, line)[i] == if i < |line| then line[i] else if t.Same? then 32 else t.code(32)
  {
  }

  /** conv=block: every line, however long, is a record of c bytes: its first bytes, and spaces
      behind them, all translated; a rest that no newline ends is one too, but its own bytes are
      not translated when it is shorter than a record. */
  lemma {:induction false} BlockByte(t: Table, c: nat, lines: seq<seq<Byte>>, tail: seq<Byte>, k: nat, i: nat)
    requires c > 0 && i < c && k <= |lines| && (k == |lines| ==> |tail| > 0)
    requires forall j, n :: 0 <= j < |lines| && 0 <= n < |lines[j]| ==> lines[j][n] != 10
    requires forall n :: 0 <= n < |tail| ==> tail[n] != 10
    ensures var y := Output(Block, t, c, Ended(lines) + tail);
      var line := if k < |lines| then lines[k] else tail;
      var b := if i < |line| then line[i] else 32;
      && |y| == c * |lines| + (if |tail| > 0 then c else 0)
      && 0 <= c * k + i < |y|
      && y[c * k + i] == if t.Same? || (k == |lines| && i < |tail| < c) then b else t.code(b)
    decreases |lines|
  {
    hide Record, LastRecord, DdRecords.Block, Ended;
    BlockLength(t, c, lines, tail);
    Times(c, k);
    if |lines| == 0 {
      NoneEnded(tail);
      BlockLine(t, c, tail, []);
      RecordByte(t, c, tail, i);
    } else {
      var first, rest := lines[0], Ended(lines[1..]) + tail;
      FirstEnded(lines, tail);
      BlockLine(t, c, first, rest);
      Later(c, Record(t, c, first), DdRecords.Block(t, c, rest), k, i);
      if k > 0 {
        BlockByte(t, c, lines[1..], tail, k - 1, i);
      } else {
        RecordByte(t, c, first, i);
      }
    }
  }

  // A byte of the first record, or of what follows it.
  lemma Later(c: nat, r: seq<Byte>, y: seq<Byte>, k: nat, i: nat)
    requires |r| == c && i < c
    ensures k == 0 ==> |r + y| > c * k + i >= 0 && (r + y)[c * k + i] == r[i]
    ensures k > 0 && 0 <= c * (k - 1) + i < |y| ==>
      0 <= c * k + i < |r + y| && (r + y)[c * k + i] == y[c * (k - 1) + i]
  {
    if k > 0 {
      Times(c, k - 1);
    }
  }

  lemma NoneEnded(tail: seq<Byte>)
    ensures Ended([]) + tail == tail
  {
  }

  lemma {:induction false} BlockLength(t: Table, c: nat, lines: seq<seq<Byte>>, tail: seq<Byte>)
    requires c > 0
    requires forall j, n :: 0 <= j < |lines| && 0 <= n < |lines[j]| ==> lines[j][n] != 10
    requires forall n :: 0 <= n < |tail| ==> tail[n] != 10
    ensures |Output(Block, t, c, Ended(lines) + tail)| == c * |lines| + if |tail| > 0 then c else 0
    decreases |lines|
  {
    hide Record, LastRecord, DdRecords.Block;
    if |lines| == 0 {
      assert [] + tail == tail;
      BlockNone(t, c);
      BlockLine(t, c, tail, []);
    } else {
      FirstEnded(lines, tail);
      BlockLine(t, c, lines[0], Ended(lines[1..]) + tail);
      BlockLength(t, c, lines[1..], tail);
      Times(c, |lines| - 1);
    }
  }

  lemma Times(c: nat, k: nat)
    ensures c * (k + 1) == c * k + c && c * k >= 0
  {
  }

  // The lines of records of c bytes, the last one perhaps shorter.
  function Rows(c: nat, y: seq<Byte>): (r: seq<seq<Byte>>)
    requires c > 0
  {
    if |y| == 0 then [] else if |y| < c then [Trim(y)] else [Trim(y[..c])] + Rows(c, y[c..])
  }

  lemma {:induction false} RowsEnded(c: nat, y: seq<Byte>)
    requires c > 0
    ensures DdRecords.Unblock(c, y) == Ended(Rows(c, y))
  {
    hide Trim, DdRecords.Unblock;
    if |y| == 0 {
      UnblockNone(c);
    } else if |y| < c {
      UnblockRest(c, y);
      assert [Trim(y)][1..] == [];
    } else {
      UnblockRecord(c, y[..c], y[c..]);
      assert y == y[..c] + y[c..];
      RowsEnded(c, y[c..]);
      assert ([Trim(y[..c])] + Rows(c, y[c..]))[1..] == Rows(c, y[c..]);
    }
  }

  // The k-th line, and byte i of its record.
  lemma {:induction false} RowAt(c: nat, y: seq<Byte>, k: nat, i: nat)
    requires c > 0 && k < |Rows(c, y)| && i < c
    ensures var line := Rows(c, y)[k];
      && |line| <= c && c * k + |line| <= |y| && (|line| > 0 ==> line[|line| - 1] != 32)
      && (0 <= c * k + i < |y| ==> y[c * k + i] == if i < |line| then line[i] else 32)
    decreases k
  {
    hide Trim;
    if k > 0 {
      RowAt(c, y[c..], k - 1, i);
      Times(c, k - 1);
    }
  }

  lemma {:induction false} RowCount(c: nat, y: seq<Byte>)
    requires c > 0
    ensures c * |Rows(c, y)| - c < |y| <= c * |Rows(c, y)| || |y| == |Rows(c, y)| == 0
  {
    hide Trim;
    if |y| >= c {
      RowCount(c, y[c..]);
      Times(c, |Rows(c, y[c..])|);
    }
  }

  /** conv=unblock: every c bytes, and the last ones, are a line of the output: translated,
      without the spaces at their end. */
  lemma UnblockLines(t: Table, c: nat, x: seq<Byte>) returns (lines: seq<seq<Byte>>)
    requires c > 0
    ensures Output(Unblock, t, c, x) == Ended(lines)
    ensures c * |lines| - c < |x| <= c * |lines| || |x| == |lines| == 0
    ensures forall k :: 0 <= k < |lines| ==>
      && |lines[k]| <= c && c * k + |lines[k]| <= |x| && (|lines[k]| > 0 ==> lines[k][|lines[k]| - 1] != 32)
    ensures forall k, i :: 0 <= k < |lines| && 0 <= i < c && c * k + i < |x| ==>
      (if i < |lines[k]| then lines[k][i] else 32) == if t.Same? then x[c * k + i] else t.code(x[c * k + i])
  {
    hide Rows, DdRecords.Unblock;
    var y := TrAll(t, x);
    lines := Rows(c, y);
    RowsEnded(c, y);
    RowCount(c, y);
    forall k | 0 <= k < |lines|
      ensures |lines[k]| <= c && c * k + |lines[k]| <= |x| && (|lines[k]| > 0 ==> lines[k][|lines[k]| - 1] != 32)
    {
      RowAt(c, y, k, 0);
    }
    forall k, i | 0 <= k < |lines| && 0 <= i < c && c * k + i < |x|
      ensures (if i < |lines[k]| then lines[k][i] else 32) == if t.Same? then x[c * k + i] else t.code(x[c * k + i])
    {
      RowAt(c, y, k, i);
    }
  }
}
