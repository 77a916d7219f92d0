/**
 Text as ed handles it: newline-terminated strings cut into lines, and the texts of a
 sequence of line nodes.
 */
module EdText {
  import opened Slices
  import opened EdLinks

  // The largest C int.
  const INT_MAX: nat := 0x7fff_ffff

  // Where the first line of a newline-terminated text ends.
  function NewlineAt(s: string): (n: nat)
    requires '\n' in s
    ensures n < |s| && s[n] == '\n' && '\n' !in s[..n]
  {
    if s[0] == '\n' then 0
    else
      var n := 1 + NewlineAt(s[1..]);
      assert s[..n] == [s[0]] + s[1..][..n - 1];
      n
  }

  predicate Terminated(s: string) {
    |s| > 0 ==> s[|s| - 1] == '\n'
  }

  function Pieces(s: string): seq<string>
    requires Terminated(s)
  {
    if |s| == 0 then []
    else
      var n := NewlineAt(s);
      [s[..n]] + Pieces(s[n + 1..])
  }

  // Each line with its newline again.
  function Glue(lines: seq<string>): (r: string)
    ensures Terminated(r)
  {
    if |lines| == 0 then "" else lines[0] + "\n" + Glue(lines[1..])
  }

  lemma NewlineAfter(line: string, rest: string)
    requires '\n' !in line
    ensures NewlineAt(line + "\n" + rest) == |line|
  {
    var s := line + "\n" + rest;
    assert s[|line|] == '\n' && s[..|line|] == line;
  }

  lemma GlueCons(line: string, lines: seq<string>)
    ensures Glue([line] + lines) == line + "\n" + Glue(lines)
  {
    assert ([line] + lines)[1..] == lines;
  }

  lemma SplitAt(s: string, n: nat)
    requires n < |s| && s[n] == '\n'
    ensures s[..n] + "\n" + s[n + 1..] == s
  {
  }

  /** Cutting a text into lines loses nothing and invents nothing. */
  lemma {:induction false} PiecesGlue(s: string)
    requires Terminated(s)
    ensures Glue(Pieces(s)) == s
    decreases |s|
  {
    if |s| > 0 {
      var n := NewlineAt(s);
      PiecesGlue(s[n + 1..]);
      GlueCons(s[..n], Pieces(s[n + 1..]));
      SplitAt(s, n);
    }
  }

  lemma PiecesCons(line: string, rest: string)
    requires '\n' !in line && Terminated(rest)
    ensures Terminated(line + "\n" + rest) && Pieces(line + "\n" + rest) == [line] + Pieces(rest)
  {
    hide NewlineAt;
    NewlineAfter(line, rest);
    var s := line + "\n" + rest;
    assert s[..|line|] == line && s[|line| + 1..] == rest;
  }

  lemma {:induction false} GluePieces(lines: seq<string>)
    requires forall k :: 0 <= k < |lines| ==> '\n' !in lines[k]
    ensures Pieces(Glue(lines)) == lines
    decreases |lines|
  {
    if |lines| > 0 {
      GluePieces(lines[1..]);
      PiecesCons(lines[0], Glue(lines[1..]));
    }
  }

  function Concat(lines: seq<string>): string {
    if |lines| == 0 then "" else Concat(lines[..|lines| - 1]) + lines[|lines| - 1]
  }

  // The texts of a sequence of nodes.
  ghost function TextsAt<T>(text: map<T, string>, s: seq<T>): (r: seq<string>)
    ensures |r| == |s|
    ensures forall k :: 0 <= k < |s| ==> r[k] == if s[k] in text then text[s[k]] else ""
  {
    if |s| == 0 then []
    else TextsAt(text, s[..|s| - 1]) + [if s[|s| - 1] in text then text[s[|s| - 1]] else ""]
  }

  lemma TextsWith<T>(text: map<T, string>, s: seq<T>, i: nat, x: T, t: string)
    requires i <= |s| && x !in s
    ensures TextsAt(text[x := t], With(s, i, [x])) == With(TextsAt(text, s), i, [t])
  {
    hide With, TextsAt;
    var l, r := TextsAt(text[x := t], With(s, i, [x])), With(TextsAt(text, s), i, [t]);
    forall k | 0 <= k < |l| ensures l[k] == r[k] {
      WithAt(s, i, [x], k);
      WithAt(TextsAt(text, s), i, [t], k);
    }
  }

  lemma TextsWithout<T>(text: map<T, string>, s: seq<T>, i: nat, n: nat)
    requires i + n <= |s|
    ensures TextsAt(text, Without(s, i, n)) == Without(TextsAt(text, s), i, n)
  {
    hide Without, TextsAt;
    var l, r := TextsAt(text, Without(s, i, n)), Without(TextsAt(text, s), i, n);
    forall k | 0 <= k < |l| ensures l[k] == r[k] {
      WithoutAt(s, i, n, k);
      WithoutAt(TextsAt(text, s), i, n, k);
    }
  }

  lemma TextsSplice<T>(text: map<T, string>, s: seq<T>, j: nat, seg: seq<T>)
    requires j <= |s|
    ensures TextsAt(text, With(s, j, seg)) == With(TextsAt(text, s), j, TextsAt(text, seg))
  {
    hide With, TextsAt;
    var l, r := TextsAt(text, With(s, j, seg)), With(TextsAt(text, s), j, TextsAt(text, seg));
    forall k | 0 <= k < |l| ensures l[k] == r[k] {
      WithAt(s, j, seg, k);
      WithAt(TextsAt(text, s), j, TextsAt(text, seg), k);
    }
  }

  lemma TextsSlice<T>(text: map<T, string>, s: seq<T>, i: nat, n: nat)
    requires i + n <= |s|
    ensures TextsAt(text, Slice(s, i, n)) == Slice(TextsAt(text, s), i, n)
  {
    hide Slice, TextsAt;
    var l, r := TextsAt(text, Slice(s, i, n)), Slice(TextsAt(text, s), i, n);
    forall k | 0 <= k < n ensures l[k] == r[k] {
      SliceAt(s, i, n, k);
      SliceAt(TextsAt(text, s), i, n, k);
    }
  }

  lemma TextsMove<T>(text: map<T, string>, s: seq<T>, i: nat, n: nat, j: nat)
    requires i + n <= |s| && j + n <= |s|
    ensures var t := TextsAt(text, s);
      TextsAt(text, With(Without(s, i, n), j, Slice(s, i, n))) == With(Without(t, i, n), j, Slice(t, i, n))
  {
    hide With, Without, Slice, TextsAt;
    TextsWithout(text, s, i, n);
    TextsSlice(text, s, i, n);
    TextsSplice(text, Without(s, i, n), j, Slice(s, i, n));
  }

  ghost predicate Extends<T>(text: map<T, string>, text': map<T, string>) {
    forall x :: x in text ==> x in text' && text'[x] == text[x]
  }

  // Texts of nodes that were there before do not change.
  lemma TextsKept<T>(text: map<T, string>, text': map<T, string>, s: seq<T>)
    requires Extends(text, text') && Members(s) <= text.Keys
    ensures TextsAt(text', s) == TextsAt(text, s)
  {
    forall k | 0 <= k < |s| ensures s[k] in text {
      assert s[k] in Members(s);
    }
  }

  lemma WithNothing<T>(s: seq<T>, i: nat)
    requires i <= |s|
    ensures With(s, i, []) == s
  {
  }

  lemma WithMore<T>(s: seq<T>, i: nat, done: seq<T>, x: T)
    requires i <= |s|
    ensures With(With(s, i, done), i + |done|, [x]) == With(s, i, done + [x])
  {
  }

  lemma WithPieces<T>(s: seq<T>, i: nat, done: seq<T>, more: seq<T>)
    requires i <= |s|
    ensures With(With(s, i, done), i + |done|, more) == With(s, i, done + more)
  {
  }

  lemma PiecesNonempty(s: string)
    requires Terminated(s) && |s| > 0
    ensures |Pieces(s)| > 0
  {
  }

  lemma ExtendsSelf<T>(text: map<T, string>)
    ensures Extends(text, text)
  {
  }

  lemma ExtendsTrans<T>(a: map<T, string>, b: map<T, string>, c: map<T, string>)
    requires Extends(a, b) && Extends(b, c)
    ensures Extends(a, c)
  {
  }

  lemma PiecesStart(s: string)
    requires Terminated(s)
    ensures Pieces(s) == [] + Pieces(s)
  {
  }

  // One line taken off the front of a text.
  lemma PiecesStep(s: string, done: seq<string>)
    requires Terminated(s) && |s| > 0
    ensures '\n' in s && NewlineAt(s) < |s| && Terminated(s[NewlineAt(s) + 1..])
    ensures done + Pieces(s) == (done + [s[..NewlineAt(s)]]) + Pieces(s[NewlineAt(s) + 1..])
  {
    PiecesFirst(s);
    hide NewlineAt, Pieces;
  }

  lemma PiecesFirst(s: string)
    requires Terminated(s) && |s| > 0
    ensures '\n' in s && NewlineAt(s) < |s| && Terminated(s[NewlineAt(s) + 1..])
    ensures Pieces(s) == [s[..NewlineAt(s)]] + Pieces(s[NewlineAt(s) + 1..])
  {
    hide NewlineAt;
  }

  lemma PiecesEnd(s: string, done: seq<string>)
    requires |s| == 0
    ensures Terminated(s) && done + Pieces(s) == done
  {
  }

  lemma ConcatNone(lines: seq<string>, i: nat)
    requires i <= |lines|
    ensures Concat(Slice(lines, i, 0)) == ""
  {
  }

  lemma ConcatMore(lines: seq<string>, i: nat, n: nat)
    requires i + n < |lines|
    ensures Concat(Slice(lines, i, n + 1)) == Concat(Slice(lines, i, n)) + lines[i + n]
  {
    var s := Slice(lines, i, n + 1);
    assert s[..n] == Slice(lines, i, n);
  }

  lemma JoinedLine(buf: string)
    requires '\n' !in buf
    ensures '\n' in buf + "\n" && NewlineAt(buf + "\n") == |buf| && (buf + "\n")[..|buf|] == buf
  {
    NewlineAfter(buf, "");
    assert buf + "\n" + "" == buf + "\n";
  }

  // Elements first..second, counted from 1, moved to after element addr.
  function Moved<T>(s: seq<T>, first: int, second: int, addr: int): (r: seq<T>)
    requires 1 <= first <= second <= |s| && 0 <= addr <= |s| && !(first <= addr < second)
    ensures |r| == |s|
  {
    var n := second - first + 1;
    if addr == first - 1 || addr == second then s
    else With(Without(s, first - 1, n), if addr < first then addr else addr - n, Slice(s, first - 1, n))
  }

  // Copying a range to a place inside it, in two runs.
  lemma CopyTwice<T>(s: seq<T>, first: int, second: int, addr: int)
    requires 1 <= first <= addr < second <= |s|
    ensures var n, m := addr - first + 1, second - addr;
      var s1 := With(s, addr, Slice(s, first - 1, n));
      With(s1, addr + n, Slice(s1, addr + n, m)) == With(s, addr, Slice(s, first - 1, second - first + 1))
  {
    var n, m := addr - first + 1, second - addr;
    var s1 := With(s, addr, Slice(s, first - 1, n));
    assert Slice(s1, addr + n, m) == Slice(s, addr, m);
    assert Slice(s, first - 1, second - first + 1) == Slice(s, first - 1, n) + Slice(s, addr, m);
    WithPieces(s, addr, Slice(s, first - 1, n), Slice(s, addr, m));
  }
}
