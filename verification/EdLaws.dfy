/**
 The reference editor line by line: which addresses a command accepts, where every line of the
 new text and every mark of a line still to be visited comes from, and which line is current.
 */
module EdLaws {
  import opened Slices
  import opened EdLinks
  import opened EdText
  import opened EdFlags
  import opened EdSubst
  import opened EdBuffer
  import opened EdReference

  /** The addresses a command accepts in a buffer of `last` lines. */
  lemma Addresses(first: int, second: int, addr: int, last: nat, input: seq<string>, sub: string -> string,
                  fails: string -> bool)
    ensures Allowed(Append(addr, input), last) <==> 0 <= addr <= last
    ensures Allowed(Goto(addr), last) <==> 0 <= addr <= last
    ensures var range := 1 <= first && first <= second && second <= last;
      && (Allowed(Delete(first, second), last) <==> range)
      && (Allowed(Change(first, second, input), last) <==> range)
      && (Allowed(Join(first, second), last) <==> range)
      && (Allowed(Substitute(first, second, sub, fails), last) <==> range)
      && (Allowed(Copy(first, second, addr), last) <==> range && 0 <= addr <= last)
      && (Allowed(Move(first, second, addr), last) <==> range && (0 <= addr < first || second <= addr <= last))
  {
  }

  // What may be typed: strings that fit a C int; and what may replace a line: whole lines, or
  // nothing where there is no match.
  lemma Typeable(cmd: Cmd)
    ensures cmd.Append? || cmd.Change? ==>
      (Proper(cmd) <==> forall k :: 0 <= k < |cmd.input| ==> |cmd.input[k]| <= 2147483647)
    ensures cmd.Substitute? ==>
      (Proper(cmd) <==> forall s :: '\n' !in s ==>
         |cmd.sub(s)| <= 2147483647 && (cmd.sub(s) != "" ==> cmd.sub(s)[|cmd.sub(s)| - 1] == '\n'))
    ensures !cmd.Append? && !cmd.Change? && !cmd.Substitute? ==> Proper(cmd)
  {
  }

  lemma DeleteLaw(d: Doc, flags: seq<bool>, first: int, second: int)
    requires 1 <= first <= second <= |d.page| == |flags|
    ensures var cmd, n := Delete(first, second), second - first + 1;
      var r, f := Perform(cmd, d), FlagsAfter(cmd, d.page, flags);
      && |r.page| == |f| == |d.page| - n
      && (forall k :: 0 <= k < |r.page| ==>
            var from := if k < first - 1 then k else k + n; r.page[k] == d.page[from] && f[k] == flags[from])
      && (second < |d.page| ==> 1 <= r.cur <= |r.page| && r.cur - 1 + n == second)
      && (second == |d.page| ==> r.cur == |r.page|)
  {
  }

  lemma AppendLaw(d: Doc, flags: seq<bool>, at: int, input: seq<string>, lines: seq<string>)
    requires 0 <= at <= |d.page| == |flags| && Proper(Append(at, input)) && BeforeDot(input) == lines
    ensures var cmd, n := Append(at, input), |lines|;
      var r, f := Perform(cmd, d), FlagsAfter(cmd, d.page, flags);
      && |r.page| == |f| == |d.page| + n && r.cur == at + n
      && (forall k :: 0 <= k < at ==> r.page[k] == d.page[k] && f[k] == flags[k])
      && (forall k :: at <= k < at + n ==> r.page[k] == lines[k - at] && !f[k])
      && (forall k :: at + n <= k < |r.page| ==> r.page[k] == d.page[k - n] && f[k] == flags[k - n])
  {
    hide BeforeDot;
  }

  lemma ChangeLaw(d: Doc, flags: seq<bool>, first: int, second: int, input: seq<string>, lines: seq<string>)
    requires 1 <= first <= second <= |d.page| == |flags|
    requires Proper(Change(first, second, input)) && BeforeDot(input) == lines
    ensures var cmd, n, m := Change(first, second, input), |lines|, second - first + 1;
      var r, f := Perform(cmd, d), FlagsAfter(cmd, d.page, flags);
      && |r.page| == |f| == |d.page| - m + n && r.cur == first - 1 + n
      && (forall k :: 0 <= k < first - 1 ==> r.page[k] == d.page[k] && f[k] == flags[k])
      && (forall k :: first - 1 <= k < first - 1 + n ==> r.page[k] == lines[k - (first - 1)] && !f[k])
      && (forall k :: first - 1 + n <= k < |r.page| ==> r.page[k] == d.page[k - n + m] && f[k] == flags[k - n + m])
  {
    hide BeforeDot;
  }

  // Where line k + 1 comes from when lines first..second go to after line addr.
  function Origin(first: int, second: int, addr: int, k: int): int {
    var n := second - first + 1;
    var c := if addr < first then addr + n else addr;
    if k < c - n then (if k < first - 1 then k else k + n)
    else if k < c then k - (c - n) + first - 1
    else if k < second then k - n
    else k
  }

  lemma ShiftedAt<T>(s: seq<T>, first: int, second: int, addr: int, k: int)
    requires 1 <= first <= second <= |s| && 0 <= addr <= |s| && !(first <= addr < second) && 0 <= k < |s|
    ensures |Shifted(s, first, second, addr)| == |s| && 0 <= Origin(first, second, addr, k) < |s|
    ensures Shifted(s, first, second, addr)[k] == s[Origin(first, second, addr, k)]
  {
    hide Slice, Shifted;
    ShiftedSlices(s, first, second, addr);
    var n := second - first + 1;
    if addr < first {
      var front, gap := Slice(s, 0, addr), Slice(s, addr, first - 1 - addr);
      FourAt(front, Slice(s, first - 1, n), gap, Slice(s, second, |s| - second), k);
      if k < addr {
        SliceAt(s, 0, addr, k);
      } else if k < addr + n {
        SliceAt(s, first - 1, n, k - addr);
      } else if k < second {
        SliceAt(s, addr, first - 1 - addr, k - addr - n);
      } else {
        SliceAt(s, second, |s| - second, k - second);
      }
    } else {
      var front, gap := Slice(s, 0, first - 1), Slice(s, second, addr - second);
      FourAt(front, gap, Slice(s, first - 1, n), Slice(s, addr, |s| - addr), k);
      if k < first - 1 {
        SliceAt(s, 0, first - 1, k);
      } else if k < addr - n {
        SliceAt(s, second, addr - second, k - (first - 1));
      } else if k < addr {
        SliceAt(s, first - 1, n, k - (addr - n));
      } else {
        SliceAt(s, addr, |s| - addr, k - addr);
      }
    }
  }

  lemma ShiftedSlices<T>(s: seq<T>, first: int, second: int, addr: int)
    requires 1 <= first <= second <= |s| && 0 <= addr <= |s| && !(first <= addr < second)
    ensures Shifted(s, first, second, addr) ==
      if addr < first then
        Slice(s, 0, addr) + Slice(s, first - 1, second - first + 1) + Slice(s, addr, first - 1 - addr)
          + Slice(s, second, |s| - second)
      else
        Slice(s, 0, first - 1) + Slice(s, second, addr - second) + Slice(s, first - 1, second - first + 1)
          + Slice(s, addr, |s| - addr)
  {
  }

  lemma FourAt<T>(a: seq<T>, b: seq<T>, c: seq<T>, d: seq<T>, k: int)
    requires 0 <= k < |a| + |b| + |c| + |d|
    ensures (a + b + c + d)[k] ==
      if k < |a| then a[k]
      else if k < |a| + |b| then b[k - |a|]
      else if k < |a| + |b| + |c| then c[k - |a| - |b|]
      else d[k - |a| - |b| - |c|]
  {
  }

  lemma StruckAt(flags: seq<bool>, first: int, second: int, k: int)
    requires 1 <= first <= second <= |flags| && 0 <= k < |flags|
    ensures var f := Replaced(flags, first, second, Falses(second - first + 1));
      |f| == |flags| && f[k] == (flags[k] && !(first - 1 <= k < second))
  {
  }

  lemma MoveLaw(d: Doc, flags: seq<bool>, first: int, second: int, addr: int)
    requires 1 <= first <= second <= |d.page| == |flags| && 0 <= addr <= |d.page| && !(first <= addr < second)
    ensures var cmd, n := Move(first, second, addr), second - first + 1;
      var r, f := Perform(cmd, d), FlagsAfter(cmd, d.page, flags);
      && |r.page| == |f| == |d.page| && r.cur == (if addr < first then addr + n else addr)
      && (forall k :: r.cur - n <= k < r.cur ==> r.page[k] == d.page[k - (r.cur - n) + first - 1] && !f[k])
      && (forall k :: 0 <= k < r.cur - n ==>
            var from := if k < first - 1 then k else k + n; r.page[k] == d.page[from] && f[k] == flags[from])
      && (forall k :: r.cur <= k < |r.page| ==>
            var from := if k < second then k - n else k; r.page[k] == d.page[from] && f[k] == flags[from])
  {
    hide Shifted, Replaced, Falses, Origin;
    var n, f := second - first + 1, Replaced(flags, first, second, Falses(second - first + 1));
    StruckAt(flags, first, second, 0);
    ShiftedAt(d.page, first, second, addr, 0);
    ShiftedAt(f, first, second, addr, 0);
    forall k | 0 <= k < |d.page|
      ensures var from := Origin(first, second, addr, k);
        && 0 <= from < |flags| && |Shifted(f, first, second, addr)| == |Shifted(d.page, first, second, addr)| == |f|
        && Shifted(d.page, first, second, addr)[k] == d.page[from]
        && Shifted(f, first, second, addr)[k] == (flags[from] && !(first - 1 <= from < second))
    {
      ShiftedAt(d.page, first, second, addr, k);
      ShiftedAt(f, first, second, addr, k);
      StruckAt(flags, first, second, Origin(first, second, addr, k));
    }
    OriginIs(first, second, addr);
  }

  lemma OriginIs(first: int, second: int, addr: int)
    requires 1 <= first <= second && 0 <= addr && !(first <= addr < second)
    ensures var n := second - first + 1;
      var c := if addr < first then addr + n else addr;
      && (forall k :: 0 <= k < c - n ==> Origin(first, second, addr, k) == if k < first - 1 then k else k + n)
      && (forall k :: c - n <= k < c ==> Origin(first, second, addr, k) == k - (c - n) + first - 1)
      && (forall k :: c <= k ==> Origin(first, second, addr, k) == if k < second then k - n else k)
  {
  }

  lemma CopyLaw(d: Doc, flags: seq<bool>, first: int, second: int, addr: int)
    requires 1 <= first <= second <= |d.page| == |flags| && 0 <= addr <= |d.page|
    ensures var cmd, n := Copy(first, second, addr), second - first + 1;
      var r, f := Perform(cmd, d), FlagsAfter(cmd, d.page, flags);
      && |r.page| == |f| == |d.page| + n && r.cur == addr + n
      && (forall k :: 0 <= k < addr ==> r.page[k] == d.page[k] && f[k] == flags[k])
      && (forall k :: addr <= k < addr + n ==> r.page[k] == d.page[k - addr + first - 1] && !f[k])
      && (forall k :: addr + n <= k < |r.page| ==> r.page[k] == d.page[k - n] && f[k] == flags[k - n])
  {
  }

  lemma GotoLaw(d: Doc, flags: seq<bool>, addr: int)
    requires 0 <= addr <= |d.page| == |flags|
    ensures Perform(Goto(addr), d) == Doc(d.page, addr) && FlagsAfter(Goto(addr), d.page, flags) == flags
  {
  }

  /** What is typed after an append: lines up to a lone period, the end of the input, or a piece
      of a line, which alone makes the command fail. */
  lemma {:induction false} TypedLines(input: seq<string>, lines: seq<string>)
    requires |lines| <= |input|
    requires forall k :: 0 <= k < |lines| ==> input[k] == lines[k] + "\n" && '\n' !in lines[k] && lines[k] != "."
    requires |lines| < |input| ==>
      var s := input[|lines|]; s == ".\n" || s == "" || s[|s| - 1] != '\n'
    ensures BeforeDot(input) == lines
    ensures Dangling(input) <==>
      |lines| < |input| && var s := input[|lines|]; s != "" && s[|s| - 1] != '\n'
    decreases |lines|
  {
    hide Pieces;
    if |lines| > 0 {
      TypedLines(input[1..], lines[1..]);
      OneLine(lines[0]);
    }
  }

  lemma OneLine(line: string)
    requires '\n' !in line
    ensures Terminated(line + "\n") && Pieces(line + "\n") == [line] && (line + "\n" == ".\n" <==> line == ".")
  {
    PiecesCons(line, "");
    assert line + "\n" + "" == line + "\n";
    assert [line] + [] == [line];
    assert (line + "\n")[..|line|] == line && ".\n"[..1] == ".";
    if line + "\n" == ".\n" {
      assert |line| == 1;
    }
  }

  // Lines one after the other, without anything in between.
  function Run(lines: seq<string>): string {
    if |lines| == 0 then "" else lines[0] + Run(lines[1..])
  }

  lemma {:induction false} ConcatRun(lines: seq<string>)
    ensures Concat(lines) == Run(lines)
  {
    if |lines| > 0 {
      var n := |lines| - 1;
      ConcatRun(lines[..n]);
      RunMore(lines[..n], lines[n]);
      assert lines[..n] + [lines[n]] == lines;
    }
  }

  lemma {:induction false} RunMore(lines: seq<string>, last: string)
    ensures Run(lines + [last]) == Run(lines) + last
  {
    if |lines| == 0 {
      assert lines + [last] == [last] && [last][1..] == [] && last + "" == last && "" + last == last;
    } else {
      RunMore(lines[1..], last);
      assert (lines + [last])[1..] == lines[1..] + [last];
      assert lines[0] + (Run(lines[1..]) + last) == lines[0] + Run(lines[1..]) + last;
    }
  }

  lemma JoinLaw(d: Doc, flags: seq<bool>, first: int, second: int, global: bool)
    requires 1 <= first <= second <= |d.page| == |flags|
    ensures var cmd, n, text := Join(first, second), second - first, Run(d.page[first - 1..second]);
      var r, f := Perform(cmd, d), FlagsAfter(cmd, d.page, flags);
      && (Succeeds(cmd, d.page, global) <==> first == second || |text| <= 2147483645)
      && (first == second || |text| > 2147483645 ==> r == d && f == flags)
      && (first < second && |text| <= 2147483645 ==>
            && |r.page| == |f| == |d.page| - n && r.cur == first && r.page[first - 1] == text && !f[first - 1]
            && (forall k :: 0 <= k < first - 1 ==> r.page[k] == d.page[k] && f[k] == flags[k])
            && (forall k :: first <= k < |r.page| ==> r.page[k] == d.page[k + n] && f[k] == flags[k + n]))
  {
    ConcatRun(d.page[first - 1..second]);
    hide Concat, Run;
  }

  // The other commands that may fail, and those that never do.
  lemma Status(cmd: Cmd, page: seq<string>, global: bool)
    requires Allowed(cmd, |page|)
    ensures cmd.Append? || cmd.Change? ==> (Succeeds(cmd, page, global) <==> !Dangling(cmd.input))
    ensures cmd.Delete? || cmd.Move? || cmd.Copy? || cmd.Goto? ==> Succeeds(cmd, page, global)
  {
  }

  // The text of n lines from index i on after a substitution, with its newlines.
  function Rewritten(sub: string -> string, page: seq<string>, i: nat, n: nat): string
    requires i + n <= |page|
  {
    if n == 0 then ""
    else
      var line := page[i + n - 1];
      Rewritten(sub, page, i, n - 1) + if sub(line) == "" then line + "\n" else sub(line)
  }

  lemma {:induction false} GlueMore(a: seq<string>, b: seq<string>)
    ensures Glue(a + b) == Glue(a) + Glue(b)
  {
    if |a| == 0 {
      assert a + b == b && "" + Glue(b) == Glue(b);
    } else {
      GlueMore(a[1..], b);
      assert (a + b)[1..] == a[1..] + b;
      Assoc(a[0] + "\n", Glue(a[1..]), Glue(b));
    }
  }

  lemma {:induction false} PiecesPlain(s: string)
    requires Terminated(s)
    ensures forall k :: 0 <= k < |Pieces(s)| ==> '\n' !in Pieces(s)[k]
    decreases |s|
  {
    if |s| > 0 {
      PiecesFirst(s);
      PiecesPlain(s[NewlineAt(s) + 1..]);
    }
  }

  lemma GlueNone()
    ensures Glue([]) == ""
  {
  }

  // What one line turns into.
  lemma ExpandText(sub: string -> string, line: string)
    requires Replaces(sub) && '\n' !in line
    ensures var e := Expand(sub, line);
      && Glue(e) == (if sub(line) == "" then line + "\n" else sub(line))
      && (Matches(sub, line) <==> sub(line) != "") && (!Matches(sub, line) ==> e == [line])
      && forall k :: 0 <= k < |e| ==> '\n' !in e[k]
  {
    hide Pieces, Glue;
    ReplacesLine(sub, line);
    if Matches(sub, line) {
      PiecesGlue(sub(line));
      PiecesPlain(sub(line));
    } else {
      GlueCons(line, []);
      GlueNone();
      assert [line] + [] == [line] && line + "\n" + "" == line + "\n";
    }
  }

  lemma {:induction false} ExpandedText(sub: string -> string, page: seq<string>, i: nat, n: nat)
    requires Replaces(sub) && i + n <= |page| && forall k :: i <= k < i + n ==> '\n' !in page[k]
    ensures Glue(Expanded(sub, page, i, n)) == Rewritten(sub, page, i, n)
    ensures forall k :: 0 <= k < |Expanded(sub, page, i, n)| ==> '\n' !in Expanded(sub, page, i, n)[k]
  {
    hide Replaces, Expand, Matches, Glue;
    GlueNone();
    if n > 0 {
      ExpandedText(sub, page, i, n - 1);
      ExpandText(sub, page[i + n - 1]);
      GlueMore(Expanded(sub, page, i, n - 1), Expand(sub, page[i + n - 1]));
    }
  }

  lemma SubstitutesText(cmd: Cmd)
    requires Proper(cmd)
    ensures cmd.Substitute? ==> Replaces(cmd.sub)
  {
  }

  // The number of lines got through is the number the reference editor counts.
  lemma GotThrough(d: Doc, flags: seq<bool>, cmd: Cmd, n: nat)
    requires cmd.Substitute? && 1 <= cmd.first <= cmd.second <= |d.page| == |flags| && Proper(cmd)
    requires n <= cmd.second - cmd.first + 1
    requires forall k :: cmd.first - 1 <= k < cmd.first - 1 + n ==> !cmd.fails(d.page[k])
    requires n < cmd.second - cmd.first + 1 ==> cmd.fails(d.page[cmd.first - 1 + n])
    ensures var i, all, r := cmd.first - 1, cmd.second - cmd.first + 1, Perform(cmd, d);
      && r.page == Substituted(cmd.sub, d.page, i, n)
      && FlagsAfter(cmd, d.page, flags) == SubstitutedFlags(cmd.sub, d.page, flags, i, n)
      && r.cur == (if n == all then LastSubstituted(cmd.sub, d.page, i, n, d.cur)
                   else i + 1 + |Expanded(cmd.sub, d.page, i, n)|)
      && forall global :: Succeeds(cmd, d.page, global) <==> n == all && (global || HasMatch(cmd.sub, d.page, i, n))
  {
    hide Expanded, ExpandedFlags, Reach, Substituted, SubstitutedFlags, Replaces, HasMatch, LastSubstituted;
    ReachIs(cmd.fails, d.page, cmd.first - 1, cmd.second - cmd.first + 1, n);
  }

  /** A substitution that gets through n lines of the range: they read as their replacements,
      and the others as before. */
  lemma SubstituteLaw(d: Doc, flags: seq<bool>, cmd: Cmd, n: nat, global: bool) returns (m: nat)
    requires cmd.Substitute? && 1 <= cmd.first <= cmd.second <= |d.page| == |flags| && Proper(cmd)
    requires forall k :: cmd.first - 1 <= k < cmd.second ==> '\n' !in d.page[k]
    requires n <= cmd.second - cmd.first + 1
    requires forall k :: cmd.first - 1 <= k < cmd.first - 1 + n ==> !cmd.fails(d.page[k])
    requires n < cmd.second - cmd.first + 1 ==> cmd.fails(d.page[cmd.first - 1 + n])
    ensures var i, r, f := cmd.first - 1, Perform(cmd, d), FlagsAfter(cmd, d.page, flags);
      && |r.page| == |f| == |d.page| - n + m
      && Glue(r.page[i..i + m]) == Rewritten(cmd.sub, d.page, i, n)
      && (forall k :: i <= k < i + m ==> '\n' !in r.page[k])
      && (forall k :: 0 <= k < i ==> r.page[k] == d.page[k] && f[k] == flags[k])
      && (forall k :: i + m <= k < |r.page| ==> r.page[k] == d.page[k - m + n] && f[k] == flags[k - m + n])
      && (n < cmd.second - i ==> i + m < |r.page| && r.cur == i + m + 1)
    ensures Succeeds(cmd, d.page, global) <==>
      && n == cmd.second - cmd.first + 1
      && (global || exists k :: cmd.first - 1 <= k < cmd.second && cmd.sub(d.page[k]) != "")
  {
    hide Expanded, ExpandedFlags, Rewritten, Matches, Glue, Substituted, SubstitutedFlags, Replaces, Perform,
         FlagsAfter, Succeeds, Proper, LastSubstituted;
    var i := cmd.first - 1;
    GotThrough(d, flags, cmd, n);
    SubstitutesText(cmd);
    ExpandedText(cmd.sub, d.page, i, n);
    m := |Expanded(cmd.sub, d.page, i, n)|;
    SubstitutedAt(cmd.sub, d.page, flags, i, n);
    forall k | i <= k < cmd.second ensures Matches(cmd.sub, d.page[k]) <==> cmd.sub(d.page[k]) != "" {
      ExpandText(cmd.sub, d.page[k]);
    }
  }

  lemma SubstitutedAt(sub: string -> string, page: seq<string>, flags: seq<bool>, i: nat, n: nat)
    requires i + n <= |page| == |flags|
    ensures var e := Expanded(sub, page, i, n);
      var r, f, m := Substituted(sub, page, i, n), SubstitutedFlags(sub, page, flags, i, n), |e|;
      && |r| == |f| == |page| - n + m && r[i..i + m] == e
      && (forall k :: 0 <= k < i ==> r[k] == page[k] && f[k] == flags[k])
      && (forall k :: i + m <= k < |r| ==> r[k] == page[k - m + n] && f[k] == flags[k - m + n])
      && (forall k :: i <= k < i + m ==> f[k] == ExpandedFlags(sub, page, flags, i, n)[k - i])
  {
    hide Expanded, ExpandedFlags;
    Between(page[..i], Expanded(sub, page, i, n), page[i + n..]);
  }

  lemma Between<T>(a: seq<T>, b: seq<T>, c: seq<T>)
    ensures (a + b + c)[|a|..|a| + |b|] == b
  {
  }

  // What m of the n lines turn into comes first.
  lemma {:induction false} ExpandedFront(sub: string -> string, page: seq<string>, flags: seq<bool>, i: nat, m: nat,
                                         n: nat)
    requires m <= n && i + n <= |page| == |flags|
    ensures Expanded(sub, page, i, m) <= Expanded(sub, page, i, n)
    ensures ExpandedFlags(sub, page, flags, i, m) <= ExpandedFlags(sub, page, flags, i, n)
  {
    hide Expand, Matches, Falses;
    if m < n {
      ExpandedFront(sub, page, flags, i, m, n - 1);
    }
  }

  lemma {:induction false} LastIs(sub: string -> string, page: seq<string>, i: nat, n: nat, xa: int, k: nat)
    requires i + n <= |page| && i <= k <= i + n && forall j :: k <= j < i + n ==> !Matches(sub, page[j])
    ensures k > i && Matches(sub, page[k - 1]) ==>
      LastSubstituted(sub, page, i, n, xa) == i + |Expanded(sub, page, i, k - i)|
    ensures k == i ==> LastSubstituted(sub, page, i, n, xa) == xa
    decreases n
  {
    hide Expanded, Matches;
    if k < i + n {
      LastIs(sub, page, i, n - 1, xa, k);
    }
  }

  /** The current line after a substitution that gets through: as before when nothing matched,
      otherwise the last line of the last replacement. Here k counts the lines up to there. */
  lemma SubstituteCurrent(d: Doc, cmd: Cmd, k: nat)
    requires cmd.Substitute? && 1 <= cmd.first <= cmd.second <= |d.page| && Proper(cmd)
    requires forall j :: cmd.first - 1 <= j < cmd.second ==> '\n' !in d.page[j] && !cmd.fails(d.page[j])
    requires cmd.first - 1 <= k <= cmd.second && forall j :: k <= j < cmd.second ==> cmd.sub(d.page[j]) == ""
    ensures var i, r := cmd.first - 1, Perform(cmd, d);
      && (k == i ==> r.cur == d.cur)
      && (k > i && cmd.sub(d.page[k - 1]) != "" ==>
            i <= r.cur <= |r.page| && Glue(r.page[i..r.cur]) == Rewritten(cmd.sub, d.page, i, k - i))
  {
    hide Expanded, ExpandedFlags, Rewritten, Matches, Glue, Substituted, SubstitutedFlags, Replaces, Perform,
         FlagsAfter, Succeeds, Proper, LastSubstituted;
    var i, n, none := cmd.first - 1, cmd.second - cmd.first + 1, seq(|d.page|, _ => false);
    GotThrough(d, none, cmd, n);
    SubstitutesText(cmd);
    forall j | i <= j < cmd.second ensures Matches(cmd.sub, d.page[j]) <==> cmd.sub(d.page[j]) != "" {
      ExpandText(cmd.sub, d.page[j]);
    }
    LastIs(cmd.sub, d.page, i, n, d.cur, k);
    ExpandedText(cmd.sub, d.page, i, k - i);
    ExpandedFront(cmd.sub, d.page, none, i, k - i, n);
    SubstitutedAt(cmd.sub, d.page, none, i, n);
    var r, a, b := Perform(cmd, d).page, Expanded(cmd.sub, d.page, i, k - i), Expanded(cmd.sub, d.page, i, n);
    FrontOf(r, i, a, b);
  }

  lemma FrontOf<T>(r: seq<T>, i: nat, a: seq<T>, b: seq<T>)
    requires i + |b| <= |r| && r[i..i + |b|] == b && a <= b
    ensures r[i..i + |a|] == a
  {
    assert r[i..i + |b|][..|a|] == r[i..i + |a|];
  }

  /** Line k + 1 after a substitution: behind p lines, a line that did not match is itself and
      marked as before; one that did is q lines of its replacement, none of them marked. */
  lemma SubstituteMarks(d: Doc, flags: seq<bool>, cmd: Cmd, n: nat, k: nat) returns (p: nat, q: nat)
    requires cmd.Substitute? && 1 <= cmd.first <= cmd.second <= |d.page| == |flags| && Proper(cmd)
    requires forall j :: cmd.first - 1 <= j < cmd.second ==> '\n' !in d.page[j]
    requires n <= cmd.second - cmd.first + 1
    requires forall j :: cmd.first - 1 <= j < cmd.first - 1 + n ==> !cmd.fails(d.page[j])
    requires n < cmd.second - cmd.first + 1 ==> cmd.fails(d.page[cmd.first - 1 + n])
    requires cmd.first - 1 <= k < cmd.first - 1 + n
    ensures var i, r, f := cmd.first - 1, Perform(cmd, d).page, FlagsAfter(cmd, d.page, flags);
      && i <= p && p + q <= |r| == |f|
      && Glue(r[i..p]) == Rewritten(cmd.sub, d.page, i, k - i)
      && (cmd.sub(d.page[k]) == "" ==> q == 1 && r[p] == d.page[k] && f[p] == flags[k])
      && (cmd.sub(d.page[k]) != "" ==>
            Glue(r[p..p + q]) == cmd.sub(d.page[k]) && forall j :: p <= j < p + q ==> !f[j])
  {
    hide Expanded, ExpandedFlags, Rewritten, Matches, Glue, Substituted, SubstitutedFlags, Replaces, Expand, Perform,
         FlagsAfter, Succeeds, Proper, LastSubstituted, HasMatch;
    var i := cmd.first - 1;
    GotThrough(d, flags, cmd, n);
    SubstitutesText(cmd);
    ExpandText(cmd.sub, d.page[k]);
    ExpandedText(cmd.sub, d.page, i, k - i);
    ExpandedFront(cmd.sub, d.page, flags, i, k - i + 1, n);
    ExpandedStep(cmd.sub, d.page, flags, i, k - i);
    SubstitutedAt(cmd.sub, d.page, flags, i, n);
    var a, e := Expanded(cmd.sub, d.page, i, k - i), Expand(cmd.sub, d.page[k]);
    p, q := i + |a|, |e|;
    var r, f := Perform(cmd, d).page, FlagsAfter(cmd, d.page, flags);
    FrontOf(r, i, a + e, Expanded(cmd.sub, d.page, i, n));
    PairOf(r, i, a, e);
    var fs := ExpandedFlags(cmd.sub, d.page, flags, i, k - i + 1);
    forall j | p <= j < p + q ensures f[j] == fs[j - i] {
    }
  }

  lemma ExpandedStep(sub: string -> string, page: seq<string>, flags: seq<bool>, i: nat, n: nat)
    requires i + n < |page| == |flags|
    ensures var a, e := Expanded(sub, page, i, n), Expand(sub, page[i + n]);
      var fs := ExpandedFlags(sub, page, flags, i, n + 1);
      && Expanded(sub, page, i, n + 1) == a + e && |fs| == |a| + |e|
      && (Matches(sub, page[i + n]) ==> forall j :: |a| <= j < |fs| ==> !fs[j])
      && (!Matches(sub, page[i + n]) ==> e == [page[i + n]] && fs[|a|] == flags[i + n])
  {
    hide Matches, Pieces;
  }

  lemma PairOf<T>(r: seq<T>, i: nat, a: seq<T>, b: seq<T>)
    requires i + |a| + |b| <= |r| && r[i..i + |a + b|] == a + b
    ensures r[i..i + |a|] == a && r[i + |a|..i + |a| + |b|] == b
    ensures |b| == 1 ==> r[i + |a|] == b[0]
  {
    FrontOf(r, i, a, a + b);
    forall k | 0 <= k < |b| ensures r[i + |a| + k] == b[k] {
      assert r[i..i + |a + b|][|a| + k] == (a + b)[|a| + k];
    }
  }
}
