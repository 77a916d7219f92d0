/**
 What a substitution does to the texts of a range of lines.  The result of matching one
 line is given: no text at all when nothing matches, otherwise newline-terminated text.
 */
module EdSubst {
  import opened EdLinks
  import opened EdText
  import opened EdFlags

  // A replacement's length is a C int.
  ghost predicate Replaces(sub: string -> string) {
    forall s :: '\n' !in s ==> Terminated(sub(s)) && |sub(s)| <= INT_MAX
  }

  lemma ReplacesLine(sub: string -> string, s: string)
    requires Replaces(sub) && '\n' !in s
    ensures Terminated(sub(s)) && |sub(s)| <= INT_MAX
  {
  }

  predicate Matches(sub: string -> string, line: string) {
    |sub(line)| > 0 && Terminated(sub(line))
  }

  function Expand(sub: string -> string, line: string): seq<string> {
    if Matches(sub, line) then Pieces(sub(line)) else [line]
  }

  // How many of n lines are substituted before one on which the substitution fails.
  function Reach(fails: string -> bool, page: seq<string>, i: nat, n: nat): (m: nat)
    requires i + n <= |page|
    ensures m <= n && (m < n ==> fails(page[i + m])) && forall k :: i <= k < i + m ==> !fails(page[k])
  {
    if n == 0 then 0
    else
      var m := Reach(fails, page, i, n - 1);
      if m < n - 1 then m else if fails(page[i + n - 1]) then n - 1 else n
  }

  lemma ReachIs(fails: string -> bool, page: seq<string>, i: nat, n: nat, m: nat)
    requires i + n <= |page| && m <= n
    requires (m < n ==> fails(page[i + m])) && forall k :: i <= k < i + m ==> !fails(page[k])
    ensures Reach(fails, page, i, n) == m
  {
  }

  // The lines that n lines of the page from index i on turn into.
  function Expanded(sub: string -> string, page: seq<string>, i: nat, n: nat): (r: seq<string>)
    requires i + n <= |page|
  {
    if n == 0 then [] else Expanded(sub, page, i, n - 1) + Expand(sub, page[i + n - 1])
  }

  function Substituted(sub: string -> string, page: seq<string>, i: nat, n: nat): seq<string>
    requires i + n <= |page|
  {
    page[..i] + Expanded(sub, page, i, n) + page[i + n..]
  }

  // The flags of those lines: a replaced line's are down, another line keeps its own.
  function ExpandedFlags(sub: string -> string, page: seq<string>, flags: seq<bool>, i: nat, n: nat): (r: seq<bool>)
    requires i + n <= |page| == |flags|
    ensures |r| == |Expanded(sub, page, i, n)|
  {
    if n == 0 then []
    else
      ExpandedFlags(sub, page, flags, i, n - 1) +
      if Matches(sub, page[i + n - 1]) then Falses(|Expand(sub, page[i + n - 1])|) else [flags[i + n - 1]]
  }

  function SubstitutedFlags(sub: string -> string, page: seq<string>, flags: seq<bool>, i: nat, n: nat): (r: seq<bool>)
    requires i + n <= |page| == |flags|
    ensures |r| == |Substituted(sub, page, i, n)|
  {
    flags[..i] + ExpandedFlags(sub, page, flags, i, n) + flags[i + n..]
  }

  ghost predicate HasMatch(sub: string -> string, page: seq<string>, i: nat, n: nat)
    requires i + n <= |page|
  {
    exists k :: i <= k < i + n && Matches(sub, page[k])
  }

  // The address of the last line of the last replacement, or xa when there is none.
  function LastSubstituted(sub: string -> string, page: seq<string>, i: nat, n: nat, xa: int): int
    requires i + n <= |page|
  {
    if n == 0 then xa
    else if Matches(sub, page[i + n - 1]) then i + |Expanded(sub, page, i, n)|
    else LastSubstituted(sub, page, i, n - 1, xa)
  }

  lemma SubstitutedNone(sub: string -> string, page: seq<string>, i: nat, xa: int)
    requires i <= |page|
    ensures Substituted(sub, page, i, 0) == page && Expanded(sub, page, i, 0) == []
    ensures LastSubstituted(sub, page, i, 0, xa) == xa && !HasMatch(sub, page, i, 0)
  {
  }

  lemma ExpandedMore(sub: string -> string, page: seq<string>, i: nat, n: nat, xa: int)
    requires i + n < |page|
    ensures var e, line := Expanded(sub, page, i, n), page[i + n];
      && Expanded(sub, page, i, n + 1) == e + Expand(sub, line)
      && (HasMatch(sub, page, i, n + 1) <==> HasMatch(sub, page, i, n) || Matches(sub, line))
      && LastSubstituted(sub, page, i, n + 1, xa)
         == (if Matches(sub, line) then i + |e| + |Expand(sub, line)| else LastSubstituted(sub, page, i, n, xa))
  {
    assert forall k :: i <= k < i + n + 1 ==> k < i + n || page[k] == page[i + n];
  }

  // Where the next line to look at is, and what it turns into.
  lemma SubstitutedMore(sub: string -> string, page: seq<string>, i: nat, n: nat)
    requires i + n < |page|
    ensures var q, a, line := Substituted(sub, page, i, n), i + |Expanded(sub, page, i, n)|, page[i + n];
      && a < |q| && q[a] == line
      && Substituted(sub, page, i, n + 1)
         == if Matches(sub, line) then With(Without(q, a, 1), a, Expand(sub, line)) else q
  {
    hide HasMatch, LastSubstituted, With, Without, Matches, Expand, Expanded;
    var e, line := Expanded(sub, page, i, n), page[i + n];
    ExpandedMore(sub, page, i, n, 0);
    var front, back := page[..i] + e, page[i + n..];
    SpliceOne(front, back, Expand(sub, line));
    assert back[1..] == page[i + n + 1..] && back[0] == line;
    NoMatchExpand(sub, line);
    MiddleOne(front, back);
    assert page[..i] + (e + Expand(sub, line)) == front + Expand(sub, line);
  }

  lemma SubstitutedFlagsNone(sub: string -> string, page: seq<string>, flags: seq<bool>, i: nat)
    requires i <= |page| == |flags|
    ensures SubstitutedFlags(sub, page, flags, i, 0) == flags
  {
  }

  lemma SubstitutedFlagsMore(sub: string -> string, page: seq<string>, flags: seq<bool>, i: nat, n: nat)
    requires i + n < |page| == |flags|
    ensures var q, a, line := SubstitutedFlags(sub, page, flags, i, n), i + |Expanded(sub, page, i, n)|, page[i + n];
      && a < |q|
      && SubstitutedFlags(sub, page, flags, i, n + 1)
         == if Matches(sub, line) then With(Without(q, a, 1), a, Falses(|Expand(sub, line)|)) else q
  {
    hide With, Without, Matches, Expand, Expanded, Falses;
    var e, line := ExpandedFlags(sub, page, flags, i, n), page[i + n];
    var front, back := flags[..i] + e, flags[i + n..];
    assert back[1..] == flags[i + n + 1..] && back[0] == flags[i + n];
    SpliceOne(front, back, Falses(|Expand(sub, line)|));
    MiddleOne(front, back);
    var more := if Matches(sub, line) then Falses(|Expand(sub, line)|) else [back[0]];
    assert flags[..i] + (e + more) == front + more;
  }

  lemma NoMatchExpand(sub: string -> string, line: string)
    ensures !Matches(sub, line) ==> Expand(sub, line) == [line]
    ensures Matches(sub, line) ==> Terminated(sub(line)) && Expand(sub, line) == Pieces(sub(line))
  {
  }

  lemma MiddleOne<T>(front: seq<T>, back: seq<T>)
    requires |back| > 0
    ensures |front| < |front + back| && (front + back)[|front|] == back[0]
    ensures front + back == front + [back[0]] + back[1..]
  {
    assert back == [back[0]] + back[1..];
  }

  lemma SpliceOne<T>(front: seq<T>, back: seq<T>, seg: seq<T>)
    requires |back| > 0
    ensures With(Without(front + back, |front|, 1), |front|, seg) == front + seg + back[1..]
  {
    assert Without(front + back, |front|, 1) == front + back[1..];
  }

  lemma {:induction false} ExpandedGrows(sub: string -> string, page: seq<string>, i: nat, n: nat)
    requires i + n <= |page|
    ensures |Expanded(sub, page, i, n)| >= n
  {
    if n > 0 {
      ExpandedGrows(sub, page, i, n - 1);
      if Matches(sub, page[i + n - 1]) { PiecesNonempty(sub(page[i + n - 1])); }
    }
  }

  lemma {:induction false} LastInRange(sub: string -> string, page: seq<string>, i: nat, n: nat, xa: int)
    requires i + n <= |page| && 0 <= xa <= |page|
    ensures 0 <= LastSubstituted(sub, page, i, n, xa) <= |Substituted(sub, page, i, n)|
  {
    ExpandedGrows(sub, page, i, n);
    if n > 0 && !Matches(sub, page[i + n - 1]) {
      LastInRange(sub, page, i, n - 1, xa);
    }
  }

  /** The state of a substitution after n lines from index i on: the text, the flags, the
      current line, the line to end at and the number of replacements. */
  ghost predicate Partway(sub: string -> string, fails: string -> bool, page: seq<string>, flags: seq<bool>, i: nat,
                          n: nat, last: int, page': seq<string>, flags': seq<bool>, cur: int, xa: int, nsubs: int)
    requires i + n <= |page| == |flags|
  {
    && page' == Substituted(sub, page, i, n)
    && flags' == SubstitutedFlags(sub, page, flags, i, n)
    && cur == i + |Expanded(sub, page, i, n)|
    && xa == LastSubstituted(sub, page, i, n, last)
    && 0 <= nsubs && (nsubs > 0 <==> HasMatch(sub, page, i, n))
    && forall k :: i <= k < i + n ==> !fails(page[k])
  }

  lemma PartwayStart(sub: string -> string, fails: string -> bool, page: seq<string>, flags: seq<bool>, i: nat,
                     last: int)
    requires i <= |page| == |flags|
    ensures Partway(sub, fails, page, flags, i, 0, last, page, flags, i, last, 0)
  {
    SubstitutedNone(sub, page, i, last);
    SubstitutedFlagsNone(sub, page, flags, i);
  }

  lemma PartwayNext(sub: string -> string, fails: string -> bool, page: seq<string>, flags: seq<bool>, i: nat, n: nat,
                    last: int, page': seq<string>, flags': seq<bool>, cur: int, xa: int, nsubs: int)
    requires i + n < |page| == |flags|
    requires Partway(sub, fails, page, flags, i, n, last, page', flags', cur, xa, nsubs)
    ensures 0 <= cur < |page'| == |flags'| && page'[cur] == page[i + n]
    ensures var line := page[i + n];
      var e := Expand(sub, line);
      !fails(line) ==>
        if Matches(sub, line) then
          Partway(sub, fails, page, flags, i, n + 1, last, With(Without(page', cur, 1), cur, e),
                  With(Without(flags', cur, 1), cur, Falses(|e|)), cur + |e|, cur + |e|, nsubs + 1)
        else Partway(sub, fails, page, flags, i, n + 1, last, page', flags', cur + |e|, xa, nsubs)
  {
    hide With, Without, Matches, Expand, Expanded, Falses, Substituted, SubstitutedFlags, HasMatch, LastSubstituted;
    SubstitutedMore(sub, page, i, n);
    SubstitutedFlagsMore(sub, page, flags, i, n);
    ExpandedMore(sub, page, i, n, last);
  }

  // Where it stops: behind the last line, or at the first line on which it fails.
  lemma PartwayEnd(sub: string -> string, fails: string -> bool, page: seq<string>, flags: seq<bool>, i: nat, n: nat,
                   last: int, page': seq<string>, flags': seq<bool>, cur: int, xa: int, nsubs: int, all: nat)
    requires i + n <= i + all <= |page| == |flags| && 0 <= last <= |page|
    requires Partway(sub, fails, page, flags, i, n, last, page', flags', cur, xa, nsubs)
    requires n < all ==> fails(page[i + n])
    ensures Reach(fails, page, i, all) == n && 0 <= xa <= |page'|
    ensures page' == Substituted(sub, page, i, n) && flags' == SubstitutedFlags(sub, page, flags, i, n)
    ensures cur == i + |Expanded(sub, page, i, n)| && xa == LastSubstituted(sub, page, i, n, last)
    ensures nsubs > 0 <==> HasMatch(sub, page, i, n)
  {
    hide Expanded, Substituted, SubstitutedFlags, HasMatch, LastSubstituted;
    ReachIs(fails, page, i, all, n);
    LastInRange(sub, page, i, n, last);
  }
}
