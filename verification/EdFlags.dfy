/**
 Which lines a global command is still to visit, told line by line, and that the list of the
 command holds their nodes in the order of the lines.
 */
module EdFlags {
  import opened Slices
  import opened EdLinks
  import opened EdActive
  import opened EdText

  ghost function FlagsOf<T>(s: seq<T>, xs: set<T>): (r: seq<bool>)
    ensures |r| == |s| && forall k :: 0 <= k < |s| ==> r[k] == (s[k] in xs)
  {
    if |s| == 0 then [] else [s[0] in xs] + FlagsOf(s[1..], xs)
  }

  function Falses(n: nat): (r: seq<bool>)
    ensures |r| == n && forall k :: 0 <= k < n ==> !r[k]
  {
    if n == 0 then [] else [false] + Falses(n - 1)
  }

  lemma NoFalses()
    ensures Falses(0) == []
  {
  }

  lemma FalsesMore(n: nat)
    ensures Falses(n + 1) == Falses(n) + [false]
  {
  }

  lemma FalsesConcat(m: nat, n: nat)
    ensures Falses(m + n) == Falses(m) + Falses(n)
  {
  }

  // A range of flags struck.
  function Struck(f: seq<bool>, i: nat, n: nat): (r: seq<bool>)
    requires i + n <= |f|
    ensures |r| == |f| && forall k :: 0 <= k < |f| ==> r[k] == (f[k] && !(i <= k < i + n))
  {
    f[..i] + Falses(n) + f[i + n..]
  }

  // The list holds the nodes still to be visited in the order of the lines.
  ghost predicate Tidy<T>(lines: seq<T>, list: seq<Slot<T>>, ptr: nat) {
    ptr <= |list| && Queue(list[ptr..]) == Keep(lines, Nodes(list, ptr))
  }

  lemma TidyMembers<T>(lines: seq<T>, list: seq<Slot<T>>, ptr: nat)
    requires Tidy(lines, list, ptr)
    ensures Nodes(list, ptr) <= Members(lines)
  {
    forall x | x in Nodes(list, ptr) ensures x in Members(lines) {
      QueueNodes(list, ptr, x);
      KeepMember(lines, Nodes(list, ptr), x);
    }
  }

  lemma KeepWith<T>(s: seq<T>, j: nat, seg: seq<T>, xs: set<T>)
    requires j <= |s| && Members(seg) !! xs
    ensures Keep(With(s, j, seg), xs) == Keep(s, xs)
  {
    KeepConcat(s[..j], seg, xs);
    KeepConcat(s[..j] + seg, s[j..], xs);
    KeepConcat(s[..j], s[j..], xs);
    assert s == s[..j] + s[j..];
    forall x | x in seg ensures x !in xs {
      assert x in Members(seg);
    }
    KeepNone(seg, xs);
  }

  lemma KeepWithout<T>(s: seq<T>, i: nat, n: nat, xs: set<T>)
    requires i + n <= |s| && Members(Slice(s, i, n)) !! xs
    ensures Keep(Without(s, i, n), xs) == Keep(s, xs)
  {
    KeepWith(Without(s, i, n), i, Slice(s, i, n), xs);
    WithoutWith(s, i, n);
  }

  // A line that is on no list.
  lemma TidyInsert<T>(lines: seq<T>, list: seq<Slot<T>>, ptr: nat, i: nat, x: T)
    requires Tidy(lines, list, ptr) && i <= |lines| && x !in Nodes(list, ptr)
    ensures Tidy(With(lines, i, [x]), list, ptr)
    ensures FlagsOf(With(lines, i, [x]), Nodes(list, ptr)) == With(FlagsOf(lines, Nodes(list, ptr)), i, [false])
  {
    hide Queue, Nodes;
    KeepWith(lines, i, [x], Nodes(list, ptr));
    FlagsWith(lines, i, [x], Nodes(list, ptr));
    assert Falses(1) == [false];
  }

  lemma FlagsWith<T>(s: seq<T>, i: nat, seg: seq<T>, xs: set<T>)
    requires i <= |s| && Members(seg) !! xs
    ensures FlagsOf(With(s, i, seg), xs) == With(FlagsOf(s, xs), i, Falses(|seg|))
  {
    hide With;
    var l, r := FlagsOf(With(s, i, seg), xs), With(FlagsOf(s, xs), i, Falses(|seg|));
    forall k | 0 <= k < |l| ensures l[k] == r[k] {
      WithAt(s, i, seg, k);
      WithAt(FlagsOf(s, xs), i, Falses(|seg|), k);
      assert i <= k < i + |seg| ==> With(s, i, seg)[k] in Members(seg);
    }
  }

  // The entries of xs cleared.
  lemma TidyUnset<T>(lines: seq<T>, list: seq<Slot<T>>, ptr: nat, xs: set<T>)
    requires Tidy(lines, list, ptr)
    ensures Tidy(lines, Unset(list, xs), ptr)
  {
    var ps := Nodes(list, ptr);
    NodesUnset(list, ptr, xs);
    assert Unset(list, xs)[ptr..] == Unset(list[ptr..], xs);
    forall x | Active(x) in list[ptr..] ensures x in ps - xs <==> x !in xs {
      QueueMember(list[ptr..], x);
      QueueNodes(list, ptr, x);
    }
    QueueUnset(list[ptr..], xs, ps - xs);
    KeepTwice(lines, ps, ps - xs);
    assert ps * (ps - xs) == ps - xs;
  }

  lemma TidyDelete<T>(lines: seq<T>, list: seq<Slot<T>>, ptr: nat, i: nat, n: nat)
    requires Tidy(lines, list, ptr) && Distinct(lines) && i + n <= |lines|
    ensures var xs := Members(Slice(lines, i, n));
      && Tidy(Without(lines, i, n), Unset(list, xs), ptr)
      && FlagsOf(Without(lines, i, n), Nodes(list, ptr) - xs) == Without(FlagsOf(lines, Nodes(list, ptr)), i, n)
  {
    hide Queue, Keep, Unset, Nodes;
    var xs := Members(Slice(lines, i, n));
    TidyUnset(lines, list, ptr, xs);
    NodesUnset(list, ptr, xs);
    KeepWithout(lines, i, n, Nodes(list, ptr) - xs);
    FlagsWithout(lines, i, n, Nodes(list, ptr));
  }

  lemma FlagsWithout<T>(s: seq<T>, i: nat, n: nat, xs: set<T>)
    requires Distinct(s) && i + n <= |s|
    ensures FlagsOf(Without(s, i, n), xs - Members(Slice(s, i, n))) == Without(FlagsOf(s, xs), i, n)
  {
    var seg := Slice(s, i, n);
    forall k | 0 <= k < |s| && !(i <= k < i + n) ensures s[k] !in seg {
    }
  }

  lemma FlagsStruck<T>(s: seq<T>, i: nat, n: nat, xs: set<T>)
    requires Distinct(s) && i + n <= |s|
    ensures FlagsOf(s, xs - Members(Slice(s, i, n))) == Struck(FlagsOf(s, xs), i, n)
  {
    var seg := Slice(s, i, n);
    forall k | 0 <= k < |s| ensures s[k] in seg <==> i <= k < i + n {
      if i <= k < i + n {
        assert seg[k - i] == s[k];
      }
    }
  }

  lemma FlagsSplice<T>(s: seq<T>, j: nat, seg: seq<T>, xs: set<T>)
    requires j <= |s|
    ensures FlagsOf(With(s, j, seg), xs) == With(FlagsOf(s, xs), j, FlagsOf(seg, xs))
  {
    hide With;
    var l, r := FlagsOf(With(s, j, seg), xs), With(FlagsOf(s, xs), j, FlagsOf(seg, xs));
    forall k | 0 <= k < |l| ensures l[k] == r[k] {
      WithAt(s, j, seg, k);
      WithAt(FlagsOf(s, xs), j, FlagsOf(seg, xs), k);
    }
  }

  lemma FlagsCut<T>(s: seq<T>, i: nat, n: nat, xs: set<T>)
    requires i + n <= |s|
    ensures FlagsOf(Without(s, i, n), xs) == Without(FlagsOf(s, xs), i, n)
    ensures FlagsOf(Slice(s, i, n), xs) == Slice(FlagsOf(s, xs), i, n)
  {
    hide Without, Slice;
    var l, r := FlagsOf(Without(s, i, n), xs), Without(FlagsOf(s, xs), i, n);
    forall k | 0 <= k < |l| ensures l[k] == r[k] {
      WithoutAt(s, i, n, k);
      WithoutAt(FlagsOf(s, xs), i, n, k);
    }
    var l', r' := FlagsOf(Slice(s, i, n), xs), Slice(FlagsOf(s, xs), i, n);
    forall k | 0 <= k < n ensures l'[k] == r'[k] {
      SliceAt(s, i, n, k);
      SliceAt(FlagsOf(s, xs), i, n, k);
    }
  }

  lemma FlagsMoved<T>(s: seq<T>, first: int, second: int, addr: int, xs: set<T>)
    requires 1 <= first <= second <= |s| && 0 <= addr <= |s| && !(first <= addr < second)
    ensures FlagsOf(Moved(s, first, second, addr), xs) == Moved(FlagsOf(s, xs), first, second, addr)
  {
    hide FlagsOf, With, Without, Slice;
    var n := second - first + 1;
    if addr != first - 1 && addr != second {
      FlagsCut(s, first - 1, n, xs);
      FlagsSplice(Without(s, first - 1, n), if addr < first then addr else addr - n, Slice(s, first - 1, n), xs);
    }
  }

  lemma KeepMoved<T>(s: seq<T>, first: int, second: int, addr: int, xs: set<T>)
    requires 1 <= first <= second <= |s| && 0 <= addr <= |s| && !(first <= addr < second)
    requires Members(Slice(s, first - 1, second - first + 1)) !! xs
    ensures Keep(Moved(s, first, second, addr), xs) == Keep(s, xs)
  {
    hide Keep, With, Without, Slice, Members;
    var n := second - first + 1;
    if addr != first - 1 && addr != second {
      KeepWith(Without(s, first - 1, n), if addr < first then addr else addr - n, Slice(s, first - 1, n), xs);
      KeepWithout(s, first - 1, n, xs);
    }
  }

  lemma TidyMove<T>(lines: seq<T>, list: seq<Slot<T>>, ptr: nat, first: int, second: int, addr: int)
    requires Tidy(lines, list, ptr) && Distinct(lines)
    requires 1 <= first <= second <= |lines| && 0 <= addr <= |lines| && !(first <= addr < second)
    ensures var xs := Members(Slice(lines, first - 1, second - first + 1));
      var lines' := Moved(lines, first, second, addr);
      && Tidy(lines', Unset(list, xs), ptr)
      && FlagsOf(lines', Nodes(list, ptr) - xs)
         == Moved(Struck(FlagsOf(lines, Nodes(list, ptr)), first - 1, second - first + 1), first, second, addr)
  {
    hide Queue, Keep, Unset, Nodes, Moved, Slice, Members, FlagsOf, Distinct;
    var xs := Members(Slice(lines, first - 1, second - first + 1));
    TidyUnset(lines, list, ptr, xs);
    NodesUnset(list, ptr, xs);
    KeepMoved(lines, first, second, addr, Nodes(list, ptr) - xs);
    FlagsMoved(lines, first, second, addr, Nodes(list, ptr) - xs);
    FlagsStruck(lines, first - 1, second - first + 1, Nodes(list, ptr));
  }

  // The nodes still to be visited: none outside a global command.
  ghost function Pends<T>(global: bool, list: seq<Slot<T>>, ptr: nat): set<T> {
    if global then Nodes(list, ptr) else {}
  }

  ghost function Strike<T>(global: bool, list: seq<Slot<T>>, xs: set<T>): seq<Slot<T>> {
    if global then Unset(list, xs) else list
  }

  lemma InsertFlags<T>(global: bool, lines: seq<T>, list: seq<Slot<T>>, ptr: nat, i: nat, x: T)
    requires (global ==> Tidy(lines, list, ptr)) && i <= |lines| && x !in Members(lines)
    ensures global ==> Tidy(With(lines, i, [x]), list, ptr)
    ensures FlagsOf(With(lines, i, [x]), Pends(global, list, ptr))
      == With(FlagsOf(lines, Pends(global, list, ptr)), i, [false])
  {
    hide Tidy, FlagsOf, With, Nodes;
    if global {
      TidyMembers(lines, list, ptr);
      TidyInsert(lines, list, ptr, i, x);
    } else {
      FlagsWith(lines, i, [x], {});
      assert Falses(1) == [false];
    }
  }

  lemma DeleteFlags<T>(global: bool, lines: seq<T>, list: seq<Slot<T>>, ptr: nat, i: nat, n: nat)
    requires (global ==> Tidy(lines, list, ptr)) && Distinct(lines) && i + n <= |lines|
    ensures var list' := Strike(global, list, Members(Slice(lines, i, n)));
      && (global ==> Tidy(Without(lines, i, n), list', ptr))
      && FlagsOf(Without(lines, i, n), Pends(global, list', ptr))
         == Without(FlagsOf(lines, Pends(global, list, ptr)), i, n)
  {
    hide Tidy, FlagsOf, Without, Nodes, Unset, Slice, Members;
    if global {
      TidyDelete(lines, list, ptr, i, n);
      NodesUnset(list, ptr, Members(Slice(lines, i, n)));
    } else {
      FlagsCut(lines, i, n, {});
    }
  }

  lemma MoveFlags<T>(global: bool, lines: seq<T>, list: seq<Slot<T>>, ptr: nat, first: int, second: int, addr: int)
    requires (global ==> Tidy(lines, list, ptr)) && Distinct(lines)
    requires 1 <= first <= second <= |lines| && 0 <= addr <= |lines| && !(first <= addr < second)
    ensures var list' := Strike(global, list, Members(Slice(lines, first - 1, second - first + 1)));
      var lines' := Moved(lines, first, second, addr);
      && (global ==> Tidy(lines', list', ptr))
      && FlagsOf(lines', Pends(global, list', ptr))
         == Moved(Struck(FlagsOf(lines, Pends(global, list, ptr)), first - 1, second - first + 1), first, second, addr)
  {
    hide Tidy, FlagsOf, Moved, Nodes, Unset, Slice, Members;
    if global {
      TidyMove(lines, list, ptr, first, second, addr);
      NodesUnset(list, ptr, Members(Slice(lines, first - 1, second - first + 1)));
    } else {
      FlagsMoved(lines, first, second, addr, {});
      FlagsStruck(lines, first - 1, second - first + 1, {});
      assert {} - Members(Slice(lines, first - 1, second - first + 1)) == {};
    }
  }

  lemma VisitTidy<T>(lines: seq<T>, list: seq<Slot<T>>, ptr: nat, ptr': nat, x: T)
    requires Tidy(lines, list, ptr) && ptr' <= |list|
    requires Queue(list[ptr..]) == [x] + Queue(list[ptr'..])
    requires Nodes(list, ptr') == Nodes(list, ptr) - {x}
    ensures Tidy(lines, list, ptr')
  {
    hide Queue, Nodes;
    var ps, q := Nodes(list, ptr), Queue(list[ptr'..]);
    forall y | y in q ensures y in ps - {x} {
      QueueNodes(list, ptr', y);
    }
    KeepAll(q, ps - {x});
    KeepConcat([x], q, ps - {x});
    KeepNone([x], ps - {x});
    KeepTwice(lines, ps, ps - {x});
    assert ps * (ps - {x}) == ps - {x};
  }

  // Yielding the first node waiting is visiting the first line flagged.
  lemma VisitFlags<T>(lines: seq<T>, list: seq<Slot<T>>, ptr: nat, ptr': nat, k: nat)
    requires Tidy(lines, list, ptr) && Distinct(lines) && ptr' <= |list| && k < |lines|
    requires Queue(list[ptr..]) == [lines[k]] + Queue(list[ptr'..])
    requires Nodes(list, ptr') == Nodes(list, ptr) - {lines[k]}
    ensures Tidy(lines, list, ptr')
    ensures FlagsOf(lines, Nodes(list, ptr))[k] && forall j :: 0 <= j < k ==> !FlagsOf(lines, Nodes(list, ptr))[j]
    ensures FlagsOf(lines, Nodes(list, ptr')) == FlagsOf(lines, Nodes(list, ptr))[k := false]
  {
    hide Queue, Nodes, Keep, FlagsOf, Distinct;
    VisitTidy(lines, list, ptr, ptr', lines[k]);
    var ps := Nodes(list, ptr);
    assert lines[k] in Queue(list[ptr..]);
    QueueNodes(list, ptr, lines[k]);
    FlagDown(lines, ps, k);
    if exists j :: 0 <= j < k && lines[j] in ps {
      FirstIn(lines, ps, k);
    }
  }

  lemma FlagDown<T>(s: seq<T>, xs: set<T>, k: nat)
    requires Distinct(s) && k < |s|
    ensures FlagsOf(s, xs - {s[k]}) == FlagsOf(s, xs)[k := false]
  {
  }

  lemma {:induction false} KeepAll<T>(s: seq<T>, xs: set<T>)
    requires forall x :: x in s ==> x in xs
    ensures Keep(s, xs) == s
  {
    if |s| > 0 {
      KeepAll(s[1..], xs);
    }
  }

  // Something in the set before k comes first.
  lemma {:induction false} FirstIn<T>(s: seq<T>, xs: set<T>, k: nat)
    requires Distinct(s) && k < |s| && exists j :: 0 <= j < k && s[j] in xs
    ensures |Keep(s, xs)| > 0 && Keep(s, xs)[0] != s[k]
  {
    if s[0] !in xs {
      FirstIn(s[1..], xs, k - 1);
    }
  }

  lemma NoneLeft<T>(lines: seq<T>, xs: set<T>)
    ensures xs == {} ==> FlagsOf(lines, xs) == Falses(|lines|)
  {
  }

  lemma VisitNone<T>(lines: seq<T>, list: seq<Slot<T>>, ptr: nat)
    requires ptr <= |list| && Nodes(list, ptr) == {}
    ensures Tidy(lines, list, ptr)
  {
    var q := Queue(list[ptr..]);
    if |q| > 0 {
      QueueNodes(list, ptr, q[0]);
    }
    KeepNone(lines, {});
  }

  lemma NothingListed<T>(lines: seq<T>)
    ensures Tidy<T>(lines, [], 0) && Nodes<T>([], 0) == {}
  {
    var none: seq<Slot<T>> := [];
    assert none[0..] == none && Nodes(none, 0) == {};
    KeepNone(lines, {});
  }

  // The lines of a range that match.
  function MatchFlags(page: seq<string>, matches: string -> bool, i: nat, j: nat): (r: seq<bool>)
    ensures |r| == |page| && forall k :: 0 <= k < |page| ==> r[k] == (i <= k < j && matches(page[k]))
  {
    if |page| == 0 then []
    else
      var n := |page| - 1;
      MatchFlags(page[..n], matches, i, j) + [i <= n < j && matches(page[n])]
  }

  // Entries that were cleared are out of the order in which nodes wait; the others stay in it.
  lemma {:induction false} QueuePick<T>(a: seq<Slot<T>>, b: seq<Slot<T>>, xs: set<T>)
    requires |a| == |b|
    requires forall k :: 0 <= k < |a| ==> b[k] == if a[k].Active? && a[k].node in xs then a[k] else Cleared
    ensures Queue(b) == Keep(Queue(a), xs)
  {
    if |a| > 0 {
      QueuePick(a[1..], b[1..], xs);
      KeepConcat(if a[0].Active? then [a[0].node] else [], Queue(a[1..]), xs);
    }
  }

  lemma ShrunkQueue<T>(list: seq<Slot<T>>, list': seq<Slot<T>>, ptr: nat)
    requires Shrunk(list, list') && Once(list) && ptr <= |list|
    ensures Queue(list'[ptr..]) == Keep(Queue(list[ptr..]), Nodes(list', ptr))
  {
    var a, b, xs := list[ptr..], list'[ptr..], Nodes(list', ptr);
    forall k | 0 <= k < |a|
      ensures b[k] == if a[k].Active? && a[k].node in xs then a[k] else Cleared
    {
      assert a[k] == list[ptr + k] && b[k] == list'[ptr + k];
      if a[k].Active? && a[k].node in xs {
        var m :| ptr <= m < |list'| && list'[m] == a[k];
        assert list[m] == a[k] && m == ptr + k;
      }
    }
    QueuePick(a, b, xs);
  }

  lemma {:induction false} KeepDistinct<T>(s: seq<T>, xs: set<T>)
    requires Distinct(s)
    ensures Distinct(Keep(s, xs))
  {
    if |s| > 0 {
      KeepDistinct(s[1..], xs);
      KeepMember(s[1..], xs, s[0]);
    }
  }

  // The nodes visited and those waiting come in the order of the lines at the start.
  ghost predicate InTurn<T>(lines: seq<T>, visited: seq<T>, waiting: seq<T>) {
    visited + waiting == Keep(lines, Members(visited + waiting))
  }

  lemma InTurnStep<T>(lines: seq<T>, visited: seq<T>, x: T, waiting: seq<T>)
    requires InTurn(lines, visited, [x] + waiting)
    ensures InTurn(lines, visited + [x], waiting)
  {
    assert visited + ([x] + waiting) == visited + [x] + waiting;
  }

  lemma InTurnShrinks<T>(lines: seq<T>, visited: seq<T>, waiting: seq<T>, xs: set<T>)
    requires InTurn(lines, visited, waiting) && Distinct(lines)
    ensures InTurn(lines, visited, Keep(waiting, xs))
  {
    hide Keep;
    var all, left := visited + waiting, Keep(waiting, xs);
    var s, s' := Members(all), Members(visited + left);
    KeepDistinct(lines, s);
    forall x ensures x in left <==> x in waiting && x in xs {
      KeepMember(waiting, xs, x);
    }
    assert s * s' == s';
    KeepTwice(lines, s, s');
    KeepConcat(visited, waiting, s');
    forall x | x in visited ensures x in s' {
      assert x in visited + left;
    }
    KeepAll(visited, s');
    ApartInTurn(visited, waiting);
    forall x | x in waiting ensures x in s' <==> x in xs {
      assert x in s' ==> x in visited + left;
      assert x in xs ==> x in left && x in visited + left;
    }
    KeepAgree(waiting, s', xs);
  }

  lemma ApartInTurn<T>(visited: seq<T>, waiting: seq<T>)
    requires Distinct(visited + waiting)
    ensures forall x :: x in waiting ==> x !in visited
  {
    var all := visited + waiting;
    forall x | x in waiting ensures x !in visited {
      var k :| 0 <= k < |waiting| && waiting[k] == x;
      forall j | 0 <= j < |visited| ensures visited[j] != x {
        assert all[j] != all[|visited| + k];
      }
    }
  }

  // In the end the nodes visited come in the order of the lines.
  lemma InTurnEnd<T>(lines: seq<T>, visited: seq<T>, waiting: seq<T>)
    requires InTurn(lines, visited, waiting) && Distinct(lines)
    ensures visited == Keep(lines, Members(visited))
  {
    InTurnShrinks(lines, visited, waiting, {});
    KeepNone(waiting, {});
    assert visited + [] == visited;
  }

  lemma InTurnStart<T>(lines: seq<T>, list: seq<Slot<T>>)
    requires Tidy(lines, list, 0)
    ensures InTurn(lines, [], Queue(list[0..])) && Members(Queue(list[0..])) == Nodes(list, 0)
  {
    var q := Queue(list[0..]);
    forall x ensures x in q <==> x in Nodes(list, 0) {
      QueueNodes(list, 0, x);
    }
    assert Members(q) == Nodes(list, 0);
    assert [] + q == q;
  }
}
