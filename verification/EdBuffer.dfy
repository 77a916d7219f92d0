/**
 The editor buffer of ed: a circular doubly linked queue of line nodes, the cached lookup
 position, the undo stack and the list of a global command, changed in place by the
 editing operations.

 A node is an address.  The store holds the pointers and the record of every allocated
 address: following a pointer from an address that is not allocated is an error that
 the verifier rules out, and an address freed may be handed out again.
 */
module EdBuffer {
  import opened Slices
  import opened EdLinks
  import opened EdUndo
  import opened EdTrack
  import opened EdStack
  import opened EdActive
  import opened EdScratch
  import opened EdText
  import opened EdFlags
  import opened EdSubst

  type Node = nat

  // The address of buffer_head.
  const HEAD: Node := 0

  // Line lengths are C ints; a line of INT_MAX characters is refused.
  const LINECHARS: nat := INT_MAX

  const ERR := -2

  datatype Rec = Rec(seek: nat, len: nat)

  ghost predicate Lies(rec: Rec, txt: string, bytes: string) {
    rec.seek + rec.len <= |bytes| && bytes[rec.seek..rec.seek + rec.len] == txt && '\n' !in txt
  }

  // Every line node's record leads to the text the node was made for.
  ghost predicate Texts(nodes: set<Node>, recs: map<Node, Rec>, text: map<Node, string>, bytes: string) {
    && recs.Keys == nodes - {HEAD} && text.Keys == nodes - {HEAD}
    && forall x :: x in recs ==> Lies(recs[x], text[x], bytes)
  }

  lemma TextsAdd(nodes: set<Node>, recs: map<Node, Rec>, text: map<Node, string>, bytes: string,
                 x: Node, rec: Rec, txt: string)
    requires Texts(nodes, recs, text, bytes) && HEAD in nodes && x !in nodes && Lies(rec, txt, bytes)
    ensures Texts(nodes + {x}, recs[x := rec], text[x := txt], bytes)
  {
  }

  lemma TextsGrow(nodes: set<Node>, recs: map<Node, Rec>, text: map<Node, string>, bytes: string, more: string)
    requires Texts(nodes, recs, text, bytes)
    ensures Texts(nodes, recs, text, bytes + more)
  {
    forall x | x in recs ensures Lies(recs[x], text[x], bytes + more) {
      var i, j := recs[x].seek, recs[x].seek + recs[x].len;
      assert (bytes + more)[i..j] == bytes[i..j];
    }
  }

  lemma LiesAtEnd(bytes: string, txt: string)
    requires '\n' !in txt
    ensures Lies(Rec(|bytes|, |txt|), txt, bytes + txt)
  {
  }

  lemma FirstNewline(cs: string, n: nat)
    requires '\n' in cs && n <= NewlineAt(cs) && cs[n] == '\n'
    ensures n == NewlineAt(cs) && '\n' !in cs[..n]
  {
  }

  lemma NewText(nodes: set<Node>, recs: map<Node, Rec>, text: map<Node, string>, bytes: string,
                s: seq<Node>, i: nat, x: Node, t: string)
    requires Texts(nodes, recs, text, bytes) && x !in nodes && i <= |s| && Members(s) <= nodes
    ensures Extends(text, text[x := t])
    ensures TextsAt(text[x := t], With(s, i, [x])) == With(TextsAt(text, s), i, [t])
  {
    assert x in s ==> x in Members(s);
    TextsWith(text, s, i, x, t);
  }

  // A string read from the terminal is a line when a newline ends it.
  predicate Whole(s: string) {
    |s| > 0 && s[|s| - 1] == '\n'
  }

  // What append_lines keeps of the strings it reads.
  function BeforeDot(input: seq<string>): seq<string> {
    if |input| == 0 || !Whole(input[0]) || input[0] == ".\n" then []
    else Pieces(input[0]) + BeforeDot(input[1..])
  }

  // Whether it stops at a piece of a line.
  predicate Dangling(input: seq<string>) {
    |input| > 0 && if !Whole(input[0]) then |input[0]| > 0 else input[0] != ".\n" && Dangling(input[1..])
  }

  lemma BeforeDotStep(input: seq<string>, k: nat, done: seq<string>)
    requires k < |input|
    ensures var todo, rest := Slice(input, k, |input| - k), Slice(input, k + 1, |input| - k - 1);
      if Whole(input[k]) && input[k] != ".\n" then
        done + BeforeDot(todo) == (done + Pieces(input[k])) + BeforeDot(rest) && Dangling(todo) == Dangling(rest)
      else done + BeforeDot(todo) == done && Dangling(todo) == (!Whole(input[k]) && |input[k]| > 0)
  {
    hide Slice, Pieces;
    var rest := Slice(input, k + 1, |input| - k - 1);
    SliceFirst(input, k, |input| - k - 1);
    assert ([input[k]] + rest)[1..] == rest;
    Nothing(done);
    if Whole(input[k]) {
      Assoc(done, Pieces(input[k]), BeforeDot(rest));
    }
  }

  lemma BeforeDotEnd()
    ensures BeforeDot([]) == [] && !Dangling([])
  {
  }

  // Where the moved lines and their neighbours are after a move.
  lemma MovedPlace(s: seq<Node>, first: int, second: int, addr: int)
    requires 1 <= first <= second <= |s| && 0 <= addr <= |s| && (addr < first - 1 || second < addr)
    ensures var n, s' := second - first + 1, Moved(s, first, second, addr);
      var last := addr + if addr < first then n else 0;
      && At(HEAD, s', last - n) == At(HEAD, s, addr)
      && At(HEAD, s', last + 1) == At(HEAD, s, addr + 1)
      && Slice(s', last - n, n) == Slice(s, first - 1, n)
      && var low := if addr < first then addr else first - 1; At(HEAD, s', low) == At(HEAD, s, low)
  {
    hide With, Without, Slice;
    var n := second - first + 1;
    var j := if addr < first then addr else addr - n;
    var r, seg := Without(s, first - 1, n), Slice(s, first - 1, n);
    forall k | 0 <= k < |s| && !(j <= k < j + n)
      ensures With(r, j, seg)[k] == s[if k < j && k < first - 1 then k else if k >= j + n && k < second then k - n
                                      else if k < j then k + n else k]
    {
      WithAt(r, j, seg, k);
      WithoutAt(s, first - 1, n, if k < j then k else k - n);
    }
    SliceWith(r, j, seg);
  }

  lemma TextLies(nodes: set<Node>, recs: map<Node, Rec>, text: map<Node, string>, bytes: string, x: Node)
    requires Texts(nodes, recs, text, bytes) && x in recs
    ensures x in text && Lies(recs[x], text[x], bytes)
  {
  }

  lemma TextsKeep(nodes: set<Node>, recs: map<Node, Rec>, text: map<Node, string>, bytes: string, live: set<Node>)
    requires Texts(nodes, recs, text, bytes) && live <= nodes && HEAD in nodes
    ensures var gone := nodes - ({HEAD} + live);
      Texts({HEAD} + live, recs - gone, text - gone, bytes)
  {
  }

  lemma LinesHaveText(nodes: set<Node>, recs: map<Node, Rec>, text: map<Node, string>, bytes: string, s: seq<Node>)
    requires Texts(nodes, recs, text, bytes) && recs.Keys == Members(s)
    ensures Members(s) <= text.Keys
  {
  }

  lemma LinesNotHead(c: Config<Node>)
    requires Ring(HEAD, c)
    ensures HEAD !in Members(c.lines) && {HEAD} + Members(c.lines) - {HEAD} == Members(c.lines)
  {
  }

  lemma NoLines(c: Config<Node>)
    requires Ring(HEAD, c) && c.lines == []
    ensures HEAD in c.links.forw && HEAD in c.links.back && c.links.forw[HEAD] == HEAD
    ensures EdLinks.Reque(c.links, HEAD, HEAD) == c.links
  {
    assert Around(HEAD, c.lines) == [HEAD, HEAD];
  }

  lemma NoMembers(recs: map<Node, Rec>)
    ensures Members<Node>([]) == {} && {HEAD} + Members<Node>([]) == {HEAD}
    ensures recs.Keys == Members([]) ==> recs == map[]
  {
  }

  lemma FreeNothing(l: Links<Node>, recs: map<Node, Rec>)
    ensures Forget(l, Members([])) == l && recs - Members([]) == recs
  {
  }

  lemma NotInUse(nodes: set<Node>, s: seq<Node>, x: Node)
    requires Members(s) <= nodes && x !in nodes
    ensures x !in Members(s)
  {
  }

  lemma LinesDistinct(c: Config<Node>)
    requires Ring(HEAD, c)
    ensures Distinct(c.lines)
  {
  }

  lemma HeadNotLine(c: Config<Node>)
    requires Ring(HEAD, c)
    ensures HEAD !in c.lines
  {
  }

  lemma NotALine(s: seq<Node>, x: Node, n: int)
    requires n == |s| && x != HEAD && forall k :: 0 <= k < n ==> At(HEAD, s, k) != x
    requires n > 0 ==> At(HEAD, s, n) != x
    ensures x !in s
  {
    forall k | 0 <= k < |s| ensures s[k] != x {
      assert At(HEAD, s, k + 1) == s[k];
    }
  }

  // How many steps around the buffer lead from one address to another, a full turn to itself.
  function Turns(start: int, n: int, last: int, forward: bool): (k: int)
    requires 0 <= start <= last && 0 <= n <= last
    ensures 1 <= k <= last + 1
  {
    if forward then (if n > start then n - start else n - start + last + 1)
    else (if n < start then start - n else start - n + last + 1)
  }

  // One more step is one more turn, until the start is reached again.
  lemma TurnsNext(start: int, n: int, last: int, forward: bool)
    requires 0 <= start <= last && 0 <= n <= last
    ensures var m := if forward then IncMod(n, last) else DecMod(n, last);
      && 0 <= m <= last
      && Turns(start, m, last, forward) == (if n == start then 1 else Turns(start, n, last, forward) + 1)
      && (Turns(start, m, last, forward) == last + 1 <==> m == start)
  {
  }

  // No line up to k steps away matches.
  ghost predicate Passed(page: seq<string>, start: int, matches: string -> bool, forward: bool, k: int)
    requires 0 <= start <= |page|
  {
    forall i :: 0 <= i < |page| && Turns(start, i + 1, |page|, forward) <= k ==> !matches(page[i])
  }

  lemma PassedNone(page: seq<string>, start: int, matches: string -> bool, forward: bool)
    requires 0 <= start <= |page|
    ensures Passed(page, start, matches, forward, 0)
  {
  }

  lemma PassedMore(page: seq<string>, start: int, matches: string -> bool, forward: bool, n: int)
    requires 0 <= start <= |page| && 0 <= n <= |page|
    requires Passed(page, start, matches, forward, Turns(start, n, |page|, forward) - 1)
    requires n == 0 || !matches(page[n - 1])
    ensures Passed(page, start, matches, forward, Turns(start, n, |page|, forward))
  {
  }

  // The lines passed before line r are those between.
  lemma PassedBetween(page: seq<string>, start: int, matches: string -> bool, forward: bool, r: int)
    requires 0 <= start <= |page| && 1 <= r <= |page|
    requires Passed(page, start, matches, forward, Turns(start, r, |page|, forward) - 1)
    ensures forward ==> forall i :: 0 <= i < |page| && matches(page[i]) ==>
      !(if start < r then start <= i < r - 1 else start <= i || i < r - 1)
    ensures !forward ==> forall i :: 0 <= i < |page| && matches(page[i]) ==>
      !(if r < start then r <= i < start - 1 else i < start - 1 || r <= i)
  {
    forall i | 0 <= i < |page| && matches(page[i])
      ensures Turns(start, i + 1, |page|, forward) >= Turns(start, r, |page|, forward)
    {
    }
  }

  lemma PassedAll(page: seq<string>, start: int, matches: string -> bool, forward: bool)
    requires 0 <= start <= |page| && Passed(page, start, matches, forward, |page| + 1)
    ensures forall i :: 0 <= i < |page| ==> !matches(page[i])
  {
    forall i | 0 <= i < |page| ensures !matches(page[i]) {
      assert Turns(start, i + 1, |page|, forward) <= |page| + 1;
    }
  }

  // The entries that the lines with index i up to j give.
  ghost function Chosen(lines: seq<Node>, page: seq<string>, matches: string -> bool, i: nat, j: nat): seq<Slot<Node>>
    requires i <= j <= |lines| == |page|
  {
    if i == j then []
    else Chosen(lines, page, matches, i, j - 1) + if matches(page[j - 1]) then [Active(lines[j - 1])] else []
  }

  lemma ChosenNone(lines: seq<Node>, page: seq<string>, matches: string -> bool, i: nat)
    requires i <= |lines| == |page|
    ensures Chosen(lines, page, matches, i, i) == []
  {
  }

  lemma {:induction false} ChosenMembers(lines: seq<Node>, page: seq<string>, matches: string -> bool, i: nat, j: nat)
    requires i <= j <= |lines| == |page|
    ensures Nodes(Chosen(lines, page, matches, i, j), 0) <= Members(lines[..j])
    ensures Nodes(Chosen(lines, page, matches, i, j), 0) <= Members(lines)
  {
    if i < j {
      ChosenMembers(lines, page, matches, i, j - 1);
      var a, b := Chosen(lines, page, matches, i, j - 1), Chosen(lines, page, matches, i, j);
      assert lines[..j] == lines[..j - 1] + [lines[j - 1]];
      forall k | 0 <= k < |b| && b[k].Active?
        ensures b[k].node in lines[..j]
      {
        if k < |a| { assert b[k] == a[k] && a[k].node in Nodes(a, 0); }
      }
    }
  }

  /** The nodes chosen are those of the matching lines of the range, no more and no fewer. */
  lemma {:induction false} ChosenMatch(lines: seq<Node>, page: seq<string>, matches: string -> bool, i: nat, j: nat,
                                       x: Node)
    requires i <= j <= |lines| == |page|
    ensures x in Nodes(Chosen(lines, page, matches, i, j), 0)
      <==> exists k :: i <= k < j && lines[k] == x && matches(page[k])
  {
    if i < j {
      ChosenMatch(lines, page, matches, i, j - 1, x);
      var a, b := Chosen(lines, page, matches, i, j - 1), Chosen(lines, page, matches, i, j);
      assert forall k :: 0 <= k < |a| ==> b[k] == a[k];
      assert |b| > |a| ==> b[|a|] == Active(lines[j - 1]);
      if x in Nodes(a, 0) {
        var k :| 0 <= k < |a| && a[k] == Active(x);
        assert b[k] == Active(x);
      }
    }
  }

  // The list built holds the matching lines in their order.
  lemma {:induction false} ChosenQueue(lines: seq<Node>, page: seq<string>, matches: string -> bool, i: nat, j: nat,
                                       xs: set<Node>)
    requires i <= j <= |lines| == |page|
    requires forall k :: i <= k < j ==> (lines[k] in xs <==> matches(page[k]))
    ensures Queue(Chosen(lines, page, matches, i, j)) == Keep(lines[i..j], xs)
  {
    if i < j {
      ChosenQueue(lines, page, matches, i, j - 1, xs);
      assert lines[i..j] == lines[i..j - 1] + [lines[j - 1]];
      KeepConcat(lines[i..j - 1], [lines[j - 1]], xs);
      QueueConcat(Chosen(lines, page, matches, i, j - 1),
                  if matches(page[j - 1]) then [Active(lines[j - 1])] else []);
    }
  }

  lemma ChosenTidy(lines: seq<Node>, page: seq<string>, matches: string -> bool, i: nat, j: nat)
    requires i <= j <= |lines| == |page| && Distinct(lines)
    ensures Tidy(lines, Chosen(lines, page, matches, i, j), 0)
    ensures FlagsOf(lines, Nodes(Chosen(lines, page, matches, i, j), 0)) == MatchFlags(page, matches, i, j)
  {
    hide Chosen, Queue, Keep, Nodes;
    var list := Chosen(lines, page, matches, i, j);
    var xs := Nodes(list, 0);
    forall k | 0 <= k < |lines| ensures lines[k] in xs <==> i <= k < j && matches(page[k]) {
      ChosenMatch(lines, page, matches, i, j, lines[k]);
    }
    ChosenQueue(lines, page, matches, i, j, xs);
    KeepConcat(lines[..i], lines[i..j], xs);
    KeepConcat(lines[..i] + lines[i..j], lines[j..], xs);
    assert lines == lines[..i] + lines[i..j] + lines[j..] && list[0..] == list;
    KeepNone(lines[..i], xs);
    KeepNone(lines[j..], xs);
  }

  lemma ChosenMore(c: Config<Node>, page: seq<string>, matches: string -> bool, i: nat, j: nat)
    requires Ring(HEAD, c) && i <= j < |c.lines| == |page|
    ensures Chosen(c.lines, page, matches, i, j + 1)
      == Chosen(c.lines, page, matches, i, j) + if matches(page[j]) then [Active(c.lines[j])] else []
    ensures c.lines[j] !in Nodes(Chosen(c.lines, page, matches, i, j), 0)
  {
    ChosenMembers(c.lines, page, matches, i, j);
    assert c.lines[j] !in c.lines[..j];
    assert c.lines[j] !in Members(c.lines[..j]);
  }

  // malloc always finds an address.
  lemma FreeAddress(used: set<Node>)
    ensures exists x: Node :: x !in used
  {
    var x := UpperBound(used);
    assert x !in used;
  }

  ghost function UpperBound(s: set<Node>): (b: Node)
    ensures forall y :: y in s ==> y < b
  {
    if s == {} then 0
    else
      var y :| y in s;
      var b := UpperBound(s - {y});
      assert forall z :: z in s ==> z == y || z in s - {y};
      if b > y then b else y + 1
  }

  lemma AtInserted(s: seq<Node>, i: nat, x: Node)
    requires i <= |s|
    ensures At(HEAD, With(s, i, [x]), i + 1) == x
  {
  }

  lemma UnsetNone(list: seq<Slot<Node>>, s: seq<Node>, i: nat)
    requires i <= |s|
    ensures Unset(list, Members(Slice(s, i, 0))) == list
  {
  }

  lemma UnsetMore(list: seq<Slot<Node>>, s: seq<Node>, i: nat, n: nat)
    requires i + n < |s|
    ensures Unset(Unset(list, Members(Slice(s, i, n))), {s[i + n]}) == Unset(list, Members(Slice(s, i, n + 1)))
  {
    hide Unset;
    UnsetTwice(list, Members(Slice(s, i, n)), {s[i + n]});
    assert Slice(s, i, n + 1) == Slice(s, i, n) + [s[i + n]];
    hide Slice;
    assert Members(Slice(s, i, n + 1)) == Members(Slice(s, i, n)) + {s[i + n]};
  }

  // A walk that meets the node at address j is at address j.
  lemma AtStops(c: Config<Node>, k: int, j: int)
    requires Ring(HEAD, c) && 1 <= k <= j <= |c.lines| + 1
    ensures At(HEAD, c.lines, k) == At(HEAD, c.lines, j) ==> k == j
  {
  }

  class Editor {
    var links: Links<Node>              // q_forw and q_back of every allocated node
    var recs: map<Node, Rec>            // seek and len of every allocated line node
    ghost var text: map<Node, string>   // the text a line node was made for
    ghost var lines: seq<Node>          // the queue, in order
    ghost var steps: seq<Step<Node>>    // the undo stack with the segments it is about
    var lp: Node                        // cached lookup: the node at line number `on`
    var on: int
    var currentAddr: int
    var addrLast: int
    var ustack: seq<Undo<Node>>
    var uCurrentAddr: int               // -1: nothing to undo
    var uAddrLast: int
    var modified: bool
    var isGlobal: bool
    var lost: set<Node>                 // allocated for lines that were refused, and never linked
    const scratch: ScratchFile
    const active: ActiveList<Node>

    ghost function Cfg(): Config<Node>
      reads this`links, this`lines
    {
      Config(links, lines)
    }

    ghost predicate Linked()
      reads this`links, this`lines, this`addrLast
    {
      Ring(HEAD, Cfg()) && |lines| == addrLast
    }

    ghost predicate Cached()
      reads this`lines, this`lp, this`on
    {
      0 <= on <= |lines| && lp == At(HEAD, lines, on)
    }

    ghost predicate Recorded()
      reads this`links, this`lines, this`steps, this`ustack
    {
      Track(HEAD, links.forw.Keys, Cfg(), steps, Marks(ustack))
    }

    // The lines as they were when the undo stack was last cleared.
    ghost function Saved(): seq<Node>
      reads this`links, this`lines, this`steps
    {
      SavedLines(HEAD, Cfg(), steps)
    }

    ghost predicate Saves()
      reads this`links, this`lines, this`steps, this`uCurrentAddr, this`uAddrLast
    {
      && (uAddrLast == -1 <==> uCurrentAddr == -1)
      && (uAddrLast != -1 ==> uAddrLast == |Saved()| && 0 <= uCurrentAddr <= uAddrLast)
    }

    ghost predicate Stored()
      reads this`links, this`recs, this`text, scratch
    {
      scratch.Valid() && Texts(links.forw.Keys, recs, text, scratch.bytes)
    }

    // What a global command is still to visit is in the queue, and listed in its order.
    ghost predicate Listed()
      reads this`lines, this`isGlobal, active
    {
      active.Valid() && (isGlobal ==> Tidy(lines, active.list, active.ptr))
    }

    // Which lines a global command is still to visit.
    ghost function Flags(): (r: seq<bool>)
      reads this`lines, this`isGlobal, active
      ensures |r| == |lines|
    {
      FlagsOf(lines, Pends(isGlobal, active.list, active.ptr))
    }

    ghost predicate Valid()
      reads this, scratch, active
    {
      Linked() && Cached() && 0 <= currentAddr <= addrLast && Recorded() && Saves() && Stored() && Listed()
    }

    // init_buffers
    constructor ()
      ensures Valid() && lines == [] && currentAddr == 0 && uAddrLast == -1 && !isGlobal && lost == {}
      ensures fresh(scratch) && fresh(active)
    {
      links := Links(map[HEAD := HEAD], map[HEAD := HEAD]);
      recs, text, lines, steps := map[], map[], [], [];
      lp, on, currentAddr, addrLast := HEAD, 0, 0, 0;
      ustack, uCurrentAddr, uAddrLast := [], -1, -1;
      modified, isGlobal, lost := false, false, {};
      scratch := new ScratchFile();
      active := new ActiveList<Node>();
      new;
      TrackEmpty(HEAD);
      assert Cfg() == Config(Links(map[HEAD := HEAD], map[HEAD := HEAD]), []);
      TrackRing(HEAD, {HEAD}, Cfg(), steps, []);
    }

    method WalkForward(start: Node, k: int, n: int) returns (p: Node)
      requires Linked() && 0 <= k <= n <= addrLast && start == At(HEAD, lines, k)
      ensures p == At(HEAD, lines, n)
    {
      hide Ring;
      p := start;
      for i := k to n
        invariant p == At(HEAD, lines, i)
      {
        RingAt(HEAD, Cfg(), i);
        p := links.forw[p];
      }
    }

    method WalkBack(start: Node, k: int, n: int) returns (p: Node)
      requires Linked() && 0 <= n <= k <= addrLast && start == At(HEAD, lines, k)
      ensures p == At(HEAD, lines, n)
    {
      hide Ring;
      p := start;
      for i := k downto n
        invariant p == At(HEAD, lines, i)
      {
        RingAt(HEAD, Cfg(), i);
        p := links.back[p];
      }
    }

    /** get_addressed_line_node: the node of line n, found from the cached position or from
        either end of the queue; one past the last line gives the last node. */
    method GetAddressedLineNode(n: int) returns (r: Node)
      requires Linked() && Cached() && 0 <= n <= addrLast + 1
      modifies this`lp, this`on
      ensures Cached() && r == lp && r in links.forw && r in links.back
      ensures on == if n <= addrLast then n else addrLast
    {
      hide Ring;
      var target := if n <= addrLast then n else addrLast;
      if n > on {
        if n <= (on + addrLast) / 2 {
          r := WalkForward(lp, on, n);
        } else {
          RingAt(HEAD, Cfg(), addrLast);
          r := WalkBack(links.back[HEAD], addrLast, target);
        }
      } else if n >= on / 2 {
        r := WalkBack(lp, on, n);
      } else {
        r := WalkForward(HEAD, 0, n);
      }
      RingAt(HEAD, Cfg(), target);
      RingKeys(HEAD, Cfg());
      lp, on := r, target;
    }

    // push_undo_stack
    method PushUndo(kind: UndoType, from: int, to: int)
      requires Linked() && Cached() && 0 <= from <= addrLast && 0 <= to <= addrLast
      modifies this`lp, this`on, this`ustack
      ensures Cached()
      ensures ustack == old(ustack) + [Undo(kind, At(HEAD, lines, from), At(HEAD, lines, to))]
    {
      hide Ring;
      var t := GetAddressedLineNode(to);
      var h := GetAddressedLineNode(from);
      ustack := ustack + [Undo(kind, h, t)];
    }

    // unset_active_nodes: take lines i up to j out of the global list
    method UnsetActiveNodes(np: Node, mp: Node, ghost i: int, ghost j: int)
      requires Linked() && active.Valid() && 1 <= i <= j <= addrLast + 1
      requires np == At(HEAD, lines, i) && mp == At(HEAD, lines, j)
      modifies active`list, active`ndx
      ensures active.Valid() && active.list == Unset(old(active.list), Members(Slice(lines, i - 1, j - i)))
    {
      hide Ring, Unset, Once, Members, Slice;
      var x := np;
      ghost var k := i;
      UnsetNone(active.list, lines, i - 1);
      AtStops(Cfg(), k, j);
      while x != mp
        invariant i <= k <= j && x == At(HEAD, lines, k) && (x == mp ==> k == j)
        invariant active.Valid() && active.list == Unset(old(active.list), Members(Slice(lines, i - 1, k - i)))
        decreases j - k
      {
        active.UnsetOne(x);
        UnsetMore(old(active.list), lines, i - 1, k - i);
        RingAt(HEAD, Cfg(), k);
        x, k := links.forw[x], k + 1;
        AtStops(Cfg(), k, j);
      }
    }

    // The start of delete_lines: the record, and the lookups with the cached one last.
    method RecordDeletion(from: int, to: int) returns (p: Node, n: Node)
      requires Linked() && Cached() && 1 <= from <= to <= addrLast
      modifies this`lp, this`on, this`ustack
      ensures Cached() && on == from - 1
      ensures p == At(HEAD, lines, from - 1) && n == At(HEAD, lines, to + 1)
      ensures ustack == old(ustack) + [Undo(UDEL, At(HEAD, lines, from), At(HEAD, lines, to))]
    {
      hide Ring;
      PushUndo(UDEL, from, to);
      n := GetAddressedLineNode(IncMod(to, addrLast));
      p := GetAddressedLineNode(from - 1);
    }

    // The end of delete_lines: neighbours p and n are linked to each other.
    method UnlinkLines(p: Node, n: Node, from: int, to: int, ghost us: seq<Undo<Node>>)
      requires Linked() && 1 <= from <= to <= addrLast && Cached() && on <= from - 1
      requires p == At(HEAD, lines, from - 1) && n == At(HEAD, lines, to + 1)
      requires Track(HEAD, links.forw.Keys, Cfg(), steps, Marks(us))
      requires ustack == us + [Undo(UDEL, At(HEAD, lines, from), At(HEAD, lines, to))]
      modifies this`links, this`lines, this`steps, this`addrLast, this`currentAddr, this`modified
      ensures Linked() && Cached() && Recorded() && Saved() == old(Saved())
      ensures links.forw.Keys == old(links.forw.Keys)
      ensures lines == Without(old(lines), from - 1, to - from + 1)
      ensures Members(lines) == old(Members(lines)) - Members(Slice(old(lines), from - 1, to - from + 1))
      ensures currentAddr == from - 1 && modified
    {
      hide Ring, Track, SavedLines, Members, Slice, Without, Marks, Reque;
      ghost var nodes, c := links.forw.Keys, Cfg();
      ghost var c', steps' := TrackDelete(HEAD, nodes, c, steps, Marks(us), from - 1, to - from + 1);
      MarksPush(us, ustack[|us|]);
      TrackRing(HEAD, nodes, c', steps', Marks(ustack));
      RingAt(HEAD, c, from - 1);
      RingAt(HEAD, c, to);
      AtWithout(HEAD, c.lines, from - 1, to - from + 1, on);
      links := EdLinks.Reque(links, p, n);
      lines, steps := c'.lines, steps';
      addrLast, currentAddr, modified := addrLast - (to - from + 1), from - 1, true;
      assert Cfg() == c';
    }

    // Lines from..to, about to be deleted or just moved, leave the list of a global command.
    method UnsetRange(np: Node, mp: Node, ghost from: int, ghost to: int)
      requires Linked() && active.Valid() && 1 <= from <= to <= addrLast
      requires np == At(HEAD, lines, from) && mp == At(HEAD, lines, to + 1)
      modifies active`list, active`ndx
      ensures active.Valid() && Shrunk(old(active.list), active.list)
      ensures active.list == Strike(isGlobal, old(active.list), Members(Slice(lines, from - 1, to - from + 1)))
    {
      hide Shrunk, Ring, Unset, Once, Members, Slice, Nodes;
      ShrunkSelf(active.list);
      UnsetShrinks(active.list, Members(Slice(lines, from - 1, to - from + 1)));
      if isGlobal {
        UnsetActiveNodes(np, mp, from, to + 1);
      }
    }

    // delete_lines, up to what a global command is still to visit.
    method RemoveLines(from: int, to: int)
      requires Linked() && Cached() && Recorded() && active.Valid() && 1 <= from <= to <= addrLast
      modifies this`links, this`lines, this`steps, this`ustack, this`addrLast, this`currentAddr, this`modified,
        this`lp, this`on, active`list, active`ndx
      ensures Linked() && Cached() && Recorded() && active.Valid() && Saved() == old(Saved())
      ensures links.forw.Keys == old(links.forw.Keys)
      ensures lines == Without(old(lines), from - 1, to - from + 1)
      ensures currentAddr == from - 1 && modified
      ensures active.list == Strike(isGlobal, old(active.list), Members(Slice(old(lines), from - 1, to - from + 1)))
      ensures Shrunk(old(active.list), active.list)
    {
      hide Shrunk, Ring, Track, SavedLines, Members, Once, Without, Slice, Marks, Strike;
      var p, n := RecordDeletion(from, to);
      RingAt(HEAD, Cfg(), from - 1);
      UnsetRange(links.forw[p], n, from, to);
      UnlinkLines(p, n, from, to, old(ustack));
    }

    /** delete_lines: the lines leave the queue, the record keeps the way back. */
    method DeleteLines(from: int, to: int)
      requires Valid() && 1 <= from <= to <= addrLast
      modifies this`links, this`lines, this`steps, this`ustack, this`addrLast, this`currentAddr, this`modified,
        this`lp, this`on, active`list, active`ndx
      ensures Valid()
      ensures lines == Without(old(lines), from - 1, to - from + 1)
      ensures Saved() == old(Saved())
      ensures currentAddr == from - 1 && modified
      ensures Flags() == Without(old(Flags()), from - 1, to - from + 1)
      ensures Shrunk(old(active.list), active.list)
    {
      hide Shrunk, Ring, Track, SavedLines, Members, Once, Slice, Marks, Texts, Tidy, FlagsOf, Pends, Strike,
           Cached, Recorded;
      LinesDistinct(Cfg());
      DeleteFlags(isGlobal, lines, active.list, active.ptr, from - 1, to - from + 1);
      RemoveLines(from, to);
    }

    // add_line_node: the new node goes after the current line
    method AddLineNode(x: Node)
      requires Linked() && Cached() && 0 <= currentAddr <= addrLast && x !in links.forw
      modifies this`links, this`lines, this`lp, this`on, this`addrLast, this`currentAddr
      ensures At(HEAD, old(lines), old(currentAddr)) in Fresh(old(links), x).forw
      ensures links == Insque(Fresh(old(links), x), x, At(HEAD, old(lines), old(currentAddr)))
      ensures lines == With(old(lines), old(currentAddr), [x])
      ensures Linked() && Cached() && currentAddr == old(currentAddr) + 1
    {
      hide Ring;
      var cp := GetAddressedLineNode(currentAddr);
      InsertRing(HEAD, Cfg(), currentAddr, x);
      links := Insque(Fresh(links, x), x, cp);
      lines := With(lines, currentAddr, [x]);
      addrLast, currentAddr := addrLast + 1, currentAddr + 1;
    }

    // The buffer is c with node x added before the present current line.
    ghost predicate Added(c: Config<Node>, x: Node)
      reads this`links, this`lines, this`currentAddr
    {
      && 0 <= currentAddr - 1 <= |c.lines| && At(HEAD, c.lines, currentAddr - 1) in Fresh(c.links, x).forw
      && links == Insque(Fresh(c.links, x), x, At(HEAD, c.lines, currentAddr - 1))
      && lines == With(c.lines, currentAddr - 1, [x])
    }

    method StartInsertion(x: Node, ghost c: Config<Node>) returns (r: int)
      requires Linked() && Cached() && 1 <= currentAddr <= addrLast && x == At(HEAD, lines, currentAddr)
      requires Track(HEAD, c.links.forw.Keys, c, steps, Marks(ustack)) && x !in c.links.forw
      requires Added(c, x)
      modifies this`lp, this`on, this`ustack, this`steps
      ensures Linked() && Cached() && Recorded() && Saved() == SavedLines(HEAD, c, old(steps))
      ensures links.forw.Keys == c.links.forw.Keys + {x} && Members(lines) == Members(c.lines) + {x}
      ensures r >= 0 && r == |ustack| - 1 && Open(steps, currentAddr)
    {
      hide Ring, Track, SavedLines, Members, Open, Marks, With;
      ghost var c', steps' := TrackInsert(HEAD, c.links.forw.Keys, c, steps, Marks(ustack), currentAddr - 1, x);
      PushUndo(UADD, currentAddr, currentAddr);
      MarksPush(old(ustack), Undo(UADD, x, x));
      steps := steps';
      r := |ustack| - 1;
    }

    // The record's end is looked up, or, when a line was copied, known.
    method ExtendInsertion(x: Node, up: int, copied: bool, ghost c: Config<Node>)
      requires Linked() && Cached() && 1 <= currentAddr <= addrLast && x == At(HEAD, lines, currentAddr)
      requires Track(HEAD, c.links.forw.Keys, c, steps, Marks(ustack)) && x !in c.links.forw
      requires Added(c, x)
      requires up == |ustack| - 1 && Open(steps, currentAddr - 1)
      modifies this`lp, this`on, this`ustack, this`steps
      ensures Linked() && Cached() && Recorded() && Saved() == SavedLines(HEAD, c, old(steps))
      ensures links.forw.Keys == c.links.forw.Keys + {x} && Members(lines) == Members(c.lines) + {x}
      ensures |ustack| == old(|ustack|) && Open(steps, currentAddr)
    {
      hide Ring, Track, SavedLines, Members, Open;
      ghost var c', steps' := TrackExtend(HEAD, c.links.forw.Keys, c, steps, Marks(ustack), currentAddr - 1, x);
      var t := x;
      if !copied {
        t := GetAddressedLineNode(currentAddr);
      }
      MarksEnd(ustack, t);
      ustack := ustack[up := ustack[up].(t := t)];
      steps := steps';
    }

    // Whether `up` may stand for the record that the next inserted line belongs to.
    ghost predicate Upward(up: int)
      reads this`ustack, this`steps, this`currentAddr
    {
      up == -1 || (up == |ustack| - 1 && Open(steps, currentAddr))
    }

    // add_line_node with its record
    method LinkNode(x: Node, up: int, copied: bool) returns (r: int)
      requires Linked() && Cached() && 0 <= currentAddr <= addrLast && Recorded() && Upward(up)
      requires x !in links.forw
      modifies this`links, this`lines, this`steps, this`ustack, this`lp, this`on, this`addrLast, this`currentAddr
      ensures Linked() && Cached() && currentAddr == old(currentAddr) + 1 && currentAddr <= addrLast
      ensures Recorded() && r >= 0 && Upward(r) && Saved() == old(Saved())
      ensures lines == With(old(lines), old(currentAddr), [x])
      ensures links.forw.Keys == old(links.forw.Keys) + {x} && Members(lines) == old(Members(lines)) + {x}
    {
      hide Ring, Track, SavedLines, Members, Open, Marks, With, Insque;
      ghost var c := Cfg();
      AddLineNode(x);
      AtInserted(c.lines, currentAddr - 1, x);
      if up >= 0 {
        ExtendInsertion(x, up, copied, c);
        r := up;
      } else {
        r := StartInsertion(x, c);
      }
    }

    // malloc: an address that is not in use
    method Malloc() returns (x: Node)
      ensures x !in links.forw && x !in lost
    {
      FreeAddress(links.forw.Keys + lost);
      x :| x !in links.forw && x !in lost;
    }

    /** A new node for text already in the scratch file goes after the current line, and
        into a new insertion record or the one that `up` stands for. */
    method InsertNode(x: Node, rec: Rec, ghost txt: string, up: int, copied: bool) returns (r: int)
      requires Valid() && Upward(up) && Lies(rec, txt, scratch.bytes) && x !in links.forw
      modifies this`links, this`recs, this`text, this`lines, this`steps, this`ustack, this`lp, this`on,
        this`addrLast, this`currentAddr
      ensures Valid() && r >= 0 && Upward(r) && Saved() == old(Saved())
      ensures recs == old(recs)[x := rec] && text == old(text)[x := txt]
      ensures lines == With(old(lines), old(currentAddr), [x]) && currentAddr == old(currentAddr) + 1
      ensures Flags() == With(old(Flags()), old(currentAddr), [false])
    {
      hide Ring, Track, SavedLines, Members, Open, Marks, Once, With, Texts, Lies, Tidy, FlagsOf, Pends, Cached;
      RingKeys(HEAD, Cfg());
      RingDomain(HEAD, Cfg());
      NotInUse(links.forw.Keys, lines, x);
      InsertFlags(isGlobal, lines, active.list, active.ptr, currentAddr, x);
      TextsAdd(links.forw.Keys, recs, text, scratch.bytes, x, rec, txt);
      r := LinkNode(x, up, copied);
      recs, text := recs[x := rec], text[x := txt];
      assert Stored();
      assert Listed();
      assert Saves();
    }

    // The texts of the lines, in order.
    ghost function Page(): seq<string>
      reads this`text, this`lines
    {
      TextsAt(text, lines)
    }

    // get_sbuf_line for the node of a line
    method GetSbufLine(x: Node) returns (s: string)
      requires Stored() && x in recs
      modifies scratch
      ensures Stored() && scratch.bytes == old(scratch.bytes) && s == text[x] && '\n' !in s
    {
      s := scratch.Get(recs[x].seek, recs[x].len);
    }

    lemma LineStored(n: int)
      requires Linked() && Recorded() && Stored() && 1 <= n <= addrLast
      ensures lines[n - 1] in recs && lines[n - 1] in text && Page()[n - 1] == text[lines[n - 1]]
    {
      TrackRing(HEAD, links.forw.Keys, Cfg(), steps, Marks(ustack));
      assert lines[n - 1] in Members(lines);
    }

    /** put_sbuf_line with its record: the first line of cs is stored and becomes a line
        after the current one; `rest` is what follows it. The node is allocated first, and
        lost when the line is refused. */
    method PutSbufLine(cs: string, up: int, copied: bool) returns (ok: bool, rest: string, r: int)
      requires Valid() && Upward(up) && '\n' in cs
      modifies this`links, this`recs, this`text, this`lines, this`steps, this`ustack, this`lp, this`on,
        this`addrLast, this`currentAddr, this`lost, scratch
      ensures Valid() && Upward(r) && Saved() == old(Saved()) && Extends(old(text), text)
      ensures ok <==> NewlineAt(cs) < LINECHARS
      ensures !ok ==> r == up && lines == old(lines) && text == old(text) && currentAddr == old(currentAddr)
      ensures !ok ==> Flags() == old(Flags())
      ensures !ok ==> exists x :: x !in old(links.forw) && x !in old(lost) && lost == old(lost) + {x}
      ensures ok ==> r >= 0 && rest == cs[NewlineAt(cs) + 1..] && currentAddr == old(currentAddr) + 1
      ensures ok ==> Page() == With(old(Page()), old(currentAddr), [cs[..NewlineAt(cs)]])
      ensures ok ==> Flags() == With(old(Flags()), old(currentAddr), [false]) && lost == old(lost)
    {
      hide Ring, Track, SavedLines, Members, Open, Marks, Nodes, Once, With, Texts, Lies, TextsAt, Tidy, FlagsOf, Pends;
      var x := Malloc();
      var n := 0;
      while cs[n] != '\n'
        invariant 0 <= n <= NewlineAt(cs)
        decreases NewlineAt(cs) - n
      {
        n := n + 1;
      }
      FirstNewline(cs, n);
      if n >= LINECHARS {
        lost := lost + {x};
        return false, cs, up;
      }
      TrackRing(HEAD, links.forw.Keys, Cfg(), steps, Marks(ustack));
      TextsGrow(links.forw.Keys, recs, text, scratch.bytes, cs[..n]);
      LiesAtEnd(scratch.bytes, cs[..n]);
      var seek := scratch.Put(cs[..n]);
      r := InsertNode(x, Rec(seek, n), cs[..n], up, copied);
      ok, rest := true, cs[n + 1..];
      NewText(old(links.forw.Keys), old(recs), old(text), old(scratch.bytes), old(lines), old(currentAddr), x, cs[..n]);
    }

    lemma Bounds()
      requires Valid()
      ensures 0 <= currentAddr <= addrLast && |lines| == addrLast && |Page()| == addrLast && |Flags()| == addrLast
      ensures Members(lines) <= text.Keys
    {
      TrackRing(HEAD, links.forw.Keys, Cfg(), steps, Marks(ustack));
    }

    lemma ActiveBounds()
      requires Valid()
      ensures active.ptr <= |active.list| && Once(active.list) && Distinct(lines)
      ensures isGlobal ==> Tidy(lines, active.list, active.ptr)
    {
    }

    // The lines an undo would give still have their texts.
    lemma SavedKnown()
      requires Valid()
      ensures Members(Saved()) <= text.Keys
    {
      SavedNodes(HEAD, links.forw.Keys, Cfg(), steps, Marks(ustack));
    }

    // The stored records are those of the steps.
    lemma RecordsKnown()
      requires Valid()
      ensures Renderable(steps) && Marks(ustack) == Rendered(steps)
    {
    }

    // isglobal = 0
    method EndGlobal()
      requires Valid()
      modifies this`isGlobal
      ensures Valid() && !isGlobal
    {
      hide Ring, Track, SavedLines, Texts, Members, Once, Tidy;
      isGlobal := false;
    }

    lemma UndoNumbers()
      requires Valid()
      ensures addrLast == |lines| >= 0 && (uAddrLast != -1 ==> uAddrLast == |Saved()|)
      ensures uAddrLast == -1 <==> uCurrentAddr == -1
    {
    }

    /** Storing a newline-terminated text line by line, as one insertion. */
    method PutLines(cs: string, up: int) returns (r: int)
      requires Valid() && Upward(up) && Terminated(cs) && 0 < |cs| <= LINECHARS
      modifies this`links, this`recs, this`text, this`lines, this`steps, this`ustack, this`lp, this`on,
        this`addrLast, this`currentAddr, this`lost, scratch
      ensures Valid() && r >= 0 && Upward(r) && Saved() == old(Saved()) && Extends(old(text), text) && lost == old(lost)
      ensures Page() == With(old(Page()), old(currentAddr), Pieces(cs))
      ensures Flags() == With(old(Flags()), old(currentAddr), Falses(|Pieces(cs)|))
      ensures currentAddr == old(currentAddr) + |Pieces(cs)|
    {
      hide Valid, Upward, Saved, With, TextsAt, Extends, Pieces, NewlineAt, Terminated, Page, Flags, Falses;
      Bounds();
      ExtendsSelf(text);
      var rest := cs;
      r := up;
      ghost var done: seq<string> := [];
      WithNothing(Page(), currentAddr);
      WithNothing(Flags(), currentAddr);
      NoFalses();
      PiecesStart(cs);
      while |rest| > 0
        invariant Valid() && Upward(r) && Saved() == old(Saved()) && Extends(old(text), text)
        invariant Terminated(rest) && |rest| <= LINECHARS && (r >= 0 || rest == cs)
        invariant Pieces(cs) == done + Pieces(rest)
        invariant Page() == With(old(Page()), old(currentAddr), done) && currentAddr == old(currentAddr) + |done|
        invariant Flags() == With(old(Flags()), old(currentAddr), Falses(|done|)) && lost == old(lost)
        decreases |rest|
      {
        ghost var mid := text;
        PiecesStep(rest, done);
        var ok, rest', r' := PutSbufLine(rest, r, false);
        ExtendsTrans(old(text), mid, text);
        WithMore(old(Page()), old(currentAddr), done, rest[..NewlineAt(rest)]);
        FalsesMore(|done|);
        WithMore(old(Flags()), old(currentAddr), Falses(|done|), false);
        done := done + [rest[..NewlineAt(rest)]];
        rest, r := rest', r';
      }
      PiecesEnd(rest, done);
    }

    method SetCurrent(n: int)
      requires Valid() && 0 <= n <= addrLast
      modifies this`currentAddr
      ensures Valid() && currentAddr == n
    {
      hide Ring, Track, SavedLines, Texts, Nodes, Members, Once;
      currentAddr := n;
    }

    method SetModified()
      requires Valid()
      modifies this`modified
      ensures Valid() && modified
    {
      hide Ring, Track, SavedLines, Texts, Nodes, Members, Once;
      modified := true;
    }

    // The lines of one string read, after the current line.
    method AppendText(cs: string, up: int) returns (r: int)
      requires Valid() && Upward(up) && Terminated(cs) && 0 < |cs| <= LINECHARS
      modifies this`links, this`recs, this`text, this`lines, this`steps, this`ustack, this`lp, this`on,
        this`addrLast, this`currentAddr, this`modified, this`lost, scratch
      ensures Valid() && Upward(r) && Saved() == old(Saved()) && Extends(old(text), text) && lost == old(lost)
      ensures Page() == With(old(Page()), old(currentAddr), Pieces(cs)) && modified && |Pieces(cs)| > 0
      ensures Flags() == With(old(Flags()), old(currentAddr), Falses(|Pieces(cs)|))
      ensures currentAddr == old(currentAddr) + |Pieces(cs)|
    {
      hide *;
      Bounds();
      r := PutLines(cs, up);
      PiecesNonempty(cs);
      SetModified();
    }

    /** append_lines: the lines read, up to a lone period or the end of the input, go after
        line n; a piece of a line at the end of the input is dropped and reported. */
    method AppendLines(n: int, input: seq<string>) returns (ok: bool)
      requires Valid() && 0 <= n <= addrLast && forall k :: 0 <= k < |input| ==> |input[k]| <= LINECHARS
      modifies this`links, this`recs, this`text, this`lines, this`steps, this`ustack, this`lp, this`on,
        this`addrLast, this`currentAddr, this`modified, this`lost, scratch
      ensures Valid() && Saved() == old(Saved()) && Extends(old(text), text) && lost == old(lost)
      ensures Page() == With(old(Page()), n, BeforeDot(input)) && currentAddr == n + |BeforeDot(input)|
      ensures Flags() == With(old(Flags()), n, Falses(|BeforeDot(input)|))
      ensures modified == (old(modified) || |BeforeDot(input)| > 0)
      ensures ok <==> !Dangling(input)
    {
      hide Valid, Saved, With, TextsAt, Extends, Pieces, Open, Page, Flags, Falses, Slice, BeforeDot, Dangling;
      Bounds();
      SetCurrent(n);
      ExtendsSelf(text);
      var up, k := -1, 0;
      ghost var done: seq<string> := [];
      WithNothing(Page(), n);
      WithNothing(Flags(), n);
      NoFalses();
      FromZero(input, |input|);
      assert input[..|input|] == input;
      Nothing(BeforeDot(input));
      while k < |input|
        invariant 0 <= k <= |input| && Valid() && Upward(up)
        invariant Saved() == old(Saved()) && Extends(old(text), text) && lost == old(lost)
        invariant BeforeDot(input) == done + BeforeDot(Slice(input, k, |input| - k))
        invariant Dangling(input) == Dangling(Slice(input, k, |input| - k))
        invariant Page() == With(old(Page()), n, done) && currentAddr == n + |done|
        invariant Flags() == With(old(Flags()), n, Falses(|done|))
        invariant modified == (old(modified) || |done| > 0)
      {
        BeforeDotStep(input, k, done);
        if |input[k]| == 0 || input[k][|input[k]| - 1] != '\n' {
          return |input[k]| == 0;
        }
        if input[k] == ".\n" {
          return true;
        }
        ghost var mid := text;
        up := AppendText(input[k], up);
        ExtendsTrans(old(text), mid, text);
        WithPieces(old(Page()), n, done, Pieces(input[k]));
        FalsesConcat(|done|, |Pieces(input[k])|);
        WithPieces(old(Flags()), n, Falses(|done|), Falses(|Pieces(input[k])|));
        done := done + Pieces(input[k]);
        k := k + 1;
      }
      SliceNone(input, k);
      BeforeDotEnd();
      Nothing(done);
      ok := true;
    }

    method ReadLine(x: Node, ghost k: int) returns (s: string)
      requires Linked() && Recorded() && Stored() && 1 <= k <= addrLast && x == At(HEAD, lines, k)
      modifies scratch
      ensures Stored() && s == Page()[k - 1] && '\n' !in s
    {
      hide Ring, Track, Texts, TextsAt;
      LineStored(k);
      s := GetSbufLine(x);
    }

    method ReadValid(x: Node, ghost k: int) returns (s: string)
      requires Valid() && 1 <= k <= addrLast && x == At(HEAD, lines, k)
      modifies scratch
      ensures Valid() && 1 <= k <= |Page()| && s == Page()[k - 1] && '\n' !in s
    {
      hide Ring, Track, Texts, Saves, Listed, SavedLines;
      s := ReadLine(x, k);
    }

    // One step of a walk from line k that is to stop at line j
    function NextLine(x: Node, ghost k: int, ghost j: int): (y: Node)
      reads this, scratch, active
      requires Valid() && 1 <= k < j <= addrLast + 1 && x == At(HEAD, lines, k)
      ensures y == At(HEAD, lines, k + 1) && (y == At(HEAD, lines, j) ==> k + 1 == j)
    {
      RingAt(HEAD, Cfg(), k);
      AtStops(Cfg(), k + 1, j);
      links.forw[x]
    }

    // The nodes of a walk over lines from..to: the first and the one to stop at
    method Ends(from: int, to: int) returns (bp: Node, ep: Node)
      requires Valid() && 1 <= from <= to <= addrLast
      modifies this`lp, this`on
      ensures Valid() && |lines| == addrLast && bp == At(HEAD, lines, from) && ep == At(HEAD, lines, to + 1)
      ensures bp == ep ==> from == to + 1
    {
      hide Ring, Track, SavedLines, Texts, Saves, Listed, Stored, Recorded;
      ep := GetAddressedLineNode(IncMod(to, addrLast));
      bp := GetAddressedLineNode(from);
      AtStops(Cfg(), from, to + 1);
    }

    // The texts of lines from..to, one after the other
    method JoinText(from: int, to: int) returns (buf: string)
      requires Valid() && 1 <= from <= to <= addrLast
      modifies this`lp, this`on, scratch
      ensures Valid() && |Page()| == addrLast
      ensures buf == Concat(Slice(Page(), from - 1, to - from + 1)) && '\n' !in buf
    {
      hide Valid, Page, Concat, Slice, At;
      Bounds();
      var bp, ep := Ends(from, to);
      buf := "";
      ghost var k := from;
      ConcatNone(Page(), from - 1);
      while bp != ep
        invariant from <= k <= to + 1 && Valid() && |lines| == addrLast == |Page()|
        invariant bp == At(HEAD, lines, k) && (bp == ep ==> k == to + 1)
        invariant buf == Concat(Slice(Page(), from - 1, k - from)) && '\n' !in buf
        decreases 1 + to - k
      {
        var s := ReadValid(bp, k);
        ConcatMore(Page(), from - 1, k - from);
        buf := buf + s;
        bp, k := NextLine(bp, k, to + 1), k + 1;
      }
    }

    // The joined text takes the place of the lines.
    method PutJoined(from: int, to: int, buf: string)
      requires Valid() && 1 <= from <= to <= addrLast && '\n' !in buf && |buf| < LINECHARS
      modifies this`links, this`recs, this`text, this`lines, this`steps, this`ustack, this`lp, this`on,
        this`addrLast, this`currentAddr, this`modified, this`lost, scratch, active`list, active`ndx
      ensures Valid() && Saved() == old(Saved()) && Extends(old(text), text) && lost == old(lost)
      ensures |old(Page())| == |old(Flags())| == old(addrLast) && Shrunk(old(active.list), active.list)
      ensures Page() == With(Without(old(Page()), from - 1, to - from + 1), from - 1, [buf])
      ensures Flags() == With(Without(old(Flags()), from - 1, to - from + 1), from - 1, [false])
      ensures currentAddr == from
    {
      hide Shrunk, Valid, Saved, With, Without, Slice, TextsAt, Extends, Open, NewlineAt, Flags;
      Bounds();
      DeleteLines(from, to);
      TextsWithout(text, old(lines), from - 1, to - from + 1);
      Bounds();
      JoinedLine(buf);
      var ok, rest, r := PutSbufLine(buf + "\n", -1, false);
      SetModified();
    }

    /** join_lines: the lines become one line of their joined text. Its length and the two
        bytes after it are counted in an int; where that overflows, nothing is changed here. */
    method JoinLines(from: int, to: int) returns (ok: bool)
      requires Valid() && 1 <= from <= to <= addrLast
      modifies this`links, this`recs, this`text, this`lines, this`steps, this`ustack, this`lp, this`on,
        this`addrLast, this`currentAddr, this`modified, this`lost, scratch, active`list, active`ndx
      ensures Valid() && Saved() == old(Saved()) && Extends(old(text), text) && lost == old(lost)
      ensures |old(Page())| == |old(Flags())| == old(addrLast) && Shrunk(old(active.list), active.list)
      ensures ok <==> |Concat(Slice(old(Page()), from - 1, to - from + 1))| + 2 <= LINECHARS
      ensures !ok ==> Page() == old(Page()) && Flags() == old(Flags()) && currentAddr == old(currentAddr)
      ensures ok ==> Page() == With(Without(old(Page()), from - 1, to - from + 1), from - 1,
                                    [Concat(Slice(old(Page()), from - 1, to - from + 1))])
      ensures ok ==> Flags() == With(Without(old(Flags()), from - 1, to - from + 1), from - 1, [false])
      ensures ok ==> currentAddr == from
    {
      hide Shrunk, Valid, Saved, With, Without, Slice, TextsAt, Extends, Concat, Open, FlagsOf, Pends;
      Bounds();
      ExtendsSelf(text);
      ShrunkSelf(active.list);
      var buf := JoinText(from, to);
      if |buf| + 2 > LINECHARS {
        return false;
      }
      PutJoined(from, to, buf);
      ok := true;
    }

    // The two records of a move, lower then upper.
    ghost function MoveRecords(first: int, second: int, addr: int): seq<Undo<Node>>
      reads this`lines
      requires 1 <= first <= second <= |lines| && 0 <= addr <= |lines|
    {
      [Undo(UMOV, At(HEAD, lines, first - 1), At(HEAD, lines, second + 1)),
       Undo(UMOV, At(HEAD, lines, addr), At(HEAD, lines, addr + 1))]
    }

    // The start of move_lines: both records, and the lookups with the lowest one last.
    method RecordMove(first: int, second: int, addr: int) returns (b1: Node, a1: Node, b2: Node)
      requires Linked() && Cached() && 1 <= first <= second <= addrLast && 0 <= addr <= addrLast
      modifies this`lp, this`on, this`ustack
      ensures Cached() && on == if addr < first then addr else first - 1
      ensures b1 == At(HEAD, lines, first - 1) && a1 == At(HEAD, lines, second + 1) && b2 == At(HEAD, lines, addr)
      ensures ustack == old(ustack) + MoveRecords(first, second, addr)
    {
      hide Ring;
      var n, p := IncMod(second, addrLast), first - 1;
      PushUndo(UMOV, p, n);
      PushUndo(UMOV, addr, IncMod(addr, addrLast));
      a1 := GetAddressedLineNode(n);
      if addr < first {
        b1 := GetAddressedLineNode(p);
        b2 := GetAddressedLineNode(addr);
      } else {
        b2 := GetAddressedLineNode(addr);
        b1 := GetAddressedLineNode(p);
      }
    }

    // The three REQUEs of move_lines: the segment between b1 and a1 goes after b2.
    method RelinkNodes(b1: Node, a1: Node, b2: Node) returns (a2: Node)
      requires b1 in links.forw && b2 in links.forw && a1 in links.back
      modifies this`links
      ensures a2 == old(links).forw[b2] && links == MoveSegment(old(links), b2, a2, b1, a1)
    {
      a2 := links.forw[b2];
      var l1 := EdLinks.Reque(links, b2, links.forw[b1]);
      var l2 := EdLinks.Reque(l1, l1.back[a1], a2);
      links := EdLinks.Reque(l2, b1, a1);
    }

    // The middle of move_lines: three REQUEs.
    method RelinkLines(first: int, second: int, addr: int, b1: Node, a1: Node, b2: Node, ghost us: seq<Undo<Node>>)
      returns (a2: Node)
      requires Linked() && Cached() && 1 <= first <= second <= addrLast && 0 <= addr <= addrLast
      requires addr < first - 1 || second < addr
      requires on == if addr < first then addr else first - 1
      requires b1 == At(HEAD, lines, first - 1) && a1 == At(HEAD, lines, second + 1) && b2 == At(HEAD, lines, addr)
      requires Track(HEAD, links.forw.Keys, Cfg(), steps, Marks(us))
      requires ustack == us + MoveRecords(first, second, addr)
      modifies this`links, this`lines, this`steps, this`currentAddr
      ensures Linked() && Cached() && Recorded() && Saved() == old(Saved())
      ensures links.forw.Keys == old(links.forw.Keys) && Members(lines) == old(Members(lines))
      ensures lines == Moved(old(lines), first, second, addr)
      ensures currentAddr == addr + if addr < first then second - first + 1 else 0
      ensures a2 == At(HEAD, old(lines), addr + 1)
    {
      hide Ring, Track, SavedLines, Members, Marks, Slice, With, Without, At, MoveSegment;
      ghost var nodes, c := links.forw.Keys, Cfg();
      ghost var c', steps' := TrackMove(HEAD, nodes, c, steps, Marks(us), first - 1, second - first + 1, addr);
      MarksPushTwo(us, ustack[|us|], ustack[|us| + 1]);
      TrackRing(HEAD, nodes, c', steps', Marks(ustack));
      RingAt(HEAD, c, addr);
      MovedPlace(c.lines, first, second, addr);
      assert c'.lines == Moved(c.lines, first, second, addr);
      assert us + [ustack[|us|], ustack[|us| + 1]] == ustack;
      a2 := RelinkNodes(b1, a1, b2);
      lines, steps := c'.lines, steps';
      currentAddr := addr + if addr < first then second - first + 1 else 0;
      assert Cfg() == c';
    }

    // The neighbours of lines first..second, looked up for a move to where they are.
    method FindEnds(first: int, second: int) returns (b2: Node, a2: Node)
      requires Linked() && Cached() && 1 <= first <= second <= addrLast
      modifies this`lp, this`on
      ensures Cached() && b2 == At(HEAD, lines, first - 1) && a2 == At(HEAD, lines, second + 1)
    {
      hide Ring;
      a2 := GetAddressedLineNode(IncMod(second, addrLast));
      b2 := GetAddressedLineNode(first - 1);
    }

    /** move_lines, up to the list of a global command: the lines lie between b2 and a2. */
    method Relocate(first: int, second: int, addr: int) returns (b2: Node, a2: Node)
      requires Linked() && Cached() && Recorded() && 1 <= first <= second <= addrLast
      requires 0 <= addr <= addrLast && !(first <= addr < second)
      modifies this`links, this`lines, this`steps, this`ustack, this`currentAddr, this`lp, this`on
      ensures Linked() && Cached() && Recorded() && Saved() == old(Saved())
      ensures links.forw.Keys == old(links.forw.Keys) && Members(lines) == old(Members(lines))
      ensures lines == Moved(old(lines), first, second, addr)
      ensures currentAddr == if addr < first then addr + second - first + 1 else addr
      ensures b2 == At(HEAD, old(lines), if addr == second then first - 1 else addr)
      ensures a2 == At(HEAD, old(lines), if addr == first - 1 then second + 1 else addr + 1)
    {
      hide Ring, Track, SavedLines, Members, Marks, Slice, With, Without, At;
      if addr == first - 1 || addr == second {
        b2, a2 := FindEnds(first, second);
        currentAddr := second;
      } else {
        var b1, a1;
        b1, a1, b2 := RecordMove(first, second, addr);
        a2 := RelinkLines(first, second, addr, b1, a1, b2, old(ustack));
      }
    }

    // After a move, whether or not the lines changed place, they lie between b2 and a2.
    lemma MovedEnds(first: int, second: int, addr: int, b2: Node, a2: Node, s: seq<Node>)
      requires Linked() && 1 <= first <= second <= |s| && 0 <= addr <= |s| && !(first <= addr < second)
      requires lines == Moved(s, first, second, addr)
      requires currentAddr == if addr < first then addr + second - first + 1 else addr
      requires b2 == At(HEAD, s, if addr == second then first - 1 else addr)
      requires a2 == At(HEAD, s, if addr == first - 1 then second + 1 else addr + 1)
      ensures b2 in links.forw && 1 <= currentAddr - (second - first) && currentAddr <= addrLast
      ensures links.forw[b2] == At(HEAD, lines, currentAddr - (second - first))
      ensures a2 == At(HEAD, lines, currentAddr + 1)
      ensures Slice(lines, currentAddr - (second - first) - 1, second - first + 1)
        == Slice(s, first - 1, second - first + 1)
    {
      hide Ring, With, Without, Slice;
      RingAt(HEAD, Cfg(), currentAddr - (second - first) - 1);
      if addr < first - 1 || second < addr {
        MovedPlace(s, first, second, addr);
      }
    }

    /** move_lines: the lines leave their place and come back after line addr; in a global
        command they are not visited any more. */
    method MoveLines(first: int, second: int, addr: int)
      requires Valid() && 1 <= first <= second <= addrLast && 0 <= addr <= addrLast && !(first <= addr < second)
      modifies this`links, this`lines, this`steps, this`ustack, this`currentAddr, this`modified,
        this`lp, this`on, active`list, active`ndx
      ensures Valid() && Saved() == old(Saved())
      ensures lines == Moved(old(lines), first, second, addr) && modified && |old(Flags())| == old(addrLast)
      ensures currentAddr == if addr < first then addr + second - first + 1 else addr
      ensures Flags() == Moved(Struck(old(Flags()), first - 1, second - first + 1), first, second, addr)
      ensures Shrunk(old(active.list), active.list)
    {
      hide Shrunk, Ring, Track, SavedLines, Members, Marks, Slice, With, Without, At, Once, Texts, Moved,
           Cached, Tidy, FlagsOf, Pends, Strike, Struck;
      LinesDistinct(Cfg());
      MoveFlags(isGlobal, lines, active.list, active.ptr, first, second, addr);
      var b2, a2 := Relocate(first, second, addr);
      MovedEnds(first, second, addr, b2, a2, old(lines));
      UnsetRange(links.forw[b2], a2, currentAddr - (second - first), currentAddr);
      modified := true;
      assert Listed();
      assert Saves();
    }

    // dup_line_node and add_line_node: line k again, after the current line
    method CopyLine(np: Node, ghost k: int, up: int) returns (x: Node, r: int)
      requires Valid() && Upward(up) && 1 <= k <= addrLast && np == At(HEAD, lines, k)
      modifies this`links, this`recs, this`text, this`lines, this`steps, this`ustack, this`lp, this`on,
        this`addrLast, this`currentAddr
      ensures Valid() && r >= 0 && Upward(r) && Saved() == old(Saved()) && Extends(old(text), text)
      ensures Page() == With(old(Page()), old(currentAddr), [old(Page())[k - 1]])
      ensures Flags() == With(old(Flags()), old(currentAddr), [false])
      ensures lines == With(old(lines), old(currentAddr), [x]) && currentAddr == old(currentAddr) + 1
    {
      hide Ring, Track, SavedLines, Members, Open, Marks, Nodes, Once, With, Texts, Lies, TextsAt, Extends, Flags, Tidy;
      TrackRing(HEAD, links.forw.Keys, Cfg(), steps, Marks(ustack));
      LineStored(k);
      TextLies(links.forw.Keys, recs, text, scratch.bytes, np);
      x := Malloc();
      r := InsertNode(x, recs[np], text[np], up, true);
      NewText(old(links.forw.Keys), old(recs), old(text), old(scratch.bytes), old(lines), old(currentAddr), x,
              old(text)[np]);
    }

    // The line after the one just copied, x being the copy inserted after line i.
    method NextCopied(np: Node, ghost pos: int, ghost i: int, ghost x: Node, ghost s: seq<Node>) returns (y: Node)
      requires Valid() && 0 <= i <= |s| && 1 <= pos <= |s| && np == At(HEAD, s, pos) && lines == With(s, i, [x])
      ensures pos > i ==> y == At(HEAD, lines, pos + 2)
      ensures pos < i ==> y == At(HEAD, lines, pos + 1)
    {
      hide Track, SavedLines, Members, Texts, Once, Nodes;
      RingAt(HEAD, Cfg(), if pos > i then pos + 1 else pos);
      y := links.forw[np];
    }

    // Line pos is copied after the current line; y is the line to copy next.
    method CopyStep(np: Node, ghost pos: int, up: int) returns (y: Node, r: int)
      requires Valid() && Upward(up) && 1 <= pos <= addrLast && np == At(HEAD, lines, pos)
      modifies this`links, this`recs, this`text, this`lines, this`steps, this`ustack, this`lp, this`on,
        this`addrLast, this`currentAddr, this`modified
      ensures Valid() && r >= 0 && Upward(r) && Saved() == old(Saved()) && Extends(old(text), text) && modified
      ensures Page() == With(old(Page()), old(currentAddr), [old(Page())[pos - 1]])
      ensures Flags() == With(old(Flags()), old(currentAddr), [false])
      ensures currentAddr == old(currentAddr) + 1 && addrLast == |lines| == old(addrLast) + 1
      ensures pos > old(currentAddr) ==> y == At(HEAD, lines, pos + 2)
      ensures pos < old(currentAddr) ==> y == At(HEAD, lines, pos + 1)
    {
      hide Valid, Saved, With, TextsAt, Extends, Open, Flags;
      Bounds();
      var x;
      x, r := CopyLine(np, pos, up);
      SetModified();
      y := NextCopied(np, pos, old(currentAddr), x, old(lines));
      Bounds();
    }

    /** One run of copy_lines: n lines from line src on, all of them on the same side of the
        current line, are copied after it in order. */
    method CopyRun(start: Node, n: int, up: int, ghost src: int) returns (r: int)
      requires Valid() && Upward(up) && n > 0 && 1 <= src && src + n - 1 <= addrLast
      requires src + n - 1 <= currentAddr || currentAddr < src
      requires start == At(HEAD, lines, src)
      modifies this`links, this`recs, this`text, this`lines, this`steps, this`ustack, this`lp, this`on,
        this`addrLast, this`currentAddr, this`modified
      ensures Valid() && r >= 0 && Upward(r) && Saved() == old(Saved()) && Extends(old(text), text) && modified
      ensures Page() == With(old(Page()), old(currentAddr), Slice(old(Page()), src - 1, n))
      ensures Flags() == With(old(Flags()), old(currentAddr), Falses(n))
      ensures currentAddr == old(currentAddr) + n && addrLast == old(addrLast) + n
    {
      hide *;
      Bounds();
      ExtendsSelf(text);
      var np, k := start, 0;
      r := up;
      ghost var pos := src;
      ghost var ahead := currentAddr < src;
      WithNothing(Page(), currentAddr);
      WithNothing(Flags(), currentAddr);
      NoFalses();
      SliceNone(Page(), src - 1);
      while k < n
        invariant 0 <= k <= n && Valid() && Upward(r) && (k > 0 ==> r >= 0 && modified)
        invariant Saved() == old(Saved()) && Extends(old(text), text)
        invariant |lines| == addrLast == old(addrLast) + k && currentAddr == old(currentAddr) + k
        invariant pos == src + (if ahead then 2 * k else k)
        invariant k < n ==> 1 <= pos <= addrLast && np == At(HEAD, lines, pos)
        invariant Page() == With(old(Page()), old(currentAddr), Slice(old(Page()), src - 1, k))
        invariant Flags() == With(old(Flags()), old(currentAddr), Falses(k))
      {
        ghost var mid := text;
        WithAt(old(Page()), old(currentAddr), Slice(old(Page()), src - 1, k), pos - 1);
        np, r := CopyStep(np, pos, r);
        ExtendsTrans(old(text), mid, text);
        SliceMore(old(Page()), src - 1, k);
        WithMore(old(Page()), old(currentAddr), Slice(old(Page()), src - 1, k), old(Page())[src - 1 + k]);
        FalsesMore(k);
        WithMore(old(Flags()), old(currentAddr), Falses(k), false);
        k, pos := k + 1, if ahead then pos + 2 else pos + 1;
      }
    }

    // A lookup on its own: only the cached position moves.
    method Lookup(n: int) returns (r: Node)
      requires Valid() && 0 <= n <= addrLast + 1
      modifies this`lp, this`on
      ensures Valid() && r == At(HEAD, lines, if n <= addrLast then n else addrLast)
    {
      hide Ring, Track, SavedLines, Texts, Nodes, Members, Once;
      r := GetAddressedLineNode(n);
    }

    // The two runs of a copy to after a line of the range itself.
    method CopyAround(np: Node, first: int, second: int, addr: int)
      requires Valid() && 1 <= first <= addr < second <= addrLast && currentAddr == addr
      requires np == At(HEAD, lines, first)
      modifies this`links, this`recs, this`text, this`lines, this`steps, this`ustack, this`lp, this`on,
        this`addrLast, this`currentAddr, this`modified
      ensures Valid() && Saved() == old(Saved()) && Extends(old(text), text) && modified
      ensures |old(Page())| == |old(Flags())| == old(addrLast)
      ensures Page() == With(old(Page()), addr, Slice(old(Page()), first - 1, second - first + 1))
      ensures Flags() == With(old(Flags()), addr, Falses(second - first + 1))
      ensures currentAddr == addr + second - first + 1 && currentAddr <= addrLast
    {
      hide Valid, Saved, With, TextsAt, Extends, Slice, Page, Open, Flags, Falses, At;
      Bounds();
      var n, m := addr - first + 1, second - addr;
      CopyTwice(Page(), first, second, addr);
      FalsesConcat(n, m);
      WithPieces(Flags(), addr, Falses(n), Falses(m));
      var r := CopyRun(np, n, -1, first);
      Bounds();
      ghost var mid := text;
      var np' := Lookup(currentAddr + 1);
      r := CopyRun(np', m, r, currentAddr + 1);
      ExtendsTrans(old(text), mid, text);
      Bounds();
    }

    /** copy_lines: lines first..second again after line addr, also when that lies among them. */
    method CopyLines(first: int, second: int, addr: int)
      requires Valid() && 1 <= first <= second <= addrLast && 0 <= addr <= addrLast
      modifies this`links, this`recs, this`text, this`lines, this`steps, this`ustack, this`lp, this`on,
        this`addrLast, this`currentAddr, this`modified
      ensures Valid() && Saved() == old(Saved()) && Extends(old(text), text) && modified
      ensures |old(Page())| == |old(Flags())| == old(addrLast)
      ensures Page() == With(old(Page()), addr, Slice(old(Page()), first - 1, second - first + 1))
      ensures Flags() == With(old(Flags()), addr, Falses(second - first + 1))
      ensures currentAddr == addr + second - first + 1
    {
      hide Valid, Saved, With, TextsAt, Extends, Slice, Page, Open, Flags, Falses, At;
      Bounds();
      var np := Lookup(first);
      SetCurrent(addr);
      if first <= addr < second {
        CopyAround(np, first, second, addr);
      } else {
        var r := CopyRun(np, second - first + 1, -1, first);
        Bounds();
      }
      np := Lookup(currentAddr + 1);
    }

    // The current line gives way to the lines of txt, as one deletion and one insertion.
    method ReplaceLine(txt: string)
      requires Valid() && 1 <= currentAddr <= addrLast && Terminated(txt) && 0 < |txt| <= LINECHARS
      modifies this`links, this`recs, this`text, this`lines, this`steps, this`ustack, this`lp, this`on,
        this`addrLast, this`currentAddr, this`modified, this`lost, scratch, active`list, active`ndx
      ensures Valid() && Saved() == old(Saved()) && Extends(old(text), text) && lost == old(lost)
      ensures Shrunk(old(active.list), active.list)
      ensures Page() == With(Without(old(Page()), old(currentAddr) - 1, 1), old(currentAddr) - 1, Pieces(txt))
      ensures |old(Flags())| == old(addrLast) && currentAddr == old(currentAddr) - 1 + |Pieces(txt)|
      ensures Flags() ==
        With(Without(old(Flags()), old(currentAddr) - 1, 1), old(currentAddr) - 1, Falses(|Pieces(txt)|))
    {
      hide Valid, Saved, With, TextsAt, Extends, Pieces, Open, Flags, Falses, Shrunk;
      Bounds();
      DeleteLines(currentAddr, currentAddr);
      TextsWithout(text, old(lines), old(currentAddr) - 1, 1);
      var r := PutLines(txt, -1);
    }

    method LineText(n: int) returns (s: string)
      requires Valid() && 1 <= n <= addrLast
      modifies this`lp, this`on, scratch
      ensures Valid() && n <= |Page()| && s == Page()[n - 1] && '\n' !in s
    {
      hide Ring, Track, SavedLines, Texts, Nodes, Members, Once, TextsAt;
      var x := GetAddressedLineNode(n);
      s := ReadLine(x, n);
    }

    // The text of the line after the current one, which becomes current.
    method NextText() returns (s: string)
      requires Valid() && currentAddr < addrLast
      modifies this`lp, this`on, this`currentAddr, scratch
      ensures Valid() && currentAddr == old(currentAddr) + 1
      ensures s == Page()[currentAddr - 1] && '\n' !in s
    {
      hide Ring, Track, SavedLines, Texts, Nodes, Members, Once, TextsAt;
      currentAddr := currentAddr + 1;
      s := LineText(currentAddr);
    }

    // One round of the substitution loop, on the line after the current one.
    method ReplaceNext(sub: string -> string, fails: string -> bool) returns (matched: bool, failed: bool)
      requires Valid() && currentAddr < addrLast && Replaces(sub)
      modifies this`links, this`recs, this`text, this`lines, this`steps, this`ustack, this`lp, this`on,
        this`addrLast, this`currentAddr, this`modified, this`lost, scratch, active`list, active`ndx
      ensures Valid() && Saved() == old(Saved()) && Extends(old(text), text) && lost == old(lost)
      ensures Shrunk(old(active.list), active.list)
      ensures |old(Page())| == |old(Flags())| == old(addrLast) && |Page()| == addrLast
      ensures failed == fails(old(Page())[old(currentAddr)])
      ensures failed ==>
        && Page() == old(Page()) && Flags() == old(Flags())
        && currentAddr == old(currentAddr) + 1 && currentAddr <= addrLast
      ensures !failed ==>
        var line := old(Page())[old(currentAddr)];
        Flags() ==
          if matched
          then With(Without(old(Flags()), old(currentAddr), 1), old(currentAddr), Falses(|Expand(sub, line)|))
          else old(Flags())
      ensures !failed ==>
        var line := old(Page())[old(currentAddr)];
        && matched == Matches(sub, line)
        && currentAddr == old(currentAddr) + |Expand(sub, line)|
        && Page() ==
             if matched then With(Without(old(Page()), old(currentAddr), 1), old(currentAddr), Expand(sub, line))
             else old(Page())
    {
      hide Shrunk, Valid, Saved, TextsAt, Extends, Replaces, With, Without, Pieces, FlagsOf, Pends, Falses;
      Bounds();
      ExtendsSelf(text);
      ShrunkSelf(active.list);
      var line := NextText();
      if fails(line) {
        Bounds();
        return false, true;
      }
      ReplacesLine(sub, line);
      var txt := sub(line);
      matched, failed := |txt| > 0, false;
      if matched {
        Bounds();
        ReplaceLine(txt);
      }
      Bounds();
    }

    /** search_and_replace: every line of the range that has a match gives way to the lines of
        its replacement, each line of the original range once and in order, up to a line on
        which the substitution fails and which then stays current. */
    method SearchAndReplace(first: int, second: int, sub: string -> string, fails: string -> bool, glb: bool)
      returns (ok: bool)
      requires Valid() && 1 <= first <= second <= addrLast && Replaces(sub)
      modifies this`links, this`recs, this`text, this`lines, this`steps, this`ustack, this`lp, this`on,
        this`addrLast, this`currentAddr, this`modified, this`lost, scratch, active`list, active`ndx
      ensures Valid() && Saved() == old(Saved()) && Extends(old(text), text) && lost == old(lost)
      ensures Shrunk(old(active.list), active.list)
      ensures |old(Flags())| == |old(Page())| == old(addrLast)
      ensures var n := Reach(fails, old(Page()), first - 1, second - first + 1);
        && Page() == Substituted(sub, old(Page()), first - 1, n)
        && Flags() == SubstitutedFlags(sub, old(Page()), old(Flags()), first - 1, n)
        && (n == second - first + 1 ==>
              && currentAddr == LastSubstituted(sub, old(Page()), first - 1, n, old(currentAddr))
              && (ok <==> glb || HasMatch(sub, old(Page()), first - 1, n)))
        && (n < second - first + 1 ==> !ok && currentAddr == first + |Expanded(sub, old(Page()), first - 1, n)|)
    {
      hide *;
      Bounds();
      ExtendsSelf(text);
      ShrunkSelf(active.list);
      var xa, nsubs, lc := currentAddr, 0, 0;
      ghost var page, flags, last, all := Page(), Flags(), currentAddr, second - first + 1;
      SetCurrent(first - 1);
      PartwayStart(sub, fails, page, flags, first - 1, last);
      while lc <= second - first
        invariant 0 <= lc <= all && Valid() && Saved() == old(Saved()) && Extends(old(text), text)
        invariant Partway(sub, fails, page, flags, first - 1, lc, last, Page(), Flags(), currentAddr, xa, nsubs)
        invariant |Page()| == addrLast && Shrunk(old(active.list), active.list) && lost == old(lost)
      {
        ghost var mid, list := text, active.list;
        PartwayNext(sub, fails, page, flags, first - 1, lc, last, Page(), Flags(), currentAddr, xa, nsubs);
        var matched, failed := ReplaceNext(sub, fails);
        ExtendsTrans(old(text), mid, text);
        ShrunkTrans(old(active.list), list, active.list);
        if failed {
          PartwayEnd(sub, fails, page, flags, first - 1, lc, last, Page(), Flags(), currentAddr - 1, xa, nsubs, all);
          return false;
        }
        if matched {
          nsubs := nsubs + 1;
          xa := currentAddr;
        }
        lc := lc + 1;
      }
      PartwayEnd(sub, fails, page, flags, first - 1, lc, last, Page(), Flags(), currentAddr, xa, nsubs, all);
      SetCurrent(xa);
      ok := nsubs > 0 || glb;
    }

    // The pointers and the stack after an undo.
    method UndoQueue()
      requires Linked() && Recorded() && Cached() && on == 0 && uAddrLast == |Saved()|
      modifies this`links, this`lines, this`steps, this`ustack, this`addrLast, this`uAddrLast
      ensures Linked() && Recorded() && Cached()
      ensures links.forw.Keys == old(links.forw.Keys)
      ensures Ring(HEAD, old(Cfg())) && Path(HEAD, old(steps), old(Cfg()))
      ensures Cfg() == End(HEAD, old(steps), old(Cfg())) && steps == Redo(old(steps))
      ensures lines == old(Saved()) && Saved() == old(lines)
      ensures addrLast == old(uAddrLast) && uAddrLast == old(addrLast)
    {
      hide Ring, Path, Track, SavedLines, Marks, End, Redo, Backwards;
      ghost var nodes, c, marks := links.forw.Keys, Cfg(), Marks(ustack);
      TrackUndo(HEAD, nodes, c, steps, marks);
      MarksAre(ustack, marks);
      var l, us := UndoRecords(links, ustack, HEAD, nodes, c, steps, marks);
      var us' := ReverseRecords(us);
      ReversedMarks(ustack, us, us');
      ghost var c0 := End(HEAD, steps, c);
      TrackRing(HEAD, nodes, c0, Redo(steps), Marks(us'));
      links, ustack, lines, steps := l, us', c0.lines, Redo(steps);
      addrLast, uAddrLast := uAddrLast, addrLast;
      assert Cfg() == c0;
    }

    // The saved buffer and the present one change places.
    method SwapBuffers()
      requires Linked() && Cached() && Recorded() && Saves() && 0 <= currentAddr <= addrLast && uAddrLast != -1
      modifies this`links, this`lines, this`steps, this`ustack, this`addrLast, this`currentAddr,
        this`uAddrLast, this`uCurrentAddr, this`lp, this`on, this`modified
      ensures Linked() && Cached() && Recorded() && Saves() && 0 <= currentAddr <= addrLast
      ensures links.forw.Keys == old(links.forw.Keys)
      ensures Ring(HEAD, old(Cfg())) && Path(HEAD, old(steps), old(Cfg()))
      ensures Cfg() == End(HEAD, old(steps), old(Cfg())) && steps == Redo(old(steps))
      ensures lines == old(Saved()) && Saved() == old(lines)
      ensures currentAddr == old(uCurrentAddr) && uCurrentAddr == old(currentAddr) && uAddrLast == old(addrLast)
    {
      hide Ring, Path, Track, SavedLines, Marks, End, Redo;
      modified := modified || |ustack| > 0;
      var first := GetAddressedLineNode(0);
      UndoQueue();
      currentAddr, uCurrentAddr := uCurrentAddr, currentAddr;
    }

    /** pop_undo_stack: the lines, their number and the current line are those saved when the
        stack was cleared, and the present ones are saved in their place. */
    method PopUndoStack() returns (ok: bool)
      requires Valid()
      modifies this`links, this`lines, this`steps, this`ustack, this`addrLast, this`currentAddr,
        this`uAddrLast, this`uCurrentAddr, this`lp, this`on, this`modified, active
      ensures Valid()
      ensures ok <==> old(uAddrLast) != -1
      ensures !ok ==> lines == old(lines) && Saved() == old(Saved()) && currentAddr == old(currentAddr)
      ensures !ok ==> uAddrLast == old(uAddrLast)
      ensures ok ==>
        && lines == old(Saved()) && Saved() == old(lines)
        && currentAddr == old(uCurrentAddr) && uCurrentAddr == old(currentAddr) && uAddrLast == old(addrLast)
      ensures Ring(HEAD, old(Cfg())) && Path(HEAD, old(steps), old(Cfg()))
      ensures ok ==> Cfg() == End(HEAD, old(steps), old(Cfg())) && steps == Redo(old(steps))
      ensures ok && isGlobal ==> active.list == []
      ensures Flags() == if ok then Falses(|lines|) else old(Flags())
      ensures !ok ==> active.list == old(active.list) && active.ptr == old(active.ptr)
    {
      hide Ring, Path, Track, SavedLines, Marks, End, Redo, Texts, Members, Once, FlagsOf, Falses;
      TrackPath(HEAD, links.forw.Keys, Cfg(), steps, Marks(ustack));
      if uCurrentAddr == -1 || uAddrLast == -1 {
        return false;
      }
      SwapBuffers();
      if isGlobal {
        active.Clear();
        NothingListed(lines);
      }
      NoneLeft(lines, Pends(isGlobal, active.list, active.ptr));
      ok := true;
    }

    // The pointers and records after freeing every segment of a deletion record.
    method FreeQueue()
      requires Linked() && Recorded() && Stored()
      modifies this`links, this`recs, this`text, this`steps, this`ustack
      ensures Linked() && Recorded() && Stored()
      ensures links.forw.Keys == {HEAD} + Members(lines)
      ensures ustack == [] && Saved() == lines
      ensures recs.Keys == Members(lines) && forall x :: x in text ==> x in old(text) && text[x] == old(text)[x]
    {
      hide Ring, Track, SavedLines, Members, Agree, Marks, Texts;
      ghost var nodes, c := links.forw.Keys, Cfg();
      TrackRing(HEAD, nodes, c, steps, Marks(ustack));
      var l, rs := FreeRecords(links, recs, ustack, HEAD, nodes, c, steps);
      TrackClear(HEAD, nodes, c, steps, Marks(ustack), l);
      TextsKeep(nodes, recs, text, scratch.bytes, Members(lines));
      TrackRing(HEAD, {HEAD} + Members(lines), Config(l, lines), [], []);
      LinesNotHead(c);
      text := text - (nodes - ({HEAD} + Members(lines)));
      links, recs, ustack, steps := l, rs, [], [];
      MarksNone<Node>();
    }

    /** clear_undo_stack: every deleted line is freed, once; the present lines are saved. */
    method ClearUndoStack()
      requires Valid()
      modifies this`links, this`recs, this`text, this`steps, this`ustack, this`uCurrentAddr, this`uAddrLast
      ensures Valid() && ustack == [] && Saved() == lines
      ensures uCurrentAddr == currentAddr && uAddrLast == addrLast
      ensures links.forw.Keys == {HEAD} + Members(lines) && recs.Keys == Members(lines)
      ensures Page() == old(Page())
    {
      hide Ring, Track, SavedLines, Members, Texts, Nodes, Once, Marks, Cached, Listed, Recorded;
      FreeQueue();
      LinesHaveText(links.forw.Keys, recs, text, scratch.bytes, lines);
      TextsKept(text, old(text), lines);
      uCurrentAddr, uAddrLast := currentAddr, addrLast;
    }

    // delete_lines(1, 0), which happens in an empty buffer: the record names the head twice,
    // and the head is linked to itself again.
    method DeleteNone()
      requires Linked() && Cached() && active.Valid() && addrLast == 0
      modifies this`links, this`ustack, this`currentAddr, this`modified, this`lp, this`on, active`list, active`ndx
      ensures Cached() && active.Valid() && active.list == old(active.list)
      ensures links == old(links) && HEAD in links.forw && links.forw[HEAD] == HEAD
      ensures ustack == old(ustack) + [Undo(UDEL, HEAD, HEAD)] && currentAddr == 0 && modified
    {
      hide Ring, Members, Once, Cached;
      NoLines(Cfg());
      var t := LookupHead(0);
      var h := LookupHead(1);
      ustack := ustack + [Undo(UDEL, h, t)];
      var n := LookupHead(IncMod(0, addrLast));
      var p := LookupHead(0);
      if isGlobal {
        UnsetNobody(links.forw[p], n);
      }
      links := EdLinks.Reque(links, p, n);
      currentAddr, modified := 0, true;
    }

    // A lookup when there are no lines.
    method LookupHead(n: int) returns (r: Node)
      requires Linked() && Cached() && addrLast == 0 && 0 <= n <= 1
      modifies this`lp, this`on
      ensures Cached() && r == HEAD
    {
      hide Ring;
      r := GetAddressedLineNode(n);
    }

    method UnsetNobody(np: Node, mp: Node)
      requires Linked() && active.Valid() && addrLast == 0 && np == mp == HEAD
      modifies active`list, active`ndx
      ensures active.Valid() && active.list == old(active.list)
    {
      hide Ring, Unset, Once, Members;
      UnsetNone(active.list, lines, 0);
      UnsetActiveNodes(np, mp, 1, 1);
    }

    // The first round of clear_undo_stack with that record on top: there is nothing to free.
    method PopNone()
      requires |ustack| > 0 && ustack[|ustack| - 1] == Undo(UDEL, HEAD, HEAD)
      requires HEAD in links.forw && links.forw[HEAD] == HEAD
      modifies this`links, this`recs, this`ustack
      ensures links == old(links) && recs == old(recs) && ustack == old(ustack)[..|old(ustack)| - 1]
    {
      var n := |ustack| - 1;
      links, recs := FreeSegment(links, recs, ustack[n].h, ustack[n].t, []);
      FreeNothing(old(links), old(recs));
      ustack := ustack[..n];
    }

    // Both: the buffer is as empty as before, and only the current line is reset.
    method EraseNone()
      requires Valid() && addrLast == 0
      modifies this`links, this`recs, this`ustack, this`currentAddr, this`modified, this`lp, this`on,
        active`list, active`ndx
      ensures Valid() && links == old(links) && recs == old(recs) && ustack == old(ustack) && modified
    {
      hide Ring, Track, SavedLines, Members, Marks, Once, Texts, Tidy, Cached;
      DeleteNone();
      PopNone();
      assert ustack == old(ustack);
    }

    // A new scratch file for a buffer without lines.
    method ResetScratch()
      requires Valid() && recs == map[]
      modifies scratch
      ensures Valid() && scratch.bytes == ""
    {
      hide Ring, Track, SavedLines, Members, Marks, Once, Tidy;
      scratch.Reset();
    }

    // delete_lines(1, addr_last)
    method DeleteAll()
      requires Valid()
      modifies this`links, this`recs, this`lines, this`steps, this`ustack, this`addrLast, this`currentAddr,
        this`modified, this`lp, this`on, active`list, active`ndx
      ensures Valid() && lines == [] && currentAddr == 0 && modified
    {
      hide Ring, Track, SavedLines, Marks, Once, Texts, Tidy, Flags, Saved, Shrunk;
      if addrLast == 0 {
        EraseNone();
      } else {
        DeleteLines(1, addrLast);
      }
    }

    /** What the E command does before it reads a file: every line is deleted, the undo stack
        cleared and the scratch file replaced, also when there are no lines. */
    method EraseAll()
      requires Valid()
      modifies this, active`list, active`ndx, scratch
      ensures Valid() && lines == [] && Saved() == [] && ustack == [] && currentAddr == 0 && modified
      ensures links.forw.Keys == {HEAD} && recs == map[] && scratch.bytes == ""
      ensures lost == old(lost) && isGlobal == old(isGlobal)
    {
      hide *;
      DeleteAll();
      ClearUndoStack();
      NoMembers(recs);
      ResetScratch();
    }

    /** read_stream: every line read goes after line n, the end of the record following. */
    method ReadStream(n: int, texts: seq<string>)
      requires Valid() && 0 <= n <= addrLast
      requires forall k :: 0 <= k < |texts| ==> '\n' !in texts[k] && |texts[k]| < LINECHARS
      modifies this`links, this`recs, this`text, this`lines, this`steps, this`ustack, this`lp, this`on,
        this`addrLast, this`currentAddr, this`lost, scratch
      ensures Valid() && Saved() == old(Saved()) && Extends(old(text), text) && lost == old(lost)
      ensures Page() == With(old(Page()), n, texts) && currentAddr == n + |texts|
    {
      hide Valid, Upward, Saved, With, TextsAt, Extends, Page, Flags;
      Bounds();
      SetCurrent(n);
      ExtendsSelf(text);
      var up := -1;
      WithNothing(Page(), n);
      UpwardNone();
      for k := 0 to |texts|
        invariant Valid() && Upward(up) && Saved() == old(Saved()) && Extends(old(text), text) && lost == old(lost)
        invariant Page() == With(old(Page()), n, texts[..k]) && currentAddr == n + k
      {
        ghost var mid := text;
        JoinedLine(texts[k]);
        var ok, rest, r := PutSbufLine(texts[k] + "\n", up, true);
        ExtendsTrans(old(text), mid, text);
        WithMore(old(Page()), n, texts[..k], texts[k]);
        assert texts[..k + 1] == texts[..k] + [texts[k]];
        up := r;
      }
      assert texts[..|texts|] == texts;
    }

    lemma UpwardNone()
      ensures Upward(-1)
    {
    }

    // After a file was read there is nothing to undo.
    method ForgetUndo()
      requires Valid()
      modifies this`uCurrentAddr, this`uAddrLast, this`modified
      ensures Valid() && uAddrLast == -1 && !modified
    {
      hide Ring, Track, SavedLines, Texts, Members, Once, Tidy;
      uCurrentAddr, uAddrLast, modified := -1, -1, false;
    }

    // The line number of a node, as get_line_node_addr finds it by walking the queue; in an
    // empty buffer any node is reported as line 0.
    method GetLineNodeAddr(x: Node) returns (n: int)
      requires Linked()
      ensures x in lines ==> 1 <= n <= addrLast && lines[n - 1] == x
      ensures x == HEAD || lines == [] ==> n == 0
      ensures x !in lines && x != HEAD && lines != [] ==> n == ERR
    {
      hide Ring, Members;
      n := 0;
      var cp := HEAD;
      HeadNotLine(Cfg());
      while cp != x
        invariant 0 <= n <= addrLast && cp == At(HEAD, lines, n)
        invariant forall k :: 0 <= k < n ==> At(HEAD, lines, k) != x
        decreases addrLast - n
      {
        RingAt(HEAD, Cfg(), n);
        AtStops(Cfg(), n + 1, addrLast + 1);
        cp := links.forw[cp];
        if cp == HEAD {
          NotALine(lines, x, n);
          return if n > 0 then ERR else 0;
        }
        n := n + 1;
      }
    }

    /** get_matching_node_addr: the first matching line in cyclic order from the current one,
        which itself comes last; an error when no line matches. */
    method GetMatchingNodeAddr(matches: string -> bool, forward: bool) returns (r: int)
      requires Valid()
      modifies this`lp, this`on, scratch
      ensures Valid() && 0 <= currentAddr <= |Page()|
      ensures r == ERR ==> forall i :: 0 <= i < |Page()| ==> !matches(Page()[i])
      ensures r != ERR ==>
        && 1 <= r <= |Page()| && matches(Page()[r - 1])
        && Passed(Page(), currentAddr, matches, forward, Turns(currentAddr, r, |Page()|, forward) - 1)
      ensures r != ERR && forward ==> forall i :: 0 <= i < |Page()| && matches(Page()[i]) ==>
        !(if currentAddr < r then currentAddr <= i < r - 1 else currentAddr <= i || i < r - 1)
      ensures r != ERR && !forward ==> forall i :: 0 <= i < |Page()| && matches(Page()[i]) ==>
        !(if r < currentAddr then r <= i < currentAddr - 1 else i < currentAddr - 1 || r <= i)
    {
      hide Valid, Page, TextsAt, Passed, Turns, IncMod, DecMod;
      Bounds();
      var n := currentAddr;
      ghost var k, page := 0, Page();
      PassedNone(page, n, matches, forward);
      while true
        invariant 0 <= n <= addrLast == |page| && Page() == page && Valid() && 0 <= k <= addrLast
        invariant k == (if n == currentAddr then 0 else Turns(currentAddr, n, addrLast, forward))
        invariant Passed(page, currentAddr, matches, forward, k)
        decreases addrLast - k
      {
        TurnsNext(currentAddr, n, addrLast, forward);
        n := if forward then IncMod(n, addrLast) else DecMod(n, addrLast);
        k := k + 1;
        if n != 0 {
          var s := LineText(n);
          if matches(s) {
            PassedBetween(page, currentAddr, matches, forward, n);
            return n;
          }
        }
        PassedMore(page, currentAddr, matches, forward, n);
        if n == currentAddr {
          PassedAll(page, currentAddr, matches, forward);
          return ERR;
        }
      }
    }

    // The loop of build_active_list
    method CollectActive(start: Node, first: int, second: int, matches: string -> bool)
      requires Linked() && Recorded() && Stored() && 1 <= first <= second <= addrLast && start == At(HEAD, lines, first)
      requires active.Valid() && active.list == [] && active.ptr == 0
      modifies scratch, active
      ensures Stored() && active.Valid() && active.ptr == 0
      ensures active.list == Chosen(lines, Page(), matches, first - 1, second)
    {
      hide Ring, Track, Texts, Members, Once, Nodes, TextsAt, Chosen, Page;
      var x, n := start, first;
      PageLength(text, lines);
      ghost var page := Page();
      ChosenNone(lines, page, matches, first - 1);
      while n <= second
        invariant first <= n <= second + 1 && Stored() && active.Valid() && active.ptr == 0
        invariant n <= second ==> x == At(HEAD, lines, n)
        invariant active.list == Chosen(lines, page, matches, first - 1, n - 1)
      {
        var s := ReadLine(x, n);
        ChosenMore(Cfg(), page, matches, first - 1, n - 1);
        if matches(s) {
          active.Set(x);
        }
        if n < second {
          RingAt(HEAD, Cfg(), n);
          x := links.forw[x];
        }
        n := n + 1;
      }
    }

    lemma PageLength(text: map<Node, string>, s: seq<Node>)
      requires text == this.text && s == lines
      ensures |Page()| == |s|
    {
    }

    /** build_active_list: the nodes of the matching lines of the range, in order. */
    method BuildActiveList(first: int, second: int, matches: string -> bool)
      requires Valid() && !isGlobal && 1 <= first <= second <= addrLast
      modifies this`lp, this`on, scratch, active
      ensures Valid() && active.ptr == 0
      ensures active.list == Chosen(lines, Page(), matches, first - 1, second)
    {
      hide Ring, Track, SavedLines, Texts, Members, Once, Nodes, TextsAt, Chosen;
      active.Clear();
      var x := GetAddressedLineNode(first);
      CollectActive(x, first, second, matches);
    }

    /** isglobal++ and the clear_undo_stack of exec_global: the global command begins, and
        the lines it is to visit are the matching ones of the range. */
    method BeginGlobal(ghost first: int, ghost second: int, ghost matches: string -> bool)
      requires Valid() && !isGlobal && 1 <= first <= second <= addrLast && active.ptr == 0
      requires active.list == Chosen(lines, Page(), matches, first - 1, second)
      modifies this`isGlobal, this`links, this`recs, this`text, this`steps, this`ustack, this`uCurrentAddr,
        this`uAddrLast
      ensures Valid() && isGlobal && Saved() == lines && uCurrentAddr == currentAddr && uAddrLast == addrLast
      ensures Page() == old(Page()) && Flags() == MatchFlags(Page(), matches, first - 1, second)
    {
      hide Ring, Track, SavedLines, Texts, Members, Once, Nodes, TextsAt, Chosen, Tidy, FlagsOf, MatchFlags;
      LinesDistinct(Cfg());
      ChosenTidy(lines, Page(), matches, first - 1, second);
      ClearUndoStack();
      isGlobal := true;
    }

    /** next_active_node and get_line_node_addr: the first line, in the order of the lines, that
        is still to be visited becomes the current one. */
    method NextActive() returns (r: Slot<Node>)
      requires Valid() && isGlobal
      modifies active`ptr, this`currentAddr
      ensures Valid()
      ensures r.Cleared? ==> Flags() == old(Flags()) == Falses(|lines|) && currentAddr == old(currentAddr)
      ensures r.Active? ==>
        && r.node in old(active.Pending()) && active.Pending() == old(active.Pending()) - {r.node}
        && 1 <= currentAddr <= addrLast && lines[currentAddr - 1] == r.node
      ensures old(active.ptr) <= |active.list| && active.ptr <= |active.list|
      ensures old(active.Waiting()) == (if r.Active? then [r.node] else []) + active.Waiting()
      ensures r.Active? ==>
        && currentAddr - 1 < |old(Flags())| && old(Flags())[currentAddr - 1]
        && (forall j :: 0 <= j < currentAddr - 1 ==> !old(Flags())[j])
        && Flags() == old(Flags())[currentAddr - 1 := false]
    {
      hide Ring, Track, SavedLines, Texts, Once, Nodes, FlagsOf, Falses, Keep, Queue;
      LinesDistinct(Cfg());
      TidyMembers(lines, active.list, active.ptr);
      ghost var ptr := active.ptr;
      r := active.Next();
      if r.Active? {
        assert r.node in Members(lines);
        var n := GetLineNodeAddr(r.node);
        currentAddr := n;
        VisitFlags(lines, active.list, ptr, active.ptr, n - 1);
      } else {
        NoneLeft(lines, {});
        VisitNone(lines, active.list, active.ptr);
      }
    }
  }
}
