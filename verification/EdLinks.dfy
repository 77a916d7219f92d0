/**
 The line queue of ed and its undo records, as values.

 A line node is any value of a type T.  The `q_forw` and `q_back` pointers of all
 nodes are two maps, and REQUE is one update of each.  An undo record names the
 nodes of one edit; undoing it is one to three REQUEs.  The lemmas here say what
 those REQUEs do to the list of lines and, for every node whether it is in the list
 or not, to its pointers.
 */
module EdLinks {
  import opened Slices

  datatype Links<T> = Links(forw: map<T, T>, back: map<T, T>)

  // The pointers of all nodes, and the lines in order (the queue head is not a line).
  datatype Config<T> = Config(links: Links<T>, lines: seq<T>)

  // REQUE: link pred before succ.
  function Reque<T>(l: Links<T>, pred: T, succ: T): Links<T> {
    Links(l.forw[pred := succ], l.back[succ := pred])
  }

  ghost predicate Distinct<T>(s: seq<T>) {
    forall i, j :: 0 <= i < j < |s| ==> s[i] != s[j]
  }

  // The walk around the circular queue, from the head back to the head.
  function Around<T>(head: T, s: seq<T>): (w: seq<T>)
    ensures |w| == |s| + 2 && w[0] == head && w[|s| + 1] == head
    ensures forall i :: 1 <= i <= |s| ==> w[i] == s[i - 1]
  {
    [head] + s + [head]
  }

  // The node at address n: the head is address 0, and also the address after the last.
  function At<T>(head: T, s: seq<T>, n: int): T
    requires 0 <= n <= |s| + 1
  {
    if 1 <= n <= |s| then s[n - 1] else head
  }

  ghost predicate Chain<T>(l: Links<T>, w: seq<T>) {
    && (forall i :: 0 <= i < |w| ==> w[i] in l.forw && w[i] in l.back)
    && (forall i :: 0 <= i < |w| - 1 ==> l.forw[w[i]] == w[i + 1])
    && (forall i :: 0 < i < |w| ==> l.back[w[i]] == w[i - 1])
  }

  // A well-formed circular queue.
  ghost predicate Ring<T>(head: T, c: Config<T>) {
    && c.links.forw.Keys == c.links.back.Keys
    && head !in c.lines
    && Distinct(c.lines)
    && Chain(c.links, Around(head, c.lines))
  }

  function Without<T>(s: seq<T>, i: nat, n: nat): (r: seq<T>)
    requires i + n <= |s|
    ensures |r| == |s| - n
  {
    s[..i] + s[i + n..]
  }

  function With<T>(s: seq<T>, i: nat, seg: seq<T>): (r: seq<T>)
    requires i <= |s|
    ensures |r| == |s| + |seg|
  {
    s[..i] + seg + s[i..]
  }

  // Where an element is after an insertion.
  lemma WithAt<T>(s: seq<T>, i: nat, seg: seq<T>, k: nat)
    requires i <= |s| && k < |s| + |seg|
    ensures With(s, i, seg)[k] == if k < i then s[k] else if k < i + |seg| then seg[k - i] else s[k - |seg|]
  {
  }

  lemma SliceWith<T>(s: seq<T>, i: nat, seg: seq<T>)
    requires i <= |s|
    ensures Slice(With(s, i, seg), i, |seg|) == seg
  {
    hide With, Slice;
    var r := Slice(With(s, i, seg), i, |seg|);
    forall k | 0 <= k < |seg| ensures r[k] == seg[k] {
      SliceAt(With(s, i, seg), i, |seg|, k);
      WithAt(s, i, seg, i + k);
    }
  }

  lemma WithoutAt<T>(s: seq<T>, i: nat, n: nat, k: nat)
    requires i + n <= |s| && k < |s| - n
    ensures Without(s, i, n)[k] == s[if k < i then k else k + n]
  {
  }

  lemma AtWithout<T>(head: T, s: seq<T>, i: nat, n: nat, k: nat)
    requires i + n <= |s| && k <= i
    ensures At(head, Without(s, i, n), k) == At(head, s, k)
  {
    hide Without;
    if k > 0 {
      WithoutAt(s, i, n, k - 1);
    }
  }

  /** One undo record together with the segment of lines it is about: Add undoes an
      insertion at index i, Del a deletion at index i, Mov moves the segment at
      index i back to index j of the remaining lines, where (b2, a2) and (b1, a1)
      are the neighbours of the two places. */
  datatype Step<T> =
    | Add(i: nat, seg: seq<T>)
    | Del(i: nat, seg: seq<T>)
    | Mov(i: nat, seg: seq<T>, j: nat, b1: T, a1: T, b2: T, a2: T)

  function Flip<T>(e: Step<T>): Step<T> {
    match e
    case Add(i, seg) => Del(i, seg)
    case Del(i, seg) => Add(i, seg)
    case Mov(i, seg, j, b1, a1, b2, a2) => Mov(j, seg, i, b2, a2, b1, a1)
  }

  ghost predicate Ready<T>(head: T, c: Config<T>, e: Step<T>) {
    && |e.seg| > 0
    && match e
       case Add(i, seg) =>
         i + |seg| <= |c.lines| && c.lines[i..i + |seg|] == seg
       case Del(i, seg) =>
         && i <= |c.lines|
         && Distinct(seg)
         && head !in seg
         && (forall x :: x in seg ==> x !in c.lines)
         && Chain(c.links, seg)
         && c.links.back[seg[0]] == Around(head, c.lines)[i]
         && c.links.forw[seg[|seg| - 1]] == Around(head, c.lines)[i + 1]
       case Mov(i, seg, j, b1, a1, b2, a2) =>
         && i + |seg| <= |c.lines|
         && c.lines[i..i + |seg|] == seg
         && i != j
         && j + |seg| <= |c.lines|
         && var w := Around(head, Without(c.lines, i, |seg|));
            b1 == w[j] && a1 == w[j + 1] && b2 == w[i] && a2 == w[i + 1]
  }

  // What undoing does to the list of lines.
  function StepLines<T>(s: seq<T>, e: Step<T>): seq<T>
    requires !e.Del? ==> e.i + |e.seg| <= |s|
    requires e.Del? ==> e.i <= |s|
    requires e.Mov? ==> e.j + |e.seg| <= |s|
  {
    match e
    case Add(i, seg) => Without(s, i, |seg|)
    case Del(i, seg) => With(s, i, seg)
    case Mov(i, seg, j, _, _, _, _) => With(Without(s, i, |seg|), j, seg)
  }

  function UnlinkSegment<T>(l: Links<T>, h: T, t: T): Links<T>
    requires h in l.back && t in l.forw
  {
    Reque(l, l.back[h], l.forw[t])
  }

  function RelinkSegment<T>(l: Links<T>, h: T, t: T): Links<T>
    requires h in l.back && t in l.forw
  {
    var l1 := Reque(l, l.back[h], h);
    Reque(l1, t, l1.forw[t])
  }

  function MoveSegment<T>(l: Links<T>, b1: T, a1: T, b2: T, a2: T): Links<T>
    requires b2 in l.forw && a2 in l.back
  {
    var l1 := Reque(l, b1, l.forw[b2]);
    var l2 := Reque(l1, l1.back[a2], a1);
    Reque(l2, b2, a2)
  }

  // What undoing does to the pointers.
  function StepLinks<T>(l: Links<T>, e: Step<T>): Links<T>
    requires |e.seg| > 0
    requires !e.Mov? ==> e.seg[0] in l.back && e.seg[|e.seg| - 1] in l.forw
    requires e.Mov? ==> e.b2 in l.forw && e.a2 in l.back
  {
    match e
    case Add(_, seg) => UnlinkSegment(l, seg[0], seg[|seg| - 1])
    case Del(_, seg) => RelinkSegment(l, seg[0], seg[|seg| - 1])
    case Mov(_, _, _, b1, a1, b2, a2) => MoveSegment(l, b1, a1, b2, a2)
  }

  // In the walk, the i-th node has one successor and the next one one predecessor.
  lemma AroundDistinct<T>(head: T, s: seq<T>, i: nat)
    requires head !in s && Distinct(s) && i <= |s|
    ensures var w := Around(head, s);
      && (forall k :: 0 <= k <= |s| && k != i ==> w[k] != w[i])
      && (forall k :: 0 < k <= |s| + 1 && k != i + 1 ==> w[k] != w[i + 1])
  {
  }

  lemma AroundMembers<T>(head: T, s: seq<T>)
    ensures forall k :: 0 <= k < |s| + 2 ==> Around(head, s)[k] == head || Around(head, s)[k] in s
  {
  }

  lemma AroundWithout<T>(head: T, s: seq<T>, i: nat, n: nat)
    requires i + n <= |s|
    ensures var w := Around(head, s);
      Around(head, Without(s, i, n)) == w[..i + 1] + w[i + n + 1..]
  {
  }

  lemma AroundWithoutAt<T>(head: T, s: seq<T>, i: nat, n: nat, k: nat)
    requires i + n <= |s| && k < |s| - n + 2
    ensures Around(head, Without(s, i, n))[k] == Around(head, s)[if k <= i then k else k + n]
  {
    hide Without;
    if 0 < k <= |s| - n {
      WithoutAt(s, i, n, k - 1);
    }
  }

  lemma AroundWith<T>(head: T, s: seq<T>, i: nat, seg: seq<T>)
    requires i <= |s|
    ensures var w := Around(head, s);
      Around(head, With(s, i, seg)) == w[..i + 1] + seg + w[i + 1..]
  {
  }

  // Where the segment of an Add or Mov record sits in the list.
  lemma SegmentPlace<T>(head: T, c: Config<T>, e: Step<T>)
    requires Ready(head, c, e) && !e.Del?
    ensures forall k :: 0 <= k < |e.seg| ==> e.seg[k] == c.lines[e.i + k]
  {
    forall k | 0 <= k < |e.seg| ensures e.seg[k] == c.lines[e.i + k] {
      assert c.lines[e.i..e.i + |e.seg|][k] == c.lines[e.i + k];
    }
  }

  // The segment's ends and its neighbours in the walk.
  lemma SegmentEnds<T>(head: T, c: Config<T>, e: Step<T>)
    requires Ring(head, c) && Ready(head, c, e) && !e.Del?
    ensures var w, i, n := Around(head, c.lines), e.i, |e.seg|;
      && w[i + 1] == e.seg[0] && w[i + n] == e.seg[n - 1]
      && e.seg[0] in c.links.back && c.links.back[e.seg[0]] == w[i]
      && e.seg[n - 1] in c.links.forw && c.links.forw[e.seg[n - 1]] == w[i + n + 1]
  {
    SegmentPlace(head, c, e);
    var w := Around(head, c.lines);
    assert w[e.i + 1] == c.lines[e.i] && w[e.i + |e.seg|] == c.lines[e.i + |e.seg| - 1];
  }

  ghost function Apply<T>(head: T, c: Config<T>, e: Step<T>): Config<T>
    requires Ring(head, c) && Ready(head, c, e)
  {
    assert !e.Mov? ==> e.seg[0] in c.links.back && e.seg[|e.seg| - 1] in c.links.forw by {
      if e.Add? { SegmentEnds(head, c, e); }
    }
    assert e.Mov? ==> e.b2 in Around(head, c.lines) && e.a2 in Around(head, c.lines);
    Config(StepLinks(c.links, e), StepLines(c.lines, e))
  }

  lemma WithoutDistinct<T>(s: seq<T>, i: nat, n: nat)
    requires i + n <= |s| && Distinct(s)
    ensures Distinct(Without(s, i, n))
  {
    var r := Without(s, i, n);
    assert forall k :: 0 <= k < |r| ==> r[k] == s[if k < i then k else k + n];
  }

  lemma WithoutMembers<T>(s: seq<T>, i: nat, n: nat)
    requires i + n <= |s|
    ensures forall x :: x in Without(s, i, n) ==> x in s
  {
  }

  lemma ExciseChain<T>(l: Links<T>, w: seq<T>, i: nat, n: nat)
    requires i + n + 1 < |w| && Chain(l, w)
    requires forall k :: 0 <= k < |w| - 1 && k != i ==> w[k] != w[i]
    requires forall k :: 0 < k < |w| && k != i + n + 1 ==> w[k] != w[i + n + 1]
    ensures Chain(Reque(l, w[i], w[i + n + 1]), w[..i + 1] + w[i + n + 1..])
  {
    var w', l' := w[..i + 1] + w[i + n + 1..], Reque(l, w[i], w[i + n + 1]);
    forall k | 0 <= k < |w'|
      ensures w'[k] in l'.forw && w'[k] in l'.back
      ensures k < |w'| - 1 ==> l'.forw[w'[k]] == w'[k + 1]
      ensures 0 < k ==> l'.back[w'[k]] == w'[k - 1]
    {
      var k0 := if k <= i then k else k + n;
      assert w'[k] == w[k0];
    }
  }

  lemma UnlinkChain<T>(head: T, c: Config<T>, i: nat, n: nat)
    requires Ring(head, c) && i + n <= |c.lines|
    ensures var w := Around(head, c.lines);
      Chain(Reque(c.links, w[i], w[i + n + 1]), Around(head, Without(c.lines, i, n)))
  {
    AroundDistinct(head, c.lines, i);
    AroundDistinct(head, c.lines, i + n);
    AroundWithout(head, c.lines, i, n);
    ExciseChain(c.links, Around(head, c.lines), i, n);
  }

  lemma UnlinkRing<T>(head: T, c: Config<T>, e: Step<T>)
    requires Ring(head, c) && e.Add? && Ready(head, c, e)
    ensures Ring(head, Apply(head, c, e))
  {
    SegmentEnds(head, c, e);
    UnlinkChain(head, c, e.i, |e.seg|);
    WithoutDistinct(c.lines, e.i, |e.seg|);
  }

  lemma WithDistinct<T>(s: seq<T>, i: nat, seg: seq<T>)
    requires i <= |s| && Distinct(s) && Distinct(seg)
    requires forall x :: x in seg ==> x !in s
    ensures Distinct(With(s, i, seg))
  {
    var r := With(s, i, seg);
    forall a, b | 0 <= a < b < |r|
      ensures r[a] != r[b]
    {
      assert r[a] == if a < i then s[a] else if a < i + |seg| then seg[a - i] else s[a - |seg|];
      assert r[b] == if b < i then s[b] else if b < i + |seg| then seg[b - i] else s[b - |seg|];
      if i <= a < i + |seg| { assert r[a] in seg; }
      if i <= b < i + |seg| { assert r[b] in seg; }
    }
  }

  // Relinking changes two pointers only: the segment kept its outward ones.
  lemma RelinkEffect<T>(head: T, c: Config<T>, e: Step<T>)
    requires Ring(head, c) && e.Del? && Ready(head, c, e)
    ensures var w := Around(head, c.lines);
      Apply(head, c, e).links
      == Links(c.links.forw[w[e.i] := e.seg[0]], c.links.back[w[e.i + 1] := e.seg[|e.seg| - 1]])
  {
    var w, l := Around(head, c.lines), c.links;
    var h, t := e.seg[0], e.seg[|e.seg| - 1];
    var l1 := Reque(l, l.back[h], h);
    assert t in e.seg && h in e.seg;
    assert w[e.i] != t && w[e.i + 1] != h;
    assert l1.forw[t] == w[e.i + 1];
    assert l1.back == l.back;
    assert Reque(l1, t, l1.forw[t]).forw == l.forw[w[e.i] := h];
  }

  lemma SpliceForward<T>(f: map<T, T>, w: seq<T>, i: nat, seg: seq<T>, w': seq<T>)
    requires i + 1 < |w| && |seg| > 0 && w' == w[..i + 1] + seg + w[i + 1..]
    requires forall k :: 0 <= k < |w| - 1 && k != i ==> w[k] != w[i]
    requires forall k :: 0 <= k < |seg| ==> seg[k] != w[i] && seg[k] in f
    requires forall k :: 0 <= k < |w| - 1 ==> w[k] in f && f[w[k]] == w[k + 1]
    requires forall k :: 0 <= k < |seg| - 1 ==> f[seg[k]] == seg[k + 1]
    requires f[seg[|seg| - 1]] == w[i + 1]
    ensures var f' := f[w[i] := seg[0]];
      forall k :: 0 <= k < |w'| - 1 ==> w'[k] in f' && f'[w'[k]] == w'[k + 1]
  {
    var f', n := f[w[i] := seg[0]], |seg|;
    forall k | 0 <= k < |w'| - 1
      ensures w'[k] in f' && f'[w'[k]] == w'[k + 1]
    {
      if k <= i {
      } else if k < i + n {
        assert w'[k] == seg[k - i - 1] && w'[k + 1] == seg[k - i];
      } else if k == i + n {
        assert w'[k] == seg[n - 1] && w'[k + 1] == w[i + 1];
      } else {
        assert w'[k] == w[k - n] && w'[k + 1] == w[k - n + 1];
      }
    }
  }

  lemma SpliceBackward<T>(b: map<T, T>, w: seq<T>, i: nat, seg: seq<T>, w': seq<T>)
    requires i + 1 < |w| && |seg| > 0 && w' == w[..i + 1] + seg + w[i + 1..]
    requires forall k :: 0 < k < |w| && k != i + 1 ==> w[k] != w[i + 1]
    requires forall k :: 0 <= k < |seg| ==> seg[k] != w[i + 1] && seg[k] in b
    requires forall k :: 0 < k < |w| ==> w[k] in b && b[w[k]] == w[k - 1]
    requires forall k :: 0 < k < |seg| ==> b[seg[k]] == seg[k - 1]
    requires b[seg[0]] == w[i]
    ensures var b' := b[w[i + 1] := seg[|seg| - 1]];
      forall k :: 0 < k < |w'| ==> w'[k] in b' && b'[w'[k]] == w'[k - 1]
  {
    var b', n := b[w[i + 1] := seg[|seg| - 1]], |seg|;
    forall k | 0 < k < |w'|
      ensures w'[k] in b' && b'[w'[k]] == w'[k - 1]
    {
      if k <= i {
      } else if k == i + 1 {
        assert w'[k] == seg[0] && w'[k - 1] == w[i];
      } else if k <= i + n {
        assert w'[k] == seg[k - i - 1] && w'[k - 1] == seg[k - i - 2];
      } else if k == i + n + 1 {
        assert w'[k] == w[i + 1] && w'[k - 1] == seg[n - 1];
      } else {
        assert w'[k] == w[k - n] && w'[k - 1] == w[k - n - 1];
      }
    }
  }

  lemma SpliceChain<T>(l: Links<T>, w: seq<T>, i: nat, seg: seq<T>, w': seq<T>)
    requires i + 1 < |w| && |seg| > 0 && w' == w[..i + 1] + seg + w[i + 1..]
    requires forall k :: 0 <= k < |w| - 1 && k != i ==> w[k] != w[i]
    requires forall k :: 0 < k < |w| && k != i + 1 ==> w[k] != w[i + 1]
    requires forall k :: 0 <= k < |seg| ==> seg[k] != w[i] && seg[k] != w[i + 1]
    requires Chain(l, w) && Chain(l, seg)
    requires l.back[seg[0]] == w[i] && l.forw[seg[|seg| - 1]] == w[i + 1]
    ensures Chain(Links(l.forw[w[i] := seg[0]], l.back[w[i + 1] := seg[|seg| - 1]]), w')
  {
    SpliceForward(l.forw, w, i, seg, w');
    SpliceBackward(l.back, w, i, seg, w');
    forall k | 0 <= k < |w'|
      ensures w'[k] in l.forw && w'[k] in l.back
    {
      if i < k <= i + |seg| { assert w'[k] == seg[k - i - 1]; }
    }
  }

  lemma RelinkChain<T>(head: T, c: Config<T>, e: Step<T>)
    requires Ring(head, c) && e.Del? && Ready(head, c, e)
    ensures var w := Around(head, c.lines);
      Chain(Links(c.links.forw[w[e.i] := e.seg[0]], c.links.back[w[e.i + 1] := e.seg[|e.seg| - 1]]),
            Around(head, With(c.lines, e.i, e.seg)))
  {
    var w := Around(head, c.lines);
    AroundDistinct(head, c.lines, e.i);
    AroundWith(head, c.lines, e.i, e.seg);
    forall k | 0 <= k < |e.seg|
      ensures e.seg[k] != w[e.i] && e.seg[k] != w[e.i + 1]
    {
      assert e.seg[k] in e.seg;
    }
    SpliceChain(c.links, w, e.i, e.seg, Around(head, With(c.lines, e.i, e.seg)));
  }

  lemma RelinkRing<T>(head: T, c: Config<T>, e: Step<T>)
    requires Ring(head, c) && e.Del? && Ready(head, c, e)
    ensures Ring(head, Apply(head, c, e))
  {
    RelinkEffect(head, c, e);
    RelinkChain(head, c, e);
    WithDistinct(c.lines, e.i, e.seg);
  }

  lemma UnlinkEffect<T>(head: T, c: Config<T>, e: Step<T>)
    requires Ring(head, c) && e.Add? && Ready(head, c, e)
    ensures var w, k := Around(head, c.lines), e.i + |e.seg| + 1;
      Apply(head, c, e).links == Links(c.links.forw[w[e.i] := w[k]], c.links.back[w[k] := w[e.i]])
  {
    SegmentEnds(head, c, e);
  }

  lemma SegmentChain<T>(head: T, c: Config<T>, e: Step<T>)
    requires Ring(head, c) && !e.Del? && Ready(head, c, e)
    ensures Chain(c.links, e.seg)
  {
    var w := Around(head, c.lines);
    SegmentPlace(head, c, e);
    forall k | 0 <= k < |e.seg|
      ensures e.seg[k] in c.links.forw && e.seg[k] in c.links.back
      ensures k < |e.seg| - 1 ==> c.links.forw[e.seg[k]] == e.seg[k + 1]
      ensures k > 0 ==> c.links.back[e.seg[k]] == e.seg[k - 1]
    {
      assert w[e.i + 1 + k] == e.seg[k];
      assert k < |e.seg| - 1 ==> w[e.i + 2 + k] == e.seg[k + 1];
      assert k > 0 ==> w[e.i + k] == e.seg[k - 1];
    }
  }

  // The lines of a segment are not lines of the rest, nor its neighbours.
  lemma SegmentApart<T>(head: T, c: Config<T>, e: Step<T>)
    requires Ring(head, c) && !e.Del? && Ready(head, c, e)
    ensures Distinct(e.seg) && head !in e.seg
    ensures forall x :: x in e.seg ==> x in c.lines && x !in Without(c.lines, e.i, |e.seg|)
    ensures var w := Around(head, c.lines);
      forall x :: x in e.seg ==> x != w[e.i] && x != w[e.i + |e.seg| + 1]
  {
    var r, w, n := Without(c.lines, e.i, |e.seg|), Around(head, c.lines), |e.seg|;
    SegmentPlace(head, c, e);
    assert Distinct(c.lines) && head !in c.lines;
    hide Without, Around, Chain, Ready, Ring;
    forall m | 0 <= m < |r| ensures r[m] == c.lines[if m < e.i then m else m + n] {
      WithoutAt(c.lines, e.i, n, m);
    }
    forall k | 0 <= k < n
      ensures e.seg[k] !in r && e.seg[k] != w[e.i] && e.seg[k] != w[e.i + n + 1]
    {
      assert w[e.i] == head || w[e.i] == c.lines[e.i - 1];
      assert w[e.i + n + 1] == head || w[e.i + n + 1] == c.lines[e.i + n];
    }
  }

  // An unlinked segment is exactly what a deletion record needs to bring it back.
  lemma UnlinkReady<T>(head: T, c: Config<T>, e: Step<T>)
    requires Ring(head, c) && e.Add? && Ready(head, c, e)
    ensures Ready(head, Apply(head, c, e), Flip(e))
  {
    UnlinkEffect(head, c, e);
    UnlinkNeighbours(head, c, e);
    SegmentEnds(head, c, e);
    SegmentApart(head, c, e);
    SegmentChain(head, c, e);
    assert forall k :: 0 <= k < |e.seg| ==> e.seg[k] in e.seg;
  }

  lemma RelinkReady<T>(head: T, c: Config<T>, e: Step<T>)
    requires Ring(head, c) && e.Del? && Ready(head, c, e)
    ensures Ready(head, Apply(head, c, e), Flip(e))
  {
  }

  lemma WithWithout<T>(s: seq<T>, i: nat, seg: seq<T>)
    requires i <= |s|
    ensures Without(With(s, i, seg), i, |seg|) == s
    ensures With(s, i, seg)[i..i + |seg|] == seg
  {
  }

  lemma WithoutWith<T>(s: seq<T>, i: nat, n: nat)
    requires i + n <= |s|
    ensures With(Without(s, i, n), i, s[i..i + n]) == s
  {
  }

  // The neighbours of the segment's place are the same before and after.
  lemma UnlinkNeighbours<T>(head: T, c: Config<T>, e: Step<T>)
    requires Ring(head, c) && e.Add? && Ready(head, c, e)
    ensures var w, w', n := Around(head, c.lines), Around(head, Without(c.lines, e.i, |e.seg|)), |e.seg|;
      && w'[e.i] == w[e.i] && w'[e.i + 1] == w[e.i + n + 1]
      && w[e.i] in c.links.forw && c.links.forw[w[e.i]] == e.seg[0]
      && w[e.i + n + 1] in c.links.back && c.links.back[w[e.i + n + 1]] == e.seg[n - 1]
  {
    AroundWithout(head, c.lines, e.i, |e.seg|);
    SegmentEnds(head, c, e);
  }

  lemma RelinkNeighbours<T>(head: T, c: Config<T>, e: Step<T>)
    requires Ring(head, c) && e.Del? && Ready(head, c, e)
    ensures var w, w', n := Around(head, c.lines), Around(head, With(c.lines, e.i, e.seg)), |e.seg|;
      && w'[e.i] == w[e.i] && w'[e.i + n + 1] == w[e.i + 1]
      && w[e.i] in c.links.forw && c.links.forw[w[e.i]] == w[e.i + 1]
      && w[e.i + 1] in c.links.back && c.links.back[w[e.i + 1]] == w[e.i]
  {
    AroundWith(head, c.lines, e.i, e.seg);
  }

  lemma RestoreMap<T>(m: map<T, T>, k: T, v: T)
    requires k in m
    ensures m[k := v][k := m[k]] == m
  {
  }

  lemma UnlinkInverse<T>(head: T, c: Config<T>, e: Step<T>)
    requires Ring(head, c) && e.Add? && Ready(head, c, e)
    ensures var c' := Apply(head, c, e);
      Ring(head, c') && Ready(head, c', Flip(e)) && Apply(head, c', Flip(e)) == c
  {
    var w, c' := Around(head, c.lines), Apply(head, c, e);
    UnlinkRing(head, c, e);
    UnlinkReady(head, c, e);
    var c2 := Apply(head, c', Flip(e));
    assert c2.links == c.links by {
      UnlinkEffect(head, c, e);
      RelinkEffect(head, c', Flip(e));
      UnlinkNeighbours(head, c, e);
      RestoreMap(c.links.forw, w[e.i], w[e.i + |e.seg| + 1]);
      RestoreMap(c.links.back, w[e.i + |e.seg| + 1], w[e.i]);
    }
    assert c2.lines == c.lines by {
      WithoutWith(c.lines, e.i, |e.seg|);
    }
  }

  lemma RelinkInverse<T>(head: T, c: Config<T>, e: Step<T>)
    requires Ring(head, c) && e.Del? && Ready(head, c, e)
    ensures var c' := Apply(head, c, e);
      Ring(head, c') && Ready(head, c', Flip(e)) && Apply(head, c', Flip(e)) == c
  {
    var w, c' := Around(head, c.lines), Apply(head, c, e);
    RelinkRing(head, c, e);
    RelinkReady(head, c, e);
    var c2 := Apply(head, c', Flip(e));
    assert c2.links == c.links by {
      RelinkEffect(head, c, e);
      UnlinkEffect(head, c', Flip(e));
      RelinkNeighbours(head, c, e);
      RestoreMap(c.links.forw, w[e.i], e.seg[0]);
      RestoreMap(c.links.back, w[e.i + 1], e.seg[|e.seg| - 1]);
    }
    assert c2.lines == c.lines by {
      WithWithout(c.lines, e.i, e.seg);
    }
  }

  // Two pointer assignments that agree on a set of nodes.
  ghost predicate Agree<T>(l: Links<T>, l': Links<T>, xs: set<T>) {
    && (forall x :: x in xs ==> x in l.forw && x in l'.forw && l.forw[x] == l'.forw[x])
    && (forall x :: x in xs ==> x in l.back && x in l'.back && l.back[x] == l'.back[x])
  }

  ghost function Members<T>(s: seq<T>): set<T> {
    set x | x in s
  }

  lemma RingDomain<T>(head: T, c: Config<T>)
    requires Ring(head, c)
    ensures Members(c.lines) + {head} <= c.links.forw.Keys
  {
    forall x | x in c.lines ensures x in c.links.forw {
      var k :| 0 <= k < |c.lines| && c.lines[k] == x;
      assert Around(head, c.lines)[k + 1] == x;
    }
    assert Around(head, c.lines)[0] == head;
  }

  // The queue is well formed whatever the pointers of nodes outside it.
  lemma RingAgree<T>(head: T, c: Config<T>, l': Links<T>)
    requires Ring(head, c) && l'.forw.Keys == l'.back.Keys
    requires Agree(c.links, l', Members(c.lines) + {head})
    ensures Ring(head, Config(l', c.lines))
  {
    var w := Around(head, c.lines);
    forall k | 0 <= k < |w|
      ensures w[k] in Members(c.lines) + {head}
    {
    }
  }

  // The neighbours named by a move record, in the list that still has the segment.
  lemma MovePlaces<T>(head: T, c: Config<T>, e: Step<T>)
    requires Ring(head, c) && e.Mov? && Ready(head, c, e)
    ensures var w, l := Around(head, c.lines), c.links;
      && e.b2 == w[e.i] && e.a2 == w[e.i + |e.seg| + 1]
      && e.b2 in l.forw && l.forw[e.b2] == e.seg[0]
      && e.a2 in l.back && l.back[e.a2] == e.seg[|e.seg| - 1]
      && e.b1 in l.forw && l.forw[e.b1] == e.a1
      && e.a1 in l.back && l.back[e.a1] == e.b1
    ensures e.b1 != e.b2 && e.a1 != e.a2
    ensures forall x :: x in e.seg ==> x != e.b1 && x != e.a1 && x != e.b2 && x != e.a2
  {
    hide Without, Around;
    var r, w, n := Without(c.lines, e.i, |e.seg|), Around(head, c.lines), |e.seg|;
    SegmentEnds(head, c, e);
    SegmentApart(head, c, e);
    WithoutDistinct(c.lines, e.i, n);
    WithoutMembers(c.lines, e.i, n);
    AroundDistinct(head, r, e.i);
    AroundWithoutAt(head, c.lines, e.i, n, e.i);
    AroundWithoutAt(head, c.lines, e.i, n, e.i + 1);
    AroundWithoutAt(head, c.lines, e.i, n, e.j);
    AroundWithoutAt(head, c.lines, e.i, n, e.j + 1);
    AroundMembers(head, r);
  }

  lemma MoveEffect<T>(head: T, c: Config<T>, e: Step<T>)
    requires Ring(head, c) && e.Mov? && Ready(head, c, e)
    ensures var h, t := e.seg[0], e.seg[|e.seg| - 1];
      Apply(head, c, e).links
      == Links(c.links.forw[e.b1 := h][t := e.a1][e.b2 := e.a2],
               c.links.back[h := e.b1][e.a1 := t][e.a2 := e.b2])
  {
    MovePlaces(head, c, e);
    assert e.seg[0] in e.seg && e.seg[|e.seg| - 1] in e.seg;
  }

  /** A move is an unlinking, a redirection of the segment's outward pointers to the
      other place, and a relinking there. */
  ghost function Redirected<T>(head: T, c: Config<T>, e: Step<T>): (c': Config<T>)
    requires Ring(head, c) && e.Mov? && Ready(head, c, e)
  {
    var c1 := Apply(head, c, Add(e.i, e.seg));
    Config(Links(c1.links.forw[e.seg[|e.seg| - 1] := e.a1], c1.links.back[e.seg[0] := e.b1]), c1.lines)
  }

  lemma RedirectRing<T>(head: T, c: Config<T>, h: T, x: T, t: T, y: T)
    requires Ring(head, c) && h in c.links.back && t in c.links.forw
    requires h !in c.lines && t !in c.lines && h != head && t != head
    ensures Ring(head, Config(Links(c.links.forw[t := y], c.links.back[h := x]), c.lines))
  {
    RingDomain(head, c);
    RingAgree(head, c, Links(c.links.forw[t := y], c.links.back[h := x]));
  }

  lemma RedirectedRing<T>(head: T, c: Config<T>, e: Step<T>)
    requires Ring(head, c) && e.Mov? && Ready(head, c, e)
    ensures Ring(head, Redirected(head, c, e))
  {
    var a, h, t := Add(e.i, e.seg), e.seg[0], e.seg[|e.seg| - 1];
    UnlinkRing(head, c, a);
    var c1 := Apply(head, c, a);
    assert h in c1.links.back && t in c1.links.forw && h !in c1.lines && t !in c1.lines && h != head && t != head by {
      SegmentApart(head, c, a);
      SegmentEnds(head, c, a);
      assert h in e.seg && t in e.seg;
    }
    RedirectRing(head, c1, h, e.b1, t, e.a1);
  }

  lemma RedirectedReady<T>(head: T, c: Config<T>, e: Step<T>)
    requires Ring(head, c) && e.Mov? && Ready(head, c, e)
    ensures Ready(head, Redirected(head, c, e), Del(e.j, e.seg))
  {
    hide Without, With;
    UnlinkReady(head, c, Add(e.i, e.seg));
  }

  lemma SwapUpdates<T>(m: map<T, T>, k1: T, v1: T, k2: T, v2: T, k3: T, v3: T)
    requires k1 != k2 && k2 != k3 && k1 != k3
    ensures m[k1 := v1][k2 := v2][k3 := v3] == m[k3 := v3][k2 := v2][k1 := v1]
    ensures m[k1 := v1][k2 := v2][k3 := v3] == m[k3 := v3][k1 := v1][k2 := v2]
  {
  }

  lemma RestoreThree<T>(m: map<T, T>, k1: T, v1: T, k2: T, v2: T, k3: T, v3: T)
    requires k1 != k2 && k2 != k3 && k1 != k3 && k1 in m && k2 in m && k3 in m
    ensures m[k1 := v1][k2 := v2][k3 := v3][k3 := m[k3]][k2 := m[k2]][k1 := m[k1]] == m
    ensures m[k1 := v1][k2 := v2][k3 := v3][k1 := m[k1]][k3 := m[k3]][k2 := m[k2]] == m
  {
  }

  lemma MoveFactors<T>(head: T, c: Config<T>, e: Step<T>)
    requires Ring(head, c) && e.Mov? && Ready(head, c, e)
    ensures var c2 := Redirected(head, c, e);
      && Ring(head, c2) && Ready(head, c2, Del(e.j, e.seg))
      && Apply(head, c, e) == Apply(head, c2, Del(e.j, e.seg))
  {
    hide Without, With;
    var c2, h, t := Redirected(head, c, e), e.seg[0], e.seg[|e.seg| - 1];
    var l := c.links;
    RedirectedRing(head, c, e);
    RedirectedReady(head, c, e);
    var l3 := Apply(head, c2, Del(e.j, e.seg)).links;
    assert l3.forw == l.forw[e.b2 := e.a2][t := e.a1][e.b1 := h]
      && l3.back == l.back[e.a2 := e.b2][h := e.b1][e.a1 := t] by {
      MovePlaces(head, c, e);
      UnlinkEffect(head, c, Add(e.i, e.seg));
      RelinkEffect(head, c2, Del(e.j, e.seg));
    }
    assert Apply(head, c, e).links == l3 by {
      MoveEffect(head, c, e);
      MovePlaces(head, c, e);
      assert h in e.seg && t in e.seg;
      SwapUpdates(l.forw, e.b1, h, t, e.a1, e.b2, e.a2);
      SwapUpdates(l.back, h, e.b1, e.a1, t, e.a2, e.b2);
    }
  }

  lemma MoveReady<T>(head: T, c: Config<T>, e: Step<T>)
    requires Ring(head, c) && e.Mov? && Ready(head, c, e)
    ensures Ready(head, Apply(head, c, e), Flip(e))
    ensures StepLines(StepLines(c.lines, e), Flip(e)) == c.lines
  {
    hide With, Without, Around, Ring, Distinct, Chain, StepLinks;
    var r := Without(c.lines, e.i, |e.seg|);
    WithWithout(r, e.j, e.seg);
    WithoutWith(c.lines, e.i, |e.seg|);
  }

  lemma MoveRing<T>(head: T, c: Config<T>, e: Step<T>)
    requires Ring(head, c) && e.Mov? && Ready(head, c, e)
    ensures Ring(head, Apply(head, c, e))
  {
    MoveFactors(head, c, e);
    RelinkRing(head, Redirected(head, c, e), Del(e.j, e.seg));
  }

  lemma MoveLinksRestored<T>(head: T, c: Config<T>, e: Step<T>)
    requires Ring(head, c) && e.Mov? && Ready(head, c, e)
    requires var c' := Apply(head, c, e); Ring(head, c') && Ready(head, c', Flip(e))
    ensures Apply(head, Apply(head, c, e), Flip(e)).links == c.links
  {
    var l, h, t := c.links, e.seg[0], e.seg[|e.seg| - 1];
    MoveEffect(head, c, e);
    MoveEffect(head, Apply(head, c, e), Flip(e));
    MovePlaces(head, c, e);
    SegmentEnds(head, c, e);
    assert h in e.seg && t in e.seg && h in l.back && t in l.forw;
    RestoreThree(l.forw, e.b1, h, t, e.a1, e.b2, e.a2);
    RestoreThree(l.back, h, e.b1, e.a1, t, e.a2, e.b2);
  }

  lemma MoveInverse<T>(head: T, c: Config<T>, e: Step<T>)
    requires Ring(head, c) && e.Mov? && Ready(head, c, e)
    ensures var c' := Apply(head, c, e);
      Ring(head, c') && Ready(head, c', Flip(e)) && Apply(head, c', Flip(e)) == c
  {
    MoveRing(head, c, e);
    MoveReady(head, c, e);
    MoveLinksRestored(head, c, e);
  }

  /** Undoing one record keeps the queue well formed, and undoing its flipped record
      next restores every pointer of every node. */
  lemma StepInverse<T>(head: T, c: Config<T>, e: Step<T>)
    requires Ring(head, c) && Ready(head, c, e)
    ensures var c' := Apply(head, c, e);
      Ring(head, c') && Ready(head, c', Flip(e)) && Apply(head, c', Flip(e)) == c
  {
    match e
    case Add(_, _) => UnlinkInverse(head, c, e);
    case Del(_, _) => RelinkInverse(head, c, e);
    case Mov(_, _, _, _, _, _, _) => MoveInverse(head, c, e);
  }

  // Following a pointer from an address leads to the next or the previous one.
  lemma RingAt<T>(head: T, c: Config<T>, n: int)
    requires Ring(head, c) && 0 <= n <= |c.lines|
    ensures var x, y := At(head, c.lines, n), At(head, c.lines, n + 1);
      && x in c.links.forw && c.links.forw[x] == y
      && y in c.links.back && c.links.back[y] == x
  {
    var w := Around(head, c.lines);
    assert w[n] == At(head, c.lines, n) && w[n + 1] == At(head, c.lines, n + 1);
  }

  lemma RingKeys<T>(head: T, c: Config<T>)
    requires Ring(head, c)
    ensures c.links.forw.Keys == c.links.back.Keys && head in c.links.forw
  {
    RingDomain(head, c);
  }

  // Unlinking the lines from address i + 1 on is one REQUE of their neighbours.
  lemma UnlinkAt<T>(head: T, c: Config<T>, i: nat, n: nat)
    requires Ring(head, c) && 0 < n && i + n <= |c.lines|
    ensures var e := Add(i, c.lines[i..i + n]);
      && Ready(head, c, e)
      && Apply(head, c, e) == Config(Reque(c.links, At(head, c.lines, i), At(head, c.lines, i + n + 1)),
                                     Without(c.lines, i, n))
  {
    var e := Add(i, c.lines[i..i + n]);
    assert Ready(head, c, e);
    UnlinkEffect(head, c, e);
    var w := Around(head, c.lines);
    assert w[i] == At(head, c.lines, i) && w[i + n + 1] == At(head, c.lines, i + n + 1);
  }

  // Moving the lines from address i + 1 on to after address k, outside their range.
  lemma MoveAt<T>(head: T, c: Config<T>, i: nat, n: nat, k: nat)
    requires Ring(head, c) && 0 < n && i + n <= |c.lines| && k <= |c.lines| && (k < i || i + n < k)
    ensures var j := if k < i then k else k - n;
      var b1, a1 := At(head, c.lines, k), At(head, c.lines, k + 1);
      var b2, a2 := At(head, c.lines, i), At(head, c.lines, i + n + 1);
      var e := Mov(i, c.lines[i..i + n], j, b1, a1, b2, a2);
      && Ready(head, c, e)
      && b2 in c.links.forw && a2 in c.links.back
      && Apply(head, c, e) == Config(MoveSegment(c.links, b1, a1, b2, a2),
                                     With(Without(c.lines, i, n), j, c.lines[i..i + n]))
  {
    var w, wr := Around(head, c.lines), Around(head, Without(c.lines, i, n));
    AroundWithout(head, c.lines, i, n);
    var j := if k < i then k else k - n;
    assert wr[j] == w[k] && wr[j + 1] == w[k + 1] && wr[i] == w[i] && wr[i + 1] == w[i + n + 1];
    assert forall m :: 0 <= m < |w| ==> w[m] == At(head, c.lines, m);
    assert w[i] in c.links.forw && w[i + n + 1] in c.links.back;
  }
}
