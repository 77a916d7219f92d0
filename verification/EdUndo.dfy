/**
 The undo stack of ed as a path of invertible steps.

 A stack is a sequence of records, bottom first.  `Path` says that the records can
 be undone one after the other from the top; `End` is where that leads.
 */
module EdUndo {
  import opened EdLinks

  ghost predicate Path<T>(head: T, steps: seq<Step<T>>, c: Config<T>)
    requires Ring(head, c)
    decreases |steps|
  {
    |steps| == 0 ||
    var e := steps[|steps| - 1];
    Ready(head, c, e) &&
    (StepInverse(head, c, e); Path(head, steps[..|steps| - 1], Apply(head, c, e)))
  }

  ghost function End<T>(head: T, steps: seq<Step<T>>, c: Config<T>): (c0: Config<T>)
    requires Ring(head, c) && Path(head, steps, c)
    ensures Ring(head, c0)
    decreases |steps|
  {
    if |steps| == 0 then c
    else
      var e := steps[|steps| - 1];
      StepInverse(head, c, e);
      End(head, steps[..|steps| - 1], Apply(head, c, e))
  }

  // The stack after an undo: each record flipped, the order reversed.
  function Redo<T>(steps: seq<Step<T>>): (r: seq<Step<T>>)
    ensures |r| == |steps|
  {
    if |steps| == 0 then []
    else [Flip(steps[|steps| - 1])] + Redo(steps[..|steps| - 1])
  }

  lemma {:induction false} RedoAt<T>(steps: seq<Step<T>>, k: nat)
    requires k < |steps|
    ensures Redo(steps)[k] == Flip(steps[|steps| - 1 - k])
    decreases |steps|
  {
    if k > 0 {
      RedoAt(steps[..|steps| - 1], k - 1);
    }
  }

  // A record put under a stack is undone last.
  lemma {:induction false} PathBottom<T>(head: T, e: Step<T>, steps: seq<Step<T>>, c: Config<T>)
    requires Ring(head, c) && Path(head, steps, c) && Ready(head, End(head, steps, c), e)
    ensures Path(head, [e] + steps, c)
    ensures End(head, [e] + steps, c) == Apply(head, End(head, steps, c), e)
    decreases |steps|
  {
    var all := [e] + steps;
    if |steps| == 0 {
      assert all[..|all| - 1] == [];
    } else {
      var top := steps[|steps| - 1];
      StepInverse(head, c, top);
      assert all[..|all| - 1] == [e] + steps[..|steps| - 1];
      PathBottom(head, e, steps[..|steps| - 1], Apply(head, c, top));
    }
  }

  /** Undo is its own inverse: from where the stack leads, the flipped and reversed
      stack leads back, restoring the lines and every pointer of every node. */
  lemma {:induction false} UndoTwice<T>(head: T, steps: seq<Step<T>>, c: Config<T>)
    requires Ring(head, c) && Path(head, steps, c)
    ensures var c0 := End(head, steps, c);
      Path(head, Redo(steps), c0) && End(head, Redo(steps), c0) == c
    decreases |steps|
  {
    if |steps| > 0 {
      var e, rest := steps[|steps| - 1], steps[..|steps| - 1];
      var c1 := Apply(head, c, e);
      StepInverse(head, c, e);
      UndoTwice(head, rest, c1);
      PathBottom(head, Flip(e), Redo(rest), End(head, rest, c1));
    }
  }

  // The nodes of all deletion records, and of all insertion records.
  ghost function DelNodes<T>(steps: seq<Step<T>>): set<T> {
    if |steps| == 0 then {}
    else
      var e := steps[|steps| - 1];
      (if e.Del? then Members(e.seg) else {}) + DelNodes(steps[..|steps| - 1])
  }

  ghost function AddNodes<T>(steps: seq<Step<T>>): set<T> {
    if |steps| == 0 then {}
    else
      var e := steps[|steps| - 1];
      (if e.Add? then Members(e.seg) else {}) + AddNodes(steps[..|steps| - 1])
  }

  lemma {:induction false} DelNodesBottom<T>(e: Step<T>, steps: seq<Step<T>>)
    ensures DelNodes([e] + steps) == (if e.Del? then Members(e.seg) else {}) + DelNodes(steps)
    decreases |steps|
  {
    var all := [e] + steps;
    if |steps| > 0 {
      assert all[..|all| - 1] == [e] + steps[..|steps| - 1];
      DelNodesBottom(e, steps[..|steps| - 1]);
    } else {
      assert all[..|all| - 1] == [];
    }
  }

  lemma {:induction false} DelNodesRedo<T>(steps: seq<Step<T>>)
    ensures DelNodes(Redo(steps)) == AddNodes(steps)
    decreases |steps|
  {
    if |steps| > 0 {
      DelNodesRedo(steps[..|steps| - 1]);
      DelNodesBottom(Flip(steps[|steps| - 1]), Redo(steps[..|steps| - 1]));
    }
  }

  lemma {:induction false} DelNodesAt<T>(steps: seq<Step<T>>, k: nat)
    requires k < |steps| && steps[k].Del?
    ensures Members(steps[k].seg) <= DelNodes(steps)
    decreases |steps|
  {
    if k < |steps| - 1 {
      DelNodesAt(steps[..|steps| - 1], k);
    }
  }

  lemma WithMembers<T>(s: seq<T>, i: nat, seg: seq<T>)
    requires i <= |s|
    ensures Members(With(s, i, seg)) == Members(s) + Members(seg)
  {
    assert s == s[..i] + s[i..];
  }

  // What one step does to the set of lines.
  lemma StepMembers<T>(head: T, c: Config<T>, e: Step<T>)
    requires Ring(head, c) && Ready(head, c, e)
    ensures var c' := Apply(head, c, e);
      && (e.Add? ==> Members(c.lines) == Members(c'.lines) + Members(e.seg) && Members(c'.lines) !! Members(e.seg))
      && (e.Del? ==> Members(c'.lines) == Members(c.lines) + Members(e.seg) && Members(c.lines) !! Members(e.seg))
      && (e.Mov? ==> Members(c'.lines) == Members(c.lines))
  {
    if e.Del? {
      WithMembers(c.lines, e.i, e.seg);
    } else {
      var r := Without(c.lines, e.i, |e.seg|);
      WithoutWith(c.lines, e.i, |e.seg|);
      WithMembers(r, e.i, e.seg);
      if e.Mov? {
        WithMembers(r, e.j, e.seg);
      } else {
        SegmentApart(head, c, e);
      }
    }
  }

  lemma Balance<T>(now: set<T>, next: set<T>, seg: set<T>, del: set<T>, add: set<T>, end: set<T>,
                   isAdd: bool, isDel: bool)
    requires next + del == end + add
    requires isAdd ==> now == next + seg
    requires isDel ==> next == now + seg
    requires !isAdd && !isDel ==> next == now
    requires !(isAdd && isDel)
    ensures now + ((if isDel then seg else {}) + del) == end + ((if isAdd then seg else {}) + add)
  {
    if isAdd {
      assert now + del == (next + del) + seg;
      assert end + (seg + add) == (end + add) + seg;
    } else if isDel {
      assert now + (seg + del) == next + del;
    }
  }

  /** Lines now plus lines to be brought back are lines then plus lines to be taken out. */
  lemma {:induction false} PathNodes<T>(head: T, steps: seq<Step<T>>, c: Config<T>)
    requires Ring(head, c) && Path(head, steps, c)
    ensures Members(c.lines) + DelNodes(steps) == Members(End(head, steps, c).lines) + AddNodes(steps)
    decreases |steps|
  {
    if |steps| > 0 {
      var e, rest := steps[|steps| - 1], steps[..|steps| - 1];
      StepInverse(head, c, e);
      var c' := Apply(head, c, e);
      PathNodes(head, rest, c');
      StepMembers(head, c, e);
      Balance(Members(c.lines), Members(c'.lines), Members(e.seg), DelNodes(rest), AddNodes(rest),
              Members(End(head, rest, c').lines), e.Add?, e.Del?);
    }
  }

  /** No line is inserted again after it was deleted: the lines an insertion record
      takes out are not lines that an earlier deletion record brings back. */
  ghost predicate Born<T>(steps: seq<Step<T>>) {
    forall i, j :: 0 <= i < j < |steps| && steps[i].Del? && steps[j].Add? ==>
      Members(steps[i].seg) !! Members(steps[j].seg)
  }

  lemma BornRedo<T>(steps: seq<Step<T>>)
    requires Born(steps)
    ensures Born(Redo(steps))
  {
    var r, n := Redo(steps), |steps|;
    forall i, j | 0 <= i < j < |r| && r[i].Del? && r[j].Add?
      ensures Members(r[i].seg) !! Members(r[j].seg)
    {
      RedoAt(steps, i);
      RedoAt(steps, j);
      assert steps[n - 1 - j].Del? && steps[n - 1 - i].Add?;
    }
  }

  lemma {:induction false} BornTop<T>(steps: seq<Step<T>>, e: Step<T>)
    requires Born(steps + [e]) && e.Add?
    ensures DelNodes(steps) !! Members(e.seg)
    decreases |steps|
  {
    var all := steps + [e];
    if |steps| > 0 {
      var rest, d := steps[..|steps| - 1], steps[|steps| - 1];
      assert all[|steps| - 1] == d && all[|steps|] == e;
      assert Born(rest + [e]) by {
        forall i, j | 0 <= i < j < |rest + [e]| && (rest + [e])[i].Del? && (rest + [e])[j].Add?
          ensures Members((rest + [e])[i].seg) !! Members((rest + [e])[j].seg)
        {
          assert (rest + [e])[i] == all[i];
          assert (rest + [e])[j] == all[if j < |rest| then j else |steps|];
        }
      }
      BornTop(rest, e);
    }
  }

  lemma Apart<T>(head: T, now: set<T>, next: set<T>, seg: set<T>, del: set<T>, isAdd: bool, isDel: bool)
    requires next !! del && head !in del
    requires isAdd ==> now == next + seg && seg !! del
    requires isDel ==> next == now + seg && now !! seg && head !in seg
    requires !isAdd && !isDel ==> next == now
    ensures now !! (if isDel then seg else {}) + del && head !in (if isDel then seg else {}) + del
  {
  }

  lemma HeadNotAdded<T>(head: T, c: Config<T>, e: Step<T>)
    requires Ready(head, c, e)
    ensures e.Del? ==> head !in Members(e.seg)
  {
  }

  /** A line in the list is in no deletion record. */
  lemma {:induction false} LinkedNotDeleted<T>(head: T, steps: seq<Step<T>>, c: Config<T>)
    requires Ring(head, c) && Path(head, steps, c) && Born(steps)
    ensures Members(c.lines) !! DelNodes(steps) && head !in DelNodes(steps)
    decreases |steps|
  {
    hide Ring, Apply, Born, Flip, Members, Ready;
    if |steps| == 0 {
      assert DelNodes(steps) == {};
    } else {
      var e, rest := steps[|steps| - 1], steps[..|steps| - 1];
      StepInverse(head, c, e);
      var c' := Apply(head, c, e);
      BornPop(steps);
      LinkedNotDeleted(head, rest, c');
      StepMembers(head, c, e);
      HeadNotAdded(head, c, e);
      Apart(head, Members(c.lines), Members(c'.lines), Members(e.seg), DelNodes(rest), e.Add?, e.Del?);
    }
  }

  lemma MoveKeeps<T>(head: T, c: Config<T>, e: Step<T>, x: T)
    requires Ring(head, c) && Ready(head, c, e) && e.Mov?
    requires x in c.links.forw && x != head && x !in c.lines
    ensures var l' := Apply(head, c, e).links;
      && x in l'.forw && l'.forw[x] == c.links.forw[x]
      && x in l'.back && l'.back[x] == c.links.back[x]
  {
    MoveEffect(head, c, e);
    var seg, r := e.seg, Without(c.lines, e.i, |e.seg|);
    assert x != seg[0] && x != seg[|seg| - 1] by {
      SegmentPlace(head, c, e);
    }
    var wr := Around(head, r);
    assert forall k :: 0 <= k < |wr| ==> wr[k] == head || wr[k] in r;
    assert x !in r;
  }

  // A step changes no pointer of a node that is out of the list before or after it.
  lemma StepKeeps<T>(head: T, c: Config<T>, e: Step<T>, x: T)
    requires Ring(head, c) && Ready(head, c, e)
    requires x in c.links.forw && x != head
    requires x !in c.lines || x !in Apply(head, c, e).lines
    ensures var l' := Apply(head, c, e).links;
      && x in l'.forw && l'.forw[x] == c.links.forw[x]
      && x in l'.back && l'.back[x] == c.links.back[x]
  {
    match e
    case Add(_, _) =>
      UnlinkEffect(head, c, e);
      SegmentApart(head, c, e);
      UnlinkNeighbours(head, c, e);
    case Del(_, _) =>
      RelinkEffect(head, c, e);
      RelinkNeighbours(head, c, e);
    case Mov(_, _, _, _, _, _, _) =>
      assert x !in c.lines by {
        StepMembers(head, c, e);
        assert x in Members(c.lines) <==> x in Members(Apply(head, c, e).lines);
      }
      MoveKeeps(head, c, e, x);
  }

  ghost predicate Detached<T>(l: Links<T>, seg: seq<T>) {
    |seg| > 0 && Distinct(seg) && Chain(l, seg) && l.forw[seg[|seg| - 1]] !in seg
  }

  lemma DetachedKeeps<T>(head: T, c: Config<T>, e: Step<T>, seg: seq<T>)
    requires Ring(head, c) && Ready(head, c, e)
    requires Detached(Apply(head, c, e).links, seg) && head !in seg
    requires forall x :: x in seg ==> x in c.links.forw && x !in Apply(head, c, e).lines
    ensures Detached(c.links, seg)
  {
    var l := Apply(head, c, e).links;
    forall k | 0 <= k < |seg|
      ensures l.forw[seg[k]] == c.links.forw[seg[k]] && l.back[seg[k]] == c.links.back[seg[k]]
    {
      assert seg[k] in seg;
      StepKeeps(head, c, e, seg[k]);
    }
  }

  lemma StepDomain<T>(head: T, c: Config<T>, e: Step<T>)
    requires Ring(head, c) && Ready(head, c, e)
    ensures Apply(head, c, e).links.forw.Keys == c.links.forw.Keys
  {
    RingDomain(head, c);
    match e
    case Add(i, seg) => UnlinkEffect(head, c, e);
    case Del(i, seg) => RelinkEffect(head, c, e);
    case Mov(i, seg, j, b1, a1, b2, a2) =>
      MoveEffect(head, c, e);
      MovePlaces(head, c, e);
      SegmentEnds(head, c, e);
  }

  /** In the present pointers, however many records lie above it, the segment of a
      deletion record is a chain of its own, apart from every line in the list. */
  lemma {:induction false} DeletedSegment<T>(head: T, steps: seq<Step<T>>, c: Config<T>, k: nat)
    requires Ring(head, c) && Path(head, steps, c) && Born(steps)
    requires k < |steps| && steps[k].Del?
    ensures Detached(c.links, steps[k].seg)
    ensures forall x :: x in steps[k].seg ==> x in c.links.forw && x !in c.lines && x != head
    decreases |steps|
  {
    var e, rest, seg := steps[|steps| - 1], steps[..|steps| - 1], steps[k].seg;
    if k < |steps| - 1 {
      StepInverse(head, c, e);
      DeletedSegment(head, rest, Apply(head, c, e), k);
      StepDomain(head, c, e);
      DetachedKeeps(head, c, e, seg);
      forall x | x in seg ensures x !in c.lines {
        LinkedNotDeleted(head, steps, c);
        DelNodesAt(steps, k);
        assert x in Members(seg);
      }
    } else {
      assert Ready(head, c, e);
      var w := Around(head, c.lines);
      assert w[e.i + 1] == head || w[e.i + 1] in c.lines;
    }
  }

  /** The segments of two deletion records have no node in common. */
  lemma {:induction false} DeletedDisjoint<T>(head: T, steps: seq<Step<T>>, c: Config<T>, k: nat)
    requires Ring(head, c) && Path(head, steps, c) && Born(steps) && k < |steps| && steps[k].Del?
    ensures Members(steps[k].seg) !! DelNodes(steps[..k])
    decreases |steps|
  {
    hide Ring, Apply, Born, Flip, Members, Ready;
    var e, rest := steps[|steps| - 1], steps[..|steps| - 1];
    StepInverse(head, c, e);
    BornPop(steps);
    if k < |rest| {
      DeletedDisjoint(head, rest, Apply(head, c, e), k);
      assert rest[..k] == steps[..k];
    } else {
      StepMembers(head, c, e);
      LinkedNotDeleted(head, rest, Apply(head, c, e));
    }
  }

  lemma AgreeUpdate<T>(l: Links<T>, l': Links<T>, xs: set<T>, k: T, v: T, k': T, v': T)
    requires Agree(l, l', xs)
    ensures Agree(Links(l.forw[k := v], l.back[k' := v']), Links(l'.forw[k := v], l'.back[k' := v']), xs)
  {
  }

  lemma UnlinkAgree<T>(head: T, c: Config<T>, e: Step<T>, l': Links<T>, xs: set<T>)
    requires Ring(head, c) && Ready(head, c, e) && e.Add? && Ring(head, Config(l', c.lines))
    requires Agree(c.links, l', xs)
    ensures var c' := Config(l', c.lines);
      Ready(head, c', e) && Agree(Apply(head, c, e).links, Apply(head, c', e).links, xs)
  {
    var w, k := Around(head, c.lines), e.i + |e.seg| + 1;
    UnlinkEffect(head, c, e);
    UnlinkEffect(head, Config(l', c.lines), e);
    AgreeUpdate(c.links, l', xs, w[e.i], w[k], w[k], w[e.i]);
  }

  lemma RelinkAgree<T>(head: T, c: Config<T>, e: Step<T>, l': Links<T>, xs: set<T>)
    requires Ring(head, c) && Ready(head, c, e) && e.Del? && Ring(head, Config(l', c.lines))
    requires Agree(c.links, l', xs) && Members(e.seg) <= xs
    ensures var c' := Config(l', c.lines);
      Ready(head, c', e) && Agree(Apply(head, c, e).links, Apply(head, c', e).links, xs)
  {
    var w, c' := Around(head, c.lines), Config(l', c.lines);
    forall k | 0 <= k < |e.seg| ensures e.seg[k] in xs {
      assert e.seg[k] in Members(e.seg);
    }
    assert Ready(head, c', e);
    RelinkEffect(head, c, e);
    RelinkEffect(head, c', e);
    AgreeUpdate(c.links, l', xs, w[e.i], e.seg[0], w[e.i + 1], e.seg[|e.seg| - 1]);
  }

  lemma MoveAgree<T>(head: T, c: Config<T>, e: Step<T>, l': Links<T>, xs: set<T>)
    requires Ring(head, c) && Ready(head, c, e) && e.Mov? && Ring(head, Config(l', c.lines))
    requires Agree(c.links, l', xs)
    ensures var c' := Config(l', c.lines);
      Ready(head, c', e) && Agree(Apply(head, c, e).links, Apply(head, c', e).links, xs)
  {
    var l, h, t := c.links, e.seg[0], e.seg[|e.seg| - 1];
    MoveEffect(head, c, e);
    MoveEffect(head, Config(l', c.lines), e);
    AgreeUpdate(l, l', xs, e.b1, h, h, e.b1);
    var m, m' := Links(l.forw[e.b1 := h], l.back[h := e.b1]), Links(l'.forw[e.b1 := h], l'.back[h := e.b1]);
    AgreeUpdate(m, m', xs, t, e.a1, e.a1, t);
    AgreeUpdate(Links(m.forw[t := e.a1], m.back[e.a1 := t]), Links(m'.forw[t := e.a1], m'.back[e.a1 := t]),
                xs, e.b2, e.a2, e.a2, e.b2);
  }

  // A step looks only at pointers of the lines, the head and the segment it brings back.
  lemma StepAgree<T>(head: T, c: Config<T>, e: Step<T>, l': Links<T>, xs: set<T>)
    requires Ring(head, c) && Ready(head, c, e) && l'.forw.Keys == l'.back.Keys
    requires Agree(c.links, l', xs)
    requires Members(c.lines) + {head} + (if e.Del? then Members(e.seg) else {}) <= xs
    ensures var c' := Config(l', c.lines);
      && Ring(head, c') && Ready(head, c', e)
      && Agree(Apply(head, c, e).links, Apply(head, c', e).links, xs)
  {
    RingAgree(head, c, l');
    match e
    case Add(_, _) => UnlinkAgree(head, c, e, l', xs);
    case Del(_, _) => RelinkAgree(head, c, e, l', xs);
    case Mov(_, _, _, _, _, _, _) => MoveAgree(head, c, e, l', xs);
  }

  /** The path of a stack does not depend on the pointers of other nodes, such as
      newly allocated ones. */
  lemma {:induction false} PathAgree<T>(head: T, steps: seq<Step<T>>, c: Config<T>, l': Links<T>, xs: set<T>)
    requires Ring(head, c) && Path(head, steps, c) && l'.forw.Keys == l'.back.Keys
    requires Agree(c.links, l', xs)
    requires Members(c.lines) + {head} + DelNodes(steps) <= xs
    ensures var c' := Config(l', c.lines);
      && Ring(head, c') && Path(head, steps, c')
      && End(head, steps, c').lines == End(head, steps, c).lines
    decreases |steps|
  {
    var c' := Config(l', c.lines);
    RingAgree(head, c, l');
    if |steps| > 0 {
      var e, rest := steps[|steps| - 1], steps[..|steps| - 1];
      StepAgree(head, c, e, l', xs);
      StepInverse(head, c, e);
      StepInverse(head, c', e);
      assert Members(Apply(head, c, e).lines) + {head} + DelNodes(rest) <= xs by {
        StepMembers(head, c, e);
      }
      PathAgree(head, rest, Apply(head, c, e), Apply(head, c', e).links, xs);
    }
  }

  /** An edit that is itself a step, pushed as its flipped record, leads to the same end. */
  lemma PushStep<T>(head: T, steps: seq<Step<T>>, c: Config<T>, e: Step<T>)
    requires Ring(head, c) && Path(head, steps, c) && Ready(head, c, e)
    ensures var c' := Apply(head, c, e);
      && Ring(head, c') && Path(head, steps + [Flip(e)], c')
      && End(head, steps + [Flip(e)], c') == End(head, steps, c)
  {
    StepInverse(head, c, e);
    assert (steps + [Flip(e)])[..|steps|] == steps;
  }

  // INSQUE: insert x in the queue after cp.
  function Insque<T>(l: Links<T>, x: T, cp: T): Links<T>
    requires cp in l.forw
  {
    Reque(Reque(l, x, l.forw[cp]), cp, x)
  }

  // The pointers after allocating node x: everything else is as it was.
  ghost predicate Allocated<T>(l: Links<T>, l0: Links<T>, x: T) {
    && x !in l.forw
    && l0.forw.Keys == l0.back.Keys == l.forw.Keys + {x}
    && Agree(l, l0, l.forw.Keys)
  }

  // The buffer with node x linked in after the i-th line.
  ghost function Inserted<T>(head: T, c: Config<T>, l0: Links<T>, i: nat, x: T): Config<T>
    requires Ring(head, c) && i <= |c.lines| && Allocated(c.links, l0, x)
  {
    var cp := Around(head, c.lines)[i];
    assert cp in c.links.forw;
    Config(Insque(l0, x, cp), With(c.lines, i, [x]))
  }

  // The new node before it is linked in, with the outward pointers it is about to get.
  ghost function Poised<T>(head: T, c: Config<T>, l0: Links<T>, i: nat, x: T): Config<T>
    requires i <= |c.lines|
  {
    var w := Around(head, c.lines);
    Config(Links(l0.forw[x := w[i + 1]], l0.back[x := w[i]]), c.lines)
  }

  // Inserting one line is relinking a segment of one poised node.
  lemma InsertIsRelink<T>(head: T, c: Config<T>, l0: Links<T>, i: nat, x: T)
    requires Ring(head, c) && i <= |c.lines| && Allocated(c.links, l0, x)
    ensures var p := Poised(head, c, l0, i, x);
      && Ring(head, p) && Ready(head, p, Del(i, [x]))
      && Apply(head, p, Del(i, [x])) == Inserted(head, c, l0, i, x)
  {
    var p, w := Poised(head, c, l0, i, x), Around(head, c.lines);
    RingDomain(head, c);
    assert x !in Members(c.lines) && x != head;
    RingAgree(head, c, p.links);
    assert Ready(head, p, Del(i, [x]));
    RelinkEffect(head, p, Del(i, [x]));
    assert w[i] in c.links.forw && w[i + 1] in c.links.forw;
    assert l0.forw[w[i]] == w[i + 1];
    assert Insque(l0, x, w[i]) == Links(p.links.forw[w[i] := x], p.links.back[w[i + 1] := x]);
  }

  lemma {:induction false} BornPush<T>(steps: seq<Step<T>>, e: Step<T>)
    requires Born(steps)
    requires e.Add? ==> DelNodes(steps) !! Members(e.seg)
    ensures Born(steps + [e])
  {
    forall k | 0 <= k < |steps| && steps[k].Del?
      ensures Members(steps[k].seg) <= DelNodes(steps)
    {
      DelNodesAt(steps, k);
    }
  }

  lemma BornPop<T>(steps: seq<Step<T>>)
    requires Born(steps) && |steps| > 0
    ensures Born(steps[..|steps| - 1])
    ensures steps[|steps| - 1].Add? ==> DelNodes(steps[..|steps| - 1]) !! Members(steps[|steps| - 1].seg)
  {
    assert steps == steps[..|steps| - 1] + [steps[|steps| - 1]];
    if steps[|steps| - 1].Add? {
      BornTop(steps[..|steps| - 1], steps[|steps| - 1]);
    }
  }

  /** Inserting a new line and pushing an insertion record for it. */
  lemma InsertLine<T>(head: T, steps: seq<Step<T>>, c: Config<T>, l0: Links<T>, i: nat, x: T)
    requires Ring(head, c) && Path(head, steps, c) && Born(steps) && DelNodes(steps) <= c.links.forw.Keys
    requires i <= |c.lines| && Allocated(c.links, l0, x)
    ensures var c' := Inserted(head, c, l0, i, x);
      && Ring(head, c') && Path(head, steps + [Add(i, [x])], c') && Born(steps + [Add(i, [x])])
      && End(head, steps + [Add(i, [x])], c').lines == End(head, steps, c).lines
  {
    var p := Poised(head, c, l0, i, x);
    InsertIsRelink(head, c, l0, i, x);
    RingDomain(head, c);
    PathAgree(head, steps, c, p.links, c.links.forw.Keys);
    PushStep(head, steps, p, Del(i, [x]));
    BornPush(steps, Add(i, [x]));
  }

  lemma ExtendReady<T>(head: T, c: Config<T>, c': Config<T>, e: Step<T>, x: T)
    requires Ring(head, c) && Ready(head, c, e) && e.Add?
    requires c'.lines == With(c.lines, e.i + |e.seg|, [x])
    ensures var e' := Add(e.i, e.seg + [x]);
      Ready(head, c', e') && StepLines(c'.lines, e') == StepLines(c.lines, e)
  {
    var n := |e.seg|;
    assert c'.lines[e.i..e.i + n + 1] == e.seg + [x] by {
      SegmentPlace(head, c, e);
    }
    assert Without(c'.lines, e.i, n + 1) == Without(c.lines, e.i, n);
  }

  // Where the lengthened segment sits.
  lemma ExtendNeighbours<T>(head: T, c: Config<T>, e: Step<T>, x: T)
    requires Ring(head, c) && Ready(head, c, e) && e.Add?
    ensures var i := e.i + |e.seg|;
      var w, w' := Around(head, c.lines), Around(head, With(c.lines, i, [x]));
      w[i] == e.seg[|e.seg| - 1] && w'[e.i] == w[e.i] && w'[i + 2] == w[i + 1]
  {
    SegmentEnds(head, c, e);
    AroundWith(head, c.lines, e.i + |e.seg|, [x]);
  }

  lemma ExtendRing<T>(head: T, c: Config<T>, l0: Links<T>, i: nat, x: T)
    requires Ring(head, c) && i <= |c.lines| && Allocated(c.links, l0, x)
    ensures var c', w := Inserted(head, c, l0, i, x), Around(head, c.lines);
      && Ring(head, c')
      && c'.links == Links(l0.forw[x := w[i + 1]][w[i] := x], l0.back[x := w[i]][w[i + 1] := x])
  {
    InsertIsRelink(head, c, l0, i, x);
    var p := Poised(head, c, l0, i, x);
    RelinkRing(head, p, Del(i, [x]));
    RelinkEffect(head, p, Del(i, [x]));
  }

  lemma ExtendAgree<T>(head: T, c: Config<T>, l0: Links<T>, e: Step<T>, x: T, xs: set<T>, c': Config<T>)
    requires Ring(head, c) && Ready(head, c, e) && e.Add? && Allocated(c.links, l0, x)
    requires xs <= c.links.forw.Keys && xs !! Members(e.seg)
    requires c' == Inserted(head, c, l0, e.i + |e.seg|, x)
    requires Ring(head, c') && Ready(head, c', Add(e.i, e.seg + [x]))
    ensures Agree(Apply(head, c, e).links, Apply(head, c', Add(e.i, e.seg + [x])).links, xs)
  {
    assert |e.seg| > 0 && e.i + |e.seg| <= |c.lines|;
    hide Apply, Ring, Distinct, Chain, Agree, Around, With, Ready;
    var i, e' := e.i + |e.seg|, Add(e.i, e.seg + [x]);
    var w, t := Around(head, c.lines), e.seg[|e.seg| - 1];
    ExtendRing(head, c, l0, i, x);
    UnlinkEffect(head, c, e);
    UnlinkEffect(head, c', e');
    ExtendNeighbours(head, c, e, x);
    assert t in Members(e.seg);
    DetourAgree(c.links, l0, x, t, w[e.i], w[i + 1], xs);
  }

  // Between b and a, past t or past t and the new node x: the same for everyone else.
  lemma DetourAgree<T>(l: Links<T>, l0: Links<T>, x: T, t: T, b: T, a: T, xs: set<T>)
    requires Allocated(l, l0, x) && xs <= l.forw.Keys && t !in xs
    ensures Agree(Links(l.forw[b := a], l.back[a := b]),
                  Links(l0.forw[x := a][t := x][b := a], l0.back[x := t][a := x][a := b]), xs)
  {
  }

  lemma UnlinkFootprint<T>(head: T, rest: seq<Step<T>>, e: Step<T>, c: Config<T>)
    requires Ring(head, c) && Ready(head, c, e) && e.Add?
    requires DelNodes(rest) <= c.links.forw.Keys && DelNodes(rest) !! Members(e.seg)
    ensures var xs := Members(Apply(head, c, e).lines) + {head} + DelNodes(rest);
      xs <= c.links.forw.Keys && xs !! Members(e.seg)
  {
    StepMembers(head, c, e);
    RingDomain(head, c);
    SegmentApart(head, c, e);
    assert head !in Members(e.seg);
  }

  // A record on top of a stack is undone first.
  lemma PathTop<T>(head: T, rest: seq<Step<T>>, e: Step<T>, c: Config<T>)
    requires Ring(head, c) && Ready(head, c, e)
    ensures Ring(head, Apply(head, c, e))
    ensures Path(head, rest + [e], c) == Path(head, rest, Apply(head, c, e))
    ensures Path(head, rest + [e], c) ==> End(head, rest + [e], c) == End(head, rest, Apply(head, c, e))
  {
    StepInverse(head, c, e);
    assert (rest + [e])[..|rest|] == rest;
  }

  // Two top records that lead to the same lines and agreeing pointers lead to the same end.
  lemma PathTransfer<T>(head: T, rest: seq<Step<T>>, e: Step<T>, c: Config<T>, e': Step<T>, c': Config<T>, xs: set<T>)
    requires Ring(head, c) && Ready(head, c, e) && Path(head, rest + [e], c)
    requires Ring(head, c') && Ready(head, c', e')
    requires var d, d' := Apply(head, c, e), Apply(head, c', e');
      && d'.lines == d.lines && Agree(d.links, d'.links, xs)
      && Members(d.lines) + {head} + DelNodes(rest) <= xs
    ensures Path(head, rest + [e'], c')
    ensures End(head, rest + [e'], c').lines == End(head, rest + [e], c).lines
  {
    PathTop(head, rest, e, c);
    PathTop(head, rest, e', c');
    PathAgree(head, rest, Apply(head, c, e), Apply(head, c', e').links, xs);
  }

  lemma ExtendPath<T>(head: T, rest: seq<Step<T>>, e: Step<T>, c: Config<T>, l0: Links<T>, x: T,
                      e': Step<T>, c': Config<T>)
    requires Ring(head, c) && Ready(head, c, e) && e.Add? && Path(head, rest + [e], c)
    requires DelNodes(rest) <= c.links.forw.Keys && DelNodes(rest) !! Members(e.seg)
    requires Allocated(c.links, l0, x)
    requires c' == Inserted(head, c, l0, e.i + |e.seg|, x) && e' == Add(e.i, e.seg + [x])
    ensures Ring(head, c') && Path(head, rest + [e'], c')
    ensures End(head, rest + [e'], c').lines == End(head, rest + [e], c).lines
  {
    hide Ring, Born, Flip, Members, Path, End, Agree, DelNodes, Allocated;
    var xs := Members(Apply(head, c, e).lines) + {head} + DelNodes(rest);
    UnlinkFootprint(head, rest, e, c);
    ExtendRing(head, c, l0, e.i + |e.seg|, x);
    ExtendReady(head, c, c', e, x);
    ExtendAgree(head, c, l0, e, x, xs, c');
    PathTransfer(head, rest, e, c, e', c', xs);
  }

  /** Inserting a new line right after the segment of the topmost insertion record and
      lengthening that record. */
  lemma ExtendLine<T>(head: T, rest: seq<Step<T>>, e: Step<T>, c: Config<T>, l0: Links<T>, x: T)
    requires Ring(head, c) && Path(head, rest + [e], c) && Born(rest + [e]) && e.Add?
    requires DelNodes(rest) <= c.links.forw.Keys && Allocated(c.links, l0, x)
    requires e.i + |e.seg| <= |c.lines|
    ensures var c', e' := Inserted(head, c, l0, e.i + |e.seg|, x), Add(e.i, e.seg + [x]);
      && Ring(head, c') && Path(head, rest + [e'], c') && Born(rest + [e'])
      && End(head, rest + [e'], c').lines == End(head, rest + [e], c).lines
  {
    assert (rest + [e])[..|rest|] == rest;
    BornPop(rest + [e]);
    var e' := Add(e.i, e.seg + [x]);
    ExtendPath(head, rest, e, c, l0, x, e', Inserted(head, c, l0, e.i + |e.seg|, x));
    assert DelNodes(rest) !! Members(e'.seg) by {
      assert Members(e'.seg) == Members(e.seg) + {x};
    }
    BornPush(rest, e');
  }

  // An undo record as stored: UMOV and VMOV both count as a move.
  datatype Kind = InsertKind | DeleteKind | MoveKind

  datatype Mark<T> = Mark(kind: Kind, h: T, t: T)

  function FlipMark<T>(m: Mark<T>): Mark<T> {
    match m.kind
    case InsertKind => m.(kind := DeleteKind)
    case DeleteKind => m.(kind := InsertKind)
    case MoveKind => m
  }

  // The stored records of one step: a move takes two.
  function Render<T>(e: Step<T>): seq<Mark<T>>
    requires |e.seg| > 0
  {
    match e
    case Add(_, seg) => [Mark(InsertKind, seg[0], seg[|seg| - 1])]
    case Del(_, seg) => [Mark(DeleteKind, seg[0], seg[|seg| - 1])]
    case Mov(_, _, _, b1, a1, b2, a2) => [Mark(MoveKind, b1, a1), Mark(MoveKind, b2, a2)]
  }

  ghost predicate Renderable<T>(steps: seq<Step<T>>) {
    forall k :: 0 <= k < |steps| ==> |steps[k].seg| > 0
  }

  function Rendered<T>(steps: seq<Step<T>>): seq<Mark<T>>
    requires Renderable(steps)
  {
    if |steps| == 0 then []
    else Rendered(steps[..|steps| - 1]) + Render(steps[|steps| - 1])
  }

  function Backwards<T>(marks: seq<Mark<T>>): (r: seq<Mark<T>>)
    ensures |r| == |marks|
    ensures forall k :: 0 <= k < |marks| ==> r[k] == FlipMark(marks[|marks| - 1 - k])
  {
    if |marks| == 0 then []
    else [FlipMark(marks[|marks| - 1])] + Backwards(marks[..|marks| - 1])
  }

  lemma {:induction false} RenderedBottom<T>(e: Step<T>, steps: seq<Step<T>>)
    requires |e.seg| > 0 && Renderable(steps)
    ensures Renderable([e] + steps) && Rendered([e] + steps) == Render(e) + Rendered(steps)
    decreases |steps|
  {
    var all := [e] + steps;
    if |steps| > 0 {
      assert all[..|all| - 1] == [e] + steps[..|steps| - 1];
      RenderedBottom(e, steps[..|steps| - 1]);
    } else {
      assert all[..|all| - 1] == [];
    }
  }

  lemma BackwardsConcat<T>(a: seq<Mark<T>>, b: seq<Mark<T>>)
    ensures Backwards(a + b) == Backwards(b) + Backwards(a)
  {
  }

  lemma BackwardsRender<T>(e: Step<T>)
    requires |e.seg| > 0
    ensures Backwards(Render(e)) == Render(Flip(e))
  {
  }

  /** Flipping every stored record and reversing them all gives the stored records of
      the redo path; the two halves of a move stay adjacent. */
  lemma {:induction false} RenderedRedo<T>(steps: seq<Step<T>>)
    requires Renderable(steps)
    ensures Renderable(Redo(steps)) && Rendered(Redo(steps)) == Backwards(Rendered(steps))
    decreases |steps|
  {
    if |steps| > 0 {
      var e, rest := steps[|steps| - 1], steps[..|steps| - 1];
      RenderedRedo(rest);
      RenderedBottom(Flip(e), Redo(rest));
      BackwardsConcat(Rendered(rest), Render(e));
      BackwardsRender(e);
    }
  }

  lemma RenderedPush<T>(steps: seq<Step<T>>, e: Step<T>)
    requires Renderable(steps) && |e.seg| > 0
    ensures Renderable(steps + [e]) && Rendered(steps + [e]) == Rendered(steps) + Render(e)
  {
    assert (steps + [e])[..|steps|] == steps;
  }

  lemma DelNodesPush<T>(steps: seq<Step<T>>, e: Step<T>)
    ensures DelNodes(steps + [e]) == (if e.Del? then Members(e.seg) else {}) + DelNodes(steps)
  {
    assert (steps + [e])[..|steps|] == steps;
  }

  // Deleting or moving lines with the flipped record pushed: no node is lost.
  lemma EditBooks<T>(head: T, steps: seq<Step<T>>, c: Config<T>, e: Step<T>)
    requires Ring(head, c) && Born(steps) && Renderable(steps) && Ready(head, c, e) && !e.Del?
    ensures var st := steps + [Flip(e)];
      && Born(st) && Renderable(st) && Rendered(st) == Rendered(steps) + Render(Flip(e))
      && Members(StepLines(c.lines, e)) + DelNodes(st) == Members(c.lines) + DelNodes(steps)
  {
    BornPush(steps, Flip(e));
    StepMembers(head, c, e);
    DelNodesPush(steps, Flip(e));
    RenderedPush(steps, Flip(e));
  }

  lemma AddedMembers<T>(s: seq<T>, i: nat, x: T)
    requires i <= |s|
    ensures Members(With(s, i, [x])) == Members(s) + {x}
  {
    WithMembers(s, i, [x]);
    assert Members([x]) == {x};
  }

  // Inserting a line with a new record: one more node.
  lemma InsertBooks<T>(steps: seq<Step<T>>, s: seq<T>, i: nat, x: T)
    requires Renderable(steps) && i <= |s|
    ensures var st := steps + [Add(i, [x])];
      && Renderable(st) && Rendered(st) == Rendered(steps) + [Mark(InsertKind, x, x)]
      && Members(With(s, i, [x])) + DelNodes(st) == Members(s) + DelNodes(steps) + {x}
  {
    AddedMembers(s, i, x);
    DelNodesPush(steps, Add(i, [x]));
    RenderedPush(steps, Add(i, [x]));
  }

  // Inserting a further line of the same edit: the topmost record grows.
  lemma ExtendBooks<T>(rest: seq<Step<T>>, e: Step<T>, s: seq<T>, i: nat, x: T)
    requires Renderable(rest) && |e.seg| > 0 && e.Add? && i <= |s|
    ensures var st := rest + [Add(e.i, e.seg + [x])];
      && Renderable(rest + [e]) && Renderable(st)
      && Rendered(rest + [e]) == Rendered(rest) + [Mark(InsertKind, e.seg[0], e.seg[|e.seg| - 1])]
      && Rendered(st) == Rendered(rest) + [Mark(InsertKind, e.seg[0], x)]
      && Members(With(s, i, [x])) + DelNodes(st) == Members(s) + DelNodes(rest + [e]) + {x}
  {
    AddedMembers(s, i, x);
    DelNodesPush(rest, e);
    DelNodesPush(rest, Add(e.i, e.seg + [x]));
    RenderedPush(rest, e);
    RenderedPush(rest, Add(e.i, e.seg + [x]));
  }
}
