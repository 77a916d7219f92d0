/**
 The loops of pop_undo_stack and clear_undo_stack over the stored undo records.
 */
module EdStack {
  import opened EdLinks
  import opened EdUndo
  import opened EdTrack

  datatype UndoType = UADD | UDEL | UMOV | VMOV

  // type ^= 1
  function Toggle(u: UndoType): UndoType {
    match u
    case UADD => UDEL
    case UDEL => UADD
    case UMOV => VMOV
    case VMOV => UMOV
  }

  datatype Undo<T> = Undo(kind: UndoType, h: T, t: T)

  function MarkOf<T>(u: Undo<T>): Mark<T> {
    match u.kind
    case UADD => Mark(InsertKind, u.h, u.t)
    case UDEL => Mark(DeleteKind, u.h, u.t)
    case UMOV => Mark(MoveKind, u.h, u.t)
    case VMOV => Mark(MoveKind, u.h, u.t)
  }

  ghost function Marks<T>(us: seq<Undo<T>>): (r: seq<Mark<T>>)
    ensures |r| == |us|
    ensures forall k :: 0 <= k < |us| ==> r[k] == MarkOf(us[k])
  {
    if |us| == 0 then [] else Marks(us[..|us| - 1]) + [MarkOf(us[|us| - 1])]
  }

  lemma MarksAre<T>(us: seq<Undo<T>>, marks: seq<Mark<T>>)
    ensures marks == Marks(us) <==> |us| == |marks| && forall k :: 0 <= k < |us| ==> MarkOf(us[k]) == marks[k]
  {
  }

  lemma MarksPush<T>(us: seq<Undo<T>>, u: Undo<T>)
    ensures Marks(us + [u]) == Marks(us) + [MarkOf(u)]
  {
  }

  lemma MarksPushTwo<T>(us: seq<Undo<T>>, u: Undo<T>, v: Undo<T>)
    ensures Marks(us + [u, v]) == Marks(us) + [MarkOf(u), MarkOf(v)]
  {
    assert us + [u, v] == (us + [u]) + [v];
  }

  // Only the topmost record's end changes.
  lemma MarksEnd<T>(us: seq<Undo<T>>, t: T)
    requires |us| > 0 && MarkOf(us[|us| - 1]).kind == InsertKind
    ensures var n := |us| - 1;
      Marks(us[n := us[n].(t := t)]) == Marks(us)[n := Marks(us)[n].(t := t)]
  {
  }

  lemma MarksNone<T>()
    ensures Marks<T>([]) == []
  {
  }

  // The state of the loop of pop_undo_stack: the first k steps are still to be undone.
  ghost predicate Undoing<T>(head: T, c: Config<T>, steps: seq<Step<T>>, us: seq<Undo<T>>, n: nat, k: nat,
                             cur: Config<T>) {
    && k <= |steps| && n <= |us|
    && Ring(head, c) && Path(head, steps, c)
    && Ring(head, cur) && Path(head, steps[..k], cur)
    && End(head, steps[..k], cur) == End(head, steps, c)
    && Renderable(steps[..k]) && Marks(us)[..n] == Rendered(steps[..k])
  }

  // One round of that loop.
  lemma UndoRound<T>(head: T, c: Config<T>, steps: seq<Step<T>>, us: seq<Undo<T>>, n: nat, k: nat, cur: Config<T>)
    returns (cur': Config<T>)
    requires Undoing(head, c, steps, us, n, k, cur) && n > 0
    ensures k > 0
    ensures var u, l := us[n - 1], cur.links;
      && (u.kind.UADD? || u.kind.UDEL? ==>
            u.h in l.back && u.t in l.forw && Undoing(head, c, steps, us, n - 1, k - 1, cur'))
      && (u.kind.UADD? ==> cur'.links == UnlinkSegment(l, u.h, u.t))
      && (u.kind.UDEL? ==> cur'.links == RelinkSegment(l, u.h, u.t))
      && (u.kind.UMOV? || u.kind.VMOV? ==>
            && n >= 2 && (us[n - 2].kind.UMOV? || us[n - 2].kind.VMOV?)
            && u.h in l.forw && u.t in l.back
            && cur'.links == MoveSegment(l, us[n - 2].h, us[n - 2].t, u.h, u.t)
            && Undoing(head, c, steps, us, n - 2, k - 1, cur'))
  {
    hide Ring, Ready, Rendered, Renderable, Apply, UnlinkSegment, RelinkSegment, MoveSegment;
    var marks := Marks(us);
    TopRecord(steps[..k], marks[..n]);
    var e := steps[k - 1];
    assert steps[..k][..k - 1] == steps[..k - 1] && steps[..k][k - 1] == e;
    StepInverse(head, cur, e);
    StepReads(head, cur, e);
    cur' := Apply(head, cur, e);
    assert marks[..n][..n - 1] == marks[..n - 1];
    assert n >= 2 ==> marks[..n][..n - 2] == marks[..n - 2];
  }

  /** The undo loop: from the top, each record is undone in the pointers and its type
      flipped; of the two records of a move only the lower one is. */
  method UndoRecords<T>(l0: Links<T>, us0: seq<Undo<T>>, ghost head: T, ghost nodes: set<T>, ghost c: Config<T>,
                        ghost steps: seq<Step<T>>, ghost marks: seq<Mark<T>>)
    returns (l: Links<T>, us: seq<Undo<T>>)
    requires Track(head, nodes, c, steps, marks) && l0 == c.links
    requires |us0| == |marks| && forall k :: 0 <= k < |us0| ==> MarkOf(us0[k]) == marks[k]
    ensures Ring(head, c) && Path(head, steps, c) && l == End(head, steps, c).links
    ensures |us| == |us0| && forall i :: 0 <= i < |us| ==> MarkOf(us[i]) == FlipMark(MarkOf(us0[i]))
  {
    hide Ring, Path, End, Undoing, Track, Marks, UnlinkSegment, RelinkSegment, MoveSegment;
    l, us := l0, us0;
    var n := |us|;
    ghost var k, cur := |steps|, c;
    MarksAre(us0, marks);
    UndoStart(head, nodes, c, steps, us0);
    while n > 0
      invariant 0 <= n <= |us| == |us0| && 0 <= k && l == cur.links
      invariant Undoing(head, c, steps, us0, n, k, cur)
      invariant forall i :: 0 <= i < n ==> us[i] == us0[i]
      invariant forall i :: n <= i < |us| ==> MarkOf(us[i]) == FlipMark(MarkOf(us0[i]))
    {
      ghost var cur' := UndoRound(head, c, steps, us0, n, k, cur);
      n := n - 1;
      match us[n].kind {
        case UADD =>
          l := UnlinkSegment(l, us[n].h, us[n].t);
        case UDEL =>
          l := RelinkSegment(l, us[n].h, us[n].t);
        case UMOV =>
          l := MoveSegment(l, us[n - 1].h, us[n - 1].t, us[n].h, us[n].t);
          n := n - 1;
        case VMOV =>
          l := MoveSegment(l, us[n - 1].h, us[n - 1].t, us[n].h, us[n].t);
          n := n - 1;
      }
      us := us[n := us[n].(kind := Toggle(us[n].kind))];
      k, cur := k - 1, cur';
    }
    UndoDone(head, c, steps, us0, k, cur);
  }

  lemma {:induction false} UndoStart<T>(head: T, nodes: set<T>, c: Config<T>, steps: seq<Step<T>>, us: seq<Undo<T>>)
    requires Track(head, nodes, c, steps, Marks(us))
    ensures Ring(head, c) && Path(head, steps, c) && Undoing(head, c, steps, us, |us|, |steps|, c)
  {
    assert steps[..|steps|] == steps && Marks(us)[..|us|] == Marks(us);
  }

  lemma {:induction false} RenderedLength<T>(steps: seq<Step<T>>)
    requires Renderable(steps)
    ensures |Rendered(steps)| >= |steps|
    decreases |steps|
  {
    if |steps| > 0 {
      RenderedLength(steps[..|steps| - 1]);
    }
  }

  lemma UndoDone<T>(head: T, c: Config<T>, steps: seq<Step<T>>, us: seq<Undo<T>>, k: nat, cur: Config<T>)
    requires Undoing(head, c, steps, us, 0, k, cur)
    ensures Ring(head, c) && Path(head, steps, c) && cur == End(head, steps, c)
  {
    RenderedLength(steps[..k]);
  }

  /** The second loop of pop_undo_stack: the order of the records is reversed by swaps. */
  method ReverseRecords<T>(us0: seq<Undo<T>>) returns (us: seq<Undo<T>>)
    ensures |us| == |us0| && forall k :: 0 <= k < |us| ==> us[k] == us0[|us0| - 1 - k]
  {
    us := us0;
    var m := |us|;
    var n := m;
    while n > (m + 1) / 2
      invariant (m + 1) / 2 <= n <= m == |us|
      invariant forall k :: n <= k < m ==> us[k] == us0[m - 1 - k] && us[m - 1 - k] == us0[k]
      invariant forall k :: m - n <= k < n ==> us[k] == us0[k]
    {
      n := n - 1;
      us := us[n := us[m - 1 - n]][m - 1 - n := us[n]];
    }
    forall k | 0 <= k < m ensures us[k] == us0[m - 1 - k] {
      if k < m - n {
        assert n <= m - 1 - k < m;
      }
    }
  }

  // Flipped and reversed records are the records of the way back.
  lemma {:induction false} ReversedMarks<T>(us0: seq<Undo<T>>, us1: seq<Undo<T>>, us2: seq<Undo<T>>)
    requires |us1| == |us0| && forall i :: 0 <= i < |us1| ==> MarkOf(us1[i]) == FlipMark(MarkOf(us0[i]))
    requires |us2| == |us1| && forall k :: 0 <= k < |us2| ==> us2[k] == us1[|us1| - 1 - k]
    ensures Marks(us2) == Backwards(Marks(us0))
  {
    hide Marks, Backwards, MarkOf, FlipMark;
    var m := |us0|;
    forall k | 0 <= k < m ensures Marks(us2)[k] == Backwards(Marks(us0))[k] {
      assert us2[k] == us1[m - 1 - k];
    }
  }

  // free: the address is no longer allocated.
  function Forget<T>(l: Links<T>, xs: set<T>): Links<T> {
    Links(l.forw - xs, l.back - xs)
  }

  /** Freeing the segment of a deletion record by walking it from h until the node after t:
      each of its nodes is freed once, and nothing else. */
  method FreeSegment<T(==), R>(l0: Links<T>, recs0: map<T, R>, h: T, t: T, ghost seg: seq<T>)
    returns (l: Links<T>, recs: map<T, R>)
    requires t in l0.forw
    requires if seg == [] then l0.forw[t] == h else Detached(l0, seg) && seg[0] == h && seg[|seg| - 1] == t
    ensures l == Forget(l0, Members(seg)) && recs == recs0 - Members(seg)
  {
    var ep, lp := l0.forw[t], h;
    l, recs := l0, recs0;
    ghost var i := 0;
    while lp != ep
      invariant 0 <= i <= |seg| && lp == (if i < |seg| then seg[i] else ep)
      invariant l == Forget(l0, Members(seg[..i])) && recs == recs0 - Members(seg[..i])
      decreases |seg| - i
    {
      FreeOne(l0, recs0, seg, i);
      var tl := l.forw[lp];
      l := Forget(l, {lp});
      recs := recs - {lp};
      lp, i := tl, i + 1;
    }
    assert i == |seg| && seg[..|seg|] == seg;
  }

  lemma FreeOne<T, R>(l0: Links<T>, recs0: map<T, R>, seg: seq<T>, i: nat)
    requires Detached(l0, seg) && i < |seg|
    ensures var freed, l := Members(seg[..i]), Forget(l0, Members(seg[..i]));
      && seg[i] in l.forw && l.forw[seg[i]] == l0.forw[seg[i]]
      && Forget(l, {seg[i]}) == Forget(l0, Members(seg[..i + 1]))
      && recs0 - freed - {seg[i]} == recs0 - Members(seg[..i + 1])
  {
    assert seg[..i + 1] == seg[..i] + [seg[i]];
    assert Members(seg[..i + 1]) == Members(seg[..i]) + {seg[i]};
  }

  // The state of the loop of clear_undo_stack: the first k steps still hold their segments.
  ghost predicate Freeing<T, R>(head: T, nodes: set<T>, c: Config<T>, steps: seq<Step<T>>, recs0: map<T, R>, k: nat,
                                l: Links<T>, recs: map<T, R>) {
    && k <= |steps|
    && var kept := {head} + Members(c.lines) + DelNodes(steps[..k]);
       && l.forw.Keys == kept && l.back.Keys == kept && Agree(c.links, l, kept)
       && recs == recs0 - (nodes - kept)
  }

  lemma FreeRound<T, R>(head: T, nodes: set<T>, c: Config<T>, steps: seq<Step<T>>, marks: seq<Mark<T>>,
                        recs0: map<T, R>, k: nat, l: Links<T>, recs: map<T, R>)
    requires Track(head, nodes, c, steps, marks) && Freeing(head, nodes, c, steps, recs0, k, l, recs) && k > 0
    ensures !steps[k - 1].Del? ==> Freeing(head, nodes, c, steps, recs0, k - 1, l, recs)
    ensures steps[k - 1].Del? ==>
      var seg := steps[k - 1].seg;
      Detached(l, seg) && Freeing(head, nodes, c, steps, recs0, k - 1, Forget(l, Members(seg)), recs - Members(seg))
  {
    hide Ring, Path, Born, Renderable, Rendered, Detached, Agree, Forget, DelNodes;
    var e := steps[k - 1];
    var live, seg, rest := {head} + Members(c.lines), Members(e.seg), DelNodes(steps[..k - 1]);
    var kept := live + DelNodes(steps[..k]);
    assert steps[..k] == steps[..k - 1] + [e];
    DelNodesPush(steps[..k - 1], e);
    if e.Del? {
      DeletedSegment(head, steps, c, k - 1);
      DeletedDisjoint(head, steps, c, k - 1);
      DetachedAgree(c.links, l, e.seg, kept);
      FreeSets(nodes, live, seg, rest);
      ForgetAgree(c.links, l, kept, seg);
      assert recs - seg == recs0 - (nodes - (live + rest));
    } else {
      assert {} + rest == rest;
    }
  }

  // Freed nodes are gone from the pointers and nothing else changes.
  lemma ForgetAgree<T>(l0: Links<T>, l: Links<T>, kept: set<T>, xs: set<T>)
    requires l.forw.Keys == kept && l.back.Keys == kept && Agree(l0, l, kept)
    ensures Forget(l, xs).forw.Keys == kept - xs && Forget(l, xs).back.Keys == kept - xs
    ensures Agree(l0, Forget(l, xs), kept - xs)
  {
  }

  lemma DetachedAgree<T>(l: Links<T>, l': Links<T>, seg: seq<T>, xs: set<T>)
    requires Detached(l, seg) && Agree(l, l', xs) && Members(seg) <= xs
    ensures Detached(l', seg)
  {
    assert forall k :: 0 <= k < |seg| ==> seg[k] in Members(seg);
  }

  lemma FreeSets<T>(nodes: set<T>, live: set<T>, seg: set<T>, del: set<T>)
    requires seg !! live && seg !! del && seg <= nodes
    ensures live + (seg + del) - seg == live + del
    ensures nodes - (live + (seg + del)) + seg == nodes - (live + del)
  {
  }

  // The first n stored records are those of the first k steps, or, in the middle of a
  // move, those and its lower record.
  ghost predicate Facing<T>(steps: seq<Step<T>>, us: seq<Undo<T>>, n: nat, k: nat, half: bool) {
    && k <= |steps| && n <= |us| && Renderable(steps[..k])
    && if half then n > 0 && Marks(us)[..n - 1] == Rendered(steps[..k]) && Marks(us)[n - 1].kind == MoveKind
       else Marks(us)[..n] == Rendered(steps[..k])
  }

  // Which step the topmost stored record belongs to, and what the records below it face.
  lemma FacingRound<T>(steps: seq<Step<T>>, us: seq<Undo<T>>, n: nat, k: nat, half: bool)
    returns (k': nat, half': bool)
    requires Facing(steps, us, n, k, half) && n > 0
    ensures Facing(steps, us, n - 1, k', half')
    ensures k' == (if half then k else k - 1)
    ensures us[n - 1].kind.UDEL? <==> !half && steps[k - 1].Del?
    ensures us[n - 1].kind.UDEL? ==>
      var seg := steps[k - 1].seg;
      |seg| > 0 && seg[0] == us[n - 1].h && seg[|seg| - 1] == us[n - 1].t
  {
    hide Rendered, Renderable;
    var m := Marks(us)[..n];
    assert m[n - 1] == MarkOf(us[n - 1]);
    if half {
      k', half' := k, false;
    } else {
      TopRecord(steps[..k], m);
      assert steps[..k][..k - 1] == steps[..k - 1] && steps[..k][k - 1] == steps[k - 1];
      assert m[..n - 1] == Marks(us)[..n - 1];
      k', half' := k - 1, steps[k - 1].Mov?;
      if half' {
        assert m[n - 2] == Marks(us)[n - 2] && m[..n - 2] == Marks(us)[..n - 1 - 1];
      }
    }
  }

  /** The loop of clear_undo_stack: what is left allocated are the head and the lines. */
  method FreeRecords<T(==), R>(l0: Links<T>, recs0: map<T, R>, us: seq<Undo<T>>,
                               ghost head: T, ghost nodes: set<T>, ghost c: Config<T>, ghost steps: seq<Step<T>>)
    returns (l: Links<T>, recs: map<T, R>)
    requires Track(head, nodes, c, steps, Marks(us)) && l0 == c.links
    ensures var kept := {head} + Members(c.lines);
      && l.forw.Keys == kept && l.back.Keys == kept && Agree(c.links, l, kept)
      && recs == recs0 - (nodes - kept)
  {
    hide Track, Freeing, Facing, Marks, Forget, Members, Agree;
    l, recs := l0, recs0;
    var n := |us|;
    ghost var k, half := |steps|, false;
    FreeStart(head, nodes, c, steps, us, recs0);
    while n > 0
      invariant 0 <= n <= |us| && 0 <= k <= |steps|
      invariant Freeing(head, nodes, c, steps, recs0, k, l, recs) && Facing(steps, us, n, k, half)
    {
      ghost var k', half' := FacingRound(steps, us, n, k, half);
      if k' < k {
        FreeRound(head, nodes, c, steps, Marks(us), recs0, k, l, recs);
      }
      n := n - 1;
      if us[n].kind == UDEL {
        l, recs := FreeSegment(l, recs, us[n].h, us[n].t, steps[k - 1].seg);
      }
      k, half := k', half';
    }
    FreeDone(head, nodes, c, steps, us, recs0, k, half, l, recs);
  }

  lemma {:induction false} FreeStart<T, R>(head: T, nodes: set<T>, c: Config<T>, steps: seq<Step<T>>,
                                           us: seq<Undo<T>>, recs0: map<T, R>)
    requires Track(head, nodes, c, steps, Marks(us))
    ensures Freeing(head, nodes, c, steps, recs0, |steps|, c.links, recs0)
    ensures Facing(steps, us, |us|, |steps|, false)
  {
    assert steps[..|steps|] == steps && Marks(us)[..|us|] == Marks(us);
    assert recs0 - (nodes - nodes) == recs0;
  }

  lemma FreeDone<T, R>(head: T, nodes: set<T>, c: Config<T>, steps: seq<Step<T>>, us: seq<Undo<T>>,
                       recs0: map<T, R>, k: nat, half: bool, l: Links<T>, recs: map<T, R>)
    requires Freeing(head, nodes, c, steps, recs0, k, l, recs) && Facing(steps, us, 0, k, half)
    ensures var kept := {head} + Members(c.lines);
      && l.forw.Keys == kept && l.back.Keys == kept && Agree(c.links, l, kept)
      && recs == recs0 - (nodes - kept)
  {
    RenderedLength(steps[..k]);
    assert {head} + Members(c.lines) + {} == {head} + Members(c.lines);
  }

  /** After clear_undo_stack nothing but the head and the lines is allocated, and the lines
      are what an undo would give. */
  lemma TrackClear<T>(head: T, nodes: set<T>, c: Config<T>, steps: seq<Step<T>>, marks: seq<Mark<T>>, l: Links<T>)
    requires Track(head, nodes, c, steps, marks)
    requires var kept := {head} + Members(c.lines);
      l.forw.Keys == kept && l.back.Keys == kept && Agree(c.links, l, kept)
    ensures Track(head, {head} + Members(c.lines), Config(l, c.lines), [], [])
    ensures SavedLines(head, Config(l, c.lines), []) == c.lines
  {
    RingAgree(head, c, l);
  }
}
