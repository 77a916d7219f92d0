/**
 The invariant that ties the undo stack to the buffer over a whole editing session, and
 what each editing operation does to it.
 */
module EdTrack {
  import opened Slices
  import opened EdLinks
  import opened EdUndo

  /** From the present buffer the stack can be undone; every allocated node is the head, a
      line, or in exactly the segment of a deletion record; the stored records are those
      of the stack. */
  ghost predicate Track<T>(head: T, nodes: set<T>, c: Config<T>, steps: seq<Step<T>>, marks: seq<Mark<T>>) {
    && Ring(head, c)
    && c.links.forw.Keys == nodes
    && Path(head, steps, c)
    && Born(steps)
    && nodes == {head} + Members(c.lines) + DelNodes(steps)
    && Renderable(steps)
    && marks == Rendered(steps)
  }

  // The lines that undoing the whole stack gives.
  ghost function SavedLines<T>(head: T, c: Config<T>, steps: seq<Step<T>>): seq<T> {
    if Ring(head, c) && Path(head, steps, c) then End(head, steps, c).lines else []
  }

  lemma TrackRing<T>(head: T, nodes: set<T>, c: Config<T>, steps: seq<Step<T>>, marks: seq<Mark<T>>)
    requires Track(head, nodes, c, steps, marks)
    ensures Ring(head, c) && head in nodes && Members(c.lines) <= nodes
    ensures c.links.forw.Keys == nodes && c.links.back.Keys == nodes
  {
  }

  lemma TrackEmpty<T>(head: T)
    ensures var c := Config(Links(map[head := head], map[head := head]), []);
      Track(head, {head}, c, [], []) && SavedLines(head, c, []) == []
  {
    var c := Config(Links(map[head := head], map[head := head]), []);
    assert Around(head, []) == [head, head];
    assert Ring(head, c);
  }

  /** Deleting or moving lines with the record of the inverse step pushed. */
  lemma TrackStep<T>(head: T, nodes: set<T>, c: Config<T>, steps: seq<Step<T>>, marks: seq<Mark<T>>, e: Step<T>)
    requires Track(head, nodes, c, steps, marks) && Ready(head, c, e) && !e.Del?
    ensures Track(head, nodes, Apply(head, c, e), steps + [Flip(e)], marks + Render(Flip(e)))
    ensures SavedLines(head, Apply(head, c, e), steps + [Flip(e)]) == SavedLines(head, c, steps)
  {
    hide Path, End, Born, Rendered, Render, Ring, DelNodes, Members, With, Without, Around, StepLinks, StepLines;
    PushStep(head, steps, c, e);
    EditBooks(head, steps, c, e);
    StepDomain(head, c, e);
  }

  /** delete_lines at the level of values. */
  lemma TrackDelete<T>(head: T, nodes: set<T>, c: Config<T>, steps: seq<Step<T>>, marks: seq<Mark<T>>, i: nat, n: nat)
    returns (c': Config<T>, steps': seq<Step<T>>)
    requires Track(head, nodes, c, steps, marks) && 0 < n && i + n <= |c.lines|
    ensures c' == Config(Reque(c.links, At(head, c.lines, i), At(head, c.lines, i + n + 1)), Without(c.lines, i, n))
    ensures Track(head, nodes, c', steps', marks + [Mark(DeleteKind, c.lines[i], c.lines[i + n - 1])])
    ensures SavedLines(head, c', steps') == SavedLines(head, c, steps)
    ensures Members(c'.lines) == Members(c.lines) - Members(Slice(c.lines, i, n))
  {
    hide Track, SavedLines, Ring, Ready, Members;
    var e := Add(i, c.lines[i..i + n]);
    TrackRing(head, nodes, c, steps, marks);
    UnlinkAt(head, c, i, n);
    StepMembers(head, c, e);
    TrackStep(head, nodes, c, steps, marks, e);
    c', steps' := Apply(head, c, e), steps + [Flip(e)];
  }

  /** move_lines at the level of values: lines i..i+n go to after address k. */
  lemma TrackMove<T>(head: T, nodes: set<T>, c: Config<T>, steps: seq<Step<T>>, marks: seq<Mark<T>>,
                     i: nat, n: nat, k: nat)
    returns (c': Config<T>, steps': seq<Step<T>>)
    requires Track(head, nodes, c, steps, marks) && 0 < n && i + n <= |c.lines|
    requires k <= |c.lines| && (k < i || i + n < k)
    ensures var b1, a1 := At(head, c.lines, k), At(head, c.lines, k + 1);
      var b2, a2 := At(head, c.lines, i), At(head, c.lines, i + n + 1);
      && b2 in c.links.forw && a2 in c.links.back
      && c' == Config(MoveSegment(c.links, b1, a1, b2, a2),
                      With(Without(c.lines, i, n), if k < i then k else k - n, Slice(c.lines, i, n)))
      && Track(head, nodes, c', steps', marks + [Mark(MoveKind, b2, a2), Mark(MoveKind, b1, a1)])
    ensures SavedLines(head, c', steps') == SavedLines(head, c, steps)
    ensures Members(c'.lines) == Members(c.lines)
  {
    hide Track, SavedLines, Ring, Ready, Members;
    TrackRing(head, nodes, c, steps, marks);
    MoveAt(head, c, i, n, k);
    var e := Mov(i, c.lines[i..i + n], if k < i then k else k - n, At(head, c.lines, k), At(head, c.lines, k + 1),
                 At(head, c.lines, i), At(head, c.lines, i + n + 1));
    StepMembers(head, c, e);
    TrackStep(head, nodes, c, steps, marks, e);
    c', steps' := Apply(head, c, e), steps + [Flip(e)];
  }

  // Node x allocated: its pointers are nobody's concern yet.
  function Fresh<T>(l: Links<T>, x: T): Links<T> {
    Links(l.forw[x := x], l.back[x := x])
  }

  // The topmost record is an insertion that ends at address i.
  ghost predicate Open<T>(steps: seq<Step<T>>, i: int) {
    |steps| > 0 && var e := steps[|steps| - 1]; e.Add? && e.i + |e.seg| == i
  }

  lemma FreshAllocated<T>(head: T, nodes: set<T>, c: Config<T>, steps: seq<Step<T>>, marks: seq<Mark<T>>, i: nat, x: T)
    requires Track(head, nodes, c, steps, marks) && i <= |c.lines| && x !in nodes
    ensures Ring(head, c) && Allocated(c.links, Fresh(c.links, x), x) && DelNodes(steps) <= c.links.forw.Keys
    ensures At(head, c.lines, i) in Fresh(c.links, x).forw
    ensures Inserted(head, c, Fresh(c.links, x), i, x)
         == Config(Insque(Fresh(c.links, x), x, At(head, c.lines, i)), With(c.lines, i, [x]))
    ensures Inserted(head, c, Fresh(c.links, x), i, x).links.forw.Keys == nodes + {x}
  {
    RingAt(head, c, i);
    assert Around(head, c.lines)[i] == At(head, c.lines, i);
  }

  /** add_line_node followed by a new insertion record. */
  lemma TrackInsert<T>(head: T, nodes: set<T>, c: Config<T>, steps: seq<Step<T>>, marks: seq<Mark<T>>, i: nat, x: T)
    returns (c': Config<T>, steps': seq<Step<T>>)
    requires Track(head, nodes, c, steps, marks) && i <= |c.lines| && x !in nodes
    ensures At(head, c.lines, i) in Fresh(c.links, x).forw
    ensures c' == Config(Insque(Fresh(c.links, x), x, At(head, c.lines, i)), With(c.lines, i, [x]))
    ensures Track(head, nodes + {x}, c', steps', marks + [Mark(InsertKind, x, x)])
    ensures SavedLines(head, c', steps') == SavedLines(head, c, steps)
    ensures Members(c'.lines) == Members(c.lines) + {x} && Open(steps', i + 1)
    ensures c'.links.forw.Keys == nodes + {x}
  {
    hide Ring, Path, End, Born, Renderable, Rendered, DelNodes, Members, Allocated, Inserted;
    var l0 := Fresh(c.links, x);
    FreshAllocated(head, nodes, c, steps, marks, i, x);
    InsertLine(head, steps, c, l0, i, x);
    InsertBooks(steps, c.lines, i, x);
    AddedMembers(c.lines, i, x);
    c', steps' := Inserted(head, c, l0, i, x), steps + [Add(i, [x])];
  }

  lemma OpenTop<T>(steps: seq<Step<T>>)
    requires Renderable(steps) && |steps| > 0
    ensures var rest, e := steps[..|steps| - 1], steps[|steps| - 1];
      steps == rest + [e] && |e.seg| > 0 && Renderable(rest)
  {
  }

  /** add_line_node followed by lengthening the topmost insertion record. */
  lemma TrackExtend<T>(head: T, nodes: set<T>, c: Config<T>, steps: seq<Step<T>>, marks: seq<Mark<T>>, i: nat, x: T)
    returns (c': Config<T>, steps': seq<Step<T>>)
    requires Track(head, nodes, c, steps, marks) && i <= |c.lines| && x !in nodes && Open(steps, i)
    ensures At(head, c.lines, i) in Fresh(c.links, x).forw
    ensures c' == Config(Insque(Fresh(c.links, x), x, At(head, c.lines, i)), With(c.lines, i, [x]))
    ensures |marks| > 0 && marks[|marks| - 1].kind == InsertKind
    ensures Track(head, nodes + {x}, c', steps', marks[|marks| - 1 := marks[|marks| - 1].(t := x)])
    ensures SavedLines(head, c', steps') == SavedLines(head, c, steps)
    ensures Members(c'.lines) == Members(c.lines) + {x} && Open(steps', i + 1)
    ensures c'.links.forw.Keys == nodes + {x}
  {
    hide Ring, Path, End, Born, Renderable, Rendered, DelNodes, Members, Allocated, Inserted;
    var l0, rest, e := Fresh(c.links, x), steps[..|steps| - 1], steps[|steps| - 1];
    OpenTop(steps);
    FreshAllocated(head, nodes, c, steps, marks, i, x);
    DelNodesPush(rest, e);
    ExtendLine(head, rest, e, c, l0, x);
    ExtendBooks(rest, e, c.lines, i, x);
    AddedMembers(c.lines, i, x);
    c', steps' := Inserted(head, c, l0, i, x), rest + [Add(e.i, e.seg + [x])];
  }

  lemma InsertRing<T>(head: T, c: Config<T>, i: nat, x: T)
    requires Ring(head, c) && i <= |c.lines| && x !in c.links.forw
    ensures At(head, c.lines, i) in Fresh(c.links, x).forw
    ensures Ring(head, Config(Insque(Fresh(c.links, x), x, At(head, c.lines, i)), With(c.lines, i, [x])))
  {
    RingAt(head, c, i);
    assert Around(head, c.lines)[i] == At(head, c.lines, i);
    ExtendRing(head, c, Fresh(c.links, x), i, x);
  }

  /** pop_undo_stack at the level of values: the saved lines come back, the present ones
      are saved, and the flipped and reversed records lead back to them. */
  lemma TrackUndo<T>(head: T, nodes: set<T>, c: Config<T>, steps: seq<Step<T>>, marks: seq<Mark<T>>)
    requires Track(head, nodes, c, steps, marks)
    ensures Ring(head, c) && Path(head, steps, c)
    ensures var c0 := End(head, steps, c);
      && Track(head, nodes, c0, Redo(steps), Backwards(marks))
      && c0.lines == SavedLines(head, c, steps)
      && SavedLines(head, c0, Redo(steps)) == c.lines
  {
    hide Ring, Born, Renderable, Rendered, DelNodes, AddNodes, Members;
    var c0 := End(head, steps, c);
    UndoTwice(head, steps, c);
    EndDomain(head, steps, c);
    BornRedo(steps);
    PathNodes(head, steps, c);
    DelNodesRedo(steps);
    RenderedRedo(steps);
  }

  lemma {:induction false} EndDomain<T>(head: T, steps: seq<Step<T>>, c: Config<T>)
    requires Ring(head, c) && Path(head, steps, c)
    ensures End(head, steps, c).links.forw.Keys == c.links.forw.Keys
    decreases |steps|
  {
    if |steps| > 0 {
      var e := steps[|steps| - 1];
      StepInverse(head, c, e);
      StepDomain(head, c, e);
      EndDomain(head, steps[..|steps| - 1], Apply(head, c, e));
    }
  }

  // The saved lines are allocated, and the head is not one of them.
  lemma SavedNodes<T>(head: T, nodes: set<T>, c: Config<T>, steps: seq<Step<T>>, marks: seq<Mark<T>>)
    requires Track(head, nodes, c, steps, marks)
    ensures Members(SavedLines(head, c, steps)) <= nodes - {head}
  {
    EndDomain(head, steps, c);
    RingDomain(head, End(head, steps, c));
  }

  // The stored records on top of the stack say which step comes next.
  lemma TopRecord<T>(steps: seq<Step<T>>, marks: seq<Mark<T>>)
    requires Renderable(steps) && marks == Rendered(steps) && |marks| > 0
    ensures |steps| > 0
    ensures var e, rest, n := steps[|steps| - 1], steps[..|steps| - 1], |marks|;
      && |e.seg| > 0 && Renderable(rest)
      && (marks[n - 1].kind == InsertKind ==>
            && e.Add? && e.seg[0] == marks[n - 1].h && e.seg[|e.seg| - 1] == marks[n - 1].t
            && Rendered(rest) == marks[..n - 1])
      && (marks[n - 1].kind == DeleteKind ==>
            && e.Del? && e.seg[0] == marks[n - 1].h && e.seg[|e.seg| - 1] == marks[n - 1].t
            && Rendered(rest) == marks[..n - 1])
      && (marks[n - 1].kind == MoveKind ==>
            && e.Mov? && n >= 2
            && marks[n - 2] == Mark(MoveKind, e.b1, e.a1) && marks[n - 1] == Mark(MoveKind, e.b2, e.a2)
            && Rendered(rest) == marks[..n - 2])
  {
    var e, rest := steps[|steps| - 1], steps[..|steps| - 1];
    var a, b := Rendered(rest), Render(e);
    assert marks == a + b;
    assert marks[..|a|] == a;
  }

  // The pointers a step reads are those of allocated nodes.
  lemma StepReads<T>(head: T, c: Config<T>, e: Step<T>)
    requires Ring(head, c) && Ready(head, c, e)
    ensures !e.Mov? ==> e.seg[0] in c.links.back && e.seg[|e.seg| - 1] in c.links.forw
    ensures e.Mov? ==> e.b2 in c.links.forw && e.a2 in c.links.back
    ensures Apply(head, c, e).links == StepLinks(c.links, e)
  {
    if e.Add? {
      SegmentEnds(head, c, e);
    } else if e.Mov? {
      MovePlaces(head, c, e);
    }
  }

  lemma TrackPath<T>(head: T, nodes: set<T>, c: Config<T>, steps: seq<Step<T>>, marks: seq<Mark<T>>)
    requires Track(head, nodes, c, steps, marks)
    ensures Ring(head, c) && Path(head, steps, c)
  {
  }
}
