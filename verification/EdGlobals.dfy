/**
 Whole global commands of the reference editor, and what an undo gives back: what deleting or
 moving every matching line leaves, and where a failing command stops.
 */
module EdGlobals {
  import opened Slices
  import opened EdLinks
  import opened EdText
  import opened EdFlags
  import opened EdSubst
  import opened EdBuffer
  import opened EdReference

  // The lines with the given mark, in order.
  function Picked(page: seq<string>, marks: seq<bool>, want: bool): (r: seq<string>)
    requires |page| == |marks|
  {
    if |page| == 0 then []
    else (if marks[0] == want then [page[0]] else []) + Picked(page[1..], marks[1..], want)
  }

  lemma {:induction false} PickedConcat(a: seq<string>, x: seq<bool>, b: seq<string>, y: seq<bool>, want: bool)
    requires |a| == |x| && |b| == |y|
    ensures Picked(a + b, x + y, want) == Picked(a, x, want) + Picked(b, y, want)
  {
    if |a| == 0 {
      assert a + b == b && x + y == y;
    } else {
      PickedConcat(a[1..], x[1..], b, y, want);
      assert (a + b)[1..] == a[1..] + b && (x + y)[1..] == x[1..] + y;
      Assoc(if x[0] == want then [a[0]] else [], Picked(a[1..], x[1..], want), Picked(b, y, want));
    }
  }

  lemma {:induction false} PickedNone(page: seq<string>, marks: seq<bool>)
    requires |page| == |marks| && forall k :: 0 <= k < |marks| ==> !marks[k]
    ensures Picked(page, marks, true) == [] && Picked(page, marks, false) == page
  {
    if |page| > 0 {
      PickedNone(page[1..], marks[1..]);
    }
  }

  lemma PickedOne(line: string, mark: bool, want: bool)
    ensures Picked([line], [mark], want) == if mark == want then [line] else []
  {
    assert Picked([line][1..], [mark][1..], want) == [];
  }

  // The lines around line k, the first one marked.
  lemma PickedAround(page: seq<string>, marks: seq<bool>, k: nat)
    requires |page| == |marks| && k < |marks| && marks[k] && forall j :: 0 <= j < k ==> !marks[j]
    ensures var p, m := page[..k] + page[k + 1..], marks[..k] + marks[k + 1..];
      Picked(page, marks, false) == Picked(p, m, false) && Picked(page, marks, true) == [page[k]] + Picked(p, m, true)
  {
    var a, b, x, y := page[..k], page[k + 1..], marks[..k], marks[k + 1..];
    assert page == a + ([page[k]] + b) && marks == x + ([marks[k]] + y);
    forall want: bool
      ensures Picked(page, marks, want)
        == Picked(a, x, want) + (Picked([page[k]], [marks[k]], want) + Picked(b, y, want))
      ensures Picked(a + b, x + y, want) == Picked(a, x, want) + Picked(b, y, want)
    {
      PickedConcat(a, x, [page[k]] + b, [marks[k]] + y, want);
      PickedConcat([page[k]], [marks[k]], b, y, want);
      PickedConcat(a, x, b, y, want);
    }
    PickedOne(page[k], true, true);
    PickedOne(page[k], true, false);
    PickedNone(a, x);
    Nothing(Picked(b, y, false));
    Nothing([page[k]] + Picked(b, y, true));
    Nothing(Picked(b, y, true));
  }

  // A list of commands: the j-th one sees the current line and the last line that the ones before
  // left, and one that fails ends the list.
  lemma VisitStep(s: State, plan: Plan, i: nat, j: nat, n: nat)
    requires AllProper(plan) && Flagged(s) && j < n
    ensures var cmd := plan(i, j, s.doc.cur, |s.doc.page|);
      && Proper(cmd)
      && var v := Visit(s, plan, i, j, n);
         if InnerOk(s, cmd) then
           var w := Visit(Inner(s, cmd), plan, i, j + 1, n); v.state == w.state && v.ok == w.ok
         else v.state == Inner(s, cmd) && !v.ok
  {
    PlanAt(plan, i, j, s.doc.cur, |s.doc.page|);
  }

  // A visit of one command that succeeds.
  lemma VisitOne(s: State, plan: Plan, i: nat, cmd: Cmd)
    requires AllProper(plan) && Flagged(s) && plan(i, 0, s.doc.cur, |s.doc.page|) == cmd
    ensures Proper(cmd)
    ensures InnerOk(s, cmd) ==> var v := Visit(s, plan, i, 0, 1); v.ok && v.state == Inner(s, cmd)
  {
    PlanAt(plan, i, 0, s.doc.cur, |s.doc.page|);
    if InnerOk(s, cmd) {
      VisitEnd(Inner(s, cmd), plan, i);
    }
  }

  lemma VisitEnd(s: State, plan: Plan, i: nat)
    requires AllProper(plan) && Flagged(s)
    ensures Visit(s, plan, i, 1, 1) == Outcome(s, true, 0, 0)
  {
  }

  // The visit that deletes the first line marked.
  lemma DeleteVisit(s: State, plan: Plan, i: nat, k: nat)
    requires AllProper(plan) && Flagged(s) && forall n: nat, j: nat, a, b :: plan(n, j, a, b) == Delete(a, a)
    requires k < |s.flags| && s.flags[k] && forall j :: 0 <= j < k ==> !s.flags[j]
    ensures First(s.flags) == k
    ensures var v := Visit(Turn(s), plan, i, 0, 1);
      && v.ok
      && v.state == State(Doc(s.doc.page[..k] + s.doc.page[k + 1..], if k + 1 < |s.doc.page| then k + 1 else k),
                          s.flags[..k] + s.flags[k + 1..], s.saved)
  {
    var t, cmd := Turn(s), Delete(k + 1, k + 1);
    VisitOne(t, plan, i, cmd);
    assert InnerOk(t, cmd);
    hide Visit;
    assert s.flags[k := false][..k] == s.flags[..k] && s.flags[k := false][k + 1..] == s.flags[k + 1..];
    assert s.doc.page[..k] + [] == s.doc.page[..k] && s.flags[..k] + [] == s.flags[..k];
  }

  // Where the last mark is, seen from the end.
  ghost predicate LastMark(marks: seq<bool>, m: nat) {
    m < |marks| && marks[m] && forall j :: m < j < |marks| ==> !marks[j]
  }

  lemma {:induction false} DeleteLoop(s: State, plan: Plan, count: nat -> nat, i: nat)
    requires AllProper(plan) && Flagged(s) && forall n: nat, j: nat, a, b :: plan(n, j, a, b) == Delete(a, a)
    requires forall n :: count(n) == 1
    ensures var r := Loop(s, plan, count, i);
      && r.ok && r.visits == |Picked(s.doc.page, s.flags, true)|
      && r.state.doc.page == Picked(s.doc.page, s.flags, false) && r.state.saved == s.saved
      && (r.visits == 0 ==> r.state.doc.cur == s.doc.cur)
    decreases Count(s.flags)
  {
    hide Visit, Turn, Picked, Count;
    var k := First(s.flags);
    if k == |s.flags| {
      PickedNone(s.doc.page, s.flags);
    } else {
      DeleteVisit(s, plan, i, k);
      PickedAround(s.doc.page, s.flags, k);
      DeleteLoop(Visit(Turn(s), plan, i, 0, 1).state, plan, count, i + 1);
    }
  }

  // The current line after it, when the last mark is at m.
  lemma {:induction false} DeleteCurrent(s: State, plan: Plan, count: nat -> nat, i: nat, m: nat)
    requires AllProper(plan) && Flagged(s) && forall n: nat, j: nat, a, b :: plan(n, j, a, b) == Delete(a, a)
    requires forall n :: count(n) == 1
    requires LastMark(s.flags, m)
    ensures var d := Loop(s, plan, count, i).state.doc;
      d.cur == |d.page| - (|s.flags| - 1 - m) + if m + 1 < |s.flags| then 1 else 0
    decreases Count(s.flags)
  {
    hide Visit, Turn, Picked, Count;
    var k := First(s.flags);
    DeleteVisit(s, plan, i, k);
    var t := Visit(Turn(s), plan, i, 0, 1).state;
    if k < m {
      DeleteCurrent(t, plan, count, i + 1, m - 1);
    } else {
      DeleteLoop(t, plan, count, i + 1);
      PickedNone(t.doc.page, t.flags);
    }
  }

  /** `g/re/d`: exactly the lines of the range that match are gone, and the line after the last
      of them is current, or the last line when there is none. */
  lemma GlobalDelete(s: Session, c: Command, marks: seq<bool>)
    requires c.Global? && 1 <= c.first <= c.second <= |s.doc.page| == |marks|
    requires forall n: nat, j: nat, a, b :: c.plan(n, j, a, b) == Delete(a, a)
    requires forall n :: c.count(n) == 1
    requires forall k :: 0 <= k < |marks| ==> marks[k] == (c.first - 1 <= k < c.second && c.matches(s.doc.page[k]))
    ensures Sound(c)
    ensures var r := NextCommand(s, c);
      && r.doc.page == Picked(s.doc.page, marks, false) && r.saved == [s.doc]
      && (|Picked(s.doc.page, marks, true)| == 0 ==> r.doc.cur == s.doc.cur)
      && forall m: nat :: LastMark(marks, m) ==>
           r.doc.cur == |r.doc.page| - (|marks| - 1 - m) + if m + 1 < |marks| then 1 else 0
  {
    hide Loop;
    var t := Start(s.doc, c.first, c.second, c.matches);
    assert t.flags == marks;
    DeleteLoop(t, c.plan, c.count, 0);
    forall m: nat | LastMark(marks, m)
      ensures var r := NextCommand(s, c).doc;
        r.cur == |r.page| - (|marks| - 1 - m) + if m + 1 < |marks| then 1 else 0
    {
      DeleteCurrent(t, c.plan, c.count, 0, m);
    }
  }

  // Lines in the opposite order.
  function Backward(s: seq<string>): seq<string> {
    if |s| == 0 then [] else Backward(s[1..]) + [s[0]]
  }

  // The visit that moves the first line marked to the front.
  lemma MoveVisit(s: State, plan: Plan, i: nat, k: nat)
    requires AllProper(plan) && Flagged(s) && forall n: nat, j: nat, a, b :: plan(n, j, a, b) == Move(a, a, 0)
    requires k < |s.flags| && s.flags[k] && forall j :: 0 <= j < k ==> !s.flags[j]
    ensures First(s.flags) == k
    ensures var v := Visit(Turn(s), plan, i, 0, 1);
      && v.ok
      && v.state == State(Doc([s.doc.page[k]] + (s.doc.page[..k] + s.doc.page[k + 1..]), 1),
                          [false] + (s.flags[..k] + s.flags[k + 1..]), s.saved)
  {
    var t, cmd := Turn(s), Move(k + 1, k + 1, 0);
    VisitOne(t, plan, i, cmd);
    hide Visit, Shifted, Replaced, Falses;
    var page, flags := s.doc.page, s.flags[k := false];
    StrikeOne(flags, k);
    ToFront(page, k);
    ToFront(flags, k);
    assert flags[..k] == s.flags[..k] && flags[k + 1..] == s.flags[k + 1..];
  }

  lemma StrikeOne(flags: seq<bool>, k: nat)
    requires k < |flags| && !flags[k]
    ensures Replaced(flags, k + 1, k + 1, Falses(1)) == flags
  {
  }

  lemma ToFront<T>(s: seq<T>, k: nat)
    requires k < |s|
    ensures Shifted(s, k + 1, k + 1, 0) == [s[k]] + (s[..k] + s[k + 1..])
  {
  }

  lemma {:induction false} MoveLoop(s: State, plan: Plan, count: nat -> nat, i: nat)
    requires AllProper(plan) && Flagged(s) && forall n: nat, j: nat, a, b :: plan(n, j, a, b) == Move(a, a, 0)
    requires forall n :: count(n) == 1
    ensures var r, moved := Loop(s, plan, count, i), Picked(s.doc.page, s.flags, true);
      && r.ok && r.visits == |moved| && r.state.saved == s.saved
      && r.state.doc.page == Backward(moved) + Picked(s.doc.page, s.flags, false)
      && r.state.doc.cur == if |moved| == 0 then s.doc.cur else 1
    decreases Count(s.flags)
  {
    hide Visit, Turn, Picked, Count;
    var page, flags, k := s.doc.page, s.flags, First(s.flags);
    if k == |flags| {
      PickedNone(page, flags);
    } else {
      MoveVisit(s, plan, i, k);
      var v := Visit(Turn(s), plan, i, 0, 1);
      var p, f := page[..k] + page[k + 1..], flags[..k] + flags[k + 1..];
      PickedAround(page, flags, k);
      PickedConcat([page[k]], [false], p, f, true);
      PickedConcat([page[k]], [false], p, f, false);
      PickedOne(page[k], false, true);
      PickedOne(page[k], false, false);
      Nothing(Picked(p, f, true));
      MoveLoop(v.state, plan, count, i + 1);
      assert ([page[k]] + Picked(p, f, true))[1..] == Picked(p, f, true);
      Assoc(Backward(Picked(p, f, true)), [page[k]], Picked(p, f, false));
    }
  }

  /** `g/re/m0`: the lines of the range that match come first, in the opposite order, and the
      others after them in theirs. */
  lemma GlobalReverse(s: Session, c: Command, marks: seq<bool>)
    requires c.Global? && 1 <= c.first <= c.second <= |s.doc.page| == |marks|
    requires forall n: nat, j: nat, a, b :: c.plan(n, j, a, b) == Move(a, a, 0)
    requires forall n :: c.count(n) == 1
    requires forall k :: 0 <= k < |marks| ==> marks[k] == (c.first - 1 <= k < c.second && c.matches(s.doc.page[k]))
    ensures Sound(c)
    ensures var r, moved := NextCommand(s, c), Picked(s.doc.page, marks, true);
      && r.doc.page == Backward(moved) + Picked(s.doc.page, marks, false) && r.saved == [s.doc]
      && r.doc.cur == if |moved| == 0 then s.doc.cur else 1
  {
    hide Loop;
    var t := Start(s.doc, c.first, c.second, c.matches);
    assert t.flags == marks;
    MoveLoop(t, c.plan, c.count, 0);
  }

  /** The first command of a global command is the one for the first matching line, which is
      current; when its range is empty, it stops there and nothing has changed but that. */
  lemma GlobalStops(s: Session, c: Command, k: nat)
    requires c.Global? && Sound(c) && 1 <= c.first <= c.second <= |s.doc.page|
    requires c.first - 1 <= k < c.second && c.matches(s.doc.page[k])
    requires forall j :: c.first - 1 <= j < k ==> !c.matches(s.doc.page[j])
    requires c.count(0) > 0
    requires var cmd := c.plan(0, 0, k + 1, |s.doc.page|); cmd.Delete? && cmd.first > cmd.second
    ensures NextCommand(s, c) == Session(Doc(s.doc.page, k + 1), [s.doc])
  {
    var t := Start(s.doc, c.first, c.second, c.matches);
    FirstAt(t.flags, k);
  }

  lemma {:induction false} FirstAt(flags: seq<bool>, k: nat)
    requires k < |flags| && flags[k] && forall j :: 0 <= j < k ==> !flags[j]
    ensures First(flags) == k
  {
  }

  // What may be typed: any global command of commands that may, and any file of proper lines.
  lemma TypedCommand(c: Command)
    ensures c.Single? ==> (Sound(c) <==> Proper(c.cmd))
    ensures c.Global? ==> (Sound(c) <==> forall i: nat, j: nat, a, b :: Proper(c.plan(i, j, a, b)))
    ensures c.Load? ==>
      (Sound(c) <==> forall k :: 0 <= k < |c.texts| ==> '\n' !in c.texts[k] && |c.texts[k]| < 2147483647)
  {
  }

  /** A global command whose range is not one does nothing. */
  lemma GlobalRefused(s: Session, c: Command)
    requires c.Global? && Sound(c) && !(1 <= c.first <= c.second <= |s.doc.page|)
    ensures NextCommand(s, c) == s
  {
  }

  /** An undo exchanges the text and the current line with those before the last command that
      edits; setting the current line and a command with bad addresses are not ones. */
  lemma UndoLaw(s: Session, cmd: Cmd)
    requires Proper(cmd) && !cmd.Undo?
    ensures var t := Next(s, cmd);
      && (!Allowed(cmd, |s.doc.page|) ==> t == s)
      && (Allowed(cmd, |s.doc.page|) && cmd.Goto? ==> t == Session(Doc(s.doc.page, cmd.addr), s.saved))
      && (Allowed(cmd, |s.doc.page|) && !cmd.Goto? ==>
            && t.doc == Perform(cmd, s.doc)
            && Next(t, Cmd.Undo) == Session(s.doc, [t.doc]) && Next(Next(t, Cmd.Undo), Cmd.Undo) == t)
    ensures |s.saved| != 1 ==> Next(s, Cmd.Undo) == s
  {
    var t := Next(s, cmd);
    assert cmd.Goto? && Allowed(cmd, |s.doc.page|) ==> t.doc == Doc(s.doc.page, cmd.addr);
    hide Perform;
    if Allowed(cmd, |s.doc.page|) && !cmd.Goto? {
      assert t.saved == [s.doc];
      var u := Next(t, Cmd.Undo);
      assert u == Session(s.doc, [t.doc]);
      assert Next(u, Cmd.Undo) == Session(t.doc, [s.doc]) == t;
    }
  }
}
