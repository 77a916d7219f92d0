/**
 Editing sessions: single commands, whole runs of commands with undo, and global commands.
 */
module EdSession {
  import opened Slices
  import opened EdLinks
  import opened EdUndo
  import opened EdActive
  import opened EdText
  import opened EdFlags
  import opened EdStack
  import opened EdSubst
  import opened EdBuffer
  import opened EdReference

  // What a command shows: the texts of the lines and the current line.
  ghost function View(ed: Editor): Doc
    reads ed
  {
    Doc(ed.Page(), ed.currentAddr)
  }

  // What an editing command must leave alone or may only extend.
  datatype Rest = Rest(saved: seq<Node>, text: map<Node, string>, uCurrentAddr: int, uAddrLast: int,
                       isGlobal: bool, lost: set<Node>, list: seq<Slot<Node>>, ptr: nat)

  ghost function RestOf(ed: Editor): Rest
    reads ed, ed.active
  {
    Rest(ed.Saved(), ed.text, ed.uCurrentAddr, ed.uAddrLast, ed.isGlobal, ed.lost, ed.active.list, ed.active.ptr)
  }

  // What was saved stays saved, texts stay, no node is lost, the list of a global command only
  // loses entries.
  ghost predicate Keeps(a: Rest, b: Rest) {
    && b.saved == a.saved && b.uCurrentAddr == a.uCurrentAddr && b.uAddrLast == a.uAddrLast
    && b.isGlobal == a.isGlobal && b.ptr == a.ptr && b.lost == a.lost
    && Extends(a.text, b.text) && Shrunk(a.list, b.list)
  }

  lemma KeepsSelf(a: Rest)
    ensures Keeps(a, a)
  {
  }

  lemma KeepsTrans(a: Rest, b: Rest, c: Rest)
    requires Keeps(a, b) && Keeps(b, c)
    ensures Keeps(a, c)
  {
    ShrunkTrans(a.list, b.list, c.list);
  }

  method EditAppend(ed: Editor, cmd: Cmd) returns (ok: bool)
    requires ed.Valid() && Proper(cmd) && cmd.Append? && Allowed(cmd, ed.addrLast)
    modifies ed, ed.scratch, ed.active
    ensures ed.Valid() && Keeps(old(RestOf(ed)), RestOf(ed))
    ensures |old(ed.Page())| == |old(ed.Flags())| == old(ed.addrLast) && View(ed) == Perform(cmd, old(View(ed)))
    ensures ed.Flags() == FlagsAfter(cmd, old(ed.Page()), old(ed.Flags()))
    ensures ok <==> Succeeds(cmd, old(ed.Page()), ed.isGlobal)
  {
    hide ed.Valid, ed.Saved, ed.Flags, TextsAt, Extends, With, Shrunk;
    ed.Bounds();
    ShrunkSelf(ed.active.list);
    WithAsSeq(ed.Page(), cmd.at, BeforeDot(cmd.input));
    WithAsSeq(ed.Flags(), cmd.at, Falses(|BeforeDot(cmd.input)|));
    ok := ed.AppendLines(cmd.at, cmd.input);
  }

  // delete_lines as seen from outside.
  method CutLines(ed: Editor, first: int, second: int)
    requires ed.Valid() && InRange(first, second, ed.addrLast)
    modifies ed, ed.scratch, ed.active
    ensures ed.Valid() && Keeps(old(RestOf(ed)), RestOf(ed))
    ensures |old(ed.Page())| == |old(ed.Flags())| == old(ed.addrLast)
    ensures ed.Page() == Replaced(old(ed.Page()), first, second, [])
    ensures ed.Flags() == Replaced(old(ed.Flags()), first, second, []) && |ed.Flags()| == |ed.Page()|
    ensures ed.addrLast == |ed.Page()| && ed.currentAddr == first - 1
  {
    hide ed.Valid, ed.Saved, ed.Flags, TextsAt, Extends, Without, Shrunk, Members, Slice, Replaced;
    ed.Bounds();
    ExtendsSelf(ed.text);
    TextsWithout(ed.text, ed.lines, first - 1, second - first + 1);
    ReplacedWith(ed.Page(), first, second, []);
    ReplacedWith(ed.Flags(), first, second, []);
    ed.DeleteLines(first, second);
    ed.Bounds();
  }

  method EditChange(ed: Editor, cmd: Cmd) returns (ok: bool)
    requires ed.Valid() && Proper(cmd) && cmd.Change? && Allowed(cmd, ed.addrLast)
    modifies ed, ed.scratch, ed.active
    ensures ed.Valid() && Keeps(old(RestOf(ed)), RestOf(ed))
    ensures |old(ed.Page())| == |old(ed.Flags())| == old(ed.addrLast) && View(ed) == Perform(cmd, old(View(ed)))
    ensures ed.Flags() == FlagsAfter(cmd, old(ed.Page()), old(ed.Flags()))
    ensures ok <==> Succeeds(cmd, old(ed.Page()), ed.isGlobal)
  {
    hide ed.Valid, ed.Saved, ed.Flags, TextsAt, Extends, Shrunk, Keeps, Replaced, Falses;
    ghost var page, flags := ed.Page(), ed.Flags();
    ed.Bounds();
    Filled(page, cmd.first, cmd.second, BeforeDot(cmd.input));
    Filled(flags, cmd.first, cmd.second, Falses(|BeforeDot(cmd.input)|));
    CutLines(ed, cmd.first, cmd.second);
    ghost var mid := RestOf(ed);
    ok := EditAppend(ed, Append(ed.currentAddr, cmd.input));
    KeepsTrans(old(RestOf(ed)), mid, RestOf(ed));
  }

  method EditDelete(ed: Editor, cmd: Cmd)
    requires ed.Valid() && Proper(cmd) && cmd.Delete? && Allowed(cmd, ed.addrLast)
    modifies ed, ed.scratch, ed.active
    ensures ed.Valid() && Keeps(old(RestOf(ed)), RestOf(ed))
    ensures |old(ed.Page())| == |old(ed.Flags())| == old(ed.addrLast) && View(ed) == Perform(cmd, old(View(ed)))
    ensures ed.Flags() == FlagsAfter(cmd, old(ed.Page()), old(ed.Flags()))
  {
    hide ed.Valid, ed.Saved, ed.Flags, TextsAt, Keeps;
    CutLines(ed, cmd.first, cmd.second);
    var addr := IncMod(ed.currentAddr, ed.addrLast);
    if addr != 0 {
      ed.SetCurrent(addr);
    }
  }

  method EditJoin(ed: Editor, cmd: Cmd) returns (ok: bool)
    requires ed.Valid() && Proper(cmd) && cmd.Join? && Allowed(cmd, ed.addrLast)
    modifies ed, ed.scratch, ed.active
    ensures ed.Valid() && Keeps(old(RestOf(ed)), RestOf(ed))
    ensures |old(ed.Page())| == |old(ed.Flags())| == old(ed.addrLast) && View(ed) == Perform(cmd, old(View(ed)))
    ensures ed.Flags() == FlagsAfter(cmd, old(ed.Page()), old(ed.Flags()))
    ensures ok <==> Succeeds(cmd, old(ed.Page()), ed.isGlobal)
  {
    hide ed.Valid, ed.Saved, ed.Flags, TextsAt, Extends, With, Without, Shrunk, Slice, Replaced, Concat;
    ed.Bounds();
    ExtendsSelf(ed.text);
    ShrunkSelf(ed.active.list);
    ok := true;
    if cmd.first != cmd.second {
      ReplacedWith(ed.Page(), cmd.first, cmd.second, [Joined(ed.Page(), cmd.first, cmd.second)]);
      ReplacedWith(ed.Flags(), cmd.first, cmd.second, [false]);
      ok := ed.JoinLines(cmd.first, cmd.second);
    }
  }

  method EditMove(ed: Editor, cmd: Cmd)
    requires ed.Valid() && Proper(cmd) && cmd.Move? && Allowed(cmd, ed.addrLast)
    modifies ed, ed.scratch, ed.active
    ensures ed.Valid() && Keeps(old(RestOf(ed)), RestOf(ed))
    ensures |old(ed.Page())| == |old(ed.Flags())| == old(ed.addrLast) && View(ed) == Perform(cmd, old(View(ed)))
    ensures ed.Flags() == FlagsAfter(cmd, old(ed.Page()), old(ed.Flags()))
  {
    hide ed.Valid, ed.Saved, ed.Flags, TextsAt, Extends, Shrunk, Slice, Moved, Members, Shifted, Falses;
    ed.Bounds();
    ExtendsSelf(ed.text);
    MovedTexts(ed.text, ed.lines, cmd.first, cmd.second, cmd.addr);
    ShiftedMoved(ed.Page(), cmd.first, cmd.second, cmd.addr);
    ShiftedMoved(Struck(ed.Flags(), cmd.first - 1, cmd.second - cmd.first + 1), cmd.first, cmd.second, cmd.addr);
    ed.MoveLines(cmd.first, cmd.second, cmd.addr);
  }

  lemma MovedTexts<T>(text: map<T, string>, s: seq<T>, first: int, second: int, addr: int)
    requires InRange(first, second, |s|) && 0 <= addr <= |s| && !(first <= addr < second)
    ensures TextsAt(text, Moved(s, first, second, addr)) == Moved(TextsAt(text, s), first, second, addr)
  {
    hide TextsAt, With, Without, Slice;
    var n := second - first + 1;
    if addr != first - 1 && addr != second {
      TextsMove(text, s, first - 1, n, if addr < first then addr else addr - n);
    }
  }

  method EditCopy(ed: Editor, cmd: Cmd)
    requires ed.Valid() && Proper(cmd) && cmd.Copy? && Allowed(cmd, ed.addrLast)
    modifies ed, ed.scratch, ed.active
    ensures ed.Valid() && Keeps(old(RestOf(ed)), RestOf(ed))
    ensures |old(ed.Page())| == |old(ed.Flags())| == old(ed.addrLast) && View(ed) == Perform(cmd, old(View(ed)))
    ensures ed.Flags() == FlagsAfter(cmd, old(ed.Page()), old(ed.Flags()))
  {
    hide ed.Valid, ed.Saved, ed.Flags, TextsAt, Extends, Shrunk, Slice, With;
    ed.Bounds();
    ShrunkSelf(ed.active.list);
    ReplacedWith(ed.Page(), cmd.first, cmd.second, []);
    WithAsSeq(ed.Page(), cmd.addr, ed.Page()[cmd.first - 1..cmd.second]);
    WithAsSeq(ed.Flags(), cmd.addr, Falses(cmd.second - cmd.first + 1));
    ed.CopyLines(cmd.first, cmd.second, cmd.addr);
  }

  method EditSubstitute(ed: Editor, cmd: Cmd) returns (ok: bool)
    requires ed.Valid() && Proper(cmd) && cmd.Substitute? && Allowed(cmd, ed.addrLast)
    modifies ed, ed.scratch, ed.active
    ensures ed.Valid() && Keeps(old(RestOf(ed)), RestOf(ed))
    ensures |old(ed.Page())| == |old(ed.Flags())| == old(ed.addrLast) && View(ed) == Perform(cmd, old(View(ed)))
    ensures ed.Flags() == FlagsAfter(cmd, old(ed.Page()), old(ed.Flags()))
    ensures ok <==> Succeeds(cmd, old(ed.Page()), ed.isGlobal)
  {
    hide ed.Valid, ed.Saved, ed.Flags, ed.Page, TextsAt, Extends, Shrunk, Substituted, LastSubstituted, HasMatch,
         SubstitutedFlags, Reach, Expanded, With, Without, Falses, Replaced, Shifted, Joined, Joinable, BeforeDot,
         Dangling, Matches, Expand;
    ed.Bounds();
    ok := ed.SearchAndReplace(cmd.first, cmd.second, cmd.sub, cmd.fails, ed.isGlobal);
  }

  method EditGoto(ed: Editor, cmd: Cmd)
    requires ed.Valid() && Proper(cmd) && cmd.Goto? && Allowed(cmd, ed.addrLast)
    modifies ed`currentAddr
    ensures ed.Valid() && Keeps(old(RestOf(ed)), RestOf(ed))
    ensures |old(ed.Page())| == |old(ed.Flags())| == old(ed.addrLast) && View(ed) == Perform(cmd, old(View(ed)))
    ensures ed.Flags() == FlagsAfter(cmd, old(ed.Page()), old(ed.Flags()))
  {
    hide ed.Valid, ed.Saved, ed.Flags, TextsAt, Keeps;
    ed.Bounds();
    KeepsSelf(RestOf(ed));
    ed.SetCurrent(cmd.addr);
  }

  /** One editing command, its record pushed onto the undo stack: the text and the lines a
      global command is still to visit become what the reference editor makes of them, and
      what was saved stays saved. */
  method Edit(ed: Editor, cmd: Cmd) returns (ok: bool)
    requires ed.Valid() && Proper(cmd) && !cmd.Undo?
    modifies ed, ed.scratch, ed.active
    ensures ed.Valid() && Keeps(old(RestOf(ed)), RestOf(ed)) && ed.lost == old(ed.lost)
    ensures |old(ed.Page())| == |old(ed.Flags())| == old(ed.addrLast)
    ensures Allowed(cmd, old(ed.addrLast)) ==>
      View(ed) == Perform(cmd, old(View(ed))) && ed.Flags() == FlagsAfter(cmd, old(ed.Page()), old(ed.Flags()))
    ensures !Allowed(cmd, old(ed.addrLast)) ==> View(ed) == old(View(ed)) && ed.Flags() == old(ed.Flags())
    ensures ok <==> Allowed(cmd, old(ed.addrLast)) && Succeeds(cmd, old(ed.Page()), old(ed.isGlobal))
  {
    hide ed.Valid, ed.Saved, ed.Flags, TextsAt, Perform, Proper, FlagsAfter, Keeps;
    ed.Bounds();
    if !Allowed(cmd, ed.addrLast) {
      KeepsSelf(RestOf(ed));
      return false;
    }
    KeptGlobal();
    ok := true;
    match cmd
    case Append(_, _) => ok := EditAppend(ed, cmd);
    case Change(_, _, _) => ok := EditChange(ed, cmd);
    case Delete(_, _) => EditDelete(ed, cmd);
    case Join(_, _) => ok := EditJoin(ed, cmd);
    case Move(_, _, _) => EditMove(ed, cmd);
    case Copy(_, _, _) => EditCopy(ed, cmd);
    case Substitute(_, _, _, _) => ok := EditSubstitute(ed, cmd);
    case Goto(_) => EditGoto(ed, cmd);
  }

  lemma KeptGlobal()
    ensures forall a, b :: Keeps(a, b) ==> b.isGlobal == a.isGlobal && b.saved == a.saved && Extends(a.text, b.text)
    ensures forall a, b :: Keeps(a, b) ==> b.uCurrentAddr == a.uCurrentAddr && b.uAddrLast == a.uAddrLast
    ensures forall a, b :: Keeps(a, b) ==> b.ptr == a.ptr && Shrunk(a.list, b.list) && b.lost == a.lost
  {
  }

  /** Any number of editing commands in a row. */
  method EditAll(ed: Editor, cmds: seq<Cmd>)
    requires ed.Valid()
    requires forall k :: 0 <= k < |cmds| ==> Proper(cmds[k]) && !cmds[k].Undo?
    modifies ed, ed.scratch, ed.active
    ensures ed.Valid() && Keeps(old(RestOf(ed)), RestOf(ed))
  {
    hide ed.Valid, ed.Saved, ed.Flags, Keeps, Allowed, Perform, Succeeds, TextsAt, FlagsAfter;
    KeepsSelf(RestOf(ed));
    for k := 0 to |cmds|
      invariant ed.Valid() && Keeps(old(RestOf(ed)), RestOf(ed))
    {
      ghost var mid := RestOf(ed);
      var ok := Edit(ed, cmds[k]);
      KeepsTrans(old(RestOf(ed)), mid, RestOf(ed));
    }
  }

  /** Whatever commands are run after the undo stack was cleared, one undo gives back the
      same lines with the same texts, their number and the current line. */
  method EditAndUndo(ed: Editor, cmds: seq<Cmd>)
    requires ed.Valid()
    requires forall k :: 0 <= k < |cmds| ==> Proper(cmds[k]) && !cmds[k].Undo?
    modifies ed, ed.scratch, ed.active
    ensures ed.Valid()
    ensures ed.lines == old(ed.lines) && ed.Page() == old(ed.Page())
    ensures ed.addrLast == old(ed.addrLast) && ed.currentAddr == old(ed.currentAddr)
  {
    hide ed.Valid, ed.Saved, TextsAt, Extends, Ring, Path, End, Redo;
    ed.Bounds();
    ed.ClearUndoStack();
    ed.Bounds();
    ghost var text := ed.text;
    EditAll(ed, cmds);
    var ok := ed.PopUndoStack();
    ed.Bounds();
    SamePage(ed, text, ed.lines);
  }

  // The texts of lines whose nodes existed before are what they were.
  lemma SamePage(ed: Editor, text: map<Node, string>, s: seq<Node>)
    requires ed.lines == s && Extends(text, ed.text) && Members(s) <= text.Keys
    ensures ed.Page() == TextsAt(text, s)
  {
    TextsKept(text, ed.text, s);
  }

  lemma {:induction false} RedoTwice<T>(steps: seq<Step<T>>)
    ensures Redo(Redo(steps)) == steps
  {
    forall k | 0 <= k < |steps|
      ensures Redo(Redo(steps))[k] == steps[k]
    {
      RedoAt(Redo(steps), k);
      RedoAt(steps, |steps| - 1 - k);
    }
  }

  /** Undo twice gives back every pointer of every node, the lines, the current line and the
      undo records but for the two names of a move, from every state in which there is
      something to undo. */
  method UndoTwiceSame(ed: Editor)
    requires ed.Valid() && ed.uAddrLast != -1
    modifies ed, ed.active
    ensures ed.Valid()
    ensures ed.links == old(ed.links) && ed.lines == old(ed.lines) && ed.steps == old(ed.steps)
    ensures Marks(ed.ustack) == old(Marks(ed.ustack)) && ed.Saved() == old(ed.Saved())
    ensures ed.currentAddr == old(ed.currentAddr) && ed.addrLast == old(ed.addrLast)
    ensures ed.uCurrentAddr == old(ed.uCurrentAddr) && ed.uAddrLast == old(ed.uAddrLast)
  {
    hide ed.Valid, ed.Saved, ed.Flags, Ring, Path, End, Redo, Marks, Rendered, Renderable, Falses;
    ghost var c, steps := ed.Cfg(), ed.steps;
    ed.UndoNumbers();
    ed.RecordsKnown();
    var ok := ed.PopUndoStack();
    UndoTwice(HEAD, steps, c);
    RedoTwice(steps);
    ed.UndoNumbers();
    ok := ed.PopUndoStack();
    ed.UndoNumbers();
    ed.RecordsKnown();
  }

  // What an undo would give.
  ghost function SavedDocs(ed: Editor): seq<Doc>
    reads ed
  {
    if ed.uAddrLast == -1 then [] else [Doc(TextsAt(ed.text, ed.Saved()), ed.uCurrentAddr)]
  }

  // What a session shows: the text now, and the one an undo would give.
  ghost function Look(ed: Editor): Session
    reads ed
  {
    Session(View(ed), SavedDocs(ed))
  }

  // What a global command shows between two commands.
  ghost function Within(ed: Editor): (r: State)
    reads ed, ed.active
    ensures Flagged(r)
  {
    State(View(ed), ed.Flags(), SavedDocs(ed))
  }

  lemma SavedDocsKept(ed: Editor, a: Rest)
    requires Keeps(a, RestOf(ed)) && Members(a.saved) <= a.text.Keys
    ensures SavedDocs(ed) == if a.uAddrLast == -1 then [] else [Doc(TextsAt(a.text, a.saved), a.uCurrentAddr)]
  {
    TextsKept(a.text, ed.text, a.saved);
  }

  // An editing command inside a global command.
  method EditInGlobal(ed: Editor, cmd: Cmd) returns (ok: bool)
    requires ed.Valid() && ed.isGlobal && Proper(cmd) && !cmd.Undo?
    modifies ed, ed.scratch, ed.active
    ensures ed.Valid() && ed.isGlobal
    ensures Within(ed) == Inner(old(Within(ed)), cmd) && (ok <==> InnerOk(old(Within(ed)), cmd))
    ensures ed.active.ptr == old(ed.active.ptr) && Shrunk(old(ed.active.list), ed.active.list)
  {
    hide ed.Valid, ed.Saved, ed.Flags, TextsAt, Perform, FlagsAfter, Proper, Keeps, Shrunk, Members, Succeeds, Allowed;
    ed.Bounds();
    ed.SavedKnown();
    ghost var a := RestOf(ed);
    ok := Edit(ed, cmd);
    KeptGlobal();
    SavedDocsKept(ed, a);
  }

  lemma UndoInner(s: State)
    requires Flagged(s)
    ensures InnerOk(s, Cmd.Undo) <==> |s.saved| == 1
    ensures Inner(s, Cmd.Undo) ==
      if |s.saved| == 1 then State(s.saved[0], Falses(|s.saved[0].page|), [s.doc]) else s
  {
  }

  // An undo inside a global command.
  method UndoInGlobal(ed: Editor, cmd: Cmd) returns (ok: bool)
    requires ed.Valid() && ed.isGlobal && cmd.Undo? && Proper(cmd)
    modifies ed, ed.active
    ensures ed.Valid() && ed.isGlobal
    ensures Within(ed) == Inner(old(Within(ed)), cmd) && (ok <==> InnerOk(old(Within(ed)), cmd))
    ensures ok ==> ed.active.list == []
    ensures !ok ==> ed.active.ptr == old(ed.active.ptr) && ed.active.list == old(ed.active.list)
  {
    hide ed.Valid, ed.Saved, ed.Flags, TextsAt, Ring, Path, End, Redo, Falses, Inner, InnerOk;
    ed.Bounds();
    ed.UndoNumbers();
    UndoInner(Within(ed));
    ok := ed.PopUndoStack();
    ed.Bounds();
    ed.UndoNumbers();
  }

  /** exec_command inside a global command: text, saved text and the lines still to be visited
      become what the reference editor makes of them; nodes leave those waiting and none
      joins them. */
  method ExecInGlobal(ed: Editor, cmd: Cmd) returns (ok: bool)
    requires ed.Valid() && ed.isGlobal && Proper(cmd)
    modifies ed, ed.scratch, ed.active
    ensures ed.Valid() && ed.isGlobal
    ensures Within(ed) == Inner(old(Within(ed)), cmd) && (ok <==> InnerOk(old(Within(ed)), cmd))
    ensures old(ed.active.ptr) <= |old(ed.active.list)| && ed.active.ptr <= |ed.active.list|
    ensures ed.active.Waiting() == Keep(old(ed.active.Waiting()), ed.active.Pending())
  {
    hide ed.Valid, ed.Flags, Within, Inner, InnerOk, Shrunk, Queue, Keep, Nodes, Once, Proper, Tidy;
    ed.ActiveBounds();
    ghost var list, ptr := ed.active.list, ed.active.ptr;
    if cmd.Undo? {
      ok := UndoInGlobal(ed, cmd);
      ShrunkSelf(list);
    } else {
      ok := EditInGlobal(ed, cmd);
    }
    ed.ActiveBounds();
    if ed.active.list == [] {
      NothingWaits(list[ptr..], ed.active.ptr);
    } else {
      ShrunkQueue(list, ed.active.list, ptr);
    }
  }

  lemma NothingWaits(q: seq<Slot<Node>>, ptr: nat)
    requires ptr == 0
    ensures var none: seq<Slot<Node>> := []; Queue(none[ptr..]) == Keep(Queue(q), Nodes(none, ptr))
  {
    var none: seq<Slot<Node>> := [];
    assert Nodes(none, ptr) == {};
    KeepNone(Queue(q), {});
  }

  lemma FirstIs(flags: seq<bool>, k: nat)
    requires k < |flags| && flags[k] && forall j :: 0 <= j < k ==> !flags[j]
    ensures First(flags) == k
  {
  }

  lemma FirstNone(n: nat)
    ensures First(Falses(n)) == n
  {
  }

  // The commands of one visit.
  method RunVisit(ed: Editor, plan: Plan, i: nat, n: nat) returns (ok: bool)
    requires ed.Valid() && ed.isGlobal && AllProper(plan)
    modifies ed, ed.scratch, ed.active
    ensures ed.Valid() && ed.isGlobal
    ensures var v := Visit(old(Within(ed)), plan, i, 0, n); Within(ed) == v.state && ok == v.ok
    ensures old(ed.active.ptr) <= |old(ed.active.list)| && ed.active.ptr <= |ed.active.list|
    ensures exists xs :: ed.active.Waiting() == Keep(old(ed.active.Waiting()), xs)
  {
    hide ed.Valid, ed.Flags, SavedDocs, Inner, InnerOk, InnerTaken, Queue, Keep, Nodes, Once, AllProper, Tidy, Proper;
    ed.Bounds();
    ed.ActiveBounds();
    ghost var start, q := Within(ed), ed.active.Waiting();
    ghost var xs := Members(q);
    KeepAll(q, xs);
    for j := 0 to n
      invariant ed.Valid() && ed.isGlobal
      invariant Visit(Within(ed), plan, i, j, n).state == Visit(start, plan, i, 0, n).state
      invariant Visit(Within(ed), plan, i, j, n).ok == Visit(start, plan, i, 0, n).ok
      invariant ed.active.ptr <= |ed.active.list| && ed.active.Waiting() == Keep(q, xs)
    {
      ed.Bounds();
      PlanAt(plan, i, j, ed.currentAddr, ed.addrLast);
      ok := ExecInGlobal(ed, plan(i, j, ed.currentAddr, ed.addrLast));
      KeepTwice(q, xs, ed.active.Pending());
      xs := xs * ed.active.Pending();
      if !ok {
        return;
      }
    }
    ok := true;
  }

  // One visit: the first line still to be visited becomes current, and the commands are run.
  method VisitNext(ed: Editor, plan: Plan, i: nat, n: nat) returns (r: Slot<Node>, ok: bool, ghost at: int)
    requires ed.Valid() && ed.isGlobal && AllProper(plan)
    modifies ed, ed.scratch, ed.active
    ensures ed.Valid() && ed.isGlobal
    ensures old(ed.active.ptr) <= |old(ed.active.list)| && ed.active.ptr <= |ed.active.list|
    ensures r.Cleared? <==> First(old(ed.Flags())) == |old(ed.Flags())|
    ensures r.Cleared? ==> ok && Within(ed) == old(Within(ed)) && ed.active.Waiting() == old(ed.active.Waiting())
    ensures r.Active? ==>
      && 1 <= at <= |old(ed.Page())| == |old(ed.Flags())| == |old(ed.lines)| && old(ed.lines)[at - 1] == r.node
      && old(ed.Flags())[at - 1] && (forall j :: 0 <= j < at - 1 ==> !old(ed.Flags())[j])
      && var s := State(Doc(old(ed.Page()), at), old(ed.Flags())[at - 1 := false], old(SavedDocs(ed)));
         var v := Visit(s, plan, i, 0, n); Within(ed) == v.state && ok == v.ok
    ensures r.Active? ==>
      var v := Visit(Turn(old(Within(ed))), plan, i, 0, n); Within(ed) == v.state && ok == v.ok
    ensures r.Active? ==>
      && |old(ed.active.Waiting())| > 0 && old(ed.active.Waiting())[0] == r.node
      && exists xs :: ed.active.Waiting() == Keep(old(ed.active.Waiting())[1..], xs)
  {
    hide ed.Valid, ed.Flags, ed.Saved, Queue, Keep, Nodes, Once, AllProper, Falses, Tidy, First, Visit, TextsAt;
    ed.Bounds();
    ed.ActiveBounds();
    ghost var flags, q, start := ed.Flags(), ed.active.Waiting(), Within(ed);
    r := ed.NextActive();
    ed.Bounds();
    if r.Cleared? {
      FirstNone(|ed.lines|);
      return r, true, 0;
    }
    at := ed.currentAddr;
    FirstIs(flags, at - 1);
    assert q[1..] == ed.active.Waiting() && Within(ed) == Turn(start);
    ok := RunVisit(ed, plan, i, n);
  }

  // The loop of exec_global.
  method RunGlobal(ed: Editor, plan: Plan, count: nat -> nat, ghost lines: seq<Node>)
    returns (ok: bool, ghost visited: seq<Node>)
    requires ed.Valid() && ed.isGlobal && AllProper(plan) && Distinct(lines) && ed.active.ptr <= |ed.active.list|
    requires InTurn(lines, [], ed.active.Waiting())
    modifies ed, ed.scratch, ed.active
    ensures ed.Valid() && ed.isGlobal
    ensures var r := Loop(old(Within(ed)), plan, count, 0);
      Within(ed) == r.state && ok == r.ok && |visited| == r.visits
    ensures visited == Keep(lines, Members(visited)) && Members(visited) <= Members(old(ed.active.Waiting()))
  {
    hide ed.Valid, ed.Flags, View, SavedDocs, Queue, Keep, Nodes, Once, AllProper, Falses, Tidy, First, Visit, InTurn,
         Distinct, Loop, Members, Count;
    visited := [];
    ghost var start, q0, left := Within(ed), ed.active.Waiting(), Loop(Within(ed), plan, count, 0).visits;
    NoMembers(q0);
    var i := 0;
    while true
      invariant ed.Valid() && ed.isGlobal && i >= 0 && ed.active.ptr <= |ed.active.list|
      invariant Loop(Within(ed), plan, count, i).state == Loop(start, plan, count, 0).state
      invariant Loop(Within(ed), plan, count, i).ok == Loop(start, plan, count, 0).ok
      invariant |visited| + Loop(Within(ed), plan, count, i).visits == Loop(start, plan, count, 0).visits
      invariant InTurn(lines, visited, ed.active.Waiting())
      invariant Members(visited) + Members(ed.active.Waiting()) <= Members(q0)
      decreases Count(ed.Flags())
    {
      ghost var s, q := Within(ed), ed.active.Waiting();
      LoopStep(s, plan, count, i);
      var r;
      ghost var at;
      r, ok, at := VisitNext(ed, plan, i, count(i));
      if r.Cleared? {
        InTurnEnd(lines, visited, q);
        return true, visited;
      }
      ghost var xs :| ed.active.Waiting() == Keep(q[1..], xs);
      assert q == [r.node] + q[1..];
      InTurnStep(lines, visited, r.node, q[1..]);
      InTurnShrinks(lines, visited + [r.node], q[1..], xs);
      KeptMembers(visited, r.node, q[1..], xs);
      visited := visited + [r.node];
      if !ok {
        InTurnEnd(lines, visited, ed.active.Waiting());
        return false, visited;
      }
      i := i + 1;
    }
  }

  lemma NoMembers(q: seq<Node>)
    ensures Members<Node>([]) + Members(q) <= Members(q)
  {
  }

  lemma KeptMembers(visited: seq<Node>, x: Node, rest: seq<Node>, xs: set<Node>)
    ensures Members(visited + [x]) + Members(Keep(rest, xs)) <= Members(visited) + Members([x] + rest)
  {
    forall y | y in Keep(rest, xs) ensures y in rest {
      KeepMember(rest, xs, y);
    }
  }

  // One turn of the reference loop.
  lemma LoopStep(s: State, plan: Plan, count: nat -> nat, i: nat)
    requires AllProper(plan) && Flagged(s)
    ensures First(s.flags) == |s.flags| ==> Loop(s, plan, count, i) == Outcome(s, true, 0, 0)
    ensures First(s.flags) < |s.flags| ==>
      var v, r := Visit(Turn(s), plan, i, 0, count(i)), Loop(s, plan, count, i);
      && Count(v.state.flags) < Count(s.flags)
      && (!v.ok ==> r.state == v.state && !r.ok && r.visits == 1)
      && (v.ok ==>
            var next := Loop(v.state, plan, count, i + 1);
            r.state == next.state && r.ok == next.ok && r.visits == 1 + next.visits)
  {
  }

  /** A global command: text, saved text, outcome and number of visits are those of the reference
      editor, which always visits the first line still to be visited; the nodes visited are
      distinct, come in the order of the lines, and held matching lines when it began. */
  method ExecGlobal(ed: Editor, c: Command) returns (ok: bool, ghost visited: seq<Node>)
    requires ed.Valid() && !ed.isGlobal && c.Global? && Sound(c)
    modifies ed, ed.scratch, ed.active
    ensures ed.Valid() && |old(ed.Page())| == |old(ed.lines)| == old(ed.addrLast) && Distinct(old(ed.lines))
    ensures InRange(c.first, c.second, old(ed.addrLast)) ==>
      var r := Loop(Start(old(View(ed)), c.first, c.second, c.matches), c.plan, c.count, 0);
      Within(ed) == r.state && ok == r.ok && |visited| == r.visits
    ensures !InRange(c.first, c.second, old(ed.addrLast)) ==>
      !ok && View(ed) == old(View(ed)) && SavedDocs(ed) == old(SavedDocs(ed)) && visited == []
    ensures visited == Keep(old(ed.lines), Members(visited))
    ensures forall x :: x in visited ==>
      exists k :: c.first - 1 <= k < c.second && old(ed.lines)[k] == x && c.matches(old(ed.Page())[k])
  {
    hide ed.Valid, ed.Saved, TextsAt, Chosen, Nodes, Keep, Queue, Tidy, Once, Loop, AllProper, Falses, MatchFlags,
         InTurn, FlagsOf, Members;
    ed.Bounds();
    ed.ActiveBounds();
    visited := [];
    if !InRange(c.first, c.second, ed.addrLast) {
      NoneKept(ed.lines);
      return false, visited;
    }
    ghost var lines, page := ed.lines, ed.Page();
    ed.BuildActiveList(c.first, c.second, c.matches);
    ed.BeginGlobal(c.first, c.second, c.matches);
    ed.ActiveBounds();
    InTurnStart(lines, ed.active.list);
    ok, visited := RunGlobal(ed, c.plan, c.count, lines);
    forall x | x in visited
      ensures exists k :: c.first - 1 <= k < c.second && lines[k] == x && c.matches(page[k])
    {
      InMembers(visited, x);
      ChosenMatch(lines, page, c.matches, c.first - 1, c.second, x);
    }
  }

  lemma NoneKept(s: seq<Node>)
    ensures Keep(s, Members<Node>([])) == []
  {
    KeepNone(s, Members<Node>([]));
  }

  lemma InMembers(s: seq<Node>, x: Node)
    requires x in s
    ensures x in Members(s)
  {
  }

  // An editing command outside a global command: the undo stack is cleared first.
  method ExecEdit(ed: Editor, cmd: Cmd) returns (ok: bool)
    requires ed.Valid() && !ed.isGlobal && Proper(cmd) && !cmd.Undo? && !cmd.Goto? && Allowed(cmd, ed.addrLast)
    modifies ed, ed.scratch, ed.active
    ensures ed.Valid()
    ensures |old(ed.Page())| == old(ed.addrLast)
    ensures Look(ed) == Session(Perform(cmd, old(View(ed))), [old(View(ed))])
    ensures ok <==> Succeeds(cmd, old(ed.Page()), false)
  {
    hide ed.Valid, ed.Saved, ed.Flags, TextsAt, Perform, Proper, Extends, Members, Succeeds, FlagsAfter, Keeps;
    ed.Bounds();
    ed.ClearUndoStack();
    ed.Bounds();
    ghost var a := RestOf(ed);
    ok := Edit(ed, cmd);
    SavedDocsKept(ed, a);
  }

  method ExecUndo(ed: Editor) returns (ok: bool)
    requires ed.Valid() && !ed.isGlobal
    modifies ed, ed.active
    ensures ed.Valid()
    ensures Look(ed) == Next(old(Look(ed)), Cmd.Undo) && (ok <==> |old(Look(ed)).saved| == 1)
  {
    hide ed.Valid, ed.Saved, ed.Flags, TextsAt, Ring, Path, End, Redo, Falses;
    ed.UndoNumbers();
    ok := ed.PopUndoStack();
    ed.UndoNumbers();
  }

  // The E command with the lines of its file.
  method ExecLoad(ed: Editor, texts: seq<string>)
    requires ed.Valid() && !ed.isGlobal
    requires forall k :: 0 <= k < |texts| ==> '\n' !in texts[k] && |texts[k]| < LINECHARS
    modifies ed, ed.scratch, ed.active
    ensures ed.Valid() && Look(ed) == Session(Doc(texts, |texts|), [])
  {
    hide ed.Valid, ed.Saved, ed.Flags, TextsAt, With, Extends;
    ed.EraseAll();
    ed.Bounds();
    ed.ReadStream(0, texts);
    WithAll(ed.text, texts);
    ed.ClearUndoStack();
    ed.ForgetUndo();
  }

  lemma WithAll(text: map<Node, string>, texts: seq<string>)
    ensures TextsAt(text, []) == [] && With([], 0, texts) == texts
  {
  }

  // The current line set without an edit: the undo stack is not cleared.
  method ExecGoto(ed: Editor, cmd: Cmd)
    requires ed.Valid() && cmd.Goto? && Proper(cmd)
    modifies ed`currentAddr
    ensures ed.Valid() && Look(ed) == Next(old(Look(ed)), cmd)
  {
    hide ed.Valid, ed.Saved, ed.Flags, TextsAt;
    ed.Bounds();
    if 0 <= cmd.addr <= ed.addrLast {
      ed.SetCurrent(cmd.addr);
    }
  }

  // One command other than a global command.
  method ExecSingle(ed: Editor, cmd: Cmd)
    requires ed.Valid() && !ed.isGlobal && Proper(cmd)
    modifies ed, ed.scratch, ed.active
    ensures ed.Valid() && Look(ed) == Next(old(Look(ed)), cmd)
  {
    hide ed.Valid, ed.Saved, ed.Flags, TextsAt, Perform, Proper;
    ed.Bounds();
    if cmd.Undo? {
      var ok := ExecUndo(ed);
    } else if cmd.Goto? {
      ExecGoto(ed, cmd);
    } else if Allowed(cmd, ed.addrLast) {
      var ok := ExecEdit(ed, cmd);
    }
  }

  /** Whatever is typed at the prompt does to the text, the current line and the saved text what
      the reference editor does. */
  method Exec(ed: Editor, c: Command)
    requires ed.Valid() && Sound(c)
    modifies ed, ed.scratch, ed.active
    ensures ed.Valid() && Look(ed) == NextCommand(old(Look(ed)), c)
  {
    hide ed.Valid, ed.Saved, ed.Flags, TextsAt, Next, Proper, Loop, Keep, AllProper;
    ed.EndGlobal();
    ed.Bounds();
    match c
    case Single(cmd) => ExecSingle(ed, cmd);
    case Global(_, _, _, _, _) =>
      var ok, visited := ExecGlobal(ed, c);
    case Load(texts) => ExecLoad(ed, texts);
  }

  /** A global command and then an undo give back the texts, their number and the current line,
      whether the global command succeeded or not, unless one of its own commands was an undo. */
  method GlobalAndUndo(ed: Editor, c: Command)
    requires ed.Valid() && c.Global? && Sound(c) && UndoFree(c.plan) && InRange(c.first, c.second, ed.addrLast)
    modifies ed, ed.scratch, ed.active
    ensures ed.Valid() && View(ed) == old(View(ed)) && ed.addrLast == old(ed.addrLast)
  {
    hide ed.Valid, View, SavedDocs, NextCommand, Sound, UndoFree;
    ed.Bounds();
    PageOf(ed);
    GlobalUndone(Look(ed), c);
    Exec(ed, c);
    UndoSound();
    Exec(ed, Single(Cmd.Undo));
    ed.Bounds();
    PageOf(ed);
  }

  lemma PageOf(ed: Editor)
    ensures View(ed).page == ed.Page()
  {
  }

  lemma UndoSound()
    ensures Sound(Single(Cmd.Undo))
  {
  }

  /** Whole sessions refine the reference editor: after any commands, global commands and undos
      among them, the lines of the linked buffer read as the reference editor's text. */
  method Run(cs: seq<Command>) returns (ed: Editor)
    requires forall k :: 0 <= k < |cs| ==> Sound(cs[k])
    ensures fresh(ed) && fresh(ed.scratch) && ed.Valid()
    ensures Look(ed) == NextAll(Session(Doc([], 0), []), cs)
  {
    hide *;
    ghost var start := Session(Doc([], 0), []);
    ed := new Editor();
    FirstLook(ed);
    NextAllNone(start, cs);
    for k := 0 to |cs|
      invariant ed.Valid() && fresh(ed) && fresh(ed.scratch) && fresh(ed.active)
      invariant Look(ed) == NextAll(start, cs[..k])
    {
      NextAllMore(start, cs, k);
      Exec(ed, cs[k]);
    }
    assert cs[..|cs|] == cs;
  }

  lemma NextAllNone(s: Session, cs: seq<Command>)
    requires forall k :: 0 <= k < |cs| ==> Sound(cs[k])
    ensures NextAll(s, cs[..0]) == s
  {
  }

  lemma NextAllMore(s: Session, cs: seq<Command>, n: nat)
    requires n < |cs| && forall k :: 0 <= k < |cs| ==> Sound(cs[k])
    ensures NextAll(s, cs[..n + 1]) == NextCommand(NextAll(s, cs[..n]), cs[n])
  {
    assert cs[..n + 1][..n] == cs[..n];
  }

  // The text of every line, fetched by number.
  method ReadBack(ed: Editor) returns (page: seq<string>)
    requires ed.Valid()
    modifies ed`lp, ed`on, ed.scratch
    ensures ed.Valid() && page == ed.Page()
  {
    hide ed.Valid, ed.Flags, TextsAt;
    ed.Bounds();
    page := [];
    for n := 0 to ed.addrLast
      invariant ed.Valid() && |ed.Page()| == ed.addrLast && page == ed.Page()[..n]
    {
      var s := ed.LineText(n + 1);
      assert ed.Page()[..n + 1] == ed.Page()[..n] + [ed.Page()[n]];
      page := page + [s];
    }
    assert ed.Page()[..|page|] == ed.Page();
  }

  /** The same from outside: the lines read back at the end of a session are the text of the
      reference editor. */
  method Transcript(cs: seq<Command>) returns (page: seq<string>, cur: int)
    requires forall k :: 0 <= k < |cs| ==> Sound(cs[k])
    ensures Doc(page, cur) == NextAll(Session(Doc([], 0), []), cs).doc
  {
    hide NextAll, Sound, Editor.Valid, Editor.Saved, Editor.Flags, TextsAt;
    var ed := Run(cs);
    assert NextAll(Session(Doc([], 0), []), cs).doc == Doc(ed.Page(), ed.currentAddr);
    cur := ed.currentAddr;
    page := ReadBack(ed);
  }

  lemma FirstLook(ed: Editor)
    requires ed.lines == [] && ed.currentAddr == 0 && ed.uAddrLast == -1
    ensures Look(ed) == Session(Doc([], 0), [])
  {
  }
}
