/**
 A line editor on plain values: the text as a sequence of lines, the current line, and one
 saved copy of both; in a global command also which lines are still to be visited. The
 linked buffer of ed is proved to behave like it.
 */
module EdReference {
  import opened Slices
  import opened EdLinks
  import opened EdText
  import opened EdFlags
  import opened EdSubst
  import opened EdBuffer

  // The commands that change the buffer, with their addresses and what they read; and what only
  // sets the current line: printing, a line number alone, an address before a semicolon.
  datatype Cmd =
    | Append(at: int, input: seq<string>)
    | Change(first: int, second: int, input: seq<string>)
    | Delete(first: int, second: int)
    | Join(first: int, second: int)
    | Move(first: int, second: int, addr: int)
    | Copy(first: int, second: int, addr: int)
    | Substitute(first: int, second: int, sub: string -> string, fails: string -> bool)
    | Goto(addr: int)
    | Undo

  ghost predicate Typed(input: seq<string>) {
    forall k :: 0 <= k < |input| ==> |input[k]| <= LINECHARS
  }

  // What is read at once has a C int's length; a replacement is text.
  ghost predicate Proper(cmd: Cmd) {
    (cmd.Append? || cmd.Change? ==> Typed(cmd.input)) && (cmd.Substitute? ==> Replaces(cmd.sub))
  }

  predicate InRange(first: int, second: int, last: int) {
    1 <= first <= second <= last
  }

  // The addresses make sense in a buffer of `last` lines.
  predicate Allowed(cmd: Cmd, last: int) {
    match cmd
    case Append(at, _) => 0 <= at <= last
    case Move(first, second, addr) => InRange(first, second, last) && 0 <= addr <= last && !(first <= addr < second)
    case Copy(first, second, addr) => InRange(first, second, last) && 0 <= addr <= last
    case Goto(addr) => 0 <= addr <= last
    case Undo => false
    case _ => InRange(cmd.first, cmd.second, last)
  }

  datatype Doc = Doc(page: seq<string>, cur: int)

  // Lines cut out and, in their place, others.
  function Replaced<T>(page: seq<T>, first: int, second: int, seg: seq<T>): seq<T>
    requires InRange(first, second, |page|)
  {
    page[..first - 1] + seg + page[second..]
  }

  function Joined(page: seq<string>, first: int, second: int): string
    requires InRange(first, second, |page|)
  {
    Concat(page[first - 1..second])
  }

  // Lines first..second after line addr: they and the lines in between change places.
  function Shifted<T>(page: seq<T>, first: int, second: int, addr: int): seq<T>
    requires InRange(first, second, |page|) && 0 <= addr <= |page| && !(first <= addr < second)
  {
    if addr < first then page[..addr] + page[first - 1..second] + page[addr..first - 1] + page[second..]
    else page[..first - 1] + page[second..addr] + page[first - 1..second] + page[addr..]
  }

  // The joined text and the two bytes after it have a C int's length.
  predicate Joinable(page: seq<string>, first: int, second: int)
    requires InRange(first, second, |page|)
  {
    |Joined(page, first, second)| + 2 <= LINECHARS
  }

  ghost function Perform(cmd: Cmd, d: Doc): Doc
    requires Proper(cmd) && Allowed(cmd, |d.page|)
  {
    match cmd
    case Append(at, input) =>
      Doc(d.page[..at] + BeforeDot(input) + d.page[at..], at + |BeforeDot(input)|)
    case Change(first, second, input) =>
      Doc(Replaced(d.page, first, second, BeforeDot(input)), first - 1 + |BeforeDot(input)|)
    case Delete(first, second) =>
      Doc(Replaced(d.page, first, second, []), if second < |d.page| then first else first - 1)
    case Join(first, second) =>
      if first == second || !Joinable(d.page, first, second) then d
      else Doc(Replaced(d.page, first, second, [Joined(d.page, first, second)]), first)
    case Move(first, second, addr) =>
      Doc(Shifted(d.page, first, second, addr), if addr < first then addr + second - first + 1 else addr)
    case Copy(first, second, addr) =>
      Doc(d.page[..addr] + d.page[first - 1..second] + d.page[addr..], addr + second - first + 1)
    case Substitute(first, second, sub, fails) =>
      var n := Reach(fails, d.page, first - 1, second - first + 1);
      Doc(Substituted(sub, d.page, first - 1, n),
          if n == second - first + 1 then LastSubstituted(sub, d.page, first - 1, n, d.cur)
          else first + |Expanded(sub, d.page, first - 1, n)|)
    case Goto(addr) => Doc(d.page, addr)
  }

  // Whether the command reports success. In a global command a substitution may match nothing.
  ghost predicate Succeeds(cmd: Cmd, page: seq<string>, global: bool)
    requires Allowed(cmd, |page|)
  {
    && (cmd.Append? || cmd.Change? ==> !Dangling(cmd.input))
    && (cmd.Join? && cmd.first != cmd.second ==> Joinable(page, cmd.first, cmd.second))
    && (cmd.Substitute? ==>
          var n := cmd.second - cmd.first + 1;
          Reach(cmd.fails, page, cmd.first - 1, n) == n && (global || HasMatch(cmd.sub, page, cmd.first - 1, n)))
  }

  // A session: the text now, and the one an undo gives, if any.
  datatype Session = Session(doc: Doc, saved: seq<Doc>)

  // Every command that edits saves the text before it; undo exchanges the two.
  ghost function Next(s: Session, cmd: Cmd): Session
    requires Proper(cmd)
  {
    if cmd.Undo? then (if |s.saved| == 1 then Session(s.saved[0], [s.doc]) else s)
    else if Allowed(cmd, |s.doc.page|) then Session(Perform(cmd, s.doc), if cmd.Goto? then s.saved else [s.doc])
    else s
  }

  // Inside a global command: the text, the lines still to be visited, the saved text.
  datatype State = State(doc: Doc, flags: seq<bool>, saved: seq<Doc>)

  predicate Flagged(s: State) {
    |s.flags| == |s.doc.page|
  }

  // The lines still to be visited after a command: lines that are deleted, changed, joined,
  // moved or substituted are not, and new lines are not.
  ghost function FlagsAfter(cmd: Cmd, page: seq<string>, flags: seq<bool>): (r: seq<bool>)
    requires Proper(cmd) && Allowed(cmd, |page|) && |flags| == |page|
  {
    match cmd
    case Append(at, input) => flags[..at] + Falses(|BeforeDot(input)|) + flags[at..]
    case Change(first, second, input) => Replaced(flags, first, second, Falses(|BeforeDot(input)|))
    case Delete(first, second) => Replaced(flags, first, second, [])
    case Join(first, second) =>
      if first == second || !Joinable(page, first, second) then flags else Replaced(flags, first, second, [false])
    case Move(first, second, addr) =>
      Shifted(Replaced(flags, first, second, Falses(second - first + 1)), first, second, addr)
    case Copy(first, second, addr) => flags[..addr] + Falses(second - first + 1) + flags[addr..]
    case Substitute(first, second, sub, fails) =>
      SubstitutedFlags(sub, page, flags, first - 1, Reach(fails, page, first - 1, second - first + 1))
    case Goto(_) => flags
  }

  function Count(flags: seq<bool>): nat {
    if |flags| == 0 then 0 else (if flags[0] then 1 else 0) + Count(flags[1..])
  }

  // How many lines still to be visited a substitution replaces.
  function Matched(sub: string -> string, page: seq<string>, flags: seq<bool>, i: nat, n: nat): nat
    requires i + n <= |page| == |flags|
  {
    if n == 0 then 0
    else
      Matched(sub, page, flags, i, n - 1) + if Matches(sub, page[i + n - 1]) && flags[i + n - 1] then 1 else 0
  }

  // How many lines still to be visited a command deletes, changes, joins, moves or replaces.
  ghost function Taken(cmd: Cmd, page: seq<string>, flags: seq<bool>): nat
    requires Allowed(cmd, |page|) && |flags| == |page|
  {
    match cmd
    case Append(_, _) => 0
    case Copy(_, _, _) => 0
    case Goto(_) => 0
    case Substitute(first, second, sub, fails) =>
      Matched(sub, page, flags, first - 1, Reach(fails, page, first - 1, second - first + 1))
    case Join(first, second) =>
      if first == second || !Joinable(page, first, second) then 0 else Count(flags[first - 1..second])
    case _ => Count(flags[cmd.first - 1..cmd.second])
  }

  // A command inside a global command: nothing is saved again, and an undo ends the visits.
  ghost function Inner(s: State, cmd: Cmd): (r: State)
    requires Proper(cmd) && Flagged(s)
    ensures Flagged(r)
  {
    if cmd.Undo? then
      if |s.saved| == 1 then State(s.saved[0], Falses(|s.saved[0].page|), [s.doc]) else s
    else if Allowed(cmd, |s.doc.page|) then
      FlagsLength(cmd, s.doc, s.flags);
      State(Perform(cmd, s.doc), FlagsAfter(cmd, s.doc.page, s.flags), s.saved)
    else s
  }

  ghost predicate InnerOk(s: State, cmd: Cmd) {
    if cmd.Undo? then |s.saved| == 1
    else Allowed(cmd, |s.doc.page|) && Succeeds(cmd, s.doc.page, true)
  }

  ghost function InnerTaken(s: State, cmd: Cmd): nat
    requires Flagged(s)
  {
    if cmd.Undo? then (if |s.saved| == 1 then Count(s.flags) else 0)
    else if Allowed(cmd, |s.doc.page|) then Taken(cmd, s.doc.page, s.flags)
    else 0
  }

  // The j-th command for the i-th visited line, seen from the current line and the last line.
  type Plan = (nat, nat, int, int) -> Cmd

  ghost predicate AllProper(plan: Plan) {
    forall i, j, a, b :: Proper(plan(i, j, a, b))
  }

  ghost predicate UndoFree(plan: Plan) {
    forall i, j, a, b :: !plan(i, j, a, b).Undo?
  }

  lemma PlanAt(plan: Plan, i: nat, j: nat, a: int, b: int)
    ensures AllProper(plan) ==> Proper(plan(i, j, a, b))
    ensures UndoFree(plan) ==> !plan(i, j, a, b).Undo?
  {
  }

  // How a list of commands or a whole global command ended, with the number of lines visited
  // and of lines that commands took from those still to be visited.
  datatype Outcome = Outcome(state: State, ok: bool, visits: nat, taken: nat)

  // Commands j up to n of the i-th visit, up to one that fails.
  ghost function Visit(s: State, plan: Plan, i: nat, j: nat, n: nat): (r: Outcome)
    requires AllProper(plan) && Flagged(s) && j <= n
    ensures Flagged(r.state) && Count(r.state.flags) + r.taken == Count(s.flags) && r.visits == 0
    decreases n - j
  {
    if j == n then Outcome(s, true, 0, 0)
    else
      PlanAt(plan, i, j, s.doc.cur, |s.doc.page|);
      var cmd := plan(i, j, s.doc.cur, |s.doc.page|);
      InnerConserved(s, cmd);
      if !InnerOk(s, cmd) then Outcome(Inner(s, cmd), false, 0, InnerTaken(s, cmd))
      else
        var r := Visit(Inner(s, cmd), plan, i, j + 1, n);
        Outcome(r.state, r.ok, 0, InnerTaken(s, cmd) + r.taken)
  }

  // The first line still to be visited, if any.
  function First(flags: seq<bool>): (k: nat)
    ensures k <= |flags| && (k < |flags| ==> flags[k]) && forall j :: 0 <= j < k ==> !flags[j]
  {
    if |flags| == 0 || flags[0] then 0 else 1 + First(flags[1..])
  }

  // It becomes the current line and is not visited again.
  function Turn(s: State): (r: State)
    requires Flagged(s) && First(s.flags) < |s.flags|
    ensures Flagged(r) && Count(r.flags) + 1 == Count(s.flags)
  {
    var k := First(s.flags);
    CountDown(s.flags, k);
    State(Doc(s.doc.page, k + 1), s.flags[k := false], s.saved)
  }

  /** A global command from its i-th visit on: always the first line still to be visited, until
      none is left or a command fails. */
  ghost function Loop(s: State, plan: Plan, count: nat -> nat, i: nat): (r: Outcome)
    requires AllProper(plan) && Flagged(s)
    ensures Flagged(r.state)
    decreases Count(s.flags)
  {
    if First(s.flags) == |s.flags| then Outcome(s, true, 0, 0)
    else
      var v := Visit(Turn(s), plan, i, 0, count(i));
      if !v.ok then Outcome(v.state, false, 1, v.taken)
      else
        var r := Loop(v.state, plan, count, i + 1);
        Outcome(r.state, r.ok, 1 + r.visits, v.taken + r.taken)
  }

  // A global command begins: the matching lines of the range are to be visited, the text is saved.
  ghost function Start(d: Doc, first: int, second: int, matches: string -> bool): (r: State)
    requires InRange(first, second, |d.page|)
    ensures Flagged(r)
  {
    State(d, MatchFlags(d.page, matches, first - 1, second), [d])
  }

  // What is typed at the prompt: a command, a global command, or a file to be edited.
  datatype Command =
    | Single(cmd: Cmd)
    | Global(first: int, second: int, matches: string -> bool, plan: Plan, count: nat -> nat)
    | Load(texts: seq<string>)

  ghost predicate Sound(c: Command) {
    match c
    case Single(cmd) => Proper(cmd)
    case Global(_, _, _, plan, _) => AllProper(plan)
    case Load(texts) => forall k :: 0 <= k < |texts| ==> '\n' !in texts[k] && |texts[k]| < LINECHARS
  }

  ghost function NextCommand(s: Session, c: Command): Session
    requires Sound(c)
  {
    match c
    case Single(cmd) => Next(s, cmd)
    case Global(first, second, matches, plan, count) =>
      if !InRange(first, second, |s.doc.page|) then s
      else
        var t := Loop(Start(s.doc, first, second, matches), plan, count, 0).state;
        Session(t.doc, t.saved)
    case Load(texts) => Session(Doc(texts, |texts|), [])
  }

  ghost function NextAll(s: Session, cs: seq<Command>): Session
    requires forall k :: 0 <= k < |cs| ==> Sound(cs[k])
  {
    if |cs| == 0 then s else NextCommand(NextAll(s, cs[..|cs| - 1]), cs[|cs| - 1])
  }

  // Counting.
  lemma {:induction false} CountConcat(a: seq<bool>, b: seq<bool>)
    ensures Count(a + b) == Count(a) + Count(b)
  {
    if |a| == 0 {
      assert a + b == b;
    } else {
      assert (a + b)[1..] == a[1..] + b;
      CountConcat(a[1..], b);
    }
  }

  lemma {:induction false} CountFalses(n: nat)
    ensures Count(Falses(n)) == 0
  {
    if n > 0 {
      assert Falses(n)[1..] == Falses(n - 1);
      CountFalses(n - 1);
    }
  }

  lemma CountOne(b: bool)
    ensures Count([b]) == if b then 1 else 0
  {
  }

  lemma CountThree(a: seq<bool>, b: seq<bool>, c: seq<bool>)
    ensures Count(a + b + c) == Count(a) + Count(b) + Count(c)
  {
    CountConcat(a, b);
    CountConcat(a + b, c);
  }

  lemma CountDown(flags: seq<bool>, k: nat)
    requires k < |flags| && flags[k]
    ensures Count(flags[k := false]) + 1 == Count(flags)
  {
    assert flags == flags[..k] + [true] + flags[k + 1..];
    assert flags[k := false] == flags[..k] + [false] + flags[k + 1..];
    CountThree(flags[..k], [true], flags[k + 1..]);
    CountThree(flags[..k], [false], flags[k + 1..]);
  }

  lemma {:induction false} CountNone(flags: seq<bool>)
    ensures First(flags) == |flags| <==> Count(flags) == 0
  {
    if |flags| > 0 {
      CountNone(flags[1..]);
    }
  }

  lemma CountReplaced(flags: seq<bool>, first: int, second: int, seg: seq<bool>)
    requires InRange(first, second, |flags|)
    ensures Count(Replaced(flags, first, second, seg)) + Count(flags[first - 1..second]) == Count(flags) + Count(seg)
  {
    assert flags == flags[..first - 1] + flags[first - 1..second] + flags[second..];
    CountThree(flags[..first - 1], flags[first - 1..second], flags[second..]);
    CountThree(flags[..first - 1], seg, flags[second..]);
  }

  lemma CountInserted(flags: seq<bool>, at: int, n: nat)
    requires 0 <= at <= |flags|
    ensures Count(flags[..at] + Falses(n) + flags[at..]) == Count(flags)
  {
    assert flags == flags[..at] + flags[at..];
    CountConcat(flags[..at], flags[at..]);
    CountThree(flags[..at], Falses(n), flags[at..]);
    CountFalses(n);
  }

  lemma FourParts<T>(s: seq<T>, i: nat, j: nat, k: nat)
    requires i <= j <= k <= |s|
    ensures s == s[..i] + s[i..j] + s[j..k] + s[k..]
  {
  }

  lemma CountSwapped(a: seq<bool>, b: seq<bool>, c: seq<bool>, d: seq<bool>)
    ensures Count(a + b + c + d) == Count(a + c + b + d)
  {
    hide Count;
    CountThree(a + b, c, d);
    CountConcat(a, b);
    CountThree(a + c, b, d);
    CountConcat(a, c);
  }

  lemma ShiftedParts(flags: seq<bool>, first: int, second: int, addr: int)
    requires InRange(first, second, |flags|) && 0 <= addr <= |flags| && !(first <= addr < second)
    ensures 1 <= first <= second <= |flags|
    ensures Shifted(flags, first, second, addr) ==
      if addr < first
      then flags[..addr] + flags[first - 1..second] + flags[addr..first - 1] + flags[second..]
      else flags[..first - 1] + flags[second..addr] + flags[first - 1..second] + flags[addr..]
  {
  }

  lemma CountShifted(flags: seq<bool>, first: int, second: int, addr: int)
    requires InRange(first, second, |flags|) && 0 <= addr <= |flags| && !(first <= addr < second)
    ensures Count(Shifted(flags, first, second, addr)) == Count(flags)
  {
    hide *;
    ShiftedParts(flags, first, second, addr);
    if addr < first {
      FourParts(flags, addr, first - 1, second);
      CountSwapped(flags[..addr], flags[addr..first - 1], flags[first - 1..second], flags[second..]);
    } else {
      FourParts(flags, first - 1, second, addr);
      CountSwapped(flags[..first - 1], flags[first - 1..second], flags[second..addr], flags[addr..]);
    }
  }

  lemma CountMore(flags: seq<bool>, i: nat, k: nat)
    requires i <= k < |flags|
    ensures Count(flags[i..k + 1]) == Count(flags[i..k]) + if flags[k] then 1 else 0
  {
    hide Count;
    assert flags[i..k + 1] == flags[i..k] + [flags[k]];
    CountConcat(flags[i..k], [flags[k]]);
    CountOne(flags[k]);
  }

  // One more line of a substitution.
  lemma MatchedMore(sub: string -> string, page: seq<string>, flags: seq<bool>, i: nat, n: nat)
    requires i + n < |page| == |flags|
    ensures Count(ExpandedFlags(sub, page, flags, i, n + 1)) + Matched(sub, page, flags, i, n + 1)
      == Count(ExpandedFlags(sub, page, flags, i, n)) + Matched(sub, page, flags, i, n) + if flags[i + n] then 1 else 0
  {
    hide Count, Falses, Expand, Matches;
    var f := ExpandedFlags(sub, page, flags, i, n);
    var n' := |Expand(sub, page[i + n])|;
    if Matches(sub, page[i + n]) {
      CountConcat(f, Falses(n'));
      CountFalses(n');
    } else {
      CountConcat(f, [flags[i + n]]);
      CountOne(flags[i + n]);
    }
  }

  lemma MatchedNone(sub: string -> string, page: seq<string>, flags: seq<bool>, i: nat)
    requires i <= |page| == |flags|
    ensures Count(ExpandedFlags(sub, page, flags, i, 0)) + Matched(sub, page, flags, i, 0) == Count(flags[i..i + 0])
  {
    assert flags[i..i + 0] == [];
  }

  lemma {:induction false} CountExpanded(sub: string -> string, page: seq<string>, flags: seq<bool>, i: nat, n: nat)
    requires i + n <= |page| == |flags|
    ensures Count(ExpandedFlags(sub, page, flags, i, n)) + Matched(sub, page, flags, i, n) == Count(flags[i..i + n])
  {
    hide *;
    if n == 0 {
      MatchedNone(sub, page, flags, i);
    } else {
      CountExpanded(sub, page, flags, i, n - 1);
      MatchedMore(sub, page, flags, i, n - 1);
      CountMore(flags, i, i + n - 1);
    }
  }

  lemma CountSubstituted(sub: string -> string, page: seq<string>, flags: seq<bool>, i: nat, n: nat)
    requires i + n <= |page| == |flags|
    ensures Count(SubstitutedFlags(sub, page, flags, i, n)) + Matched(sub, page, flags, i, n) == Count(flags)
  {
    hide Count, ExpandedFlags, Matched;
    CountExpanded(sub, page, flags, i, n);
    FourParts(flags, i, i, i + n);
    CountThree(flags[..i], ExpandedFlags(sub, page, flags, i, n), flags[i + n..]);
    assert flags[..i] + flags[i..i] == flags[..i];
    CountThree(flags[..i], flags[i..i + n], flags[i + n..]);
  }

  // One flag for every line of the new text.
  lemma FlagsLength(cmd: Cmd, d: Doc, flags: seq<bool>)
    requires Proper(cmd) && Allowed(cmd, |d.page|) && |flags| == |d.page|
    ensures |FlagsAfter(cmd, d.page, flags)| == |Perform(cmd, d).page|
  {
  }

  lemma ReplaceConserved(cmd: Cmd, page: seq<string>, flags: seq<bool>)
    requires Allowed(cmd, |page|) && |flags| == |page| && Proper(cmd) && (cmd.Change? || cmd.Delete? || cmd.Join?)
    ensures Count(FlagsAfter(cmd, page, flags)) + Taken(cmd, page, flags) == Count(flags)
  {
    hide Count, Replaced, Joinable, BeforeDot, Falses, Typed;
    CountOne(false);
    match cmd {
      case Change(first, second, input) =>
        CountReplaced(flags, first, second, Falses(|BeforeDot(input)|));
        CountFalses(|BeforeDot(input)|);
      case Delete(first, second) =>
        NoFalses();
        CountFalses(0);
        CountReplaced(flags, first, second, []);
      case Join(first, second) => CountReplaced(flags, first, second, [false]);
    }
  }

  /** A command takes lines from those still to be visited and adds none. */
  lemma FlagsConserved(cmd: Cmd, page: seq<string>, flags: seq<bool>)
    requires Proper(cmd) && Allowed(cmd, |page|) && |flags| == |page|
    ensures Count(FlagsAfter(cmd, page, flags)) + Taken(cmd, page, flags) == Count(flags)
  {
    hide Count, Replaced, Shifted, Joinable, SubstitutedFlags, BeforeDot, Falses, Typed, Replaces, Matched, Reach;
    if cmd.Append? {
      CountInserted(flags, cmd.at, |BeforeDot(cmd.input)|);
    } else if cmd.Copy? {
      CountInserted(flags, cmd.addr, cmd.second - cmd.first + 1);
    } else if cmd.Move? {
      CountMoved(flags, cmd.first, cmd.second, cmd.addr);
    } else if cmd.Substitute? {
      var n := cmd.second - cmd.first + 1;
      CountSubstituted(cmd.sub, page, flags, cmd.first - 1, Reach(cmd.fails, page, cmd.first - 1, n));
    } else if cmd.Goto? {
    } else {
      ReplaceConserved(cmd, page, flags);
    }
  }

  lemma CountMoved(flags: seq<bool>, first: int, second: int, addr: int)
    requires InRange(first, second, |flags|) && 0 <= addr <= |flags| && !(first <= addr < second)
    ensures var struck := Replaced(flags, first, second, Falses(second - first + 1));
      && |struck| == |flags|
      && Count(Shifted(struck, first, second, addr)) + Count(flags[first - 1..second]) == Count(flags)
  {
    hide Count, Shifted;
    CountReplaced(flags, first, second, Falses(second - first + 1));
    CountFalses(second - first + 1);
    CountShifted(Replaced(flags, first, second, Falses(second - first + 1)), first, second, addr);
  }

  lemma InnerConserved(s: State, cmd: Cmd)
    requires Proper(cmd) && Flagged(s)
    ensures Count(Inner(s, cmd).flags) + InnerTaken(s, cmd) == Count(s.flags)
  {
    hide Count, FlagsAfter, Perform, Taken, Succeeds;
    if cmd.Undo? {
      if |s.saved| == 1 {
        CountFalses(|s.saved[0].page|);
      }
    } else if Allowed(cmd, |s.doc.page|) {
      FlagsConserved(cmd, s.doc.page, s.flags);
    }
  }

  /** Of the lines that matched, every one is visited, or taken by a command before its turn,
      or, when a command failed, still to be visited. */
  lemma {:induction false} LoopConserved(s: State, plan: Plan, count: nat -> nat, i: nat)
    requires AllProper(plan) && Flagged(s)
    ensures var r := Loop(s, plan, count, i);
      && r.visits + r.taken + Count(r.state.flags) == Count(s.flags)
      && (r.ok ==> r.visits + r.taken == Count(s.flags))
    decreases Count(s.flags)
  {
    CountNone(s.flags);
    if First(s.flags) < |s.flags| {
      var v := Visit(Turn(s), plan, i, 0, count(i));
      if v.ok {
        LoopConserved(v.state, plan, count, i + 1);
      }
    }
  }

  lemma {:induction false} VisitKeeps(s: State, plan: Plan, i: nat, j: nat, n: nat)
    requires AllProper(plan) && UndoFree(plan) && Flagged(s) && j <= n
    ensures Visit(s, plan, i, j, n).state.saved == s.saved
    decreases n - j
  {
    if j < n {
      PlanAt(plan, i, j, s.doc.cur, |s.doc.page|);
      var cmd := plan(i, j, s.doc.cur, |s.doc.page|);
      if InnerOk(s, cmd) {
        VisitKeeps(Inner(s, cmd), plan, i, j + 1, n);
      }
    }
  }

  lemma {:induction false} LoopKeeps(s: State, plan: Plan, count: nat -> nat, i: nat)
    requires AllProper(plan) && UndoFree(plan) && Flagged(s)
    ensures Loop(s, plan, count, i).state.saved == s.saved
    decreases Count(s.flags)
  {
    if First(s.flags) < |s.flags| {
      var v := Visit(Turn(s), plan, i, 0, count(i));
      VisitKeeps(Turn(s), plan, i, 0, count(i));
      if v.ok {
        LoopKeeps(v.state, plan, count, i + 1);
      }
    }
  }

  /** One undo takes a whole global command back, whether it succeeded or not, unless one of its
      own commands was an undo. */
  lemma GlobalUndone(s: Session, c: Command)
    requires c.Global? && Sound(c) && UndoFree(c.plan) && InRange(c.first, c.second, |s.doc.page|)
    ensures var t := NextCommand(s, c);
      NextCommand(t, Single(Undo)) == Session(s.doc, [t.doc])
  {
    LoopKeeps(Start(s.doc, c.first, c.second, c.matches), c.plan, c.count, 0);
  }

  // The reference operations in terms of the sequence operations of the buffer.
  lemma ReplacedWith<T>(page: seq<T>, first: int, second: int, seg: seq<T>)
    requires InRange(first, second, |page|)
    ensures With(Without(page, first - 1, second - first + 1), first - 1, seg) == Replaced(page, first, second, seg)
    ensures Without(page, first - 1, second - first + 1) == Replaced(page, first, second, [])
    ensures Slice(page, first - 1, second - first + 1) == page[first - 1..second]
  {
  }

  // A range cut out and filled again.
  lemma Filled<T>(page: seq<T>, first: int, second: int, seg: seq<T>)
    requires InRange(first, second, |page|)
    ensures var p := Replaced(page, first, second, []);
      |p| >= first - 1 && p[..first - 1] + seg + p[first - 1..] == Replaced(page, first, second, seg)
  {
    assert Replaced(page, first, second, []) == page[..first - 1] + page[second..];
    Cut(page[..first - 1], page[second..]);
  }

  lemma Cut<T>(a: seq<T>, b: seq<T>)
    ensures (a + b)[..|a|] == a && (a + b)[|a|..] == b
  {
  }

  lemma MovedUp<T>(page: seq<T>, first: int, second: int, addr: int)
    requires InRange(first, second, |page|) && 0 <= addr < first - 1
    ensures Moved(page, first, second, addr)
      == page[..addr] + page[first - 1..second] + page[addr..first - 1] + page[second..]
  {
    var a, b := page[..addr], page[addr..first - 1];
    assert page[..first - 1] == a + b;
    assert Without(page, first - 1, second - first + 1) == a + (b + page[second..]);
    Cut(a, b + page[second..]);
  }

  lemma MovedDown<T>(page: seq<T>, first: int, second: int, addr: int)
    requires InRange(first, second, |page|) && second < addr <= |page|
    ensures Moved(page, first, second, addr)
      == page[..first - 1] + page[second..addr] + page[first - 1..second] + page[addr..]
  {
    var a, b := page[..first - 1], page[second..addr];
    assert page[second..] == b + page[addr..];
    assert Without(page, first - 1, second - first + 1) == (a + b) + page[addr..];
    Cut(a + b, page[addr..]);
  }

  lemma MovedNowhere<T>(page: seq<T>, first: int, second: int)
    requires InRange(first, second, |page|)
    ensures page == page[..first - 1] + page[first - 1..second] + page[first - 1..first - 1] + page[second..]
    ensures page == page[..first - 1] + page[second..second] + page[first - 1..second] + page[second..]
  {
  }

  lemma ShiftedMoved<T>(page: seq<T>, first: int, second: int, addr: int)
    requires InRange(first, second, |page|) && 0 <= addr <= |page| && !(first <= addr < second)
    ensures Moved(page, first, second, addr) == Shifted(page, first, second, addr)
  {
    hide With, Without, Slice;
    if addr < first - 1 {
      MovedUp(page, first, second, addr);
    } else if addr > second {
      MovedDown(page, first, second, addr);
    } else {
      MovedNowhere(page, first, second);
    }
  }

  lemma WithAsSeq<T>(page: seq<T>, at: int, seg: seq<T>)
    requires 0 <= at <= |page|
    ensures With(page, at, seg) == page[..at] + seg + page[at..]
  {
  }
}
