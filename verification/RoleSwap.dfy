/** Two shells joined by two pipes: one takes lines, the other carries them out, until they swap. */
module RoleSwap {

  datatype Id = C | E

  datatype Mode = Input | Execute | Gone

  /** A shell: what it is doing and what lies in the pipe it reads from. */
  datatype Shell = Shell(mode: Mode, pipe: seq<string>)

  /** A line and the shell it was typed into. */
  datatype Typed = Typed(who: Id, line: string)

  /** Both shells, and everything typed and everything read so far in order of time. */
  datatype State = State(c: Shell, e: Shell, typed: seq<Typed>, read: seq<Typed>)

  datatype Action = Type(who: Id, line: string) | Read(who: Id)

  function Other(i: Id): Id {
    if i == C then E else C
  }

  function Of(s: State, i: Id): Shell {
    if i == C then s.c else s.e
  }

  function With(s: State, i: Id, shell: Shell): State {
    if i == C then s.(c := shell) else s.(e := shell)
  }

  // ------------------------------------------------------------ the two loops

  const START := State(Shell(Input, []), Shell(Execute, []), [], [])

  predicate Enabled(s: State, a: Action) {
    match a
    case Type(i, _) => Of(s, i).mode == Input
    case Read(i) => Of(s, i).mode == Execute && Of(s, i).pipe != []
  }

  /** The typist writes first and looks at the line afterwards; the reader looks before it carries out. */
  function Apply(s: State, a: Action): State
    requires Enabled(s, a)
  {
    match a
    case Type(i, line) =>
      var sent := With(s, Other(i), Of(s, Other(i)).(pipe := Of(s, Other(i)).pipe + [line]));
      var after := if line == "exit" then Gone else if line == "swaprole" then Execute else Input;
      With(sent, i, Of(s, i).(mode := after)).(typed := s.typed + [Typed(i, line)])
    case Read(i) =>
      var line := Of(s, i).pipe[0];
      var after := if line == "exit" then Gone else if line == "swaprole" then Input else Execute;
      With(s, i, Shell(after, Of(s, i).pipe[1..])).(read := s.read + [Typed(Other(i), line)])
  }

  /** A command is a line that is neither of the two words the shells keep for themselves. */
  predicate IsCommand(line: string) {
    line != "exit" && line != "swaprole"
  }

  // ------------------------------------------------------------ tokens

  function Swaps(pipe: seq<string>): nat {
    if pipe == [] then 0 else (if pipe[0] == "swaprole" then 1 else 0) + Swaps(pipe[1..])
  }

  lemma {:induction false} SwapsOfAppend(pipe: seq<string>, line: string)
    ensures Swaps(pipe + [line]) == Swaps(pipe) + if line == "swaprole" then 1 else 0
  {
    if pipe != [] {
      assert (pipe + [line])[1..] == pipe[1..] + [line];
      SwapsOfAppend(pipe[1..], line);
    }
  }

  lemma {:induction false} NoSwapsInCommands(pipe: seq<string>)
    requires forall k :: 0 <= k < |pipe| ==> IsCommand(pipe[k])
    ensures Swaps(pipe) == 0
  {
    if pipe != [] {
      NoSwapsInCommands(pipe[1..]);
    }
  }

  function Typists(s: State): nat {
    (if s.c.mode == Input then 1 else 0) + if s.e.mode == Input then 1 else 0
  }

  predicate ExitTyped(s: State) {
    exists k :: 0 <= k < |s.typed| && s.typed[k].line == "exit"
  }

  // ------------------------------------------------------------ whose turn it is, by the typed lines alone

  /** Who may type after these lines; nobody after an exit. */
  datatype Turn = TurnOf(who: Id) | Nobody

  function TurnAfter(typed: seq<Typed>): Turn {
    if typed == [] then TurnOf(C)
    else
      var last := typed[|typed| - 1].line;
      match TurnAfter(typed[..|typed| - 1])
      case Nobody => Nobody
      case TurnOf(i) => if last == "exit" then Nobody else if last == "swaprole" then TurnOf(Other(i)) else TurnOf(i)
  }

  /** Every line was typed by the shell whose turn it was. */
  ghost predicate InTurn(typed: seq<Typed>) {
    forall k :: 0 <= k < |typed| ==> TurnAfter(typed[..k]) == TurnOf(typed[k].who)
  }

  // ------------------------------------------------------------ invariant

  function Tag(who: Id, pipe: seq<string>): seq<Typed> {
    seq(|pipe|, k requires 0 <= k < |pipe| => Typed(who, pipe[k]))
  }

  /** The pipe of i holds commands only, but for a last line of this kind. */
  predicate EndsWith(pipe: seq<string>, last: string) {
    |pipe| > 0 && pipe[|pipe| - 1] == last && forall k :: 0 <= k < |pipe| - 1 ==> IsCommand(pipe[k])
  }

  /** i types, or has handed over, or has left, while the other works off what is in its pipe. */
  predicate Phase(s: State, i: Id) {
    var me, other := Of(s, i), Of(s, Other(i));
    && me.pipe == []
    && match me.mode
       case Input => other.mode == Execute && (forall k :: 0 <= k < |other.pipe| ==> IsCommand(other.pipe[k]))
                     && TurnAfter(s.typed) == TurnOf(i)
       case Execute => other.mode == Execute && EndsWith(other.pipe, "swaprole")
                       && TurnAfter(s.typed) == TurnOf(Other(i))
       case Gone => TurnAfter(s.typed) == Nobody
                    && if other.mode == Gone then other.pipe == []
                       else other.mode == Execute && EndsWith(other.pipe, "exit")
  }

  /** What was typed is what was read and what is still in a pipe. */
  predicate Whole(s: State) {
    s.typed == s.read + Tag(C, s.e.pipe) + Tag(E, s.c.pipe)
  }

  ghost predicate Inv(s: State) {
    (Phase(s, C) || Phase(s, E)) && InTurn(s.typed) && Whole(s)
  }

  lemma StartHasInvariant()
    ensures Inv(START)
  {
    assert Phase(START, C);
    assert START.typed == START.read + Tag(C, START.e.pipe) + Tag(E, START.c.pipe);
  }

  lemma TypingKeepsPhase(s: State, i: Id, line: string)
    requires Phase(s, i) && Of(s, i).mode == Input
    ensures Phase(Apply(s, Type(i, line)), i)
  {
    var s' := Apply(s, Type(i, line));
    assert s'.typed[..|s.typed|] == s.typed;
    assert s'.typed[|s.typed|].line == line;
    assert Of(s', Other(i)).pipe == Of(s, Other(i)).pipe + [line];
    assert Of(s', i).pipe == [];
  }

  lemma TypingStaysInTurn(typed: seq<Typed>, i: Id, line: string)
    requires InTurn(typed) && TurnAfter(typed) == TurnOf(i)
    ensures InTurn(typed + [Typed(i, line)])
  {
    var typed' := typed + [Typed(i, line)];
    forall k | 0 <= k < |typed'|
      ensures TurnAfter(typed'[..k]) == TurnOf(typed'[k].who)
    {
      assert typed'[..k] == typed[..k];
      assert typed[..|typed|] == typed;
    }
  }

  lemma TypingKeepsWhole(s: State, i: Id, line: string)
    requires Whole(s) && Of(s, i).mode == Input && Of(s, i).pipe == []
    ensures Whole(Apply(s, Type(i, line)))
  {
    var pipe := Of(s, Other(i)).pipe;
    assert Tag(i, pipe + [line]) == Tag(i, pipe) + [Typed(i, line)];
    assert Tag(Other(i), []) == [];
    assert s.typed == s.read + Tag(i, pipe);
    assert s.typed + [Typed(i, line)] == s.read + Tag(i, pipe + [line]);
  }

  lemma TypingKeepsInv(s: State, i: Id, line: string)
    requires Inv(s) && Of(s, i).mode == Input
    ensures Inv(Apply(s, Type(i, line)))
  {
    var s' := Apply(s, Type(i, line));
    assert Phase(s, i);
    TypingKeepsPhase(s, i, line);
    TypingStaysInTurn(s.typed, i, line);
    TypingKeepsWhole(s, i, line);
  }

  lemma ReadingKeepsPhase(s: State, i: Id)
    requires Phase(s, Other(i)) && Enabled(s, Read(i))
    ensures Phase(Apply(s, Read(i)), if Of(s, i).pipe[0] == "swaprole" then i else Other(i))
  {
    var pipe := Of(s, i).pipe;
    assert Of(s, Other(i)).pipe == [];
    assert forall k :: 0 <= k < |pipe[1..]| ==> pipe[1..][k] == pipe[k + 1];
    assert |pipe| > 1 ==> pipe[1..][|pipe| - 2] == pipe[|pipe| - 1];
  }

  lemma ReadingKeepsWhole(s: State, i: Id)
    requires Whole(s) && Enabled(s, Read(i)) && Of(s, Other(i)).pipe == []
    ensures Whole(Apply(s, Read(i)))
  {
    var j, pipe := Other(i), Of(s, i).pipe;
    assert Tag(j, pipe) == [Typed(j, pipe[0])] + Tag(j, pipe[1..]);
    assert Tag(i, []) == [];
    assert s.typed == s.read + Tag(j, pipe);
    assert s.typed == (s.read + [Typed(j, pipe[0])]) + Tag(j, pipe[1..]);
  }

  lemma ReadingKeepsInv(s: State, i: Id)
    requires Inv(s) && Enabled(s, Read(i))
    ensures Inv(Apply(s, Read(i)))
  {
    assert Phase(s, Other(i));
    ReadingKeepsPhase(s, i);
    ReadingKeepsWhole(s, i);
  }

  /** Every step of either shell keeps the invariant. */
  lemma StepKeepsInv(s: State, a: Action)
    requires Inv(s) && Enabled(s, a)
    ensures Inv(Apply(s, a))
  {
    match a
    case Type(i, line) => TypingKeepsInv(s, i, line);
    case Read(i) => ReadingKeepsInv(s, i);
  }

  // ------------------------------------------------------------ what it means

  lemma SwapsWhenLast(pipe: seq<string>, last: string)
    requires EndsWith(pipe, last)
    ensures Swaps(pipe) == if last == "swaprole" then 1 else 0
  {
    var front := pipe[..|pipe| - 1];
    assert pipe == front + [last];
    NoSwapsInCommands(front);
    SwapsOfAppend(front, last);
  }

  lemma {:induction false} NobodyExactlyAfterExit(typed: seq<Typed>)
    ensures TurnAfter(typed) == Nobody <==> exists k :: 0 <= k < |typed| && typed[k].line == "exit"
  {
    if typed != [] {
      var front := typed[..|typed| - 1];
      NobodyExactlyAfterExit(front);
      assert forall k :: 0 <= k < |front| ==> typed[k] == front[k];
    }
  }

  /** Shells taking input and swaps under way make one, until somebody types exit, and then none. */
  lemma OneInputToken(s: State)
    requires Inv(s)
    ensures Typists(s) + Swaps(s.c.pipe) + Swaps(s.e.pipe) == if ExitTyped(s) then 0 else 1
  {
    NobodyExactlyAfterExit(s.typed);
    var i := if Phase(s, C) then C else E;
    var pipe := Of(s, Other(i)).pipe;
    match Of(s, i).mode
    case Input => NoSwapsInCommands(pipe);
    case Execute => SwapsWhenLast(pipe, "swaprole");
    case Gone => if pipe != [] { SwapsWhenLast(pipe, "exit"); }
  }

  /** The pair behaves as one shell: lines are read in the order in which they were typed, whoever typed them,
      and a shell that takes input has nothing left to read. */
  lemma ReadInTypingOrder(s: State)
    requires Inv(s)
    ensures s.read <= s.typed
    ensures forall i :: Of(s, i).mode == Input ==>
      Of(s, i).pipe == [] && forall k :: |s.read| <= k < |s.typed| ==> s.typed[k].who == i && IsCommand(s.typed[k].line)
  {
    assert s.typed[..|s.read|] == s.read;
    forall i | Of(s, i).mode == Input
      ensures Of(s, i).pipe == []
      ensures forall k :: |s.read| <= k < |s.typed| ==> s.typed[k].who == i && IsCommand(s.typed[k].line)
    {
      assert Phase(s, i);
    }
  }

  function LinesOf(t: seq<Typed>, i: Id): seq<string> {
    if t == [] then []
    else LinesOf(t[..|t| - 1], i) + (if t[|t| - 1].who == i then [t[|t| - 1].line] else [])
  }

  lemma {:induction false} LinesOfConcat(a: seq<Typed>, b: seq<Typed>, i: Id)
    ensures LinesOf(a + b, i) == LinesOf(a, i) + LinesOf(b, i)
  {
    if b == [] {
      assert a + b == a;
    } else {
      assert (a + b)[..|a + b| - 1] == a + b[..|b| - 1];
      LinesOfConcat(a, b[..|b| - 1], i);
    }
  }

  lemma {:induction false} LinesOfTagged(who: Id, pipe: seq<string>, i: Id)
    ensures LinesOf(Tag(who, pipe), i) == if who == i then pipe else []
  {
    if pipe != [] {
      var front := pipe[..|pipe| - 1];
      assert Tag(who, pipe)[..|pipe| - 1] == Tag(who, front);
      LinesOfTagged(who, front, i);
      assert pipe == front + [pipe[|pipe| - 1]];
    }
  }

  /** What was typed into one shell is what the other has read, followed by what waits in its pipe. */
  lemma TypedHereIsReadThere(s: State, i: Id)
    requires Whole(s)
    ensures LinesOf(s.typed, i) == LinesOf(s.read, i) + Of(s, Other(i)).pipe
  {
    LinesOfThree(s.read, Tag(C, s.e.pipe), Tag(E, s.c.pipe), i);
    LinesOfTagged(C, s.e.pipe, i);
    LinesOfTagged(E, s.c.pipe, i);
    var read := LinesOf(s.read, i);
    if i == C {
      assert read + s.e.pipe + [] == read + s.e.pipe;
    } else {
      assert read + [] + s.c.pipe == read + s.c.pipe;
    }
  }

  lemma LinesOfThree(a: seq<Typed>, b: seq<Typed>, c: seq<Typed>, i: Id)
    ensures LinesOf(a + b + c, i) == LinesOf(a, i) + LinesOf(b, i) + LinesOf(c, i)
  {
    LinesOfConcat(a + b, c, i);
    LinesOfConcat(a, b, i);
  }

  /** Nothing follows an exit. */
  lemma ExitIsLast(s: State, k: nat)
    requires Inv(s) && k < |s.typed| && s.typed[k].line == "exit"
    ensures k == |s.typed| - 1
  {
    var front := s.typed[..|s.typed| - 1];
    NobodyExactlyAfterExit(front);
    assert TurnAfter(front) == TurnOf(s.typed[|s.typed| - 1].who);
    assert forall j :: 0 <= j < |front| ==> front[j].line != "exit" && s.typed[j] == front[j];
  }

  function Pending(s: State): nat {
    |s.c.pipe| + |s.e.pipe|
  }

  predicate Over(s: State) {
    s.c.mode == Gone && s.e.mode == Gone
  }

  /** Somebody can move until both have gone, and once they have, every line has been read. */
  lemma NoDeadlock(s: State)
    requires Inv(s)
    ensures (exists a :: Enabled(s, a)) <==> !Over(s)
    ensures Over(s) ==> s.read == s.typed && ExitTyped(s)
  {
    NobodyExactlyAfterExit(s.typed);
    var i := if Phase(s, C) then C else E;
    if Of(s, i).mode == Input {
      assert Enabled(s, Type(i, ""));
    } else if Of(s, Other(i)).mode == Execute {
      assert Enabled(s, Read(Other(i)));
    }
  }

  ghost predicate IsRun(run: seq<State>, moves: seq<Action>) {
    && |run| == |moves| + 1
    && forall k :: 0 <= k < |moves| ==> Enabled(run[k], moves[k]) && run[k + 1] == Apply(run[k], moves[k])
  }

  lemma {:induction false} RunKeepsInv(run: seq<State>, moves: seq<Action>, k: nat)
    requires IsRun(run, moves) && Inv(run[0]) && k < |run|
    ensures Inv(run[k])
  {
    if k > 0 {
      RunKeepsInv(run, moves, k - 1);
      StepKeepsInv(run[k - 1], moves[k - 1]);
    }
  }

  /** Between two typed lines the reader can take no more steps than there are lines waiting. */
  lemma {:induction false} ReadsAreBounded(run: seq<State>, moves: seq<Action>)
    requires IsRun(run, moves) && Inv(run[0]) && forall k :: 0 <= k < |moves| ==> moves[k].Read?
    ensures Pending(run[|moves|]) + |moves| == Pending(run[0])
  {
    if moves != [] {
      var n := |moves| - 1;
      assert IsRun(run[..n + 1], moves[..n]);
      ReadsAreBounded(run[..n + 1], moves[..n]);
    }
  }

  lemma AfterExitOnlyReads(s: State, a: Action)
    requires Inv(s) && ExitTyped(s) && Enabled(s, a)
    ensures a.Read? && ExitTyped(Apply(s, a)) && Pending(Apply(s, a)) == Pending(s) - 1
  {
    NobodyExactlyAfterExit(s.typed);
  }

  /** An exit stops both: every run from there on has exactly as many steps as lines are waiting, if it is
      not broken off, and ends with both shells gone and every line read. */
  lemma {:induction false} ExitStopsBoth(run: seq<State>, moves: seq<Action>)
    requires IsRun(run, moves) && Inv(run[0]) && ExitTyped(run[0])
    ensures |moves| <= Pending(run[0])
    ensures |moves| == Pending(run[0]) <==> Over(run[|moves|])
    ensures Over(run[|moves|]) ==> run[|moves|].read == run[0].typed
    decreases |moves|
  {
    if moves == [] {
      NobodyExactlyAfterExit(run[0].typed);
      NoDeadlock(run[0]);
    } else {
      AfterExitOnlyReads(run[0], moves[0]);
      StepKeepsInv(run[0], moves[0]);
      assert IsRun(run[1..], moves[1..]);
      ExitStopsBoth(run[1..], moves[1..]);
    }
  }
}
