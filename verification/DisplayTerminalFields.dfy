/**
 Where the fields of a display terminal come from: over every interleaving of legacy events and v2 patches, each field
 is what the last event that may set it says.
 */
module DisplayTerminalFields {
  import opened Options
  import opened Utf8
  import opened DisplayTerminal

  /** A patch takes effect unless its output is refused. */
  predicate TakesEffect(e: Event) {
    e.Patch? && (e.newOutput ==> e.accepted)
  }

  ghost predicate CreatedBefore(events: seq<Event>, n: nat)
    requires n <= |events|
  {
    exists i :: 0 <= i < n && events[i].LegacyCreate?
  }

  ghost predicate ExitedBefore(events: seq<Event>, n: nat)
    requires n <= |events|
  {
    exists i :: 0 <= i < n && events[i].LegacyExit?
  }

  /** The terminal after the first `n` events. */
  function After(start: Terminal, events: seq<Event>, n: nat): Terminal
    requires n <= |events|
  {
    Run(start, events[..n])
  }

  lemma {:induction false} AfterStep(start: Terminal, events: seq<Event>, n: nat)
    requires n < |events|
    ensures After(start, events, n + 1) == Next(After(start, events, n), events[n])
  {
    assert events[..n + 1][..n] == events[..n];
  }

  /** A terminal as it is made, before anything happens to it. */
  predicate IsNew(t: Terminal) {
    !t.legacyCreated && !t.legacyExited && t.output.None?
  }

  /** A new terminal shows nothing, has not ended, and is called by its title if it has one. */
  lemma {:induction false} StartsNew(title: Option<string>, workingDir: Option<string>, limit: Option<nat>)
    ensures var t := NewDisplay(title, workingDir, limit);
            && IsNew(t) && t.content == [] && t.limit == limit && t.workingDir == workingDir
            && t.command == if title.Some? then LegacyCaption(title.value) else UnknownCommand
  {
  }

  /** The caption is the command, or the word "Terminal" if there is none. */
  lemma {:induction false} CaptionExactly(
    title: Option<string>, workingDir: Option<string>, limit: Option<nat>, events: seq<Event>)
    ensures var t := Run(NewDisplay(title, workingDir, limit), events);
            t.caption ==
            match t.command
            case LegacyCaption(name) => name
            case Reported(command) => if command.Some? then command.value else "Terminal"
            case UnknownCommand => "Terminal"
  {
    AlwaysCoherent(title, workingDir, limit, events);
  }

  // ----- legacy flags -----

  /** A patch leaves the limit and the flags alone. */
  lemma {:induction false} PatchLeaves(t: Terminal, e: Event)
    requires e.Patch?
    ensures Patched(t, e).legacyCreated == t.legacyCreated && Patched(t, e).legacyExited == t.legacyExited
    ensures Patched(t, e).limit == t.limit
  {
    var t1 := if e.newOutput || e.exit.Value? then t.(content := e.text) else t;
    var t2 := PatchedFields(t1, e.command, e.cwd);
    assert SameFrame(t2, t);
    ExitLeaves(t2, e.newOutput, e.exit, e.now);
  }

  predicate SameFrame(t: Terminal, u: Terminal) {
    t.legacyCreated == u.legacyCreated && t.legacyExited == u.legacyExited && t.limit == u.limit
  }

  lemma {:induction false} ExitLeaves(t: Terminal, newOutput: bool, exit: Maybe<string>, now: int)
    ensures SameFrame(PatchedExit(t, newOutput, exit, now), t)
  {
  }

  lemma {:induction false} FlagStep(t: Terminal, e: Event)
    ensures Next(t, e).legacyCreated == (t.legacyCreated || e.LegacyCreate?)
    ensures Next(t, e).legacyExited == (t.legacyExited || e.LegacyExit?)
  {
    if e.Patch? {
      PatchLeaves(t, e);
    }
  }

  lemma {:induction false} FlagsExactly(start: Terminal, events: seq<Event>, n: nat)
    requires n <= |events| && IsNew(start)
    ensures After(start, events, n).legacyCreated <==> CreatedBefore(events, n)
    ensures After(start, events, n).legacyExited <==> ExitedBefore(events, n)
  {
    if n > 0 {
      FlagsExactly(start, events, n - 1);
      AfterStep(start, events, n - 1);
      FlagStep(After(start, events, n - 1), events[n - 1]);
    }
  }

  // ----- the text -----

  /** The text an event brings, given whether a legacy exit has come before and whether the terminal has ended. */
  function NewText(e: Event, exited: bool, ended: bool): Option<seq<byte>> {
    match e
    case LegacyOutput(text) => Some(text)
    case Append(text) => Some(text)
    case LegacyExit(_, text, _) => if exited || ended then None else Some(text)
    case Patch(_, _, newOutput, _, exit, text, _) =>
      if TakesEffect(e) && (newOutput || exit.Value?) then Some(text) else None
    case LegacyCreate(_, _, _) => None
    case Relabel(_) => None
  }

  lemma {:induction false} PatchText(t: Terminal, e: Event)
    requires e.Patch?
    ensures Patched(t, e).content == if TakesEffect(e) && (e.newOutput || e.exit.Value?) then e.text else t.content
  {
  }

  lemma {:induction false} TextStep(t: Terminal, e: Event)
    ensures var text := NewText(e, t.legacyExited, t.output.Some?);
            Next(t, e).content == if text.Some? then text.value else t.content
  {
    match e
    case Patch(_, _, _, _, _, _, _) => PatchText(t, e);
    case LegacyCreate(name, _, _) => assert Relabeled(t.(legacyCreated := true), name).content == t.content;
    case _ =>
  }

  /** The text is that of the last event that brought one. */
  lemma {:induction false} TextExactly(start: Terminal, events: seq<Event>, n: nat)
    requires n < |events| && IsNew(start)
    ensures var t, t' := After(start, events, n), After(start, events, n + 1);
            var text := NewText(events[n], ExitedBefore(events, n), t.output.Some?);
            t'.content == if text.Some? then text.value else t.content
  {
    AfterStep(start, events, n);
    FlagsExactly(start, events, n);
    TextStep(After(start, events, n), events[n]);
  }

  // ----- the end -----

  ghost predicate EndsAs(t: Terminal, status: string, at: int) {
    t.output.Some? && t.output.value.status == status && t.output.value.endedAt == at
  }

  /** The exit status and the end time: set by a patch that has one, cleared by a patch that says so, set by the first
      legacy exit if there is none yet, and left alone by everything else. */
  ghost predicate IsExitAfter(t: Terminal, t': Terminal, exited: bool, e: Event) {
    if TakesEffect(e) && e.exit.Null? then t'.output.None?
    else if TakesEffect(e) && e.exit.Value? then
      EndsAs(t', e.exit.value, if t.output.Some? then t.output.value.endedAt else e.now)
    else if e.LegacyExit? && !exited && t.output.None? then EndsAs(t', e.status, e.now)
    else if t.output.Some? then EndsAs(t', t.output.value.status, t.output.value.endedAt)
    else t'.output.None?
  }

  lemma {:induction false} PatchExit(t: Terminal, e: Event)
    requires e.Patch?
    ensures IsExitAfter(t, Patched(t, e), t.legacyExited, e)
  {
  }

  lemma {:induction false} ExitStep(t: Terminal, e: Event)
    ensures IsExitAfter(t, Next(t, e), t.legacyExited, e)
  {
    match e
    case Patch(_, _, _, _, _, _, _) => PatchExit(t, e);
    case LegacyCreate(name, _, _) => assert Relabeled(t.(legacyCreated := true), name).output == t.output;
    case _ =>
  }

  lemma {:induction false} ExitExactly(start: Terminal, events: seq<Event>, n: nat)
    requires n < |events| && IsNew(start)
    ensures IsExitAfter(After(start, events, n), After(start, events, n + 1), ExitedBefore(events, n), events[n])
  {
    AfterStep(start, events, n);
    FlagsExactly(start, events, n);
    ExitStep(After(start, events, n), events[n]);
  }

  // ----- limit and working directory -----

  lemma {:induction false} PlaceStep(t: Terminal, e: Event)
    ensures Next(t, e).limit == if e.LegacyCreate? && !t.legacyCreated then e.newLimit else t.limit
    ensures Next(t, e).workingDir ==
            if e.LegacyCreate? && !t.legacyCreated then e.directory
            else if TakesEffect(e) && e.cwd.Value? then Some(e.cwd.value)
            else if TakesEffect(e) && e.cwd.Null? then None
            else t.workingDir
  {
    if e.Patch? {
      PatchLeaves(t, e);
    }
  }

  /** The limit is set by the first legacy creation alone; the working directory also by every patch that defines it. */
  lemma {:induction false} PlaceExactly(start: Terminal, events: seq<Event>, n: nat)
    requires n < |events| && IsNew(start)
    ensures var t, t', e := After(start, events, n), After(start, events, n + 1), events[n];
            var creates := e.LegacyCreate? && !CreatedBefore(events, n);
            && t'.limit == (if creates then e.newLimit else t.limit)
            && t'.workingDir ==
               if creates then e.directory
               else if TakesEffect(e) && e.cwd.Value? then Some(e.cwd.value)
               else if TakesEffect(e) && e.cwd.Null? then None
               else t.workingDir
  {
    AfterStep(start, events, n);
    FlagsExactly(start, events, n);
    PlaceStep(After(start, events, n), events[n]);
  }

  // ----- the command -----

  /** The label a legacy event asks for. */
  ghost function LabelAt(events: seq<Event>, i: nat): Option<string>
    requires i < |events|
  {
    match events[i]
    case Relabel(title) => Some(title)
    case LegacyCreate(name, _, _) => if CreatedBefore(events, i) then None else Some(name)
    case _ => None
  }

  predicate Reports(e: Event) {
    TakesEffect(e) && !e.command.Undefined?
  }

  ghost predicate LastReport(events: seq<Event>, n: nat, i: nat)
    requires n <= |events|
  {
    i < n && Reports(events[i]) && forall j :: i < j < n ==> !Reports(events[j])
  }

  ghost predicate LastLabel(events: seq<Event>, n: nat, i: nat)
    requires n <= |events|
  {
    i < n && LabelAt(events, i).Some? && forall j :: i < j < n ==> LabelAt(events, j).None?
  }

  /** The command is the one a patch reported last; without a report it is the last legacy label, and without a label
      the title the terminal was made with. */
  ghost predicate CommandIs(start: Terminal, events: seq<Event>, n: nat, command: DisplayCommand)
    requires n <= |events|
  {
    && (forall i: nat :: LastReport(events, n, i) ==>
                           command == Reported(if events[i].command.Value? then Some(events[i].command.value)
                                               else None))
    && ((forall i :: 0 <= i < n ==> !Reports(events[i])) ==>
          && (forall i: nat :: LastLabel(events, n, i) ==> command == LegacyCaption(LabelAt(events, i).value))
          && ((forall i :: 0 <= i < n ==> LabelAt(events, i).None?) ==> command == start.command))
  }

  lemma {:induction false} CommandStep(t: Terminal, e: Event)
    ensures Reports(e) ==>
              Next(t, e).command == Reported(if e.command.Value? then Some(e.command.value) else None)
    ensures !Reports(e) && (t.command.Reported? || (!e.Relabel? && !e.LegacyCreate?)) ==>
              Next(t, e).command == t.command
    ensures e.Relabel? && !t.command.Reported? ==> Next(t, e).command == LegacyCaption(e.title)
    ensures e.LegacyCreate? && !t.command.Reported? ==>
              Next(t, e).command == if t.legacyCreated then t.command else LegacyCaption(e.name)
  {
  }

  lemma {:induction false} ReportedExactly(start: Terminal, events: seq<Event>, n: nat)
    requires n <= |events| && !start.command.Reported?
    ensures After(start, events, n).command.Reported? <==> exists i :: 0 <= i < n && Reports(events[i])
  {
    if n > 0 {
      ReportedExactly(start, events, n - 1);
      AfterStep(start, events, n - 1);
      CommandStep(After(start, events, n - 1), events[n - 1]);
    }
  }

  lemma {:induction false} CommandsFollow(start: Terminal, events: seq<Event>, commands: seq<DisplayCommand>, n: nat)
    requires n <= |events| && n < |commands| && commands[0] == start.command
    requires forall k :: 0 < k <= n ==> IsNextCommand(events, k, commands[k - 1], commands[k])
    ensures CommandIs(start, events, n, commands[n])
  {
    if n > 0 {
      CommandsFollow(start, events, commands, n - 1);
      CommandMoves(start, events, n, commands[n - 1], commands[n]);
    }
  }

  lemma {:induction false} CommandExactly(start: Terminal, events: seq<Event>, n: nat)
    requires n <= |events| && IsNew(start) && !start.command.Reported?
    ensures CommandIs(start, events, n, After(start, events, n).command)
  {
    var commands := seq(n + 1, k requires 0 <= k <= n => After(start, events, k).command);
    forall k | 0 < k <= n ensures IsNextCommand(events, k, commands[k - 1], commands[k]) {
      NextCommand(start, events, k);
    }
    CommandsFollow(start, events, commands, n);
  }

  /** The command after one more event. */
  ghost predicate IsNextCommand(events: seq<Event>, n: nat, was: DisplayCommand, now: DisplayCommand)
    requires 0 < n <= |events|
  {
    var e := events[n - 1];
    if Reports(e) then now == Reported(if e.command.Value? then Some(e.command.value) else None)
    else if (exists i :: 0 <= i < n - 1 && Reports(events[i])) || LabelAt(events, n - 1).None? then now == was
    else now == LegacyCaption(LabelAt(events, n - 1).value)
  }

  lemma {:induction false} NextCommand(start: Terminal, events: seq<Event>, n: nat)
    requires 0 < n <= |events| && IsNew(start) && !start.command.Reported?
    ensures IsNextCommand(events, n, After(start, events, n - 1).command, After(start, events, n).command)
  {
    ReportedExactly(start, events, n - 1);
    FlagsExactly(start, events, n - 1);
    AfterStep(start, events, n - 1);
    CommandInTurn(events, n, After(start, events, n - 1));
  }

  lemma {:induction false} CommandInTurn(events: seq<Event>, n: nat, t: Terminal)
    requires 0 < n <= |events| && (t.legacyCreated <==> CreatedBefore(events, n - 1))
    requires t.command.Reported? <==> exists i :: 0 <= i < n - 1 && Reports(events[i])
    ensures IsNextCommand(events, n, t.command, Next(t, events[n - 1]).command)
  {
    CommandStep(t, events[n - 1]);
  }

  lemma {:induction false} CommandMoves(
    start: Terminal, events: seq<Event>, n: nat, was: DisplayCommand, now: DisplayCommand)
    requires 0 < n <= |events| && CommandIs(start, events, n - 1, was) && IsNextCommand(events, n, was, now)
    ensures CommandIs(start, events, n, now)
  {
    LastsMove(events, n);
    forall i: nat | LastReport(events, n, i)
      ensures now == Reported(if events[i].command.Value? then Some(events[i].command.value) else None)
    {
      assert i == n - 1 || LastReport(events, n - 1, i);
    }
    forall i: nat | LastLabel(events, n, i) && forall k :: 0 <= k < n ==> !Reports(events[k])
      ensures now == LegacyCaption(LabelAt(events, i).value)
    {
      assert i == n - 1 || LastLabel(events, n - 1, i);
    }
  }

  lemma {:induction false} LastsMove(events: seq<Event>, n: nat)
    requires 0 < n <= |events|
    ensures forall i: nat :: i < n - 1 ==>
                               (LastReport(events, n, i) <==> LastReport(events, n - 1, i) && !Reports(events[n - 1]))
    ensures forall i: nat :: i < n - 1 ==>
                               (LastLabel(events, n, i) <==>
                                LastLabel(events, n - 1, i) && LabelAt(events, n - 1).None?)
  {
  }
}
