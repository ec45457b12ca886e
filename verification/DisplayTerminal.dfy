/**
 The display part of `Terminal` in `crates/acp_thread/src/terminal.rs`: a cached, truncated output next to the live
 text of a terminal emulator, changed by legacy events and by v2 patches in any order.
 */
module DisplayTerminal {
  import opened Options
  import opened Utf8

  const NEWLINE: byte := 10

  // ----- truncation -----

  /** The last boundary at or before `k`. */
  function BoundaryBefore(s: seq<byte>, k: nat): (i: nat)
    requires k <= |s|
    ensures i <= k && IsBoundary(s, i) && forall j :: i < j <= k ==> !IsBoundary(s, j)
  {
    if IsBoundary(s, k) then k else BoundaryBefore(s, k - 1)
  }

  /** The position of the last newline before `k`. */
  function LastNewline(s: seq<byte>, k: nat): (r: Option<nat>)
    requires k <= |s|
    ensures r.Some? ==> r.value < k && s[r.value] == NEWLINE && forall j :: r.value < j < k ==> s[j] != NEWLINE
    ensures r.None? ==> forall j :: 0 <= j < k ==> s[j] != NEWLINE
  {
    if k == 0 then None else if s[k - 1] == NEWLINE then Some(k - 1) else LastNewline(s, k - 1)
  }

  /** Where the output is cut: whole characters within the limit, and no partial line after a complete one. */
  function Cut(s: seq<byte>, limit: Option<nat>): (n: nat)
    ensures n <= |s|
  {
    if limit.Some? && |s| > limit.value then
      var end := BoundaryBefore(s, limit.value);
      var line := LastNewline(s, end);
      if line.Some? then line.value else end
    else |s|
  }

  function Truncated(s: seq<byte>, limit: Option<nat>): seq<byte> {
    s[..Cut(s, limit)]
  }

  method TruncatedOutput(content: seq<byte>, limit: Option<nat>) returns (output: seq<byte>, originalLength: nat)
    ensures output == Truncated(content, limit) && originalLength == |content|
  {
    output, originalLength := content, |content|;
    if limit.Some? && |content| > limit.value {
      var end := limit.value;
      while !IsBoundary(content, end)
        invariant 0 <= end <= limit.value && BoundaryBefore(content, end) == BoundaryBefore(content, limit.value)
        decreases end
      {
        end := end - 1;
      }
      var line := LastNewline(content, end);
      output := content[..if line.Some? then line.value else end];
    }
  }

  /** As many whole characters as fit into the limit. */
  ghost predicate FitsUpTo(s: seq<byte>, limit: nat, e: nat) {
    e <= limit <= |s| && IsBoundary(s, e) && forall j :: e < j <= limit ==> !IsBoundary(s, j)
  }

  /** The cut is at `e` or, if there is a complete line before it, at the end of the last one. */
  ghost predicate CutsBackTo(s: seq<byte>, e: nat, n: nat)
    requires e <= |s|
  {
    || (n == e && NEWLINE !in s[..e])
    || (n < e && s[n] == NEWLINE && NEWLINE !in s[n + 1..e])
  }

  /** The truncated output is a prefix of whole characters within the limit, shorter than the content exactly if the
      content exceeds the limit. Then it is as many characters as fit, without the part of a line after the last
      newline among them; and there is only one such prefix. */
  lemma {:induction false} TruncationIsSafe(s: seq<byte>, limit: Option<nat>)
    requires IsUtf8(s)
    ensures var out := Truncated(s, limit);
            && out <= s && IsUtf8(out) && IsBoundary(s, |out|)
            && (limit.Some? ==> |out| <= limit.value)
            && (|out| < |s| <==> limit.Some? && |s| > limit.value)
            && (|out| < |s| ==> exists e :: FitsUpTo(s, limit.value, e) && CutsBackTo(s, e, |out|))
  {
    CutAtBoundary(s, Cut(s, limit));
    if limit.Some? && |s| > limit.value {
      var e := BoundaryBefore(s, limit.value);
      assert FitsUpTo(s, limit.value, e) && CutsBackTo(s, e, Cut(s, limit));
    }
  }

  /** The limit and the text leave no choice. */
  lemma {:induction false} OnlyOneCut(s: seq<byte>, limit: nat, e: nat, n: nat, e': nat, n': nat)
    requires FitsUpTo(s, limit, e) && CutsBackTo(s, e, n) && FitsUpTo(s, limit, e') && CutsBackTo(s, e', n')
    ensures n == n'
  {
    assert e == e';
  }

  // ----- the terminal -----

  /** A patch field: left alone, cleared, or set. */
  datatype Maybe<+T> = Undefined | Null | Value(value: T)

  datatype DisplayCommand = UnknownCommand | LegacyCaption(title: string) | Reported(command: Option<string>)

  datatype Output = Output(endedAt: int, status: string, content: seq<byte>, originalLength: nat)

  datatype Terminal = Terminal(
    content: seq<byte>, limit: Option<nat>, output: Option<Output>, command: DisplayCommand, caption: string,
    workingDir: Option<string>, legacyCreated: bool, legacyExited: bool)

  /** What happens to a display terminal. `text` is the emulator's text afterwards and `now` the clock; replacing the
      output of a patch can fail, which leaves everything as it was. */
  datatype Event =
    | LegacyOutput(text: seq<byte>)
    | LegacyExit(status: string, text: seq<byte>, now: int)
    | LegacyCreate(name: string, directory: Option<string>, newLimit: Option<nat>)
    | Relabel(title: string)
    | Append(text: seq<byte>)
    | Patch(command: Maybe<string>, cwd: Maybe<string>, newOutput: bool, accepted: bool, exit: Maybe<string>,
            text: seq<byte>, now: int)

  function CommandText(c: DisplayCommand): Option<string> {
    match c
    case LegacyCaption(title) => Some(title)
    case Reported(command) => command
    case UnknownCommand => None
  }

  function Caption(c: DisplayCommand): string {
    if CommandText(c).Some? then CommandText(c).value else "Terminal"
  }

  function FromMaybe<T>(m: Maybe<T>): Option<T> {
    if m.Value? then Some(m.value) else None
  }

  function NewDisplay(title: Option<string>, workingDir: Option<string>, limit: Option<nat>): Terminal {
    var command := if title.Some? then LegacyCaption(title.value) else UnknownCommand;
    Terminal([], limit, None, command, Caption(command), workingDir, false, false)
  }

  function Cached(t: Terminal, status: string, endedAt: int): Terminal {
    t.(output := Some(Output(endedAt, status, Truncated(t.content, t.limit), |t.content|)))
  }

  function Refreshed(t: Terminal): Terminal {
    if t.output.Some? then Cached(t, t.output.value.status, t.output.value.endedAt) else t
  }

  function Relabeled(t: Terminal, title: string): Terminal {
    if t.command.Reported? || CommandText(t.command) == Some(title) then t
    else t.(command := LegacyCaption(title), caption := title)
  }

  /** The command and working directory of a patch. */
  function PatchedFields(t: Terminal, command: Maybe<string>, cwd: Maybe<string>): Terminal {
    var reported := Reported(FromMaybe(command));
    var t1 := if command.Undefined? then t else t.(command := reported, caption := Caption(reported));
    if cwd.Undefined? then t1 else t1.(workingDir := FromMaybe(cwd))
  }

  /** The exit status of a patch, after its output if it has one. */
  function PatchedExit(t: Terminal, newOutput: bool, exit: Maybe<string>, now: int): Terminal {
    match exit
    case Undefined => if newOutput then Refreshed(t) else t
    case Null => t.(output := None)
    case Value(status) => Cached(t, status, if t.output.Some? then t.output.value.endedAt else now)
  }

  function Patched(t: Terminal, e: Event): Terminal
    requires e.Patch?
  {
    if e.newOutput && !e.accepted then t
    else
      var t1 := if e.newOutput || e.exit.Value? then t.(content := e.text) else t;
      PatchedExit(PatchedFields(t1, e.command, e.cwd), e.newOutput, e.exit, e.now)
  }

  function Next(t: Terminal, e: Event): Terminal {
    match e
    case LegacyOutput(text) => Refreshed(t.(content := text))
    case LegacyExit(status, text, now) =>
      var t1 := t.(legacyExited := true);
      if t.legacyExited || t.output.Some? then t1 else Cached(t1.(content := text), status, now)
    case LegacyCreate(command, cwd, limit) =>
      if t.legacyCreated then t
      else
        var t1 := Relabeled(t.(legacyCreated := true), command).(workingDir := cwd);
        if t1.limit != limit then Refreshed(t1.(limit := limit)) else t1
    case Relabel(title) => Relabeled(t, title)
    case Append(text) => Refreshed(t.(content := text))
    case Patch(_, _, _, _, _, _, _) => Patched(t, e)
  }

  class DisplayState {
    var content: seq<byte>
    var limit: Option<nat>
    var output: Option<Output>
    var command: DisplayCommand
    var caption: string
    var workingDir: Option<string>
    var legacyCreated: bool
    var legacyExited: bool

    ghost function Model(): Terminal
      reads this
    {
      Terminal(content, limit, output, command, caption, workingDir, legacyCreated, legacyExited)
    }

    constructor (title: Option<string>, workingDir: Option<string>, limit: Option<nat>)
      ensures Model() == NewDisplay(title, workingDir, limit)
    {
      content, this.limit, output := [], limit, None;
      command := if title.Some? then LegacyCaption(title.value) else UnknownCommand;
      caption := if title.Some? then title.value else "Terminal";
      this.workingDir, legacyCreated, legacyExited := workingDir, false, false;
    }

    method CacheOutput(status: string, endedAt: int)
      modifies this`output
      ensures Model() == Cached(old(Model()), status, endedAt)
    {
      var text, length := TruncatedOutput(content, limit);
      output := Some(Output(endedAt, status, text, length));
    }

    method RefreshOutput()
      modifies this`output
      ensures Model() == Refreshed(old(Model()))
    {
      if output.Some? {
        CacheOutput(output.value.status, output.value.endedAt);
      }
    }

    method WriteOutput(text: seq<byte>)
      modifies this`content, this`output
      ensures Model() == Next(old(Model()), LegacyOutput(text)) && Model() == Next(old(Model()), Append(text))
    {
      content := text;
      RefreshOutput();
    }

    method FinishDisplay(status: string, text: seq<byte>, now: int)
      modifies this
      ensures Model() == Next(old(Model()), LegacyExit(status, text, now))
    {
      var already := legacyExited;
      legacyExited := true;
      if already || output.Some? {
        return;
      }
      content := text;
      CacheOutput(status, now);
    }

    method UpdateCommandLabel(title: string)
      modifies this`command, this`caption
      ensures Model() == Next(old(Model()), Relabel(title))
    {
      if command.Reported? || CommandText(command) == Some(title) {
        return;
      }
      command, caption := LegacyCaption(title), title;
    }

    method InitializeLegacyDisplay(title: string, cwd: Option<string>, newLimit: Option<nat>)
      modifies this
      ensures Model() == Next(old(Model()), LegacyCreate(title, cwd, newLimit))
    {
      if legacyCreated {
        return;
      }
      legacyCreated := true;
      UpdateCommandLabel(title);
      workingDir := cwd;
      if limit != newLimit {
        limit := newLimit;
        RefreshOutput();
      }
    }

    /** Returns whether the patch was applied; `text` is the emulator's text after its output was replaced or shrunk. */
    method ApplyDisplayPatch(newCommand: Maybe<string>, cwd: Maybe<string>, newOutput: bool, accepted: bool,
                             exit: Maybe<string>, text: seq<byte>, now: int)
      returns (applied: bool)
      modifies this
      ensures Model() == Next(old(Model()), Patch(newCommand, cwd, newOutput, accepted, exit, text, now))
      ensures applied <==> !newOutput || accepted
    {
      if newOutput && !accepted {
        return false;
      }
      if newOutput || exit.Value? {
        content := text;
      }
      ApplyFields(newCommand, cwd);
      ApplyExit(newOutput, exit, now);
      applied := true;
    }

    method ApplyFields(newCommand: Maybe<string>, cwd: Maybe<string>)
      modifies this`command, this`caption, this`workingDir
      ensures Model() == PatchedFields(old(Model()), newCommand, cwd)
    {
      if !newCommand.Undefined? {
        command := Reported(FromMaybe(newCommand));
        caption := Caption(command);
      }
      if !cwd.Undefined? {
        workingDir := FromMaybe(cwd);
      }
    }

    method ApplyExit(newOutput: bool, exit: Maybe<string>, now: int)
      modifies this`output
      ensures Model() == PatchedExit(old(Model()), newOutput, exit, now)
    {
      match exit {
        case Undefined =>
          if newOutput {
            RefreshOutput();
          }
        case Null => output := None;
        case Value(status) =>
          var endedAt := if output.Some? then output.value.endedAt else now;
          CacheOutput(status, endedAt);
      }
    }

    /** What callers see: the cached output, or a fresh truncation of the text. */
    method CurrentOutput() returns (text: seq<byte>, truncated: bool, status: Option<string>)
      ensures Coherent(Model()) ==> text == Truncated(content, limit)
      ensures Coherent(Model()) ==> (truncated <==> limit.Some? && |content| > limit.value)
      ensures status == if output.Some? then Some(output.value.status) else None
    {
      if output.Some? {
        text, truncated, status := output.value.content, output.value.originalLength > |output.value.content|,
                                   Some(output.value.status);
      } else {
        var length;
        text, length := TruncatedOutput(content, limit);
        truncated, status := |text| < length, None;
      }
    }
  }

  // ----- every interleaving -----

  /** The cache agrees with the live text, and the caption with the command. */
  ghost predicate Coherent(t: Terminal) {
    && (t.output.Some? ==>
          t.output.value.content == Truncated(t.content, t.limit) && t.output.value.originalLength == |t.content|)
    && t.caption == Caption(t.command)
  }

  function Run(start: Terminal, events: seq<Event>): Terminal {
    if events == [] then start else Next(Run(start, events[..|events| - 1]), events[|events| - 1])
  }

  lemma {:induction false} FieldsKeepOutput(t: Terminal, command: Maybe<string>, cwd: Maybe<string>)
    requires t.caption == Caption(t.command)
    ensures var t' := PatchedFields(t, command, cwd);
            && t'.content == t.content && t'.limit == t.limit && t'.output == t.output
            && t'.caption == Caption(t'.command)
  {
  }

  lemma {:induction false} ExitMakesCoherent(t: Terminal, newOutput: bool, exit: Maybe<string>, now: int)
    requires t.caption == Caption(t.command) && (!newOutput && exit.Undefined? ==> Coherent(t))
    ensures Coherent(PatchedExit(t, newOutput, exit, now))
  {
  }

  lemma {:induction false} PatchStaysCoherent(t: Terminal, e: Event)
    requires Coherent(t) && e.Patch?
    ensures Coherent(Patched(t, e))
  {
    var t1 := if e.newOutput || e.exit.Value? then t.(content := e.text) else t;
    FieldsKeepOutput(t1, e.command, e.cwd);
    ExitMakesCoherent(PatchedFields(t1, e.command, e.cwd), e.newOutput, e.exit, e.now);
  }

  lemma {:induction false} StaysCoherent(t: Terminal, e: Event)
    requires Coherent(t)
    ensures Coherent(Next(t, e))
  {
    if e.Patch? {
      PatchStaysCoherent(t, e);
    }
  }

  /** Whatever legacy events and v2 patches come in whatever order, the cached output equals a fresh truncation. */
  lemma {:induction false} AlwaysCoherent(
    title: Option<string>, workingDir: Option<string>, limit: Option<nat>, events: seq<Event>)
    ensures Coherent(Run(NewDisplay(title, workingDir, limit), events))
  {
    if events != [] {
      AlwaysCoherent(title, workingDir, limit, events[..|events| - 1]);
      StaysCoherent(Run(NewDisplay(title, workingDir, limit), events[..|events| - 1]), events[|events| - 1]);
    }
  }

  predicate ClearsExit(e: Event) {
    e.Patch? && e.exit.Null? && (!e.newOutput || e.accepted)
  }

  predicate EndedAt(t: Terminal, at: int) {
    t.output.Some? && t.output.value.endedAt == at
  }

  lemma {:induction false} PatchKeepsEnd(t: Terminal, e: Event, at: int)
    requires EndedAt(t, at) && e.Patch? && !ClearsExit(e)
    ensures EndedAt(Patched(t, e), at)
  {
  }

  lemma {:induction false} KeepsEnd(t: Terminal, e: Event, at: int)
    requires EndedAt(t, at) && !ClearsExit(e)
    ensures EndedAt(Next(t, e), at)
  {
    if e.Patch? {
      PatchKeepsEnd(t, e, at);
    }
  }

  /** Once the terminal has ended it stays ended, with the same end time, until a patch clears its exit status. */
  lemma {:induction false} EndTimeStays(t: Terminal, events: seq<Event>, at: int)
    requires EndedAt(t, at) && forall i :: 0 <= i < |events| ==> !ClearsExit(events[i])
    ensures EndedAt(Run(t, events), at)
  {
    if events != [] {
      EndTimeStays(t, events[..|events| - 1], at);
      KeepsEnd(Run(t, events[..|events| - 1]), events[|events| - 1], at);
    }
  }

  predicate ReportsCommand(e: Event) {
    e.Patch? && !e.command.Undefined? && (!e.newOutput || e.accepted)
  }

  lemma {:induction false} KeepsReported(t: Terminal, e: Event)
    requires t.command.Reported?
    ensures Next(t, e).command == if ReportsCommand(e) then Reported(FromMaybe(e.command)) else t.command
  {
  }

  /** A command that a v2 patch reported, even as absent, is never replaced by a legacy label. */
  lemma {:induction false} ReportedCommandStays(t: Terminal, events: seq<Event>)
    requires t.command.Reported? && forall i :: 0 <= i < |events| ==> !ReportsCommand(events[i])
    ensures Run(t, events).command == t.command
  {
    if events != [] {
      ReportedCommandStays(t, events[..|events| - 1]);
      KeepsReported(Run(t, events[..|events| - 1]), events[|events| - 1]);
    }
  }

  predicate HasStatus(t: Terminal, status: string) {
    t.output.Some? && t.output.value.status == status
  }

  /** Of an ended terminal only patches change the exit status: a legacy exit comes too late. */
  lemma {:induction false} LegacyExitComesTooLate(t: Terminal, events: seq<Event>, status: string)
    requires HasStatus(t, status) && forall i :: 0 <= i < |events| ==> !events[i].Patch?
    ensures HasStatus(Run(t, events), status)
  {
    if events != [] {
      LegacyExitComesTooLate(t, events[..|events| - 1], status);
    }
  }
}
