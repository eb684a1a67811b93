/**
 * The shell's side of the control pipe: two optional surface processes, each with a `visible` flag, and
 * the agreement of those flags with what the processes make of the lines they have read.
 */
module ControlChannel {
  import opened Text
  import opened ControlLines

  /** A line written to a process, with the process's `visible` flag once it was written. */
  datatype Entry = Entry(line: Line, visible: bool)

  type Log = seq<Entry>

  function FlagAt(log: Log, k: nat): bool
    requires k <= |log|
  {
    k > 0 && log[k - 1].visible
  }

  function Visible(log: Log): bool {
    FlagAt(log, |log|)
  }

  /** Showing and hiding set the flag, everything else leaves it. */
  function FlagAfter(before: bool, line: Line): bool {
    if line.Show? || line.ShowQuickSettings? || line.ShowSettings? then true
    else if line.Hide? then false
    else before
  }

  function Append(log: Log, line: Line): (r: Log)
    ensures Consistent(log) && IsPrintable(line) ==> Consistent(r)
  {
    log + [Entry(line, FlagAfter(Visible(log), line))]
  }

  predicate Consistent(log: Log) {
    forall k :: 0 <= k < |log| ==>
      IsPrintable(log[k].line) && log[k].visible == FlagAfter(FlagAt(log, k), log[k].line)
  }

  /** Everything written to the pipe. */
  function Stream(log: Log): string {
    if log == [] then "" else Stream(log[..|log| - 1]) + Print(log[|log| - 1].line)
  }

  // ----- One process -----

  /** How a write ends: complete, or failed after some bytes. */
  datatype Outcome = Written | Failed(bytes: nat)

  class WebProcess {
    var control: string
    var visible: bool
    ghost var log: Log

    ghost predicate Valid()
      reads this
    {
      control == Stream(log) && visible == Visible(log) && Consistent(log)
    }

    constructor ()
      ensures Valid() && log == []
    {
      control, visible, log := "", false, [];
    }

    /** Writes and flushes one line. */
    method Send(line: Line, outcome: Outcome) returns (ok: bool)
      modifies `control
      ensures ok == outcome.Written?
      ensures ok ==> control == old(control) + Print(line)
    {
      var text := Print(line);
      ok := outcome.Written?;
      control := control + if ok || outcome.bytes >= |text| then text else text[..outcome.bytes];
    }

    method SetVisible(visible: bool, outcome: Outcome) returns (ok: bool)
      requires Valid()
      modifies this
      ensures ok == outcome.Written?
      ensures ok ==> Valid() && log == Append(old(log), if visible then Show else Hide) && this.visible == visible
      ensures !ok ==> log == old(log) && this.visible == old(this.visible)
    {
      var line := if visible then Show else Hide;
      ok := Send(line, outcome);
      if ok {
        this.visible := visible;
        log := Append(log, line);
        StreamAppend(old(log), line);
      }
    }

    /** `show_settings` and `show_with_snapshot`. */
    method ShowWith(line: Line, outcome: Outcome) returns (ok: bool)
      requires Valid() && IsPrintable(line) && (line.ShowSettings? || line.ShowQuickSettings?)
      modifies this
      ensures ok == outcome.Written?
      ensures ok ==> Valid() && log == Append(old(log), line) && visible
      ensures !ok ==> log == old(log) && visible == old(visible)
    {
      ok := Send(line, outcome);
      if ok {
        visible := true;
        log := Append(log, line);
        StreamAppend(old(log), line);
      }
    }

    /** `update_appearance`, `update_settings`, `update_snapshot` and `set_theme`. */
    method SendQuietly(line: Line, outcome: Outcome) returns (ok: bool)
      requires Valid() && IsPrintable(line)
      requires line.Appearance? || line.Settings? || line.Update? || line.SetTheme?
      modifies this
      ensures ok == outcome.Written?
      ensures ok ==> Valid() && log == Append(old(log), line) && visible == old(visible)
      ensures !ok ==> log == old(log) && visible == old(visible)
    {
      ok := Send(line, outcome);
      if ok {
        log := Append(log, line);
        StreamAppend(old(log), line);
      }
    }
  }

  lemma {:induction false} StreamAppend(log: Log, line: Line)
    ensures Stream(Append(log, line)) == Stream(log) + Print(line)
  {
    var longer := Append(log, line);
    assert longer[..|longer| - 1] == log;
  }

  // ----- The shell's two slots -----

  datatype Slot = Empty | Running(log: Log)

  /** What the system answers: is the process alive, does a spawn succeed, how do the writes end. */
  datatype Env = Env(alive: bool, spawned: bool, first: Outcome, second: Outcome)

  /** A write to a process the shell keeps only if the write succeeds. */
  function Sent(log: Log, line: Line, outcome: Outcome): Slot {
    if outcome.Written? then Running(Append(log, line)) else Empty
  }

  function Spawned(env: Env, line: Line): Slot {
    if env.spawned then Sent([], line, env.first) else Empty
  }

  /** Settings first, so that the surface is primed, then show. */
  function ToggleLauncher(slot: Slot, env: Env, settings: string): Slot {
    if slot.Running? && env.alive then
      Sent(slot.log, if Visible(slot.log) then Hide else Show, env.first)
    else if Spawned(env, Settings(settings)).Running? then
      Sent(Spawned(env, Settings(settings)).log, Show, env.second)
    else Empty
  }

  function PrewarmLauncher(slot: Slot, env: Env, enabled: bool, settings: string): Slot {
    if !enabled || slot.Running? then slot else Spawned(env, Settings(settings))
  }

  function PrewarmQuickSettings(slot: Slot, env: Env, enabled: bool): Slot {
    if !enabled || slot.Running? then slot
    else if env.spawned then Running([]) else Empty
  }

  function ShowSystemSettings(slot: Slot, env: Env, settings: string): Slot {
    if slot.Running? && env.alive then Sent(slot.log, ShowSettings(settings), env.first)
    else Spawned(env, ShowSettings(settings))
  }

  function ToggleQuickSettings(slot: Slot, env: Env, snapshot: string): Slot {
    if slot.Running? && env.alive then
      Sent(slot.log, if Visible(slot.log) then Hide else ShowQuickSettings(snapshot), env.first)
    else Spawned(env, ShowQuickSettings(snapshot))
  }

  function HideQuickSettings(slot: Slot, outcome: Outcome): Slot {
    if slot.Running? && Visible(slot.log) then Sent(slot.log, Hide, outcome) else slot
  }

  function RefreshQuickSettings(slot: Slot, env: Env, snapshot: string): Slot {
    if slot.Running? && Visible(slot.log) && env.alive then Sent(slot.log, Update(snapshot), env.first) else slot
  }

  /** `refresh_web_appearance` and `refresh_web_settings`. */
  function RefreshLauncher(slot: Slot, env: Env, line: Line): Slot {
    if slot.Running? && env.alive then Sent(slot.log, line, env.first) else slot
  }

  function SyncTheme(slot: Slot, theme: Theme, outcome: Outcome): Slot {
    if slot.Running? then Sent(slot.log, SetTheme(theme), outcome) else slot
  }

  class WebShell {
    var launcher: WebProcess?
    var quick: WebProcess?
    var panelEnabled: bool

    ghost predicate Valid()
      reads this, launcher, quick
    {
      && (launcher != null ==> launcher.Valid() && launcher != quick)
      && (quick != null ==> quick.Valid())
    }

    ghost function LauncherSlot(): Slot
      reads this, launcher
    {
      if launcher == null then Empty else Running(launcher.log)
    }

    ghost function QuickSlot(): Slot
      reads this, quick
    {
      if quick == null then Empty else Running(quick.log)
    }

    constructor (panelEnabled: bool)
      ensures Valid() && LauncherSlot() == Empty && QuickSlot() == Empty
    {
      launcher, quick, this.panelEnabled := null, null, panelEnabled;
    }

    method PrewarmWebLauncher(env: Env, settings: string)
      requires Valid() && IsSnapshot(settings)
      modifies this
      ensures Valid() && QuickSlot() == old(QuickSlot())
      ensures LauncherSlot() == PrewarmLauncher(old(LauncherSlot()), env, panelEnabled, settings)
      ensures panelEnabled == old(panelEnabled)
    {
      hide Consistent, Stream, Append;
      if !panelEnabled || launcher != null {
        return;
      }
      if env.spawned {
        var process := new WebProcess();
        var ok := process.SendQuietly(Settings(settings), env.first);
        if !ok {
          return;
        }
        launcher := process;
      }
    }

    method ToggleWebLauncher(env: Env, settings: string)
      requires Valid() && IsSnapshot(settings)
      modifies this, launcher
      ensures Valid() && QuickSlot() == old(QuickSlot())
      ensures LauncherSlot() == ToggleLauncher(old(LauncherSlot()), env, settings)
    {
      hide Consistent, Stream, Append;
      if launcher != null && env.alive {
        var visible := !launcher.visible;
        var ok := launcher.SetVisible(visible, env.first);
        if !ok {
          launcher := null;
        }
        return;
      }
      launcher := null;
      if env.spawned {
        var process := new WebProcess();
        var ok := process.SendQuietly(Settings(settings), env.first);
        if ok {
          ok := process.SetVisible(true, env.second);
        }
        if ok {
          launcher := process;
        }
      }
    }

    method PrewarmWebQuickSettings(env: Env)
      requires Valid()
      modifies this
      ensures Valid() && LauncherSlot() == old(LauncherSlot())
      ensures QuickSlot() == PrewarmQuickSettings(old(QuickSlot()), env, panelEnabled)
    {
      hide Consistent, Stream, Append;
      if !panelEnabled || quick != null {
        return;
      }
      if env.spawned {
        quick := new WebProcess();
      }
    }

    /** `hiding` is how the write that hides Quick Settings ends. */
    method OpenWebSystemSettings(env: Env, hiding: Outcome, settings: string)
      requires Valid() && IsSnapshot(settings)
      modifies this, launcher, quick
      ensures Valid()
      ensures QuickSlot() == HideQuickSettings(old(QuickSlot()), hiding)
      ensures LauncherSlot() == ShowSystemSettings(old(LauncherSlot()), env, settings)
    {
      hide Consistent, Stream, Append;
      HideWebQuickSettings(hiding);
      var running := launcher != null && env.alive;
      if !running {
        launcher := null;
      }
      if launcher != null {
        var ok := launcher.ShowWith(ShowSettings(settings), env.first);
        if !ok {
          launcher := null;
        }
        return;
      }
      if env.spawned {
        var process := new WebProcess();
        var ok := process.ShowWith(ShowSettings(settings), env.first);
        if ok {
          launcher := process;
        }
      }
    }

    method ToggleWebQuickSettings(env: Env, snapshot: string)
      requires Valid() && IsSnapshot(snapshot)
      modifies this, quick
      ensures Valid() && LauncherSlot() == old(LauncherSlot())
      ensures QuickSlot() == ToggleQuickSettings(old(QuickSlot()), env, snapshot)
    {
      hide Consistent, Stream, Append;
      var running := quick != null && env.alive;
      if !running {
        quick := null;
      }
      if quick != null && quick.visible {
        var ok := quick.SetVisible(false, env.first);
        if !ok {
          quick := null;
        }
        return;
      }
      if quick != null {
        var ok := quick.ShowWith(ShowQuickSettings(snapshot), env.first);
        if !ok {
          quick := null;
        }
        return;
      }
      if env.spawned {
        var process := new WebProcess();
        var ok := process.ShowWith(ShowQuickSettings(snapshot), env.first);
        if ok {
          quick := process;
        }
      }
    }

    method HideWebQuickSettings(outcome: Outcome)
      requires Valid()
      modifies this, quick
      ensures Valid() && launcher == old(launcher) && LauncherSlot() == old(LauncherSlot())
      ensures quick == null || quick == old(quick)
      ensures QuickSlot() == HideQuickSettings(old(QuickSlot()), outcome)
    {
      hide Consistent, Stream, Append;
      if quick == null || !quick.visible {
        return;
      }
      var ok := quick.SetVisible(false, outcome);
      if !ok {
        quick := null;
      }
    }

    method RefreshWebQuickSettings(env: Env, snapshot: string)
      requires Valid() && IsSnapshot(snapshot)
      modifies this, quick
      ensures Valid() && LauncherSlot() == old(LauncherSlot())
      ensures QuickSlot() == RefreshQuickSettings(old(QuickSlot()), env, snapshot)
    {
      hide Consistent, Stream, Append;
      if quick == null || !quick.visible || !env.alive {
        return;
      }
      var ok := quick.SendQuietly(Update(snapshot), env.first);
      if !ok {
        quick := null;
      }
    }

    method RefreshWebLauncher(env: Env, line: Line)
      requires Valid() && IsPrintable(line) && (line.Appearance? || line.Settings?)
      modifies this, launcher
      ensures Valid() && QuickSlot() == old(QuickSlot())
      ensures LauncherSlot() == RefreshLauncher(old(LauncherSlot()), env, line)
    {
      hide Consistent, Stream, Append;
      if launcher == null || !env.alive {
        return;
      }
      var ok := launcher.SendQuietly(line, env.first);
      if !ok {
        launcher := null;
      }
    }

    method SyncWebTheme(theme: Theme, first: Outcome, second: Outcome)
      requires Valid()
      modifies this, launcher, quick
      ensures Valid()
      ensures LauncherSlot() == SyncTheme(old(LauncherSlot()), theme, first)
      ensures QuickSlot() == SyncTheme(old(QuickSlot()), theme, second)
    {
      hide Consistent, Stream, Append;
      if launcher != null {
        var ok := launcher.SendQuietly(SetTheme(theme), first);
        if !ok {
          launcher := null;
        }
      }
      if quick != null {
        var ok := quick.SendQuietly(SetTheme(theme), second);
        if !ok {
          quick := null;
        }
      }
    }
  }

  // ----- Agreement of one log with its process -----

  /** The surface the lines of a log lead to, applied one by one. */
  function Applied(checks: Checks, log: Log): Surface {
    if log == [] then HIDDEN
    else Apply(checks, Meaning(log[|log| - 1].line), Applied(checks, log[..|log| - 1]))
  }

  /** Reading the pipe line by line recovers the lines as they were written. */
  lemma {:induction false} ConsumedIsApplied(checks: Checks, log: Log, k: nat)
    requires Consistent(log) && k <= |log|
    ensures Consumed(checks, Stream(log), HIDDEN, k) == Applied(checks, log[..k])
  {
    NothingWritten(checks);
    hide *;
    ConsumedFrom(checks, log, 0, k);
    StreamSplits(log, 0);
    assert log[..0] == [] && "" + StreamFrom(log, 0) == StreamFrom(log, 0);
  }

  lemma NothingWritten(checks: Checks)
    ensures Stream([]) == "" && Applied(checks, []) == HIDDEN
  {
  }

  /** What is left in the pipe after `i` lines. */
  function StreamFrom(log: Log, i: nat): string
    requires i <= |log|
    decreases |log| - i
  {
    if i == |log| then "" else Print(log[i].line) + StreamFrom(log, i + 1)
  }

  lemma {:induction false} StreamSplits(log: Log, i: nat)
    requires i <= |log|
    ensures Stream(log[..i]) + StreamFrom(log, i) == Stream(log)
    decreases |log| - i
  {
    hide Print;
    if i == |log| {
      assert log[..i] == log;
    } else {
      assert log[..i + 1][..i] == log[..i];
      StreamSplits(log, i + 1);
      assert Stream(log[..i]) + (Print(log[i].line) + StreamFrom(log, i + 1))
          == Stream(log[..i]) + Print(log[i].line) + StreamFrom(log, i + 1);
    }
  }

  lemma {:induction false} ConsumedFrom(checks: Checks, log: Log, i: nat, n: nat)
    requires Consistent(log) && i + n <= |log|
    ensures Consumed(checks, StreamFrom(log, i), Applied(checks, log[..i]), n) == Applied(checks, log[..i + n])
    decreases n
  {
    hide *;
    if n == 0 {
      ConsumedNone(checks, StreamFrom(log, i), Applied(checks, log[..i]));
    } else {
      NextInPipe(log, i);
      AppliedNext(checks, log, i);
      ConsumedNext(checks, StreamFrom(log, i), Applied(checks, log[..i]), n);
      ConsumedFrom(checks, log, i + 1, n - 1);
    }
  }

  lemma {:induction false} NextInPipe(log: Log, i: nat)
    requires Consistent(log) && i < |log|
    ensures
      var stream := StreamFrom(log, i);
      && stream != "" && Parse(FirstLine(stream)) == Meaning(log[i].line)
      && stream[|FirstLine(stream)|..] == StreamFrom(log, i + 1)
  {
    var line := log[i].line;
    BodyEndsVisibly(line);
    FirstLineOf(Body(line), StreamFrom(log, i + 1));
    assert StreamFrom(log, i) == Body(line) + "\n" + StreamFrom(log, i + 1);
    ParsePrint(line);
  }

  lemma {:induction false} AppliedNext(checks: Checks, log: Log, i: nat)
    requires i < |log|
    ensures Applied(checks, log[..i + 1]) == Apply(checks, Meaning(log[i].line), Applied(checks, log[..i]))
  {
    assert log[..i + 1][..i] == log[..i];
  }

  lemma {:induction false} ConsumedNone(checks: Checks, stream: string, surface: Surface)
    ensures Consumed(checks, stream, surface, 0) == surface
  {
  }

  lemma {:induction false} ConsumedNext(checks: Checks, stream: string, surface: Surface, n: nat)
    requires n > 0 && stream != ""
    ensures Consumed(checks, stream, surface, n)
         == Consumed(checks, stream[|FirstLine(stream)|..], Apply(checks, Parse(FirstLine(stream)), surface), n - 1)
  {
  }

  function Shown(visible: bool): Surface {
    if visible then Surface(true, true) else HIDDEN
  }

  /**
   * After any prefix of the lines has been consumed, the process shows its surface exactly if the shell's
   * flag was set when the last line of that prefix had been written.
   */
  ghost predicate Agrees(checks: Checks, log: Log) {
    forall k :: 0 <= k <= |log| ==> Consumed(checks, Stream(log), HIDDEN, k) == Shown(FlagAt(log, k))
  }

  /** The process refuses the snapshot that came with a request to show. */
  predicate ShowRefused(checks: Checks, line: Line) {
    || (line.ShowQuickSettings? && !checks.quickSettings(line.snapshot))
    || (line.ShowSettings? && !checks.settings(line.snapshot))
  }

  predicate NoRefusalWhileHidden(checks: Checks, log: Log) {
    forall k :: 0 <= k < |log| ==> !(ShowRefused(checks, log[k].line) && !FlagAt(log, k))
  }

  lemma {:induction false} AppliedAgrees(checks: Checks, log: Log, k: nat)
    requires Consistent(log) && NoRefusalWhileHidden(checks, log) && k <= |log|
    ensures Applied(checks, log[..k]) == Shown(FlagAt(log, k))
    decreases k
  {
    if k > 0 {
      AppliedAgrees(checks, log, k - 1);
      assert log[..k][..k - 1] == log[..k - 1];
      ApplyMeaning(checks, log[k - 1].line, Applied(checks, log[..k - 1]));
    }
  }

  lemma {:induction false} ApplyMeaning(checks: Checks, line: Line, surface: Surface)
    ensures Apply(checks, Meaning(line), surface)
         == if ShowRefused(checks, line) then surface
            else if line.Show? || line.ShowQuickSettings? || line.ShowSettings? then Surface(true, true)
            else if line.Hide? then HIDDEN
            else surface
  {
  }

  /** Agreement, exactly: no request to show was refused while the shell's flag was down. */
  lemma {:induction false} AgreesIff(checks: Checks, log: Log)
    requires Consistent(log)
    ensures Agrees(checks, log) <==> NoRefusalWhileHidden(checks, log)
  {
    if NoRefusalWhileHidden(checks, log) {
      forall k | 0 <= k <= |log| ensures Consumed(checks, Stream(log), HIDDEN, k) == Shown(FlagAt(log, k)) {
        ConsumedIsApplied(checks, log, k);
        AppliedAgrees(checks, log, k);
      }
    } else {
      var k :| 0 <= k < |log| && ShowRefused(checks, log[k].line) && !FlagAt(log, k);
      RefusedIsHidden(checks, log, k);
      hide Consumed, Consistent, Stream, ShowRefused;
      assert FlagAt(log, k + 1) && k + 1 <= |log|;
    }
  }

  /** What a refused request to show leaves hidden the shell takes for shown. */
  lemma {:induction false} RefusedIsHidden(checks: Checks, log: Log, k: nat)
    requires Consistent(log) && k < |log| && ShowRefused(checks, log[k].line) && !FlagAt(log, k)
    ensures FlagAt(log, k + 1)
    ensures Consumed(checks, Stream(log), HIDDEN, k) == Shown(FlagAt(log, k)) ==>
      Consumed(checks, Stream(log), HIDDEN, k + 1) != Shown(FlagAt(log, k + 1))
  {
    ConsumedIsApplied(checks, log, k);
    ConsumedIsApplied(checks, log, k + 1);
    assert log[..k + 1][..k] == log[..k];
    ApplyMeaning(checks, log[k].line, Applied(checks, log[..k]));
    hide Consumed, Stream;
  }

  // ----- Whole runs of the shell -----

  datatype Shell = Shell(launcher: Slot, quick: Slot)

  datatype Step =
    | PrewarmLauncherStep(env: Env, enabled: bool, settings: string)
    | ToggleLauncherStep(env: Env, settings: string)
    | PrewarmQuickStep(env: Env, enabled: bool)
    | OpenSettingsStep(env: Env, hiding: Outcome, settings: string)
    | ToggleQuickStep(env: Env, snapshot: string)
    | HideQuickStep(hiding: Outcome)
    | RefreshQuickStep(env: Env, snapshot: string)
    | RefreshAppearanceStep(env: Env, appearance: string)
    | RefreshSettingsStep(env: Env, settings: string)
    | SyncThemeStep(theme: Theme, first: Outcome, second: Outcome)

  function Next(shell: Shell, step: Step): Shell {
    match step
    case PrewarmLauncherStep(env, enabled, settings) =>
      shell.(launcher := PrewarmLauncher(shell.launcher, env, enabled, settings))
    case ToggleLauncherStep(env, settings) =>
      shell.(launcher := ToggleLauncher(shell.launcher, env, settings))
    case PrewarmQuickStep(env, enabled) =>
      shell.(quick := PrewarmQuickSettings(shell.quick, env, enabled))
    case OpenSettingsStep(env, hiding, settings) =>
      Shell(ShowSystemSettings(shell.launcher, env, settings), HideQuickSettings(shell.quick, hiding))
    case ToggleQuickStep(env, snapshot) =>
      shell.(quick := ToggleQuickSettings(shell.quick, env, snapshot))
    case HideQuickStep(hiding) =>
      shell.(quick := HideQuickSettings(shell.quick, hiding))
    case RefreshQuickStep(env, snapshot) =>
      shell.(quick := RefreshQuickSettings(shell.quick, env, snapshot))
    case RefreshAppearanceStep(env, appearance) =>
      shell.(launcher := RefreshLauncher(shell.launcher, env, Appearance(appearance)))
    case RefreshSettingsStep(env, settings) =>
      shell.(launcher := RefreshLauncher(shell.launcher, env, Settings(settings)))
    case SyncThemeStep(theme, first, second) =>
      Shell(SyncTheme(shell.launcher, theme, first), SyncTheme(shell.quick, theme, second))
  }

  /** The snapshots the shell takes are one line of text each. */
  predicate Wellformed(step: Step) {
    && (step.PrewarmLauncherStep? || step.ToggleLauncherStep? || step.OpenSettingsStep? || step.RefreshSettingsStep?
        ==> IsSnapshot(step.settings))
    && (step.ToggleQuickStep? || step.RefreshQuickStep? ==> IsSnapshot(step.snapshot))
    && (step.RefreshAppearanceStep? ==> IsSnapshot(step.appearance))
  }

  /** The snapshots that come with a request to show pass the process's checks. */
  predicate Validates(checks: Checks, step: Step) {
    && (step.OpenSettingsStep? ==> checks.settings(step.settings))
    && (step.ToggleQuickStep? ==> checks.quickSettings(step.snapshot))
  }

  function Run(steps: seq<Step>): Shell {
    if steps == [] then Shell(Empty, Empty) else Next(Run(steps[..|steps| - 1]), steps[|steps| - 1])
  }

  predicate SlotConsistent(slot: Slot) {
    slot.Running? ==> Consistent(slot.log)
  }

  predicate SlotAccepted(checks: Checks, slot: Slot) {
    slot.Running? ==> forall k :: 0 <= k < |slot.log| ==> !ShowRefused(checks, slot.log[k].line)
  }

  lemma {:induction false} NextKeepsConsistent(shell: Shell, step: Step)
    requires SlotConsistent(shell.launcher) && SlotConsistent(shell.quick) && Wellformed(step)
    ensures SlotConsistent(Next(shell, step).launcher) && SlotConsistent(Next(shell, step).quick)
  {
    hide Consistent, IsSnapshot;
    assert Consistent([]) by { EmptyConsistent(); }
  }

  lemma EmptyConsistent()
    ensures Consistent([])
  {
  }

  lemma {:induction false} NextKeepsAccepted(checks: Checks, shell: Shell, step: Step)
    requires SlotAccepted(checks, shell.launcher) && SlotAccepted(checks, shell.quick)
    requires Validates(checks, step)
    ensures SlotAccepted(checks, Next(shell, step).launcher) && SlotAccepted(checks, Next(shell, step).quick)
  {
  }

  lemma {:induction false} RunConsistent(steps: seq<Step>)
    requires forall i :: 0 <= i < |steps| ==> Wellformed(steps[i])
    ensures SlotConsistent(Run(steps).launcher) && SlotConsistent(Run(steps).quick)
    decreases |steps|
  {
    if steps != [] {
      RunConsistent(steps[..|steps| - 1]);
      NextKeepsConsistent(Run(steps[..|steps| - 1]), steps[|steps| - 1]);
    }
  }

  lemma {:induction false} RunAccepted(checks: Checks, steps: seq<Step>)
    requires forall i :: 0 <= i < |steps| ==> Validates(checks, steps[i])
    ensures SlotAccepted(checks, Run(steps).launcher) && SlotAccepted(checks, Run(steps).quick)
    decreases |steps|
  {
    if steps != [] {
      RunAccepted(checks, steps[..|steps| - 1]);
      NextKeepsAccepted(checks, Run(steps[..|steps| - 1]), steps[|steps| - 1]);
    }
  }

  /**
   * Whatever dies, fails or is respawned along the way: if every snapshot sent to show a surface passes the
   * process's checks, each process the shell still holds agrees with the shell after every prefix it reads.
   */
  lemma {:induction false} RunsAgree(checks: Checks, steps: seq<Step>)
    requires forall i :: 0 <= i < |steps| ==> Wellformed(steps[i]) && Validates(checks, steps[i])
    ensures Run(steps).launcher.Running? ==> Agrees(checks, Run(steps).launcher.log)
    ensures Run(steps).quick.Running? ==> Agrees(checks, Run(steps).quick.log)
  {
    RunConsistent(steps);
    RunAccepted(checks, steps);
    if Run(steps).launcher.Running? { AgreesIff(checks, Run(steps).launcher.log); }
    if Run(steps).quick.Running? { AgreesIff(checks, Run(steps).quick.log); }
  }

  /** Without that assumption agreement is lost exactly where a show is refused while the flag is down. */
  lemma {:induction false} RunsAgreeIff(checks: Checks, steps: seq<Step>)
    requires forall i :: 0 <= i < |steps| ==> Wellformed(steps[i])
    ensures
      var shell := Run(steps);
      && (shell.launcher.Running? ==>
            (Agrees(checks, shell.launcher.log) <==> NoRefusalWhileHidden(checks, shell.launcher.log)))
      && (shell.quick.Running? ==>
            (Agrees(checks, shell.quick.log) <==> NoRefusalWhileHidden(checks, shell.quick.log)))
  {
    RunConsistent(steps);
    if Run(steps).launcher.Running? { AgreesIff(checks, Run(steps).launcher.log); }
    if Run(steps).quick.Running? { AgreesIff(checks, Run(steps).quick.log); }
  }

  /** Agreement is lost by the first toggle already, if the process refuses its snapshot. */
  lemma {:induction false} RefusedShowDisagrees(checks: Checks, snapshot: string, second: Outcome)
    requires IsSnapshot(snapshot) && !checks.quickSettings(snapshot)
    ensures
      var shell := Run([ToggleQuickStep(Env(true, true, Written, second), snapshot)]);
      && shell.quick.Running? && Visible(shell.quick.log)
      && Seen(checks, shell.quick.log) == HIDDEN
      && !Agrees(checks, shell.quick.log)
  {
    var step := ToggleQuickStep(Env(true, true, Written, second), snapshot);
    OneStep(step);
    var log := Append([], ShowQuickSettings(snapshot));
    assert Run([step]).quick == Running(log);
    RefusedLog(checks, snapshot, log);
    hide Run, Seen, Agrees, Visible;
  }

  lemma {:induction false} RefusedLog(checks: Checks, snapshot: string, log: Log)
    requires IsSnapshot(snapshot) && !checks.quickSettings(snapshot) && log == Append([], ShowQuickSettings(snapshot))
    ensures Visible(log) && Seen(checks, log) == HIDDEN && !Agrees(checks, log)
  {
    EmptyConsistent();
    assert log[0].line == ShowQuickSettings(snapshot) && !FlagAt(log, 0);
    AgreesIff(checks, log);
    ConsumedIsApplied(checks, log, 1);
    assert log[..1] == log && log[..0] == [];
    ApplyMeaning(checks, log[0].line, HIDDEN);
  }

  lemma {:induction false} OneStep(step: Step)
    ensures Run([step]) == Next(Shell(Empty, Empty), step)
  {
    assert [step][..0] == [];
  }

  // ----- What the steps are for -----

  predicate SlotVisible(slot: Slot) {
    slot.Running? && Visible(slot.log)
  }

  /** What each step does to the two surfaces, for the processes the shell still holds afterwards. */
  lemma {:induction false} StepEffects(shell: Shell, step: Step)
    ensures
      var l, q := shell.launcher, shell.quick;
      var l', q' := Next(shell, step).launcher, Next(shell, step).quick;
      match step
      case ToggleLauncherStep(env, _) =>
        q' == q && (l'.Running? ==> (Visible(l'.log) <==> !(l.Running? && env.alive && Visible(l.log))))
      case ToggleQuickStep(env, _) =>
        l' == l && (q'.Running? ==> (Visible(q'.log) <==> !(q.Running? && env.alive && Visible(q.log))))
      case OpenSettingsStep(env, _, _) =>
        !SlotVisible(q') && (q.Empty? ==> q'.Empty?) && (l'.Running? ==> Visible(l'.log))
      case HideQuickStep(_) =>
        l' == l && !SlotVisible(q') && (q.Running? && !Visible(q.log) ==> q' == q)
      case PrewarmLauncherStep(_, enabled, _) =>
        q' == q && (l.Running? || !enabled ==> l' == l) && (l.Empty? ==> !SlotVisible(l'))
      case PrewarmQuickStep(_, enabled) =>
        l' == l && (q.Running? || !enabled ==> q' == q) && (q.Empty? ==> !SlotVisible(q'))
      case RefreshQuickStep(_, _) => l' == l && (q'.Running? ==> q.Running? && Visible(q'.log) == Visible(q.log))
      case RefreshAppearanceStep(_, _) => q' == q && (l'.Running? ==> l.Running? && Visible(l'.log) == Visible(l.log))
      case RefreshSettingsStep(_, _) => q' == q && (l'.Running? ==> l.Running? && Visible(l'.log) == Visible(l.log))
      case SyncThemeStep(_, _, _) =>
        && (l'.Running? ==> l.Running? && Visible(l'.log) == Visible(l.log))
        && (q'.Running? ==> q.Running? && Visible(q'.log) == Visible(q.log))
  {
  }

  /** The process holds on to its record and got one more line. */
  predicate GotLine(before: Log, slot: Slot, line: Line) {
    slot.Running? && |slot.log| == |before| + 1 && slot.log[..|before|] == before && slot.log[|before|].line == line
  }

  /** A live process is kept exactly if the line can be written to it. */
  predicate WrittenTo(before: Slot, after: Slot, line: Line, outcome: Outcome)
    requires before.Running?
  {
    (after.Running? <==> outcome.Written?) && (after.Running? ==> GotLine(before.log, after, line))
  }

  /** A new process is kept exactly if it starts and gets its line. */
  predicate StartedWith(after: Slot, line: Line, env: Env) {
    (after.Running? <==> env.spawned && env.first.Written?) && (after.Running? ==> GotLine([], after, line))
  }

  /** For every action, exactly when there is a launcher afterwards, old or new, and which lines it was sent. */
  lemma {:induction false} LauncherAfter(shell: Shell, step: Step)
    ensures
      var l, l' := shell.launcher, Next(shell, step).launcher;
      match step
      case PrewarmLauncherStep(env, enabled, settings) =>
        if enabled && l.Empty? then StartedWith(l', Settings(settings), env) else l' == l
      case ToggleLauncherStep(env, settings) =>
        if l.Running? && env.alive then
          WrittenTo(l, l', if Visible(l.log) then Hide else Show, env.first)
        else
          && (l'.Running? <==> env.spawned && env.first.Written? && env.second.Written?)
          && (l'.Running? ==> |l'.log| == 2 && l'.log[0].line == Settings(settings) && l'.log[1].line == Show)
      case OpenSettingsStep(env, _, settings) =>
        if l.Running? && env.alive then WrittenTo(l, l', ShowSettings(settings), env.first)
        else StartedWith(l', ShowSettings(settings), env)
      case RefreshAppearanceStep(env, appearance) =>
        if l.Running? && env.alive then WrittenTo(l, l', Appearance(appearance), env.first) else l' == l
      case RefreshSettingsStep(env, settings) =>
        if l.Running? && env.alive then WrittenTo(l, l', Settings(settings), env.first) else l' == l
      case SyncThemeStep(theme, first, _) =>
        if l.Running? then WrittenTo(l, l', SetTheme(theme), first) else l' == l
      case _ => l' == l
  {
  }

  /** The same for Quick Settings. */
  lemma {:induction false} QuickSettingsAfter(shell: Shell, step: Step)
    ensures
      var q, q' := shell.quick, Next(shell, step).quick;
      match step
      case PrewarmQuickStep(env, enabled) =>
        if enabled && q.Empty? then (q'.Running? <==> env.spawned) && (q'.Running? ==> q'.log == []) else q' == q
      case ToggleQuickStep(env, snapshot) =>
        if q.Running? && env.alive then
          WrittenTo(q, q', if Visible(q.log) then Hide else ShowQuickSettings(snapshot), env.first)
        else StartedWith(q', ShowQuickSettings(snapshot), env)
      case OpenSettingsStep(_, hiding, _) =>
        if SlotVisible(q) then WrittenTo(q, q', Hide, hiding) else q' == q
      case HideQuickStep(hiding) =>
        if SlotVisible(q) then WrittenTo(q, q', Hide, hiding) else q' == q
      case RefreshQuickStep(env, snapshot) =>
        if SlotVisible(q) && env.alive then WrittenTo(q, q', Update(snapshot), env.first) else q' == q
      case SyncThemeStep(theme, _, second) =>
        if q.Running? then WrittenTo(q, q', SetTheme(theme), second) else q' == q
      case _ => q' == q
  {
  }

  /** What the process behind a slot shows once it has read everything. */
  function Seen(checks: Checks, log: Log): Surface {
    Consumed(checks, Stream(log), HIDDEN, |log|)
  }

  predicate IsShown(checks: Checks, slot: Slot) {
    slot.Running? && Seen(checks, slot.log) == Surface(true, true)
  }

  lemma CaughtUp(checks: Checks, log: Log)
    requires Agrees(checks, log)
    ensures Seen(checks, log) == Shown(Visible(log))
  {
  }

  lemma {:induction false} ShownIsVisible(checks: Checks, slot: Slot)
    requires slot.Running? ==> Agrees(checks, slot.log)
    ensures IsShown(checks, slot) <==> SlotVisible(slot)
    ensures slot.Running? ==> Seen(checks, slot.log) == Shown(IsShown(checks, slot))
  {
    if slot.Running? { CaughtUp(checks, slot.log); }
  }

  /**
   * Every action works end to end.  After any validated run and one action more, what the processes the shell
   * still holds show, once they have read everything, is: for a toggle the opposite of what was shown, a dead
   * process counting as hidden; for opening the settings the launcher and not Quick Settings; after hiding or
   * priming nothing new; and after updates and themes what was shown before.
   */
  lemma {:induction false} ActionsAreSeen(checks: Checks, steps: seq<Step>, step: Step)
    requires forall i :: 0 <= i < |steps| ==> Wellformed(steps[i]) && Validates(checks, steps[i])
    requires Wellformed(step) && Validates(checks, step)
    ensures
      var l, q := Run(steps).launcher, Run(steps).quick;
      var l', q' := Next(Run(steps), step).launcher, Next(Run(steps), step).quick;
      && (l'.Running? ==> Seen(checks, l'.log) == Shown(IsShown(checks, l')))
      && (q'.Running? ==> Seen(checks, q'.log) == Shown(IsShown(checks, q')))
      && match step
         case ToggleLauncherStep(env, _) =>
           q' == q && (l'.Running? ==> (IsShown(checks, l') <==> !(IsShown(checks, l) && env.alive)))
         case ToggleQuickStep(env, _) =>
           l' == l && (q'.Running? ==> (IsShown(checks, q') <==> !(IsShown(checks, q) && env.alive)))
         case OpenSettingsStep(_, _, _) =>
           !IsShown(checks, q') && (l'.Running? ==> IsShown(checks, l'))
         case HideQuickStep(_) =>
           l' == l && !IsShown(checks, q')
         case PrewarmLauncherStep(_, _, _) =>
           q' == q && (IsShown(checks, l') <==> IsShown(checks, l))
         case PrewarmQuickStep(_, _) =>
           l' == l && (IsShown(checks, q') <==> IsShown(checks, q))
         case RefreshQuickStep(_, _) =>
           l' == l && (q'.Running? ==> (IsShown(checks, q') <==> IsShown(checks, q)))
         case RefreshAppearanceStep(_, _) =>
           q' == q && (l'.Running? ==> (IsShown(checks, l') <==> IsShown(checks, l)))
         case RefreshSettingsStep(_, _) =>
           q' == q && (l'.Running? ==> (IsShown(checks, l') <==> IsShown(checks, l)))
         case SyncThemeStep(_, _, _) =>
           && (l'.Running? ==> (IsShown(checks, l') <==> IsShown(checks, l)))
           && (q'.Running? ==> (IsShown(checks, q') <==> IsShown(checks, q)))
  {
    var before, after := Run(steps), Next(Run(steps), step);
    StepEffects(before, step);
    RunsAgree(checks, steps);
    RunExtended(checks, steps, step);
    hide Next, Agrees, Wellformed, Validates, IsShown, Seen, Run, Consumed, Visible, Consistent;
    ShownIsVisible(checks, before.launcher);
    ShownIsVisible(checks, before.quick);
    ShownIsVisible(checks, after.launcher);
    ShownIsVisible(checks, after.quick);
  }

  lemma {:induction false} RunExtended(checks: Checks, steps: seq<Step>, step: Step)
    requires forall i :: 0 <= i < |steps| ==> Wellformed(steps[i]) && Validates(checks, steps[i])
    requires Wellformed(step) && Validates(checks, step)
    ensures
      var after := Next(Run(steps), step);
      && (after.launcher.Running? ==> Agrees(checks, after.launcher.log))
      && (after.quick.Running? ==> Agrees(checks, after.quick.log))
  {
    var more := steps + [step];
    assert more[..|more| - 1] == steps;
    RunsAgree(checks, more);
  }

  /** When nothing fails: a toggle flips what is shown, and opening the settings shows the launcher alone. */
  lemma {:induction false} WorkingActionsAreSeen(checks: Checks, steps: seq<Step>, step: Step)
    requires forall i :: 0 <= i < |steps| ==> Wellformed(steps[i]) && Validates(checks, steps[i])
    requires Wellformed(step) && Validates(checks, step)
    requires step.ToggleLauncherStep? || step.ToggleQuickStep? || step.OpenSettingsStep?
    requires step.env.spawned && step.env.first.Written? && step.env.second.Written?
    ensures
      var l, q := Run(steps).launcher, Run(steps).quick;
      var l', q' := Next(Run(steps), step).launcher, Next(Run(steps), step).quick;
      match step
      case ToggleLauncherStep(env, _) =>
        l'.Running? && q' == q && (IsShown(checks, l') <==> !(IsShown(checks, l) && env.alive))
      case ToggleQuickStep(env, _) =>
        q'.Running? && l' == l && (IsShown(checks, q') <==> !(IsShown(checks, q) && env.alive))
      case _ =>
        IsShown(checks, l') && !IsShown(checks, q')
  {
    ActionsAreSeen(checks, steps, step);
    LauncherAfter(Run(steps), step);
    QuickSettingsAfter(Run(steps), step);
    hide Next, IsShown, Run, Wellformed, Validates, GotLine;
  }
}
