/**
 * When the lines of a control pipe take effect.
 *
 * The process is called back while the pipe has something to read, reads one line and returns.  But it reads
 * through a buffer, which takes everything out of the pipe at once: lines that came along stay in the buffer,
 * and nobody calls back for them until something more is written.
 */
module ControlReader {
  import opened ControlChannel
  import opened ControlLines
  import opened Text

  /** The process: what is in the pipe and in its buffer, what it shows, and how many lines it has read. */
  datatype Host = Host(pipe: string, buffer: string, surface: Surface, read: nat)

  const STARTED := Host("", "", HIDDEN, 0)

  function Write(h: Host, line: Line): Host {
    h.(pipe := h.pipe + Print(line))
  }

  /** A callback; there is none while the pipe is empty. */
  function Call(checks: Checks, h: Host): Host {
    if h.pipe == "" then h
    else
      var got := ReadLine(h.buffer, h.pipe);
      Host(got.pipe, got.buffer, Apply(checks, Parse(got.line), h.surface), h.read + 1)
  }

  /** Nothing happens any more until the shell writes again. */
  predicate AtRest(h: Host) {
    h.pipe == ""
  }

  datatype Happening = LineWritten(line: Line) | CalledBack

  function Reached(checks: Checks, happenings: seq<Happening>): Host {
    if happenings == [] then STARTED
    else
      var before := Reached(checks, happenings[..|happenings| - 1]);
      match happenings[|happenings| - 1]
      case LineWritten(line) => Write(before, line)
      case CalledBack => Call(checks, before)
  }

  /** The lines written, with the shell's flag. */
  function LogOf(happenings: seq<Happening>): Log {
    if happenings == [] then []
    else
      var before := LogOf(happenings[..|happenings| - 1]);
      match happenings[|happenings| - 1]
      case LineWritten(line) => Append(before, line)
      case CalledBack => before
  }

  predicate AllPrintable(happenings: seq<Happening>) {
    forall i :: 0 <= i < |happenings| && happenings[i].LineWritten? ==> IsPrintable(happenings[i].line)
  }

  // ----- The process follows the log -----

  /** The first `read` lines are applied; the others are in the buffer and the pipe, in order. */
  ghost predicate Follows(checks: Checks, log: Log, h: Host) {
    && Consistent(log) && h.read <= |log|
    && h.buffer + h.pipe == StreamFrom(log, h.read)
    && h.surface == Applied(checks, log[..h.read])
  }

  lemma {:induction false} StreamGrows(log: Log, line: Line, i: nat)
    requires i <= |log|
    ensures StreamFrom(Append(log, line), i) == StreamFrom(log, i) + Print(line)
  {
    var longer := Append(log, line);
    StreamGrowsTo(log, longer, i);
    assert longer[|log|].line == line;
    hide *;
  }

  lemma {:induction false} StreamGrowsTo(log: Log, longer: Log, i: nat)
    requires i <= |log| && |longer| == |log| + 1 && longer[..|log|] == log
    ensures StreamFrom(longer, i) == StreamFrom(log, i) + Print(longer[|log|].line)
    decreases |log| - i
  {
    hide Print;
    if i == |log| {
      LastInStream(longer);
    } else {
      StreamGrowsTo(log, longer, i + 1);
      assert longer[i] == longer[..|log|][i] == log[i];
      ConcatAssociative(Print(log[i].line), StreamFrom(log, i + 1), Print(longer[|log|].line));
    }
  }

  lemma {:induction false} LastInStream(log: Log)
    requires log != []
    ensures StreamFrom(log, |log| - 1) == Print(log[|log| - 1].line)
  {
    hide Print;
    assert StreamFrom(log, |log|) == "";
  }

  lemma {:induction false} WriteFollows(checks: Checks, log: Log, h: Host, line: Line)
    requires Follows(checks, log, h) && IsPrintable(line)
    ensures Follows(checks, Append(log, line), Write(h, line))
  {
    hide Print, Applied, StreamFrom, Consistent;
    StreamGrows(log, line, h.read);
    ConcatAssociative(h.buffer, h.pipe, Print(line));
    assert Append(log, line)[..h.read] == log[..h.read];
  }

  lemma {:induction false} CallFollows(checks: Checks, log: Log, h: Host)
    requires Follows(checks, log, h)
    ensures Follows(checks, log, Call(checks, h))
  {
    hide *;
    FollowsIs(checks, log, h);
    FollowsIs(checks, log, Call(checks, h));
    if h.pipe == "" {
      NoCall(checks, h);
    } else {
      ReadNext(checks, h);
      SomethingLeft(log, h.read);
      NextInPipe(log, h.read);
      AppliedNext(checks, log, h.read);
    }
  }

  lemma FollowsIs(checks: Checks, log: Log, h: Host)
    ensures Follows(checks, log, h)
       <==> && Consistent(log) && h.read <= |log|
            && h.buffer + h.pipe == StreamFrom(log, h.read)
            && h.surface == Applied(checks, log[..h.read])
  {
  }

  lemma NoCall(checks: Checks, h: Host)
    requires h.pipe == ""
    ensures Call(checks, h) == h
  {
  }

  /** A callback takes the first line of what is unread. */
  lemma {:induction false} ReadNext(checks: Checks, h: Host)
    requires h.pipe != ""
    ensures
      var unread := h.buffer + h.pipe;
      var after := Call(checks, h);
      && unread != "" && after.buffer + after.pipe == unread[|FirstLine(unread)|..] && after.read == h.read + 1
      && after.surface == Apply(checks, Parse(FirstLine(unread)), h.surface)
  {
    var got := ReadLine(h.buffer, h.pipe);
    assert |h.buffer + h.pipe| >= |h.pipe| > 0;
    assert (got.line + (got.buffer + got.pipe))[|got.line|..] == got.buffer + got.pipe;
    hide ReadLine, FirstLine, Apply, Parse;
  }

  lemma SomethingLeft(log: Log, i: nat)
    requires i <= |log| && StreamFrom(log, i) != ""
    ensures i < |log|
  {
  }

  /** In every history of writes and callbacks, in any order. */
  lemma {:induction false} AlwaysFollows(checks: Checks, happenings: seq<Happening>)
    requires AllPrintable(happenings)
    ensures Follows(checks, LogOf(happenings), Reached(checks, happenings))
    decreases |happenings|
  {
    if happenings == [] {
      NothingWritten(checks);
    } else {
      var n := |happenings| - 1;
      var before := happenings[..n];
      AlwaysFollows(checks, before);
      hide Follows, Write, Call;
      match happenings[n]
      case LineWritten(line) => WriteFollows(checks, LogOf(before), Reached(checks, before), line);
      case CalledBack => CallFollows(checks, LogOf(before), Reached(checks, before));
    }
  }

  /** At any moment the process shows what the shell's flag was when the last line read had been written. */
  lemma {:induction false} AlwaysAgrees(checks: Checks, happenings: seq<Happening>)
    requires AllPrintable(happenings) && NoRefusalWhileHidden(checks, LogOf(happenings))
    ensures
      var h := Reached(checks, happenings);
      h.read <= |LogOf(happenings)| && h.surface == Shown(FlagAt(LogOf(happenings), h.read))
  {
    AlwaysFollows(checks, happenings);
    AppliedAgrees(checks, LogOf(happenings), Reached(checks, happenings).read);
  }

  // ----- Counting lines -----

  function Lines(s: string): nat {
    if s == "" then 0 else (if s[0] == '\n' then 1 else 0) + Lines(s[1..])
  }

  lemma {:induction false} LinesConcat(a: string, b: string)
    ensures Lines(a + b) == Lines(a) + Lines(b)
    decreases |a|
  {
    if a == "" {
      assert a + b == b;
    } else {
      assert (a + b)[1..] == a[1..] + b;
      LinesConcat(a[1..], b);
    }
  }

  lemma {:induction false} NoLines(s: string)
    ensures Lines(s) == 0 <==> '\n' !in s
    decreases |s|
  {
    if s != "" { NoLines(s[1..]); }
  }

  lemma {:induction false} OneLine(line: Line)
    requires IsPrintable(line)
    ensures Lines(Print(line)) == 1
  {
    BodyEndsVisibly(line);
    NoLines(Body(line));
    LinesConcat(Body(line), "\n");
    assert Lines("\n") == 1;
  }

  lemma {:induction false} LinesLeft(log: Log, i: nat)
    requires Consistent(log) && i <= |log|
    ensures Lines(StreamFrom(log, i)) == |log| - i
    decreases |log| - i
  {
    if i < |log| {
      hide Print;
      OneLine(log[i].line);
      LinesConcat(Print(log[i].line), StreamFrom(log, i + 1));
      LinesLeft(log, i + 1);
    }
  }

  /** What has been written and not read is in the buffer and in the pipe. */
  lemma {:induction false} Unread(checks: Checks, log: Log, h: Host)
    requires Follows(checks, log, h)
    ensures Lines(h.buffer) + Lines(h.pipe) == |log| - h.read
  {
    LinesLeft(log, h.read);
    LinesConcat(h.buffer, h.pipe);
  }

  // ----- Coming to rest -----

  function Calls(checks: Checks, h: Host, n: nat): Host
    decreases n
  {
    if n == 0 then h else Calls(checks, Call(checks, h), n - 1)
  }

  lemma CallsNext(checks: Checks, h: Host, n: nat)
    ensures Calls(checks, h, n) == if n == 0 then h else Calls(checks, Call(checks, h), n - 1)
  {
  }

  lemma {:induction false} CallsFollow(checks: Checks, log: Log, h: Host, n: nat)
    requires Follows(checks, log, h)
    ensures Follows(checks, log, Calls(checks, h, n))
    decreases n
  {
    hide *;
    CallsNext(checks, h, n);
    if n > 0 {
      CallFollows(checks, log, h);
      CallsFollow(checks, log, Call(checks, h), n - 1);
    }
  }

  lemma {:induction false} CallReads(checks: Checks, log: Log, h: Host)
    requires Follows(checks, log, h) && !AtRest(h)
    ensures h.read < |log| && Call(checks, h).read == h.read + 1
  {
    CallFollows(checks, log, h);
  }

  /** The callbacks come to an end: after as many as there are unread lines at the latest. */
  lemma {:induction false} ComesToRest(checks: Checks, log: Log, h: Host, n: nat)
    requires Follows(checks, log, h) && n >= |log| - h.read
    ensures AtRest(Calls(checks, h, n))
    decreases n
  {
    hide *;
    CallsNext(checks, h, n);
    if AtRest(h) {
      StaysAtRest(checks, h, n);
    } else {
      CallReads(checks, log, h);
      CallFollows(checks, log, h);
      ComesToRest(checks, log, Call(checks, h), n - 1);
    }
  }

  lemma {:induction false} StaysAtRest(checks: Checks, h: Host, n: nat)
    requires AtRest(h)
    ensures Calls(checks, h, n) == h
    decreases n
  {
    if n > 0 { StaysAtRest(checks, h, n - 1); }
  }

  // ----- Which lines are left -----

  /** At rest the lines in the buffer are the ones not applied; all are applied exactly if it is empty. */
  lemma {:induction false} AllAppliedIff(checks: Checks, log: Log, h: Host)
    requires Follows(checks, log, h) && AtRest(h)
    ensures |log| - h.read == Lines(h.buffer)
    ensures h.read == |log| <==> h.buffer == ""
  {
    Unread(checks, log, h);
    assert h.buffer + h.pipe == h.buffer;
  }

  /** The call that empties the pipe applies one line and leaves all but one of those it took out of the pipe. */
  lemma {:induction false} LastCallLeaves(checks: Checks, log: Log, h: Host)
    requires Follows(checks, log, h) && !AtRest(h) && AtRest(Call(checks, h))
    ensures Lines(h.pipe) >= 1 && |log| - Call(checks, h).read == Lines(h.pipe) - 1
  {
    Unread(checks, log, h);
    CallFollows(checks, log, h);
    NoLines(h.buffer);
    assert '\n' !in h.buffer;
  }

  function WriteAll(h: Host, lines: seq<Line>): Host
    decreases |lines|
  {
    if lines == [] then h else WriteAll(Write(h, lines[0]), lines[1..])
  }

  function AppendAll(log: Log, lines: seq<Line>): Log
    decreases |lines|
  {
    if lines == [] then log else AppendAll(Append(log, lines[0]), lines[1..])
  }

  function TextOf(lines: seq<Line>): string {
    if lines == [] then "" else Print(lines[0]) + TextOf(lines[1..])
  }

  predicate ArePrintable(lines: seq<Line>) {
    forall i :: 0 <= i < |lines| ==> IsPrintable(lines[i])
  }

  lemma {:induction false} WriteAllFollows(checks: Checks, log: Log, h: Host, lines: seq<Line>)
    requires Follows(checks, log, h) && ArePrintable(lines)
    ensures Follows(checks, AppendAll(log, lines), WriteAll(h, lines))
    ensures |AppendAll(log, lines)| == |log| + |lines|
    ensures WriteAll(h, lines) == h.(pipe := h.pipe + TextOf(lines)) && Lines(TextOf(lines)) == |lines|
    decreases |lines|
  {
    if lines == [] {
      assert h.pipe + "" == h.pipe;
    } else {
      hide Print, IsPrintable, Follows;
      WriteFollows(checks, log, h, lines[0]);
      WriteAllFollows(checks, Append(log, lines[0]), Write(h, lines[0]), lines[1..]);
      ConcatAssociative(h.pipe, Print(lines[0]), TextOf(lines[1..]));
      OneLine(lines[0]);
      LinesConcat(Print(lines[0]), TextOf(lines[1..]));
    }
  }

  /** A pipe that fits the buffer is left alone while the buffer has lines, and emptied by the call after that. */
  lemma {:induction false} SmallPipe(checks: Checks, h: Host)
    requires 0 < |h.pipe| <= CAPACITY && '\n' in h.pipe
    ensures Call(checks, h).pipe == if '\n' in h.buffer then h.pipe else ""
  {
    if '\n' !in h.buffer {
      assert h.pipe[..|h.pipe|] == h.pipe && h.pipe[|h.pipe|..] == "";
      assert '\n' in h.buffer + h.pipe;
      assert ReadLine(h.buffer, h.pipe) == ReadLine(h.buffer + h.pipe, "");
    }
  }

  lemma {:induction false} BurstStep(checks: Checks, h: Host)
    requires |h.pipe| <= CAPACITY && Lines(h.pipe) >= 1
    ensures !AtRest(h) && (Call(checks, h).pipe == h.pipe || AtRest(Call(checks, h)))
  {
    hide Call;
    NoLines(h.pipe);
    assert h.pipe != "";
    SmallPipe(checks, h);
  }

  lemma {:induction false} BurstDrains(checks: Checks, log: Log, h: Host, text: string, n: nat)
    requires Follows(checks, log, h) && h.pipe == text && |text| <= CAPACITY && Lines(text) >= 1
    ensures Calls(checks, h, n).pipe == text || AtRest(Calls(checks, h, n))
    ensures AtRest(Calls(checks, h, n)) ==> |log| - Calls(checks, h, n).read == Lines(text) - 1
    decreases n
  {
    hide *;
    BurstStep(checks, h);
    CallsNext(checks, h, n);
    if n > 0 {
      CallFollows(checks, log, h);
      var next := Call(checks, h);
      if next.pipe == text {
        BurstDrains(checks, log, next, text, n - 1);
      } else {
        LastCallLeaves(checks, log, h);
        StaysAtRest(checks, next, n - 1);
      }
    }
  }

  /**
   * When the process comes to rest after the shell wrote some lines in one go, all of them but one are left:
   * everything written is applied exactly if the shell wrote a single line.
   */
  lemma {:induction false} BurstIff(checks: Checks, log: Log, h: Host, lines: seq<Line>, n: nat)
    requires Follows(checks, log, h) && AtRest(h)
    requires lines != [] && ArePrintable(lines) && |TextOf(lines)| <= CAPACITY
    ensures
      var after := Calls(checks, WriteAll(h, lines), n);
      && (n >= Lines(h.buffer) + |lines| ==> AtRest(after))
      && (AtRest(after) ==>
            && |AppendAll(log, lines)| - after.read == |lines| - 1
            && (after.read == |AppendAll(log, lines)| <==> |lines| == 1)
            && after.surface == Applied(checks, AppendAll(log, lines)[..after.read]))
  {
    var more, h' := AppendAll(log, lines), WriteAll(h, lines);
    WriteAllFollows(checks, log, h, lines);
    AllAppliedIff(checks, log, h);
    assert "" + TextOf(lines) == TextOf(lines);
    CallsFollow(checks, more, h', n);
    BurstDrains(checks, more, h', TextOf(lines), n);
    if n >= Lines(h.buffer) + |lines| {
      ComesToRest(checks, more, h', n);
    }
  }

  // ----- What the shell writes in one go -----

  /** The process in the slot, if there is one, got at most one line: an old one one more, a new one its first. */
  predicate AtMostOneLine(before: Slot, after: Slot) {
    after.Running? ==>
      || |after.log| <= 1
      || (before.Running? && before.log <= after.log && |after.log| <= |before.log| + 1)
  }

  /** A toggle that finds no live launcher and starts one. */
  predicate StartsLauncher(shell: Shell, step: Step) {
    && step.ToggleLauncherStep? && !(shell.launcher.Running? && step.env.alive)
    && Next(shell, step).launcher.Running?
  }

  /** The lines a launcher gets that is started to be shown. */
  function FirstLines(settings: string): seq<Line> {
    [Settings(settings), Show]
  }

  /** Every action writes at most one line to a process, except a toggle that starts a launcher, which writes two. */
  lemma {:induction false} OnlyANewLauncherGetsTwo(shell: Shell, step: Step)
    ensures AtMostOneLine(shell.quick, Next(shell, step).quick)
    ensures !StartsLauncher(shell, step) ==> AtMostOneLine(shell.launcher, Next(shell, step).launcher)
    ensures StartsLauncher(shell, step) ==>
      && Next(shell, step).launcher.log == AppendAll([], FirstLines(step.settings))
      && SlotVisible(Next(shell, step).launcher)
  {
    if StartsLauncher(shell, step) {
      TwoLines(step.settings);
    }
  }

  lemma {:induction false} TwoLines(settings: string)
    ensures AppendAll([], FirstLines(settings)) == Append(Append([], Settings(settings)), Show)
    ensures TextOf(FirstLines(settings)) == "settings " + settings + "\nshow\n"
  {
    var lines := FirstLines(settings);
    assert lines[1..] == [Show] && [Show][1..] == [];
    AppendTwo([], lines);
    assert Append([], lines[0]) == Append([], Settings(settings));
    assert TextOf([Show]) == "show\n" + "" == "show\n";
    assert TextOf(lines) == Print(Settings(settings)) + TextOf([Show]);
    assert "settings " + settings + "\n" + "show\n" == "settings " + settings + "\nshow\n";
  }

  lemma {:induction false} AppendTwo(log: Log, lines: seq<Line>)
    requires |lines| == 2
    ensures AppendAll(log, lines) == Append(Append(log, lines[0]), lines[1])
  {
    assert lines[1..] == [lines[1]] && lines[1..][1..] == [];
    assert AppendAll(Append(Append(log, lines[0]), lines[1]), []) == Append(Append(log, lines[0]), lines[1]);
  }

  /**
   * A launcher started by a toggle stays hidden, although the shell takes it for visible: it reads both lines
   * and applies the first.  The next line, here a theme, brings it up.
   */
  lemma {:induction false} NewLauncherWaits(checks: Checks, settings: string, n: nat, theme: Theme, k: nat)
    requires IsSnapshot(settings) && |settings| <= CAPACITY - 15
    ensures
      var log := AppendAll([], FirstLines(settings));
      var h := Calls(checks, WriteAll(STARTED, FirstLines(settings)), n);
      && Visible(log)
      && (n >= 2 ==> AtRest(h))
      && (AtRest(h) ==> h.surface == HIDDEN)
      && (AtRest(h) && k >= 2 ==> Calls(checks, Write(h, SetTheme(theme)), k).surface == Surface(true, true))
  {
    var lines := FirstLines(settings);
    var log, h := AppendAll([], lines), Calls(checks, WriteAll(STARTED, lines), n);
    FirstLinesFit(settings);
    StartFollows(checks);
    FirstTwoApplied(checks, settings, theme);
    hide *;
    BurstIff(checks, [], STARTED, lines, n);
    WriteAllFollows(checks, [], STARTED, lines);
    CallsFollow(checks, log, WriteAll(STARTED, lines), n);
    if AtRest(h) && k >= 2 {
      NextLineShows(checks, log, h, settings, theme, k);
    }
  }

  lemma {:induction false} NextLineShows(checks: Checks, log: Log, h: Host, settings: string, theme: Theme, k: nat)
    requires log == AppendAll([], FirstLines(settings)) && Follows(checks, log, h) && AtRest(h)
    requires |log| - h.read == 1 && k >= 2
    ensures Calls(checks, Write(h, SetTheme(theme)), k).surface == Surface(true, true)
  {
    var longer := Append(log, SetTheme(theme));
    assert |longer| == |log| + 1 && longer[..|longer|] == longer;
    FirstTwoApplied(checks, settings, theme);
    ThemeText(theme);
    hide *;
    AllAppliedIff(checks, log, h);
    BurstIff(checks, log, h, [SetTheme(theme)], k);
    OneMore(log, h, SetTheme(theme));
  }

  lemma {:induction false} FirstLinesFit(settings: string)
    requires IsSnapshot(settings) && |settings| <= CAPACITY - 15
    ensures
      var lines := FirstLines(settings);
      |lines| == 2 && lines != [] && ArePrintable(lines) && |TextOf(lines)| <= CAPACITY
  {
    TwoLines(settings);
  }

  lemma StartFollows(checks: Checks)
    ensures Follows(checks, [], STARTED) && AtRest(STARTED) && Lines(STARTED.buffer) == 0
  {
  }

  lemma {:induction false} OneMore(log: Log, h: Host, line: Line)
    ensures AppendAll(log, [line]) == Append(log, line) && WriteAll(h, [line]) == Write(h, line)
  {
    assert [line][1..] == [];
  }

  lemma {:induction false} ThemeText(theme: Theme)
    ensures |TextOf([SetTheme(theme)])| <= CAPACITY && ArePrintable([SetTheme(theme)])
  {
    assert [SetTheme(theme)][1..] == [];
  }

  lemma {:induction false} FirstTwoApplied(checks: Checks, settings: string, theme: Theme)
    ensures
      var log := AppendAll([], FirstLines(settings));
      && |log| == 2 && Visible(log) && Applied(checks, log[..1]) == HIDDEN
      && Applied(checks, Append(log, SetTheme(theme))) == Surface(true, true)
  {
    TwoLines(settings);
    var log := AppendAll([], FirstLines(settings));
    var longer := Append(log, SetTheme(theme));
    assert longer[..2] == log;
    AppliedNext(checks, log, 0);
    AppliedNext(checks, log, 1);
    AppliedNext(checks, longer, 2);
    assert log[..0] == [] && log[..2] == log && longer[..3] == longer;
    ApplyMeaning(checks, Settings(settings), HIDDEN);
    ApplyMeaning(checks, Show, HIDDEN);
    ApplyMeaning(checks, SetTheme(theme), Surface(true, true));
  }
}
