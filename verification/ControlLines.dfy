/**
 * The line protocol between the shell and a WebKit surface process: how the shell prints a control line,
 * and how the process reads one line from the pipe, parses and applies it.
 */
module ControlLines {
  import opened Text

  datatype Theme = Dark | Light

  /** What the shell writes.  A snapshot is the text of a JSON object. */
  datatype Line =
    | Show
    | Hide
    | ShowQuickSettings(snapshot: string)
    | Update(snapshot: string)
    | ShowSettings(snapshot: string)
    | Settings(snapshot: string)
    | Appearance(snapshot: string)
    | SetTheme(theme: Theme)

  function ThemeName(theme: Theme): string {
    match theme
    case Dark => "dark"
    case Light => "light"
  }

  function Body(line: Line): string {
    match line
    case Show => "show"
    case Hide => "hide"
    case ShowQuickSettings(snapshot) => "show " + snapshot
    case Update(snapshot) => "update " + snapshot
    case ShowSettings(snapshot) => "show-settings " + snapshot
    case Settings(snapshot) => "settings " + snapshot
    case Appearance(snapshot) => "appearance " + snapshot
    case SetTheme(theme) => "theme " + ThemeName(theme)
  }

  function Print(line: Line): string {
    Body(line) + "\n"
  }

  /** One line of text that ends in a visible character, as every JSON object does. */
  predicate IsSnapshot(s: string) {
    s != "" && '\n' !in s && !IsWhitespace(s[|s| - 1])
  }

  predicate IsPrintable(line: Line) {
    match line
    case ShowQuickSettings(s) => IsSnapshot(s)
    case Update(s) => IsSnapshot(s)
    case ShowSettings(s) => IsSnapshot(s)
    case Settings(s) => IsSnapshot(s)
    case Appearance(s) => IsSnapshot(s)
    case _ => true
  }

  // ----- Parsing -----

  /** The command word with the snapshot or theme that came with it. */
  datatype Control = Control(command: string, quickSnapshot: Option<string>, launcherSnapshot: Option<string>,
                             theme: Option<string>)

  function StripPrefix(s: string, prefix: string): Option<string> {
    if prefix <= s then Some(s[|prefix|..]) else None
  }

  function Parse(raw: string): Control {
    ParseTrimmed(TrimEnd(raw))
  }

  function ParseTrimmed(command: string): Control {
    if StripPrefix(command, "show ").Some? then
      Control("show", StripPrefix(command, "show "), None, None)
    else if StripPrefix(command, "update ").Some? then
      Control("update", StripPrefix(command, "update "), None, None)
    else if StripPrefix(command, "show-settings ").Some? then
      Control("show-settings", None, StripPrefix(command, "show-settings "), None)
    else if StripPrefix(command, "settings ").Some? then
      Control("settings", None, StripPrefix(command, "settings "), None)
    else if StripPrefix(command, "appearance ").Some? then
      Control("appearance", None, StripPrefix(command, "appearance "), None)
    else if StripPrefix(command, "theme ").Some? then
      Control("theme", None, None, StripPrefix(command, "theme "))
    else
      Control(command, None, None, None)
  }

  /** What each line is meant to say. */
  function Meaning(line: Line): Control {
    match line
    case Show => Control("show", None, None, None)
    case Hide => Control("hide", None, None, None)
    case ShowQuickSettings(s) => Control("show", Some(s), None, None)
    case Update(s) => Control("update", Some(s), None, None)
    case ShowSettings(s) => Control("show-settings", None, Some(s), None)
    case Settings(s) => Control("settings", None, Some(s), None)
    case Appearance(s) => Control("appearance", None, Some(s), None)
    case SetTheme(theme) => Control("theme", None, None, Some(if theme.Dark? then "dark" else "light"))
  }

  lemma {:induction false} TrimLine(body: string)
    requires body != "" && !IsWhitespace(body[|body| - 1])
    ensures TrimEnd(body + "\n") == body
  {
    var s := body + "\n";
    assert s[..|s| - 1] == body;
    assert TrimEnd(body) == body;
  }

  lemma {:induction false} StripOwnPrefix(prefix: string, s: string)
    ensures StripPrefix(prefix + s, prefix) == Some(s)
  {
    assert (prefix + s)[|prefix|..] == s;
  }

  /** Text that is one line and survives trimming at its end. */
  predicate EndsVisibly(s: string) {
    s != "" && !IsWhitespace(s[|s| - 1]) && '\n' !in s
  }

  lemma {:induction false} BodyEndsVisibly(line: Line)
    requires IsPrintable(line)
    ensures EndsVisibly(Body(line))
  {
    BareBodies();
    ArgumentWords();
    hide EndsVisibly;
    match line
    case Show =>
    case Hide =>
    case SetTheme(theme) =>
    case ShowQuickSettings(s) => SnapshotBody("show ", s);
    case Update(s) => SnapshotBody("update ", s);
    case ShowSettings(s) => SnapshotBody("show-settings ", s);
    case Settings(s) => SnapshotBody("settings ", s);
    case Appearance(s) => SnapshotBody("appearance ", s);
  }

  lemma BareBodies()
    ensures EndsVisibly("show") && EndsVisibly("hide")
    ensures EndsVisibly("theme " + "dark") && EndsVisibly("theme " + "light")
  {
  }

  lemma ArgumentWords()
    ensures '\n' !in "show " && '\n' !in "update " && '\n' !in "show-settings "
    ensures '\n' !in "settings " && '\n' !in "appearance "
  {
  }

  lemma {:induction false} SnapshotBody(word: string, s: string)
    requires IsSnapshot(s) && '\n' !in word
    ensures EndsVisibly(word + s)
  {
    assert (word + s)[|word + s| - 1] == s[|s| - 1];
  }

  /** One differing character rules a prefix out. */
  lemma {:induction false} OtherPrefix(s: string, prefix: string, i: nat)
    requires i < |prefix| && (i >= |s| || s[i] != prefix[i])
    ensures StripPrefix(s, prefix) == None
  {
  }

  /** A command word other than those that carry an argument. */
  lemma {:induction false} ParseBareWord(word: string)
    requires word == "show" || word == "hide"
    ensures ParseTrimmed(word) == Control(word, None, None, None)
  {
    OtherPrefix(word, "show ", 4);
    OtherPrefix(word, "update ", 0);
    OtherPrefix(word, "show-settings ", 4);
    OtherPrefix(word, "settings ", 1);
    OtherPrefix(word, "appearance ", 0);
    OtherPrefix(word, "theme ", 0);
    hide StripPrefix;
  }

  lemma {:induction false} ParseShow(s: string)
    ensures ParseTrimmed("show " + s) == Control("show", Some(s), None, None)
  {
    StripOwnPrefix("show ", s);
    hide StripPrefix;
  }

  lemma {:induction false} ParseUpdate(s: string)
    ensures ParseTrimmed("update " + s) == Control("update", Some(s), None, None)
  {
    StripOwnPrefix("update ", s);
    OtherPrefix("update " + s, "show ", 0);
    hide StripPrefix;
  }

  lemma {:induction false} ParseShowSettings(s: string)
    ensures ParseTrimmed("show-settings " + s) == Control("show-settings", None, Some(s), None)
  {
    var b := "show-settings " + s;
    StripOwnPrefix("show-settings ", s);
    OtherPrefix(b, "show ", 4);
    OtherPrefix(b, "update ", 0);
    hide StripPrefix;
  }

  lemma {:induction false} ParseSettings(s: string)
    ensures ParseTrimmed("settings " + s) == Control("settings", None, Some(s), None)
  {
    var b := "settings " + s;
    StripOwnPrefix("settings ", s);
    OtherPrefix(b, "show ", 1);
    OtherPrefix(b, "update ", 0);
    OtherPrefix(b, "show-settings ", 1);
    hide StripPrefix;
  }

  lemma {:induction false} ParseAppearance(s: string)
    ensures ParseTrimmed("appearance " + s) == Control("appearance", None, Some(s), None)
  {
    var b := "appearance " + s;
    StripOwnPrefix("appearance ", s);
    OtherPrefix(b, "show ", 0);
    OtherPrefix(b, "update ", 0);
    OtherPrefix(b, "show-settings ", 0);
    OtherPrefix(b, "settings ", 0);
    hide StripPrefix;
  }

  lemma {:induction false} ParseTheme(s: string)
    ensures ParseTrimmed("theme " + s) == Control("theme", None, None, Some(s))
  {
    var b := "theme " + s;
    StripOwnPrefix("theme ", s);
    OtherPrefix(b, "show ", 0);
    OtherPrefix(b, "update ", 0);
    OtherPrefix(b, "show-settings ", 0);
    OtherPrefix(b, "settings ", 0);
    OtherPrefix(b, "appearance ", 0);
    hide StripPrefix;
  }

  /** Parsing undoes printing. */
  lemma {:induction false} ParsePrint(line: Line)
    requires IsPrintable(line)
    ensures Parse(Print(line)) == Meaning(line)
  {
    BodyEndsVisibly(line);
    TrimLine(Body(line));
    hide ParseTrimmed, TrimEnd;
    match line
    case Show => ParseBareWord("show");
    case Hide => ParseBareWord("hide");
    case ShowQuickSettings(s) => ParseShow(s);
    case Update(s) => ParseUpdate(s);
    case ShowSettings(s) => ParseShowSettings(s);
    case Settings(s) => ParseSettings(s);
    case Appearance(s) => ParseAppearance(s);
    case SetTheme(theme) => ParseTheme(ThemeName(theme));
  }

  // ----- Applying a line -----

  /** The schema checks the surface process makes before it accepts a snapshot. */
  datatype Checks = Checks(quickSettings: string -> bool, settings: string -> bool, appearance: string -> bool)

  predicate LauncherSnapshotAccepted(checks: Checks, command: string, snapshot: string) {
    if command == "show-settings" || command == "settings" then checks.settings(snapshot)
    else checks.appearance(snapshot)
  }

  /** The surface is shown when it takes input and its document is opaque, and hidden when neither holds. */
  datatype Surface = Surface(input: bool, opaqueDocument: bool)

  const HIDDEN := Surface(false, false)

  function Apply(checks: Checks, control: Control, surface: Surface): Surface {
    if control.quickSnapshot.Some? && !checks.quickSettings(control.quickSnapshot.value) then surface
    else if control.launcherSnapshot.Some?
            && !LauncherSnapshotAccepted(checks, control.command, control.launcherSnapshot.value) then surface
    else if control.theme.Some? && control.theme.value != "dark" && control.theme.value != "light" then surface
    else if control.command == "show" || control.command == "show-settings" then Surface(true, true)
    else if control.command == "hide" then Surface(false, false)
    else surface
  }

  // ----- Reading the pipe -----

  /** `read_line`: up to and including the next newline, or all that is left. */
  function FirstLine(stream: string): (line: string)
    ensures line <= stream
    ensures stream != "" ==> line != ""
  {
    if stream == "" then ""
    else if stream[0] == '\n' then "\n"
    else [stream[0]] + FirstLine(stream[1..])
  }

  lemma {:induction false} FirstLineOf(body: string, rest: string)
    requires '\n' !in body
    ensures FirstLine(body + "\n" + rest) == body + "\n"
    decreases |body|
  {
    if body == "" {
      assert "" + "\n" + rest == "\n" + rest;
    } else {
      assert body[0] in body;
      assert (body + "\n" + rest)[1..] == body[1..] + "\n" + rest;
      FirstLineOf(body[1..], rest);
      assert [body[0]] + (body[1..] + "\n") == body + "\n";
    }
  }

  /** A line is found in the first part of the stream if there is a newline, and takes that part along if not. */
  lemma {:induction false} FirstLineAcross(a: string, b: string)
    ensures '\n' in a ==> FirstLine(a + b) == FirstLine(a)
    ensures '\n' !in a ==> FirstLine(a) == a
    decreases |a|
  {
    if a == "" {
    } else if a[0] != '\n' {
      assert (a + b)[1..] == a[1..] + b;
      assert '\n' in a ==> '\n' in a[1..];
      FirstLineAcross(a[1..], b);
      assert a == [a[0]] + a[1..];
    }
  }

  /** The reader's buffer is filled from the pipe by so much at a time. */
  const CAPACITY := 8192

  /** What a `read_line` gives, and what it leaves in the buffer and in the pipe. */
  datatype Got = Got(line: string, buffer: string, pipe: string)

  /**
   * `BufReader::read_line`: while there is no newline in the buffer it is filled from the pipe, with all there
   * is up to the capacity.  If the writer closes the pipe in the meantime the line is what there is.
   */
  function ReadLine(buffer: string, pipe: string): (got: Got)
    ensures got.line == FirstLine(buffer + pipe)
    ensures got.line + (got.buffer + got.pipe) == buffer + pipe
    decreases |pipe|
  {
    FirstLineAcross(buffer, pipe);
    if '\n' in buffer then
      var line := FirstLine(buffer);
      Got(line, buffer[|line|..], pipe)
    else if pipe == "" then
      assert buffer + pipe == buffer;
      Got(buffer, "", "")
    else
      var n := if |pipe| < CAPACITY then |pipe| else CAPACITY;
      assert buffer + pipe[..n] + pipe[n..] == buffer + pipe;
      ReadLine(buffer + pipe[..n], pipe[n..])
  }

  /** The process's control callback: one line per readiness event. */
  class SurfaceHost {
    const checks: Checks
    var pipe: string
    var buffer: string
    var surface: Surface

    constructor (checks: Checks)
      ensures this.checks == checks && pipe == "" && buffer == "" && surface == HIDDEN
    {
      this.checks := checks;
      pipe, buffer, surface := "", "", HIDDEN;
    }

    /** The shell writes to the pipe. */
    method Receive(text: string)
      modifies `pipe
      ensures pipe == old(pipe) + text
    {
      pipe := pipe + text;
    }

    method SetLauncherInput(enabled: bool)
      modifies `surface
      ensures surface == old(surface).(input := enabled)
    {
      surface := surface.(input := enabled);
    }

    /** `hungUp`: the other end closed the pipe or it failed; whatever is still unread stays unread. */
    method OnReadable(hungUp: bool) returns (again: bool)
      modifies this
      ensures again == (!hungUp && old(buffer + pipe) != "")
      ensures again ==>
        var got := ReadLine(old(buffer), old(pipe));
        && buffer == got.buffer && pipe == got.pipe
        && surface == Apply(checks, Parse(got.line), old(surface))
      ensures !again ==> pipe == old(pipe) && buffer == old(buffer) && surface == old(surface)
    {
      if hungUp || buffer + pipe == "" {
        return false;
      }
      var got := ReadLine(buffer, pipe);
      buffer, pipe := got.buffer, got.pipe;
      var control := Parse(got.line);
      again := true;
      if control.quickSnapshot.Some? && !checks.quickSettings(control.quickSnapshot.value) {
        return;
      }
      if control.launcherSnapshot.Some?
         && !LauncherSnapshotAccepted(checks, control.command, control.launcherSnapshot.value) {
        return;
      }
      if control.theme.Some? && control.theme.value != "dark" && control.theme.value != "light" {
        return;
      }
      match control.command {
        case "show" =>
          SetLauncherInput(true);
          surface := surface.(opaqueDocument := true);
        case "show-settings" =>
          SetLauncherInput(true);
          surface := surface.(opaqueDocument := true);
        case "hide" =>
          surface := surface.(opaqueDocument := false);
          SetLauncherInput(false);
        case _ =>
      }
    }
  }

  /** The surface after the process has consumed `k` lines of a stream. */
  function Consumed(checks: Checks, stream: string, surface: Surface, k: nat): Surface
    decreases k
  {
    if k == 0 || stream == "" then surface
    else
      Consumed(checks, stream[|FirstLine(stream)|..], Apply(checks, Parse(FirstLine(stream)), surface), k - 1)
  }
}
