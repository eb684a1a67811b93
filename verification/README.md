# Verified model of the Meridian desktop's state machines, parsers and buffer algorithms

This project models the parts of the desktop that are small programs in their own right and proves what
they are relied on for:

- the polkit agent's table of pending cookies under concurrent BeginAuthentication and
  CancelAuthentication calls, together with the dialog loop that answers them (`PolkitAgent`);
- the line protocol between the shell and its WebKit surface processes, both ends (`ControlLines`,
  `ControlChannel`, `ControlReader`);
- the greedy line wrapping of the authentication dialog (`WrapText`), the launcher's shuffle
  (`Reshuffle`), the flattening of tray menus (`MenuForest`) and the MIME index (`MimeIndex`);
- the two Exec tokenizers (`Exec`), the placeholder substitution behind the generated style sheets and
  HTML documents (`Placeholders`, `Clashes`, `Rescanning`, `StyleSheets`, `Documents`), HTML escaping
  (`HtmlEscape`), and the markup for installed applications with a reader that gets back what was written
  (`AppMarkup`, `MarkupReader`, `CatalogReader`);
- the watchdog that restarts the shell (`Watchdog`) and the workspace manager (`Workspaces`);
- the pixel work of popup borders (`RoundedRect`), card compositing (`SoftShadow`) and the region picker
  (`RegionPicker`).

`Text`, `Replacing`, `Arithmetic` and `Pixels` hold what several of them share. Code that changes state is
a class or a method proved equal to a function on values; the properties are lemmas about those functions,
over all inputs or over all runs.

`dafny verify dfyconfig.toml` checks everything.

## Results where the code does not meet the obvious expectation

- **Placeholders.** A chain of `replace` calls is meant to be one simultaneous substitution. For the style
  sheet it is, for every theme and every template with unambiguous delimiters whose literals spell no token
  (`StyleSheets.StyleSheetIsSimultaneous`); on other such templates exactly if no literal is taken for a
  token while the holes on both sides are open (`StyleSheetIff`). For the HTML documents the list of installed
  applications decides: an application named `@@MERIDIAN_OS@@` is shown under another name
  (`Documents.AppNamedLikeAPlaceholder`), and the diagnostic document is right exactly if no application
  mentions a placeholder replaced behind the list (`Documents.DiagnosticIff`, `PanelIff`). An empty list is
  fine. Arbitrary strings in place of theme values would not do: even without `@`, a value made of capital
  letters can complete a token (`Clashes.ValueCompletesAName`).
- **Order of the calls.** The comment at `crates/meridian-shell/src/theme_export.rs:150-152` says longer
  names go first as a defensive measure, because names might contain each other. On a template that keeps
  its holes apart the order is irrelevant for values without `@@` (`Rescanning.OrderNeverMatters`), and on
  any template two orders that both go well agree (`Placeholders.OrderIsIrrelevant`).
- **Control pipe.** The shell sets `visible` when the line is written, while the surface process refuses a
  snapshot that fails its checks. The two agree after every prefix read exactly if no request to show was
  refused while the flag was down (`ControlChannel.AgreesIff`); one refused toggle is enough to lose it
  (`RefusedShowDisagrees`).
- **Lines that wait.** The surface process is called back while the pipe has something to read, but reads
  through a buffer that empties the pipe at once. Lines that came along stay in the buffer until more is
  written: a process at rest that gets some lines in one go (no more than its buffer holds) applies them all
  exactly if it is a single one (`ControlReader.BurstIff`). Only a toggle that starts a launcher writes two
  (`OnlyANewLauncherGetsTwo`), so such a launcher stays hidden until the next line (`NewLauncherWaits`).
- **Polkit cookies.** A call begun under a cookie that is still live loses its entry when the older call
  returns, and with it its cancel sender, which ends it unanswered (`PolkitAgent.FreshCookieIff`).
- **Workspaces.** Moving a window that is on neither the active nor the target workspace duplicates it
  (`Workspaces.MoveKeepsUniqueIff`).
- **Region picker.** A selection thinner than the 3-pixel border spills white pixels outside itself unless
  it fills the canvas along that axis (`RegionPicker.BorderStaysInsideIff`). The module comment at
  `crates/meridian-shell/src/region_picker.rs:13-16` speaks of a 2-pixel border; the code draws three.

## Model

| member | source | states |
|---|---|---|
| PolkitAgent.AgentService.constructor | crates/meridian-polkit/src/dbus.rs:68-74 | the agent starts with an empty table and channel |
| PolkitAgent.AgentService.DropSender | crates/meridian-polkit/src/dbus.rs:108 | replacing or removing an entry drops the stored cancel sender, which wakes exactly its own call |
| PolkitAgent.AgentService.BeginAuthentication | crates/meridian-polkit/src/dbus.rs:81-123 | the step up to the `select!`: decline without identities, else enter the cookie and announce the call, or undo the entry when the dialog loop is gone |
| PolkitAgent.AgentService.FinishAuthentication | crates/meridian-polkit/src/dbus.rs:125-139 | the step from the `select!` to the return removes the entry under the call's cookie |
| PolkitAgent.AgentService.CancelAuthenticationCall | crates/meridian-polkit/src/dbus.rs:144-151 | the matching call is woken and its entry removed before the dialog loop is told |
| PolkitAgent.AgentService.OnEvent | crates/meridian-polkit/src/wayland/state.rs:18-77 | a request opens the dialog or is declined if one is open; a cancellation closes the dialog of its cookie only |
| PolkitAgent.AgentService.FinishDialog | crates/meridian-polkit/src/wayland/state.rs:106-113 | closing the dialog answers the active request and no other |
| PolkitAgent.NextKeepsInv | crates/meridian-polkit/src/dbus.rs:81-151 | every step with a fresh cookie keeps the table exact, the events ordered, every ending justified and the dialog current |
| PolkitAgent.RunKeepsInv | crates/meridian-polkit/src/dbus.rs:81-151 | the same in every state of every interleaving |
| PolkitAgent.TableIsExact | crates/meridian-polkit/src/dbus.rs:71-73 | the table holds exactly the cookies of calls still awaiting and not cancelled; a finished call has no entry |
| PolkitAgent.CancelWakesTheCall | crates/meridian-polkit/src/dbus.rs:142-151 | cancelling a live call wakes that call and no other, and its Cancel follows its BeginAuth on the channel |
| PolkitAgent.NoCallIsLost | crates/meridian-polkit/src/dbus.rs:119-128 | a call that cannot return yet is queued for the dialog loop or is the one on screen |
| PolkitAgent.NoStaleDialog | crates/meridian-polkit/src/wayland/state.rs:72-79 | once the dialog loop has caught up, a dialog on screen belongs to a call that waits for it |
| PolkitAgent.BegunCallWaits | crates/meridian-polkit/src/dbus.rs:81-123 | a call that begins waits, has its own entry and its own event; without identities, or once the dialog loop has ended, nothing changes |
| PolkitAgent.BegunTooLate | crates/meridian-polkit/src/dbus.rs:119-123 | even under a cookie in use, a call begun too late leaves no entry, and only the call that had the cookie is woken |
| PolkitAgent.CancelOfNobody | crates/meridian-polkit/src/dbus.rs:142-151 | cancelling a cookie no waiting call has touches no call and no entry |
| PolkitAgent.ReturnTakesItsEntry | crates/meridian-polkit/src/dbus.rs:125-139 | a returning call removes its own entry, if it is still there, and no other |
| PolkitAgent.EventMeansItsCall | crates/meridian-polkit/src/wayland/state.rs:18-79 | whatever is on screen: only the Cancel of its own cookie closes a dialog and answers its call, only the request of a late call is declined, and every other call stays as it is |
| PolkitAgent.CloseAnswersTheCall | crates/meridian-polkit/src/wayland/state.rs:106-113 | closing the dialog answers the call on screen and no other, and the dialog is gone |
| PolkitAgent.QuitAnswersAll | crates/meridian-polkit/src/dbus.rs:119-127 | when the dialog loop ends every call can return and nothing stays on screen or on the channel |
| PolkitAgent.OpenUntilQuit | crates/meridian-polkit/src/wayland/state.rs:18-79 | the channel is open in a run exactly as long as the dialog loop has not ended |
| PolkitAgent.FreshCookieIff | crates/meridian-polkit/src/dbus.rs:105-130 | a new call can be ended without answer or cancellation exactly if its cookie is that of a live call |
| PolkitAgent.DuplicateIsAborted | crates/meridian-polkit/src/dbus.rs:130 | the run in which the older call's return ends the newer one |
| ControlLines.ParsePrint | crates/meridian-ui-runtime/src/gtk_host.rs:192-211 | parsing a printed control line recovers its command and argument, for every kind of line |
| ControlLines.FirstLineOf | crates/meridian-ui-runtime/src/gtk_host.rs:182-185 | reading from the pipe returns the first line as it was written |
| ControlLines.ReadLine | crates/meridian-ui-runtime/src/gtk_host.rs:174-182 | a line read through the buffer is the first unread one, and nothing is lost between buffer and pipe |
| ControlLines.SurfaceHost.constructor | crates/meridian-ui-runtime/src/gtk_host.rs:156-159 | the surface starts hidden |
| ControlLines.SurfaceHost.SetLauncherInput | crates/meridian-ui-runtime/src/gtk_host.rs:309-327 | only the input side of the surface changes |
| ControlLines.SurfaceHost.OnReadable | crates/meridian-ui-runtime/src/gtk_host.rs:178-301 | one readiness event reads one line through the buffer and applies it, or stops without reading |
| ControlChannel.WebProcess.Send | crates/meridian-shell/src/web_panel.rs:94-97 | a successful write puts exactly the printed line on the pipe |
| ControlChannel.WebProcess.SetVisible | crates/meridian-shell/src/web_panel.rs:165-171 | the flag follows the line if and only if the write succeeds |
| ControlChannel.WebProcess.ShowWith | crates/meridian-shell/src/web_panel.rs:102-108 | a snapshot written to show sets the flag |
| ControlChannel.WebProcess.SendQuietly | crates/meridian-shell/src/web_panel.rs:110-125 | updates leave the flag alone |
| ControlChannel.WebShell.PrewarmWebLauncher | crates/meridian-shell/src/web_panel.rs:205-221 | a launcher that cannot be primed is not kept |
| ControlChannel.WebShell.ToggleWebLauncher | crates/meridian-shell/src/web_panel.rs:223-249 | the live launcher is toggled or dropped on a write error; a dead one is replaced by one primed and shown |
| ControlChannel.WebShell.PrewarmWebQuickSettings | crates/meridian-shell/src/web_panel.rs:251-264 | an empty slot is filled with a hidden process |
| ControlChannel.WebShell.OpenWebSystemSettings | crates/meridian-shell/src/web_panel.rs:266-290 | Quick Settings are hidden and the launcher shows the settings, respawned if dead |
| ControlChannel.WebShell.ToggleWebQuickSettings | crates/meridian-shell/src/web_panel.rs:292-343 | visible and alive is hidden, anything else is shown with a snapshot, respawned if dead |
| ControlChannel.WebShell.HideWebQuickSettings | crates/meridian-shell/src/web_panel.rs:345-356 | a visible process is hidden or dropped, and the launcher is untouched |
| ControlChannel.WebShell.RefreshWebQuickSettings | crates/meridian-shell/src/web_panel.rs:358-370 | only a visible, live process is updated |
| ControlChannel.WebShell.RefreshWebLauncher | crates/meridian-shell/src/web_panel.rs:372-398 | only a live launcher is updated, shown or not |
| ControlChannel.WebShell.SyncWebTheme | crates/meridian-shell/src/web_panel.rs:400-417 | both processes get the theme, each dropped on its own write error |
| ControlChannel.ConsumedIsApplied | crates/meridian-ui-runtime/src/gtk_host.rs:182-211 | reading the pipe line by line applies the written lines one by one |
| ControlChannel.AgreesIff | crates/meridian-shell/src/web_panel.rs:94-108 | the surface agrees with the flag after every consumed prefix exactly if no show was refused while the flag was down |
| ControlChannel.NextKeepsConsistent | crates/meridian-shell/src/web_panel.rs:205-421 | whatever is written, dies or is respawned, each kept process has a complete record of lines and flags |
| ControlChannel.RunsAgree | crates/meridian-shell/src/web_panel.rs:205-421 | over every run whose shown snapshots validate, both processes agree with the shell after every prefix |
| ControlChannel.RunsAgreeIff | crates/meridian-shell/src/web_panel.rs:205-421 | over every run, agreement holds exactly if no show was refused while hidden |
| ControlChannel.ActionsAreSeen | crates/meridian-shell/src/web_panel.rs:205-421 | end to end, after any validated run: what the processes show after each of the ten actions, in terms of what they showed before |
| ControlChannel.LauncherAfter | crates/meridian-shell/src/web_panel.rs:205-421 | for each of the ten actions: exactly when the slot holds a launcher afterwards, and which line was added to which record; a live one is toggled, not dropped |
| ControlChannel.QuickSettingsAfter | crates/meridian-shell/src/web_panel.rs:205-421 | the same for Quick Settings: an old process if it is alive where that is asked and the write succeeds, a new one if spawn and writes succeed |
| ControlChannel.WorkingActionsAreSeen | crates/meridian-shell/src/web_panel.rs:223-343 | after any validated run, with a system that spawns and writes: each toggle flips what is shown, a dead process is replaced and shown, and the settings appear with Quick Settings hidden |
| ControlChannel.RefusedShowDisagrees | crates/meridian-shell/src/web_panel.rs:292-343 | a run that loses agreement: the first toggle with a snapshot the process refuses |
| ControlReader.AlwaysFollows | crates/meridian-ui-runtime/src/gtk_host.rs:174-301 | over every history of writes and callbacks, the lines read are applied and the others are in buffer and pipe, in order |
| ControlReader.AlwaysAgrees | crates/meridian-ui-runtime/src/gtk_host.rs:174-301 | at any moment the process shows what the flag was when the last line it read had been written, if no show was refused |
| ControlReader.ComesToRest | crates/meridian-ui-runtime/src/gtk_host.rs:178-191 | the callbacks empty the pipe, after as many as there are unread lines at the latest |
| ControlReader.AllAppliedIff | crates/meridian-ui-runtime/src/gtk_host.rs:174-191 | at rest the lines not applied are those in the buffer, and all are applied exactly if it is empty |
| ControlReader.LastCallLeaves | crates/meridian-ui-runtime/src/gtk_host.rs:174-191 | the callback that empties the pipe leaves all lines but one of what it took out |
| ControlReader.BurstIff | crates/meridian-ui-runtime/src/gtk_host.rs:174-191 | a process at rest that gets some lines in one go, no more than its buffer holds, comes to rest again, and everything is then applied exactly if it was a single line |
| ControlReader.OnlyANewLauncherGetsTwo | crates/meridian-shell/src/web_panel.rs:205-421 | every action writes at most one line to a process, except a toggle that starts a launcher, which writes two |
| ControlReader.NewLauncherWaits | crates/meridian-shell/src/web_panel.rs:236-243 | a launcher started by a toggle comes to rest hidden while its flag is up, and appears with the next line |
| WrapText.Wrap | crates/meridian-polkit/src/ui.rs:300-329 | the loop returns the greedy rows, or the first `max_lines` of them with an ellipsis |
| WrapText.RowsIsWrapping | crates/meridian-polkit/src/ui.rs:303-324 | the rows hold every word in order, and each fits or is one word |
| WrapText.StaysAhead | crates/meridian-polkit/src/ui.rs:303-321 | greedy filling is never behind any other wrapping |
| WrapText.RowsAreFewest | crates/meridian-polkit/src/ui.rs:300-329 | no wrapping of the same words has fewer lines |
| WrapText.TruncatesOnlyWhenNecessary | crates/meridian-polkit/src/ui.rs:309-316 | at most `max_lines` lines, cut exactly when every wrapping needs more |
| WrapText.NoWordLost | crates/meridian-polkit/src/ui.rs:322-328 | without truncation re-splitting the lines gives the words of the text |
| WrapText.TruncationKeepsPrefix | crates/meridian-polkit/src/ui.rs:311-316 | with truncation the lines less the ellipsis are a proper prefix of the words |
| Text.SplitJoin | crates/meridian-polkit/src/ui.rs:303-308 | splitting at blanks undoes joining words with blanks |
| Reshuffle.LauncherState.Reshuffle | crates/meridian-shell/src/launcher.rs:32-46 | the array ends in the order reached by the generator's choices, every index in range |
| Reshuffle.ShuffledPermutes | crates/meridian-shell/src/launcher.rs:39-45 | every choice sequence yields a permutation and fixes the last position touched |
| Reshuffle.ShuffledInjective | crates/meridian-shell/src/launcher.rs:39-45 | for distinct apps different choices give different orders |
| Reshuffle.ShuffledReaches | crates/meridian-shell/src/launcher.rs:39-45 | every order of the apps is reached by some choices |
| Reshuffle.EveryOrderOnce | crates/meridian-shell/src/launcher.rs:39-45 | choice sequences and orders correspond one to one |
| Reshuffle.NextUndoesPrevious | crates/meridian-shell/src/launcher.rs:40-42 | a generator step undoes its inverse on every 64-bit state |
| Reshuffle.PreviousUndoesNext | crates/meridian-shell/src/launcher.rs:40-42 | and the inverse undoes a step, so a step is a permutation of the states |
| Reshuffle.TopBitsChoose | crates/meridian-shell/src/launcher.rs:43 | a choice is the number in the top 31 bits of the state, reduced to the positions left |
| Reshuffle.EveryChoiceIsDrawn | crates/meridian-shell/src/launcher.rs:39-44 | for every position and every choice there, some seed makes the generator draw it, at whichever step |
| Reshuffle.DrawsAreEven | crates/meridian-shell/src/launcher.rs:43 | as the top bits take all their values each choice is drawn equally often, up to one |
| Placeholders.ReplaceFills | crates/meridian-shell/src/theme_export.rs:157-160 | one replacement fills the holes of its name and nothing else, if no literal spells the name |
| Placeholders.ReplaceFillsIff | crates/meridian-shell/src/theme_export.rs:157-160 | and only then, for every value that does not start with `@` |
| Placeholders.ChainIsSimultaneous | crates/meridian-shell/src/theme_export.rs:153-176 | if no stage finds its name spelled by a literal, the chain equals one simultaneous substitution and leaves no `@@` when it covers all holes |
| Clashes.NeverSpelledIff | crates/meridian-shell/src/theme_export.rs:153-176 | for values with a character of no name, the stages go well exactly if no literal between two holes spells a name replaced while both are open |
| Clashes.ChainIff | crates/meridian-shell/src/theme_export.rs:153-176 | for such values the chain is simultaneous exactly if the template is free of such clashes, and, when all holes are bound, exactly if no `@@` is left |
| Clashes.UnspelledIsSimultaneous | crates/meridian-shell/src/theme_export.rs:150-176 | in particular when no literal between two holes spells a name |
| Clashes.ValueCompletesAName | crates/meridian-shell/src/theme_export.rs:157-175 | values without such a character are not safe: a template and values without `@` on which the chain is not simultaneous |
| Rescanning.ChainIsHoleByHole | crates/meridian-ui-runtime/src/document.rs:46-91 | for arbitrary values, on a template that keeps its holes apart, the chain rewrites each hole by itself |
| Rescanning.HoleSettles | crates/meridian-ui-runtime/src/document.rs:46-91 | what it leaves in a hole: the value, rewritten by the calls behind its own |
| Rescanning.ChainReplaces | crates/meridian-ui-runtime/src/document.rs:46-91 | a chain of visible values changes every text that contains one of its keys, where the first `@@` stood |
| Rescanning.ChainIffUntouched | crates/meridian-ui-runtime/src/document.rs:46-91 | if every value behind one with `@@` in it is non-empty and does not start with `@`, the chain is simultaneous exactly if no value put into a hole contains a key of a later call |
| Rescanning.DelimiterFreeIsSimultaneous | crates/meridian-ui-runtime/src/document.rs:81-91 | values without `@@`, even empty ones or ones that spell names, always give one simultaneous substitution, with no `@@` left when all holes are bound |
| Rescanning.OneUntrusted | crates/meridian-ui-runtime/src/document.rs:46-79 | with one arbitrary value among them, exactly if that value contains no key of a later call |
| Rescanning.OrderNeverMatters | crates/meridian-shell/src/theme_export.rs:150-152 | for values without `@@` two orders of the same calls give the same text |
| Placeholders.OrderIsIrrelevant | crates/meridian-shell/src/theme_export.rs:150-152 | on any template, two orders of the same calls that both go well give the same text |
| AppMarkup.CatalogMarkup | crates/meridian-ui-runtime/src/document.rs:133-151 | the loop writes one button per application, in order |
| AppMarkup.PanelMarkup | crates/meridian-ui-runtime/src/document.rs:113-131 | so does the loop for the panel |
| AppMarkup.FirstKnownDecides | crates/meridian-ui-runtime/src/document.rs:153-169 | the first category that has a launcher category decides it, and without one it is utilities |
| MarkupReader.ReadAll | crates/meridian-ui-runtime/src/document.rs:182-189 | a reader of tags, attribute values and text gets back what was written piece by piece, with entities decoded, if each piece is clean |
| CatalogReader.CatalogReads | crates/meridian-ui-runtime/src/document.rs:133-151 | reading the catalogue gives one button per application, in order: its id, search text, name, category and label, icon number, selected if the first, favorite if among the first six |
| CatalogReader.PanelReads | crates/meridian-ui-runtime/src/document.rs:113-131 | reading the panel gives one button per application shown, in order, with its id, name and icon number |
| Documents.EscapeContains | crates/meridian-ui-runtime/src/document.rs:182-189 | escaping neither makes nor breaks a placeholder |
| Documents.CatalogContains | crates/meridian-ui-runtime/src/document.rs:133-151 | the catalogue contains a placeholder exactly if some application's name, id or category does |
| Documents.DiagnosticIff | crates/meridian-ui-runtime/src/document.rs:46-57 | the diagnostic document is what its template says exactly if no installed application mentions the two placeholders replaced behind the catalogue |
| Documents.AppNamedLikeAPlaceholder | crates/meridian-ui-runtime/src/document.rs:46-57 | an application named `@@MERIDIAN_OS@@` makes it fail in every template with a catalogue |
| Documents.PanelIff | crates/meridian-ui-runtime/src/document.rs:68-79 | the same for the panel document, the applications shown in it and the theme |
| Documents.QuickSettingsIsSimultaneous | crates/meridian-ui-runtime/src/document.rs:81-91 | the Quick Settings document is always one simultaneous substitution |
| Documents.DiagnosticHoles | crates/meridian-ui-runtime/src/document.rs:46-57 | which text belongs in which hole of the diagnostic document |
| Documents.PanelHoles | crates/meridian-ui-runtime/src/document.rs:68-79 | and of the panel document |
| Documents.QuickSettingsHoles | crates/meridian-ui-runtime/src/document.rs:81-91 | and of the Quick Settings document |
| StyleSheets.ThemeIsPrinted | crates/meridian-shell/src/theme_export.rs:160-175 | every printed colour, number and opacity has no `@` and a character of no token |
| StyleSheets.StyleSheetIsSimultaneous | crates/meridian-shell/src/theme_export.rs:153-176 | for every theme, on templates that keep their holes apart or whose literals spell no token |
| StyleSheets.StyleSheetIff | crates/meridian-shell/src/theme_export.rs:153-176 | for every theme and any template with unambiguous delimiters, exactly if it is free of clashes |
| StyleSheets.LiteralTakenForToken | crates/meridian-shell/src/theme_export.rs:157-175 | a template on which the chain fails for every theme |
| StyleSheets.TokensShowTheTheme | crates/meridian-shell/src/theme_export.rs:153-176 | for each token, the text put in shows its own field of the theme, numbers and colours read back |
| StyleSheets.HexReads | crates/meridian-tokens/src/color.rs:48-54 | a colour can be read off its hexadecimal form, which has an alpha channel exactly if the colour is translucent |
| StyleSheets.AlphasDiffer | crates/meridian-shell/src/theme_export.rs:163 | no two opacities are printed alike |
| StyleSheets.AlphaReads | crates/meridian-shell/src/theme_export.rs:163 | the printed opacity reads back as its hundredths |
| HtmlEscape.EscapeIsPerCharacter | crates/meridian-ui-runtime/src/document.rs:182-189 | the five replacements act on each character once |
| HtmlEscape.NoRawMarkup | crates/meridian-ui-runtime/src/document.rs:182-189 | no angle bracket or quote survives |
| HtmlEscape.EscapeRoundTrip | crates/meridian-ui-runtime/src/document.rs:182-189 | decoding the entities recovers every text |
| Exec.TokenizeExec | crates/meridian-app-catalog/src/lib.rs:256-280 | the loop computes the catalogue's tokens |
| Exec.StripFieldCodes | crates/meridian-app-catalog/src/lib.rs:282-301 | the loop strips field codes and undoubles percent signs |
| Exec.ParseExec | crates/meridian-shell/src/autostart.rs:104-135 | the loop computes the autostart tokens, less those that are a field code |
| Exec.TokenizersAgree | crates/meridian-app-catalog/src/lib.rs:256-280 | both tokenizers give the same tokens on the common fragment, from any matching states |
| Exec.TokenizersAgreeIff | crates/meridian-app-catalog/src/lib.rs:256-280 | on all strings: the tokenizers give the same tokens exactly on the common fragment |
| Exec.ParseEncoded | crates/meridian-app-catalog/src/lib.rs:246-280 | arguments written in double quotes, single quotes or backslashes, in any mix, are read back trimmed, the blank ones dropped |
| Exec.ExecRoundTrip | crates/meridian-app-catalog/src/lib.rs:246-301 | the round trip is exact if and only if every argument is non-empty and trimmed |
| Exec.StripsOnlyCodes | crates/meridian-app-catalog/src/lib.rs:282-301 | stripping changes exactly the tokens with a percent sign in front of a letter or of another percent sign |
| Exec.StripsOneCode | crates/meridian-app-catalog/src/lib.rs:282-301 | what is left of a percent sign with each character behind it |
| Exec.FieldCodesVanish | crates/meridian-shell/src/autostart.rs:137-142 | the thirteen field codes are two-character tokens that stripping removes |
| Exec.ArgumentsAreTrimmed | crates/meridian-app-catalog/src/lib.rs:246-254 | no argument is empty or has outer blanks, whatever the tokens |
| Exec.ParsersAgree | crates/meridian-shell/src/autostart.rs:104-135 | on the common fragment, if field codes stand alone, both parsers launch the same trimmed arguments |
| MenuForest.PushDisplayEntries | crates/meridian-shell/src/status_notifier.rs:116-127 | appends the preorder rows of the subtree |
| MenuForest.DisplayEntries | crates/meridian-shell/src/status_notifier.rs:81-87 | returns the preorder rows of the forest |
| MenuForest.UnflattenFlat | crates/meridian-shell/src/status_notifier.rs:81-127 | the rows determine the whole forest |
| MenuForest.FlatUnflatten | crates/meridian-shell/src/status_notifier.rs:81-127 | every well-nested list of rows is the flattening of the forest read from it |
| MenuForest.DisplayableRows | crates/meridian-shell/src/status_notifier.rs:81-127 | menus show exactly the well-nested lists of rows |
| MenuForest.RowsMatchMenu | crates/meridian-shell/src/status_notifier.rs:69-114 | the counts and the first label of the menu are those of its rows |
| MimeIndex.ParseMimeTypes | crates/meridian-shell/src/default_apps.rs:469-475 | collects the declared types without repetition |
| MimeIndex.SplitExact | crates/meridian-shell/src/default_apps.rs:470 | the pieces contain no separator and make up the value again |
| Text.TrimExact | crates/meridian-shell/src/default_apps.rs:470 | trimming removes the outer blanks, all of them and nothing else |
| MimeIndex.MergedProperties | crates/meridian-shell/src/default_apps.rs:469-475 | no type twice, none missing, in order of first declaration |
| MimeIndex.DeclaredConcat | crates/meridian-shell/src/default_apps.rs:469-475 | values are read one after the other |
| MimeIndex.DeclaredAcross | crates/meridian-shell/src/default_apps.rs:470 | the two sides of a separator declare what they declare apart |
| MimeIndex.DeclaredPart | crates/meridian-shell/src/default_apps.rs:470-474 | a part without separators declares itself trimmed, or nothing if it is blank |
| MimeIndex.MimeAppIndex.LoadSystem | crates/meridian-shell/src/default_apps.rs:252-285 | the index holds the first usable entry of each desktop id, and positions for every type they declare |
| MimeIndex.MimeAppIndex.Enter | crates/meridian-shell/src/default_apps.rs:277-281 | entering an app keeps the index complete |
| MimeIndex.MimeAppIndex.AppsForMime | crates/meridian-shell/src/default_apps.rs:289-297 | returns the stable name-sort of a linear filter |
| MimeIndex.DeclaringExact | crates/meridian-shell/src/default_apps.rs:278-280 | the positions of a type are strictly increasing and exactly those of the apps declaring it |
| MimeIndex.AtDeclaring | crates/meridian-shell/src/default_apps.rs:290-294 | going through the index equals a linear scan |
| MimeIndex.KeptIsFirstOfEachId | crates/meridian-shell/src/default_apps.rs:270-276 | desktop ids are distinct and the kept entries are exactly the first of each |
| MimeIndex.KeptInOrder | crates/meridian-shell/src/default_apps.rs:277-281 | kept entries stay in directory order |
| MimeIndex.CandidatesConcat | crates/meridian-shell/src/default_apps.rs:255-258 | directories are read one after the other |
| MimeIndex.CandidatesInOne | crates/meridian-shell/src/default_apps.rs:256-269 | a directory that cannot be read gives nothing; else each entry counts, in order, if it parsed and declares a type |
| MimeIndex.MimeAppIndex.Lookup | crates/meridian-shell/src/default_apps.rs:300-302 | the app found has the id, and none is found only if no app has it |
| MimeIndex.LookupFindsFirst | crates/meridian-shell/src/default_apps.rs:300-302 | a lookup finds the first usable entry with the id, or there is none |
| MimeIndex.LeqIff | crates/meridian-shell/src/default_apps.rs:295 | the order of names is that of the first character in which they differ, a proper prefix first |
| MimeIndex.SortByName | crates/meridian-shell/src/default_apps.rs:295 | the result is sorted by name and stable |
| MimeIndex.StableSortUnique | crates/meridian-shell/src/default_apps.rs:295 | a list has only one stable sort |
| Watchdog.ShellWatchdog.constructor | src/main.rs:38-50 | initial state |
| Watchdog.ShellWatchdog.Start | src/main.rs:52-97 | a spawn records child and time, a failure doubles the delay, and nothing happens when shutting down |
| Watchdog.ShellWatchdog.Watch | src/main.rs:99-130 | one tick: account for an exit, then start if no child is tracked and the delay has passed |
| Watchdog.ShellWatchdog.BumpRestartDelay | src/main.rs:132-134 | the delay is doubled within its bounds |
| Watchdog.ShellWatchdog.Stop | src/main.rs:136-143 | the child is gone and the flag is up |
| Watchdog.DelayInRange | src/main.rs:164-167 | the delay is between 2 and 30 seconds in every state of every run |
| Watchdog.DelayIsBackoff | src/main.rs:99-134 | it is min(30, 2^(b+1)) seconds after b short-lived exits and failed spawns since the last stable exit |
| Watchdog.StartsAreSpaced | src/main.rs:127-129 | successive starts are at least the delay in force apart |
| Watchdog.FirstStartIsSpaced | src/main.rs:235-241 | so are the first start and the next |
| Watchdog.StartsMatchEnds | src/main.rs:104-129 | in every state of every run, each shell started has ended, or could not be waited for, except the one tracked, so at most one is tracked |
| Watchdog.EndBetweenStarts | src/main.rs:104-129 | between two starts the earlier shell was seen to exit or could not be waited for |
| Watchdog.RestartsInTime | src/main.rs:99-130 | an ended shell is started again no later than by the first tick, as long after its last start as the delay in force, whose spawn succeeds |
| Watchdog.StartsExactlyWhenDue | src/main.rs:99-143 | in every run a tick starts a shell exactly if there was no stop, no shell is left after the poll, the spawn succeeds, and the time since the last start is at least the backoff for the short-lived exits and failed spawns so far |
| Watchdog.NothingAfterStop | src/main.rs:136-143 | after a stop no run starts anything again |
| Workspaces.WorkspaceManager.constructor | crates/meridian-compositor/src/workspace.rs:26-31 | nine empty workspaces, the first active |
| Workspaces.WorkspaceManager.FindElementWorkspace | crates/meridian-compositor/src/workspace.rs:57-69 | the first workspace with a match, or no window anywhere matches |
| Workspaces.WorkspaceManager.ReclampOffscreenWindows | crates/meridian-compositor/src/workspace.rs:76-106 | strays of all workspaces go to the fallback, and their number is returned |
| Workspaces.WorkspaceManager.TrySwitch | crates/meridian-compositor/src/workspace.rs:113-120 | switches to another workspace in range or does nothing |
| Workspaces.WorkspaceManager.MoveWindowTo | crates/meridian-compositor/src/workspace.rs:123-133 | unmaps from the active and maps on the target workspace |
| Workspaces.WorkspaceManager.RemapOutputs | crates/meridian-compositor/src/workspace.rs:136-141 | the outputs leave one workspace and join the other |
| Workspaces.MoveKeepsUniqueIff | crates/meridian-compositor/src/workspace.rs:123-133 | a move keeps windows unique exactly if the window is nowhere but on the active or target workspace |
| Workspaces.MoveFromActive | crates/meridian-compositor/src/workspace.rs:127-132 | a moved window is on the target only, at its old location, and no other window changes |
| Workspaces.MoveFromElsewhere | crates/meridian-compositor/src/workspace.rs:127-132 | a window that is not on the active workspace is mapped on the target at the origin, and nothing else changes |
| Workspaces.RunKeepsWindows | crates/meridian-compositor/src/workspace.rs:108-133 | over every run the index stays in range, windows stay unique and none is lost or created |
| Workspaces.SearchFindsTheHome | crates/meridian-compositor/src/workspace.rs:53-69 | searching for a window finds its only home if windows are unique, and nothing if it is mapped nowhere |
| Workspaces.ReclampEffect | crates/meridian-compositor/src/workspace.rs:71-75 | windows overlapping an output stay, all others are at the fallback |
| Workspaces.ReclampIdempotent | crates/meridian-compositor/src/workspace.rs:76-106 | rescuing again moves nothing |
| Workspaces.SecondReclampIff | crates/meridian-compositor/src/workspace.rs:89-103 | and counts nothing exactly if every stray overlaps an output at the fallback |
| Workspaces.StraysCounted | crates/meridian-compositor/src/workspace.rs:79-103 | the number reported is that of the windows overlapping no output, on all workspaces together |
| Workspaces.OverlapIff | crates/meridian-compositor/src/workspace.rs:89-103 | non-empty rectangles overlap exactly if they share a point; touching is not enough |
| Workspaces.SwitchReaches | crates/meridian-compositor/src/workspace.rs:113-120 | a switch reaches every workspace but the active one, and leaves the windows alone |
| Workspaces.SwitchAndRemap | crates/meridian-compositor/src/state/layout/workspace.rs:248-253 | after a switch all outputs are on the active workspace and on no other |
| RoundedRect.RoundedRectCoverage | crates/meridian-shell/src/popup_card.rs:77-100 | counts the samples inside and scales the count to a byte |
| RoundedRect.SampleInsideIff | crates/meridian-shell/src/popup_card.rs:102-121 | the sample test decides the rounded rectangle: points within the radius of the rectangle between the corner centres |
| RoundedRect.CoverageIsTheShare | crates/meridian-shell/src/popup_card.rs:77-100 | coverage is the share of the samples in the rounded rectangle of the clamped radius, sharp corners included, and none outside |
| RoundedRect.CoverageSymmetric | crates/meridian-shell/src/popup_card.rs:77-121 | coverage is symmetric under both reflections |
| RoundedRect.InsetCoversNoMore | crates/meridian-shell/src/popup_card.rs:57-62 | the inset shape never covers a pixel more than the outer one, for any size and radius |
| RoundedRect.BorderIsExact | crates/meridian-shell/src/popup_card.rs:164-169 | the saturating subtraction never saturates |
| RoundedRect.BorderSymmetric | crates/meridian-shell/src/popup_card.rs:164-169 | the border is symmetric under both reflections |
| RoundedRect.BorderPixelPremultiplied | crates/meridian-shell/src/popup_card.rs:174-182 | a border pixel is premultiplied and no byte wraps |
| RoundedRect.BorderPixelIsTheColour | crates/meridian-shell/src/popup_card.rs:174-182 | its alpha is the share of the colour in the coverage, and each channel the share of its own channel in that alpha |
| RoundedRect.DrawCardBorderInRect | crates/meridian-shell/src/popup_card.rs:141-185 | every byte of the buffer after drawing: border pixels where the border covers, all else untouched |
| RoundedRect.RectIsBordered | crates/meridian-shell/src/popup_card.rs:141-185 | every pixel of the rectangle on the canvas holds the border pixel of its coverage, or is untouched where there is none |
| RoundedRect.DrawCardBorder | crates/meridian-shell/src/popup_card.rs:48-75 | drawing without bounds checks gives every byte of the canvas the value of the checked drawing |
| RoundedRect.DrawCardBody | crates/meridian-shell/src/popup_card.rs:41-46 | every pixel of the card body is the premultiplied border pixel of its coverage, transparent where there is none |
| RoundedRect.BorderKeepsPremultiplied | crates/meridian-shell/src/popup_card.rs:141-185 | a premultiplied buffer stays premultiplied, and only covered pixels change |
| SoftShadow.CompositeCardOntoSurface | crates/meridian-shell/src/soft_shadow.rs:20-61 | every byte of the surface after compositing |
| SoftShadow.StorePixel | crates/meridian-shell/src/soft_shadow.rs:45-58 | the three ways a pixel is stored |
| SoftShadow.BlendNeverWraps | crates/meridian-shell/src/soft_shadow.rs:53-58 | on premultiplied pixels no byte cast wraps |
| SoftShadow.ComposedPremultiplied | crates/meridian-shell/src/soft_shadow.rs:45-58 | the result is premultiplied |
| SoftShadow.FastPathsAgree | crates/meridian-shell/src/soft_shadow.rs:46-52 | the opaque path always equals the formula, the transparent one exactly for premultiplied sources |
| SoftShadow.ComposedIsOver | crates/meridian-shell/src/soft_shadow.rs:45-58 | for premultiplied pixels each channel is the source plus the share of the destination that shows through |
| SoftShadow.CardIsComposed | crates/meridian-shell/src/soft_shadow.rs:30-58 | every pixel of the card that falls on the surface is composed with the pixel below it |
| SoftShadow.OutsideUntouched | crates/meridian-shell/src/soft_shadow.rs:30-44 | nothing outside the card changes |
| SoftShadow.SurfaceStaysPremultiplied | crates/meridian-shell/src/soft_shadow.rs:13-18 | a premultiplied surface stays premultiplied, pixel for pixel |
| RegionPicker.DragSymmetric | crates/meridian-shell/src/region_picker.rs:65-84 | the selection does not depend on which corner the drag started from |
| RegionPicker.DragSelectsBoxOnCanvas | crates/meridian-shell/src/region_picker.rs:65-84 | the selection is the drag's box cut to the canvas, and there is none exactly if that is empty |
| RegionPicker.HugeCanvasSelectsNothing | crates/meridian-shell/src/region_picker.rs:73-77 | a canvas side beyond i32 refuses every drag |
| RegionPicker.FillDim | crates/meridian-shell/src/region_picker.rs:106-118 | dims the whole canvas, or nothing if the buffer is short |
| RegionPicker.ClearRectInterior | crates/meridian-shell/src/region_picker.rs:120-145 | clears the selection's rows that fit the buffer |
| RegionPicker.Put | crates/meridian-shell/src/region_picker.rs:156-168 | paints one pixel if it is on the canvas and in the buffer |
| RegionPicker.DrawRectBorder | crates/meridian-shell/src/region_picker.rs:147-181 | paints exactly the points within the thickness of an edge |
| RegionPicker.DrawOverlay | crates/meridian-shell/src/region_picker.rs:91-102 | every byte of the finished overlay |
| RegionPicker.OverlayOfSelection | crates/meridian-shell/src/region_picker.rs:13-16 | white rim, transparent inside, dimmed outside, for selections of at least 3 by 3 |
| RegionPicker.BorderStaysInsideIff | crates/meridian-shell/src/region_picker.rs:169-180 | the border stays inside the selection exactly if it is not thinner than the border or fills the canvas |

## Left out

- Process spawning, pipes, clocks and directory reads: what the system answers is a parameter of each step.
- What becomes of unread lines once the pipe hangs up, and how long a callback waits for the rest of a line.
- The reader's capacity is counted in characters, not in bytes, and a read takes all there is up to it.
- JSON text and its schema checks: a snapshot is one line of text ending in a visible character, and the
  checks are arbitrary predicates.
- The web view being gone while the window is still there: input and opacity are then changed separately.
- The managed panel process: it has no visible flag.
- The password dialog itself, PAM and retries: closing the dialog is one step that may happen at any time.
- Which outcome a call returns: BeginAuthentication discards it.
- A watchdog wait error while the old process still runs: the model, like the code, stops tracking it.
- Spacing between failed spawn attempts: `last_start` is not updated by a failure, so none is guaranteed.
- Workspaces.WorkspaceManager.FindElementWorkspace: may report any matching window of the first workspace that
  has one, because the stacking order of windows is not modelled.
- Floating-point rounding of the corner samples: coordinates are exact integers here, as they are in `f32`
  for corner radii of a few hundred pixels.
- Overflow of `i32` in `radius - 1` for the smallest radius and in buffer offsets beyond 2^31 bytes.
- RegionPicker.ClearRectInterior: requires coordinates whose sums fit an i32, because the code overflows or
  panics otherwise; the selections the picker makes satisfy this.
- RegionPicker.DrawRectBorder: requires the same of its rectangle, for the same reason.
- RoundedRect.DrawCardBorder: requires a buffer that holds the whole canvas, because the code panics in the
  middle of drawing otherwise.
- The status text of the region picker, soft shadows, fonts and everything drawn with vector graphics.
- `str::to_lowercase` in the sort by name: any function from names to keys.
- The texts compiled into the documents: the theorems hold for all templates that keep their holes apart, as
  the bundled ones do with line breaks and punctuation, and for all style sheets and scripts without `@@`.
- Which applications the panel shows: any list of applications.
- The texts of the fixed tables: which launcher category a freedesktop category has, labels, and names of systems.
- How an `f32` opacity is rounded to hundredths: the printed number of hundredths is part of the theme.
