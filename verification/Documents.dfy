/**
 * The three bundled HTML documents: what is put into their holes, in which order.
 *
 * All texts but one are compiled in.  The list of installed applications is not: an application may be
 * named after a placeholder, and the calls behind the one that inserts the list then rewrite its name.
 */
module Documents {
  import opened AppMarkup
  import opened HtmlEscape
  import opened MarkupReader
  import opened Placeholders
  import opened Replacing
  import opened Rescanning
  import opened Text

  datatype ThemeChoice = Dark | Light {
    function Attribute(): string {
      match this
      case Dark => "dark"
      case Light => "light"
    }
  }

  function TargetOsLabel(os: string): string {
    if os == "openbsd" then "OpenBSD"
    else if os == "freebsd" then "FreeBSD"
    else if os == "linux" then "Linux"
    else "Unix"
  }

  // ----- The documents -----

  function EarlyDiagnosticBindings(tokens: string, css: string, sprite: string, script: string): seq<Binding> {
    [ Binding("MERIDIAN_TOKENS", tokens),
      Binding("MERIDIAN_COMPONENT_CSS", css),
      Binding("MERIDIAN_ICON_SPRITE", sprite),
      Binding("MERIDIAN_LAUNCHER_SCRIPT", script) ]
  }

  function LateDiagnosticBindings(os: string, theme: ThemeChoice): seq<Binding> {
    [ Binding("MERIDIAN_OS", TargetOsLabel(os)),
      Binding("MERIDIAN_THEME", theme.Attribute()) ]
  }

  function DiagnosticBindings(tokens: string, css: string, sprite: string, script: string, apps: seq<App>,
                              os: string, theme: ThemeChoice): seq<Binding> {
    EarlyDiagnosticBindings(tokens, css, sprite, script)
    + [Binding("MERIDIAN_APP_CATALOG", Catalog(apps, 0))]
    + LateDiagnosticBindings(os, theme)
  }

  function DiagnosticHtml(html: string, tokens: string, css: string, sprite: string, script: string, apps: seq<App>,
                          os: string, theme: ThemeChoice): string {
    ReplaceChain(html, DiagnosticBindings(tokens, css, sprite, script, apps, os, theme))
  }

  function EarlyPanelBindings(tokens: string, css: string, sprite: string, script: string): seq<Binding> {
    [ Binding("MERIDIAN_TOKENS", tokens),
      Binding("MERIDIAN_PANEL_CSS", css),
      Binding("MERIDIAN_ICON_SPRITE", sprite),
      Binding("MERIDIAN_PANEL_SCRIPT", script) ]
  }

  function PanelBindings(tokens: string, css: string, sprite: string, script: string, selected: seq<(nat, App)>,
                         theme: ThemeChoice): seq<Binding> {
    EarlyPanelBindings(tokens, css, sprite, script)
    + [Binding("MERIDIAN_PANEL_APPS", PanelApps(selected))]
    + [Binding("MERIDIAN_THEME", theme.Attribute())]
  }

  function PanelHtml(html: string, tokens: string, css: string, sprite: string, script: string,
                     selected: seq<(nat, App)>, theme: ThemeChoice): string {
    ReplaceChain(html, PanelBindings(tokens, css, sprite, script, selected, theme))
  }

  function QuickSettingsBindings(tokens: string, css: string, script: string, sprite: string,
                                 theme: ThemeChoice): seq<Binding> {
    [ Binding("MERIDIAN_TOKENS", tokens),
      Binding("MERIDIAN_QUICK_SETTINGS_CSS", css),
      Binding("MERIDIAN_QUICK_SETTINGS_SCRIPT", script),
      Binding("MERIDIAN_ICON_SPRITE", sprite),
      Binding("MERIDIAN_THEME", theme.Attribute()) ]
  }

  function QuickSettingsHtml(html: string, tokens: string, css: string, script: string, sprite: string,
                             theme: ThemeChoice): string {
    ReplaceChain(html, QuickSettingsBindings(tokens, css, script, sprite, theme))
  }

  // ----- Where a key can be in markup -----

  /** Only a text that contains `@` contains a key. */
  lemma {:induction false} NoAtNoKey(s: string, name: string)
    requires '@' !in s
    ensures !Contains(s, Key(name))
  {
    forall i | 0 <= i <= |s| ensures !(Key(name) <= s[i..]) {
      assert Key(name)[0] == '@';
      assert forall k :: 0 <= k < |s[i..]| ==> s[i..][k] == s[i + k] && s[i + k] in s;
    }
  }

  /** A pattern is found in front of or behind a character it does not have. */
  lemma {:induction false} ContainsAround(a: string, c: char, b: string, pattern: string)
    requires pattern != "" && c !in pattern
    ensures Contains(a + [c] + b, pattern) <==> Contains(a, pattern) || Contains(b, pattern)
  {
    var s := a + [c] + b;
    if Contains(a, pattern) {
      var i :| 0 <= i <= |a| && pattern <= a[i..];
      assert s[i..] == a[i..] + ([c] + b);
    } else if Contains(b, pattern) {
      var i :| 0 <= i <= |b| && pattern <= b[i..];
      assert s[|a| + 1 + i..] == b[i..];
    } else if Contains(s, pattern) {
      var i :| 0 <= i <= |s| && pattern <= s[i..];
      NotAcross(a, c, b, pattern, i);
      assert false;
    }
  }

  lemma {:induction false} NotAcross(a: string, c: char, b: string, pattern: string, i: nat)
    requires pattern != "" && c !in pattern && i <= |a + [c] + b| && pattern <= (a + [c] + b)[i..]
    ensures Contains(a, pattern) || Contains(b, pattern)
  {
    var s, n := a + [c] + b, |pattern|;
    assert pattern == s[i..][..n] == s[i..i + n];
    if i > |a| {
      assert s[i..] == b[i - |a| - 1..];
    } else if i + n <= |a| {
      assert a[i..][..n] == s[i..i + n];
    } else {
      CoversMiddle(a, c, b, pattern, i);
    }
  }

  lemma {:induction false} CoversMiddle(a: string, c: char, b: string, pattern: string, i: nat)
    requires i <= |a| < i + |pattern| && pattern <= (a + [c] + b)[i..]
    ensures c in pattern
  {
    assert pattern[|a| - i] == (a + [c] + b)[i..][|a| - i] == (a + [c] + b)[|a|] == c;
  }

  /** A character that is in no key. */
  predicate IsBreak(c: char) {
    c != '@' && !IsNameCharacter(c)
  }

  lemma {:induction false} BreakNotInKey(c: char, name: string)
    requires IsBreak(c) && IsPlaceholder(name)
    ensures c !in Key(name)
  {
    assert forall i :: 2 <= i < |name| + 2 ==> Key(name)[i] == name[i - 2];
  }

  /** A field between fixed texts that end and begin with such a character. */
  lemma {:induction false} FieldContains(p: string, field: string, q: string, name: string)
    requires IsPlaceholder(name) && '@' !in p
    requires p != "" && IsBreak(p[|p| - 1]) && q != "" && IsBreak(q[0])
    ensures Contains(p + field + q, Key(name)) <==> Contains(field, Key(name)) || Contains(q, Key(name))
  {
    var front, c, d, back := p[..|p| - 1], p[|p| - 1], q[0], q[1..];
    BreakNotInKey(c, name);
    BreakNotInKey(d, name);
    NoAtNoKey(front, name);
    NoAtNoKey("", name);
    hide Contains, Key;
    ContainsAround(front, c, field, Key(name));
    ContainsAround(p + field, d, back, Key(name));
    ContainsAround("", d, back, Key(name));
    assert p == front + [c] && q == [d] + back && "" + [d] + back == q;
    ConcatAssociative(p + field, [d], back);
  }

  lemma {:induction false} ContainsCons(c: char, rest: string, pattern: string)
    requires pattern != ""
    ensures Contains([c] + rest, pattern) <==> pattern <= [c] + rest || Contains(rest, pattern)
  {
    var s := [c] + rest;
    assert s[0..] == s && s[1..] == rest;
    if Contains(s, pattern) {
      ContainsBehind(s, pattern);
    }
    if Contains(rest, pattern) {
      var i :| 0 <= i <= |rest| && pattern <= rest[i..];
      assert s[i + 1..] == rest[i..];
    }
  }

  // ----- Escaping neither makes nor breaks a key -----

  predicate IsPlain(s: string) {
    forall i :: 0 <= i < |s| ==> Entity(s[i]) == [s[i]]
  }

  lemma {:induction false} PlainPrefix(pattern: string, s: string)
    requires IsPlain(pattern)
    ensures pattern <= PerCharacter(s) <==> pattern <= s
    decreases |s|
  {
    if pattern != "" && s != "" {
      var e := Entity(s[0]);
      if pattern[0] == s[0] {
        assert e == [s[0]];
        assert forall i :: 0 <= i < |pattern[1..]| ==> pattern[1..][i] == pattern[i + 1];
        PlainPrefix(pattern[1..], s[1..]);
        assert PerCharacter(s) == [s[0]] + PerCharacter(s[1..]) && s == [s[0]] + s[1..];
        ConsPrefix(pattern, s[0], PerCharacter(s[1..]));
        ConsPrefix(pattern, s[0], s[1..]);
      } else {
        assert PerCharacter(s)[0] == e[0];
        assert e[0] == s[0] || e[0] == '&';
        assert Entity('&') != ['&'];
        assert pattern[0] != e[0];
      }
    }
  }

  lemma {:induction false} ConsPrefix(pattern: string, c: char, rest: string)
    requires pattern != "" && pattern[0] == c
    ensures pattern <= [c] + rest <==> pattern[1..] <= rest
  {
    assert pattern == [c] + pattern[1..] && ([c] + rest)[1..] == rest;
    if pattern <= [c] + rest {
      assert pattern[1..] == ([c] + rest)[..|pattern|][1..] == rest[..|pattern| - 1];
    }
  }

  lemma {:induction false} KeyIsPlain(name: string)
    requires IsPlaceholder(name)
    ensures IsPlain(Key(name))
  {
    assert forall i :: 2 <= i < |name| + 2 ==> Key(name)[i] == name[i - 2];
  }

  lemma {:induction false} EscapeContains(s: string, name: string)
    requires IsPlaceholder(name)
    ensures Contains(EscapeHtml(s), Key(name)) <==> Contains(s, Key(name))
    decreases |s|
  {
    EscapeIsPerCharacter(s);
    if s != "" {
      var c, rest := s[0], s[1..];
      EscapeIsPerCharacter(rest);
      EscapeContains(rest, name);
      assert s == [c] + rest;
      hide Contains, EscapeHtml;
      if Entity(c) == [c] {
        KeyIsPlain(name);
        PlainPrefix(Key(name), s);
        ContainsCons(c, PerCharacter(rest), Key(name));
        ContainsCons(c, rest, Key(name));
      } else {
        EntityContains(c, PerCharacter(rest), name);
      }
    }
  }

  lemma {:induction false} EntityContains(c: char, rest: string, name: string)
    requires IsPlaceholder(name) && Entity(c) != [c]
    ensures Contains(Entity(c) + rest, Key(name)) <==> Contains(rest, Key(name))
    ensures forall behind: string :: Contains([c] + behind, Key(name)) <==> Contains(behind, Key(name))
  {
    var e := Entity(c);
    var front := e[..|e| - 1];
    assert IsBreak(c) && IsBreak(';') && e == front + [';'] && '@' !in front;
    BreakNotInKey(c, name);
    BreakNotInKey(';', name);
    NoAtNoKey(front, name);
    NoAtNoKey("", name);
    hide Contains, Key, Entity;
    ContainsAround(front, ';', rest, Key(name));
    forall behind: string ensures Contains([c] + behind, Key(name)) <==> Contains(behind, Key(name)) {
      ContainsAround("", c, behind, Key(name));
      assert "" + [c] + behind == [c] + behind;
    }
  }

  // ----- Which applications put a key into the markup -----

  predicate AnyContains(words: seq<string>, pattern: string) {
    exists i :: 0 <= i < |words| && Contains(words[i], pattern)
  }

  lemma {:induction false} JoinContains(words: seq<string>, name: string)
    requires IsPlaceholder(name)
    ensures Contains(Join(words), Key(name)) <==> AnyContains(words, Key(name))
    decreases |words|
  {
    hide Contains, Key;
    if words == [] {
      NoAtNoKey("", name);
    } else if |words| > 1 {
      var n := |words| - 1;
      BreakNotInKey(' ', name);
      JoinContains(words[..n], name);
      ContainsAround(Join(words[..n]), ' ', words[n], Key(name));
      assert AnyContains(words[..n], Key(name)) ==> AnyContains(words, Key(name)) by {
        if AnyContains(words[..n], Key(name)) {
          var i :| 0 <= i < n && Contains(words[..n][i], Key(name));
          assert words[i] == words[..n][i];
        }
      }
      assert forall i :: 0 <= i < n ==> words[i] == words[..n][i];
    }
  }

  /** The application's name, its id or one of its categories contains the key. */
  predicate Mentions(app: App, name: string) {
    || Contains(app.desktopId, Key(name))
    || Contains(app.name, Key(name))
    || AnyContains(app.categories, Key(name))
  }

  predicate NoneMentions(apps: seq<App>, name: string) {
    forall i :: 0 <= i < |apps| ==> !Mentions(apps[i], name)
  }

  lemma {:induction false} SearchContains(app: App, name: string)
    requires IsPlaceholder(name)
    ensures Contains(Search(app), Key(name))
       <==> Contains(app.name, Key(name)) || AnyContains(app.categories, Key(name))
  {
    hide Contains, Key, AnyContains;
    BreakNotInKey(' ', name);
    ContainsAround(app.name, ' ', Join(app.categories), Key(name));
    JoinContains(app.categories, name);
  }

  // ----- Keys in written markup -----

  /** Some value or text of the markup contains the pattern. */
  predicate AnyRaw(sources: seq<Source>, pattern: string) {
    exists i :: 0 <= i < |sources| && Contains(sources[i].raw, pattern)
  }

  lemma {:induction false} AnyRawConcat(a: seq<Source>, b: seq<Source>, pattern: string)
    ensures AnyRaw(a + b, pattern) <==> AnyRaw(a, pattern) || AnyRaw(b, pattern)
  {
    hide Contains;
    if AnyRaw(a, pattern) {
      var i :| 0 <= i < |a| && Contains(a[i].raw, pattern);
      assert (a + b)[i] == a[i];
    }
    if AnyRaw(b, pattern) {
      var i :| 0 <= i < |b| && Contains(b[i].raw, pattern);
      assert (a + b)[|a| + i] == b[i];
    }
  }

  lemma {:induction false} SourceContains(s: Source, rest: string, name: string)
    requires IsPlaceholder(name) && IsClean(s) && (s.quoted || rest == "" || StartsTag(rest))
    ensures Contains(Shown(s) + rest, Key(name)) <==> Contains(s.raw, Key(name)) || Contains(rest, Key(name))
  {
    if s.quoted {
      QuotedContains(s, rest, name);
    } else {
      TextContains(s, rest, name);
    }
  }

  lemma {:induction false} QuotedContains(s: Source, rest: string, name: string)
    requires IsPlaceholder(name) && IsClean(s) && s.quoted
    ensures Contains(Shown(s) + rest, Key(name)) <==> Contains(s.raw, Key(name)) || Contains(rest, Key(name))
  {
    var p, q := s.markup + "\"", "\"" + rest;
    BreakNotInKey('"', name);
    NoAtNoKey("", name);
    hide Contains, Key, IsPlaceholder;
    assert Shown(s) + rest == p + s.raw + q;
    FieldContains(p, s.raw, q, name);
    ContainsAround("", '"', rest, Key(name));
    assert "" + ['"'] + rest == q;
  }

  lemma {:induction false} TextContains(s: Source, rest: string, name: string)
    requires IsPlaceholder(name) && IsClean(s) && !s.quoted && (rest == "" || StartsTag(rest))
    ensures Contains(Shown(s) + rest, Key(name)) <==> Contains(s.raw, Key(name)) || Contains(rest, Key(name))
  {
    NoAtNoKey(s.markup, name);
    NoAtNoKey("", name);
    hide Contains, Key, IsPlaceholder;
    if rest == "" {
      assert Shown(s) + rest == s.markup + s.raw;
      BehindContains(s.markup, s.raw, name);
    } else {
      assert Shown(s) + rest == s.markup + s.raw + rest;
      FieldContains(s.markup, s.raw, rest, name);
    }
  }

  /** Texts one behind the other, the first ending with a character of no key. */
  lemma {:induction false} BehindContains(a: string, b: string, name: string)
    requires IsPlaceholder(name) && a != "" && IsBreak(a[|a| - 1])
    ensures Contains(a + b, Key(name)) <==> Contains(a, Key(name)) || Contains(b, Key(name))
  {
    var front, c := a[..|a| - 1], a[|a| - 1];
    BreakNotInKey(c, name);
    NoAtNoKey("", name);
    hide Contains, Key;
    ContainsAround(front, c, b, Key(name));
    ContainsAround(front, c, "", Key(name));
    assert a == front + [c] && a + "" == a;
  }

  /** Written markup contains a key exactly if one of its values or texts does. */
  lemma {:induction false} MarkupContains(sources: seq<Source>, rest: string, name: string)
    requires IsPlaceholder(name) && AllClean(sources) && MayFollow(sources, rest)
    ensures Contains(ShownAll(sources) + rest, Key(name)) <==> AnyRaw(sources, Key(name)) || Contains(rest, Key(name))
    decreases |sources|
  {
    hide Contains, Key, Shown, IsClean, IsPlaceholder, WellWritten;
    var first, more := sources[0], sources[1..];
    assert sources == [first] + more && IsClean(sources[0]);
    AnyRawConcat([first], more, Key(name));
    OnlyRaw(first, Key(name));
    if more == [] {
      assert Shown(first) + "" == Shown(first) && ShownAll(more) == "" && sources[|sources| - 1] == first;
      SourceContains(first, rest, name);
    } else {
      MarkupContains(more, rest, name);
      if !first.quoted { StartsShown(more, rest); }
      SourceContains(first, ShownAll(more) + rest, name);
      ConcatAssociative(Shown(first), ShownAll(more), rest);
    }
  }

  lemma {:induction false} OnlyRaw(s: Source, pattern: string)
    ensures AnyRaw([s], pattern) <==> Contains(s.raw, pattern)
  {
    hide Contains;
    assert [s][0] == s;
  }

  /** Fixed data contains no key. */
  lemma {:induction false} FixedHasNoKey(sources: seq<Source>, name: string)
    requires forall i :: 0 <= i < |sources| ==> IsFixed(sources[i].raw)
    ensures !AnyRaw(sources, Key(name))
  {
    forall i | 0 <= i < |sources| ensures !Contains(sources[i].raw, Key(name)) {
      assert IsFixed(sources[i].raw);
      NoAtNoKey(sources[i].raw, name);
    }
  }

  lemma {:induction false} AttributesContain(app: App, index: nat, name: string)
    requires IsPlaceholder(name)
    ensures AnyRaw(Attributes(app, index), Key(name)) <==> Mentions(app, name)
  {
    EscapeContains(app.desktopId, name);
    EscapeContains(Search(app), name);
    SearchContains(app, name);
    ButtonData();
    FlagData();
    CategoryIsFixed(app.categories);
    var sources := Attributes(app, index);
    assert IsFixed(sources[0].raw) && IsFixed(sources[1].raw) && IsFixed(sources[3].raw) && IsFixed(sources[4].raw);
    assert sources[2].raw == EscapeHtml(app.desktopId) && sources[5].raw == EscapeHtml(Search(app)) && |sources| == 6;
    hide Attributes, IsFixed, EscapeHtml, Contains, Key, AnyContains, Search, IsPlaceholder;
    FixedRaw(sources[0].raw, name);
    FixedRaw(sources[1].raw, name);
    FixedRaw(sources[3].raw, name);
    FixedRaw(sources[4].raw, name);
  }

  lemma {:induction false} FixedRaw(raw: string, name: string)
    requires IsFixed(raw)
    ensures !Contains(raw, Key(name))
  {
    NoAtNoKey(raw, name);
  }

  lemma {:induction false} ImageContains(index: nat, name: string)
    ensures !AnyRaw(IconFrame(), Key(name)) && !AnyRaw(IconImage(index), Key(name)) && !AnyRaw(CopyFrame(), Key(name))
  {
    FrameData();
    FlagData();
    ImageData();
    IconUriIsFixed(index);
    hide IsFixed, Contains, Key, IconUri;
    FixedHasNoKey(IconFrame(), name);
    FixedHasNoKey(IconImage(index), name);
    FixedHasNoKey(CopyFrame(), name);
  }

  lemma {:induction false} CopyContains(app: App, name: string)
    requires IsPlaceholder(name)
    ensures AnyRaw(Copy(app), Key(name)) <==> Contains(app.name, Key(name))
  {
    EscapeContains(app.name, name);
    FrameData();
    CopyTags();
    CategoryIsFixed(app.categories);
    var sources := Copy(app);
    hide IsFixed, EscapeHtml, Contains, Key, LauncherCategory, CategoryLabel, IsPlaceholder;
    assert sources == [sources[0]] + sources[1..];
    AnyRawConcat([sources[0]], sources[1..], Key(name));
    OnlyRaw(sources[0], Key(name));
    FixedHasNoKey(sources[1..], name);
  }

  lemma {:induction false} ButtonContains(app: App, index: nat, name: string)
    requires IsPlaceholder(name)
    ensures AnyRaw(CatalogSources(app, index), Key(name)) <==> Mentions(app, name)
  {
    AttributesContain(app, index, name);
    ImageContains(index, name);
    CopyContains(app, name);
    hide AnyRaw, Key, Contains, AnyContains, Attributes, IconFrame, IconImage, CopyFrame, Copy, IsPlaceholder;
    AnyRawConcat(Attributes(app, index), IconPart(app, index), Key(name));
    AnyRawConcat(IconFrame(), ImagePart(app, index), Key(name));
    AnyRawConcat(IconImage(index), CopyPart(app), Key(name));
    AnyRawConcat(CopyFrame(), Copy(app), Key(name));
  }

  /** The catalogue contains a key exactly if some application does. */
  lemma {:induction false} CatalogContains(apps: seq<App>, from: nat, name: string)
    requires from <= |apps| && IsPlaceholder(name)
    ensures Contains(Catalog(apps, from), Key(name)) <==> exists i :: from <= i < |apps| && Mentions(apps[i], name)
    decreases |apps| - from
  {
    hide Contains, Key, Mentions, IsPlaceholder, CatalogSources, AnyRaw, AllClean;
    if from == |apps| {
      NoAtNoKey("", name);
    } else {
      CatalogContains(apps, from + 1, name);
      ButtonContains(apps[from], from, name);
      CatalogSourcesClean(apps[from], from);
      CatalogStarts(apps, from + 1);
      MarkupContains(CatalogSources(apps[from], from), Catalog(apps, from + 1), name);
    }
  }

  /** The panel shows names and ids, not categories. */
  predicate MentionsInPanel(app: App, name: string) {
    Contains(app.desktopId, Key(name)) || Contains(app.name, Key(name))
  }

  lemma {:induction false} PanelButtonContains(app: App, index: nat, name: string)
    requires IsPlaceholder(name)
    ensures AnyRaw(PanelSources(app, index), Key(name)) <==> MentionsInPanel(app, name)
  {
    EscapeContains(app.desktopId, name);
    EscapeContains(app.name, name);
    ButtonData();
    PanelMarkups();
    FrameData();
    CopyTags();
    IconUriIsFixed(index);
    var a, b := PanelAttributes(app), PanelImage(index);
    assert a[2].raw == EscapeHtml(app.desktopId) && a[3].raw == a[4].raw == EscapeHtml(app.name) && |a| == 5;
    assert IsFixed(a[0].raw) && IsFixed(a[1].raw);
    assert forall i :: 0 <= i < |b| ==> IsFixed(b[i].raw);
    hide PanelAttributes, PanelImage, IsFixed, EscapeHtml, Contains, Key, IsPlaceholder;
    FixedRaw(a[0].raw, name);
    FixedRaw(a[1].raw, name);
    FixedHasNoKey(b, name);
    AnyRawConcat(a, b, Key(name));
  }

  lemma {:induction false} PanelContains(selected: seq<(nat, App)>, name: string)
    requires IsPlaceholder(name)
    ensures Contains(PanelApps(selected), Key(name)) <==>
      exists i :: 0 <= i < |selected| && MentionsInPanel(selected[i].1, name)
    decreases |selected|
  {
    hide Contains, Key, MentionsInPanel, IsPlaceholder, PanelSources, AnyRaw, AllClean;
    if selected == [] {
      NoAtNoKey("", name);
    } else {
      var index, app, rest := selected[0].0, selected[0].1, selected[1..];
      PanelContains(rest, name);
      PanelButtonContains(app, index, name);
      PanelSourcesClean(app, index);
      PanelStarts(rest);
      MarkupContains(PanelSources(app, index), PanelApps(rest), name);
      assert forall i :: 0 <= i < |rest| ==> rest[i] == selected[i + 1];
      assert forall i :: 0 < i < |selected| ==> selected[i] == rest[i - 1];
    }
  }

  // ----- Main results -----

  lemma LateNames()
    ensures IsPlaceholder("MERIDIAN_APP_CATALOG") && IsPlaceholder("MERIDIAN_PANEL_APPS")
    ensures IsPlaceholder("MERIDIAN_OS") && IsPlaceholder("MERIDIAN_THEME")
  {
  }

  lemma SharedNames()
    ensures IsPlaceholder("MERIDIAN_TOKENS") && IsPlaceholder("MERIDIAN_ICON_SPRITE")
  {
  }

  lemma DiagnosticNames()
    ensures IsPlaceholder("MERIDIAN_COMPONENT_CSS") && IsPlaceholder("MERIDIAN_LAUNCHER_SCRIPT")
  {
  }

  lemma PanelNames()
    ensures IsPlaceholder("MERIDIAN_PANEL_CSS") && IsPlaceholder("MERIDIAN_PANEL_SCRIPT")
  {
  }

  lemma QuickSettingsNames()
    ensures IsPlaceholder("MERIDIAN_QUICK_SETTINGS_CSS") && IsPlaceholder("MERIDIAN_QUICK_SETTINGS_SCRIPT")
  {
  }

  lemma {:induction false} PlaceholdersAreNames(bindings: seq<Binding>)
    requires ArePlaceholders(bindings)
    ensures HasNames(bindings) && NamesWithin(bindings, IsNameCharacter)
  {
    forall i | 0 <= i < |bindings| ensures IsName(bindings[i].name) {
      assert IsPlaceholder(bindings[i].name);
    }
    forall i, k | 0 <= i < |bindings| && 0 <= k < |bindings[i].name| ensures IsNameCharacter(bindings[i].name[k]) {
      assert IsPlaceholder(bindings[i].name);
    }
  }

  lemma {:induction false} JoinedNames(before: seq<Binding>, b: Binding, after: seq<Binding>)
    requires ArePlaceholders(before) && IsPlaceholder(b.name) && ArePlaceholders(after)
    ensures HasNames(before + [b] + after) && NamesWithin(before + [b] + after, IsNameCharacter)
  {
    hide IsPlaceholder;
    PlaceholdersAreNames(before + [b] + after);
  }

  lemma {:induction false} LabelsAreVisible(os: string, theme: ThemeChoice)
    ensures NoDelimiter(TargetOsLabel(os)) && Visible(TargetOsLabel(os))
    ensures NoDelimiter(theme.Attribute()) && Visible(theme.Attribute())
  {
  }

  /**
   * The diagnostic document is what its template says if and only if no installed application has
   * `@@MERIDIAN_OS@@` or `@@MERIDIAN_THEME@@` in its name, its id or a category.
   */
  lemma {:induction false} DiagnosticIff(t: Template, tokens: string, css: string, sprite: string, script: string,
                                         apps: seq<App>, os: string, theme: ThemeChoice)
    requires Separated(t, false) && Spaced(t, false, IsNameCharacter)
    requires NoDelimiter(tokens) && NoDelimiter(css) && NoDelimiter(sprite) && NoDelimiter(script)
    ensures
      DiagnosticHtml(Render(t), tokens, css, sprite, script, apps, os, theme)
      == Simultaneous(t, DiagnosticBindings(tokens, css, sprite, script, apps, os, theme))
      <==>
      (HasHole(t, "MERIDIAN_APP_CATALOG") ==>
         NoneMentions(apps, "MERIDIAN_OS") && NoneMentions(apps, "MERIDIAN_THEME"))
  {
    hide *;
    var before := EarlyDiagnosticBindings(tokens, css, sprite, script);
    var catalog := Binding("MERIDIAN_APP_CATALOG", Catalog(apps, 0));
    EarlyDiagnostic(tokens, css, sprite, script);
    LateDiagnostic(os, theme);
    LateNames();
    LateKeys(apps, os, theme);
    DiagnosticParts(Render(t), tokens, css, sprite, script, apps, os, theme);
    UntrustedIff(t, before, catalog, LateDiagnosticBindings(os, theme));
  }

  lemma {:induction false} DiagnosticParts(html: string, tokens: string, css: string, sprite: string, script: string,
                                           apps: seq<App>, os: string, theme: ThemeChoice)
    ensures DiagnosticHtml(html, tokens, css, sprite, script, apps, os, theme)
         == ReplaceChain(html, DiagnosticBindings(tokens, css, sprite, script, apps, os, theme))
    ensures DiagnosticBindings(tokens, css, sprite, script, apps, os, theme)
         == EarlyDiagnosticBindings(tokens, css, sprite, script) + [Binding("MERIDIAN_APP_CATALOG", Catalog(apps, 0))]
          + LateDiagnosticBindings(os, theme)
  {
    hide EarlyDiagnosticBindings, LateDiagnosticBindings, Catalog, ReplaceChain;
  }

  lemma {:induction false} UntrustedIff(t: Template, before: seq<Binding>, b: Binding, after: seq<Binding>)
    requires Separated(t, false) && Spaced(t, false, IsNameCharacter)
    requires ArePlaceholders(before) && IsPlaceholder(b.name) && ArePlaceholders(after)
    requires NoDelimiters(before) && NoDelimiters(after) && AllVisible(after)
    requires forall i :: 0 <= i < |before| ==> before[i].name != b.name
    ensures ReplaceChain(Render(t), before + [b] + after) == Simultaneous(t, before + [b] + after)
       <==> (HasHole(t, b.name) ==> !ContainsKey(b.value, after))
  {
    hide *;
    JoinedNames(before, b, after);
    OneUntrusted(t, before, b, after, IsNameCharacter);
  }

  lemma {:induction false} EarlyDiagnostic(tokens: string, css: string, sprite: string, script: string)
    requires NoDelimiter(tokens) && NoDelimiter(css) && NoDelimiter(sprite) && NoDelimiter(script)
    ensures
      var before := EarlyDiagnosticBindings(tokens, css, sprite, script);
      && ArePlaceholders(before) && NoDelimiters(before)
      && forall i :: 0 <= i < |before| ==> before[i].name != "MERIDIAN_APP_CATALOG"
  {
    SharedNames();
    DiagnosticNames();
    hide IsPlaceholder, NoDelimiter;
    assert "MERIDIAN_TOKENS"[9] == 'T' && "MERIDIAN_COMPONENT_CSS"[9] == 'C' && "MERIDIAN_ICON_SPRITE"[9] == 'I'
        && "MERIDIAN_LAUNCHER_SCRIPT"[9] == 'L' && "MERIDIAN_APP_CATALOG"[9] == 'A';
  }

  lemma {:induction false} LateDiagnostic(os: string, theme: ThemeChoice)
    ensures
      var after := LateDiagnosticBindings(os, theme);
      ArePlaceholders(after) && NoDelimiters(after) && AllVisible(after)
  {
    LateNames();
    LabelsAreVisible(os, theme);
    hide IsPlaceholder, NoDelimiter, Visible;
  }

  lemma {:induction false} LateKeys(apps: seq<App>, os: string, theme: ThemeChoice)
    ensures ContainsKey(Catalog(apps, 0), LateDiagnosticBindings(os, theme))
       <==> !(NoneMentions(apps, "MERIDIAN_OS") && NoneMentions(apps, "MERIDIAN_THEME"))
  {
    LateNames();
    var after := LateDiagnosticBindings(os, theme);
    EitherKey(Catalog(apps, 0), after[0], after[1]);
    assert after == [after[0], after[1]];
    CatalogFree(apps, after[0].name);
    CatalogFree(apps, after[1].name);
    hide *;
  }

  lemma {:induction false} EitherKey(value: string, a: Binding, b: Binding)
    ensures ContainsKey(value, [a, b]) <==> Contains(value, Key(a.name)) || Contains(value, Key(b.name))
  {
    var both := [a, b];
    assert both[0] == a && both[1] == b;
    hide Contains, Key;
  }

  lemma {:induction false} CatalogFree(apps: seq<App>, name: string)
    requires IsPlaceholder(name)
    ensures Contains(Catalog(apps, 0), Key(name)) <==> !NoneMentions(apps, name)
  {
    CatalogContains(apps, 0, name);
    hide Contains, Key, Mentions, Catalog;
  }

  // ----- Which text goes where -----

  /** Tells the names of each document apart; the names a document has for itself share a number. */
  function HoleIndex(name: string): nat {
    if name == "MERIDIAN_TOKENS" then 0
    else if name == "MERIDIAN_ICON_SPRITE" then 1
    else if name == "MERIDIAN_OS" then 2
    else if name == "MERIDIAN_THEME" then 3
    else if name in {"MERIDIAN_COMPONENT_CSS", "MERIDIAN_PANEL_CSS", "MERIDIAN_QUICK_SETTINGS_CSS"} then 4
    else if name in {"MERIDIAN_LAUNCHER_SCRIPT", "MERIDIAN_PANEL_SCRIPT", "MERIDIAN_QUICK_SETTINGS_SCRIPT"} then 5
    else 6
  }

  lemma SharedHoles()
    ensures HoleIndex("MERIDIAN_TOKENS") == 0 && HoleIndex("MERIDIAN_ICON_SPRITE") == 1
    ensures HoleIndex("MERIDIAN_OS") == 2 && HoleIndex("MERIDIAN_THEME") == 3
  {
  }

  lemma DiagnosticHoleNames()
    ensures HoleIndex("MERIDIAN_COMPONENT_CSS") == 4 && HoleIndex("MERIDIAN_LAUNCHER_SCRIPT") == 5
    ensures HoleIndex("MERIDIAN_APP_CATALOG") == 6
  {
  }

  lemma PanelHoleNames()
    ensures HoleIndex("MERIDIAN_PANEL_CSS") == 4 && HoleIndex("MERIDIAN_PANEL_SCRIPT") == 5
    ensures HoleIndex("MERIDIAN_PANEL_APPS") == 6
  {
  }

  lemma QuickSettingsHoleNames()
    ensures HoleIndex("MERIDIAN_QUICK_SETTINGS_CSS") == 4 && HoleIndex("MERIDIAN_QUICK_SETTINGS_SCRIPT") == 5
  {
  }

  predicate DistinctHoles(bindings: seq<Binding>) {
    forall i, j :: 0 <= i < j < |bindings| ==> HoleIndex(bindings[i].name) != HoleIndex(bindings[j].name)
  }

  lemma {:induction false} EachHole(bindings: seq<Binding>)
    requires DistinctHoles(bindings)
    ensures forall i :: 0 <= i < |bindings| ==> Lookup(bindings[i].name, bindings) == bindings[i].value
  {
    hide HoleIndex;
    forall i | 0 <= i < |bindings| ensures Lookup(bindings[i].name, bindings) == bindings[i].value {
      assert forall j :: 0 <= j < i ==> HoleIndex(bindings[j].name) != HoleIndex(bindings[i].name);
      LookupAt(bindings, i);
    }
  }

  /** Every hole of the diagnostic document is for its own text. */
  lemma {:induction false} DiagnosticHoles(tokens: string, css: string, sprite: string, script: string,
                                           apps: seq<App>, os: string, theme: ThemeChoice)
    ensures
      var b := DiagnosticBindings(tokens, css, sprite, script, apps, os, theme);
      && Lookup("MERIDIAN_TOKENS", b) == tokens && Lookup("MERIDIAN_COMPONENT_CSS", b) == css
      && Lookup("MERIDIAN_ICON_SPRITE", b) == sprite && Lookup("MERIDIAN_LAUNCHER_SCRIPT", b) == script
      && Lookup("MERIDIAN_APP_CATALOG", b) == Catalog(apps, 0)
      && Lookup("MERIDIAN_OS", b) == TargetOsLabel(os)
      && Lookup("MERIDIAN_THEME", b) == if theme.Dark? then "dark" else "light"
  {
    SharedHoles();
    DiagnosticHoleNames();
    hide HoleIndex, Lookup, Catalog, TargetOsLabel;
    var b := DiagnosticBindings(tokens, css, sprite, script, apps, os, theme);
    assert |b| == 7 && b[0] == Binding("MERIDIAN_TOKENS", tokens) && b[1] == Binding("MERIDIAN_COMPONENT_CSS", css);
    assert b[2] == Binding("MERIDIAN_ICON_SPRITE", sprite) && b[3] == Binding("MERIDIAN_LAUNCHER_SCRIPT", script);
    assert b[4] == Binding("MERIDIAN_APP_CATALOG", Catalog(apps, 0));
    assert b[5] == Binding("MERIDIAN_OS", TargetOsLabel(os)) && b[6] == Binding("MERIDIAN_THEME", theme.Attribute());
    hide DiagnosticBindings;
    EachHole(b);
  }

  lemma {:induction false} PanelHoles(tokens: string, css: string, sprite: string, script: string,
                                      selected: seq<(nat, App)>, theme: ThemeChoice)
    ensures
      var b := PanelBindings(tokens, css, sprite, script, selected, theme);
      && Lookup("MERIDIAN_TOKENS", b) == tokens && Lookup("MERIDIAN_PANEL_CSS", b) == css
      && Lookup("MERIDIAN_ICON_SPRITE", b) == sprite && Lookup("MERIDIAN_PANEL_SCRIPT", b) == script
      && Lookup("MERIDIAN_PANEL_APPS", b) == PanelApps(selected)
      && Lookup("MERIDIAN_THEME", b) == if theme.Dark? then "dark" else "light"
  {
    SharedHoles();
    PanelHoleNames();
    hide HoleIndex, Lookup, PanelApps;
    var b := PanelBindings(tokens, css, sprite, script, selected, theme);
    assert |b| == 6 && b[0] == Binding("MERIDIAN_TOKENS", tokens) && b[1] == Binding("MERIDIAN_PANEL_CSS", css);
    assert b[2] == Binding("MERIDIAN_ICON_SPRITE", sprite) && b[3] == Binding("MERIDIAN_PANEL_SCRIPT", script);
    assert b[4] == Binding("MERIDIAN_PANEL_APPS", PanelApps(selected));
    assert b[5] == Binding("MERIDIAN_THEME", theme.Attribute());
    hide PanelBindings;
    EachHole(b);
  }

  lemma {:induction false} QuickSettingsHoles(tokens: string, css: string, script: string, sprite: string,
                                              theme: ThemeChoice)
    ensures
      var b := QuickSettingsBindings(tokens, css, script, sprite, theme);
      && Lookup("MERIDIAN_TOKENS", b) == tokens && Lookup("MERIDIAN_QUICK_SETTINGS_CSS", b) == css
      && Lookup("MERIDIAN_QUICK_SETTINGS_SCRIPT", b) == script && Lookup("MERIDIAN_ICON_SPRITE", b) == sprite

      && Lookup("MERIDIAN_THEME", b) == if theme.Dark? then "dark" else "light"
  {
    SharedHoles();
    QuickSettingsHoleNames();
    hide HoleIndex, Lookup;
    var b := QuickSettingsBindings(tokens, css, script, sprite, theme);
    assert |b| == 5 && b[0] == Binding("MERIDIAN_TOKENS", tokens);
    assert b[1] == Binding("MERIDIAN_QUICK_SETTINGS_CSS", css);
    assert b[2] == Binding("MERIDIAN_QUICK_SETTINGS_SCRIPT", script);
    assert b[3] == Binding("MERIDIAN_ICON_SPRITE", sprite) && b[4] == Binding("MERIDIAN_THEME", theme.Attribute());
    hide QuickSettingsBindings;
    EachHole(b);
  }

  /** An application that cannot be shown under its own name, in any template with a catalogue. */
  lemma {:induction false} AppNamedLikeAPlaceholder(t: Template, tokens: string, css: string, sprite: string,
                                                    script: string, os: string, theme: ThemeChoice)
    requires Separated(t, false) && Spaced(t, false, IsNameCharacter) && HasHole(t, "MERIDIAN_APP_CATALOG")
    requires NoDelimiter(tokens) && NoDelimiter(css) && NoDelimiter(sprite) && NoDelimiter(script)
    ensures
      var apps := [App("info.desktop", "@@MERIDIAN_OS@@", [])];
      DiagnosticHtml(Render(t), tokens, css, sprite, script, apps, os, theme)
      != Simultaneous(t, DiagnosticBindings(tokens, css, sprite, script, apps, os, theme))
  {
    var apps := [App("info.desktop", "@@MERIDIAN_OS@@", [])];
    assert !NoneMentions(apps, "MERIDIAN_OS") by {
      assert apps[0].name == Key("MERIDIAN_OS") == apps[0].name[0..];
      assert Mentions(apps[0], "MERIDIAN_OS");
    }
    hide *;
    DiagnosticIff(t, tokens, css, sprite, script, apps, os, theme);
  }

  /** The panel document, whichever applications are selected for it. */
  lemma {:induction false} PanelIff(t: Template, tokens: string, css: string, sprite: string, script: string,
                                    selected: seq<(nat, App)>, theme: ThemeChoice)
    requires Separated(t, false) && Spaced(t, false, IsNameCharacter)
    requires NoDelimiter(tokens) && NoDelimiter(css) && NoDelimiter(sprite) && NoDelimiter(script)
    ensures
      PanelHtml(Render(t), tokens, css, sprite, script, selected, theme)
      == Simultaneous(t, PanelBindings(tokens, css, sprite, script, selected, theme))
      <==>
      (HasHole(t, "MERIDIAN_PANEL_APPS") ==>
         forall i :: 0 <= i < |selected| ==> !MentionsInPanel(selected[i].1, "MERIDIAN_THEME"))
  {
    var before := EarlyPanelBindings(tokens, css, sprite, script);
    var list := Binding("MERIDIAN_PANEL_APPS", PanelApps(selected));
    var after := [Binding("MERIDIAN_THEME", theme.Attribute())];
    EarlyPanel(tokens, css, sprite, script);
    LatePanel(theme, list.value);
    LateNames();
    PanelContains(selected, "MERIDIAN_THEME");
    assert PanelHtml(Render(t), tokens, css, sprite, script, selected, theme)
        == ReplaceChain(Render(t), PanelBindings(tokens, css, sprite, script, selected, theme));
    assert PanelBindings(tokens, css, sprite, script, selected, theme) == before + [list] + after;
    hide *;
    UntrustedIff(t, before, list, after);
  }

  lemma {:induction false} LatePanel(theme: ThemeChoice, value: string)
    ensures
      var after := [Binding("MERIDIAN_THEME", theme.Attribute())];
      && ArePlaceholders(after) && NoDelimiters(after) && AllVisible(after)
      && (ContainsKey(value, after) <==> Contains(value, Key("MERIDIAN_THEME")))
  {
    LateNames();
    LabelsAreVisible("", theme);
    var after := [Binding("MERIDIAN_THEME", theme.Attribute())];
    assert after[0].name == "MERIDIAN_THEME" && |after| == 1;
    hide IsPlaceholder, NoDelimiter, Visible, Contains, Key;
  }

  lemma {:induction false} EarlyPanel(tokens: string, css: string, sprite: string, script: string)
    requires NoDelimiter(tokens) && NoDelimiter(css) && NoDelimiter(sprite) && NoDelimiter(script)
    ensures
      var before := EarlyPanelBindings(tokens, css, sprite, script);
      && ArePlaceholders(before) && NoDelimiters(before)
      && forall i :: 0 <= i < |before| ==> before[i].name != "MERIDIAN_PANEL_APPS"
  {
    SharedNames();
    PanelNames();
    hide IsPlaceholder, NoDelimiter;
    assert "MERIDIAN_TOKENS"[9] == 'T' && "MERIDIAN_PANEL_CSS"[15] == 'C' && "MERIDIAN_ICON_SPRITE"[9] == 'I'
        && "MERIDIAN_PANEL_SCRIPT"[15] == 'S' && "MERIDIAN_PANEL_APPS"[9] == 'P' && "MERIDIAN_PANEL_APPS"[15] == 'A';
  }

  /** The Quick Settings document shows nothing that is not compiled in. */
  lemma {:induction false} QuickSettingsIsSimultaneous(t: Template, tokens: string, css: string, script: string,
                                                       sprite: string, theme: ThemeChoice)
    requires Separated(t, false) && Spaced(t, false, IsNameCharacter)
    requires NoDelimiter(tokens) && NoDelimiter(css) && NoDelimiter(script) && NoDelimiter(sprite)
    ensures
      var bindings := QuickSettingsBindings(tokens, css, script, sprite, theme);
      && QuickSettingsHtml(Render(t), tokens, css, script, sprite, theme) == Simultaneous(t, bindings)
      && (Covered(t, bindings) ==> NoDelimiter(QuickSettingsHtml(Render(t), tokens, css, script, sprite, theme)))
  {
    LabelsAreVisible("", theme);
    SharedNames();
    QuickSettingsNames();
    LateNames();
    hide IsPlaceholder, NoDelimiter, Visible;
    var bindings := QuickSettingsBindings(tokens, css, script, sprite, theme);
    assert ArePlaceholders(bindings) && NoDelimiters(bindings);
    hide QuickSettingsBindings;
    PlaceholdersAreNames(bindings);
    DelimiterFreeIsSimultaneous(t, bindings, IsNameCharacter);
  }
}
