/** The markup for installed applications: a button each in the launcher's catalogue and in the panel. */
module AppMarkup {
  import opened HtmlEscape
  import opened MarkupReader
  import opened StyleSheets
  import opened Text

  datatype App = App(desktopId: string, name: string, categories: seq<string>)

  // ----- Markup for applications -----

  /** The launcher category of the first category that has one. */
  function LauncherCategory(categories: seq<string>): string {
    if categories == [] then "utilities"
    else if categories[0] in {"network", "webbrowser", "email"} then "internet"
    else if categories[0] in {"office", "wordprocessor", "spreadsheet", "education"} then "office"
    else if categories[0] in {"development", "ide"} then "development"
    else if categories[0] in {"graphics", "photography"} then "graphics"
    else if categories[0] in {"settings", "system"} then "system"
    else if categories[0] in {"utility", "filemanager", "accessibility"} then "utilities"
    else LauncherCategory(categories[1..])
  }

  /** Categories behind one that has a launcher category do not matter, and those that have none never do. */
  lemma {:induction false} FirstKnownDecides(before: seq<string>, category: string, behind: seq<string>)
    requires forall i :: 0 <= i < |before| ==> !IsKnown(before[i])
    ensures LauncherCategory(before) == "utilities"
    ensures IsKnown(category) ==> LauncherCategory(before + [category] + behind) == LauncherCategory([category])
    decreases |before|
  {
    if before == [] {
      assert [] + [category] + behind == [category] + behind;
    } else {
      FirstKnownDecides(before[1..], category, behind);
      assert (before + [category] + behind)[1..] == before[1..] + [category] + behind;
      assert (before + [category] + behind)[0] == before[0];
      UnknownIsSkipped(before);
      UnknownIsSkipped(before + [category] + behind);
      hide IsKnown, LauncherCategory;
    }
  }

  lemma {:induction false} UnknownIsSkipped(categories: seq<string>)
    requires categories != [] && !IsKnown(categories[0])
    ensures LauncherCategory(categories) == LauncherCategory(categories[1..])
  {
  }

  predicate IsKnown(category: string) {
    || category in {"network", "webbrowser", "email", "office", "wordprocessor", "spreadsheet", "education"}
    || category in {"development", "ide", "graphics", "photography", "settings", "system"}
    || category in {"utility", "filemanager", "accessibility"}
  }

  function CategoryLabel(category: string): string {
    if category == "internet" then "Internet"
    else if category == "office" then "B\U{00FC}ro"
    else if category == "development" then "Entwicklung"
    else if category == "graphics" then "Grafik"
    else if category == "system" then "System"
    else "Dienstprogramm"
  }

  function IconUri(index: nat): string {
    "meridian-icon://app/" + Decimal(index)
  }

  function Search(app: App): string {
    app.name + " " + Join(app.categories)
  }

  // ----- How a button is put together -----

  function Attribute(markup: string, raw: string): Source {
    Source(markup, true, raw)
  }

  function Tag(markup: string, raw: string): Source {
    Source(markup, false, raw)
  }

  function ClassList(index: nat): string {
    if index == 0 then "app is-selected" else "app"
  }

  function FavoriteFlag(index: nat): string {
    if index < 6 then "true" else "false"
  }

  function Attributes(app: App, index: nat): seq<Source> {
    [ Attribute("<button class=", ClassList(index)), Attribute(" type=", "button"),
      Attribute(" data-app-id=", EscapeHtml(app.desktopId)),
      Attribute(" data-category=", LauncherCategory(app.categories)),
      Attribute(" data-favorite=", FavoriteFlag(index)),
      Attribute(" data-search=", EscapeHtml(Search(app))) ]
  }

  function IconFrame(): seq<Source> {
    [ Tag(">", ""), Attribute("<span class=", "app__icon"), Tag(">", ""),
      Attribute("<svg class=", "icon"), Attribute(" aria-hidden=", "true"), Tag(">", "") ]
  }

  function IconImage(index: nat): seq<Source> {
    [ Attribute("<use href=", "#all-apps"), Tag(">", ""), Tag("</use>", ""), Tag("</svg>", ""),
      Attribute("<img class=", "app__image"), Attribute(" src=", IconUri(index)), Attribute(" alt=", "") ]
  }

  function CopyFrame(): seq<Source> {
    [Tag(">", ""), Tag("</span>", ""), Attribute("<span class=", "app__copy"), Tag(">", "")]
  }

  function Copy(app: App): seq<Source> {
    [ Tag("<strong>", EscapeHtml(app.name)), Tag("</strong>", ""),
      Tag("<small>", CategoryLabel(LauncherCategory(app.categories))), Tag("</small>", ""),
      Tag("</span>", ""), Tag("</button>", "\n") ]
  }

  function CopyPart(app: App): seq<Source> {
    CopyFrame() + Copy(app)
  }

  function ImagePart(app: App, index: nat): seq<Source> {
    IconImage(index) + CopyPart(app)
  }

  function IconPart(app: App, index: nat): seq<Source> {
    IconFrame() + ImagePart(app, index)
  }

  function CatalogSources(app: App, index: nat): seq<Source> {
    Attributes(app, index) + IconPart(app, index)
  }

  function CatalogButton(app: App, index: nat): string {
    ShownAll(CatalogSources(app, index))
  }

  /** The buttons of the applications from number `from` on. */
  function Catalog(apps: seq<App>, from: nat): string
    requires from <= |apps|
    decreases |apps| - from
  {
    if from == |apps| then "" else CatalogButton(apps[from], from) + Catalog(apps, from + 1)
  }

  method CatalogMarkup(apps: seq<App>) returns (markup: string)
    ensures markup == Catalog(apps, 0)
  {
    hide CatalogButton;
    markup := "";
    for index := 0 to |apps|
      invariant markup + Catalog(apps, index) == Catalog(apps, 0)
    {
      ConcatAssociative(markup, CatalogButton(apps[index], index), Catalog(apps, index + 1));
      markup := markup + CatalogButton(apps[index], index);
    }
  }

  function PanelAttributes(app: App): seq<Source> {
    [ Attribute("<button class=", "panel-app"), Attribute(" type=", "button"),
      Attribute(" data-app-id=", EscapeHtml(app.desktopId)),
      Attribute(" aria-label=", EscapeHtml(app.name)), Attribute(" title=", EscapeHtml(app.name)) ]
  }

  function PanelImage(index: nat): seq<Source> {
    [ Tag(">", ""), Attribute("<img src=", IconUri(index)), Attribute(" alt=", ""), Tag(">", ""),
      Tag("</button>", "\n") ]
  }

  function PanelSources(app: App, index: nat): seq<Source> {
    PanelAttributes(app) + PanelImage(index)
  }

  function PanelButton(app: App, index: nat): string {
    ShownAll(PanelSources(app, index))
  }

  /** The buttons of the selected applications, each with its number in the full list. */
  function PanelApps(selected: seq<(nat, App)>): string {
    if selected == [] then "" else PanelButton(selected[0].1, selected[0].0) + PanelApps(selected[1..])
  }

  method PanelMarkup(selected: seq<(nat, App)>) returns (markup: string)
    ensures markup == PanelApps(selected)
  {
    hide PanelButton;
    markup := "";
    for k := 0 to |selected|
      invariant markup + PanelApps(selected[k..]) == PanelApps(selected)
    {
      var button := PanelButton(selected[k].1, selected[k].0);
      assert selected[k..][0] == selected[k] && selected[k..][1..] == selected[k + 1..];
      ConcatAssociative(markup, button, PanelApps(selected[k + 1..]));
      markup := markup + button;
    }
  }

  // ----- The markup is well written -----

  /** Well written, and free of `@` but for the data. */
  predicate IsClean(s: Source) {
    WellWritten(s) && '@' !in s.markup
  }

  /** Fixed data: free of everything that would need escaping, and of `@`. */
  predicate IsFixed(raw: string) {
    IsPlainData(raw) && '@' !in raw
  }

  predicate IsAttribute(markup: string) {
    IsOpen(markup) && '@' !in markup
  }

  predicate IsTag(markup: string) {
    IsTagEnd(markup) && '@' !in markup
  }

  lemma ButtonMarkups()
    ensures IsAttribute("<button class=") && IsAttribute(" type=") && IsAttribute(" data-app-id=")
  {
  }

  lemma DataMarkups()
    ensures IsAttribute(" data-category=") && IsAttribute(" data-favorite=") && IsAttribute(" data-search=")
  {
  }

  lemma ButtonData()
    ensures IsFixed("app") && IsFixed("app is-selected") && IsFixed("button")
  {
  }

  lemma FlagData()
    ensures IsFixed("true") && IsFixed("false")
  {
  }

  lemma FrameMarkups()
    ensures IsTag(">") && IsAttribute("<span class=")
    ensures StartsTag("<span class=")
  {
  }

  lemma SvgMarkups()
    ensures IsAttribute("<svg class=") && IsAttribute(" aria-hidden=") && StartsTag("<svg class=")
  {
  }

  lemma FrameData()
    ensures IsFixed("") && IsFixed("app__icon") && IsFixed("icon") && IsFixed("app__copy")
  {
  }

  lemma ImageMarkups()
    ensures IsAttribute("<img class=") && IsAttribute(" src=") && IsAttribute(" alt=") && IsAttribute("<img src=")
    ensures StartsTag("<img class=") && StartsTag("<img src=")
  {
  }

  lemma UseMarkups()
    ensures IsAttribute("<use href=") && IsTag("</use>") && IsTag("</svg>")
    ensures StartsTag("<use href=") && StartsTag("</use>") && StartsTag("</svg>")
  {
  }

  lemma ImageData()
    ensures IsFixed("#all-apps") && IsFixed("app__image")
  {
  }

  lemma IconScheme()
    ensures IsFixed("meridian-icon://app/")
  {
  }

  lemma CopyMarkups()
    ensures IsTag("<strong>") && IsTag("</strong>") && IsTag("<small>") && IsTag("</small>")
    ensures IsTag("</span>") && IsTag("</button>")
  {
  }

  lemma CopyTags()
    ensures StartsTag("<strong>") && StartsTag("</strong>") && StartsTag("<small>") && StartsTag("</small>")
    ensures StartsTag("</span>") && StartsTag("</button>") && IsFixed("\n")
  {
  }

  lemma PanelMarkups()
    ensures IsFixed("panel-app") && IsAttribute(" aria-label=") && IsAttribute(" title=")
  {
  }

  lemma {:induction false} KnownCategory(categories: seq<string>)
    ensures LauncherCategory(categories)
         in {"internet", "office", "development", "graphics", "system", "utilities"}
    decreases |categories|
  {
    if categories != [] { KnownCategory(categories[1..]); }
  }

  lemma ShortCategories()
    ensures IsFixed("internet") && IsFixed("office") && IsFixed("system")
  {
  }

  lemma LongCategories()
    ensures IsFixed("development") && IsFixed("graphics") && IsFixed("utilities")
  {
  }

  lemma ShortLabels()
    ensures IsFixed("Internet") && IsFixed("B\U{00FC}ro") && IsFixed("System")
  {
  }

  lemma LongLabels()
    ensures IsFixed("Entwicklung") && IsFixed("Grafik")
  {
  }

  lemma UtilityLabel()
    ensures IsFixed("Dienstprogramm")
  {
  }

  lemma {:induction false} CategoryIsFixed(categories: seq<string>)
    ensures IsFixed(LauncherCategory(categories)) && IsFixed(CategoryLabel(LauncherCategory(categories)))
  {
    KnownCategory(categories);
    ShortCategories();
    LongCategories();
    ShortLabels();
    LongLabels();
    UtilityLabel();
    hide LauncherCategory, IsFixed;
  }

  lemma {:induction false} DecimalDigits(n: nat)
    ensures forall c :: c in Decimal(n) ==> '0' <= c <= '9'
    decreases n
  {
    if n >= 10 { DecimalDigits(n / 10); }
    assert '0' <= Digit(n % 10) <= '9';
    hide Digit;
  }

  lemma {:induction false} IconUriIsFixed(index: nat)
    ensures IsFixed(IconUri(index))
  {
    IconScheme();
    DecimalDigits(index);
    hide Decimal;
  }

  /** An attribute or a tag with fixed or escaped data is clean. */
  lemma {:induction false} CleanAttribute(markup: string, raw: string)
    requires IsAttribute(markup) && '"' !in raw
    ensures IsClean(Attribute(markup, raw))
  {
  }

  lemma {:induction false} CleanTag(markup: string, raw: string)
    requires IsTag(markup) && '<' !in raw
    ensures IsClean(Tag(markup, raw))
  {
  }

  /** A list of clean pieces in which every text is followed by a tag. */
  predicate AllClean(sources: seq<Source>) {
    && AllWellWritten(sources)
    && forall i :: 0 <= i < |sources| ==> IsClean(sources[i])
  }

  lemma {:induction false} AttributesClean(app: App, index: nat)
    ensures AllClean(Attributes(app, index))
  {
    ButtonMarkups();
    DataMarkups();
    ButtonData();
    FlagData();
    CategoryIsFixed(app.categories);
    EscapedReads(app.desktopId);
    EscapedReads(Search(app));
    hide EscapeHtml, LauncherCategory, Search, IsAttribute, IsOpen;
    var sources := Attributes(app, index);
    CleanAttribute("<button class=", ClassList(index));
    CleanAttribute(" type=", "button");
    CleanAttribute(" data-app-id=", EscapeHtml(app.desktopId));
    CleanAttribute(" data-category=", LauncherCategory(app.categories));
    CleanAttribute(" data-favorite=", FavoriteFlag(index));
    CleanAttribute(" data-search=", EscapeHtml(Search(app)));
    hide IsClean;
    AllCleanIf(sources);
  }

  lemma {:induction false} AllCleanIf(sources: seq<Source>)
    requires forall i :: 0 <= i < |sources| ==> IsClean(sources[i])
    requires forall i, j :: 0 <= i < |sources| && j == i + 1 && j < |sources| && !sources[i].quoted ==>
      StartsTag(sources[j].markup)
    ensures AllClean(sources)
  {
    forall i | 0 <= i < |sources| ensures WellWritten(sources[i]) { assert IsClean(sources[i]); }
    AllWellWrittenIf(sources);
  }

  lemma {:induction false} IconFrameClean()
    ensures AllClean(IconFrame())
  {
    FrameMarkups();
    SvgMarkups();
    FrameData();
    ButtonData();
    FlagData();
    ImageMarkups();
    UseMarkups();
    hide IsAttribute, IsTag, IsClean, StartsTag;
    CleanTag(">", "");
    CleanAttribute("<span class=", "app__icon");
    CleanAttribute("<svg class=", "icon");
    CleanAttribute(" aria-hidden=", "true");
    AllCleanIf(IconFrame());
  }

  lemma {:induction false} IconImageClean(index: nat)
    ensures AllClean(IconImage(index))
  {
    FrameMarkups();
    SvgMarkups();
    FrameData();
    ImageMarkups();
    UseMarkups();
    ImageData();
    IconUriIsFixed(index);
    hide IsAttribute, IsTag, IsClean, StartsTag, IconUri;
    CleanAttribute("<use href=", "#all-apps");
    CleanTag(">", "");
    CleanTag("</use>", "");
    CleanTag("</svg>", "");
    CleanAttribute("<img class=", "app__image");
    CleanAttribute(" src=", IconUri(index));
    CleanAttribute(" alt=", "");
    AllCleanIf(IconImage(index));
  }

  lemma {:induction false} CopyFrameClean()
    ensures AllClean(CopyFrame())
  {
    FrameMarkups();
    SvgMarkups();
    FrameData();
    CopyMarkups();
    CopyTags();
    hide IsAttribute, IsTag, IsClean, StartsTag;
    CleanTag(">", "");
    CleanTag("</span>", "");
    CleanAttribute("<span class=", "app__copy");
    AllCleanIf(CopyFrame());
  }

  lemma {:induction false} CopyClean(app: App)
    ensures AllClean(Copy(app))
  {
    CopyMarkups();
    CopyTags();
    EscapedReads(app.name);
    CategoryIsFixed(app.categories);
    hide IsAttribute, IsTag, IsClean, StartsTag, EscapeHtml, LauncherCategory, CategoryLabel;
    CleanTag("<strong>", EscapeHtml(app.name));
    CleanTag("</strong>", "");
    CleanTag("<small>", CategoryLabel(LauncherCategory(app.categories)));
    CleanTag("</small>", "");
    CleanTag("</span>", "");
    CleanTag("</button>", "\n");
    AllCleanIf(Copy(app));
  }

  lemma {:induction false} AllCleanConcat(a: seq<Source>, b: seq<Source>)
    requires AllClean(a) && AllClean(b) && a != [] && b != []
    requires a[|a| - 1].quoted || StartsTag(b[0].markup)
    ensures AllClean(a + b)
  {
    hide IsClean, AllWellWritten;
    AllWellWrittenConcat(a, b);
  }

  lemma {:induction false} CopyPartClean(app: App)
    ensures AllClean(CopyPart(app)) && CopyPart(app) != []
  {
    CopyFrameClean();
    CopyClean(app);
    StrongTag();
    hide AllClean, StartsTag, EscapeHtml, LauncherCategory, CategoryLabel;
    AllCleanConcat(CopyFrame(), Copy(app));
  }

  lemma {:induction false} ImagePartClean(app: App, index: nat)
    ensures AllClean(ImagePart(app, index)) && ImagePart(app, index) != []
    ensures StartsTag(ImagePart(app, index)[0].markup)
  {
    IconImageClean(index);
    CopyPartClean(app);
    UseTag();
    hide AllClean, StartsTag, IconUri, CopyPart;
    AllCleanConcat(IconImage(index), CopyPart(app));
  }

  lemma {:induction false} IconPartClean(app: App, index: nat)
    ensures AllClean(IconPart(app, index)) && IconPart(app, index) != []
  {
    IconFrameClean();
    ImagePartClean(app, index);
    hide AllClean, StartsTag, ImagePart;
    AllCleanConcat(IconFrame(), ImagePart(app, index));
  }

  lemma {:induction false} CatalogSourcesClean(app: App, index: nat)
    ensures AllClean(CatalogSources(app, index))
    ensures CatalogSources(app, index) != [] && StartsTag(CatalogSources(app, index)[0].markup)
  {
    AttributesClean(app, index);
    IconPartClean(app, index);
    ButtonTag();
    hide AllClean, StartsTag, EscapeHtml, LauncherCategory, Search, IconPart;
    AllCleanConcat(Attributes(app, index), IconPart(app, index));
  }

  lemma StrongTag()
    ensures StartsTag("<strong>")
  {
  }

  lemma UseTag()
    ensures StartsTag("<use href=")
  {
  }

  lemma ButtonTag()
    ensures StartsTag("<button class=")
  {
  }

  lemma {:induction false} PanelSourcesClean(app: App, index: nat)
    ensures AllClean(PanelSources(app, index))
    ensures PanelSources(app, index) != [] && StartsTag(PanelSources(app, index)[0].markup)
  {
    PanelAttributesClean(app);
    PanelImageClean(index);
    ButtonTag();
    hide AllClean, StartsTag, EscapeHtml, IconUri;
    AllCleanConcat(PanelAttributes(app), PanelImage(index));
  }

  lemma {:induction false} PanelAttributesClean(app: App)
    ensures AllClean(PanelAttributes(app))
  {
    ButtonMarkups();
    ButtonData();
    FlagData();
    PanelMarkups();
    EscapedReads(app.desktopId);
    EscapedReads(app.name);
    hide EscapeHtml, IsAttribute, IsClean;
    CleanAttribute("<button class=", "panel-app");
    CleanAttribute(" type=", "button");
    CleanAttribute(" data-app-id=", EscapeHtml(app.desktopId));
    CleanAttribute(" aria-label=", EscapeHtml(app.name));
    CleanAttribute(" title=", EscapeHtml(app.name));
    AllCleanIf(PanelAttributes(app));
  }

  lemma {:induction false} PanelImageClean(index: nat)
    ensures AllClean(PanelImage(index))
  {
    FrameMarkups();
    SvgMarkups();
    FrameData();
    ImageMarkups();
    UseMarkups();
    CopyMarkups();
    CopyTags();
    IconUriIsFixed(index);
    hide IsAttribute, IsTag, IsClean, StartsTag, IconUri;
    CleanTag(">", "");
    CleanAttribute("<img src=", IconUri(index));
    CleanAttribute(" alt=", "");
    CleanTag("</button>", "\n");
    AllCleanIf(PanelImage(index));
  }

  /** A list of buttons is empty or starts with a tag. */
  lemma {:induction false} CatalogStarts(apps: seq<App>, from: nat)
    requires from <= |apps|
    ensures Catalog(apps, from) == "" || StartsTag(Catalog(apps, from))
  {
    hide CatalogSources, AllClean;
    if from < |apps| {
      CatalogSourcesClean(apps[from], from);
      StartsShown(CatalogSources(apps[from], from), Catalog(apps, from + 1));
    }
  }

  lemma {:induction false} PanelStarts(selected: seq<(nat, App)>)
    ensures PanelApps(selected) == "" || StartsTag(PanelApps(selected))
  {
    hide PanelSources, AllClean;
    if selected != [] {
      PanelSourcesClean(selected[0].1, selected[0].0);
      StartsShown(PanelSources(selected[0].1, selected[0].0), PanelApps(selected[1..]));
    }
  }
}
