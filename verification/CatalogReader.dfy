/**
 * What the launcher's catalogue and the panel's list say to a reader of their markup: one button for each
 * application, in order, with the application's own data in every field.
 */
module CatalogReader {
  import opened AppMarkup
  import opened HtmlEscape
  import opened MarkupReader
  import opened StyleSheets
  import opened Text

  // ----- Reading buttons -----

  /** What a piece of a button is about. */
  datatype Field = Classes | Id | Category | Favorite | SearchText | Icon | Name | Label | AriaLabel | Title | Other

  function FieldOf(markup: string): Field {
    if markup == "<button class=" then Classes
    else if markup == " data-app-id=" then Id
    else if markup == " data-category=" then Category
    else if markup == " data-favorite=" then Favorite
    else if markup == " data-search=" then SearchText
    else if markup == " src=" || markup == "<img src=" then Icon
    else if markup == "<strong>" then Name
    else if markup == "<small>" then Label
    else if markup == " aria-label=" then AriaLabel
    else if markup == " title=" then Title
    else Other
  }

  function Datum(p: Piece, field: Field): seq<string> {
    if FieldOf(p.markup) == field then [p.data] else []
  }

  /** All the data of one field, in order. */
  function Data(pieces: seq<Piece>, field: Field): seq<string> {
    if pieces == [] then [] else Datum(pieces[0], field) + Data(pieces[1..], field)
  }

  predicate StartsButton(p: Piece) {
    FieldOf(p.markup) == Classes
  }

  /** How many pieces come before the next button. */
  function Extent(pieces: seq<Piece>): (n: nat)
    ensures n <= |pieces|
  {
    if pieces == [] || StartsButton(pieces[0]) then 0 else 1 + Extent(pieces[1..])
  }

  /** The pieces, button by button. */
  function Buttons(pieces: seq<Piece>): seq<seq<Piece>>
    decreases |pieces|
  {
    if pieces == [] then []
    else
      var n := 1 + Extent(pieces[1..]);
      [pieces[..n]] + Buttons(pieces[n..])
  }

  lemma {:induction false} ExtentOf(a: seq<Piece>, b: seq<Piece>)
    requires forall i :: 0 <= i < |a| ==> !StartsButton(a[i])
    requires b == [] || StartsButton(b[0])
    ensures Extent(a + b) == |a|
    decreases |a|
  {
    hide StartsButton;
    if a == [] {
      assert a + b == b;
    } else {
      assert (a + b)[1..] == a[1..] + b;
      ExtentOf(a[1..], b);
    }
  }

  /** One button: its first piece starts it, and no other does. */
  predicate IsButton(pieces: seq<Piece>) {
    pieces != [] && StartsButton(pieces[0]) && forall i :: 1 <= i < |pieces| ==> !StartsButton(pieces[i])
  }

  lemma {:induction false} ButtonFirst(button: seq<Piece>, rest: seq<Piece>)
    requires IsButton(button) && (rest == [] || StartsButton(rest[0]))
    ensures Buttons(button + rest) == [button] + Buttons(rest)
  {
    hide StartsButton;
    var all := button + rest;
    assert all[1..] == button[1..] + rest;
    ExtentOf(button[1..], rest);
    assert all[..|button|] == button && all[|button|..] == rest;
  }

  // ----- What the pieces of a button are about -----

  lemma ButtonFields()
    ensures FieldOf("<button class=") == Classes && FieldOf(" type=") == Other && FieldOf(" data-app-id=") == Id
  {
  }

  lemma DataFields()
    ensures FieldOf(" data-category=") == Category && FieldOf(" data-favorite=") == Favorite
    ensures FieldOf(" data-search=") == SearchText
  {
  }

  lemma FrameFields()
    ensures FieldOf(">") == Other && FieldOf("<span class=") == Other && FieldOf("<svg class=") == Other
    ensures FieldOf(" aria-hidden=") == Other
  {
  }

  lemma UseFields()
    ensures FieldOf("<use href=") == Other && FieldOf("</use>") == Other && FieldOf("</svg>") == Other
  {
  }

  lemma ImageFields()
    ensures FieldOf("<img class=") == Other && FieldOf(" src=") == Icon && FieldOf(" alt=") == Other
    ensures FieldOf("<img src=") == Icon
  {
  }

  lemma CopyFields()
    ensures FieldOf("<strong>") == Name && FieldOf("</strong>") == Other
    ensures FieldOf("<small>") == Label && FieldOf("</small>") == Other
  {
  }

  lemma EndFields()
    ensures FieldOf("</span>") == Other && FieldOf("</button>") == Other
  {
  }

  lemma PanelFields()
    ensures FieldOf(" aria-label=") == AriaLabel && FieldOf(" title=") == Title
  {
  }

  // ----- The data of written markup -----

  function WrittenDatum(s: Source, field: Field): seq<string> {
    if FieldOf(s.markup) == field then [DecodeEntities(s.raw)] else []
  }

  /** The data of one field, straight from what is written. */
  function Written(sources: seq<Source>, field: Field): seq<string> {
    if sources == [] then []
    else WrittenDatum(sources[0], field) + Written(sources[1..], field)
  }

  lemma {:induction false} WrittenData(sources: seq<Source>, field: Field)
    ensures Data(Pieces(sources), field) == Written(sources, field)
    decreases |sources|
  {
    hide FieldOf, DecodeEntities;
    if sources != [] {
      WrittenData(sources[1..], field);
      assert Pieces(sources)[1..] == Pieces(sources[1..]);
    }
  }

  lemma {:induction false} WrittenConcat(a: seq<Source>, b: seq<Source>, field: Field)
    ensures Written(a + b, field) == Written(a, field) + Written(b, field)
    decreases |a|
  {
    hide FieldOf, DecodeEntities;
    if a == [] {
      assert a + b == b;
    } else {
      var first := WrittenDatum(a[0], field);
      assert (a + b)[0] == a[0] && (a + b)[1..] == a[1..] + b;
      WrittenConcat(a[1..], b, field);
      ConcatAssociative(first, Written(a[1..], field), Written(b, field));
    }
  }

  /** Markup that is about nothing. */
  lemma {:induction false} NothingWritten(sources: seq<Source>, field: Field)
    requires field != Other && forall i :: 0 <= i < |sources| ==> FieldOf(sources[i].markup) == Other
    ensures Written(sources, field) == []
    decreases |sources|
  {
    hide FieldOf, DecodeEntities;
    if sources != [] { NothingWritten(sources[1..], field); }
  }

  lemma {:induction false} WrittenFrom(sources: seq<Source>, i: nat, field: Field)
    requires i < |sources|
    ensures Written(sources[i..], field) == WrittenDatum(sources[i], field) + Written(sources[i + 1..], field)
  {
    assert sources[i..][1..] == sources[i + 1..];
  }

  lemma {:induction false} WrittenEnd(sources: seq<Source>, field: Field)
    ensures Written(sources[|sources|..], field) == [] && sources[0..] == sources
  {
  }

  // ----- A catalogue button -----

  /** What the button of application number `index` has to say in each field. */
  function Says(app: App, index: nat, field: Field): seq<string> {
    match field
    case Classes => [if index == 0 then "app is-selected" else "app"]
    case Id => [app.desktopId]
    case Category => [LauncherCategory(app.categories)]
    case Favorite => [if index < 6 then "true" else "false"]
    case SearchText => [Search(app)]
    case Icon => ["meridian-icon://app/" + Decimal(index)]
    case Name => [app.name]
    case Label => [CategoryLabel(LauncherCategory(app.categories))]
    case _ => []
  }

  /** A button that says that, and nothing more. */
  predicate Describes(button: seq<Piece>, app: App, index: nat) {
    IsButton(button) && forall field :: field != Other ==> Data(button, field) == Says(app, index, field)
  }

  lemma {:induction false} DatumIs(s: Source, f: Field, data: string, field: Field)
    requires FieldOf(s.markup) == f && DecodeEntities(s.raw) == data
    ensures WrittenDatum(s, field) == if f == field then [data] else []
  {
  }

  /** An attribute or text with fixed data reads as that data. */
  lemma {:induction false} FixedDatum(s: Source, f: Field, field: Field)
    requires FieldOf(s.markup) == f && IsFixed(s.raw)
    ensures WrittenDatum(s, field) == if f == field then [s.raw] else []
  {
    DecodePlain(s.raw);
  }

  lemma {:induction false} EscapedDatum(s: Source, f: Field, data: string, field: Field)
    requires FieldOf(s.markup) == f && s.raw == EscapeHtml(data)
    ensures WrittenDatum(s, field) == if f == field then [data] else []
  {
    EscapedReads(data);
  }

  lemma {:induction false} StartSays(app: App, index: nat, field: Field)
    requires field != Other
    ensures
      var s := Attributes(app, index);
      && |s| == 6
      && WrittenDatum(s[0], field) == (if field == Classes then Says(app, index, field) else [])
      && WrittenDatum(s[1], field) == []
      && WrittenDatum(s[2], field) == if field == Id then Says(app, index, field) else []
  {
    ButtonFields();
    ButtonData();
    hide FieldOf, EscapeHtml, IsFixed, LauncherCategory, Search, WrittenDatum;
    FixedDatum(Attribute("<button class=", ClassList(index)), Classes, field);
    FixedDatum(Attribute(" type=", "button"), Other, field);
    EscapedDatum(Attribute(" data-app-id=", EscapeHtml(app.desktopId)), Id, app.desktopId, field);
  }

  lemma {:induction false} DataSays(app: App, index: nat, field: Field)
    requires field != Other
    ensures
      var s := Attributes(app, index);
      && |s| == 6
      && WrittenDatum(s[3], field) == (if field == Category then Says(app, index, field) else [])
      && WrittenDatum(s[4], field) == (if field == Favorite then Says(app, index, field) else [])
      && WrittenDatum(s[5], field) == if field == SearchText then Says(app, index, field) else []
  {
    DataFields();
    FlagData();
    CategoryIsFixed(app.categories);
    hide FieldOf, EscapeHtml, IsFixed, LauncherCategory, Search, WrittenDatum;
    FixedDatum(Attribute(" data-category=", LauncherCategory(app.categories)), Category, field);
    FixedDatum(Attribute(" data-favorite=", FavoriteFlag(index)), Favorite, field);
    EscapedDatum(Attribute(" data-search=", EscapeHtml(Search(app))), SearchText, Search(app), field);
  }

  lemma {:induction false} AttributesSay(app: App, index: nat, field: Field)
    requires field != Other
    ensures Written(Attributes(app, index), field)
         == if field in {Classes, Id, Category, Favorite, SearchText} then Says(app, index, field) else []
  {
    hide *;
    var s := Attributes(app, index);
    StartSays(app, index, field);
    DataSays(app, index, field);
    WrittenSix(s, field);
  }

  lemma {:induction false} WrittenSix(s: seq<Source>, field: Field)
    requires |s| == 6
    ensures Written(s, field) == WrittenDatum(s[0], field) + (WrittenDatum(s[1], field) + (WrittenDatum(s[2], field)
        + (WrittenDatum(s[3], field) + (WrittenDatum(s[4], field) + (WrittenDatum(s[5], field) + [])))))
  {
    hide Written, WrittenDatum;
    WrittenFrom(s, 0, field);
    WrittenFrom(s, 1, field);
    WrittenFrom(s, 2, field);
    WrittenFrom(s, 3, field);
    WrittenFrom(s, 4, field);
    WrittenFrom(s, 5, field);
    WrittenEnd(s, field);
  }

  lemma {:induction false} FramesSay(field: Field)
    requires field != Other
    ensures Written(IconFrame(), field) == [] && Written(CopyFrame(), field) == []
  {
    FrameFields();
    EndFields();
    hide FieldOf, Written;
    NothingWritten(IconFrame(), field);
    NothingWritten(CopyFrame(), field);
  }

  lemma {:induction false} ImageSays(index: nat, field: Field)
    requires field != Other
    ensures Written(IconImage(index), field) == if field == Icon then [IconUri(index)] else []
  {
    FrameFields();
    UseFields();
    ImageFields();
    IconUriIsFixed(index);
    hide FieldOf, DecodeEntities, IconUri, Written, IsFixed, WrittenDatum;
    FixedDatum(Attribute(" src=", IconUri(index)), Icon, field);
    OneOfSeven(IconImage(index), field);
  }

  lemma {:induction false} OneOfSeven(s: seq<Source>, field: Field)
    requires |s| == 7 && field != Other
    requires forall i :: 0 <= i < 7 && i != 5 ==> FieldOf(s[i].markup) == Other
    ensures Written(s, field) == WrittenDatum(s[5], field)
  {
    hide FieldOf, Written, WrittenDatum;
    assert s == s[..5] + s[5..];
    WrittenConcat(s[..5], s[5..], field);
    NothingWritten(s[..5], field);
    WrittenFrom(s, 5, field);
    NothingWritten(s[6..], field);
  }

  lemma {:induction false} CopyData(app: App, index: nat, field: Field)
    requires field != Other
    ensures
      var s := Copy(app);
      && |s| == 6
      && WrittenDatum(s[0], field) == (if field == Name then Says(app, index, field) else [])
      && WrittenDatum(s[2], field) == (if field == Label then Says(app, index, field) else [])
      && forall i :: i in {1, 3, 4, 5} ==> WrittenDatum(s[i], field) == []
  {
    CopyFields();
    EndFields();
    FrameData();
    CopyTags();
    CategoryIsFixed(app.categories);
    hide FieldOf, EscapeHtml, IsFixed, LauncherCategory, CategoryLabel, WrittenDatum;
    EscapedDatum(Tag("<strong>", EscapeHtml(app.name)), Name, app.name, field);
    FixedDatum(Tag("<small>", CategoryLabel(LauncherCategory(app.categories))), Label, field);
    FixedDatum(Tag("</strong>", ""), Other, field);
    FixedDatum(Tag("</small>", ""), Other, field);
    FixedDatum(Tag("</span>", ""), Other, field);
    FixedDatum(Tag("</button>", "\n"), Other, field);
  }

  lemma {:induction false} CopySays(app: App, index: nat, field: Field)
    requires field != Other
    ensures Written(Copy(app), field) == if field in {Name, Label} then Says(app, index, field) else []
  {
    hide *;
    CopyData(app, index, field);
    WrittenSix(Copy(app), field);
    var s := Copy(app);
    assert WrittenDatum(s[1], field) == WrittenDatum(s[3], field) == WrittenDatum(s[4], field) == [];
  }

  lemma {:induction false} ButtonSplits(app: App, index: nat, field: Field)
    ensures Written(CatalogSources(app, index), field)
         == Written(Attributes(app, index), field)
          + (Written(IconFrame(), field)
             + (Written(IconImage(index), field) + (Written(CopyFrame(), field) + Written(Copy(app), field))))
  {
    hide Written, Attributes, IconFrame, IconImage, CopyFrame, Copy;
    WrittenConcat(Attributes(app, index), IconPart(app, index), field);
    WrittenConcat(IconFrame(), ImagePart(app, index), field);
    WrittenConcat(IconImage(index), CopyPart(app), field);
    WrittenConcat(CopyFrame(), Copy(app), field);
  }

  lemma {:induction false} ButtonSays(app: App, index: nat, field: Field)
    requires field != Other
    ensures Written(CatalogSources(app, index), field) == Says(app, index, field)
  {
    OtherFields(app, index, field);
    hide *;
    ButtonSplits(app, index, field);
    AttributesSay(app, index, field);
    FramesSay(field);
    ImageSays(index, field);
    CopySays(app, index, field);
    assert Says(app, index, field) + [] == Says(app, index, field);
  }

  lemma OtherFields(app: App, index: nat, field: Field)
    ensures field == Icon ==> Says(app, index, field) == [IconUri(index)]
    ensures field in {AriaLabel, Title} ==> Says(app, index, field) == []
    ensures field in {Classes, Id, Category, Favorite, SearchText, Icon, Name, Label, AriaLabel, Title, Other}
  {
  }

  /** No piece but the first starts a button. */
  lemma {:induction false} OneStart(sources: seq<Source>)
    requires sources != [] && FieldOf(sources[0].markup) == Classes && |Written(sources, Classes)| == 1
    ensures IsButton(Pieces(sources))
  {
    hide FieldOf, DecodeEntities;
    NoStart(sources[1..]);
    assert forall i :: 0 < i < |sources| ==> Pieces(sources)[i] == Pieces(sources[1..])[i - 1];
  }

  lemma {:induction false} NoStart(sources: seq<Source>)
    requires Written(sources, Classes) == []
    ensures forall i :: 0 <= i < |sources| ==> !StartsButton(Pieces(sources)[i])
    decreases |sources|
  {
    hide FieldOf, DecodeEntities;
    if sources != [] { NoStart(sources[1..]); }
  }

  lemma {:induction false} ButtonDescribes(app: App, index: nat)
    ensures Describes(Pieces(CatalogSources(app, index)), app, index)
  {
    var sources := CatalogSources(app, index);
    assert sources[0].markup == "<button class=";
    ButtonFields();
    hide FieldOf, CatalogSources, Written, Data;
    forall field | field != Other ensures Data(Pieces(sources), field) == Says(app, index, field) {
      WrittenData(sources, field);
      ButtonSays(app, index, field);
    }
    ButtonSays(app, index, Classes);
    assert sources != [] by { if sources == [] { NothingWritten(sources, Classes); } }
    OneStart(sources);
  }

  /**
   * Reading the catalogue gives one button for each application, in order, and each says of its application
   * what there is to say: no field is another's, cut short, or taken for markup.
   */
  lemma {:induction false} CatalogReads(apps: seq<App>, from: nat)
    requires from <= |apps|
    ensures
      var buttons := Buttons(Read(Catalog(apps, from)));
      && |buttons| == |apps| - from
      && forall i :: 0 <= i < |buttons| ==> Describes(buttons[i], apps[from + i], from + i)
    ensures Read(Catalog(apps, from)) == [] || StartsButton(Read(Catalog(apps, from))[0])
    decreases |apps| - from
  {
    hide *;
    if from == |apps| {
      NothingListed(apps);
    } else {
      var button := Pieces(CatalogSources(apps[from], from));
      CatalogReads(apps, from + 1);
      FirstButton(apps, from);
      ButtonDescribes(apps[from], from);
      DescribesIsButton(button, apps[from], from);
      ButtonFirst(button, Read(Catalog(apps, from + 1)));
      IsButtonStarts(button, Read(Catalog(apps, from + 1)));
    }
  }

  lemma {:induction false} FirstButton(apps: seq<App>, from: nat)
    requires from < |apps|
    ensures Read(Catalog(apps, from)) == Pieces(CatalogSources(apps[from], from)) + Read(Catalog(apps, from + 1))
  {
    hide Read, CatalogSources, Pieces, ShownAll, AllClean, StartsTag;
    CatalogSourcesClean(apps[from], from);
    CleanIsWellWritten(CatalogSources(apps[from], from));
    CatalogStarts(apps, from + 1);
    ReadAll(CatalogSources(apps[from], from), Catalog(apps, from + 1));
  }

  lemma NothingListed(apps: seq<App>)
    ensures Read(Catalog(apps, |apps|)) == [] && Buttons([]) == []
  {
  }

  lemma IsButtonStarts(button: seq<Piece>, rest: seq<Piece>)
    requires IsButton(button)
    ensures button + rest != [] && StartsButton((button + rest)[0])
  {
  }

  lemma CleanIsWellWritten(sources: seq<Source>)
    requires AllClean(sources)
    ensures AllWellWritten(sources)
  {
  }

  lemma DescribesIsButton(button: seq<Piece>, app: App, index: nat)
    requires Describes(button, app, index)
    ensures IsButton(button)
  {
  }

  // ----- The panel -----

  function PanelSays(app: App, index: nat, field: Field): seq<string> {
    match field
    case Classes => ["panel-app"]
    case Id => [app.desktopId]
    case AriaLabel => [app.name]
    case Title => [app.name]
    case Icon => ["meridian-icon://app/" + Decimal(index)]
    case _ => []
  }

  predicate DescribesInPanel(button: seq<Piece>, app: App, index: nat) {
    IsButton(button) && forall field :: field != Other ==> Data(button, field) == PanelSays(app, index, field)
  }

  lemma {:induction false} PanelAttributesSay(app: App, index: nat, field: Field)
    requires field != Other
    ensures Written(PanelAttributes(app), field)
         == if field == Icon then [] else PanelSays(app, index, field)
  {
    PanelNoIcon(app, index);
    hide *;
    PanelData(app, index, field);
    WrittenFive(PanelAttributes(app), field);
  }

  lemma {:induction false} WrittenFive(s: seq<Source>, field: Field)
    requires |s| == 5
    ensures Written(s, field) == WrittenDatum(s[0], field) + (WrittenDatum(s[1], field) + (WrittenDatum(s[2], field)
        + (WrittenDatum(s[3], field) + (WrittenDatum(s[4], field) + []))))
  {
    hide Written, WrittenDatum;
    WrittenFrom(s, 0, field);
    WrittenFrom(s, 1, field);
    WrittenFrom(s, 2, field);
    WrittenFrom(s, 3, field);
    WrittenFrom(s, 4, field);
    WrittenEnd(s, field);
  }

  lemma PanelNoIcon(app: App, index: nat)
    ensures forall field :: field !in {Classes, Id, AriaLabel, Title, Icon} ==> PanelSays(app, index, field) == []
  {
  }

  lemma {:induction false} PanelData(app: App, index: nat, field: Field)
    requires field != Other
    ensures
      var s := PanelAttributes(app);
      && |s| == 5
      && WrittenDatum(s[0], field) == (if field == Classes then PanelSays(app, index, field) else [])
      && WrittenDatum(s[1], field) == []
      && WrittenDatum(s[2], field) == (if field == Id then PanelSays(app, index, field) else [])
      && WrittenDatum(s[3], field) == (if field == AriaLabel then PanelSays(app, index, field) else [])
      && WrittenDatum(s[4], field) == if field == Title then PanelSays(app, index, field) else []
  {
    ButtonFields();
    ButtonData();
    PanelMarkups();
    PanelFields();
    hide FieldOf, EscapeHtml, IsFixed, WrittenDatum;
    FixedDatum(Attribute("<button class=", "panel-app"), Classes, field);
    FixedDatum(Attribute(" type=", "button"), Other, field);
    EscapedDatum(Attribute(" data-app-id=", EscapeHtml(app.desktopId)), Id, app.desktopId, field);
    EscapedDatum(Attribute(" aria-label=", EscapeHtml(app.name)), AriaLabel, app.name, field);
    EscapedDatum(Attribute(" title=", EscapeHtml(app.name)), Title, app.name, field);
  }

  lemma {:induction false} PanelImageSays(index: nat, field: Field)
    requires field != Other
    ensures Written(PanelImage(index), field) == if field == Icon then [IconUri(index)] else []
  {
    FrameFields();
    ImageFields();
    EndFields();
    IconUriIsFixed(index);
    var s := PanelImage(index);
    hide FieldOf, Written, IsFixed, WrittenDatum, IconUri;
    FixedDatum(Attribute("<img src=", IconUri(index)), Icon, field);
    NothingWritten(s[..1], field);
    NothingWritten(s[2..], field);
    WrittenConcat(s[..1], s[1..], field);
    WrittenFrom(s, 1, field);
    assert s == s[..1] + s[1..];
  }

  lemma {:induction false} PanelButtonSays(app: App, index: nat, field: Field)
    requires field != Other
    ensures Written(PanelSources(app, index), field) == PanelSays(app, index, field)
  {
    hide Written, PanelAttributes, PanelImage;
    assert field == Icon ==> PanelSays(app, index, field) == [IconUri(index)];
    hide PanelSays;
    PanelAttributesSay(app, index, field);
    PanelImageSays(index, field);
    WrittenConcat(PanelAttributes(app), PanelImage(index), field);
  }

  lemma {:induction false} PanelButtonDescribes(app: App, index: nat)
    ensures DescribesInPanel(Pieces(PanelSources(app, index)), app, index)
  {
    var sources := PanelSources(app, index);
    assert sources[0].markup == "<button class=";
    ButtonFields();
    hide FieldOf, PanelSources, Written, Data;
    forall field | field != Other ensures Data(Pieces(sources), field) == PanelSays(app, index, field) {
      WrittenData(sources, field);
      PanelButtonSays(app, index, field);
    }
    PanelButtonSays(app, index, Classes);
    assert sources != [] by { if sources == [] { NothingWritten(sources, Classes); } }
    OneStart(sources);
  }

  /** Reading the panel's list gives a button for each selected application, in order, with its own data. */
  lemma {:induction false} PanelReads(selected: seq<(nat, App)>)
    ensures
      var buttons := Buttons(Read(PanelApps(selected)));
      && |buttons| == |selected|
      && forall i :: 0 <= i < |buttons| ==> DescribesInPanel(buttons[i], selected[i].1, selected[i].0)
    ensures Read(PanelApps(selected)) == [] || StartsButton(Read(PanelApps(selected))[0])
    decreases |selected|
  {
    hide *;
    if selected == [] {
      NothingSelected();
    } else {
      var index, app, more := selected[0].0, selected[0].1, selected[1..];
      var button := Pieces(PanelSources(app, index));
      PanelReads(more);
      FirstPanelButton(selected);
      PanelButtonDescribes(app, index);
      PanelDescribesIsButton(button, app, index);
      ButtonFirst(button, Read(PanelApps(more)));
      IsButtonStarts(button, Read(PanelApps(more)));
      assert forall i :: 0 < i < |selected| ==> selected[i] == more[i - 1];
    }
  }

  lemma {:induction false} FirstPanelButton(selected: seq<(nat, App)>)
    requires selected != []
    ensures Read(PanelApps(selected))
         == Pieces(PanelSources(selected[0].1, selected[0].0)) + Read(PanelApps(selected[1..]))
  {
    hide Read, PanelSources, Pieces, ShownAll, AllClean, StartsTag;
    var sources := PanelSources(selected[0].1, selected[0].0);
    PanelSourcesClean(selected[0].1, selected[0].0);
    CleanIsWellWritten(sources);
    PanelStarts(selected[1..]);
    ReadAll(sources, PanelApps(selected[1..]));
  }

  lemma NothingSelected()
    ensures Read(PanelApps([])) == [] && Buttons([]) == []
  {
  }

  lemma PanelDescribesIsButton(button: seq<Piece>, app: App, index: nat)
    requires DescribesInPanel(button, app, index)
    ensures IsButton(button)
  {
  }
}
