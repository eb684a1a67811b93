/** The index of installed applications by the MIME types they declare. */
module MimeIndex {
  import opened Text

  datatype Candidate = Candidate(desktopId: string, name: string, icon: Option<string>, mimeTypes: seq<string>)

  /** The entries of a directory, if it can be read; an entry is None unless it is a desktop file that parses. */
  type Directory = Option<seq<Option<Candidate>>>

  // ----- The MIME types of one entry -----

  /** `str::split` on one character. */
  function Split(s: string, separator: char): (pieces: seq<string>)
    ensures pieces != []
  {
    if s == "" then [""]
    else
      var rest := Split(s[1..], separator);
      if s[0] == separator then [""] + rest else [[s[0]] + rest[0]] + rest[1..]
  }

  function Glue(pieces: seq<string>, separator: char): string {
    if pieces == [] then ""
    else if |pieces| == 1 then pieces[0]
    else pieces[0] + [separator] + Glue(pieces[1..], separator)
  }

  /** The pieces are free of separators, and with separators between them make up the string. */
  lemma {:induction false} SplitExact(s: string, separator: char)
    ensures forall i :: 0 <= i < |Split(s, separator)| ==> separator !in Split(s, separator)[i]
    ensures Glue(Split(s, separator), separator) == s
    decreases |s|
  {
    if s != "" {
      SplitExact(s[1..], separator);
      var rest := Split(s[1..], separator);
      assert s == [s[0]] + s[1..];
      hide Glue;
      if s[0] == separator {
        GlueEmpty(rest, separator);
      } else {
        GlueLonger(s[0], rest, separator);
      }
    }
  }

  lemma {:induction false} GlueEmpty(pieces: seq<string>, separator: char)
    requires pieces != []
    ensures Glue([""] + pieces, separator) == [separator] + Glue(pieces, separator)
  {
    assert ([""] + pieces)[1..] == pieces;
    assert "" + [separator] == [separator];
  }

  lemma {:induction false} GlueLonger(c: char, pieces: seq<string>, separator: char)
    requires pieces != []
    ensures Glue([[c] + pieces[0]] + pieces[1..], separator) == [c] + Glue(pieces, separator)
  {
    var longer := [[c] + pieces[0]] + pieces[1..];
    assert longer[1..] == pieces[1..];
    if |pieces| > 1 {
      assert [c] + pieces[0] + [separator] + Glue(pieces[1..], separator)
          == [c] + (pieces[0] + [separator] + Glue(pieces[1..], separator));
    }
  }

  /** The non-blank pieces of the given MimeType values, trimmed, in order. */
  function Declared(values: seq<string>): seq<string> {
    if values == [] then [] else Declared(values[..|values| - 1]) + Tokens(Split(values[|values| - 1], ';'))
  }

  function Tokens(pieces: seq<string>): seq<string> {
    if pieces == [] then []
    else Tokens(pieces[..|pieces| - 1]) + Token(pieces[|pieces| - 1])
  }

  function Token(piece: string): seq<string> {
    if Trim(piece) == "" then [] else [Trim(piece)]
  }

  /** Adds what is not there yet. */
  function Merged(known: seq<string>, more: seq<string>): seq<string> {
    if more == [] then known
    else
      var r := Merged(known, more[..|more| - 1]);
      if more[|more| - 1] in r then r else r + [more[|more| - 1]]
  }

  lemma {:induction false} MergedSplit(known: seq<string>, a: seq<string>, b: seq<string>)
    ensures Merged(known, a + b) == Merged(Merged(known, a), b)
    decreases |b|
  {
    if b == [] {
      assert a + b == a;
    } else {
      assert (a + b)[..|a + b| - 1] == a + b[..|b| - 1];
      MergedSplit(known, a, b[..|b| - 1]);
    }
  }

  /** `a` is declared before the first declaration of `b`. */
  ghost predicate DeclaredBefore(more: seq<string>, a: string, b: string) {
    exists k :: 0 <= k < |more| && more[k] == a && b !in more[..k]
  }

  lemma {:induction false} DeclaredBeforeStays(front: seq<string>, last: string, a: string, b: string)
    requires DeclaredBefore(front, a, b)
    ensures DeclaredBefore(front + [last], a, b)
  {
    var k :| 0 <= k < |front| && front[k] == a && b !in front[..k];
    assert (front + [last])[..k] == front[..k] && (front + [last])[k] == a;
  }

  lemma {:induction false} DeclaredBeforeLast(front: seq<string>, last: string, a: string)
    requires a in front && last !in front
    ensures DeclaredBefore(front + [last], a, last)
  {
    var k :| 0 <= k < |front| && front[k] == a;
    assert (front + [last])[..k] == front[..k] && (front + [last])[k] == a;
  }

  /** No type twice, the same types as declared, in the order of their first declaration. */
  lemma {:induction false} MergedProperties(more: seq<string>)
    ensures Distinct(Merged([], more))
    ensures forall m :: m in Merged([], more) <==> m in more
    ensures forall i, j :: 0 <= i < j < |Merged([], more)| ==>
      DeclaredBefore(more, Merged([], more)[i], Merged([], more)[j])
    decreases |more|
  {
    if more != [] {
      var front, last := more[..|more| - 1], more[|more| - 1];
      MergedProperties(front);
      var r, r' := Merged([], front), Merged([], more);
      assert more == front + [last];
      hide DeclaredBefore;
      forall i, j | 0 <= i < j < |r'| ensures DeclaredBefore(more, r'[i], r'[j]) {
        if j < |r| {
          DeclaredBeforeStays(front, last, r[i], r[j]);
        } else {
          assert r[i] in r && r[i] in front;
          DeclaredBeforeLast(front, last, r[i]);
        }
      }
    }
  }

  lemma {:induction false} MergedNext(known: seq<string>, pieces: seq<string>, p: nat)
    requires p < |pieces|
    ensures
      var r := Merged(known, Tokens(pieces[..p]));
      var m := Trim(pieces[p]);
      Merged(known, Tokens(pieces[..p + 1])) == if m == "" || m in r then r else r + [m]
  {
    var before := Tokens(pieces[..p]);
    assert pieces[..p + 1][..p] == pieces[..p];
    if Trim(pieces[p]) == "" {
      assert Tokens(pieces[..p + 1]) == before + [] == before;
    } else {
      assert Tokens(pieces[..p + 1]) == before + [Trim(pieces[p])];
      assert (before + [Trim(pieces[p])])[..|before|] == before;
    }
  }

  lemma {:induction false} DeclaredNext(values: seq<string>, v: nat)
    requires v < |values|
    ensures Merged([], Declared(values[..v + 1]))
         == Merged(Merged([], Declared(values[..v])), Tokens(Split(values[v], ';')))
  {
    assert values[..v + 1][..v] == values[..v];
    MergedSplit([], Declared(values[..v]), Tokens(Split(values[v], ';')));
  }

  /** Values are read one after the other, and so are the parts of a value on both sides of a separator. */
  lemma {:induction false} DeclaredConcat(a: seq<string>, b: seq<string>)
    ensures Declared(a + b) == Declared(a) + Declared(b)
    decreases |b|
  {
    if b == [] {
      assert a + b == a && Declared(a) + [] == Declared(a);
    } else {
      var n := |b| - 1;
      assert (a + b)[..|a + b| - 1] == a + b[..n];
      DeclaredConcat(a, b[..n]);
      hide Tokens, Split;
      ConcatAssociative(Declared(a), Declared(b[..n]), Tokens(Split(b[n], ';')));
    }
  }

  lemma {:induction false} TokensConcat(a: seq<string>, b: seq<string>)
    ensures Tokens(a + b) == Tokens(a) + Tokens(b)
    decreases |b|
  {
    if b == [] {
      assert a + b == a && Tokens(a) + [] == Tokens(a);
    } else {
      var n := |b| - 1;
      assert (a + b)[..|a + b| - 1] == a + b[..n];
      TokensConcat(a, b[..n]);
      hide Token;
      ConcatAssociative(Tokens(a), Tokens(b[..n]), Token(b[n]));
    }
  }

  lemma {:induction false} SplitAt(v: string, separator: char, w: string)
    ensures Split(v + [separator] + w, separator) == Split(v, separator) + Split(w, separator)
    decreases |v|
  {
    if v == "" {
      assert "" + [separator] + w == [separator] + w;
      SplitCons(separator, w, separator);
    } else {
      var c, rest := v[0], v[1..];
      SplitAt(rest, separator, w);
      assert v == [c] + rest && v + [separator] + w == [c] + (rest + [separator] + w);
      SplitCons(c, rest, separator);
      SplitCons(c, rest + [separator] + w, separator);
      hide Split;
      BehindHead(Split(rest, separator), Split(w, separator), c);
    }
  }

  lemma {:induction false} SplitCons(c: char, rest: string, separator: char)
    ensures
      var pieces := Split(rest, separator);
      Split([c] + rest, separator) == if c == separator then [""] + pieces else [[c] + pieces[0]] + pieces[1..]
  {
    assert ([c] + rest)[1..] == rest;
  }

  lemma {:induction false} BehindHead(a: seq<string>, b: seq<string>, c: char)
    requires a != []
    ensures [""] + (a + b) == [""] + a + b
    ensures [[c] + (a + b)[0]] + (a + b)[1..] == [[c] + a[0]] + a[1..] + b
  {
    assert (a + b)[1..] == a[1..] + b;
  }

  lemma {:induction false} SplitNothing(v: string, separator: char)
    requires separator !in v
    ensures Split(v, separator) == [v]
    decreases |v|
  {
    if v != "" {
      SplitNothing(v[1..], separator);
      assert v == [v[0]] + v[1..];
    }
  }

  lemma {:induction false} DeclaredInOne(value: string)
    ensures Declared([value]) == Tokens(Split(value, ';'))
  {
    hide Tokens, Split;
    assert [value][..0] == [];
    assert Declared([]) == [] && [] + Tokens(Split(value, ';')) == Tokens(Split(value, ';'));
  }

  lemma {:induction false} DeclaredAcross(v: string, w: string)
    ensures Declared([v + ";" + w]) == Declared([v]) + Declared([w])
  {
    DeclaredInOne(v);
    DeclaredInOne(w);
    DeclaredInOne(v + ";" + w);
    SplitAt(v, ';', w);
    TokensConcat(Split(v, ';'), Split(w, ';'));
    hide Declared, Split, Tokens;
  }

  /** A part without separators declares itself, less its outer blanks, or nothing if it is blank. */
  lemma {:induction false} DeclaredPart(v: string)
    requires ';' !in v
    ensures Declared([v]) == if IsBlank(v) then [] else [Trim(v)]
  {
    DeclaredInOne(v);
    SplitNothing(v, ';');
    BlankTrims(v);
    hide Declared, Split, IsBlank, Trim;
    assert [v][..0] == [] && Tokens([]) == [] && [] + Token(v) == Token(v);
  }

  method ParseMimeTypes(values: seq<string>) returns (mimeTypes: seq<string>)
    ensures mimeTypes == Merged([], Declared(values))
  {
    mimeTypes := [];
    for v := 0 to |values|
      invariant mimeTypes == Merged([], Declared(values[..v]))
    {
      var pieces := Split(values[v], ';');
      ghost var before := mimeTypes;
      for p := 0 to |pieces|
        invariant mimeTypes == Merged(before, Tokens(pieces[..p]))
      {
        var m := Trim(pieces[p]);
        MergedNext(before, pieces, p);
        if m != "" && m !in mimeTypes {
          mimeTypes := mimeTypes + [m];
        }
      }
      assert pieces[..|pieces|] == pieces;
      DeclaredNext(values, v);
    }
    assert values[..|values|] == values;
  }

  // ----- What the index should contain -----

  /** Entries that parsed to a candidate with at least one MIME type, in the order they are met. */
  function Usable(entries: seq<Option<Candidate>>): seq<Candidate> {
    if entries == [] then []
    else
      var last := entries[|entries| - 1];
      Usable(entries[..|entries| - 1]) + if last.Some? && last.value.mimeTypes != [] then [last.value] else []
  }

  /** The entries of all readable directories, in directory order. */
  function AllEntries(dirs: seq<Directory>): seq<Option<Candidate>> {
    if dirs == [] then []
    else AllEntries(dirs[..|dirs| - 1]) + if dirs[|dirs| - 1].Some? then dirs[|dirs| - 1].value else []
  }

  lemma {:induction false} UsableConcat(a: seq<Option<Candidate>>, b: seq<Option<Candidate>>)
    ensures Usable(a + b) == Usable(a) + Usable(b)
    decreases |b|
  {
    if b == [] {
      assert a + b == a && Usable(a) + [] == Usable(a);
    } else {
      var n := |b| - 1;
      assert (a + b)[..|a + b| - 1] == a + b[..n];
      UsableConcat(a, b[..n]);
    }
  }

  lemma {:induction false} AllEntriesConcat(a: seq<Directory>, b: seq<Directory>)
    ensures AllEntries(a + b) == AllEntries(a) + AllEntries(b)
    decreases |b|
  {
    if b == [] {
      assert a + b == a && AllEntries(a) + [] == AllEntries(a);
    } else {
      var n := |b| - 1;
      assert (a + b)[..|a + b| - 1] == a + b[..n];
      AllEntriesConcat(a, b[..n]);
    }
  }

  /** Directories are read one after the other. */
  lemma {:induction false} CandidatesConcat(a: seq<Directory>, b: seq<Directory>)
    ensures Usable(AllEntries(a + b)) == Usable(AllEntries(a)) + Usable(AllEntries(b))
  {
    AllEntriesConcat(a, b);
    UsableConcat(AllEntries(a), AllEntries(b));
  }

  /** So are the entries of one, each of which counts if it parsed to a candidate with a MIME type. */
  lemma {:induction false} CandidatesInOne(entries: seq<Option<Candidate>>, entry: Option<Candidate>)
    ensures Usable(AllEntries([None])) == [] && Usable(AllEntries([Some([])])) == []
    ensures Usable(AllEntries([Some(entries + [entry])]))
         == Usable(AllEntries([Some(entries)]))
            + if entry.Some? && entry.value.mimeTypes != [] then [entry.value] else []
  {
    EntriesInOne(None);
    EntriesInOne(Some([]));
    EntriesInOne(Some(entries));
    EntriesInOne(Some(entries + [entry]));
    assert (entries + [entry])[..|entries|] == entries;
    hide AllEntries;
  }

  lemma {:induction false} EntriesInOne(dir: Directory)
    ensures AllEntries([dir]) == if dir.Some? then dir.value else []
  {
    assert [dir][..0] == [] && AllEntries([]) == [];
  }

  predicate Knows(apps: seq<Candidate>, desktopId: string) {
    exists i :: 0 <= i < |apps| && apps[i].desktopId == desktopId
  }

  /** Keeps the first candidate of each desktop id. */
  function Kept(candidates: seq<Candidate>): seq<Candidate> {
    if candidates == [] then []
    else
      var apps := Kept(candidates[..|candidates| - 1]);
      var last := candidates[|candidates| - 1];
      if Knows(apps, last.desktopId) then apps else apps + [last]
  }

  /** Positions of the apps that declare `mime`. */
  function Declaring(apps: seq<Candidate>, mime: string): seq<nat> {
    if apps == [] then []
    else
      Declaring(apps[..|apps| - 1], mime) + if mime in apps[|apps| - 1].mimeTypes then [|apps| - 1] else []
  }

  function Filter(apps: seq<Candidate>, mime: string): seq<Candidate> {
    if apps == [] then []
    else
      Filter(apps[..|apps| - 1], mime) + if mime in apps[|apps| - 1].mimeTypes then [apps[|apps| - 1]] else []
  }

  ghost predicate IndexOf(apps: seq<Candidate>, byMime: map<string, seq<nat>>) {
    forall m :: if m in byMime then byMime[m] == Declaring(apps, m) && byMime[m] != [] else Declaring(apps, m) == []
  }

  /** While the types of the app at the next position are entered: `entered` of them are done. */
  ghost predicate IndexGrowing(apps: seq<Candidate>, entered: seq<string>, byMime: map<string, seq<nat>>) {
    forall m ::
      var expected := Declaring(apps, m) + if m in entered then [|apps|] else [];
      if m in byMime then byMime[m] == expected && byMime[m] != [] else expected == []
  }

  /** As `parse_mime_candidate` leaves them. */
  ghost predicate WellParsed(dirs: seq<Directory>) {
    forall d, e :: 0 <= d < |dirs| && dirs[d].Some? && 0 <= e < |dirs[d].value| && dirs[d].value[e].Some? ==>
      Distinct(dirs[d].value[e].value.mimeTypes)
  }

  /** What one more entry changes. */
  function Extended(apps: seq<Candidate>, entry: Option<Candidate>): seq<Candidate> {
    if entry.None? || entry.value.mimeTypes == [] || Knows(apps, entry.value.desktopId) then apps
    else apps + [entry.value]
  }

  lemma {:induction false} KeptNext(entries: seq<Option<Candidate>>, entry: Option<Candidate>)
    ensures Kept(Usable(entries + [entry])) == Extended(Kept(Usable(entries)), entry)
  {
    assert (entries + [entry])[..|entries|] == entries;
    var before := Usable(entries);
    if entry.None? || entry.value.mimeTypes == [] {
      assert Usable(entries + [entry]) == before + [] == before;
    } else {
      assert Usable(entries + [entry]) == before + [entry.value];
      assert (before + [entry.value])[..|before|] == before;
    }
  }

  lemma NothingKept()
    ensures Kept(Usable([])) == []
  {
  }

  lemma {:induction false} AllEntriesNext(dirs: seq<Directory>, d: nat)
    requires d < |dirs|
    ensures AllEntries(dirs[..d + 1]) == AllEntries(dirs[..d]) + if dirs[d].Some? then dirs[d].value else []
  {
    assert dirs[..d + 1][..d] == dirs[..d];
  }

  lemma {:induction false} IndexStarts(apps: seq<Candidate>, byMime: map<string, seq<nat>>)
    requires IndexOf(apps, byMime)
    ensures IndexGrowing(apps, [], byMime)
  {
    assert forall m :: Declaring(apps, m) + [] == Declaring(apps, m);
  }

  lemma {:induction false} IndexGrows(apps: seq<Candidate>, entered: seq<string>, byMime: map<string, seq<nat>>,
      mime: string)
    requires IndexGrowing(apps, entered, byMime) && mime !in entered
    ensures IndexGrowing(apps, entered + [mime], byMime[mime := (if mime in byMime then byMime[mime]
        else []) + [|apps|]])
  {
    hide Declaring;
    assert Declaring(apps, mime) + [] == Declaring(apps, mime);
    forall m ensures m in entered + [mime] <==> m in entered || m == mime {
    }
  }

  lemma {:induction false} IndexComplete(apps: seq<Candidate>, app: Candidate, byMime: map<string, seq<nat>>)
    requires IndexGrowing(apps, app.mimeTypes, byMime)
    ensures IndexOf(apps + [app], byMime)
  {
    assert (apps + [app])[..|apps|] == apps;
  }

  class MimeAppIndex {
    var apps: seq<Candidate>
    var byMime: map<string, seq<nat>>

    ghost predicate Valid()
      reads this
    {
      IndexOf(apps, byMime)
    }

    constructor LoadSystem(dirs: seq<Directory>)
      requires WellParsed(dirs)
      ensures Valid() && apps == Kept(Usable(AllEntries(dirs)))
    {
      apps, byMime := [], map[];
      new;
      hide Kept, Usable, Extended;
      NothingKept();
      for d := 0 to |dirs|
        invariant Valid() && apps == Kept(Usable(AllEntries(dirs[..d])))
      {
        AllEntriesNext(dirs, d);
        if dirs[d].None? {
          assert AllEntries(dirs[..d]) + [] == AllEntries(dirs[..d]);
          continue;
        }
        var entries := dirs[d].value;
        ghost var before := AllEntries(dirs[..d]);
        assert before + entries[..0] == before;
        for e := 0 to |entries|
          invariant Valid() && apps == Kept(Usable(before + entries[..e]))
        {
          assert before + entries[..e + 1] == before + entries[..e] + [entries[e]];
          KeptNext(before + entries[..e], entries[e]);
          ReadEntry(entries[e]);
        }
        assert entries[..|entries|] == entries && AllEntries(dirs[..d + 1]) == before + entries;
      }
      assert dirs[..|dirs|] == dirs;
    }

    /** One directory entry; `entry` is None unless it is a desktop file that parses. */
    method ReadEntry(entry: Option<Candidate>)
      requires Valid() && (entry.Some? ==> Distinct(entry.value.mimeTypes))
      modifies this
      ensures Valid() && apps == Extended(old(apps), entry)
    {
      if entry.None? || entry.value.mimeTypes == [] {
        return;
      }
      if Knows(apps, entry.value.desktopId) {
        return;
      }
      Enter(entry.value);
    }

    /** Enters one new app at the end of the list. */
    method Enter(app: Candidate)
      requires Valid() && Distinct(app.mimeTypes)
      modifies this
      ensures Valid() && apps == old(apps) + [app]
    {
      hide Declaring, IndexGrowing, IndexOf;
      var idx := |apps|;
      IndexStarts(apps, byMime);
      assert app.mimeTypes[..0] == [];
      for k := 0 to |app.mimeTypes|
        invariant apps == old(apps)
        invariant IndexGrowing(apps, app.mimeTypes[..k], byMime)
      {
        var mime := app.mimeTypes[k];
        assert app.mimeTypes[..k + 1] == app.mimeTypes[..k] + [mime];
        assert mime !in app.mimeTypes[..k];
        IndexGrows(apps, app.mimeTypes[..k], byMime, mime);
        byMime := byMime[mime := (if mime in byMime then byMime[mime] else []) + [idx]];
      }
      assert app.mimeTypes[..|app.mimeTypes|] == app.mimeTypes;
      IndexComplete(apps, app, byMime);
      apps := apps + [app];
    }

    /** `lower` is `str::to_lowercase`. */
    method AppsForMime(mime: string, lower: string -> string) returns (out: seq<Candidate>)
      requires Valid()
      ensures IsStableSort(lower, Filter(apps, mime), out)
    {
      out := [];
      if mime in byMime {
        var positions := byMime[mime];
        for k := 0 to |positions|
          invariant out == At(apps, positions[..k])
        {
          assert positions[..k + 1][..k] == positions[..k];
          if positions[k] < |apps| {
            out := out + [apps[positions[k]]];
          }
        }
        assert positions[..|positions|] == positions;
      }
      AtDeclaring(apps, mime);
      out := SortByName(lower, out);
    }

    /** The app with the given id, if there is one. */
    function Lookup(desktopId: string): (found: Option<Candidate>)
      reads this
      ensures found.Some? ==> found.value in apps && found.value.desktopId == desktopId
      ensures found.None? ==> !Knows(apps, desktopId)
    {
      FindSpec(apps, desktopId);
      Find(apps, desktopId)
    }
  }

  function Find(apps: seq<Candidate>, desktopId: string): Option<Candidate> {
    if apps == [] then None
    else if apps[0].desktopId == desktopId then Some(apps[0])
    else Find(apps[1..], desktopId)
  }

  /** The apps at those of the given positions that exist. */
  function At(apps: seq<Candidate>, positions: seq<nat>): seq<Candidate> {
    if positions == [] then []
    else
      var last := positions[|positions| - 1];
      At(apps, positions[..|positions| - 1]) + if last < |apps| then [apps[last]] else []
  }

  lemma {:induction false} AtPrefix(apps: seq<Candidate>, more: seq<Candidate>, positions: seq<nat>)
    requires forall k :: 0 <= k < |positions| ==> positions[k] < |apps|
    ensures At(apps + more, positions) == At(apps, positions)
    decreases |positions|
  {
    if positions != [] {
      AtPrefix(apps, more, positions[..|positions| - 1]);
    }
  }

  /** The positions listed for a type are strictly increasing and are exactly those of the apps declaring it. */
  lemma {:induction false} DeclaringExact(apps: seq<Candidate>, mime: string)
    ensures forall k :: 0 <= k < |Declaring(apps, mime)| ==> Declaring(apps, mime)[k] < |apps|
    ensures forall j, k :: 0 <= j < k < |Declaring(apps, mime)| ==> Declaring(apps, mime)[j] < Declaring(apps, mime)[k]
    ensures forall i :: 0 <= i < |apps| ==> (i in Declaring(apps, mime) <==> mime in apps[i].mimeTypes)
    decreases |apps|
  {
    if apps != [] {
      DeclaringExact(apps[..|apps| - 1], mime);
    }
  }

  lemma {:induction false} AtSnoc(apps: seq<Candidate>, positions: seq<nat>, last: nat)
    ensures At(apps, positions + [last]) == At(apps, positions) + if last < |apps| then [apps[last]] else []
  {
    assert (positions + [last])[..|positions|] == positions;
  }

  /** Going through the index gives what a linear scan gives. */
  lemma {:induction false} AtDeclaring(apps: seq<Candidate>, mime: string)
    ensures At(apps, Declaring(apps, mime)) == Filter(apps, mime)
    decreases |apps|
  {
    if apps != [] {
      var front, last := apps[..|apps| - 1], apps[|apps| - 1];
      var positions := Declaring(front, mime);
      assert Declaring(apps, mime) == positions + if mime in last.mimeTypes then [|front|] else [];
      assert Filter(apps, mime) == Filter(front, mime) + if mime in last.mimeTypes then [last] else [];
      assert positions + [] == positions && Filter(front, mime) + [] == Filter(front, mime);
      assert apps == front + [last];
      AtDeclaring(front, mime);
      DeclaringExact(front, mime);
      hide At, Declaring, Filter;
      AtPrefix(front, [last], positions);
      AtSnoc(apps, positions, |front|);
    } else {
      AtNothing(mime);
    }
  }

  lemma AtNothing(mime: string)
    ensures At([], Declaring([], mime)) == Filter([], mime)
  {
  }

  // ----- Which candidates are kept -----

  ghost predicate IsFirstOf(candidates: seq<Candidate>, i: nat) {
    i < |candidates| && forall j :: 0 <= j < i ==> candidates[j].desktopId != candidates[i].desktopId
  }

  lemma {:induction false} KeptKnows(candidates: seq<Candidate>, desktopId: string)
    ensures Knows(Kept(candidates), desktopId) <==> Knows(candidates, desktopId)
    decreases |candidates|
  {
    if candidates != [] {
      var n := |candidates| - 1;
      KeptKnows(candidates[..n], desktopId);
      KnowsSnoc(candidates[..n], candidates[n], desktopId);
      KnowsSnoc(Kept(candidates[..n]), candidates[n], desktopId);
      assert candidates == candidates[..n] + [candidates[n]];
    }
  }

  lemma {:induction false} KnowsSnoc(apps: seq<Candidate>, last: Candidate, desktopId: string)
    ensures Knows(apps + [last], desktopId) <==> Knows(apps, desktopId) || last.desktopId == desktopId
  {
    if Knows(apps, desktopId) {
      var k :| 0 <= k < |apps| && apps[k].desktopId == desktopId;
      assert (apps + [last])[k].desktopId == desktopId;
    }
    assert (apps + [last])[|apps|] == last;
  }

  lemma {:induction false} FirstOfPrefix(front: seq<Candidate>, last: Candidate, i: nat)
    ensures IsFirstOf(front + [last], i)
       <==> IsFirstOf(front, i) || (i == |front| && !Knows(front, last.desktopId))
  {
    var candidates := front + [last];
    assert forall j :: 0 <= j < |front| ==> candidates[j] == front[j];
    if i == |front| && IsFirstOf(candidates, i) {
      assert forall j :: 0 <= j < |front| ==> candidates[j].desktopId != last.desktopId;
    }
  }

  /** Desktop ids are distinct, and the kept candidates are exactly the first of each id. */
  lemma {:induction false} KeptIsFirstOfEachId(candidates: seq<Candidate>)
    ensures forall i, j :: 0 <= i < j < |Kept(candidates)| ==>
      Kept(candidates)[i].desktopId != Kept(candidates)[j].desktopId
    ensures forall a :: a in Kept(candidates) <==> exists i: nat :: IsFirstOf(candidates, i) && candidates[i] == a
    decreases |candidates|
  {
    if candidates != [] {
      var n := |candidates| - 1;
      var front, last := candidates[..n], candidates[n];
      KeptIsFirstOfEachId(front);
      KeptKnows(front, last.desktopId);
      assert candidates == front + [last];
      forall a ensures a in Kept(candidates) <==> exists i: nat :: IsFirstOf(candidates, i) && candidates[i] == a {
        if i: nat :| IsFirstOf(candidates, i) && candidates[i] == a {
          FirstOfPrefix(front, last, i);
        }
        if a in Kept(front) {
          var i: nat :| IsFirstOf(front, i) && front[i] == a;
          FirstOfPrefix(front, last, i);
          assert candidates[i] == a;
        }
        FirstOfPrefix(front, last, n);
      }
    }
  }

  /** Kept candidates stay in the order in which they were met. */
  lemma {:induction false} KeptInOrder(candidates: seq<Candidate>, i: nat, j: nat, p: nat, q: nat)
    requires i < j < |Kept(candidates)|
    requires IsFirstOf(candidates, p) && candidates[p] == Kept(candidates)[i]
    requires IsFirstOf(candidates, q) && candidates[q] == Kept(candidates)[j]
    ensures p < q
    decreases |candidates|
  {
    var n := |candidates| - 1;
    var front, last := candidates[..n], candidates[n];
    assert candidates == front + [last];
    KeptKnows(front, last.desktopId);
    FirstIsOld(front, last, i, p);
    if j < |Kept(front)| {
      FirstIsOld(front, last, j, q);
      KeptInOrder(front, i, j, p, q);
    } else if q < n {
      assert Knows(front, front[q].desktopId);
    }
  }

  /** The first position of a candidate kept earlier is an earlier position. */
  lemma {:induction false} FirstIsOld(front: seq<Candidate>, last: Candidate, i: nat, p: nat)
    requires IsFirstOf(front + [last], p)
    ensures i < |Kept(front)| && (front + [last])[p] == Kept(front)[i] ==> IsFirstOf(front, p)
  {
    FirstOfPrefix(front, last, p);
    if i < |Kept(front)| {
      KeptKnows(front, Kept(front)[i].desktopId);
      assert Knows(Kept(front), Kept(front)[i].desktopId);
    }
  }

  /** Looking an id up finds the first usable entry with that id, or nothing if there is none. */
  lemma {:induction false} LookupFindsFirst(candidates: seq<Candidate>, desktopId: string)
    ensures
      var found := Find(Kept(candidates), desktopId);
      && (found.Some? ==> exists i: nat :: IsFirstOf(candidates, i) && candidates[i] == found.value
                                        && found.value.desktopId == desktopId)
      && (found.None? ==> !Knows(candidates, desktopId))
  {
    KeptIsFirstOfEachId(candidates);
    KeptKnows(candidates, desktopId);
    FindSpec(Kept(candidates), desktopId);
  }

  lemma {:induction false} FindSpec(apps: seq<Candidate>, desktopId: string)
    ensures Find(apps, desktopId).Some? ==>
      Find(apps, desktopId).value in apps && Find(apps, desktopId).value.desktopId == desktopId
    ensures Find(apps, desktopId).None? ==> !Knows(apps, desktopId)
    decreases |apps|
  {
    if apps != [] {
      FindSpec(apps[1..], desktopId);
      assert forall i :: 0 < i < |apps| ==> apps[i] == apps[1..][i - 1];
    }
  }

  // ----- The stable sort by name -----

  /** `str` ordering: by the first differing character, a proper prefix first. */
  predicate Leq(a: string, b: string) {
    a == "" || (b != "" && (a[0] < b[0] || (a[0] == b[0] && Leq(a[1..], b[1..]))))
  }

  /** Exactly: `a` is a prefix of `b`, or where they first differ its character is the smaller one. */
  lemma {:induction false} LeqIff(a: string, b: string)
    ensures Leq(a, b) <==> a <= b || exists k :: 0 <= k < |a| && k < |b| && a[..k] == b[..k] && a[k] < b[k]
    decreases |a|
  {
    if a != "" && b != "" && a[0] == b[0] {
      var a', b' := a[1..], b[1..];
      LeqIff(a', b');
      assert a == [a[0]] + a' && b == [b[0]] + b';
      if Leq(a', b') && !(a' <= b') {
        var k :| 0 <= k < |a'| && k < |b'| && a'[..k] == b'[..k] && a'[k] < b'[k];
        assert a[..k + 1] == [a[0]] + a'[..k] == b[..k + 1] && a[k + 1] == a'[k] && b[k + 1] == b'[k];
      }
      forall k | 0 <= k < |a| && k < |b| && a[..k] == b[..k] && a[k] < b[k] ensures Leq(a', b') {
        assert a'[..k - 1] == a[..k][1..] == b[..k][1..] == b'[..k - 1] && a'[k - 1] < b'[k - 1];
      }
      assert a <= b <==> a' <= b';
    } else if a != "" && b != "" {
      assert a[..0] == b[..0];
      forall k | 0 < k < |a| && k < |b| ensures a[..k] != b[..k] {
        assert a[..k][0] != b[..k][0];
      }
    }
  }

  lemma {:induction false} LeqTotal(a: string, b: string)
    ensures Leq(a, b) || Leq(b, a)
    ensures Leq(a, b) && Leq(b, a) ==> a == b
    decreases |a|
  {
    if a != "" && b != "" {
      LeqTotal(a[1..], b[1..]);
      assert a == [a[0]] + a[1..] && b == [b[0]] + b[1..];
    }
  }

  lemma {:induction false} LeqTransitive(a: string, b: string, c: string)
    requires Leq(a, b) && Leq(b, c)
    ensures Leq(a, c)
    decreases |a|
  {
    if a != "" && a[0] == b[0] == c[0] {
      LeqTransitive(a[1..], b[1..], c[1..]);
    }
  }

  ghost predicate SortedByName(lower: string -> string, s: seq<Candidate>) {
    forall i, j :: 0 <= i < j < |s| ==> Leq(lower(s[i].name), lower(s[j].name))
  }

  /** The candidates with a given sort key, in order. */
  function WithKey(lower: string -> string, s: seq<Candidate>, key: string): seq<Candidate> {
    if s == [] then []
    else (if lower(s[0].name) == key then [s[0]] else []) + WithKey(lower, s[1..], key)
  }

  /** `out` is sorted and keeps the candidates of each key, all of them and in their given order. */
  ghost predicate IsStableSort(lower: string -> string, s: seq<Candidate>, out: seq<Candidate>) {
    SortedByName(lower, out) && forall key :: WithKey(lower, out, key) == WithKey(lower, s, key)
  }

  lemma {:induction false} WithKeyCons(lower: string -> string, c: Candidate, s: seq<Candidate>, key: string)
    ensures WithKey(lower, [c] + s, key) == (if lower(c.name) == key then [c] else []) + WithKey(lower, s, key)
  {
    assert ([c] + s)[1..] == s;
  }

  lemma {:induction false} WithKeyConcat(lower: string -> string, a: seq<Candidate>, b: seq<Candidate>, key: string)
    ensures WithKey(lower, a + b, key) == WithKey(lower, a, key) + WithKey(lower, b, key)
    decreases |a|
  {
    if a == [] {
      assert a + b == b;
    } else {
      hide WithKey;
      var c, rest := a[0], a[1..];
      assert [c] + rest == a && [c] + (rest + b) == a + b;
      WithKeyCons(lower, c, rest, key);
      WithKeyCons(lower, c, rest + b, key);
      WithKeyConcat(lower, rest, b, key);
      ConcatAssociative(if lower(c.name) == key then [c] else [], WithKey(lower, rest, key), WithKey(lower, b, key));
    }
  }

  lemma {:induction false} WithKeyAbsent(lower: string -> string, s: seq<Candidate>, key: string)
    requires forall i :: 0 <= i < |s| ==> lower(s[i].name) != key
    ensures WithKey(lower, s, key) == []
    decreases |s|
  {
    if s != [] {
      WithKeyAbsent(lower, s[1..], key);
    }
  }

  /** Inserting behind everything that is not greater keeps the order among equals. */
  lemma {:induction false} InsertStable(lower: string -> string, s: seq<Candidate>, c: Candidate, at: nat)
    requires at <= |s|
    requires forall i :: at <= i < |s| ==> !Leq(lower(s[i].name), lower(c.name))
    ensures forall key :: WithKey(lower, s[..at] + [c] + s[at..], key) == WithKey(lower, s + [c], key)
  {
    forall key ensures WithKey(lower, s[..at] + [c] + s[at..], key) == WithKey(lower, s + [c], key) {
      InsertStableKey(lower, s[..at], c, s[at..], key);
      assert s == s[..at] + s[at..];
    }
  }

  lemma {:induction false} InsertStableKey(lower: string -> string, a: seq<Candidate>, c: Candidate, b: seq<Candidate>,
                                           key: string)
    requires forall i :: 0 <= i < |b| ==> !Leq(lower(b[i].name), lower(c.name))
    ensures WithKey(lower, a + [c] + b, key) == WithKey(lower, a + b + [c], key)
  {
    if key == lower(c.name) {
      LeqTotal(key, key);
      WithKeyAbsent(lower, b, key);
    } else {
      WithKeyAbsent(lower, [c], key);
    }
    hide WithKey, Leq;
    WithKeyConcat(lower, a + [c], b, key);
    WithKeyConcat(lower, a, [c], key);
    WithKeyConcat(lower, a + b, [c], key);
    WithKeyConcat(lower, a, b, key);
  }

  /** `sort_by_key`, a stable sort. */
  method SortByName(lower: string -> string, s: seq<Candidate>) returns (out: seq<Candidate>)
    ensures IsStableSort(lower, s, out)
  {
    out := [];
    for k := 0 to |s|
      invariant IsStableSort(lower, s[..k], out)
    {
      var c := s[k];
      var at := |out|;
      while at > 0 && !Leq(lower(out[at - 1].name), lower(c.name))
        invariant 0 <= at <= |out|
        invariant forall i :: at <= i < |out| ==> !Leq(lower(out[i].name), lower(c.name))
      {
        at := at - 1;
      }
      InsertStable(lower, out, c, at);
      assert s[..k + 1] == s[..k] + [c];
      forall key ensures WithKey(lower, out + [c], key) == WithKey(lower, s[..k + 1], key) {
        WithKeyConcat(lower, out, [c], key);
        WithKeyConcat(lower, s[..k], [c], key);
      }
      var inserted := out[..at] + [c] + out[at..];
      InsertSorted(lower, out, c, at);
      out := inserted;
    }
    assert s[..|s|] == s;
  }

  lemma {:induction false} InsertSorted(lower: string -> string, s: seq<Candidate>, c: Candidate, at: nat)
    requires SortedByName(lower, s) && at <= |s|
    requires at > 0 ==> Leq(lower(s[at - 1].name), lower(c.name))
    requires forall i :: at <= i < |s| ==> !Leq(lower(s[i].name), lower(c.name))
    ensures SortedByName(lower, s[..at] + [c] + s[at..])
  {
    var r := s[..at] + [c] + s[at..];
    forall i, j | 0 <= i < j < |r| ensures Leq(lower(r[i].name), lower(r[j].name)) {
      if i < at && j == at {
        if i < at - 1 {
          LeqTransitive(lower(s[i].name), lower(s[at - 1].name), lower(c.name));
        }
      } else if i == at && j > at {
        LeqTotal(lower(s[j - 1].name), lower(c.name));
      } else {
        var i', j' := if i < at then i else i - 1, if j < at then j else j - 1;
        assert r[i] == s[i'] && r[j] == s[j'];
      }
    }
  }

  /** There is only one stable sort of a list, so the contract of the sort fixes its result. */
  lemma {:induction false} StableSortUnique(lower: string -> string, s: seq<Candidate>, a: seq<Candidate>,
      b: seq<Candidate>)
    requires IsStableSort(lower, s, a) && IsStableSort(lower, s, b)
    ensures a == b
  {
    SameWithKeys(lower, a, b);
  }

  lemma {:induction false} SameWithKeys(lower: string -> string, a: seq<Candidate>, b: seq<Candidate>)
    requires SortedByName(lower, a) && SortedByName(lower, b)
    requires forall key :: WithKey(lower, a, key) == WithKey(lower, b, key)
    ensures a == b
    decreases |a|
  {
    if a == [] {
      if b != [] { HeadOccurs(lower, b); }
    } else {
      SameHead(lower, a, b);
      forall key ensures WithKey(lower, a[1..], key) == WithKey(lower, b[1..], key) {
        assert [a[0]] + a[1..] == a && [a[0]] + b[1..] == b;
        SameTails(lower, a[0], a[1..], b[1..], key);
      }
      SameWithKeys(lower, a[1..], b[1..]);
      assert a == [a[0]] + a[1..] && b == [b[0]] + b[1..];
    }
  }

  lemma {:induction false} SameTails(lower: string -> string, c: Candidate, a: seq<Candidate>, b: seq<Candidate>,
                                     key: string)
    requires WithKey(lower, [c] + a, key) == WithKey(lower, [c] + b, key)
    ensures WithKey(lower, a, key) == WithKey(lower, b, key)
  {
    WithKeyCons(lower, c, a, key);
    WithKeyCons(lower, c, b, key);
    hide WithKey;
    SameTail(if lower(c.name) == key then [c] else [], WithKey(lower, a, key), WithKey(lower, b, key));
  }

  /** Sorted lists with the same candidates of each key start with the same one. */
  lemma {:induction false} SameHead(lower: string -> string, a: seq<Candidate>, b: seq<Candidate>)
    requires SortedByName(lower, a) && SortedByName(lower, b) && a != []
    requires forall key :: WithKey(lower, a, key) == WithKey(lower, b, key)
    ensures b != [] && a[0] == b[0]
  {
    var key := lower(a[0].name);
    HeadOccurs(lower, a);
    KeyOccurs(lower, b, key);
    var other := lower(b[0].name);
    HeadOccurs(lower, b);
    KeyOccurs(lower, a, other);
    LeqTotal(key, other);
  }

  lemma {:induction false} HeadOccurs(lower: string -> string, s: seq<Candidate>)
    requires s != []
    ensures WithKey(lower, s, lower(s[0].name)) != [] && WithKey(lower, s, lower(s[0].name))[0] == s[0]
  {
  }

  lemma {:induction false} KeyOccurs(lower: string -> string, s: seq<Candidate>, key: string)
    ensures WithKey(lower, s, key) != [] ==> exists i :: 0 <= i < |s| && lower(s[i].name) == key
  {
    if forall i :: 0 <= i < |s| ==> lower(s[i].name) != key {
      WithKeyAbsent(lower, s, key);
    }
  }
}
