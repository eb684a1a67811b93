/**
 * Reading generated markup back, the way a browser would: quoted attribute values end at the next quotation
 * mark, text ends at the next `<`, and both have their entities decoded.
 */
module MarkupReader {
  import opened HtmlEscape
  import opened Text

  /**
   * A stretch of bare markup with the value or the text behind it: ` data-app-id=` with the value in quotation
   * marks, or `<strong>` with the text up to the next tag.
   */
  datatype Piece = Piece(markup: string, quoted: bool, data: string)

  /** The part of `s` in front of the first `c`, or all of it. */
  function Until(s: string, c: char): (r: string)
    ensures r <= s && c !in r
    ensures |r| < |s| ==> s[|r|] == c
  {
    if s == "" || s[0] == c then "" else [s[0]] + Until(s[1..], c)
  }

  /** Bare markup: up to a quotation mark, or up to and including the end of a tag. */
  function Bare(s: string): (r: string)
    ensures r <= s && '"' !in r
    ensures |r| < |s| && (r == "" || r[|r| - 1] != '>') ==> s[|r|] == '"'
    ensures s != "" ==> r != "" || s[0] == '"'
  {
    if s == "" || s[0] == '"' then ""
    else if s[0] == '>' then ">"
    else [s[0]] + Bare(s[1..])
  }

  function Read(s: string): seq<Piece>
    decreases |s|
  {
    if s == "" then []
    else
      var markup := Bare(s);
      var rest := s[|markup|..];
      if markup != "" && markup[|markup| - 1] == '>' then
        var text := Until(rest, '<');
        [Piece(markup, false, DecodeEntities(text))] + Read(rest[|text|..])
      else if rest == "" then [Piece(markup, false, "")]
      else
        var value := Until(rest[1..], '"');
        var behind := rest[1..][|value|..];
        [Piece(markup, true, DecodeEntities(value))] + Read(if behind == "" then "" else behind[1..])
  }

  // ----- Writing markup -----

  /** A piece as it is written: `raw` is its value or text with entities. */
  datatype Source = Source(markup: string, quoted: bool, raw: string)

  function Shown(s: Source): string {
    s.markup + if s.quoted then "\"" + s.raw + "\"" else s.raw
  }

  /** What a reader makes of it. */
  function PieceOf(s: Source): Piece {
    Piece(s.markup, s.quoted, DecodeEntities(s.raw))
  }

  /** Neither the markup nor the data ends where it should not. */
  predicate WellWritten(s: Source) {
    if s.quoted then '"' !in s.raw && IsOpen(s.markup) else '<' !in s.raw && IsTagEnd(s.markup)
  }

  /** Markup inside a tag. */
  predicate IsOpen(markup: string) {
    '"' !in markup && '>' !in markup
  }

  /** Markup that ends with a tag. */
  predicate IsTagEnd(markup: string) {
    && markup != "" && markup[|markup| - 1] == '>' && '"' !in markup
    && '>' !in markup[..|markup| - 1]
  }

  lemma {:induction false} UntilFound(a: string, c: char, b: string)
    requires c !in a && (b == "" || b[0] == c)
    ensures Until(a + b, c) == a
    decreases |a|
  {
    if a == "" {
      assert a + b == b;
    } else {
      assert (a + b)[0] == a[0] && a[0] in a && (a + b)[1..] == a[1..] + b;
      UntilFound(a[1..], c, b);
      assert a == [a[0]] + a[1..];
    }
  }

  lemma {:induction false} BareFound(a: string, b: string)
    requires '"' !in a && '>' !in a
    ensures b != "" && b[0] == '"' ==> Bare(a + b) == a
    ensures b != "" && b[0] == '>' ==> Bare(a + b) == a + ">"
    decreases |a|
  {
    if a == "" {
      assert a + b == b && a + ">" == ">";
    } else {
      assert (a + b)[0] == a[0] && a[0] in a && (a + b)[1..] == a[1..] + b;
      BareFound(a[1..], b);
      assert a == [a[0]] + a[1..] && a + ">" == [a[0]] + (a[1..] + ">");
    }
  }

  /** Reading undoes writing, piece by piece. */
  lemma {:induction false} ReadShown(s: Source, rest: string)
    requires WellWritten(s) && (!s.quoted ==> rest == "" || rest[0] == '<')
    ensures Read(Shown(s) + rest) == [PieceOf(s)] + Read(rest)
  {
    hide Read, DecodeEntities;
    if s.quoted {
      ReadValue(s, rest);
    } else {
      ReadText(s, rest);
    }
  }

  lemma {:induction false} ReadValue(s: Source, rest: string)
    requires WellWritten(s) && s.quoted
    ensures Read(Shown(s) + rest) == [PieceOf(s)] + Read(rest)
  {
    hide Read, DecodeEntities;
    var behind := "\"" + (s.raw + ("\"" + rest));
    assert Shown(s) + rest == s.markup + behind;
    assert s.markup != "" ==> s.markup[|s.markup| - 1] in s.markup;
    BareFound(s.markup, behind);
    UntilFound(s.raw, '"', "\"" + rest);
    ReadQuoted(s.markup + behind, s.markup, s.raw, rest);
  }

  lemma {:induction false} ReadQuoted(s: string, markup: string, raw: string, rest: string)
    requires s == markup + ("\"" + (raw + ("\"" + rest)))
    requires Bare(s) == markup && (markup == "" || markup[|markup| - 1] != '>')
    requires Until(raw + ("\"" + rest), '"') == raw
    ensures Read(s) == [Piece(markup, true, DecodeEntities(raw))] + Read(rest)
  {
    hide Bare, Until, DecodeEntities;
    var behind := "\"" + (raw + ("\"" + rest));
    assert s[|markup|..] == behind && behind[1..] == raw + ("\"" + rest);
    assert (raw + ("\"" + rest))[|raw|..] == "\"" + rest && ("\"" + rest)[1..] == rest;
  }

  lemma {:induction false} ReadText(s: Source, rest: string)
    requires WellWritten(s) && !s.quoted && (rest == "" || rest[0] == '<')
    ensures Read(Shown(s) + rest) == [PieceOf(s)] + Read(rest)
  {
    hide Read, DecodeEntities;
    var inner := s.markup[..|s.markup| - 1];
    var behind := s.raw + rest;
    assert s.markup == inner + ">";
    assert Shown(s) + rest == s.markup + behind == inner + (">" + behind);
    BareFound(inner, ">" + behind);
    UntilFound(s.raw, '<', rest);
    ReadUnquoted(s.markup + behind, s.markup, s.raw, rest);
  }

  lemma {:induction false} ReadUnquoted(s: string, markup: string, raw: string, rest: string)
    requires s == markup + (raw + rest) && Bare(s) == markup && markup != "" && markup[|markup| - 1] == '>'
    requires Until(raw + rest, '<') == raw
    ensures Read(s) == [Piece(markup, false, DecodeEntities(raw))] + Read(rest)
  {
    hide Bare, Until, DecodeEntities;
    assert s[|markup|..] == raw + rest && (raw + rest)[|raw|..] == rest;
  }

  // ----- Several pieces -----

  function ShownAll(sources: seq<Source>): string {
    if sources == [] then "" else Shown(sources[0]) + ShownAll(sources[1..])
  }

  function Pieces(sources: seq<Source>): (r: seq<Piece>)
    ensures |r| == |sources|
  {
    if sources == [] then [] else [PieceOf(sources[0])] + Pieces(sources[1..])
  }

  predicate StartsTag(s: string) {
    s != "" && s[0] == '<'
  }

  /** Each piece is well written, and behind a text the next piece starts with a tag. */
  predicate AllWellWritten(sources: seq<Source>) {
    sources != [] ==>
      && WellWritten(sources[0])
      && (!sources[0].quoted && |sources| > 1 ==> StartsTag(sources[1].markup))
      && AllWellWritten(sources[1..])
  }

  /** What may follow: anything behind a value, a tag or nothing behind a text. */
  predicate MayFollow(sources: seq<Source>, rest: string) {
    sources != [] && (sources[|sources| - 1].quoted || rest == "" || StartsTag(rest))
  }

  lemma {:induction false} ReadAll(sources: seq<Source>, rest: string)
    requires AllWellWritten(sources) && MayFollow(sources, rest)
    ensures Read(ShownAll(sources) + rest) == Pieces(sources) + Read(rest)
    decreases |sources|
  {
    hide Read, Shown, WellWritten, PieceOf;
    var first, more := sources[0], sources[1..];
    if more == [] {
      assert sources == [first];
      assert Shown(first) + "" == Shown(first) && ShownAll(more) == "";
      ReadShown(first, rest);
    } else {
      ReadAll(more, rest);
      if !first.quoted { StartsShown(more, rest); }
      ReadShown(first, ShownAll(more) + rest);
      ConcatAssociative(Shown(first), ShownAll(more), rest);
      ConcatAssociative([PieceOf(first)], Pieces(more), Read(rest));
    }
  }

  lemma {:induction false} StartsShown(sources: seq<Source>, rest: string)
    requires sources != [] && StartsTag(sources[0].markup)
    ensures StartsTag(ShownAll(sources) + rest)
  {
  }

  lemma {:induction false} AllWellWrittenIf(sources: seq<Source>)
    requires forall i :: 0 <= i < |sources| ==> WellWritten(sources[i])
    requires forall i, j :: 0 <= i < |sources| && j == i + 1 && j < |sources| && !sources[i].quoted ==>
      StartsTag(sources[j].markup)
    ensures AllWellWritten(sources)
    decreases |sources|
  {
    if sources != [] {
      hide WellWritten, StartsTag;
      assert forall i :: 0 <= i < |sources[1..]| ==> sources[1..][i] == sources[i + 1];
      AllWellWrittenIf(sources[1..]);
    }
  }

  lemma {:induction false} AllWellWrittenConcat(a: seq<Source>, b: seq<Source>)
    requires AllWellWritten(a) && AllWellWritten(b) && a != [] && b != []
    requires a[|a| - 1].quoted || StartsTag(b[0].markup)
    ensures AllWellWritten(a + b)
    decreases |a|
  {
    hide WellWritten, StartsTag;
    assert (a + b)[1..] == a[1..] + b;
    if |a| > 1 {
      AllWellWrittenConcat(a[1..], b);
    } else {
      assert a[1..] + b == b;
    }
  }

  // ----- How data is written -----

  /** Text without an ampersand decodes to itself. */
  lemma {:induction false} DecodePlain(s: string)
    requires '&' !in s
    ensures DecodeEntities(s) == s
    decreases |s|
  {
    if s != "" {
      assert s[0] in s && s == [s[0]] + s[1..];
      DecodePlain(s[1..]);
    }
  }

  /** Data that needs no escaping. */
  predicate IsPlainData(data: string) {
    '"' !in data && '<' !in data && '&' !in data
  }

  /** Escaped data can stand in quotation marks and as text, and reads back as the data. */
  lemma {:induction false} EscapedReads(data: string)
    ensures '"' !in EscapeHtml(data) && '<' !in EscapeHtml(data) && DecodeEntities(EscapeHtml(data)) == data
  {
    NoRawMarkup(data);
    EscapeRoundTrip(data);
    hide EscapeHtml, DecodeEntities;
    assert IsMarkup('"') && IsMarkup('<');
  }
}
