/** Escaping of text placed into the bundled HTML documents: five replacements, one after the other. */
module HtmlEscape {
  import opened Replacing
  import opened Text

  function EscapeHtml(value: string): string {
    var s1 := Replace(value, "&", "&amp;");
    var s2 := Replace(s1, "<", "&lt;");
    var s3 := Replace(s2, ">", "&gt;");
    var s4 := Replace(s3, "\"", "&quot;");
    Replace(s4, "'", "&#39;")
  }

  /** What one character is meant to become. */
  function Entity(c: char): string {
    match c
    case '&' => "&amp;"
    case '<' => "&lt;"
    case '>' => "&gt;"
    case '"' => "&quot;"
    case '\'' => "&#39;"
    case _ => [c]
  }

  function PerCharacter(value: string): string {
    if value == "" then "" else Entity(value[0]) + PerCharacter(value[1..])
  }

  /** What a browser reads: the five entities become their character again. */
  function DecodeEntities(s: string): string
    decreases |s|
  {
    if s == "" then ""
    else if "&amp;" <= s then "&" + DecodeEntities(s[5..])
    else if "&lt;" <= s then "<" + DecodeEntities(s[4..])
    else if "&gt;" <= s then ">" + DecodeEntities(s[4..])
    else if "&quot;" <= s then "\"" + DecodeEntities(s[6..])
    else if "&#39;" <= s then "'" + DecodeEntities(s[5..])
    else [s[0]] + DecodeEntities(s[1..])
  }

  /** A one-character pattern is replaced in each half of a string separately. */
  lemma {:induction false} ReplaceCharConcat(a: string, b: string, c: char, to: string)
    ensures Replace(a + b, [c], to) == Replace(a, [c], to) + Replace(b, [c], to)
    decreases |a|
  {
    if a == "" {
      assert a + b == b && Replace(a, [c], to) == "";
    } else {
      hide Replace;
      ReplaceCharConcat(a[1..], b, c, to);
      ReplaceCharStep(a, c, to);
      ReplaceCharStep(a + b, c, to);
      assert (a + b)[1..] == a[1..] + b;
      ConcatAssociative(if a[0] == c then to else [a[0]], Replace(a[1..], [c], to), Replace(b, [c], to));
    }
  }

  lemma {:induction false} ReplaceCharStep(s: string, c: char, to: string)
    requires s != ""
    ensures Replace(s, [c], to) == (if s[0] == c then to else [s[0]]) + Replace(s[1..], [c], to)
  {
    assert [c] <= s <==> s[0] == c;
  }

  /** A string without the pattern is left alone. */
  lemma {:induction false} ReplaceCharAbsent(s: string, c: char, to: string)
    requires c !in s
    ensures Replace(s, [c], to) == s
    decreases |s|
  {
    if s != "" {
      assert s[0] in s && s == [s[0]] + s[1..];
      ReplaceCharStep(s, c, to);
      ReplaceCharAbsent(s[1..], c, to);
    }
  }

  lemma {:induction false} ReplaceSingle(c: char, d: char, to: string)
    ensures Replace([d], [c], to) == if d == c then to else [d]
  {
    ReplaceCharStep([d], c, to);
    assert [d][1..] == "" && Replace("", [c], to) == "";
  }

  /** An entity contains none of the characters replaced after its own. */
  lemma {:induction false} EntitiesSurvive()
    ensures '<' !in "&amp;" && '>' !in "&amp;" && '"' !in "&amp;" && '\'' !in "&amp;"
    ensures '>' !in "&lt;" && '"' !in "&lt;" && '\'' !in "&lt;"
    ensures '"' !in "&gt;" && '\'' !in "&gt;"
    ensures '\'' !in "&quot;"
  {
  }

  lemma {:induction false} EscapeOne(d: char)
    ensures EscapeHtml([d]) == Entity(d)
  {
    hide Replace;
    EntitiesSurvive();
    ReplaceSingle('&', d, "&amp;");
    ReplaceSingle('<', d, "&lt;");
    ReplaceSingle('>', d, "&gt;");
    ReplaceSingle('"', d, "&quot;");
    ReplaceSingle('\'', d, "&#39;");
    var e := Entity(d);
    if '<' !in e { ReplaceCharAbsent(e, '<', "&lt;"); }
    if '>' !in e { ReplaceCharAbsent(e, '>', "&gt;"); }
    if '"' !in e { ReplaceCharAbsent(e, '"', "&quot;"); }
    if '\'' !in e { ReplaceCharAbsent(e, '\'', "&#39;"); }
  }

  lemma {:induction false} EscapeConcat(a: string, b: string)
    ensures EscapeHtml(a + b) == EscapeHtml(a) + EscapeHtml(b)
  {
    ReplaceCharConcat(a, b, '&', "&amp;");
    var a1, b1 := Replace(a, "&", "&amp;"), Replace(b, "&", "&amp;");
    ReplaceCharConcat(a1, b1, '<', "&lt;");
    var a2, b2 := Replace(a1, "<", "&lt;"), Replace(b1, "<", "&lt;");
    ReplaceCharConcat(a2, b2, '>', "&gt;");
    var a3, b3 := Replace(a2, ">", "&gt;"), Replace(b2, ">", "&gt;");
    ReplaceCharConcat(a3, b3, '"', "&quot;");
    ReplaceCharConcat(Replace(a3, "\"", "&quot;"), Replace(b3, "\"", "&quot;"), '\'', "&#39;");
  }

  /** The chain of replacements never rewrites its own output: it acts on each character once. */
  lemma {:induction false} EscapeIsPerCharacter(value: string)
    ensures EscapeHtml(value) == PerCharacter(value)
    decreases |value|
  {
    if value == "" {
      assert EscapeHtml("") == "";
    } else {
      assert value == [value[0]] + value[1..];
      EscapeConcat([value[0]], value[1..]);
      EscapeOne(value[0]);
      EscapeIsPerCharacter(value[1..]);
    }
  }

  predicate IsMarkup(c: char) {
    c == '<' || c == '>' || c == '"' || c == '\''
  }

  lemma {:induction false} EntityHasNoMarkup(c: char)
    ensures forall d :: d in Entity(c) ==> !IsMarkup(d)
  {
  }

  /** No markup character survives. */
  lemma {:induction false} NoRawMarkup(value: string)
    ensures forall c :: c in EscapeHtml(value) ==> !IsMarkup(c)
    decreases |value|
  {
    EscapeIsPerCharacter(value);
    if value != "" {
      EscapeIsPerCharacter(value[1..]);
      NoRawMarkup(value[1..]);
      EntityHasNoMarkup(value[0]);
      hide EscapeHtml, Entity, IsMarkup;
    }
  }

  lemma {:induction false} DecodeOne(c: char, rest: string)
    ensures DecodeEntities(Entity(c) + rest) == [c] + DecodeEntities(rest)
  {
    var s := Entity(c) + rest;
    match c
    case '&' => assert "&amp;" <= s && s[5..] == rest;
    case '<' => assert s[1] == 'l' && "&lt;" <= s && s[4..] == rest;
    case '>' => assert s[1] == 'g' && "&gt;" <= s && s[4..] == rest;
    case '"' => assert s[1] == 'q' && "&quot;" <= s && s[6..] == rest;
    case '\'' => assert s[1] == '#' && "&#39;" <= s && s[5..] == rest;
    case _ => assert s[0] == c && s[1..] == rest;
  }

  /** Decoding recovers the original text, so distinct texts stay distinct. */
  lemma {:induction false} EscapeRoundTrip(value: string)
    ensures DecodeEntities(EscapeHtml(value)) == value
    decreases |value|
  {
    EscapeIsPerCharacter(value);
    if value != "" {
      EscapeIsPerCharacter(value[1..]);
      DecodeOne(value[0], PerCharacter(value[1..]));
      EscapeRoundTrip(value[1..]);
      assert value == [value[0]] + value[1..];
    }
  }
}
