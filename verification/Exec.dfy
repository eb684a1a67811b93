/**
 * The two tokenizers of a desktop entry's Exec value: the application catalogue's, which strips
 * field codes inside every token, and the autostart one, which drops tokens that are a field code.
 */
module Exec {
  import opened Text

  // ----- The catalogue's tokenizer -----

  /** Tokens of `s` read from inside quote `quote`, with `current` the token being built. */
  function CatalogTokens(s: string, current: string, quote: Option<char>): seq<string>
    decreases |s|
  {
    if s == "" then
      if current == "" then [] else [current]
    else if quote.Some? then
      if s[0] == quote.value then
        CatalogTokens(s[1..], current, None)
      else if quote.value == '"' && s[0] == '\\' then
        if |s| == 1 then CatalogTokens("", current, quote)
        else CatalogTokens(s[2..], current + [s[1]], quote)
      else
        CatalogTokens(s[1..], current + [s[0]], quote)
    else if IsWhitespace(s[0]) then
      (if current == "" then [] else [current]) + CatalogTokens(s[1..], "", None)
    else if s[0] == '\'' || s[0] == '"' then
      CatalogTokens(s[1..], current, Some(s[0]))
    else if s[0] == '\\' then
      if |s| == 1 then CatalogTokens("", current, None)
      else CatalogTokens(s[2..], current + [s[1]], None)
    else
      CatalogTokens(s[1..], current + [s[0]], None)
  }

  method TokenizeExec(exec: string) returns (tokens: seq<string>)
    ensures tokens == CatalogTokens(exec, "", None)
  {
    tokens := [];
    var current := "";
    var quote: Option<char> := None;
    var i := 0;
    while i < |exec|
      invariant 0 <= i <= |exec|
      invariant tokens + CatalogTokens(exec[i..], current, quote) == CatalogTokens(exec, "", None)
    {
      var ch := exec[i];
      i := i + 1;
      match quote {
        case Some(expected) =>
          if ch == expected {
            quote := None;
          } else if expected == '"' && ch == '\\' {
            if i < |exec| {
              current := current + [exec[i]];
              i := i + 1;
            }
          } else {
            current := current + [ch];
          }
        case None =>
          if IsWhitespace(ch) {
            if current != "" {
              tokens := tokens + [current];
              current := "";
            }
          } else if ch == '\'' || ch == '"' {
            quote := Some(ch);
          } else if ch == '\\' {
            if i < |exec| {
              current := current + [exec[i]];
              i := i + 1;
            }
          } else {
            current := current + [ch];
          }
      }
    }
    if current != "" {
      tokens := tokens + [current];
    }
  }

  predicate IsAsciiAlphabetic(c: char) {
    'a' <= c <= 'z' || 'A' <= c <= 'Z'
  }

  /** A token without its field codes; `%%` stands for one percent sign. */
  function Stripped(s: string): string
    decreases |s|
  {
    if s == "" then ""
    else if s[0] != '%' then [s[0]] + Stripped(s[1..])
    else if |s| == 1 then "%"
    else Code(s[1]) + Stripped(s[2..])
  }

  /** What a percent sign and the character behind it leave. */
  function Code(c: char): string {
    if c == '%' then "%" else if IsAsciiAlphabetic(c) then "" else ['%', c]
  }

  lemma {:induction false} StrippedFrom(s: string, i: nat)
    requires i < |s|
    ensures s[i] != '%' ==> Stripped(s[i..]) == [s[i]] + Stripped(s[i + 1..])
    ensures s[i] == '%' && i + 1 == |s| ==> Stripped(s[i..]) == "%"
    ensures s[i] == '%' && i + 1 < |s| ==> Stripped(s[i..]) == Code(s[i + 1]) + Stripped(s[i + 2..])
  {
    assert s[i..][1..] == s[i + 1..];
    if i + 1 < |s| {
      assert s[i..][2..] == s[i + 2..];
    }
  }

  method StripFieldCodes(input: string) returns (output: string)
    ensures output == Stripped(input)
  {
    output := "";
    var i := 0;
    assert input[0..] == input && Stripped("") == "";
    hide Stripped;
    while i < |input|
      invariant 0 <= i <= |input|
      invariant output + Stripped(input[i..]) == Stripped(input)
    {
      StrippedFrom(input, i);
      ghost var before := output;
      var ch := input[i];
      i := i + 1;
      if ch != '%' {
        output := output + [ch];
        ConcatAssociative(before, [ch], Stripped(input[i..]));
        continue;
      }
      if i == |input| {
        output := output + "%";
      } else {
        var next := input[i];
        i := i + 1;
        if next == '%' {
          output := output + "%";
        } else if !IsAsciiAlphabetic(next) {
          output := output + ['%', next];
        }
        assert output == before + Code(next);
        ConcatAssociative(before, Code(next), Stripped(input[i..]));
      }
    }
    assert input[|input|..] == "";
  }

  /** Strips and trims each token and drops those left empty. */
  function Cleaned(tokens: seq<string>): seq<string> {
    if tokens == [] then []
    else
      var cleaned := Trim(Stripped(tokens[0]));
      (if cleaned == "" then [] else [cleaned]) + Cleaned(tokens[1..])
  }

  function ParseExecArgv(exec: string): seq<string> {
    Cleaned(CatalogTokens(exec, "", None))
  }

  // ----- The autostart tokenizer -----

  function AutostartTokens(s: string, current: string, inQuotes: bool): seq<string>
    decreases |s|
  {
    if s == "" then
      if current == "" then [] else [current]
    else if s[0] == '"' then
      AutostartTokens(s[1..], current, !inQuotes)
    else if s[0] == '\\' && inQuotes then
      if |s| == 1 then AutostartTokens("", current, inQuotes)
      else AutostartTokens(s[2..], current + [s[1]], inQuotes)
    else if (s[0] == ' ' || s[0] == '\t') && !inQuotes then
      (if current == "" then [] else [current]) + AutostartTokens(s[1..], "", inQuotes)
    else
      AutostartTokens(s[1..], current + [s[0]], inQuotes)
  }

  predicate IsFieldCode(s: string) {
    s in {"%f", "%F", "%u", "%U", "%d", "%D", "%n", "%N", "%i", "%c", "%k", "%v", "%m"}
  }

  /** `Vec::retain` with the field codes refused. */
  function Retained(args: seq<string>): seq<string> {
    if args == [] then []
    else (if IsFieldCode(args[0]) then [] else [args[0]]) + Retained(args[1..])
  }

  method ParseExec(exec: string) returns (args: seq<string>)
    ensures args == Retained(AutostartTokens(exec, "", false))
  {
    var tokens: seq<string> := [];
    var current := "";
    var inQuotes := false;
    var i := 0;
    while i < |exec|
      invariant 0 <= i <= |exec|
      invariant tokens + AutostartTokens(exec[i..], current, inQuotes) == AutostartTokens(exec, "", false)
    {
      var c := exec[i];
      i := i + 1;
      if c == '"' {
        inQuotes := !inQuotes;
      } else if c == '\\' && inQuotes {
        if i < |exec| {
          current := current + [exec[i]];
          i := i + 1;
        }
      } else if (c == ' ' || c == '\t') && !inQuotes {
        if current != "" {
          tokens := tokens + [current];
          current := "";
        }
      } else {
        current := current + [c];
      }
    }
    if current != "" {
      tokens := tokens + [current];
    }
    assert tokens == AutostartTokens(exec, "", false) by {
      assert exec[|exec|..] == "";
    }
    args := Retained(tokens);
  }

  // ----- Where the two agree -----

  /**
   * Outside double quotes `s` has no single quote, no backslash, and no blank other than space and
   * tab.  Inside double quotes anything goes.
   */
  predicate InCommonFragment(s: string, inQuotes: bool)
    decreases |s|
  {
    if s == "" then true
    else if s[0] == '"' then InCommonFragment(s[1..], !inQuotes)
    else if inQuotes then
      if s[0] == '\\' then |s| == 1 || InCommonFragment(s[2..], true)
      else InCommonFragment(s[1..], true)
    else
      && s[0] != '\'' && s[0] != '\\'
      && (IsWhitespace(s[0]) ==> s[0] == ' ' || s[0] == '\t')
      && InCommonFragment(s[1..], false)
  }

  /** The two tokenizers run in step: equal tokens from equal states. */
  lemma {:induction false} TokenizersAgree(s: string, current: string, inQuotes: bool)
    requires InCommonFragment(s, inQuotes)
    ensures CatalogTokens(s, current, if inQuotes then Some('"') else None) == AutostartTokens(s, current, inQuotes)
    decreases |s|
  {
    if s != "" {
      if s[0] == '"' {
        TokenizersAgree(s[1..], current, !inQuotes);
      } else if inQuotes && s[0] == '\\' {
        TokenizersAgree(if |s| == 1 then "" else s[2..], if |s| == 1 then current else current + [s[1]], true);
      } else if !inQuotes && IsWhitespace(s[0]) {
        TokenizersAgree(s[1..], "", false);
      } else {
        TokenizersAgree(s[1..], current + [s[0]], inQuotes);
      }
    }
  }

  // ----- And only there -----

  /** How often a character occurs in all tokens together. */
  function Count(tokens: seq<string>, c: char): nat {
    if tokens == [] then 0 else multiset(tokens[0])[c] + Count(tokens[1..], c)
  }

  lemma {:induction false} CountBehind(front: seq<string>, tokens: seq<string>, c: char)
    requires |front| <= 1
    ensures Count(front + tokens, c) == (if front == [] then 0 else multiset(front[0])[c]) + Count(tokens, c)
  {
    if front == [] {
      assert front + tokens == tokens;
    } else {
      assert (front + tokens)[1..] == tokens;
    }
  }

  /** The characters of the token being built, if any, come out once. */
  lemma {:induction false} CountCurrent(current: string, tokens: seq<string>, c: char)
    ensures Count((if current == "" then [] else [current]) + tokens, c) == multiset(current)[c] + Count(tokens, c)
  {
    CountBehind(if current == "" then [] else [current], tokens, c);
  }

  lemma {:induction false} CountHead(s: string, c: char)
    requires s != ""
    ensures multiset(s)[c] == (if s[0] == c then 1 else 0) + multiset(s[1..])[c]
  {
    assert s == [s[0]] + s[1..];
  }

  /** What the tokenizers emit does not depend on the token being built. */
  lemma {:induction false} AutostartCount(s: string, current: string, inQuotes: bool, c: char)
    ensures Count(AutostartTokens(s, current, inQuotes), c)
         == multiset(current)[c] + Count(AutostartTokens(s, "", inQuotes), c)
    decreases |s|
  {
    hide Count;
    if s == "" {
      CountCurrent(current, [], c);
      CountCurrent("", [], c);
      assert AutostartTokens(s, current, inQuotes) == (if current == "" then [] else [current]) + [];
    } else if s[0] == '"' {
      AutostartCount(s[1..], current, !inQuotes, c);
    } else if s[0] == '\\' && inQuotes {
      var rest := if |s| == 1 then "" else s[2..];
      var emitted := if |s| == 1 then "" else [s[1]];
      assert current + "" == current;
      AutostartCount(rest, current + emitted, inQuotes, c);
      AutostartCount(rest, "" + emitted, inQuotes, c);
    } else if (s[0] == ' ' || s[0] == '\t') && !inQuotes {
      CountCurrent(current, AutostartTokens(s[1..], "", inQuotes), c);
      CountCurrent("", AutostartTokens(s[1..], "", inQuotes), c);
    } else {
      AutostartCount(s[1..], current + [s[0]], inQuotes, c);
      AutostartCount(s[1..], "" + [s[0]], inQuotes, c);
    }
  }

  lemma {:induction false} CatalogCount(s: string, current: string, quote: Option<char>, c: char)
    ensures Count(CatalogTokens(s, current, quote), c)
         == multiset(current)[c] + Count(CatalogTokens(s, "", quote), c)
    decreases |s|
  {
    hide Count, IsWhitespace;
    if s == "" {
      CountCurrent(current, [], c);
      CountCurrent("", [], c);
      assert CatalogTokens(s, current, quote) == (if current == "" then [] else [current]) + [];
    } else if quote.Some? && s[0] == quote.value {
      CatalogCount(s[1..], current, None, c);
    } else if quote.None? && IsWhitespace(s[0]) {
      CountCurrent(current, CatalogTokens(s[1..], "", None), c);
      CountCurrent("", CatalogTokens(s[1..], "", None), c);
    } else if s[0] == '\\' && quote in {None, Some('"')} {
      var rest := if |s| == 1 then "" else s[2..];
      var emitted := if |s| == 1 then "" else [s[1]];
      assert current + "" == current;
      CatalogCount(rest, current + emitted, quote, c);
      CatalogCount(rest, "" + emitted, quote, c);
    } else if quote.None? && (s[0] == '\'' || s[0] == '"') {
      CatalogCount(s[1..], current, Some(s[0]), c);
    } else {
      CatalogCount(s[1..], current + [s[0]], quote, c);
      CatalogCount(s[1..], "" + [s[0]], quote, c);
    }
  }

  /** Emitted by the autostart tokenizer from `s` on. */
  function AutostartEmits(s: string, inQuotes: bool, c: char): nat {
    Count(AutostartTokens(s, "", inQuotes), c)
  }

  function CatalogEmits(s: string, quote: Option<char>, c: char): nat {
    Count(CatalogTokens(s, "", quote), c)
  }

  function One(c: char, d: char): nat {
    if c == d then 1 else 0
  }

  lemma {:induction false} AutostartStep(s: string, inQuotes: bool, c: char)
    requires s != ""
    ensures AutostartEmits("", inQuotes, c) == 0
    ensures AutostartEmits(s, inQuotes, c) ==
      if s[0] == '"' then AutostartEmits(s[1..], !inQuotes, c)
      else if s[0] == '\\' && inQuotes then
        if |s| == 1 then 0 else One(s[1], c) + AutostartEmits(s[2..], inQuotes, c)
      else if (s[0] == ' ' || s[0] == '\t') && !inQuotes then AutostartEmits(s[1..], inQuotes, c)
      else One(s[0], c) + AutostartEmits(s[1..], inQuotes, c)
  {
    hide Count;
    CountCurrent("", [], c);
    assert Count([], c) == 0 && "" + [s[0]] == [s[0]] by { CountNone(c); }
    if s[0] == '\\' && inQuotes && |s| > 1 {
      assert "" + [s[1]] == [s[1]];
      AutostartCount(s[2..], [s[1]], inQuotes, c);
    } else {
      CountCurrent("", AutostartTokens(s[1..], "", inQuotes), c);
      AutostartCount(s[1..], [s[0]], inQuotes, c);
    }
  }

  lemma CountNone(c: char)
    ensures Count([], c) == 0
  {
  }

  lemma {:induction false} CatalogStep(s: string, quote: Option<char>, c: char)
    requires s != ""
    ensures CatalogEmits("", quote, c) == 0
    ensures CatalogEmits(s, quote, c) ==
      if quote.Some? && s[0] == quote.value then CatalogEmits(s[1..], None, c)
      else if s[0] == '\\' && quote in {None, Some('"')} then
        if |s| == 1 then 0 else One(s[1], c) + CatalogEmits(s[2..], quote, c)
      else if quote.None? && IsWhitespace(s[0]) then CatalogEmits(s[1..], None, c)
      else if quote.None? && (s[0] == '\'' || s[0] == '"') then CatalogEmits(s[1..], Some(s[0]), c)
      else One(s[0], c) + CatalogEmits(s[1..], quote, c)
  {
    hide Count;
    CountCurrent("", [], c);
    assert Count([], c) == 0 && "" + [s[0]] == [s[0]] by { CountNone(c); }
    if s[0] == '\\' && quote in {None, Some('"')} && |s| > 1 {
      assert "" + [s[1]] == [s[1]];
      CatalogCount(s[2..], [s[1]], quote, c);
    } else {
      CountCurrent("", CatalogTokens(s[1..], "", quote), c);
      CatalogCount(s[1..], [s[0]], quote, c);
    }
  }

  /** The autostart tokenizer drops quotation marks, backslashes, spaces and tabs only. */
  lemma {:induction false} AutostartKeeps(s: string, inQuotes: bool, c: char)
    requires c !in {'"', '\\', ' ', '\t'}
    ensures AutostartEmits(s, inQuotes, c) == multiset(s)[c]
    decreases |s|
  {
    if s == "" {
      CountNone(c);
    } else {
      AutostartStep(s, inQuotes, c);
      CountHead(s, c);
      hide AutostartEmits;
      if s[0] == '\\' && inQuotes {
        if |s| > 1 {
          CountHead(s[1..], c);
          assert s[1..][1..] == s[2..];
          AutostartKeeps(s[2..], inQuotes, c);
        }
      } else {
        AutostartKeeps(s[1..], if s[0] == '"' then !inQuotes else inQuotes, c);
      }
    }
  }

  /** The catalogue's tokenizer invents no character. */
  lemma {:induction false} CatalogAtMost(s: string, quote: Option<char>, c: char)
    ensures CatalogEmits(s, quote, c) <= multiset(s)[c]
    decreases |s|
  {
    if s == "" {
      CountNone(c);
    } else {
      CatalogStep(s, quote, c);
      CountHead(s, c);
      hide CatalogEmits;
      if |s| > 1 {
        CountHead(s[1..], c);
        assert s[1..][1..] == s[2..];
        CatalogAtMost(s[2..], quote, c);
      }
      CatalogAtMost(s[1..], None, c);
      CatalogAtMost(s[1..], quote, c);
      CatalogAtMost(s[1..], Some(s[0]), c);
    }
  }

  /**
   * From any states outside single quotes, the catalogue's tokenizer emits no more backslashes than the
   * autostart one, unless it opens a single quote and thereby drops it.
   */
  lemma {:induction false} QuoteLostOrBehind(s: string, inQuotes: bool, quote: Option<char>)
    requires quote in {None, Some('"')}
    ensures
      || CatalogEmits(s, quote, '\'') < multiset(s)['\'']
      || CatalogEmits(s, quote, '\\') <= AutostartEmits(s, inQuotes, '\\')
    decreases |s|
  {
    if s == "" {
      CountNone('\\');
    } else {
      CatalogStep(s, quote, '\\');
      CatalogStep(s, quote, '\'');
      AutostartStep(s, inQuotes, '\\');
      CountHead(s, '\'');
      hide CatalogEmits, AutostartEmits;
      if s[0] == '\\' {
        if |s| > 1 {
          CountHead(s[1..], '\'');
          assert s[1..][1..] == s[2..];
          AutostartStep(s[1..], inQuotes, '\\');
          QuoteLostOrBehind(s[2..], inQuotes, quote);
          QuoteLostOrBehind(s[2..], !inQuotes, quote);
        }
      } else if quote.None? && s[0] == '\'' {
        CatalogAtMost(s[1..], Some('\''), '\'');
      } else {
        var inQuotes' := if s[0] == '"' then !inQuotes else inQuotes;
        var quote' := if s[0] != '"' then quote else if quote.None? then Some('"') else None;
        QuoteLostOrBehind(s[1..], inQuotes', quote');
      }
    }
  }

  /** A backslash outside quotes puts the catalogue's tokenizer behind for good. */
  lemma {:induction false} BackslashDiffers(s: string)
    requires s != "" && s[0] == '\\'
    ensures
      || CatalogEmits(s, None, '\'') < AutostartEmits(s, false, '\'')
      || CatalogEmits(s, None, '\\') < AutostartEmits(s, false, '\\')
  {
    CatalogStep(s, None, '\\');
    CatalogStep(s, None, '\'');
    AutostartStep(s, false, '\\');
    AutostartKeeps(s, false, '\'');
    CountHead(s, '\'');
    hide CatalogEmits, AutostartEmits;
    if |s| > 1 {
      CountHead(s[1..], '\'');
      assert s[1..][1..] == s[2..];
      AutostartStep(s[1..], false, '\\');
      QuoteLostOrBehind(s[2..], false, None);
      QuoteLostOrBehind(s[2..], true, None);
    }
  }

  /** Outside the common fragment the tokenizers split differently, from any token being built. */
  lemma {:induction false} TokenizersDiffer(s: string, current: string, inQuotes: bool)
    requires !InCommonFragment(s, inQuotes)
    ensures CatalogTokens(s, current, if inQuotes then Some('"') else None) != AutostartTokens(s, current, inQuotes)
    decreases |s|
  {
    if s[0] == '"' {
      TokenizersDiffer(s[1..], current, !inQuotes);
    } else if inQuotes && s[0] == '\\' {
      TokenizersDiffer(s[2..], current + [s[1]], true);
    } else if !inQuotes && (s[0] == ' ' || s[0] == '\t') {
      TokenizersDiffer(s[1..], "", false);
      var front := if current == "" then [] else [current];
      var a, b := CatalogTokens(s[1..], "", None), AutostartTokens(s[1..], "", false);
      assert (front + a)[|front|..] == a && (front + b)[|front|..] == b;
    } else if !inQuotes && (IsWhitespace(s[0]) || s[0] == '\'' || s[0] == '\\') {
      DiffersHere(s, current);
    } else {
      TokenizersDiffer(s[1..], current + [s[0]], inQuotes);
    }
  }

  lemma {:induction false} DiffersHere(s: string, current: string)
    requires s != "" && s[0] != ' ' && s[0] != '\t' && (IsWhitespace(s[0]) || s[0] == '\'' || s[0] == '\\')
    ensures CatalogTokens(s, current, None) != AutostartTokens(s, current, false)
  {
    var c := s[0];
    CatalogCount(s, current, None, c);
    AutostartCount(s, current, false, c);
    CatalogCount(s, current, None, '\'');
    AutostartCount(s, current, false, '\'');
    if c == '\\' {
      BackslashDiffers(s);
    } else {
      AutostartKeeps(s, false, c);
      CountHead(s, c);
      CatalogStep(s, None, c);
      CatalogAtMost(s[1..], None, c);
      CatalogAtMost(s[1..], Some(c), c);
    }
  }

  /** The tokenizers give the same tokens exactly on the common fragment. */
  lemma {:induction false} TokenizersAgreeIff(s: string)
    ensures CatalogTokens(s, "", None) == AutostartTokens(s, "", false) <==> InCommonFragment(s, false)
  {
    if InCommonFragment(s, false) {
      TokenizersAgree(s, "", false);
    } else {
      TokenizersDiffer(s, "", false);
    }
  }

  // ----- Round trip -----

  /** How an argument is written: in double quotes, in single quotes, or with every character escaped. */
  datatype Style = DoubleQuotes | SingleQuotes | Backslashes

  /** Single quotes cannot quote a single quote. */
  predicate CanWrite(arg: string, style: Style) {
    style == SingleQuotes ==> '\'' !in arg
  }

  /** One argument with its percent signs doubled, written in the given style. */
  function Written(arg: string, style: Style): string {
    match style
    case DoubleQuotes => "\"" + Escaped(arg) + "\""
    case SingleQuotes => "'" + Doubled(arg) + "'"
    case Backslashes => Backslashed(Doubled(arg))
  }

  function Backslashed(s: string): string {
    if s == "" then "" else ['\\', s[0]] + Backslashed(s[1..])
  }

  function Escaped(arg: string): string {
    if arg == "" then "" else EscapedChar(arg[0]) + Escaped(arg[1..])
  }

  function EscapedChar(c: char): string {
    if c == '%' then "%%" else if c == '"' || c == '\\' then ['\\', c] else [c]
  }

  /** Only the percent signs doubled. */
  function Doubled(arg: string): string {
    if arg == "" then "" else DoubledChar(arg[0]) + Doubled(arg[1..])
  }

  function DoubledChar(c: char): string {
    if c == '%' then "%%" else [c]
  }

  function EncodeArgv(args: seq<string>, styles: seq<Style>): string
    requires |args| == |styles|
  {
    if args == [] then ""
    else if |args| == 1 then Written(args[0], styles[0])
    else Written(args[0], styles[0]) + " " + EncodeArgv(args[1..], styles[1..])
  }

  /** Every argument can be written in its style. */
  predicate CanEncode(args: seq<string>, styles: seq<Style>) {
    |args| == |styles| && forall i :: 0 <= i < |args| ==> CanWrite(args[i], styles[i])
  }

  lemma {:induction false} ReadPlain(c: char, rest: string, current: string)
    requires c != '"' && c != '\\'
    ensures CatalogTokens([c] + rest, current, Some('"')) == CatalogTokens(rest, current + [c], Some('"'))
  {
    assert ([c] + rest)[1..] == rest;
  }

  lemma {:induction false} ReadBackslash(c: char, rest: string, current: string)
    ensures CatalogTokens(['\\', c] + rest, current, Some('"')) == CatalogTokens(rest, current + [c], Some('"'))
  {
    assert (['\\', c] + rest)[2..] == rest;
  }

  lemma {:induction false} ReadEscapedChar(c: char, tail: string, current: string)
    ensures CatalogTokens(EscapedChar(c) + tail, current, Some('"')) == CatalogTokens(tail,
        current + DoubledChar(c), Some('"'))
  {
    hide CatalogTokens;
    if c == '%' {
      ReadPlain('%', ['%'] + tail, current);
      ReadPlain('%', tail, current + ['%']);
      assert EscapedChar(c) + tail == ['%'] + (['%'] + tail);
      assert current + ['%'] + ['%'] == current + DoubledChar(c);
    } else if c == '"' || c == '\\' {
      ReadBackslash(c, tail, current);
    } else {
      ReadPlain(c, tail, current);
    }
  }

  lemma {:induction false} ReadEscaped(arg: string, rest: string, current: string)
    ensures CatalogTokens(Escaped(arg) + rest, current, Some('"'))
         == CatalogTokens(rest, current + Doubled(arg), Some('"'))
    decreases |arg|
  {
    hide CatalogTokens, EscapedChar, DoubledChar;
    if arg == "" {
      assert "" + rest == rest && current + "" == current;
    } else {
      ConcatAssociative(EscapedChar(arg[0]), Escaped(arg[1..]), rest);
      ReadEscapedChar(arg[0], Escaped(arg[1..]) + rest, current);
      ReadEscaped(arg[1..], rest, current + DoubledChar(arg[0]));
      ConcatAssociative(current, DoubledChar(arg[0]), Doubled(arg[1..]));
    }
  }

  lemma {:induction false} ReadSingleQuoted(s: string, rest: string, current: string)
    requires '\'' !in s
    ensures CatalogTokens(s + "'" + rest, current, Some('\'')) == CatalogTokens(rest, current + s, None)
    decreases |s|
  {
    var all := s + "'" + rest;
    if s == "" {
      assert all[1..] == rest && current + "" == current;
    } else {
      assert s[0] in s && all[0] == s[0] && all[1..] == s[1..] + "'" + rest;
      ReadSingleQuoted(s[1..], rest, current + [s[0]]);
      hide CatalogTokens;
      assert current + [s[0]] + s[1..] == current + s;
    }
  }

  lemma {:induction false} ReadBackslashed(s: string, rest: string, current: string)
    ensures CatalogTokens(Backslashed(s) + rest, current, None) == CatalogTokens(rest, current + s, None)
    decreases |s|
  {
    if s == "" {
      assert "" + rest == rest && current + "" == current;
    } else {
      var tail := Backslashed(s[1..]) + rest;
      ReadOneBackslash(s[0], tail, current);
      ReadBackslashed(s[1..], rest, current + [s[0]]);
      hide CatalogTokens;
      ConcatAssociative(['\\', s[0]], Backslashed(s[1..]), rest);
      assert current + [s[0]] + s[1..] == current + s;
    }
  }

  lemma {:induction false} ReadOneBackslash(c: char, rest: string, current: string)
    ensures CatalogTokens(['\\', c] + rest, current, None) == CatalogTokens(rest, current + [c], None)
  {
    assert (['\\', c] + rest)[2..] == rest;
  }

  lemma {:induction false} DoubledHasNoQuote(arg: string)
    requires '\'' !in arg
    ensures '\'' !in Doubled(arg)
    decreases |arg|
  {
    if arg != "" {
      assert arg[0] in arg;
      DoubledHasNoQuote(arg[1..]);
    }
  }

  /** Reading one written argument from outside any quote. */
  lemma {:induction false} ReadWritten(arg: string, style: Style, rest: string)
    requires CanWrite(arg, style)
    ensures CatalogTokens(Written(arg, style) + rest, "", None) == CatalogTokens(rest, Doubled(arg), None)
  {
    hide Escaped, Doubled, Backslashed;
    assert "" + Doubled(arg) == Doubled(arg);
    match style
    case DoubleQuotes => ReadInDoubleQuotes(arg, rest);
    case SingleQuotes => ReadInSingleQuotes(arg, rest);
    case Backslashes =>
      hide CatalogTokens;
      ReadBackslashed(Doubled(arg), rest, "");
  }

  lemma {:induction false} ReadInDoubleQuotes(arg: string, rest: string)
    ensures CatalogTokens("\"" + Escaped(arg) + "\"" + rest, "", None) == CatalogTokens(rest, Doubled(arg), None)
  {
    hide Escaped, Doubled, IsWhitespace;
    assert !IsWhitespace('"') by { QuotesAreNoBlanks(); }
    var s := "\"" + Escaped(arg) + "\"" + rest;
    assert s[0] == '"' && s[1..] == Escaped(arg) + ("\"" + rest);
    ReadEscaped(arg, "\"" + rest, "");
    assert "" + Doubled(arg) == Doubled(arg) && ("\"" + rest)[1..] == rest;
  }

  lemma {:induction false} ReadInSingleQuotes(arg: string, rest: string)
    requires '\'' !in arg
    ensures CatalogTokens("'" + Doubled(arg) + "'" + rest, "", None) == CatalogTokens(rest, Doubled(arg), None)
  {
    hide Doubled, IsWhitespace;
    assert !IsWhitespace('\'') by { QuotesAreNoBlanks(); }
    var s := "'" + Doubled(arg) + "'" + rest;
    assert s[0] == '\'' && s[1..] == Doubled(arg) + "'" + rest;
    DoubledHasNoQuote(arg);
    ReadSingleQuoted(Doubled(arg), rest, "");
    assert "" + Doubled(arg) == Doubled(arg);
  }

  lemma QuotesAreNoBlanks()
    ensures !IsWhitespace('"') && !IsWhitespace('\'')
  {
  }

  lemma {:induction false} StripDoubled(arg: string)
    ensures Stripped(Doubled(arg)) == arg
    decreases |arg|
  {
    if arg != "" {
      var s := Doubled(arg);
      StripDoubled(arg[1..]);
      if arg[0] == '%' {
        assert s[2..] == Doubled(arg[1..]);
      } else {
        assert s[1..] == Doubled(arg[1..]);
      }
      assert arg == [arg[0]] + arg[1..];
    }
  }

  /** What survives of an argument list: each argument trimmed, the blank ones gone. */
  function Trimmed(args: seq<string>): (r: seq<string>)
    ensures |r| <= |args|
    ensures r == args <==> forall i :: 0 <= i < |args| ==> args[i] != "" && IsTrimmed(args[i])
  {
    if args == [] then []
    else
      TrimFixpoint(args[0]);
      assert args == [args[0]] + args[1..];
      (if Trim(args[0]) == "" then [] else [Trim(args[0])]) + Trimmed(args[1..])
  }

  /** An encoded list is tokenized into its non-empty arguments with `%` doubled. */
  function Tokens(args: seq<string>): seq<string> {
    if args == [] then []
    else (if args[0] == "" then [] else [Doubled(args[0])]) + Tokens(args[1..])
  }

  lemma {:induction false} TokenizeEncoded(args: seq<string>, styles: seq<Style>)
    requires CanEncode(args, styles)
    ensures CatalogTokens(EncodeArgv(args, styles), "", None) == Tokens(args)
    decreases |args|
  {
    if args != [] {
      TokenizeEncoded(args[1..], styles[1..]);
      if |args| == 1 {
        assert Written(args[0], styles[0]) + "" == Written(args[0], styles[0]);
        ReadWritten(args[0], styles[0], "");
      } else {
        var rest := " " + EncodeArgv(args[1..], styles[1..]);
        ConcatAssociative(Written(args[0], styles[0]), " ", EncodeArgv(args[1..], styles[1..]));
        ReadWritten(args[0], styles[0], rest);
        assert rest[1..] == EncodeArgv(args[1..], styles[1..]);
      }
    }
  }

  lemma {:induction false} CleanedCons(token: string, tokens: seq<string>)
    ensures Cleaned([token] + tokens)
         == (if Trim(Stripped(token)) == "" then [] else [Trim(Stripped(token))]) + Cleaned(tokens)
  {
    assert ([token] + tokens)[1..] == tokens;
  }

  lemma {:induction false} CleanedTokens(args: seq<string>)
    ensures Cleaned(Tokens(args)) == Trimmed(args)
    decreases |args|
  {
    hide Stripped, Doubled, Trim;
    if args != [] {
      CleanedTokens(args[1..]);
      if args[0] == "" {
        TrimFixpoint("");
        assert Tokens(args) == Tokens(args[1..]);
      } else {
        StripDoubled(args[0]);
        hide Cleaned;
        CleanedCons(Doubled(args[0]), Tokens(args[1..]));
      }
    }
  }

  /** Whatever is parsed, every argument is trimmed and none is empty. */
  lemma {:induction false} ArgumentsAreTrimmed(tokens: seq<string>)
    ensures forall i :: 0 <= i < |Cleaned(tokens)| ==> Cleaned(tokens)[i] != "" && IsTrimmed(Cleaned(tokens)[i])
    decreases |tokens|
  {
    if tokens != [] {
      ArgumentsAreTrimmed(tokens[1..]);
      var before, after := TrimExact(Stripped(tokens[0]));
      hide Trim, Stripped, IsTrimmed;
    }
  }

  /** Parsing an encoded list, however each argument is written, yields the trimmed, non-blank arguments. */
  lemma {:induction false} ParseEncoded(args: seq<string>, styles: seq<Style>)
    requires CanEncode(args, styles)
    ensures ParseExecArgv(EncodeArgv(args, styles)) == Trimmed(args)
  {
    TokenizeEncoded(args, styles);
    CleanedTokens(args);
  }

  /** The round trip is exact precisely for lists of non-empty arguments without outer blanks. */
  lemma {:induction false} ExecRoundTrip(args: seq<string>, styles: seq<Style>)
    requires CanEncode(args, styles)
    ensures ParseExecArgv(EncodeArgv(args, styles)) == args
       <==> forall i :: 0 <= i < |args| ==> args[i] != "" && IsTrimmed(args[i])
  {
    ParseEncoded(args, styles);
  }

  // ----- The two parsers as a whole -----

  /** Every token is a field code or free of percent signs. */
  predicate CodesStandAlone(tokens: seq<string>) {
    forall i :: 0 <= i < |tokens| ==> IsFieldCode(tokens[i]) || '%' !in tokens[i]
  }

  lemma {:induction false} StrippedPlain(s: string)
    requires '%' !in s
    ensures Stripped(s) == s
    decreases |s|
  {
    if s != "" {
      assert s[0] in s && s == [s[0]] + s[1..];
      StrippedPlain(s[1..]);
    }
  }

  lemma {:induction false} StrippedCode(s: string)
    requires IsFieldCode(s)
    ensures Stripped(s) == ""
  {
    assert |s| == 2 && s[0] == '%' && IsAsciiAlphabetic(s[1]);
    assert s[2..] == "";
  }

  /** Stripping changes exactly the tokens that have a percent sign in front of a letter or of another one. */
  lemma {:induction false} StripsOnlyCodes(s: string)
    ensures Stripped(s) == s <==> HasNoCode(s)
    ensures |Stripped(s)| <= |s|
    decreases |s|
  {
    if s != "" {
      if s[0] != '%' {
        assert s == [s[0]] + s[1..];
        StripsOnlyCodes(s[1..]);
        NoCodeBehind(s[0], s[1..]);
        SameTail([s[0]], Stripped(s[1..]), s[1..]);
        hide HasNoCode;
      } else if |s| > 1 {
        assert s == ['%', s[1]] + s[2..];
        StripsOnlyCodes(s[2..]);
        NoCodeBehindPercent(s[1], s[2..]);
        SameTail(['%', s[1]], Stripped(s[2..]), s[2..]);
        hide HasNoCode;
      }
    }
  }

  /** No percent sign has a letter or another percent sign behind it. */
  predicate HasNoCode(s: string) {
    forall i, j :: 0 <= i < |s| && j == i + 1 && j < |s| && s[i] == '%' ==> s[j] != '%' && !IsAsciiAlphabetic(s[j])
  }

  lemma {:induction false} NoCodeBehind(c: char, rest: string)
    requires c != '%'
    ensures HasNoCode([c] + rest) <==> HasNoCode(rest)
  {
    var s := [c] + rest;
    hide IsAsciiAlphabetic;
    assert forall i :: 0 <= i < |rest| ==> rest[i] == s[i + 1];
    assert forall i :: 0 < i < |s| ==> s[i] == rest[i - 1];
  }

  lemma {:induction false} NoCodeBehindPercent(c: char, rest: string)
    ensures HasNoCode(['%', c] + rest) <==> c != '%' && !IsAsciiAlphabetic(c) && HasNoCode(rest)
  {
    var s := ['%', c] + rest;
    hide IsAsciiAlphabetic;
    assert s[0] == '%' && s[1] == c;
    assert forall i :: 0 <= i < |rest| ==> rest[i] == s[i + 2];
    assert forall i :: 1 < i < |s| ==> s[i] == rest[i - 2];
  }

  /** A percent sign behind a letter's own code: what stripping leaves of one two-character token. */
  lemma {:induction false} StripsOneCode(c: char)
    ensures Stripped(['%', c]) == if IsAsciiAlphabetic(c) then "" else if c == '%' then "%" else ['%', c]
  {
    assert ['%', c][2..] == "" && Stripped("") == "";
  }

  /**
   * The autostart parser drops the thirteen field codes of the Desktop Entry Specification, section 7, and the
   * catalogue strips each of them to nothing.
   */
  lemma {:induction false} FieldCodesVanish(s: string)
    ensures IsFieldCode(s) <==> |s| == 2 && s[0] == '%' && s[1] in "fFuUdDnNickvm"
    ensures IsFieldCode(s) ==> Stripped(s) == ""
  {
    if |s| == 2 {
      assert s == [s[0], s[1]];
      StripsOneCode(s[1]);
    }
    hide Stripped;
  }

  /** Where tokens agree and field codes stand alone, both parsers launch the same arguments, trimmed. */
  lemma {:induction false} ParsersAgree(exec: string)
    requires InCommonFragment(exec, false) && CodesStandAlone(AutostartTokens(exec, "", false))
    ensures ParseExecArgv(exec) == Trimmed(Retained(AutostartTokens(exec, "", false)))
  {
    TokenizersAgree(exec, "", false);
    CleanedIsRetained(AutostartTokens(exec, "", false));
  }

  lemma {:induction false} CleanedIsRetained(tokens: seq<string>)
    requires CodesStandAlone(tokens)
    ensures Cleaned(tokens) == Trimmed(Retained(tokens))
    decreases |tokens|
  {
    hide *;
    if tokens == [] {
      NothingCleaned();
    } else {
      FewerCodes(tokens);
      CleanedIsRetained(tokens[1..]);
      CleanedCons(tokens[0], tokens[1..]);
      RetainedCons(tokens[0], tokens[1..]);
      TrimmedCons(tokens[0], Retained(tokens[1..]));
      assert [tokens[0]] + tokens[1..] == tokens;
      if IsFieldCode(tokens[0]) {
        StrippedCode(tokens[0]);
        TrimFixpoint("");
        IsTrimmedEmpty();
        assert [] + Cleaned(tokens[1..]) == Cleaned(tokens[1..]) && [] + Retained(tokens[1..]) == Retained(tokens[1..]);
      } else {
        StrippedPlain(tokens[0]);
      }
    }
  }

  lemma NothingCleaned()
    ensures Cleaned([]) == Trimmed(Retained([]))
  {
  }

  lemma FewerCodes(tokens: seq<string>)
    requires tokens != [] && CodesStandAlone(tokens)
    ensures CodesStandAlone(tokens[1..]) && (IsFieldCode(tokens[0]) || '%' !in tokens[0])
  {
  }

  lemma RetainedCons(token: string, tokens: seq<string>)
    ensures Retained([token] + tokens) == (if IsFieldCode(token) then [] else [token]) + Retained(tokens)
  {
    assert ([token] + tokens)[1..] == tokens;
  }

  lemma TrimmedCons(token: string, tokens: seq<string>)
    ensures Trimmed([token] + tokens) == (if Trim(token) == "" then [] else [Trim(token)]) + Trimmed(tokens)
  {
    assert ([token] + tokens)[1..] == tokens;
  }

  lemma IsTrimmedEmpty()
    ensures IsTrimmed("")
  {
  }
}
