/** The style sheet generated for GTK: which tokens a template has and how a theme prints them. */
module StyleSheets {
  import opened Clashes
  import opened Pixels
  import opened Placeholders
  import opened Rescanning
  import opened Text

  /** What `{:.2}` prints of an `f32`: a rounded number of hundredths, or not a finite number. */
  datatype Alpha = Finite(negative: bool, hundredths: nat) | Infinite(negative: bool) | NotANumber

  datatype Theme = Theme(
    cornerRadius: nat, shadowRadius: nat, shadowOffset: int, shadowAlpha: Alpha,
    surfaceAlt: Color, surface: Color, accentAlt: Color, accent: Color,
    textDim: Color, text: Color, background: Color, border: Color,
    error: Color, warning: Color, success: Color, selectionForeground: Color)

  // ----- Printing -----

  function Digit(d: nat): char
    requires d < 16
  {
    "0123456789abcdef"[d]
  }

  function Decimal(n: nat): string {
    (if n < 10 then "" else Decimal(n / 10)) + [Digit(n % 10)]
  }

  function Signed(n: int): string {
    if n < 0 then "-" + Decimal(-n) else Decimal(n)
  }

  function PrintAlpha(alpha: Alpha): string {
    match alpha
    case Finite(negative, n) =>
      (if negative then "-" else "") + (Decimal(n / 100) + ['.', Digit(n / 10 % 10), Digit(n % 10)])
    case Infinite(negative) => if negative then "-inf" else "inf"
    case NotANumber => "NaN"
  }

  function Hex(b: Byte): string {
    [Digit(b / 16), Digit(b % 16)]
  }

  /** `Color::to_hex`: the alpha channel only if the colour is translucent. */
  function ToHex(c: Color): string {
    "#" + (Hex(c.r) + Hex(c.g) + Hex(c.b) + (if c.a == 255 then "" else Hex(c.a)))
  }

  function ThemeBindings(theme: Theme): seq<Binding> {
    [ Binding("RADIUS", Decimal(theme.cornerRadius)),
      Binding("SHADOW_RADIUS", Decimal(theme.shadowRadius)),
      Binding("SHADOW_OFFSET", Signed(theme.shadowOffset)),
      Binding("SHADOW_ALPHA", PrintAlpha(theme.shadowAlpha)),
      Binding("SURFACE_ALT", ToHex(theme.surfaceAlt)),
      Binding("SURFACE", ToHex(theme.surface)),
      Binding("ACCENT_ALT", ToHex(theme.accentAlt)),
      Binding("ACCENT", ToHex(theme.accent)),
      Binding("TEXT_DIM", ToHex(theme.textDim)),
      Binding("TEXT", ToHex(theme.text)),
      Binding("BG", ToHex(theme.background)),
      Binding("BORDER", ToHex(theme.border)),
      Binding("ERROR", ToHex(theme.error)),
      Binding("WARNING", ToHex(theme.warning)),
      Binding("SUCCESS", ToHex(theme.success)),
      Binding("SEL_FG", ToHex(theme.selectionForeground)) ]
  }

  function SubstituteTokens(template: string, theme: Theme): string {
    ReplaceChain(template, ThemeBindings(theme))
  }

  // ----- What is printed spells no name and has no delimiter -----

  /** No `@`, and a character that is in no name. */
  predicate IsPrinted(value: string) {
    '@' !in value && HasForeign(value, IsNameCharacter)
  }

  lemma DigitIsForeign(d: nat)
    requires d < 16
    ensures Digit(d) != '@' && !IsNameCharacter(Digit(d))
  {
  }

  lemma {:induction false} PrintedEnd(front: string, c: char)
    requires '@' !in front && c != '@' && !IsNameCharacter(c)
    ensures IsPrinted(front + [c])
  {
    assert (front + [c])[|front|] == c;
  }

  lemma {:induction false} PrintedBehind(front: string, value: string)
    requires '@' !in front && IsPrinted(value)
    ensures IsPrinted(front + value)
  {
    var k :| 0 <= k < |value| && !IsNameCharacter(value[k]);
    assert (front + value)[|front| + k] == value[k];
  }

  lemma {:induction false} DecimalIsPrinted(n: nat)
    ensures IsPrinted(Decimal(n))
    decreases n
  {
    if n >= 10 { DecimalIsPrinted(n / 10); }
    DigitIsForeign(n % 10);
    PrintedEnd(if n < 10 then "" else Decimal(n / 10), Digit(n % 10));
  }

  lemma {:induction false} SignedIsPrinted(n: int)
    ensures IsPrinted(Signed(n))
  {
    if n < 0 {
      DecimalIsPrinted(-n);
      PrintedBehind("-", Decimal(-n));
    } else {
      DecimalIsPrinted(n);
    }
  }

  lemma {:induction false} AlphaIsPrinted(alpha: Alpha)
    ensures IsPrinted(PrintAlpha(alpha))
  {
    match alpha
    case Finite(negative, n) =>
      DecimalIsPrinted(n / 100);
      DigitIsForeign(n / 10 % 10);
      DigitIsForeign(n % 10);
      var whole := Decimal(n / 100);
      var part := ['.', Digit(n / 10 % 10), Digit(n % 10)];
      assert part[0] == '.' && HasForeign(part, IsNameCharacter);
      PrintedBehind(whole, part);
      PrintedBehind(if negative then "-" else "", whole + part);
    case Infinite(negative) =>
      assert !IsNameCharacter(PrintAlpha(alpha)[1]);
    case NotANumber =>
      assert !IsNameCharacter("NaN"[1]);
  }

  lemma {:induction false} HexIsPrinted(c: Color)
    ensures IsPrinted(ToHex(c))
  {
    HexHasNoAt(c.r);
    HexHasNoAt(c.g);
    HexHasNoAt(c.b);
    HexHasNoAt(c.a);
    hide Hex;
    assert ToHex(c)[0] == '#' && !IsNameCharacter('#');
  }

  lemma {:induction false} HexHasNoAt(b: Byte)
    ensures '@' !in Hex(b)
  {
    DigitIsForeign(b / 16);
    DigitIsForeign(b % 16);
  }

  lemma ThemeNames()
    ensures IsPlaceholder("RADIUS") && IsPlaceholder("SHADOW_RADIUS")
    ensures IsPlaceholder("SHADOW_OFFSET") && IsPlaceholder("SHADOW_ALPHA")
    ensures IsPlaceholder("SURFACE_ALT") && IsPlaceholder("SURFACE")
    ensures IsPlaceholder("ACCENT_ALT") && IsPlaceholder("ACCENT")
    ensures IsPlaceholder("TEXT_DIM") && IsPlaceholder("TEXT")
    ensures IsPlaceholder("BG") && IsPlaceholder("BORDER")
    ensures IsPlaceholder("ERROR") && IsPlaceholder("WARNING")
    ensures IsPlaceholder("SUCCESS") && IsPlaceholder("SEL_FG")
  {
  }

  lemma {:induction false} TokensArePlaceholders(theme: Theme)
    ensures ArePlaceholders(ThemeBindings(theme))
  {
    ThemeNames();
    hide IsPlaceholder, Decimal, Signed, PrintAlpha, ToHex;
  }

  lemma {:induction false} ThemeIsPrinted(theme: Theme)
    ensures forall i :: 0 <= i < |ThemeBindings(theme)| ==> IsPrinted(ThemeBindings(theme)[i].value)
  {
    hide IsPrinted, Decimal, Signed, PrintAlpha, ToHex;
    DecimalIsPrinted(theme.cornerRadius);
    DecimalIsPrinted(theme.shadowRadius);
    SignedIsPrinted(theme.shadowOffset);
    AlphaIsPrinted(theme.shadowAlpha);
    forall c: Color ensures IsPrinted(ToHex(c)) { HexIsPrinted(c); }
  }

  lemma {:induction false} ThemeSubstitutable(theme: Theme)
    ensures Substitutable(ThemeBindings(theme)) && HasNames(ThemeBindings(theme))
    ensures NamesWithin(ThemeBindings(theme), IsNameCharacter)
    ensures ForeignValues(ThemeBindings(theme), IsNameCharacter) && NoDelimiters(ThemeBindings(theme))
  {
    TokensArePlaceholders(theme);
    ThemeIsPrinted(theme);
    var bindings := ThemeBindings(theme);
    hide ThemeBindings;
    forall i | 0 <= i < |bindings|
      ensures IsName(bindings[i].name) && IsValue(bindings[i].value) && HasForeign(bindings[i].value, IsNameCharacter)
    {
      var value := bindings[i].value;
      assert IsPrinted(value) && IsPlaceholder(bindings[i].name);
      assert forall k :: 0 <= k < |value| ==> value[k] in value;
    }
    forall i, k | 0 <= i < |bindings| && 0 <= k < |bindings[i].name| ensures IsNameCharacter(bindings[i].name[k]) {
      assert IsPlaceholder(bindings[i].name);
    }
  }

  // ----- What is printed can be read back -----

  function DigitValue(c: char): nat {
    if '0' <= c <= '9' then c as nat - '0' as nat else if 'a' <= c <= 'f' then c as nat - 'a' as nat + 10 else 0
  }

  /** The number a decimal numeral stands for. */
  function ReadDecimal(s: string): nat {
    if s == "" then 0 else 10 * ReadDecimal(s[..|s| - 1]) + DigitValue(s[|s| - 1])
  }

  function ReadSigned(s: string): int {
    if s != "" && s[0] == '-' then 0 - ReadDecimal(s[1..]) else ReadDecimal(s)
  }

  /** `#rrggbb` or `#rrggbbaa`. */
  function ReadColor(s: string): Color
    requires |s| == 7 || |s| == 9
  {
    Color(ReadByte(s[1], s[2]), ReadByte(s[3], s[4]), ReadByte(s[5], s[6]),
          if |s| == 7 then 255 else ReadByte(s[7], s[8]))
  }

  function ReadByte(high: char, low: char): Byte {
    Truncate(16 * DigitValue(high) + DigitValue(low))
  }

  lemma DigitReads(d: nat)
    requires d < 16
    ensures DigitValue(Digit(d)) == d && Digit(d) != '-'
  {
  }

  lemma {:induction false} ReadDecimalSnoc(s: string, c: char)
    ensures ReadDecimal(s + [c]) == 10 * ReadDecimal(s) + DigitValue(c)
  {
    assert (s + [c])[..|s|] == s;
  }

  lemma {:induction false} DecimalReads(n: nat)
    ensures ReadDecimal(Decimal(n)) == n && Decimal(n) != "" && Decimal(n)[0] != '-'
    decreases n
  {
    DigitReads(n % 10);
    var front := if n < 10 then "" else Decimal(n / 10);
    ReadDecimalSnoc(front, Digit(n % 10));
    hide Digit, DigitValue;
    if n >= 10 {
      DecimalReads(n / 10);
    } else {
      assert ReadDecimal("") == 0;
    }
  }

  lemma {:induction false} SignedReads(n: int)
    ensures ReadSigned(Signed(n)) == n
  {
    DecimalReads(if n < 0 then -n else n);
    assert n < 0 ==> Signed(n)[1..] == Decimal(-n);
    hide Decimal, ReadDecimal;
  }

  /** An opacity is printed with its sign and two decimals; without the point they read as the hundredths. */
  lemma {:induction false} AlphaReads(negative: bool, n: nat) returns (whole: string, tenth: char, hundredth: char)
    ensures PrintAlpha(Finite(negative, n)) == (if negative then "-" else "") + (whole + ['.', tenth, hundredth])
    ensures ReadDecimal(whole) == n / 100 && ReadDecimal(whole + [tenth] + [hundredth]) == n
  {
    whole, tenth, hundredth := Decimal(n / 100), Digit(n / 10 % 10), Digit(n % 10);
    DecimalReads(n / 100);
    DigitReads(n / 10 % 10);
    DigitReads(n % 10);
    ReadDecimalSnoc(whole, tenth);
    ReadDecimalSnoc(whole + [tenth], hundredth);
    HundredthsSplit(n);
    hide Decimal, Digit, ReadDecimal, DigitValue;
  }

  /** No two opacities are printed alike. */
  lemma {:induction false} AlphasDiffer(a: Alpha, b: Alpha)
    ensures PrintAlpha(a) == PrintAlpha(b) <==> a == b
  {
    AlphaStart(a);
    AlphaStart(b);
    if a.Finite? && b.Finite? && PrintAlpha(a) == PrintAlpha(b) {
      var whole, tenth, hundredth := AlphaReads(a.negative, a.hundredths);
      var whole', tenth', hundredth' := AlphaReads(b.negative, b.hundredths);
      SameTail(if a.negative then "-" else "", whole + ['.', tenth, hundredth], whole' + ['.', tenth', hundredth']);
      SameEnds(whole, ['.', tenth, hundredth], whole', ['.', tenth', hundredth']);
    }
    hide PrintAlpha;
  }

  lemma SameEnds(a: string, b: string, c: string, d: string)
    requires a + b == c + d && |b| == |d|
    ensures a == c && b == d
  {
    assert |a| == |c|;
    assert a == (a + b)[..|a|] && b == (a + b)[|a|..];
    assert c == (c + d)[..|c|] && d == (c + d)[|c|..];
  }

  /** How an opacity begins tells its kind and its sign. */
  lemma {:induction false} AlphaStart(alpha: Alpha)
    ensures
      var s := PrintAlpha(alpha);
      && |s| >= 2
      && (alpha == NotANumber <==> s[0] == 'N')
      && (alpha == Infinite(false) <==> s[0] == 'i')
      && (alpha == Infinite(true) <==> s[0] == '-' && s[1] == 'i')
      && (alpha.Finite? && alpha.negative <==> s[0] == '-' && '0' <= s[1] <= '9')
      && (alpha.Finite? && !alpha.negative <==> '0' <= s[0] <= '9')
  {
    if alpha.Finite? {
      DecimalStarts(alpha.hundredths / 100);
      hide Decimal, Digit;
    }
  }

  lemma {:induction false} DecimalStarts(n: nat)
    ensures Decimal(n) != "" && '0' <= Decimal(n)[0] <= '9'
    decreases n
  {
    if n >= 10 { DecimalStarts(n / 10); }
  }

  lemma HundredthsSplit(n: nat)
    ensures n == 10 * (10 * (n / 100) + n / 10 % 10) + n % 10
  {
    assert n / 10 / 10 == n / 100;
  }

  /** The colour can be read off its hexadecimal form. */
  lemma {:induction false} HexReads(c: Color)
    ensures (|ToHex(c)| == if c.a == 255 then 7 else 9) && ToHex(c)[0] == '#' && ReadColor(ToHex(c)) == c
  {
    ByteReads(c.r);
    ByteReads(c.g);
    ByteReads(c.b);
    ByteReads(c.a);
    var s, r, g, b, a := ToHex(c), Hex(c.r), Hex(c.g), Hex(c.b), Hex(c.a);
    hide Hex, ReadByte;
    assert s[1] == r[0] && s[2] == r[1] && s[3] == g[0] && s[4] == g[1] && s[5] == b[0] && s[6] == b[1];
    assert c.a != 255 ==> s[7] == a[0] && s[8] == a[1];
  }

  lemma {:induction false} ByteReads(b: Byte)
    ensures |Hex(b)| == 2 && ReadByte(Hex(b)[0], Hex(b)[1]) == b
  {
    DigitReads(b / 16);
    DigitReads(b % 16);
  }

  /** The position of a token in the order of the calls. */
  function TokenIndex(token: string): nat {
    if token == "RADIUS" then 0
    else if token == "SHADOW_RADIUS" then 1
    else if token == "SHADOW_OFFSET" then 2
    else if token == "SHADOW_ALPHA" then 3
    else if token == "SURFACE_ALT" then 4
    else if token == "SURFACE" then 5
    else if token == "ACCENT_ALT" then 6
    else if token == "ACCENT" then 7
    else if token == "TEXT_DIM" then 8
    else if token == "TEXT" then 9
    else if token == "BG" then 10
    else if token == "BORDER" then 11
    else if token == "ERROR" then 12
    else if token == "WARNING" then 13
    else if token == "SUCCESS" then 14
    else if token == "SEL_FG" then 15
    else 16
  }

  lemma FirstTokens()
    ensures TokenIndex("RADIUS") == 0 && TokenIndex("SHADOW_RADIUS") == 1
    ensures TokenIndex("SHADOW_OFFSET") == 2 && TokenIndex("SHADOW_ALPHA") == 3
    ensures TokenIndex("SURFACE_ALT") == 4 && TokenIndex("SURFACE") == 5
  {
  }

  lemma MiddleTokens()
    ensures TokenIndex("ACCENT_ALT") == 6 && TokenIndex("ACCENT") == 7
    ensures TokenIndex("TEXT_DIM") == 8 && TokenIndex("TEXT") == 9 && TokenIndex("BG") == 10
  {
  }

  lemma LastTokens()
    ensures TokenIndex("BORDER") == 11 && TokenIndex("ERROR") == 12 && TokenIndex("WARNING") == 13
    ensures TokenIndex("SUCCESS") == 14 && TokenIndex("SEL_FG") == 15
  {
  }

  lemma {:induction false} TokensInOrder(theme: Theme)
    ensures |ThemeBindings(theme)| == 16 && forall i :: 0 <= i < 16 ==> TokenIndex(ThemeBindings(theme)[i].name) == i
  {
    FirstTokens();
    MiddleTokens();
    LastTokens();
    hide TokenIndex, Decimal, Signed, PrintAlpha, ToHex;
  }

  lemma {:induction false} TokenIs(theme: Theme, i: nat)
    requires i < 16
    ensures |ThemeBindings(theme)| == 16
    ensures Lookup(ThemeBindings(theme)[i].name, ThemeBindings(theme)) == ThemeBindings(theme)[i].value
  {
    TokensInOrder(theme);
    hide ThemeBindings, TokenIndex;
    LookupAt(ThemeBindings(theme), i);
  }

  /** The text a token is replaced by. */
  function TokenText(theme: Theme, token: string): string {
    Lookup(token, ThemeBindings(theme))
  }

  /** The token is replaced by a text from which the colour can be read. */
  predicate ShowsColor(theme: Theme, token: string, c: Color) {
    var text := TokenText(theme, token);
    (|text| == 7 || |text| == 9) && ReadColor(text) == c
  }

  lemma {:induction false} GeometryTokens(theme: Theme)
    ensures TokenText(theme, "RADIUS") == Decimal(theme.cornerRadius)
    ensures TokenText(theme, "SHADOW_RADIUS") == Decimal(theme.shadowRadius)
    ensures TokenText(theme, "SHADOW_OFFSET") == Signed(theme.shadowOffset)
    ensures TokenText(theme, "SHADOW_ALPHA") == PrintAlpha(theme.shadowAlpha)
  {
    hide Decimal, Signed, PrintAlpha, ToHex, Lookup;
    var b := ThemeBindings(theme);
    assert b[0] == Binding("RADIUS", Decimal(theme.cornerRadius));
    assert b[1] == Binding("SHADOW_RADIUS", Decimal(theme.shadowRadius));
    assert b[2] == Binding("SHADOW_OFFSET", Signed(theme.shadowOffset));
    assert b[3] == Binding("SHADOW_ALPHA", PrintAlpha(theme.shadowAlpha));
    hide ThemeBindings;
    TokenIs(theme, 0);
    TokenIs(theme, 1);
    TokenIs(theme, 2);
    TokenIs(theme, 3);
  }

  lemma {:induction false} SurfaceTokens(theme: Theme)
    ensures TokenText(theme, "SURFACE_ALT") == ToHex(theme.surfaceAlt)
    ensures TokenText(theme, "SURFACE") == ToHex(theme.surface)
    ensures TokenText(theme, "ACCENT_ALT") == ToHex(theme.accentAlt)
    ensures TokenText(theme, "ACCENT") == ToHex(theme.accent)
  {
    hide Decimal, Signed, PrintAlpha, ToHex, Lookup;
    var b := ThemeBindings(theme);
    assert b[4] == Binding("SURFACE_ALT", ToHex(theme.surfaceAlt));
    assert b[5] == Binding("SURFACE", ToHex(theme.surface));
    assert b[6] == Binding("ACCENT_ALT", ToHex(theme.accentAlt));
    assert b[7] == Binding("ACCENT", ToHex(theme.accent));
    hide ThemeBindings;
    TokenIs(theme, 4);
    TokenIs(theme, 5);
    TokenIs(theme, 6);
    TokenIs(theme, 7);
  }

  lemma {:induction false} TextTokens(theme: Theme)
    ensures TokenText(theme, "TEXT_DIM") == ToHex(theme.textDim)
    ensures TokenText(theme, "TEXT") == ToHex(theme.text)
    ensures TokenText(theme, "BG") == ToHex(theme.background)
    ensures TokenText(theme, "BORDER") == ToHex(theme.border)
  {
    hide Decimal, Signed, PrintAlpha, ToHex, Lookup;
    var b := ThemeBindings(theme);
    assert b[8] == Binding("TEXT_DIM", ToHex(theme.textDim));
    assert b[9] == Binding("TEXT", ToHex(theme.text));
    assert b[10] == Binding("BG", ToHex(theme.background));
    assert b[11] == Binding("BORDER", ToHex(theme.border));
    hide ThemeBindings;
    TokenIs(theme, 8);
    TokenIs(theme, 9);
    TokenIs(theme, 10);
    TokenIs(theme, 11);
  }

  lemma {:induction false} StatusTokens(theme: Theme)
    ensures TokenText(theme, "ERROR") == ToHex(theme.error)
    ensures TokenText(theme, "WARNING") == ToHex(theme.warning)
    ensures TokenText(theme, "SUCCESS") == ToHex(theme.success)
    ensures TokenText(theme, "SEL_FG") == ToHex(theme.selectionForeground)
  {
    hide Decimal, Signed, PrintAlpha, ToHex, Lookup;
    var b := ThemeBindings(theme);
    assert b[12] == Binding("ERROR", ToHex(theme.error));
    assert b[13] == Binding("WARNING", ToHex(theme.warning));
    assert b[14] == Binding("SUCCESS", ToHex(theme.success));
    assert b[15] == Binding("SEL_FG", ToHex(theme.selectionForeground));
    hide ThemeBindings;
    TokenIs(theme, 12);
    TokenIs(theme, 13);
    TokenIs(theme, 14);
    TokenIs(theme, 15);
  }

  lemma {:induction false} ColorShown(theme: Theme, token: string, c: Color)
    requires TokenText(theme, token) == ToHex(c)
    ensures ShowsColor(theme, token, c)
  {
    HexReads(c);
    hide ToHex, TokenText, ReadColor;
  }

  /** Each token stands for its own part of the theme. */
  lemma {:induction false} TokensShowTheTheme(theme: Theme)
    ensures ReadDecimal(TokenText(theme, "RADIUS")) == theme.cornerRadius
    ensures ReadDecimal(TokenText(theme, "SHADOW_RADIUS")) == theme.shadowRadius
    ensures ReadSigned(TokenText(theme, "SHADOW_OFFSET")) == theme.shadowOffset
    ensures TokenText(theme, "SHADOW_ALPHA") == PrintAlpha(theme.shadowAlpha)
    ensures ShowsColor(theme, "SURFACE_ALT", theme.surfaceAlt) && ShowsColor(theme, "SURFACE", theme.surface)
    ensures ShowsColor(theme, "ACCENT_ALT", theme.accentAlt) && ShowsColor(theme, "ACCENT", theme.accent)
    ensures ShowsColor(theme, "TEXT_DIM", theme.textDim) && ShowsColor(theme, "TEXT", theme.text)
    ensures ShowsColor(theme, "BG", theme.background) && ShowsColor(theme, "BORDER", theme.border)
    ensures ShowsColor(theme, "ERROR", theme.error) && ShowsColor(theme, "WARNING", theme.warning)
    ensures ShowsColor(theme, "SUCCESS", theme.success) && ShowsColor(theme, "SEL_FG", theme.selectionForeground)
  {
    DecimalReads(theme.cornerRadius);
    DecimalReads(theme.shadowRadius);
    SignedReads(theme.shadowOffset);
    hide *;
    GeometryTokens(theme);
    SurfaceTokens(theme);
    TextTokens(theme);
    StatusTokens(theme);
    ColorShown(theme, "SURFACE_ALT", theme.surfaceAlt);
    ColorShown(theme, "SURFACE", theme.surface);
    ColorShown(theme, "ACCENT_ALT", theme.accentAlt);
    ColorShown(theme, "ACCENT", theme.accent);
    ColorShown(theme, "TEXT_DIM", theme.textDim);
    ColorShown(theme, "TEXT", theme.text);
    ColorShown(theme, "BG", theme.background);
    ColorShown(theme, "BORDER", theme.border);
    ColorShown(theme, "ERROR", theme.error);
    ColorShown(theme, "WARNING", theme.warning);
    ColorShown(theme, "SUCCESS", theme.success);
    ColorShown(theme, "SEL_FG", theme.selectionForeground);
  }

  // ----- Main results -----

  /**
   * For every theme: on a template that keeps its holes apart, or whose literals spell no name, the chain
   * is one simultaneous substitution, and no `@@` is left when all holes are bound.
   */
  lemma {:induction false} StyleSheetIsSimultaneous(t: Template, theme: Theme)
    requires Separated(t, false)
    requires Spaced(t, false, IsNameCharacter) || NoLiteralIsName(t, false, ThemeBindings(theme))
    ensures SubstituteTokens(Render(t), theme) == Simultaneous(t, ThemeBindings(theme))
    ensures Covered(t, ThemeBindings(theme)) ==> NoDelimiter(SubstituteTokens(Render(t), theme))
  {
    ThemeSubstitutable(theme);
    hide ThemeBindings;
    if Spaced(t, false, IsNameCharacter) {
      DelimiterFreeIsSimultaneous(t, ThemeBindings(theme), IsNameCharacter);
    } else {
      UnspelledIsSimultaneous(t, ThemeBindings(theme), IsNameCharacter);
    }
  }

  /** On any other template: exactly if no literal is taken for a token between two holes still open. */
  lemma {:induction false} StyleSheetIff(t: Template, theme: Theme)
    requires Separated(t, false) && HolesWithin(t, IsNameCharacter)
    ensures SubstituteTokens(Render(t), theme) == Simultaneous(t, ThemeBindings(theme))
       <==> ClashFree(t, ThemeBindings(theme))
  {
    ThemeSubstitutable(theme);
    hide ThemeBindings;
    ChainIff(t, ThemeBindings(theme), IsNameCharacter);
  }

  /** A template that clashes for every theme: the literal RADIUS is read as a token. */
  lemma {:induction false} LiteralTakenForToken(theme: Theme)
    ensures
      var t := Hole("", "BG", Hole("RADIUS", "TEXT", End("")));
      Separated(t, false) && SubstituteTokens(Render(t), theme) != Simultaneous(t, ThemeBindings(theme))
  {
    var t := Hole("", "BG", Hole("RADIUS", "TEXT", End("")));
    ClashingTemplate(t);
    FirstToken(theme);
    hide *;
    FirstNameClashes(t, ThemeBindings(theme));
    StyleSheetIff(t, theme);
  }

  lemma {:induction false} FirstToken(theme: Theme)
    ensures ThemeBindings(theme) != [] && ThemeBindings(theme)[0].name == "RADIUS"
  {
  }

  lemma {:induction false} FirstNameClashes(t: Template, bindings: seq<Binding>)
    requires t.Hole? && t.rest.Hole? && bindings != [] && bindings[0].name == t.rest.lit != t.name
    ensures !ClashFree(t, bindings)
  {
  }

  lemma {:induction false} ClashingTemplate(t: Template)
    requires t == Hole("", "BG", Hole("RADIUS", "TEXT", End("")))
    ensures Separated(t, false) && HolesWithin(t, IsNameCharacter) && t.rest.lit != t.name
  {
    assert t.name[0] == 'B' && t.rest.lit[0] == 'R';
  }
}
