/** The conversion of a VS Code colour theme into a Warp theme record
    (`ThemeConverter.convertTheme` and `extractColor`). */
module ThemeConverter {
  import opened Wrappers

  /** A parsed VS Code theme file, reduced to what the conversion looks at.
      `Falsy` is null, undefined, false, 0 or the empty string; `NonObject` is any
      other value whose `typeof` is not 'object'.  For an object, `colors` is
      None when its `colors` member is absent, falsy or not an object: every
      lookup in it then yields undefined. */
  datatype ThemeData =
    | Falsy
    | NonObject
    | Object(colors: Option<map<string, string>>)

  /** The eight colours of one ANSI group. */
  datatype AnsiColors = AnsiColors(
    black: string, red: string, green: string, yellow: string,
    blue: string, magenta: string, cyan: string, white: string)

  datatype TerminalColors = TerminalColors(normal: AnsiColors, bright: AnsiColors)

  datatype Metadata = Metadata(originUrl: string, name: string, author: string)

  /** The Warp theme record that is serialised to YAML. */
  datatype WarpTheme = WarpTheme(
    accent: string,
    background: string,
    foreground: string,
    details: string,
    terminalColors: TerminalColors,
    metadata: Metadata)

  const InvalidThemeData: string := "Failed to convert theme: Invalid theme data structure"

  /** `themeData.colors || {}` followed by `colors[token]`. */
  function ExtractColor(data: ThemeData, token: string): Option<string>
  {
    if data.Object? && data.colors.Some? && token in data.colors.value
    then Some(data.colors.value[token])
    else None
  }

  /** JavaScript's `value || default` on an optional string: undefined and the
      empty string both take the default. */
  function OrDefault(value: Option<string>, default: string): string
  {
    if value.Some? && value.value != "" then value.value else default
  }

  /** The conversion, field by field as the source builds its object literal. */
  function ConvertTheme(data: ThemeData, themeName: string): (r: Result<WarpTheme, string>)
    ensures r.Err? <==> !data.Object?
    ensures r.Err? ==> r.error == InvalidThemeData
    ensures r.Ok? ==> r.value.details == "darker"
    ensures r.Ok? ==> r.value.metadata.originUrl == "" && r.value.metadata.author == "vstowarp"
    ensures r.Ok? ==> |themeName| <= |r.value.metadata.name|
                      && r.value.metadata.name[..|themeName|] == themeName
                      && r.value.metadata.name[|themeName|..] == " (VS Code)"
  {
    if !data.Object? then
      Err(InvalidThemeData)
    else
      Ok(WarpTheme(
        accent := OrDefault(ExtractColor(data, "statusBar.background"), "#0f7fcf"),
        background := OrDefault(ExtractColor(data, "editor.background"), "#1f1f1f"),
        foreground := OrDefault(ExtractColor(data, "editor.foreground"), "#cccccc"),
        details := "darker",
        terminalColors := TerminalColors(
          normal := AnsiColors(
            black := OrDefault(ExtractColor(data, "terminal.ansiBlack"), "#000000"),
            red := OrDefault(ExtractColor(data, "terminal.ansiRed"), "#cd3131"),
            green := OrDefault(ExtractColor(data, "terminal.ansiGreen"), "#0dbc79"),
            yellow := OrDefault(ExtractColor(data, "terminal.ansiYellow"), "#e5e510"),
            blue := OrDefault(ExtractColor(data, "terminal.ansiBlue"), "#2472c8"),
            magenta := OrDefault(ExtractColor(data, "terminal.ansiMagenta"), "#bc3fbc"),
            cyan := OrDefault(ExtractColor(data, "terminal.ansiCyan"), "#11a8cd"),
            white := OrDefault(ExtractColor(data, "terminal.ansiWhite"), "#e5e5e5")),
          bright := AnsiColors(
            black := OrDefault(ExtractColor(data, "terminal.ansiBrightBlack"), "#666666"),
            red := OrDefault(ExtractColor(data, "terminal.ansiBrightRed"), "#f14c4c"),
            green := OrDefault(ExtractColor(data, "terminal.ansiBrightGreen"), "#23d18b"),
            yellow := OrDefault(ExtractColor(data, "terminal.ansiBrightYellow"), "#f5f543"),
            blue := OrDefault(ExtractColor(data, "terminal.ansiBrightBlue"), "#3b8eea"),
            magenta := OrDefault(ExtractColor(data, "terminal.ansiBrightMagenta"), "#d670d6"),
            cyan := OrDefault(ExtractColor(data, "terminal.ansiBrightCyan"), "#29b8db"),
            white := OrDefault(ExtractColor(data, "terminal.ansiBrightWhite"), "#e5e5e5"))),
        metadata := Metadata(
          originUrl := "",
          name := themeName + " (VS Code)",
          author := "vstowarp")))
  }

  // ---------------------------------------------------------------------------
  // The token table: each colour field of the output, the VS Code token it is
  // read from, and its fallback.  It is the reference the literal above is
  // checked against.

  datatype AnsiName = Black | Red | Green | Yellow | Blue | Magenta | Cyan | White

  /** One colour field of a Warp theme. */
  datatype Slot = Accent | Background | Foreground | Normal(ansi: AnsiName) | Bright(ansi: AnsiName)

  function Pick(c: AnsiColors, a: AnsiName): string
  {
    match a
    case Black => c.black
    case Red => c.red
    case Green => c.green
    case Yellow => c.yellow
    case Blue => c.blue
    case Magenta => c.magenta
    case Cyan => c.cyan
    case White => c.white
  }

  /** The value of one colour field of `t`. */
  function Field(t: WarpTheme, s: Slot): string
  {
    match s
    case Accent => t.accent
    case Background => t.background
    case Foreground => t.foreground
    case Normal(a) => Pick(t.terminalColors.normal, a)
    case Bright(a) => Pick(t.terminalColors.bright, a)
  }

  /** The VS Code colour token a field is read from. */
  function Token(s: Slot): string
  {
    match s
    case Accent => "statusBar.background"
    case Background => "editor.background"
    case Foreground => "editor.foreground"
    case Normal(a) => NormalToken(a)
    case Bright(a) => BrightToken(a)
  }

  function NormalToken(a: AnsiName): string
  {
    match a
    case Black => "terminal.ansiBlack"
    case Red => "terminal.ansiRed"
    case Green => "terminal.ansiGreen"
    case Yellow => "terminal.ansiYellow"
    case Blue => "terminal.ansiBlue"
    case Magenta => "terminal.ansiMagenta"
    case Cyan => "terminal.ansiCyan"
    case White => "terminal.ansiWhite"
  }

  function BrightToken(a: AnsiName): string
  {
    match a
    case Black => "terminal.ansiBrightBlack"
    case Red => "terminal.ansiBrightRed"
    case Green => "terminal.ansiBrightGreen"
    case Yellow => "terminal.ansiBrightYellow"
    case Blue => "terminal.ansiBrightBlue"
    case Magenta => "terminal.ansiBrightMagenta"
    case Cyan => "terminal.ansiBrightCyan"
    case White => "terminal.ansiBrightWhite"
  }

  /** The colour a field takes when its token is absent or empty. */
  function Default(s: Slot): string
  {
    match s
    case Accent => "#0f7fcf"
    case Background => "#1f1f1f"
    case Foreground => "#cccccc"
    case Normal(a) => NormalDefault(a)
    case Bright(a) => BrightDefault(a)
  }

  function NormalDefault(a: AnsiName): string
  {
    match a
    case Black => "#000000"
    case Red => "#cd3131"
    case Green => "#0dbc79"
    case Yellow => "#e5e510"
    case Blue => "#2472c8"
    case Magenta => "#bc3fbc"
    case Cyan => "#11a8cd"
    case White => "#e5e5e5"
  }

  function BrightDefault(a: AnsiName): string
  {
    match a
    case Black => "#666666"
    case Red => "#f14c4c"
    case Green => "#23d18b"
    case Yellow => "#f5f543"
    case Blue => "#3b8eea"
    case Magenta => "#d670d6"
    case Cyan => "#29b8db"
    case White => "#e5e5e5"
  }

  /** The value a field takes for the given theme data, by the table. */
  function Resolve(data: ThemeData, s: Slot): string
  {
    OrDefault(ExtractColor(data, Token(s)), Default(s))
  }

  predicate IsHexDigit(c: char)
  {
    '0' <= c <= '9' || 'a' <= c <= 'f'
  }

  /** A colour written `#rrggbb` with lower-case hexadecimal digits. */
  predicate IsHexColour(s: string)
  {
    |s| == 7 && s[0] == '#' && forall i :: 1 <= i < 7 ==> IsHexDigit(s[i])
  }

  // ---------------------------------------------------------------------------
  // Properties of the conversion.

  /** Every colour field of a converted theme is its own token's value, or its
      default when that token is absent or empty. */
  lemma FieldFromOwnToken(data: ThemeData, themeName: string, s: Slot)
    requires data.Object?
    ensures ConvertTheme(data, themeName).Ok?
    ensures Field(ConvertTheme(data, themeName).value, s) == Resolve(data, s)
  {
  }

  /** The slot a VS Code colour token fills, if any: the inverse of `Token`. */
  function SlotOfToken(token: string): Option<Slot>
  {
    if token == "statusBar.background" then Some(Accent)
    else if token == "editor.background" then Some(Background)
    else if token == "editor.foreground" then Some(Foreground)
    else if token == "terminal.ansiBlack" then Some(Normal(Black))
    else if token == "terminal.ansiRed" then Some(Normal(Red))
    else if token == "terminal.ansiGreen" then Some(Normal(Green))
    else if token == "terminal.ansiYellow" then Some(Normal(Yellow))
    else if token == "terminal.ansiBlue" then Some(Normal(Blue))
    else if token == "terminal.ansiMagenta" then Some(Normal(Magenta))
    else if token == "terminal.ansiCyan" then Some(Normal(Cyan))
    else if token == "terminal.ansiWhite" then Some(Normal(White))
    else if token == "terminal.ansiBrightBlack" then Some(Bright(Black))
    else if token == "terminal.ansiBrightRed" then Some(Bright(Red))
    else if token == "terminal.ansiBrightGreen" then Some(Bright(Green))
    else if token == "terminal.ansiBrightYellow" then Some(Bright(Yellow))
    else if token == "terminal.ansiBrightBlue" then Some(Bright(Blue))
    else if token == "terminal.ansiBrightMagenta" then Some(Bright(Magenta))
    else if token == "terminal.ansiBrightCyan" then Some(Bright(Cyan))
    else if token == "terminal.ansiBrightWhite" then Some(Bright(White))
    else None
  }

  /** Reading a field's token back gives the field: no two fields share a token. */
  lemma TokenRoundTrip(s: Slot)
    ensures SlotOfToken(Token(s)) == Some(s)
  {
  }


  /** With no `colors`, or none of the known tokens, every field is its default;
      these are the fallback colours of the object literal. */
  lemma NoKnownTokensGivesDefaults(data: ThemeData, themeName: string)
    requires data.Object?
    requires forall s: Slot :: ExtractColor(data, Token(s)).None?
    ensures ConvertTheme(data, themeName).Ok?
    ensures forall s: Slot :: Field(ConvertTheme(data, themeName).value, s) == Default(s)
  {
    forall s: Slot
      ensures Field(ConvertTheme(data, themeName).value, s) == Default(s)
    {
      FieldFromOwnToken(data, themeName, s);
    }
  }

  /** The whole record produced for a theme without `colors`. */
  lemma DefaultTheme(themeName: string)
    ensures ConvertTheme(Object(None), themeName) == Ok(WarpTheme(
      "#0f7fcf", "#1f1f1f", "#cccccc", "darker",
      TerminalColors(
        AnsiColors("#000000", "#cd3131", "#0dbc79", "#e5e510",
                   "#2472c8", "#bc3fbc", "#11a8cd", "#e5e5e5"),
        AnsiColors("#666666", "#f14c4c", "#23d18b", "#f5f543",
                   "#3b8eea", "#d670d6", "#29b8db", "#e5e5e5")),
      Metadata("", themeName + " (VS Code)", "vstowarp")))
  {
  }

  /** A known token with a non-empty value is copied verbatim into its field;
      one with the empty value falls back to the default, as `||` does. */
  lemma PresentTokenUsed(colors: map<string, string>, themeName: string, s: Slot)
    requires Token(s) in colors
    ensures colors[Token(s)] != "" ==>
              Field(ConvertTheme(Object(Some(colors)), themeName).value, s) == colors[Token(s)]
    ensures colors[Token(s)] == "" ==>
              Field(ConvertTheme(Object(Some(colors)), themeName).value, s) == Default(s)
  {
    FieldFromOwnToken(Object(Some(colors)), themeName, s);
  }

  /** A field depends on its own token only: two themes that agree on that
      token agree on that field, whatever else they hold. */
  lemma DependsOnlyOnOwnToken(d1: ThemeData, d2: ThemeData, themeName: string, s: Slot)
    requires d1.Object? && d2.Object?
    requires ExtractColor(d1, Token(s)) == ExtractColor(d2, Token(s))
    ensures Field(ConvertTheme(d1, themeName).value, s) == Field(ConvertTheme(d2, themeName).value, s)
  {
    FieldFromOwnToken(d1, themeName, s);
    FieldFromOwnToken(d2, themeName, s);
  }

  /** Two themes that agree on the nineteen tokens convert to the same record. */
  lemma SameTokensSameTheme(d1: ThemeData, d2: ThemeData, themeName: string)
    requires d1.Object? && d2.Object?
    requires forall s: Slot :: ExtractColor(d1, Token(s)) == ExtractColor(d2, Token(s))
    ensures ConvertTheme(d1, themeName) == ConvertTheme(d2, themeName)
  {
    var t1, t2 := ConvertTheme(d1, themeName).value, ConvertTheme(d2, themeName).value;
    forall s: Slot ensures Field(t1, s) == Field(t2, s) {
      DependsOnlyOnOwnToken(d1, d2, themeName, s);
    }
    SameFieldsSameTheme(t1, t2);
  }

  /** Adding or changing a key that is not one of the nineteen tokens leaves
      the converted theme unchanged. */
  lemma UnknownKeyIgnored(colors: map<string, string>, key: string, value: string, themeName: string)
    requires SlotOfToken(key).None?
    ensures ConvertTheme(Object(Some(colors[key := value])), themeName)
         == ConvertTheme(Object(Some(colors)), themeName)
  {
    forall s: Slot
      ensures ExtractColor(Object(Some(colors[key := value])), Token(s))
           == ExtractColor(Object(Some(colors)), Token(s))
    {
      TokenRoundTrip(s);
    }
    SameTokensSameTheme(Object(Some(colors[key := value])), Object(Some(colors)), themeName);
  }

  /** Two themes with the same details, metadata and colour fields are equal. */
  lemma SameFieldsSameTheme(t1: WarpTheme, t2: WarpTheme)
    requires t1.details == t2.details && t1.metadata == t2.metadata
    requires forall s: Slot :: Field(t1, s) == Field(t2, s)
    ensures t1 == t2
  {
    assert Field(t1, Accent) == Field(t2, Accent);
    assert Field(t1, Background) == Field(t2, Background);
    assert Field(t1, Foreground) == Field(t2, Foreground);
    forall a: AnsiName
      ensures Pick(t1.terminalColors.normal, a) == Pick(t2.terminalColors.normal, a)
      ensures Pick(t1.terminalColors.bright, a) == Pick(t2.terminalColors.bright, a)
    {
      assert Field(t1, Normal(a)) == Field(t2, Normal(a));
      assert Field(t1, Bright(a)) == Field(t2, Bright(a));
    }
    SamePicksSameColours(t1.terminalColors.normal, t2.terminalColors.normal);
    SamePicksSameColours(t1.terminalColors.bright, t2.terminalColors.bright);
  }

  lemma SamePicksSameColours(c1: AnsiColors, c2: AnsiColors)
    requires forall a: AnsiName :: Pick(c1, a) == Pick(c2, a)
    ensures c1 == c2
  {
    assert Pick(c1, Black) == Pick(c2, Black);
    assert Pick(c1, Red) == Pick(c2, Red);
    assert Pick(c1, Green) == Pick(c2, Green);
    assert Pick(c1, Yellow) == Pick(c2, Yellow);
    assert Pick(c1, Blue) == Pick(c2, Blue);
    assert Pick(c1, Magenta) == Pick(c2, Magenta);
    assert Pick(c1, Cyan) == Pick(c2, Cyan);
    assert Pick(c1, White) == Pick(c2, White);
  }

  /** Every colour field of a converted theme, in particular every terminal
      colour, is a non-empty string. */
  lemma ColoursNonEmpty(data: ThemeData, themeName: string, s: Slot)
    requires data.Object?
    ensures Field(ConvertTheme(data, themeName).value, s) != ""
  {
    FieldFromOwnToken(data, themeName, s);
    DefaultIsHexColour(s);
  }

  /** Every fallback is a `#rrggbb` colour. */
  lemma DefaultIsHexColour(s: Slot)
    ensures IsHexColour(Default(s))
  {
  }
}
