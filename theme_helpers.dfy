/** The helpers around the conversion: the file name a Warp theme is saved
    under, the list of installed themes, and the lookups that pick the theme
    to convert (`saveWarpTheme`, `getAllInstalledThemes`,
    `getThemeDataFromExtension` and `convertTheme`). */
module ThemeHelpers {
  import opened Wrappers
  import opened ThemeConverter

  // ---------------------------------------------------------------------------
  // File names.  A `char` is a Unicode scalar value: for names in the Basic
  // Multilingual Plane with no lone surrogates, one UTF-16 code unit.

  predicate IsAsciiUpper(c: char) { 'A' <= c <= 'Z' }

  predicate IsAsciiLower(c: char) { 'a' <= c <= 'z' }

  predicate IsDigit(c: char) { '0' <= c <= '9' }

  /** The characters the pattern `/[^a-z0-9_-]/gi` leaves alone: without the
      `u` flag, case-insensitive matching relates ASCII letters only. */
  predicate InNameClass(c: char)
  {
    IsAsciiLower(c) || IsAsciiUpper(c) || IsDigit(c) || c == '_' || c == '-'
  }

  /** The characters a sanitised name is made of: `[a-z0-9_-]`. */
  predicate IsFileNameChar(c: char)
  {
    IsAsciiLower(c) || IsDigit(c) || c == '_' || c == '-'
  }

  /** `s.replace(/[^a-z0-9_-]/gi, '_')`. */
  function ReplaceDisallowed(s: string): string
  {
    if s == [] then []
    else [if InNameClass(s[0]) then s[0] else '_'] + ReplaceDisallowed(s[1..])
  }

  function ToLowerAscii(c: char): char
  {
    if IsAsciiUpper(c) then c - 'A' + 'a' else c
  }

  /** `s.toLowerCase()` on a string whose characters are all ASCII, which is
      all it is applied to here. */
  function LowerAscii(s: string): string
  {
    if s == [] then [] else [ToLowerAscii(s[0])] + LowerAscii(s[1..])
  }

  /** The sanitised theme name of `saveWarpTheme`. */
  function SanitizeName(themeName: string): string
  {
    LowerAscii(ReplaceDisallowed(themeName))
  }

  /** The name of the file a theme is saved to, inside the Warp themes directory. */
  function ThemeFileName(themeName: string): string
  {
    SanitizeName(themeName) + ".yaml"
  }

  /** What sanitising does to one character, stated case by case: a character of
      `[a-z0-9_-]` is kept, an ASCII capital is lowered, anything else becomes `_`. */
  function SanitizeChar(c: char): char
  {
    if IsFileNameChar(c) then c
    else if IsAsciiUpper(c) then c - 'A' + 'a'
    else '_'
  }

  lemma {:induction false} ReplaceDisallowedAt(s: string, i: int)
    requires 0 <= i < |s|
    ensures |ReplaceDisallowed(s)| == |s|
    ensures ReplaceDisallowed(s)[i] == if InNameClass(s[i]) then s[i] else '_'
  {
    if i == 0 {
      ReplaceDisallowedLength(s[1..]);
    } else {
      ReplaceDisallowedAt(s[1..], i - 1);
    }
  }

  lemma {:induction false} ReplaceDisallowedLength(s: string)
    ensures |ReplaceDisallowed(s)| == |s|
  {
    if s != [] {
      ReplaceDisallowedLength(s[1..]);
    }
  }

  lemma {:induction false} LowerAsciiAt(s: string, i: int)
    requires 0 <= i < |s|
    ensures |LowerAscii(s)| == |s|
    ensures LowerAscii(s)[i] == ToLowerAscii(s[i])
  {
    if i == 0 {
      LowerAsciiLength(s[1..]);
    } else {
      LowerAsciiAt(s[1..], i - 1);
    }
  }

  lemma {:induction false} LowerAsciiLength(s: string)
    ensures |LowerAscii(s)| == |s|
  {
    if s != [] {
      LowerAsciiLength(s[1..]);
    }
  }

  /** The replacement is one character for one, so the sanitised name is as
      long as the theme name. */
  lemma SanitizeNameLength(themeName: string)
    ensures |SanitizeName(themeName)| == |themeName|
  {
    ReplaceDisallowedLength(themeName);
    LowerAsciiLength(ReplaceDisallowed(themeName));
  }

  /** Sanitising works character by character, as `SanitizeChar` says. */
  lemma SanitizeNameAt(themeName: string, i: int)
    requires 0 <= i < |themeName|
    ensures |SanitizeName(themeName)| == |themeName|
    ensures SanitizeName(themeName)[i] == SanitizeChar(themeName[i])
  {
    ReplaceDisallowedAt(themeName, i);
    LowerAsciiAt(ReplaceDisallowed(themeName), i);
  }

  /** Every character of a sanitised name is in `[a-z0-9_-]`. */
  lemma SanitizeNameAlphabet(themeName: string)
    ensures forall i :: 0 <= i < |SanitizeName(themeName)| ==> IsFileNameChar(SanitizeName(themeName)[i])
  {
    SanitizeNameLength(themeName);
    forall i | 0 <= i < |SanitizeName(themeName)|
      ensures IsFileNameChar(SanitizeName(themeName)[i])
    {
      SanitizeNameAt(themeName, i);
    }
  }

  /** A name is left unchanged by sanitising exactly when it is already made
      of `[a-z0-9_-]`. */
  lemma SanitizeNameFixpoint(s: string)
    ensures SanitizeName(s) == s <==> forall i :: 0 <= i < |s| ==> IsFileNameChar(s[i])
  {
    SanitizeNameLength(s);
    if forall i :: 0 <= i < |s| ==> IsFileNameChar(s[i]) {
      forall i | 0 <= i < |s| ensures SanitizeName(s)[i] == s[i] {
        SanitizeNameAt(s, i);
      }
    } else {
      SanitizeNameAlphabet(s);
    }
  }

  /** Sanitising a sanitised name changes nothing. */
  lemma SanitizeNameIdempotent(themeName: string)
    ensures SanitizeName(SanitizeName(themeName)) == SanitizeName(themeName)
  {
    SanitizeNameAlphabet(themeName);
    SanitizeNameFixpoint(SanitizeName(themeName));
  }

  /** The file name is the sanitised name followed by `.yaml`. */
  lemma ThemeFileNameShape(themeName: string)
    ensures |ThemeFileName(themeName)| == |themeName| + 5
    ensures ThemeFileName(themeName)[..|themeName|] == SanitizeName(themeName)
    ensures ThemeFileName(themeName)[|themeName|..] == ".yaml"
  {
    SanitizeNameLength(themeName);
  }

  /** Two themes are saved to the same file exactly when their names have the
      same length and sanitise alike character by character: every other
      character, and the case of ASCII letters, is lost. */
  lemma SameFileNameIff(a: string, b: string)
    ensures ThemeFileName(a) == ThemeFileName(b)
        <==> |a| == |b| && forall i :: 0 <= i < |a| ==> SanitizeChar(a[i]) == SanitizeChar(b[i])
  {
    SanitizeNameLength(a);
    SanitizeNameLength(b);
    if ThemeFileName(a) == ThemeFileName(b) {
      assert SanitizeName(a) == ThemeFileName(a)[..|a|] == ThemeFileName(b)[..|b|] == SanitizeName(b);
      forall i | 0 <= i < |a| ensures SanitizeChar(a[i]) == SanitizeChar(b[i]) {
        SanitizeNameAt(a, i);
        SanitizeNameAt(b, i);
      }
    }
    if |a| == |b| && forall i :: 0 <= i < |a| ==> SanitizeChar(a[i]) == SanitizeChar(b[i]) {
      forall i | 0 <= i < |a| ensures SanitizeName(a)[i] == SanitizeName(b)[i] {
        SanitizeNameAt(a, i);
        SanitizeNameAt(b, i);
      }
      assert SanitizeName(a) == SanitizeName(b);
    }
  }

  // ---------------------------------------------------------------------------
  // Installed themes.

  /** One entry of an extension's `contributes.themes`. */
  datatype ThemeContribution = ThemeContribution(themeLabel: Option<string>, id: Option<string>, path: Option<string>)

  /** An installed extension: where it lives, and its `contributes.themes`
      (None when `contributes` or `contributes.themes` is missing or falsy). */
  datatype Extension = Extension(extensionPath: string, themes: Option<seq<ThemeContribution>>)

  /** An entry of the list of installed themes. */
  datatype InstalledTheme = InstalledTheme(themeLabel: string, extension: Extension)

  /** `if (theme.label)`: a label that is present and not empty. */
  predicate HasLabel(t: ThemeContribution)
  {
    t.themeLabel.Some? && t.themeLabel.value != ""
  }

  /** The labelled contributions among `ts`, in order, as entries of `e`. */
  function Labelled(e: Extension, ts: seq<ThemeContribution>): seq<InstalledTheme>
  {
    if ts == [] then []
    else (if HasLabel(ts[0]) then [InstalledTheme(ts[0].themeLabel.value, e)] else [])
         + Labelled(e, ts[1..])
  }

  /** The entries one extension adds to the list. */
  function ContributedThemes(e: Extension): seq<InstalledTheme>
  {
    match e.themes
    case None => []
    case Some(ts) => Labelled(e, ts)
  }

  /** The list of installed themes: extension order, then contribution order. */
  function InstalledThemes(exts: seq<Extension>): seq<InstalledTheme>
  {
    if exts == [] then [] else ContributedThemes(exts[0]) + InstalledThemes(exts[1..])
  }

  lemma {:induction false} LabelledAppend(e: Extension, a: seq<ThemeContribution>, b: seq<ThemeContribution>)
    ensures Labelled(e, a + b) == Labelled(e, a) + Labelled(e, b)
  {
    if a == [] {
      assert a + b == b;
    } else {
      assert (a + b)[0] == a[0];
      assert (a + b)[1..] == a[1..] + b;
      LabelledAppend(e, a[1..], b);
    }
  }

  /** Listing the extensions of `a + b` lists those of `a`, then those of `b`. */
  lemma {:induction false} InstalledThemesAppend(a: seq<Extension>, b: seq<Extension>)
    ensures InstalledThemes(a + b) == InstalledThemes(a) + InstalledThemes(b)
  {
    if a == [] {
      assert a + b == b;
    } else {
      assert (a + b)[0] == a[0];
      assert (a + b)[1..] == a[1..] + b;
      InstalledThemesAppend(a[1..], b);
    }
  }

  lemma LabelledStep(e: Extension, ts: seq<ThemeContribution>, j: int)
    requires 0 <= j < |ts|
    ensures Labelled(e, ts[..j + 1])
         == Labelled(e, ts[..j]) + (if HasLabel(ts[j]) then [InstalledTheme(ts[j].themeLabel.value, e)] else [])
  {
    assert ts[..j + 1] == ts[..j] + [ts[j]];
    LabelledAppend(e, ts[..j], [ts[j]]);
  }

  lemma InstalledThemesStep(exts: seq<Extension>, i: int)
    requires 0 <= i < |exts|
    ensures InstalledThemes(exts[..i + 1]) == InstalledThemes(exts[..i]) + ContributedThemes(exts[i])
  {
    assert exts[..i + 1] == exts[..i] + [exts[i]];
    InstalledThemesAppend(exts[..i], [exts[i]]);
  }

  /** `getAllInstalledThemes`: the nested loops over extensions and their theme
      contributions, pushing every labelled one. */
  method GetAllInstalledThemes(exts: seq<Extension>) returns (themes: seq<InstalledTheme>)
    ensures themes == InstalledThemes(exts)
  {
    themes := [];
    for i := 0 to |exts|
      invariant themes == InstalledThemes(exts[..i])
    {
      var extension := exts[i];
      InstalledThemesStep(exts, i);
      if extension.themes.None? {
        continue;
      }
      var contributions := extension.themes.value;
      ghost var before := themes;
      for j := 0 to |contributions|
        invariant themes == before + Labelled(extension, contributions[..j])
      {
        var theme := contributions[j];
        LabelledStep(extension, contributions, j);
        if HasLabel(theme) {
          themes := themes + [InstalledTheme(theme.themeLabel.value, extension)];
        }
      }
      assert contributions[..|contributions|] == contributions;
    }
    assert exts[..|exts|] == exts;
  }

  /** Entry `t` comes from the `j`-th theme contribution of the `i`-th extension,
      which has a label. */
  ghost predicate ListedFrom(exts: seq<Extension>, i: int, j: int, t: InstalledTheme)
  {
    0 <= i < |exts| && exts[i].themes.Some? && 0 <= j < |exts[i].themes.value|
    && HasLabel(exts[i].themes.value[j])
    && t == InstalledTheme(exts[i].themes.value[j].themeLabel.value, exts[i])
  }

  /** Entry `t` comes from the `j`-th contribution among `ts`, which has a label. */
  ghost predicate LabelledFrom(e: Extension, ts: seq<ThemeContribution>, j: int, t: InstalledTheme)
  {
    0 <= j < |ts| && HasLabel(ts[j]) && t == InstalledTheme(ts[j].themeLabel.value, e)
  }

  lemma {:induction false} LabelledMembership(e: Extension, ts: seq<ThemeContribution>, t: InstalledTheme)
    ensures t in Labelled(e, ts) <==> exists j :: LabelledFrom(e, ts, j, t)
  {
    if ts != [] {
      var head := if HasLabel(ts[0]) then [InstalledTheme(ts[0].themeLabel.value, e)] else [];
      assert Labelled(e, ts) == head + Labelled(e, ts[1..]);
      LabelledMembership(e, ts[1..], t);
      if t in head {
        assert LabelledFrom(e, ts, 0, t);
      } else if t in Labelled(e, ts[1..]) {
        var j :| LabelledFrom(e, ts[1..], j, t);
        assert LabelledFrom(e, ts, j + 1, t);
      }
      if exists j :: LabelledFrom(e, ts, j, t) {
        var j :| LabelledFrom(e, ts, j, t);
        if j > 0 {
          assert LabelledFrom(e, ts[1..], j - 1, t);
        } else {
          assert t in head;
        }
      }
    }
  }

  /** The list holds exactly the labelled theme contributions of the extensions
      that have `contributes.themes`. */
  lemma {:induction false} InstalledThemesExactlyLabelled(exts: seq<Extension>, t: InstalledTheme)
    ensures t in InstalledThemes(exts) <==> exists i, j :: ListedFrom(exts, i, j, t)
  {
    if exts != [] {
      var rest := exts[1..];
      InstalledThemesExactlyLabelled(rest, t);
      if t in ContributedThemes(exts[0]) {
        LabelledMembership(exts[0], exts[0].themes.value, t);
        var j :| LabelledFrom(exts[0], exts[0].themes.value, j, t);
        assert ListedFrom(exts, 0, j, t);
      } else if t in InstalledThemes(rest) {
        var i, j :| ListedFrom(rest, i, j, t);
        assert rest[i] == exts[i + 1];
        assert ListedFrom(exts, i + 1, j, t);
      }
      if exists i, j :: ListedFrom(exts, i, j, t) {
        var i, j :| ListedFrom(exts, i, j, t);
        if i == 0 {
          LabelledMembership(exts[0], exts[0].themes.value, t);
          assert LabelledFrom(exts[0], exts[0].themes.value, j, t);
        } else {
          assert rest[i - 1] == exts[i];
          assert ListedFrom(rest, i - 1, j, t);
        }
      }
    }
  }

  // ---------------------------------------------------------------------------
  // Lookups.

  /** The index of the first element satisfying `p`, as `Array.prototype.find`
      searches. */
  function FirstMatch<T>(s: seq<T>, p: T -> bool): (r: Option<nat>)
    ensures r.None? <==> forall i :: 0 <= i < |s| ==> !p(s[i])
    ensures r.Some? ==> r.value < |s| && p(s[r.value])
                        && forall i :: 0 <= i < r.value ==> !p(s[i])
  {
    if s == [] then None
    else if p(s[0]) then Some(0)
    else match FirstMatch(s[1..], p)
      case None => None
      case Some(k) => Some(k + 1)
  }

  /** The theme files on disk, by extension directory and the contribution's
      relative `path`: either parsed JSON or a file `JSON.parse` rejects. */
  datatype ThemeFile = Parsed(data: ThemeData) | Unparsable

  type Files = map<(string, string), ThemeFile>

  /** The failures of looking up, reading and converting one theme. */
  datatype HelperError =
    | ThemeNotFound(themeName: string)        // no installed theme has this label
    | NoThemeData(themeName: string)          // the extension gave no theme data
    | MissingPath                             // the contribution has no `path`
    | ThemeFileMissing(extensionPath: string, path: string)
    | ThemeFileUnparsable(extensionPath: string, path: string)
    | ConversionFailed(message: string)

  /** `t.themeLabel === themeName || t.id === themeName`. */
  predicate LabelOrIdIs(themeName: string, t: ThemeContribution)
  {
    t.themeLabel == Some(themeName) || t.id == Some(themeName)
  }

  /** `getThemeDataFromExtension`: None stands for its `null`. */
  function GetThemeDataFromExtension(ext: Extension, themeName: string, files: Files)
    : (r: Result<Option<ThemeData>, HelperError>)
    ensures r == Ok(None) <==>
              ext.themes.None? || forall j :: 0 <= j < |ext.themes.value| ==> !LabelOrIdIs(themeName, ext.themes.value[j])
    ensures r.Ok? && r.value.Some? ==>
              exists j :: 0 <= j < |ext.themes.value| && LabelOrIdIs(themeName, ext.themes.value[j])
                          && (forall i :: 0 <= i < j ==> !LabelOrIdIs(themeName, ext.themes.value[i]))
                          && ext.themes.value[j].path.Some?
                          && (ext.extensionPath, ext.themes.value[j].path.value) in files
                          && files[(ext.extensionPath, ext.themes.value[j].path.value)] == Parsed(r.value.value)
    ensures r.Err? ==> ext.themes.Some? && exists j :: 0 <= j < |ext.themes.value| && LabelOrIdIs(themeName, ext.themes.value[j])
  {
    match ext.themes
    case None => Ok(None)
    case Some(contributions) =>
      match FirstMatch(contributions, (t: ThemeContribution) => LabelOrIdIs(themeName, t))
      case None => Ok(None)
      case Some(k) =>
        var contribution := contributions[k];
        if contribution.path.None? then Err(MissingPath)
        else
          var key := (ext.extensionPath, contribution.path.value);
          if key !in files then Err(ThemeFileMissing(key.0, key.1))
          else match files[key]
            case Unparsable => Err(ThemeFileUnparsable(key.0, key.1))
            case Parsed(data) => Ok(Some(data))
  }

  /** What the first contribution matching by label or id yields: its file's
      data when its `path` names a parsable file, and otherwise the error for
      a missing `path`, a missing file or an unparsable file. */
  lemma ThemeDataFromFirstMatch(ext: Extension, themeName: string, files: Files, j: int)
    requires ext.themes.Some? && 0 <= j < |ext.themes.value|
    requires LabelOrIdIs(themeName, ext.themes.value[j])
    requires forall i :: 0 <= i < j ==> !LabelOrIdIs(themeName, ext.themes.value[i])
    ensures var c := ext.themes.value[j];
            var r := GetThemeDataFromExtension(ext, themeName, files);
            && (c.path.None? ==> r == Err(MissingPath))
            && (c.path.Some? && (ext.extensionPath, c.path.value) !in files ==>
                  r == Err(ThemeFileMissing(ext.extensionPath, c.path.value)))
            && (c.path.Some? && (ext.extensionPath, c.path.value) in files ==>
                  match files[(ext.extensionPath, c.path.value)]
                  case Unparsable => r == Err(ThemeFileUnparsable(ext.extensionPath, c.path.value))
                  case Parsed(data) => r == Ok(Some(data)))
  {
    var matches := (t: ThemeContribution) => LabelOrIdIs(themeName, t);
    assert matches(ext.themes.value[j]);
    assert FirstMatch(ext.themes.value, matches) == Some(j);
  }

  /** A converted theme and the file name it is saved under. */
  datatype ExportedTheme = ExportedTheme(fileName: string, theme: WarpTheme)

  /** The helper `convertTheme`: find the first installed theme with the label,
      read its data from its extension, convert it and name its file. */
  function ConvertThemeByName(exts: seq<Extension>, themeName: string, files: Files)
    : (r: Result<ExportedTheme, HelperError>)
    ensures r == Err(ThemeNotFound(themeName)) <==>
              forall k :: 0 <= k < |InstalledThemes(exts)| ==> InstalledThemes(exts)[k].themeLabel != themeName
    ensures r.Ok? ==> r.value.fileName == ThemeFileName(themeName)
                      && r.value.theme.metadata.name == themeName + " (VS Code)"
  {
    var allThemes := InstalledThemes(exts);
    match FirstMatch(allThemes, (t: InstalledTheme) => t.themeLabel == themeName)
    case None => Err(ThemeNotFound(themeName))
    case Some(k) =>
      var themeMatch := allThemes[k];
      match GetThemeDataFromExtension(themeMatch.extension, themeMatch.themeLabel, files)
      case Err(e) => Err(e)
      case Ok(None) => Err(NoThemeData(themeName))
      case Ok(Some(data)) =>
        if data.Falsy? then Err(NoThemeData(themeName))
        else match ConvertTheme(data, themeName)
          case Err(message) => Err(ConversionFailed(message))
          case Ok(warpTheme) => Ok(ExportedTheme(ThemeFileName(themeName), warpTheme))
  }

  /** No entry of the list has an empty label. */
  lemma InstalledLabelsNonEmpty(exts: seq<Extension>, k: int)
    requires 0 <= k < |InstalledThemes(exts)|
    ensures InstalledThemes(exts)[k].themeLabel != ""
  {
    var t := InstalledThemes(exts)[k];
    InstalledThemesExactlyLabelled(exts, t);
  }

  /** Some extension contributes a theme labelled `themeName`. */
  ghost predicate Contributes(exts: seq<Extension>, themeName: string)
  {
    exists i, j :: 0 <= i < |exts| && exts[i].themes.Some? && 0 <= j < |exts[i].themes.value|
                   && exts[i].themes.value[j].themeLabel == Some(themeName)
  }

  /** The lookup by label fails with "not found" exactly when no extension
      contributes a theme with that label, or the label asked for is empty
      (an empty label is never listed). */
  lemma NotFoundIffNotContributed(exts: seq<Extension>, themeName: string, files: Files)
    ensures ConvertThemeByName(exts, themeName, files) == Err(ThemeNotFound(themeName))
        <==> themeName == "" || !Contributes(exts, themeName)
  {
    var all := InstalledThemes(exts);
    if themeName == "" {
      forall k | 0 <= k < |all| ensures all[k].themeLabel != themeName {
        InstalledLabelsNonEmpty(exts, k);
      }
    } else if Contributes(exts, themeName) {
      var i, j :| 0 <= i < |exts| && exts[i].themes.Some? && 0 <= j < |exts[i].themes.value|
                  && exts[i].themes.value[j].themeLabel == Some(themeName);
      var t := InstalledTheme(themeName, exts[i]);
      assert ListedFrom(exts, i, j, t);
      InstalledThemesExactlyLabelled(exts, t);
      var k :| 0 <= k < |all| && all[k] == t;
      assert all[k].themeLabel == themeName;
    } else {
      forall k | 0 <= k < |all| ensures all[k].themeLabel != themeName {
        InstalledThemesExactlyLabelled(exts, all[k]);
        var i, j :| ListedFrom(exts, i, j, all[k]);
      }
    }
  }

  /** An empty theme name is never found. */
  lemma EmptyNameNotFound(exts: seq<Extension>, files: Files)
    ensures ConvertThemeByName(exts, "", files) == Err(ThemeNotFound(""))
  {
    NotFoundIffNotContributed(exts, "", files);
  }

  /** Once the first listed entry with the label is found, the outcome is
      decided by reading its extension: a read error is passed on, no data or
      falsy data is "no theme data", data that is not an object fails
      conversion, and an object is converted and named after the theme.  In
      particular the lookup succeeds exactly when that read gives an object. */
  lemma ConvertUsesFirstMatch(exts: seq<Extension>, themeName: string, files: Files, k: int)
    requires 0 <= k < |InstalledThemes(exts)|
    requires InstalledThemes(exts)[k].themeLabel == themeName
    requires forall i :: 0 <= i < k ==> InstalledThemes(exts)[i].themeLabel != themeName
    ensures var read := GetThemeDataFromExtension(InstalledThemes(exts)[k].extension, themeName, files);
            var r := ConvertThemeByName(exts, themeName, files);
            && (r.Ok? <==> read.Ok? && read.value.Some? && read.value.value.Object?)
            && (read.Err? ==> r == Err(read.error))
            && (read == Ok(None) || read == Ok(Some(Falsy)) ==> r == Err(NoThemeData(themeName)))
            && (read == Ok(Some(NonObject)) ==> r == Err(ConversionFailed(InvalidThemeData)))
            && (read.Ok? && read.value.Some? && read.value.value.Object? ==>
                  r == Ok(ExportedTheme(ThemeFileName(themeName), ConvertTheme(read.value.value, themeName).value)))
  {
    var all := InstalledThemes(exts);
    var labelled := (t: InstalledTheme) => t.themeLabel == themeName;
    assert labelled(all[k]);
    assert FirstMatch(all, labelled) == Some(k);
  }

  /** The entry is found by its label, but the extension is then searched by
      label or id: an earlier contribution whose id is the requested label is
      the one read.  Here "Foo" is converted from the file of the theme
      labelled "Bar". */
  lemma IdMatchReadFirst()
    ensures var exts := [Extension("/ext", Some([
                          ThemeContribution(Some("Bar"), Some("Foo"), Some("bar.json")),
                          ThemeContribution(Some("Foo"), None, Some("foo.json"))]))];
            var files := map[
                          ("/ext", "bar.json") := Parsed(Object(Some(map["editor.background" := "#101010"]))),
                          ("/ext", "foo.json") := Parsed(Object(Some(map["editor.background" := "#202020"])))];
            var r := ConvertThemeByName(exts, "Foo", files);
            r.Ok? && r.value.theme.background == "#101010"
  {
    var bar := ThemeContribution(Some("Bar"), Some("Foo"), Some("bar.json"));
    var foo := ThemeContribution(Some("Foo"), None, Some("foo.json"));
    var ext := Extension("/ext", Some([bar, foo]));
    assert [bar, foo][1..] == [foo];
    assert Labelled(ext, [foo]) == [InstalledTheme("Foo", ext)];
    assert Labelled(ext, [bar, foo]) == [InstalledTheme("Bar", ext), InstalledTheme("Foo", ext)];
    assert [ext][1..] == [];
    assert InstalledThemes([ext]) == [InstalledTheme("Bar", ext), InstalledTheme("Foo", ext)];
  }
}
