# vstowarp: VS Code theme conversion, modelled in Dafny

vstowarp is a VS Code extension that exports colour themes to the Warp
terminal. This project models two parts of it:

- **The conversion** (`ThemeConverter.convertTheme` and `extractColor`,
  module `ThemeConverter`, file `theme_converter.dfy`). It maps a parsed
  VS Code theme to a Warp theme record. Nineteen colour tokens are read from
  the theme's `colors`: `statusBar.background`, `editor.background`,
  `editor.foreground` and the sixteen `terminal.ansi*` /
  `terminal.ansiBright*` tokens. Each token falls back to a fixed colour when
  it is absent or empty (JavaScript's `||`). `details` is always `darker`, and
  the `metadata` block is fixed apart from its `name`. Input that is falsy or
  not an object is rejected with "Invalid theme data structure".
  - `ConvertTheme` is written field by field like the source's object literal.
  - A separate token table (`Slot`, `Token`, `Default`, `Field`) is the
    reference it is proved against.
- **The helpers** (module `ThemeHelpers`, file `theme_helpers.dfy`):
  - the file name a theme is saved under: the name with every character
    outside `[A-Za-z0-9_-]` replaced by `_`, then lowercased, then `.yaml`;
  - `getAllInstalledThemes`: an imperative method with the source's two
    nested loops, proved equal to a flatten-and-filter function
    (`InstalledThemes`);
  - the `find` lookups: by label in `convertTheme`, by label or id in
    `getThemeDataFromExtension`.

  Extensions are plain values: a path and an optional list of theme
  contributions, each with an optional `label`, `id` and `path`. Reading theme
  files is a map from (extension directory, relative path) to the parsed JSON
  or to "unparsable".

`Wrappers` (file `wrappers.dfy`) holds the `Option` and `Result` datatypes.

A sanitised name can be empty. The empty theme name gives the file `.yaml`
(`ThemeFileNameShape`).

## Model

| member | source | states |
|---|---|---|
| `ThemeConverter.ConvertTheme` | src/themeConverter.ts:8-53 | input that is falsy or not an object, and only that, is rejected with "Failed to convert theme: Invalid theme data structure"; on success `details` is `darker`, `origin_url` is empty, `author` is `vstowarp`, and `name` is the theme name followed by ` (VS Code)`, so it contains the theme name |
| `ThemeConverter.FieldFromOwnToken` | src/themeConverter.ts:16-39 | each of the 19 colour fields equals its own token's value from `colors`, or that field's default when the token is absent or empty |
| `ThemeConverter.PresentTokenUsed` | src/themeConverter.ts:56-64 | a known token with a non-empty value is copied verbatim into its field; an empty value falls back to the default, as `||` does |
| `ThemeConverter.NoKnownTokensGivesDefaults` | src/themeConverter.ts:16-39 | with no `colors`, or none of the 19 tokens present, every colour field is its default |
| `ThemeConverter.DefaultTheme` | src/themeConverter.ts:15-47 | the complete record for a theme without `colors`: accent `#0f7fcf`, background `#1f1f1f`, foreground `#cccccc`, normal red `#cd3131`, bright black `#666666`, and the rest of the fallback colours of the object literal |
| `ThemeConverter.DependsOnlyOnOwnToken` | src/themeConverter.ts:16-39 | two themes that agree on a field's token agree on that field, whatever else they hold |
| `ThemeConverter.SameTokensSameTheme` | src/themeConverter.ts:15-47 | two themes that agree on all 19 tokens convert to the same record |
| `ThemeConverter.UnknownKeyIgnored` | src/themeConverter.ts:56-60 | adding or changing a `colors` key that is not one of the 19 tokens leaves the converted theme unchanged |
| `ThemeConverter.TokenRoundTrip` | src/themeConverter.ts:16-39 | reading a field's token back through `SlotOfToken` gives that field, so no two fields share a token |
| `ThemeConverter.ColoursNonEmpty` | src/themeConverter.ts:21-40 | every colour field of a converted theme, including every normal and bright terminal colour, is non-empty |
| `ThemeConverter.DefaultIsHexColour` | src/themeConverter.ts:16-39 | every fallback colour is a `#rrggbb` colour with lower-case hexadecimal digits |
| `ThemeHelpers.SanitizeNameAt` | src/themeHelpers.ts:123 | sanitising acts per character: `[a-z0-9_-]` is kept, an ASCII capital is lowered in place, and every other character becomes `_` |
| `ThemeHelpers.SanitizeNameLength` | src/themeHelpers.ts:123 | the sanitised name has the same length as the theme name |
| `ThemeHelpers.SanitizeNameAlphabet` | src/themeHelpers.ts:123 | every character of the sanitised name is in `[a-z0-9_-]` |
| `ThemeHelpers.SanitizeNameFixpoint` | src/themeHelpers.ts:123 | a name is left unchanged by sanitising if and only if it is already made of `[a-z0-9_-]` |
| `ThemeHelpers.SanitizeNameIdempotent` | src/themeHelpers.ts:123 | sanitising an already sanitised name returns it unchanged |
| `ThemeHelpers.ThemeFileNameShape` | src/themeHelpers.ts:131 | the file name is the sanitised name followed by `.yaml`, five characters longer than the theme name |
| `ThemeHelpers.SameFileNameIff` | src/themeHelpers.ts:123-131 | two themes are saved to the same file if and only if their names have equal length and sanitise alike character by character |
| `ThemeHelpers.GetAllInstalledThemes` | src/themeHelpers.ts:92-117 | the nested loops return exactly `InstalledThemes(exts)`, the flatten-and-filter of the extensions' labelled contributions |
| `ThemeHelpers.InstalledThemesAppend` | src/themeHelpers.ts:96-111 | listing `a + b` lists `a`'s themes, then `b`'s: extension order is kept |
| `ThemeHelpers.LabelledAppend` | src/themeHelpers.ts:103-110 | within one extension, contribution order is kept |
| `ThemeHelpers.InstalledThemesExactlyLabelled` | src/themeHelpers.ts:96-111 | an entry is listed if and only if it is a labelled contribution of an extension that has `contributes.themes`, paired with that extension |
| `ThemeHelpers.InstalledLabelsNonEmpty` | src/themeHelpers.ts:104-108 | no listed entry has an empty label |
| `ThemeHelpers.FirstMatch` | src/themeHelpers.ts:10 | the search returns nothing if and only if no element matches; otherwise it returns the index of a matching element with no match before it |
| `ThemeHelpers.GetThemeDataFromExtension` | src/themeHelpers.ts:31-54 | null if and only if the extension has no theme contributions or none matches by label or id; data is returned only from the file of the first contribution matching by label or id; an error only when some contribution matches |
| `ThemeHelpers.ThemeDataFromFirstMatch` | src/themeHelpers.ts:38-50 | for the first contribution matching by label or id: if its `path` names a parsable file, that file's data is returned; otherwise the result is the error for a missing `path`, a missing file or an unparsable file |
| `ThemeHelpers.ConvertThemeByName` | src/themeHelpers.ts:7-29 | fails with "not found" if and only if no listed theme has the requested label; on success the file name is `ThemeFileName(themeName)` and the theme's `name` is the theme name followed by ` (VS Code)` |
| `ThemeHelpers.NotFoundIffNotContributed` | src/themeHelpers.ts:9-14 | "not found" if and only if the name is empty or no extension contributes a theme with that label |
| `ThemeHelpers.EmptyNameNotFound` | src/themeHelpers.ts:9-14 | an empty theme name is never found, because unlabelled and empty-labelled contributions are filtered out |
| `ThemeHelpers.ConvertUsesFirstMatch` | src/themeHelpers.ts:9-22 | once the first listed entry with the label is found, the outcome is decided by reading its extension. The lookup succeeds if and only if that read gives an object, and the result is then that object's conversion under the sanitised file name. A read error is passed on, no data or falsy data gives "no theme data", and non-object data gives the converter's "Invalid theme data structure" error |
| `ThemeHelpers.IdMatchReadFirst` | src/themeHelpers.ts:9-38 | the entry is found by label, but its extension is then searched by label or id. A contribution earlier in the list whose id is the requested name is the one read: "Foo" is converted from the file of the theme labelled "Bar" |

## Left out

- File I/O (`existsSync`, `readFileSync`, `writeFileSync`, `mkdirSync`): a theme file is a map entry, and saving is reduced to the file name it would be written under.
- `JSON.parse`: a file is either its parsed theme data or unparsable.
- `path.join` normalisation: a theme file is addressed by the pair (extension directory, relative path).
- `getWarpThemesDirectory`: it depends on the OS home directory, so the directory of the saved file is not modelled.
- `generateYaml`: it is a thin wrapper over `js-yaml.dump`, which is not part of this model. So the YAML text, and a serialise-then-parse round trip, are not modelled.
- `getCurrentThemeData`, `previewTheme`, `revertToTheme`: they read or write workspace configuration through the editor's API.
- src/commands.ts and src/extension.ts are not part of this model. They hold command registration, quick-pick prompts, the progress and cancellation loop of the batch export, and the preview/keep/revert prompt.
- `async`/`await`: the sequencing is plain and sequential.
- Error messages: the helpers' failures are an error datatype (`HelperError`), not the wrapped message strings. Only the converter's "Invalid theme data structure" text is kept.
- Colour values that are not strings (numbers, objects in `colors`) are not modelled; `colors` maps strings to strings.
- A `contributes.themes` value that is truthy but not an array is not modelled. A string is iterated character by character and lists nothing; other non-iterable values make the listing throw. `getThemeDataFromExtension` calls `.find` on it, which throws for any value that is not an array. A falsy value (`null`, `false`, `0`, `""`) is skipped like a missing one and is covered as `themes == None`.
- A `null` entry in `contributes.themes` is not modelled: reading `.label` on it throws, so the listing fails with "Error listing installed themes". A number, string or boolean entry has no `label`, `id` or `path`, so it acts as `ThemeContribution(None, None, None)`.
- `label` and `id` values that are not strings are not modelled; both are optional strings here.
- The success notice (`showInformationMessage`) shown after a theme is exported is not modelled: it is user-interface output.
- Extensions are compared as values, not by object identity.
- Characters: a Dafny `char` is a Unicode scalar value. For names in the Basic Multilingual Plane with no lone surrogates, that is one UTF-16 code unit. `SanitizeNameLength`, `SanitizeNameAt` and `SameFileNameIff` hold of the JavaScript only for such names. A character above U+FFFF is two code units in JavaScript and becomes `__`, where the model gives one `_`; a lone surrogate has no `char` at all.
