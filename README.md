# ConvertCase case conversions in Dafny

This is a model of the text logic of the PowerToys Run plugin "ConvertCase". For a non-empty
search, the plugin offers three results, each the search converted to one case style:

- **snake_case** (`Underscore`): three regular-expression passes, then lowercasing.
  1. `([\p{Lu}]+)([\p{Lu}][\p{Ll}])` → `$1_$2` splits an acronym from the word after it, so
     `HTTPServer` becomes `HTTP_Server`.
  2. `([\p{Ll}\d])([\p{Lu}])` → `$1_$2` splits a lowercase letter or digit from an uppercase
     letter that follows it.
  3. `[-\s]` → `_` turns each hyphen and whitespace character into one underscore.
- **Upper_snake_case** (`ToUpperSnakeCase`): snake_case with its first character uppercased.
- **PascalCase** (`Pascalize`): `(?:[ _-]+|^)([a-zA-Z])` with an evaluator that returns the
  letter uppercased. Each run of separators that ends in an ASCII letter is deleted and the
  letter is uppercased; a leading ASCII letter is uppercased too.

`Query` returns no result for an empty search. Otherwise it returns the three results in the
order above. Each result carries the converted text as its title, the style name as its
subtitle, and the search as its context data and query text.

Passes 1 and 2 of snake_case and the PascalCase replacement are each written twice:

- as the engine runs it: a leftmost match is tried at each position, greedy groups back off
  one character at a time, and scanning resumes after a match;
- as an independent pointwise description: which characters get an underscore in front
  (`InsertBreaks`), and which are deleted or uppercased (`Capitalized`).

A lemma proves the two agree on every input. Pass 3 and the lowercasing match one
character at a time. They are each written once, as a map over the characters, and their
contracts state the result character by character. The properties are then proved on the
pointwise descriptions:

- which strings are fixed points;
- idempotence;
- the words that survive;
- how the conversions split at a joiner or a separator.

The worked examples (`*_examples.dfy`) are checked by the verifier through these lemmas.

Modules:

- `Chars`: character classes and case maps.
- `Wrappers`: `Option`.
- `SnakeCase`: `Underscore` and `ToUpperSnakeCase`.
- `PascalCase`: `Pascalize`.
- `ConvertCase`: `GenerateResult` and `Query`.
- `SnakeCaseExamples`, `PascalCaseExamples`, `ConvertCaseExamples`: worked examples.

Three consequences of the code worth noting:

- `Pascalize` uppercases a leading letter (`"already"` becomes `"Already"`), because of the
  `^` alternative.
- Pass 3 does not collapse runs (`"a \tb"` becomes `"a__b"`).
- `ToUpperSnakeCase` of an empty string fails, because it indexes the first character.

## Model

| member | source | states |
|---|---|---|
| SnakeCase.SplitAcronymsInsertsBreaks | Community.PowerToys.Run.Plugin.ConvertCase/Main.cs:125 | Pass 1, run as the engine runs it, puts exactly one `_` in front of the last letter of every uppercase run of two or more that a lowercase letter follows; it changes nothing else |
| SnakeCase.SplitHumpsInsertsBreaks | Community.PowerToys.Run.Plugin.ConvertCase/Main.cs:125 | Pass 2, with its non-overlapping matches, puts exactly one `_` between every lowercase letter or digit and the uppercase letter after it; it changes nothing else |
| SnakeCase.ReplaceDashesAndSpaces | Community.PowerToys.Run.Plugin.ConvertCase/Main.cs:126 | Pass 3 keeps the length, maps each `-` or `\s` character to a single `_`, and leaves every other character alone, so runs are not collapsed |
| SnakeCase.ToLowerString | Community.PowerToys.Run.Plugin.ConvertCase/Main.cs:127 | Lowercasing keeps the length and lowercases each character in place |
| SnakeCase.Underscore | Community.PowerToys.Run.Plugin.ConvertCase/Main.cs:120-128 | snake_case output has no uppercase letter, no hyphen and no whitespace; it is no shorter than the input, and it is empty exactly when the input is |
| SnakeCase.UnderscoreFixedPoints | Community.PowerToys.Run.Plugin.ConvertCase/Main.cs:120-128 | A string is left unchanged by snake_case exactly when it has no uppercase letter, hyphen or whitespace |
| SnakeCase.UnderscoreIdempotent | Community.PowerToys.Run.Plugin.ConvertCase/Main.cs:120-128 | Converting snake_case output again changes nothing |
| SnakeCase.UnderscoreKeepsWords | Community.PowerToys.Run.Plugin.ConvertCase/Main.cs:120-128 | With joiners (`_`, `-`, whitespace) removed, the output is the input with its joiners removed, lowercased: no character is lost, added or reordered |
| SnakeCase.UnderscoreSplitsAtJoiner | Community.PowerToys.Run.Plugin.ConvertCase/Main.cs:120-128 | An input with a joiner in it converts word by word: the two sides are converted separately and joined by one `_` |
| SnakeCase.ToUpperSnakeCase | Community.PowerToys.Run.Plugin.ConvertCase/Main.cs:95-100 | Upper_snake_case has the length of snake_case; its first character is the uppercase of snake_case's first character and the rest is identical |
| SnakeCase.UpperSnakeLowersToSnake | Community.PowerToys.Run.Plugin.ConvertCase/Main.cs:95-100 | Lowercasing Upper_snake_case gives snake_case back; its first character is uppercase exactly when snake_case starts with a lowercase letter |
| PascalCase.Pascalize | Community.PowerToys.Run.Plugin.ConvertCase/Main.cs:113-118 | PascalCase never lengthens its input and is empty exactly when the input is |
| PascalCase.PascalizeIsCapitalized | Community.PowerToys.Run.Plugin.ConvertCase/Main.cs:115-117 | The replacement, run as the engine runs it, deletes exactly the separator runs that end in an ASCII letter and uppercases exactly the ASCII letters at the start or after a separator. Every other character is kept in order, including separators before a non-letter or at the end |
| PascalCase.PascalizeFixedPoints | Community.PowerToys.Run.Plugin.ConvertCase/Main.cs:115-117 | A string is left unchanged by PascalCase exactly when it does not start with a lowercase letter and has no separator directly before an ASCII letter |
| PascalCase.PascalizeIdempotent | Community.PowerToys.Run.Plugin.ConvertCase/Main.cs:115-117 | Converting PascalCase output again changes nothing |
| PascalCase.PascalizeSplitsAtCut | Community.PowerToys.Run.Plugin.ConvertCase/Main.cs:115-117 | Where the input is cut between a non-separator and a separator, PascalCase converts the two sides separately |
| PascalCase.PascalizeOfWord | Community.PowerToys.Run.Plugin.ConvertCase/Main.cs:115-117 | A word without separators only has its first character uppercased |
| ConvertCase.GenerateResult | Community.PowerToys.Run.Plugin.ConvertCase/Main.cs:130-145 | A result shows the converted value as title and the style name as subtitle, and keeps the search as context data and query text |
| ConvertCase.Query | Community.PowerToys.Run.Plugin.ConvertCase/Main.cs:78-93 | An empty search gives no result. Any other search gives exactly three results in the order snake_case, Upper_snake_case, PascalCase, with the matching conversion as title and the search as context data |
| ConvertCase.QueryTitlesAgree | Community.PowerToys.Run.Plugin.ConvertCase/Main.cs:78-93 | The three titles are non-empty and agree: the Upper_snake_case title lowercases to the snake_case title, and the snake_case and PascalCase titles are each fixed by their own conversion |
| Chars.ToLower | Community.PowerToys.Run.Plugin.ConvertCase/Main.cs:127 | Lowercasing never yields an uppercase letter, maps uppercase to lowercase, leaves other characters alone and keeps whitespace whitespace |
| Chars.ToUpper | Community.PowerToys.Run.Plugin.ConvertCase/Main.cs:98 | Uppercasing never yields a lowercase letter, maps lowercase to uppercase and leaves other characters alone |
| SnakeCaseExamples.AcronymExample | Community.PowerToys.Run.Plugin.ConvertCase/Main.cs:125 | `HTTPServer` becomes `http_server` |
| SnakeCaseExamples.CamelExample | Community.PowerToys.Run.Plugin.ConvertCase/Main.cs:120-128 | `fooBar baz-qux` becomes `foo_bar_baz_qux` |
| SnakeCaseExamples.SpaceRunExample | Community.PowerToys.Run.Plugin.ConvertCase/Main.cs:126 | A run of a space and a tab gives two underscores: `a \tb` becomes `a__b` |
| SnakeCaseExamples.FooBarUpperSnake | Community.PowerToys.Run.Plugin.ConvertCase/Main.cs:95-100 | `fooBar` becomes `Foo_bar` |
| PascalCaseExamples.PascalExample | Community.PowerToys.Run.Plugin.ConvertCase/Main.cs:115-117 | `foo_bar-baz qux` becomes `FooBarBazQux` |
| PascalCaseExamples.PascalStartExample | Community.PowerToys.Run.Plugin.ConvertCase/Main.cs:115-117 | A leading letter is uppercased: `already` becomes `Already` |
| PascalCaseExamples.PascalKeepsSeparatorsExample | Community.PowerToys.Run.Plugin.ConvertCase/Main.cs:115-117 | Separators before a digit or at the end are kept: `a_1` becomes `A_1` and `a_` becomes `A_` |
| ConvertCaseExamples.QueryExample | Community.PowerToys.Run.Plugin.ConvertCase/Main.cs:78-93 | An empty search gives no result, and `fooBar` gives `foo_bar`, `Foo_bar` and `FooBar`, each with `fooBar` as context data |

## Left out

- Clipboard copying (Main.cs:47, Main.cs:140) and `LoadContextMenus`: operating-system I/O and host UI wiring. The model keeps only the data a result carries.
- `Init`, the `ThemeChanged` subscription, `Dispose` and `Dispose(bool)`: lifecycle plumbing into the launcher's framework.
- `UpdateIconPath`, `OnThemeChanged` and the result's `IcoPath` and `Action`, and the context menu's glyph, font and accelerator keys: presentation only.
- `PluginID`, `Name` and `Description`: constants that no conversion uses.
- `Query` takes the search text itself; the launcher's `Query` object around it is not modelled.
- Chars.IsUpper, Chars.IsLower, Chars.IsDigit: `\p{Lu}`, `\p{Ll}` and `\d` are restricted to ASCII, because the full Unicode category tables are library data. `\s` is modelled in full.
- Chars.ToLower, Chars.ToUpper: culture-sensitive case mapping (the Turkish dotted `i`, for one) is not modelled; these are the ASCII case maps.
- No general .NET regular-expression engine: each of the four patterns is modelled by how the engine scans it.
- SnakeCase.ToUpperSnakeCase: requires a non-empty argument. The source throws on an empty string, and `Query` only calls it after its empty-search guard (Main.cs:82).
