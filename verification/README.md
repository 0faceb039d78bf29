# gulp-tmpl-replace, modelled in Dafny

This project models the placeholder-substitution engine of `gulp-tmpl-replace.js`.
The build script passes every `*.tmpl` file through this engine.

Building an engine goes through these steps:

- It checks its options.
- It merges the replacement objects into one table. The first object in the list wins, and the merge reverses the caller's list in place.
- It picks one of three patterns:
  - `@(package\.)?([^@]+)@`, the default;
  - `@(<prefix>.)?([^@]+)@` for a custom prefix;
  - `@([^@]+)@` when `unprefixed` is set.

A global replace then scans the text from left to right. Each token is handed to a callback, which:

- returns the value from the table; or
- logs a diagnostic and returns the empty string.

A diagnostic holds the line number and up to 20 characters of context on each side of the token.

The modules follow the source:

- `Replacements` — `mergeReplacements`. The fold comes in two forms: a specification on sequences, and methods that reverse the array in place.
- `Diagnostics` — `ellipsis`, `getLine` and `logReplacementIssue`. The three console lines become a `Report` value.
- `Patterns` — what each of the three regular expressions does when tried at one offset.
  - The optional prefix group is greedy.
  - `[^@]+@` can only end at the next '@'.
  - In the custom pattern, the dot after the prefix matches any character except a line terminator. This is because `\.` inside a template string is just `.`.
- `Handlers` — the two callbacks, `handleMatchesWithPrefix` and `handleMatches`.
- `Scanner` — the global replace.
  - `Pieces` is the scan: at each position either a token where the pattern matches, or one copied character.
  - `RenderFrom` folds the callbacks over those pieces.
  - `Replace` is the scanning loop, proved equal to that fold.
- `Engine` — `GulpExistTmplReplace`: the two checks that throw, the merge, and the successive `if`s that choose the pattern.
- `Build` — how `gulpfile.js` uses the engine. A module-level list is passed on every `templates` run.

Some behaviour of the code is kept exactly as written:

- **The trailing ellipsis is inverted.** It is shown exactly when the after-context reaches the end of the text. The marker was evidently meant for the opposite case, but the model follows the code.
- **`getLine` throws for a token on the first line.** `match(/\n/g)` returns `null` there. In the model, the callback's result is `Threw`, and the pass ends as `Aborted`. `Aborted` carries the headline that had already been printed, and the reports logged before it, which are always none: a failing token earlier in the text would have no line feed before it either, and would have thrown first (`Scanner.AbortedIsSilent`).
- **The custom-prefix dot is a wildcard.** It even matches '@'.
- **`unprefixed` takes precedence over `prefix`.**
- **The merge reverses the caller's array.** A second engine built from the same list therefore merges the list in the other order.

## Model

| member | source | states |
|---|---|---|
| Replacements.FirstWinsKeys | gulp-tmpl-replace.js:105-109 | a key is in the merged table exactly when some object of the list defines it |
| Replacements.FirstWinsPriority | gulp-tmpl-replace.js:105-109 | a key takes the value of the earliest object in the caller's list that defines it |
| Replacements.LastWinsOfReversed | gulp-tmpl-replace.js:107-109 | folding the reversed list so that later entries overwrite earlier ones gives the first-wins table of the original list |
| Replacements.ReverseInPlace | gulp-tmpl-replace.js:107 | `reverse()` leaves the array holding its old contents in reverse order |
| Replacements.MergeList | gulp-tmpl-replace.js:105-110 | the merge of a list: the array is reversed in place and the table is the first-wins merge of the original list |
| Replacements.Merge | gulp-tmpl-replace.js:103-113 | a single object gives exactly its own entries; a list gives the first-wins merge, and the caller's array is left reversed |
| Replacements.ReversedTwice | gulp-tmpl-replace.js:107 | reversing twice restores the list |
| Diagnostics.Ellipsis | gulp-tmpl-replace.js:13-16 | the marker is three dots when shown and empty otherwise |
| Diagnostics.NewlineCount | gulp-tmpl-replace.js:19 | the count equals the number of line feeds in the string |
| Diagnostics.GetLine | gulp-tmpl-replace.js:18-20 | defined exactly when a line feed precedes the offset, and then equals the number of line feeds before the offset plus one (so at least 2) |
| Diagnostics.ThirdLineExample | gulp-tmpl-replace.js:18-20 | a token after two line feeds is on line 3 |
| Diagnostics.ContextWindow | gulp-tmpl-replace.js:34-41 | the before-context is the last min(offset, 20) characters before the token; there is a leading marker exactly when offset > 20. The after-context is the first min(rest, 20) characters after the token; there is a trailing marker exactly when the window reaches the end of the text |
| Diagnostics.LogReplacementIssue | gulp-tmpl-replace.js:33-46 | throws exactly when no line feed precedes the token, after writing the headline; otherwise the report carries the token, message, path, line and the context window |
| Diagnostics.Snippet | gulp-tmpl-replace.js:45 | the third console line is the markers, the context before, the token and the context after, each at its place, with "..." at the start or the end when that marker is set |
| Diagnostics.SnippetShowsText | gulp-tmpl-replace.js:33-45 | for a logged report, the third line without its markers is exactly the text around the token (at most 20 characters on each side); the leading marker is shown iff text was cut before, and the trailing marker iff nothing was cut after |
| Patterns.NextAt | gulp-tmpl-replace.js:4 | the first '@' at or after a position, or the end of the text |
| Patterns.KeyEnd | gulp-tmpl-replace.js:4 | `([^@]+)@` succeeds exactly at the next '@' when at least one other character precedes it |
| Patterns.MatchAt | gulp-tmpl-replace.js:4 | a match starts and ends with '@', spans at least three characters and stays inside the text |
| Patterns.KeyShape | gulp-tmpl-replace.js:4 | the key group is a non-empty run without '@' that ends right before the closing '@' |
| Patterns.TokenShape | gulp-tmpl-replace.js:4 | default and unprefixed patterns: a match starts exactly at an '@' followed by a non-'@' character and a later '@', and it ends at the next '@' |
| Patterns.GroupedLiteral | gulp-tmpl-replace.js:4 | with the literal dot, the prefix group takes part exactly when the token text is the prefix, a dot and at least one more character |
| Patterns.DefaultMatch | gulp-tmpl-replace.js:4 | the match of the default pattern: with the group, the key after the prefix; otherwise no group and the whole text between the '@'s as the key |
| Patterns.CustomMatch | gulp-tmpl-replace.js:135 | for every text, a custom-prefix token ends at the next '@' unless the character after the prefix is that '@' and a non-empty '@'-free run closed by '@' follows; then the group is the prefix and '@' and the token ends at the further '@' |
| Patterns.SwallowingDot | gulp-tmpl-replace.js:135 | when the character after the prefix is '@', the group takes it exactly when a key run closed by a further '@' follows, and otherwise the match is the one without the group |
| Patterns.OrdinaryDot | gulp-tmpl-replace.js:135 | when the character after the prefix is not '@', the token exists and ends exactly as without the group |
| Patterns.CustomGroup | gulp-tmpl-replace.js:135 | the custom group takes part exactly when the prefix, a character other than a line terminator and a key run closed by '@' follow the opening '@'; the group is the prefix with that character and the key is the run |
| Patterns.CustomKeyMatch | gulp-tmpl-replace.js:135 | the closed form of a custom-prefix match whose group takes part and whose key runs to a given '@' |
| Patterns.CustomDotIsWildcard | gulp-tmpl-replace.js:135 | with prefix `foo`, the text `@fooXbar@` has group `fooX` and key `bar` |
| Patterns.CustomDotSwallowsAt | gulp-tmpl-replace.js:135 | the custom dot matches '@', so `@foo@bar@` is one token with group `foo@`; the default-style literal dot gives `@foo@` instead |
| Handlers.Fail | gulp-tmpl-replace.js:65-66 | a failing callback never replaces; it throws exactly when no line feed precedes the token, and otherwise its report is the one `logReplacementIssue` builds: token, message, path, line and context window |
| Handlers.HandleWithPrefix | gulp-tmpl-replace.js:59-77 | replaces exactly when the prefix group is present and the key is in the table, with that key's value. Otherwise it reports "replacement must start with '<prefix>.'" (no group) or "has no replacement!" (key missing), and throws instead on the first line; a report is the one `logReplacementIssue` builds for the token and that message |
| Handlers.HandleUnprefixed | gulp-tmpl-replace.js:89-101 | replaces exactly when the whole text between the '@'s is a key of the table; otherwise it reports "has no replacement!" with the report `logReplacementIssue` builds, or throws on the first line |
| Scanner.Pieces | gulp-tmpl-replace.js:149 | every piece of the scan lies inside the text |
| Scanner.PiecesFollowPattern | gulp-tmpl-replace.js:149 | the pieces tile the text from left to right without overlap; a token stands wherever the pattern matches at the current position, and a copied character only where it does not |
| Scanner.Replace | gulp-tmpl-replace.js:149 | the scanning loop produces exactly the fold of the callbacks over the scan |
| Scanner.AbortedSticks | gulp-tmpl-replace.js:149 | once a callback has thrown, the rest of the text changes nothing |
| Scanner.FirstThrow | gulp-tmpl-replace.js:149 | the position of the first token whose callback throws: it throws and no piece before it does; none when no callback throws |
| Scanner.RenderExact | gulp-tmpl-replace.js:149 | from any state that has not thrown: with no throwing callback, the pieces' contributions are appended to the output and their reports, in piece order, to the reports; otherwise the pass ends at the first throwing token with its headline and the reports of the pieces before it |
| Scanner.PassOutcome | gulp-tmpl-replace.js:149 | the whole pass: the pieces tile the text; with no throwing callback the output is the callback results for tokens and the copied characters between them, and the reports are the failing tokens' reports in left-to-right order; otherwise it is `Aborted` with the first throwing token's headline and the reports logged before it |
| Scanner.ThrowingToken | gulp-tmpl-replace.js:59-101 | a callback throws exactly for a token without a replacement that has no line feed before it, and the headline is that token with its failure message |
| Scanner.ReportOfToken | gulp-tmpl-replace.js:33-101 | a piece logs one report exactly when its token has no replacement and its callback does not throw, and that report is what `logReplacementIssue` builds for the token, its offset and its failure message |
| Scanner.NoTokenUnchanged | gulp-tmpl-replace.js:149 | a text without '@' comes out unchanged with no report |
| Scanner.OneToken | gulp-tmpl-replace.js:149 | in every mode, including a custom prefix, for a text with one token, the text around the token is copied and the token gives way to the callback's value, or to nothing with one report, or the pass throws |
| Scanner.PackageTokenResolved | gulp-tmpl-replace.js:4 | `a@package.<key>@b` with the key in the table becomes `a<value>b` with no report |
| Scanner.MissingPrefixReported | gulp-tmpl-replace.js:4 | `a@<body>@b` without the `package.` prefix becomes `ab` with one "replacement must start with 'package.'" report, or the pass throws when `a` has no line feed |
| Scanner.CustomAt | gulp-tmpl-replace.js:135 | a custom-prefix text whose only token is `@<prefix><c><key>@`, with `c` not a line terminator and the key in the table, has the token replaced by the key's value and the rest copied |
| Scanner.CustomTokenResolved | gulp-tmpl-replace.js:135 | `a@<prefix><c><key>@b` becomes `a<value>b` with no report, for any character `c` other than '@' and a line terminator |
| Scanner.UnprefixedToken | gulp-tmpl-replace.js:140 | `a@<key>@b` becomes `a<value>b`, or `ab` with one "has no replacement!" report, or the pass throws on the first line |
| Scanner.RenderFailures | gulp-tmpl-replace.js:149 | a pass throws exactly when a failing token has no line feed before it; otherwise the number of reports grows by the number of failing tokens |
| Scanner.ThrowsIffFirstLineFailure | gulp-tmpl-replace.js:149 | the whole pass throws exactly when a token that cannot be resolved stands on the first line; otherwise there are as many reports as such tokens (which reports, and in what order, is `Scanner.PassOutcome`) |
| Scanner.AbortedIsSilent | gulp-tmpl-replace.js:149 | a pass that throws has logged no report before it |
| Engine.HasInvalidChar | gulp-tmpl-replace.js:120 | true exactly when some character of the prefix is outside [a-zA-Z0-9] |
| Engine.SelectMode | gulp-tmpl-replace.js:126-142 | `unprefixed` gives the unprefixed pattern even beside a prefix; a non-empty prefix gives that prefix with the wildcard dot; neither gives `package` with the literal dot |
| Engine.Create | gulp-tmpl-replace.js:115-150 | fails with the thrown message "Substitutions missing" when the options or replacements are absent, and with "Invalid prefix, only [a-zA-Z0-9] allowed" exactly when a given prefix has a non-alphanumeric character. Success exactly otherwise, and on failure the caller's array is untouched. On success it gives the chosen mode and the merged table |
| Build.TemplatesTwice | gulpfile.js:43-48 | two `templates` runs over the same module-level list: the first merge lets the first object win, the second the last, and the list ends in its original order |
| Build.SecondRunFlipsPriority | gulpfile.js:15-17 | with two objects both defining `version`, the first run takes "1.0" and the second "2.0" |

## Left out

- The `gulp-replace` stream wrapper is not modelled. Each file's text and relative path (`this.file.relative`) are parameters of a `Scanner.Job`.
- The `debug` printout (lines 144-147) is not modelled. The `debug` option is carried but has no effect.
- ANSI colour codes and `console.warn` are not modelled. The three console lines become the `Report` value and `Diagnostics.Snippet`.
- An exception only ends the pass, as the `Aborted` outcome. How gulp then surfaces it is not modelled.
- The general regular-expression engine is not modelled. Only the three fixed patterns are, each as a function of the text and an offset.
- Strings are sequences of characters. JavaScript's UTF-16 code units, and therefore surrogate pairs, are not distinguished.
- Replacement values are strings. Non-string values and `Map` insertion order, which is visible only in the debug printout, are not modelled.
- An option holding a prefix that is not a string is not modelled.
- `Scanner.Step` ignores a piece that lies outside the text. The scan never produces one.
- The rest of gulpfile.js and the test files are not part of this model. They cover build orchestration and HTTP tests against a server.
