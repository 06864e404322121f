# starship-cockpit text handling, modelled in Dafny

The repository is a theme for the `starship` prompt, a test harness that runs
the prompt program and inspects what it prints, and a demo recorder that
drives iTerm2 through AppleScript. This project models the text handling
in the last two, where the repository's own logic lives.

The test harness (`tests/helpers.py`) post-processes the captured prompt:

- `clean_output` deletes the shell prompt-escape markers `\[`, `\]`, `%{` and `%}`.
- `clean_color_codes` deletes the ANSI colour codes `ESC [ [0-9;]* m`. These
  are the SGR control sequences of ECMA-48, section 8.3.117.
- `get_prompt_lines` strips the output and cuts it into stripped lines.
- `get_prompt_parts` cuts the first line at each two-space separator.
- `get_prompt_part` picks the first part whose colour-free text starts with
  a segment's icon glyph.

The demo recorder (`assets/generate.py`) uses four pure fragments:

- `escape_command` doubles the backslashes of a command.
- `format_action_details` prints an action's settings as `k="v"` pairs.
- The `screenshot` branch reads the window bounds AppleScript reports.
- The `set_palette` branch overwrites the first `palette = ` line of the
  configuration's line list in place.

Modules:

- `Wrappers`: `Option` and `Result`.
- `PyStr`: the Python `str` operations the code relies on. These are
  `replace` (left to right, non-overlapping), `split` and `join`,
  `startswith`, and `strip` with the full `str.isspace` whitespace set or
  with an explicit character set.
- `PyInt`: `int()` of a string in base 10, and `str()` of an integer.
- `PromptHelpers`: the test-harness helpers.
- `Generate`: the demo-recorder fragments. The palette rewrite is a
  method over an `array<string>` with the source's early `break`. It is
  proved against the function `SetPalette`.

Where the source depends on the outside world, the model takes it as input:

- The captured standard output is a `string` parameter.
- The AppleScript bounds text is a `string` parameter.
- The configuration's lines are an array.
- The four icon glyphs are a `Glyphs` parameter. `SourceGlyphs` holds the
  code points the harness compares with: U+F418 (git), U+EBCA (shell),
  U+F04C5 (memory usage) and U+F051B (time).

## Model

| member | source | states |
|---|---|---|
| PromptHelpers.CleanOutputNotLonger | tests/helpers.py:33-38 | cleaning never makes the output longer |
| PromptHelpers.CleanOutputUnchanged | tests/helpers.py:33-38 | output with no `\` and no `%` is returned unchanged |
| PromptHelpers.CleanOutputPasses | tests/helpers.py:33-38 | the four passes run in the order `\[`, `\]`, `%{`, `%}`; each deletes exactly its marker's occurrences and keeps the text between them in order |
| PromptHelpers.CleanOutputCanLeaveMarker | tests/helpers.py:33-38 | the passes are sequential, so a marker formed by a later deletion survives: `\%{[` becomes `\[` |
| PromptHelpers.ParamRun | tests/helpers.py:7 | the greedy `[0-9;]*` run: every character inside it is a parameter character, and the one after it is not |
| PromptHelpers.CodeAt | tests/helpers.py:7 | a match at the front is `ESC`, `[`, parameter characters and a final `m` |
| PromptHelpers.CodeAtComplete | tests/helpers.py:7 | whenever some prefix is a colour code, `CodeAt` finds it, so there is at most one and a `None` means none exists |
| PromptHelpers.CleanColorCodes | tests/helpers.py:40-41 | the result is never longer than the input |
| PromptHelpers.CleanColorCodesNoEsc | tests/helpers.py:40-41 | text with no ESC is returned unchanged |
| PromptHelpers.CleanColoredText | tests/helpers.py:40-41 | for text pieces interleaved with colour codes, where an ESC inside a piece is followed by something other than `[`, cleaning deletes every code and keeps every other character in order |
| PromptHelpers.CleanAfterPlain | tests/helpers.py:40-41 | the scan copies text in which no code starts (every ESC followed by something other than `[`) unchanged and goes on after it |
| PromptHelpers.CleanAfterCode | tests/helpers.py:40-41 | a colour code at the front is deleted whole |
| PromptHelpers.ParamRunStops | tests/helpers.py:7 | the parameter run of a code stops at its `m` |
| PromptHelpers.CleanColorCodesNotIdempotent | tests/helpers.py:40-41 | one pass turns `ESC ESC [ m [ m` into `ESC [ m`, and a second pass deletes that, so cleaning is not idempotent |
| PromptHelpers.GetPromptLines | tests/helpers.py:46-49 | there is always at least one line |
| PromptHelpers.PromptLinesShape | tests/helpers.py:43-49 | there is one line per piece of the stripped, cleaned output between line breaks, one plus the number of `\n`; line `i` is piece `i` with exactly its surrounding whitespace cut off, so it has none itself and holds no `\n` |
| PromptHelpers.StrippedPiece | tests/helpers.py:48 | a stripped piece without a line break is a contiguous cut of it, everything cut off is whitespace, and it has no surrounding whitespace |
| PromptHelpers.PromptPartsShape | tests/helpers.py:51-54 | there is at least one part; joining the parts with two spaces gives the first line back; no part contains two spaces in a row |
| PromptHelpers.FirstMatch | tests/helpers.py:60-71 | the first part that matches the name, or none when no part matches |
| PromptHelpers.PromptPartMain | tests/helpers.py:58-59 | `"main"` always gives the first part |
| PromptHelpers.PromptPartFirstMatch | tests/helpers.py:60-71 | for any other name the result is the uncleaned text of the earliest part whose cleaned text starts with the name's glyph; the result is `None` exactly when no part matches |
| PromptHelpers.PromptPartUnknownName | tests/helpers.py:62-71 | a name other than main, git, shell, memory_usage and time gives `None` |
| Generate.EscapeCommandCons | assets/generate.py:188-190 | escaping goes character by character: a backslash becomes two, every other character stays |
| Generate.EscapeCommandConcat | assets/generate.py:188-190 | escaping a concatenation is concatenating the escapes |
| Generate.EscapeCommandLength | assets/generate.py:188-190 | the escaped command is longer by exactly its number of backslashes |
| Generate.EscapeCommandRoundTrip | assets/generate.py:188-190 | collapsing each `\\` back to `\` recovers the command |
| Generate.RenderEntries | assets/generate.py:186 | one rendered entry per setting |
| Generate.FormatActionDetailsSmall | assets/generate.py:185-186 | no settings print as the empty string; one setting prints as `k="v"` alone |
| Generate.FormatActionDetailsAppend | assets/generate.py:185-186 | settings print in order, separated by single spaces |
| Generate.RenderEntriesAppend | assets/generate.py:186 | entries are rendered in dictionary order |
| Generate.NonEmptyFormat | assets/generate.py:185-186 | an action with settings never prints as the empty string |
| Generate.FormatActionDetailsRoundTrip | assets/generate.py:185-186 | when no key holds `=` and no value holds `"`, the printed text determines the action (reading back with `ParseActionDetails`) |
| Generate.ReadEntry | assets/generate.py:186 | a `k="v"` entry at the front reads back as its key, its value and the text after it |
| Generate.ReadKey | assets/generate.py:186 | a key free of `=` ends at the first `=`, which is followed by the opening quote |
| Generate.ReadValue | assets/generate.py:186 | a value free of `"` ends at the first `"` |
| Generate.BoundsFields | assets/generate.py:258 | stripping the braces and splitting at commas gives at least one field |
| Generate.ParseBoundsFieldCount | assets/generate.py:258 | any field count other than four fails the unpacking, before any field is converted |
| Generate.ConvertSpec | assets/generate.py:259 | the bounds are produced exactly when all four fields convert, and they hold the four converted numbers; otherwise the first failing field is reported |
| Generate.ParseBoundsRoundTrip | assets/generate.py:258-259 | AppleScript's text for four integers, with or without braces, is read back as those integers |
| Generate.FormatBoundsFields | assets/generate.py:258 | that text splits into the first number and the later numbers each led by a space |
| Generate.FormatBoundsBody | assets/generate.py:258 | `strip("{}")` removes exactly the surrounding braces |
| Generate.ConvertFormattedFields | assets/generate.py:259 | each such field converts back with `int` |
| Generate.SplitCommaList | assets/generate.py:258 | splitting a `", "`-separated list of comma-free items at its commas gives the first item, then each later item led by its space |
| Generate.FirstPaletteLine | assets/generate.py:271-272 | the first line starting with `palette = `, or none when no line does |
| Generate.RewritePalette | assets/generate.py:271-274 | the loop leaves exactly `SetPalette` of the old lines |
| Generate.FirstPaletteLineIs | assets/generate.py:271-274 | a matching line with no matching line before it is the one the loop stops at |
| Generate.PaletteLineMatches | assets/generate.py:273 | the written line `palette = '<name>'\n` itself starts with `palette = ` |
| Generate.SetPaletteSpec | assets/generate.py:271-274 | the line count is kept; only the first `palette = ` line changes, and it becomes the new palette line; with no such line nothing changes |
| Generate.SetPaletteTwice | assets/generate.py:271-274 | setting palette A then B equals setting B once; setting the same palette twice equals setting it once |
| PyStr.Split | tests/helpers.py:48 | `split` always gives at least one piece, and the first piece is a prefix of the text |
| PyStr.TrimStart | tests/helpers.py:44 | what is cut from the front is all in the set, and what remains does not start with a character of the set |
| PyStr.TrimEnd | tests/helpers.py:44 | what is cut from the back is all in the set, and what remains does not end with a character of the set |
| PyStr.StripSpec | tests/helpers.py:44 | `strip` keeps a contiguous piece of the text whose ends are not in the set; everything cut on either side is in the set |
| PyStr.StripTrimmed | tests/helpers.py:48 | stripping text with no characters of the set at its ends changes nothing |
| PyStr.StripIdempotent | tests/helpers.py:44-48 | stripping twice is stripping once |
| PyStr.StripSurrounded | assets/generate.py:258 | text padded only with characters of the set, around a middle whose ends are outside it, strips to the middle |
| PyStr.TrimStartPrefix | assets/generate.py:258 | trimming the front skips a padding made only of characters of the set |
| PyStr.TrimEndSuffix | assets/generate.py:258 | trimming the back skips a padding made only of characters of the set |
| PyStr.ReplaceAbsent | tests/helpers.py:34-37 | text that never holds the pattern's first character is unchanged by `replace` |
| PyStr.ReplaceLength | assets/generate.py:189 | the length after `replace` is the old length plus the length difference for each occurrence |
| PyStr.ReplaceNotLonger | tests/helpers.py:34-37 | replacing with a shorter text never makes the text longer |
| PyStr.ReplaceIsJoinOfSplit | tests/helpers.py:34-37 | `s.replace(p, r) == r.join(s.split(p))` |
| PyStr.ReplaceSelf | tests/helpers.py:53 | replacing a pattern by itself changes nothing |
| PyStr.SplitJoin | tests/helpers.py:53 | joining the pieces of a split with its separator gives the text back |
| PyStr.SplitCount | tests/helpers.py:48 | a split has one more piece than the text has occurrences of the separator |
| PyStr.OccurrencesOfChar | tests/helpers.py:48 | the occurrences of a one-character separator are the count of that character |
| PyStr.SplitPiecesFree | tests/helpers.py:53 | no piece of a split contains the separator |
| PyStr.SplitFirstPiece | assets/generate.py:258 | text before the first separator character is the first piece, and the text after it is split on |
| PyStr.SplitWithoutSeparator | assets/generate.py:258 | text without the separator character is a single piece |
| PyInt.NatToString | assets/generate.py:259 | `str` of a non-negative number is at least one decimal digit |
| PyInt.NatToStringValue | assets/generate.py:259 | those digits form a digit group that spells the number |
| PyInt.DigitGroupShape | assets/generate.py:259 | a digit group starts and ends with a digit, holds only digits and underscores, and has a digit after every underscore |
| PyInt.DigitShapeGroup | assets/generate.py:259 | conversely, text of that shape is a digit group |
| PyInt.ParseIntAccepted | assets/generate.py:259 | `int` succeeds exactly when the stripped text is an optional sign followed by digits with single underscores between digits (so `1__2` and `+_5` are rejected) |
| PyInt.ParseIntBlank | assets/generate.py:259 | empty or all-whitespace text is not a number |
| PyInt.ParseSignedToString | assets/generate.py:259 | a sign and digits read back as the number they came from |
| PyInt.IntToStringTrimmed | assets/generate.py:259 | `str(i)` neither starts nor ends with whitespace |
| PyInt.ParseIntToString | assets/generate.py:259 | `int(str(i)) == i` |
| PyInt.ParseIntPadded | assets/generate.py:259 | `int` ignores whitespace around `str(i)` |

## Left out

- Running the prompt program, and the environment it is given (`tests/helpers.py:11-31`). These are process and environment I/O. The captured standard output is a parameter instead.
- The debug printing helpers (`tests/helpers.py:73-99`). They only write to the console.
- The tests and their fixtures. Their git-status, memory, time and battery expectations describe output rendered by the external `starship` binary, which is not part of this model.
- The AppleScript and iTerm2 automation, the screenshots, the sleeps and the reading and writing of `starship.toml` in `assets/generate.py`. These are I/O. The bounds text and the configuration's lines are inputs instead.
- The `run_actions` dispatch loop and the `actions` table (`assets/generate.py:7-172`). The loop only sequences side effects, and the table is data.
- Generate.FormatActionDetails: an action is a sequence of (key, text) pairs in dictionary order. Values are taken as the text `str` gives for them; `str` of numbers and other non-string values is not modelled.
- Generate.ParseActionDetails is written only to state the round trip. The source has no reader for this text.
- Generate.ParseBoundsRoundTrip assumes AppleScript prints a list of numbers as `{a, b, c, d}` or `a, b, c, d`. The format of AppleScript's output is not part of this model.
- PyInt.ParseInt accepts ASCII digits only. Python's `int` also accepts other Unicode decimal digits.
- PyInt.ParseInt and PyInt.IntToString have no limit on the number of digits. Recent CPython versions raise `ValueError` when either conversion has more than 4300 digits (`sys.get_int_max_str_digits`), so the round trip `int(str(i)) == i` holds there only below that length. Window bounds are far shorter.
- PromptHelpers.CleanColoredText allows an ESC inside a text piece only when the next character of the piece is not `[`. Text holding an `ESC [` that opens no code, or ending in ESC, is covered only by the definition of the scan and the example in `CleanColorCodesNotIdempotent`.
- PromptHelpers.GetPromptPart takes the four icon glyphs as a parameter. `SourceGlyphs` gives the code points the harness uses.
- PyStr.Strip and PyStr.IsSpace use the characters Python's `str.isspace` accepts. Unicode normalisation and encoding errors in the captured output are not modelled.
