# create-snippet, modelled in Dafny

`create-snippet` turns a block of code, one line per input line, into one entry of an
editor snippet table (the JSON-like `"name": { "prefix": …, "body": …, … },` format).
This project models the conversion core, `src/code_to_snippet.rs`, and proves
properties of the model:

- **Escaping** (`escape_code`). The `Escapes` table is applied in order: `\` → `\\`, `"` → `\"`, `$` → `\\$`.
  - `EscapeCode` is a method with a loop over that table, like the source.
  - It is proved equal to `Escaped`, which escapes character by character.
  - `Escaped` is in turn proved to split over concatenation and to keep text that has nothing to escape.
  - Its length is proved exact, and `JsonUnquote` reads it back as a JSON string body.
  - `Unescape` undoes it exactly, so escaping is injective.
- **Body rendering** (`code_to_snippet_body`, `code_to_snippet_body_as_module`).
  - For at most one line the body is a scalar string, otherwise an array of rows.
  - The module form always renders an array. It adds a `pub mod M {` row first and a `}` row last around the code, which is indented by four spaces.
  - The row-shape lemmas read the rendered text back row by row with `Text.Split` on `'\n'`. They state every row: its order, its escaping and its count.
- **Entry assembly** (`create_snippet`).
  - The module body is used exactly when a module name is given.
  - Name, prefix and description are inserted as given. The flag is written `true` or `false`.
  - The entry's rows are the fixed frame around the body's rows.

Modules:
- `Wrappers`: `Option`.
- `Text`: a one-character `ReplaceChar` with the semantics of Rust's `str::replace`, `Join` (the separator goes only between elements, like `itertools::join`), and `Split` with its round-trip lemmas.
- `CodeToSnippet`: the core.
- `CodeToSnippetExamples`: fixed examples taken from the source's unit tests.

The row-shape lemmas require that no line, and no name, prefix, description or module name,
contains a newline. Lines come from reading standard input line by line, which removes
newlines. Name, prefix, description and module name are command-line arguments passed on
unchecked and can hold a newline: `CreateSnippet` renders that case too, each newline in an
argument then adding a row, but the row-shape lemmas do not describe it.

A `$` becomes three characters, `\\$`, as the raw string `r"\\$"` in the escape table
says: the snippet escape `\$` with its backslash escaped once more for JSON.

Two functions stand in for parts of the source:
- The body functions call `Escaped`, because a Dafny function cannot call a method. `EscapeCode`'s postcondition states that the two agree.
- `create_snippet` takes its six values as parameters, like the source. No configuration record is introduced.

## Model

| member | source | states |
|---|---|---|
| `CodeToSnippet.EscapeCode` | src/code_to_snippet.rs:6-14 | Running the three table replacements one after another over a line, as the loop does, gives the character-by-character escape; the loop invariant says that after k entries the text equals the first k replacement passes |
| `CodeToSnippet.SequentialIsPerChar` | src/code_to_snippet.rs:4-11 | Applying the `Escapes` table in its order (backslash first) equals mapping each character independently: `\` to `\\`, `"` to `\"`, `$` to `\\$`, anything else to itself |
| `CodeToSnippet.EscapesTable` | src/code_to_snippet.rs:4 | The table has three entries. Each replacement starts with a backslash and ends with the character it replaces. No replacement holds a character that a later entry replaces, so no pass creates work for a later one |
| `CodeToSnippet.ApplyEscapes` | src/code_to_snippet.rs:9-11 | The loop's passes in table order, as a function of the text and the table prefix run so far; a text holding none of the table's characters passes through unchanged |
| `CodeToSnippet.ApplyEscapesAppend` | src/code_to_snippet.rs:9-11 | Running the replacement passes over a concatenation runs them over each part: no pass matches across the boundary or re-scans replaced text |
| `Text.ReplaceChar` | src/code_to_snippet.rs:10 | A one-character `replace` lengthens the text by the replacement's length minus one per occurrence, and leaves a text without the character unchanged |
| `Text.ReplaceCharAppend` | src/code_to_snippet.rs:10 | A replacement pass distributes over concatenation: replaced text is never re-scanned |
| `CodeToSnippet.EscapedAppend` | src/code_to_snippet.rs:9-11 | The escape of a concatenation is the concatenation of the escapes |
| `CodeToSnippet.EscapedSafeUnchanged` | src/code_to_snippet.rs:6-14 | A line without a backslash, double quote or dollar sign is returned unchanged |
| `CodeToSnippet.EscapedLength` | src/code_to_snippet.rs:4 | The escaped length is the input length plus one per backslash, plus one per double quote, plus two per dollar sign |
| `CodeToSnippet.EscapedKeepsOtherChars` | src/code_to_snippet.rs:4 | Any other character, a newline in particular, occurs in the escaped line exactly when it occurs in the line |
| `CodeToSnippet.JsonReadsEscaped` | src/code_to_snippet.rs:4 | The escaped line holds no bare double quote and no backslash outside the escapes `\\` and `\"`. Read as a JSON string body, it gives the line with each `$` written `\$` for the snippet syntax |
| `CodeToSnippet.UnescapeEscaped` | src/code_to_snippet.rs:4 | Escaping loses nothing: `Unescape` recovers every line from its escape |
| `CodeToSnippet.EscapedInjective` | src/code_to_snippet.rs:4 | Two different lines never have the same escape |
| `CodeToSnippet.CodeToSnippetBody` | src/code_to_snippet.rs:16-29 | Renders the `body` field: it begins `\t\t"body": `, its value is a scalar string (`"`) for at most one line and an array (`[`) for two or more, and it ends with a comma |
| `CodeToSnippet.CodeToSnippetBodyAsModule` | src/code_to_snippet.rs:31-47 | Renders the `body` field of code wrapped in `pub mod M`: it begins `\t\t"body": [`, the array form whatever the number of lines, and ends with a comma |
| `Text.Join` | src/code_to_snippet.rs:25 | `itertools::join`: the result starts with the first row, and its length is the rows' combined length plus one separator fewer than there are rows |
| `CodeToSnippet.BodyEmpty` | src/code_to_snippet.rs:17-18 | No code and a single empty line both render exactly `\t\t"body": "",` |
| `CodeToSnippet.BodySingleLine` | src/code_to_snippet.rs:19-20 | One line renders as one row `\t\t"body": "` + escaped line + `",`. The text between the quotes unescapes back to the line |
| `CodeToSnippet.BodyArrayRows` | src/code_to_snippet.rs:21-27 | N ≥ 2 lines render as N+2 rows: `\t\t"body": [`, then row i+1 is `\t\t\t"` + escape of line i + `",` for every line in input order, then `\t\t],` |
| `CodeToSnippet.BodyRowCount` | src/code_to_snippet.rs:16-28 | The plain body is a single row exactly when there is at most one line; otherwise it has one row per line plus two |
| `CodeToSnippet.ModuleBodySplit` | src/code_to_snippet.rs:31-46 | For any code, the module body's rows are the opening row, `\t\t\t"pub mod M {",` with M unescaped, the rows of the joined code rows, `\t\t\t"}",` and `\t\t],` |
| `CodeToSnippet.ModuleBodyRows` | src/code_to_snippet.rs:31-46 | N ≥ 1 lines in the module form give N+4 rows. Row i+2 is `\t\t\t"    ` + escape of line i + `",`, with the four spaces added outside the escaping, in input order |
| `CodeToSnippet.ModuleBodyNoLines` | src/code_to_snippet.rs:31-46 | With no lines the empty join leaves one blank row between the module header and its closing brace |
| `CodeToSnippet.CreateSnippet` | src/code_to_snippet.rs:49-73 | Renders one entry: it begins `\t"` followed by the name exactly as given, and ends with the closing row `\t},` |
| `CodeToSnippet.CreateSnippetRows` | src/code_to_snippet.rs:49-73 | The entry's rows are the name row, the prefix row, the rows of the module body when a module name is given and of the plain body otherwise, the description row, `\t\t"isFileTemplate": true,` or `false,`, and `\t},`; name, prefix and description appear verbatim |
| `Text.SplitJoin` | src/code_to_snippet.rs:25 | Rows joined with a newline, none of which holds one, are read back by `Split` as exactly those rows |
| `Text.JoinSplit` | src/code_to_snippet.rs:25 | Joining the rows that `Split` reads from a text gives the text back, so the rows determine the rendered text |
| `CodeToSnippetExamples.EscapeRepeatedExample` | src/code_to_snippet.rs:80-82 | `$$\\""` escapes to `\\$\\$\\\\\"\"` |
| `CodeToSnippetExamples.EscapePlainExample` | src/code_to_snippet.rs:90-95 | `hello world!!` escapes to itself |
| `CodeToSnippetExamples.BodyOneLineExample` | src/code_to_snippet.rs:98-103 | The single line `\"$` escapes to `\\\"\\$` and renders as that scalar body |

## Left out

- The `body_only` option is not modelled. It is declared in `src/cmdline_args.rs` and passed as a seventh argument in `src/main.rs`, but `create_snippet` takes six parameters and implements no body-only output.
- Argument parsing and its default values (`src/cmdline_args.rs`) are not part of this model. The model takes name, prefix, description, flag and module name as already resolved parameters.
- Reading standard input, the abort on a read error, and printing the result (`src/main.rs`) are not part of this model. The code arrives as a sequence of lines.
- No claim is made that the entry is valid JSON:
  - control characters such as tabs inside lines are not escaped;
  - name, prefix, description and module name are not escaped at all;
  - every entry ends with a trailing comma.
- `JsonUnquote` reads only the two JSON escapes that escaping emits (`\\` and `\"`). It does not implement the other escapes of a JSON string, or the rule against raw control characters.
- The multi-line and module unit tests of the source, and the full-entry test, are not restated as fixed examples. Evaluating rendered text of that size on literal strings is beyond what the verifier does cheaply. Their row-by-row content follows from `BodyArrayRows`, `ModuleBodyRows` and `CreateSnippetRows`.
- Characters are Dafny `char`s (Unicode scalar values), matching Rust's `replace` with a one-character `&str` pattern, which matches exactly the occurrences of that character in a UTF-8 string. Byte encoding is not modelled.
