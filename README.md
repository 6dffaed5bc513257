# tabfy: the `tabfy` plugin command, modelled in Dafny

tabfy is a plugin for the Nushell shell. Its one command, `tabfy`, takes the
value piped into it. It asks the host shell for the raw source text from the
start of that value up to the start of the `tabfy` call itself. It then returns
the part of that text that comes before the first `'|'`: the upstream command
the user typed, such as `git status ` for `git status | tabfy`.

It fails in one of these ways:

- a non-string input gives the labelled error "Expected String input from pipeline";
- text without a `'|'` gives the labelled error "Expected '|' in input string";
- the host cannot supply the span, or the span's bytes are not UTF-8 ("Invalid UTF-8 sequence").
  Either way `parse_span_into_string` returns an error; `run` calls `unwrap` on it, so the command panics.

The plugin also builds a one-entry catalog of schemas (a pattern and a recipe).
Nothing reads it.

Files and modules:

- `wrappers.dfy` (`Wrappers`): `Option` and `Result`.
- `seqs.dfy` (`Seqs`): `IndexOf`, the first occurrence of an element. It models `str::find` with a one-character pattern.
- `utf8.dfy` (`Utf8`): the well-formed UTF-8 of RFC 3629, section 4, which is what `String::from_utf8` accepts.
  It has a decoder, an encoder and both round trips.
  It also shows that the byte offset `find('|')` returns is where the first `'|'` character's encoding starts.
- `tabfy.dfy` (`Tabfy`): the values, the catalog, `parse_span_into_string`, the cut at the first `'|'`, and `run`.
- `tabfy_properties.dfy` (`TabfyProperties`): lemmas that relate several calls of `run`, or that restate it in terms of raw bytes.

What the code does not do:

- `Schema`'s `regex` and `recipe` fields are never read (src/main.rs:34-37, 59).
  The code does no regex matching, runs no recipe and builds no table from JSON.
- On success `run` returns a string value: the command fragment, with its span set to the call head (src/main.rs:71).
  The declared output type `Int` (src/main.rs:54) and the description "calculates the length of its input" (src/main.rs:49) do not match it; the model follows what `run` returns.

## Model

| member | source | states |
|---|---|---|
| `Tabfy.NewPlugin` | src/main.rs:22-31 | the catalog holds exactly one schema, with pattern `(?i)tabfy` and recipe `tabfy` |
| `Tabfy.ParseSpanIntoString` | src/main.rs:92-99 | the host is asked for the span `start..end`; a host error is passed on unchanged; otherwise the result is `Ok` exactly when the bytes are valid UTF-8, and then the text's encoding is those bytes; invalid bytes give "Invalid UTF-8 sequence", labelled at that span |
| `Tabfy.ExtractCommand` | src/main.rs:68-69 | a fragment exists exactly when the text contains a pipe character; it is a prefix of the text, holds no pipe, and is directly followed by a pipe in the text |
| `Tabfy.Run` | src/main.rs:57-88 | non-string input: the type-mismatch error labelled at the call head, with the input's type name; string input: the text of the span from the input's start to the call head's start is read; a failed read panics; text without a pipe gives the missing-pipe error labelled at the call head; otherwise `Ok` of a string value whose span is the call head and whose contents are the text before the first pipe |
| `Seqs.IndexOf` | src/main.rs:68 | `None` exactly when the element is absent; otherwise an in-range index holding the element, with no earlier occurrence |
| `Utf8.DecodeEncode` | src/main.rs:95 | every string's UTF-8 encoding is valid and decodes back to that string |
| `Utf8.Decode` | src/main.rs:95 | decoded text re-encodes to exactly the bytes it came from, so every valid byte sequence is the encoding of its text; with `DecodeEncode` and `EncodeScalarDecodeFirst` it accepts exactly the well-formed, shortest-form UTF-8 and inverts `Encode` |
| `Utf8.EncodeScalarDecodeFirst` | src/main.rs:95 | the bytes taken by one decoded scalar value are exactly that value's shortest encoding, so no overlong form is accepted |
| `Utf8.PipeByteOnlyEncodesPipe` | src/main.rs:68 | the byte 0x7C occurs in the encoding of a character only when that character is the pipe |
| `Utf8.PipeByteIndex` | src/main.rs:68 | the first 0x7C byte of a string's encoding is where the encoding of its first pipe character starts, and there is none when the string has no pipe |
| `Utf8.PipeCutBytes` | src/main.rs:68-69 | slicing the bytes at the offset that the search for the pipe byte returns gives the encoding of the characters before the first pipe |
| `TabfyProperties.CutAtFirstPipeUnique` | src/main.rs:68-69 | a text has at most one fragment before its first pipe |
| `TabfyProperties.ExtractCommandFindsCut` | src/main.rs:68-69 | when a text has a fragment before its first pipe, that fragment is what is extracted; with `ExtractCommand`'s own postcondition this is an if-and-only-if |
| `TabfyProperties.ExtractCommandGitStatus` | src/main.rs:68-69 | the command extracted from `git status `, a pipe, then `columns` is `git status `, with its trailing blank |
| `TabfyProperties.ExtractCommandFirstPipeOnly` | src/main.rs:68-69 | for a command without a pipe, followed by a pipe and any rest (later pipes included), the command is extracted |
| `TabfyProperties.RunIgnoresCatalog` | src/main.rs:59 | the result of `run` does not depend on the plugin's catalog |
| `TabfyProperties.RunIgnoresStringContents` | src/main.rs:66-67 | two string inputs with the same span give the same outcome, whatever their contents |
| `TabfyProperties.RunReadsOnlySourceSpan` | src/main.rs:64-67 | two hosts that agree on the span from the input's start to the call head's start give the same outcome |
| `TabfyProperties.NonStringInputFails` | src/main.rs:80-86 | a non-string input gives the same outcome whatever the host holds: the error "Expected String input from pipeline" with the single label "requires string input; got " followed by the type name, at the call head |
| `TabfyProperties.RunPanicsExactly` | src/main.rs:67 | for a string input, `run` panics exactly when the host's read fails or its bytes are not valid UTF-8 |
| `TabfyProperties.RunCutsBytesAtFirstPipe` | src/main.rs:67-71 | for valid UTF-8 host bytes, `run` returns without panicking; it succeeds exactly when the bytes hold 0x7C; then the result's encoding is the bytes before the first 0x7C |
| `TabfyProperties.IllFormedBytesRejected` | src/main.rs:95-98 | a lone 0xFF, an overlong NUL, an encoded surrogate and a truncated form are invalid; `C3 A9 7C` (an e with acute accent, then a pipe) is valid |

## Left out

- `main`, `serve_plugin` and `JsonSerializer` (src/main.rs:102-104): plugin protocol and I/O plumbing.
- `version`, `commands`, `name`, `description` and `signature` (src/main.rs:10-18, 44-55): metadata handed to the host. There is no logic in them.
- `EngineInterface::get_span_contents` is a call into the host shell. It becomes the `Engine` parameter, a function from a span to the span's bytes or the host's error.
  How the host's `ShellError` turns into a `LabeledError` through `?` is host code. The model passes the host's error on unchanged.
- `Span::new` is host code. Any check it makes that `start <= end` is not part of this model. The span is handed to the host as it is.
- Nushell's value kinds other than strings become one `Other` variant. The text `input.get_type()` prints becomes its `typeName` field.
- The panic that `unwrap` raises becomes the `Panics` outcome, which carries the error it unwrapped. The panic message and the unwinding are not modelled.
- Of a `LabeledError`, the model keeps only the message and the labels (text and span). The error code, help text, URL and inner errors are never set here.
- Regex compilation and matching, catalog lookup, recipe execution in a child process and JSON-to-table conversion do not exist in the code, so they are not modelled.
