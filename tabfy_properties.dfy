/** Properties of the `tabfy` command that relate several calls, or that restate
    its behaviour in terms of the raw bytes the host hands over. */
module TabfyProperties {
  import opened Wrappers
  import opened Seqs
  import Utf8
  import opened Tabfy

  /** There is only one way to cut a text at its first `'|'`. */
  lemma CutAtFirstPipeUnique(text: string, f: string, g: string)
    requires CutAtFirstPipe(text, f) && CutAtFirstPipe(text, g)
    ensures f == g
  {
  }

  /** `ExtractCommand` finds the cut whenever there is one, so together with its
      postcondition: `ExtractCommand(text) == Some(f)` exactly when `f` is the text before the first `'|'`. */
  lemma ExtractCommandFindsCut(text: string, f: string)
    requires CutAtFirstPipe(text, f)
    ensures ExtractCommand(text) == Some(f)
  {
  }

  /** The upstream command of `git status | columns` is `git status ` (trailing blank kept). */
  lemma ExtractCommandGitStatus()
    ensures ExtractCommand("git status | columns") == Some("git status ")
  {
    ExtractCommandFindsCut("git status | columns", "git status ");
  }

  /** Only the first `'|'` matters: later pipes stay in the rest of the text. */
  lemma ExtractCommandFirstPipeOnly(command: string, rest: string)
    requires '|' !in command
    ensures ExtractCommand(command + "|" + rest) == Some(command)
  {
    var text := command + "|" + rest;
    assert text[..|command|] == command;
    assert text[|command|] == '|';
    ExtractCommandFindsCut(text, command);
  }

  /** `run` ignores the plugin's catalog. */
  lemma RunIgnoresCatalog(p1: TabfyPlugin, p2: TabfyPlugin, engine: Engine, call: EvaluatedCall, input: Value)
    ensures Run(p1, engine, call, input) == Run(p2, engine, call, input)
  {
  }

  /** `run` ignores the string's own contents: only its span is used. */
  lemma RunIgnoresStringContents(plugin: TabfyPlugin, engine: Engine, call: EvaluatedCall, v1: string, v2: string, span: Span)
    ensures Run(plugin, engine, call, String(v1, span)) == Run(plugin, engine, call, String(v2, span))
  {
  }

  /** The only text `run` reads is the span from the input's start to the command name's start. */
  lemma RunReadsOnlySourceSpan(plugin: TabfyPlugin, e1: Engine, e2: Engine, call: EvaluatedCall, input: Value)
    requires e1(SourceSpan(call, input)) == e2(SourceSpan(call, input))
    ensures Run(plugin, e1, call, input) == Run(plugin, e2, call, input)
  {
  }

  /** A non-string input fails with the type-mismatch error whatever the host's text is. */
  lemma NonStringInputFails(plugin: TabfyPlugin, e1: Engine, e2: Engine, call: EvaluatedCall, input: Value)
    requires !input.String?
    ensures Run(plugin, e1, call, input) == Run(plugin, e2, call, input)
    ensures Run(plugin, e1, call, input) ==
      Returns(Err(LabeledError(TypeMismatchMsg, [ErrorLabel(TypeMismatchLabel + input.typeName, call.head)])))
  {
  }

  /** `run` panics exactly when the host cannot supply the span or its bytes are not UTF-8. */
  lemma RunPanicsExactly(plugin: TabfyPlugin, engine: Engine, call: EvaluatedCall, input: Value)
    requires input.String?
    ensures Run(plugin, engine, call, input).Panics? <==>
      (engine(SourceSpan(call, input)).Err? || !Utf8.Valid(engine(SourceSpan(call, input)).value))
  {
  }

  /** On the bytes the host supplies: when they are valid UTF-8, `run` succeeds exactly
      when they hold the byte `'|'`, and the returned string's bytes are then the bytes
      before the first one; this is Rust's `find('|')` byte offset and byte slice. */
  lemma RunCutsBytesAtFirstPipe(plugin: TabfyPlugin, engine: Engine, call: EvaluatedCall, input: Value, bytes: seq<Utf8.Byte>)
    requires input.String?
    requires engine(SourceSpan(call, input)) == Ok(bytes) && Utf8.Valid(bytes)
    ensures Run(plugin, engine, call, input).Returns?
    ensures Run(plugin, engine, call, input).result.Ok? <==> Utf8.PipeByte in bytes
    ensures Run(plugin, engine, call, input).result.Ok? ==>
      var k := IndexOf(bytes, Utf8.PipeByte).value;
      Utf8.Encode(Run(plugin, engine, call, input).result.value.val) == bytes[..k]
  {
    var text := Utf8.Decode(bytes).value;
    Utf8.PipeByteIndex(text);
    if '|' in text {
      Utf8.PipeCutBytes(text);
      ExtractCommandFindsCut(text, text[..IndexOf(text, '|').value]);
    }
  }

  /** Bytes `String::from_utf8` refuses: a lone 0xFF, an overlong encoding of U+0000,
      an encoded surrogate and a truncated two-byte form; `run` panics on each. */
  lemma IllFormedBytesRejected()
    ensures !Utf8.Valid([0xFF])
    ensures !Utf8.Valid([0xC0, 0x80])
    ensures !Utf8.Valid([0xED, 0xA0, 0x80])
    ensures !Utf8.Valid([0xC3])
    ensures Utf8.Valid([0xC3, 0xA9, 0x7C])
  {
  }
}
