/** The `tabfy` command of the tabfy shell plugin: it receives the value piped
    into it, asks the host shell for the source text from the start of that
    value up to the command's own name, and returns the part of that text that
    precedes the first `'|'`, i.e. the upstream command the user typed. */
module Tabfy {
  import opened Wrappers
  import opened Seqs
  import Utf8

  /** A byte range of the host shell's source buffer. */
  datatype Span = Span(start: nat, end: nat)

  datatype ErrorLabel = ErrorLabel(text: string, span: Span)

  /** A user-visible failure: a message and the labels pointing into the source. */
  datatype LabeledError = LabeledError(msg: string, labels: seq<ErrorLabel>)

  /** A shell value with its span. Only strings are told apart; every other kind
      of value is `Other`, carrying the name the shell reports for its type. */
  datatype Value =
    | String(val: string, internalSpan: Span)
    | Other(typeName: string, internalSpan: Span)

  /** The call of the command; `head` is the span of the command's name. */
  datatype EvaluatedCall = EvaluatedCall(head: Span)

  /** The host's `get_span_contents`: the raw bytes of a span, or the host's error. */
  type Engine = Span -> Result<seq<Utf8.Byte>, LabeledError>

  /** One catalog entry: a pattern for command text and the recipe to run for it. */
  datatype Schema = Schema(regex: string, recipe: string)

  datatype TabfyPlugin = TabfyPlugin(schemas: seq<Schema>)

  /** What `run` does: it returns a result, or it panics (the `unwrap` of a failed read). */
  datatype Outcome =
    | Returns(result: Result<Value, LabeledError>)
    | Panics(cause: LabeledError)

  const TypeMismatchMsg := "Expected String input from pipeline"
  const TypeMismatchLabel := "requires string input; got "
  const MissingPipeMsg := "Expected '|' in input string"
  const MissingPipeLabel := "input string does not contain '|'"
  const InvalidUtf8Msg := "Invalid UTF-8 sequence"
  const InvalidUtf8Label := "span contents are not valid UTF-8"

  /** The plugin's catalog: a single schema, matching "tabfy" in any case. */
  function NewPlugin(): (p: TabfyPlugin)
    ensures |p.schemas| == 1
    ensures p.schemas[0].regex == "(?i)tabfy" && p.schemas[0].recipe == "tabfy"
  {
    TabfyPlugin([Schema("(?i)tabfy", "tabfy")])
  }

  /** Reads the span `start..end` from the host and decodes it as UTF-8. */
  function ParseSpanIntoString(engine: Engine, start: nat, end: nat): (r: Result<string, LabeledError>)
    ensures engine(Span(start, end)).Err? ==> r == Err(engine(Span(start, end)).error)
    ensures engine(Span(start, end)).Ok? ==>
      var bytes := engine(Span(start, end)).value;
      && (r.Ok? <==> Utf8.Valid(bytes))
      && (r.Ok? ==> Utf8.Encode(r.value) == bytes)
      && (r.Err? ==> r.error == LabeledError(InvalidUtf8Msg, [ErrorLabel(InvalidUtf8Label, Span(start, end))]))
  {
    var span := Span(start, end);
    match engine(span)
    case Err(e) => Err(e)
    case Ok(bytes) =>
      match Utf8.Decode(bytes)
      case None => Err(LabeledError(InvalidUtf8Msg, [ErrorLabel(InvalidUtf8Label, span)]))
      case Some(s) =>
        Ok(s)
  }

  /** `fragment` is `text` up to, and not including, its first `'|'`. */
  predicate CutAtFirstPipe(text: string, fragment: string)
  {
    && |fragment| < |text|
    && text[..|fragment|] == fragment
    && text[|fragment|] == '|'
    && '|' !in fragment
  }

  /** The command typed before the first `'|'`, or `None` when `text` has no `'|'`. */
  function ExtractCommand(text: string): (r: Option<string>)
    ensures r.Some? <==> '|' in text
    ensures r.Some? ==> CutAtFirstPipe(text, r.value)
  {
    match IndexOf(text, '|')
    case None => None
    case Some(i) => Some(text[..i])
  }

  /** The span whose text `run` examines: from the input's start to the command name's start. */
  function SourceSpan(call: EvaluatedCall, input: Value): Span
  {
    Span(input.internalSpan.start, call.head.start)
  }

  /** `Tabfy::run`. The catalog is passed in and never consulted. */
  function Run(plugin: TabfyPlugin, engine: Engine, call: EvaluatedCall, input: Value): (o: Outcome)
    ensures input.Other? ==>
      o == Returns(Err(LabeledError(TypeMismatchMsg, [ErrorLabel(TypeMismatchLabel + input.typeName, call.head)])))
    ensures input.String? ==>
      var read := ParseSpanIntoString(engine, SourceSpan(call, input).start, SourceSpan(call, input).end);
      && (read.Err? ==> o == Panics(read.error))
      && (read.Ok? && '|' !in read.value ==>
            o == Returns(Err(LabeledError(MissingPipeMsg, [ErrorLabel(MissingPipeLabel, call.head)]))))
      && (read.Ok? && '|' in read.value ==>
            && o.Returns? && o.result.Ok? && o.result.value.String?
            && o.result.value.internalSpan == call.head
            && CutAtFirstPipe(read.value, o.result.value.val))
  {
    match input
    case String(_, _) =>
      var span := SourceSpan(call, input);
      (match ParseSpanIntoString(engine, span.start, span.end)
       case Err(e) => Panics(e)
       case Ok(text) =>
         match ExtractCommand(text)
         case Some(command) => Returns(Ok(String(command, call.head)))
         case None => Returns(Err(LabeledError(MissingPipeMsg, [ErrorLabel(MissingPipeLabel, call.head)]))))
    case Other(typeName, _) =>
      Returns(Err(LabeledError(TypeMismatchMsg, [ErrorLabel(TypeMismatchLabel + typeName, call.head)])))
  }
}
