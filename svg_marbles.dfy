/**
 * The entry point of src/index.ts: `render` takes a marble string or a
 * `MarbleDiagram` record, resolves the frame time and the name, parses,
 * and renders.  A parse error, which `render` lets escape as an exception,
 * is returned here as `Err`.
 */
module SvgMarbles {
  import opened Wrappers
  import opened MarbleParser
  import opened SvgRenderer

  /** A diagram with an optional title and an optional frame time of its own. */
  datatype MarbleDiagram = MarbleDiagram(name: Option<string>, diagram: string, frameTime: Option<int>)

  /** `string | MarbleDiagram`. */
  datatype DiagramInput = Plain(marble: string) | Record(record: MarbleDiagram)

  datatype MarbleToSvgOptions = MarbleToSvgOptions(theme: ThemeOverrides, frameTime: Option<int>)

  /** The default `options = {}`. */
  const NoOptions: MarbleToSvgOptions := MarbleToSvgOptions(NoOverrides, None)

  /** JavaScript's `n || fallback` on an optional number: absent and 0 give the fallback. */
  function OrElse(n: Option<int>, fallback: int): int {
    if n.Some? && n.value != 0 then n.value else fallback
  }

  /** The frame time `render` parses with. */
  function ResolveFrameTime(d: DiagramInput, options: MarbleToSvgOptions): (frameTime: int)
    ensures frameTime != 0
    ensures (d.Record? && d.record.frameTime.Some? && d.record.frameTime.value != 0) ==>
      frameTime == d.record.frameTime.value
    ensures || frameTime == DefaultFrameTime
            || (options.frameTime.Some? && frameTime == options.frameTime.value)
            || (d.Record? && d.record.frameTime.Some? && frameTime == d.record.frameTime.value)
  {
    match d
    case Plain(_) => OrElse(options.frameTime, DefaultFrameTime)
    case Record(r) => OrElse(r.frameTime, OrElse(options.frameTime, DefaultFrameTime))
  }

  function MarbleText(d: DiagramInput): string {
    match d
    case Plain(s) => s
    case Record(r) => r.diagram
  }

  /** The title: only a record carries one. */
  function Name(d: DiagramInput): Option<string> {
    match d
    case Plain(_) => None
    case Record(r) => r.name
  }

  /** `render(diagram, options)`. */
  function Render(d: DiagramInput, options: MarbleToSvgOptions): (r: Result<seq<SvgElement>, ParseError>)
    ensures Parse(MarbleText(d), ResolveFrameTime(d, options)).Err? <==> r.Err?
  {
    match Parse(MarbleText(d), ResolveFrameTime(d, options))
    case Err(e) => Err(e)
    case Ok(parsed) => Ok(RenderSvg(parsed, RenderOptions(options.theme, Name(d))))
  }

  /** A plain string: the options' frame time unless it is absent or 0, then 10; no name. */
  lemma PlainInput(s: string, options: MarbleToSvgOptions)
    ensures ResolveFrameTime(Plain(s), options)
         == if options.frameTime.Some? && options.frameTime.value != 0 then options.frameTime.value else 10
    ensures Name(Plain(s)) == None
    ensures Render(Plain(s), options) == Render(Record(MarbleDiagram(None, s, None)), options)
  {
  }

  /**
   * A record's own frame time wins over the options'; an absent or zero
   * one falls through to the options', then to 10.
   */
  lemma RecordFrameTime(r: MarbleDiagram, options: MarbleToSvgOptions)
    ensures r.frameTime.Some? && r.frameTime.value != 0 ==> ResolveFrameTime(Record(r), options) == r.frameTime.value
    ensures !(r.frameTime.Some? && r.frameTime.value != 0) ==>
              ResolveFrameTime(Record(r), options) == ResolveFrameTime(Plain(r.diagram), options)
    ensures ResolveFrameTime(Record(r), NoOptions) == if r.frameTime.Some? && r.frameTime.value != 0 then r.frameTime.value else 10
  {
  }

  /**
   * `render` is parsing then rendering: the name comes only from the record,
   * the theme is passed through, and a parse error comes out unchanged.
   */
  lemma RenderIsParseThenRender(d: DiagramInput, options: MarbleToSvgOptions)
    ensures var parsed := Parse(MarbleText(d), ResolveFrameTime(d, options));
      && (parsed.Err? ==> Render(d, options) == Err(parsed.error))
      && (parsed.Ok? ==> Render(d, options) == Ok(RenderSvg(parsed.value, RenderOptions(options.theme, Name(d)))))
    ensures d.Record? ==> Name(d) == d.record.name
  {
  }

  /** Two examples: a bad marble fails with the parser's error; an empty one draws an empty canvas. */
  lemma RenderExamples()
    ensures Render(Plain(")"), NoOptions) == Err(UnexpectedClosingParenthesis)
    ensures Render(Plain(""), NoOptions).Ok?
    ensures |Render(Plain(""), NoOptions).value| == 4
  {
    assert ")"[0] == ')';
  }
}
