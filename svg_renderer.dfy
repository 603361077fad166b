/**
 * The SVG renderer of src/svg-renderer.ts.
 *
 * The theme merge and the layout numbers are pure functions; the markup is
 * modelled as the sequence of SVG elements the renderer appends, each
 * carrying the attribute values that the source writes into its template
 * literals, with exact `real` arithmetic.  `RenderSvg` gives the output as a
 * function of the inputs and `RenderMarbleDiagramToSvg` is the loop that
 * appends one group of shapes per event, proved to produce it.
 */
module SvgRenderer {
  import opened Wrappers
  import opened MarbleParser

  datatype SvgTheme = SvgTheme(
    backgroundColor: string,
    lineColor: string,
    valueColor: string,
    errorColor: string,
    completeColor: string,
    textColor: string,
    fontSize: real,
    lineWidth: real,
    circleRadius: real,
    circleStrokeColor: Option<string>,
    circleStrokeWidth: Option<real>,
    padding: real,    // vertical padding only
    rowHeight: real,
    timeScale: real)

  const DefaultTheme: SvgTheme := SvgTheme(
    "#ffffff", "#333333", "#4CAF50", "#f44336", "#2196F3", "#000000",
    14.0, 2.0, 8.0, None, None, 25.0, 60.0, 3.0)

  /** A partial theme: `None` marks a field the caller did not give. */
  datatype ThemeOverrides = ThemeOverrides(
    backgroundColor: Option<string>,
    lineColor: Option<string>,
    valueColor: Option<string>,
    errorColor: Option<string>,
    completeColor: Option<string>,
    textColor: Option<string>,
    fontSize: Option<real>,
    lineWidth: Option<real>,
    circleRadius: Option<real>,
    circleStrokeColor: Option<string>,
    circleStrokeWidth: Option<real>,
    padding: Option<real>,
    rowHeight: Option<real>,
    timeScale: Option<real>)

  const NoOverrides: ThemeOverrides :=
    ThemeOverrides(None, None, None, None, None, None, None, None, None, None, None, None, None, None)

  datatype RenderOptions = RenderOptions(theme: ThemeOverrides, name: Option<string>)

  /** One element of the generated markup, with the attribute values it is written with. */
  datatype SvgElement =
    | SvgOpen(width: real, height: real)                 // <svg width height viewBox="0 0 width height">
    | Rect(width: real, height: real, fill: string)
    | Line(x1: real, y1: real, x2: real, y2: real, stroke: string, strokeWidth: real)
    | Circle(cx: real, cy: real, r: real, fill: string, stroke: string, strokeWidth: real)
    | Text(x: real, y: real, centered: bool, fontSize: real, fill: string, content: string)
    | SvgClose

  /** JavaScript truthiness of an optional string: present and not empty. */
  predicate Truthy(s: Option<string>) {
    s.Some? && s.value != ""
  }

  /** `{ ...defaultTheme, ...overrides }`: every given field replaces the default. */
  function MergeTheme(o: ThemeOverrides): SvgTheme {
    var d := DefaultTheme;
    SvgTheme(
      o.backgroundColor.GetOr(d.backgroundColor),
      o.lineColor.GetOr(d.lineColor),
      o.valueColor.GetOr(d.valueColor),
      o.errorColor.GetOr(d.errorColor),
      o.completeColor.GetOr(d.completeColor),
      o.textColor.GetOr(d.textColor),
      o.fontSize.GetOr(d.fontSize),
      o.lineWidth.GetOr(d.lineWidth),
      o.circleRadius.GetOr(d.circleRadius),
      if o.circleStrokeColor.Some? then o.circleStrokeColor else d.circleStrokeColor,
      if o.circleStrokeWidth.Some? then o.circleStrokeWidth else d.circleStrokeWidth,
      o.padding.GetOr(d.padding),
      o.rowHeight.GetOr(d.rowHeight),
      o.timeScale.GetOr(d.timeScale))
  }

  /** `theme.circleStrokeWidth || lineWidth`: an absent or zero width falls back to the line width. */
  function StrokeWidth(theme: SvgTheme): real {
    if theme.circleStrokeWidth.Some? && theme.circleStrokeWidth.value != 0.0
    then theme.circleStrokeWidth.value
    else theme.lineWidth
  }

  /** `theme.circleStrokeColor || theme.lineColor`: an absent or empty colour falls back to the line colour. */
  function StrokeColor(theme: SvgTheme): string {
    if Truthy(theme.circleStrokeColor) then theme.circleStrokeColor.value else theme.lineColor
  }

  /** Marble radius with its stroke, plus the approximate width of one glyph, plus a 5px buffer. */
  function HorizontalPadding(theme: SvgTheme): real {
    (theme.circleRadius + StrokeWidth(theme)) + theme.fontSize * 0.6 + 5.0
  }

  /** The numbers computed before the events are drawn. */
  datatype Layout = Layout(
    theme: SvgTheme,
    horizontalPadding: real,
    width: real,
    height: real,
    y: real,
    startX: real,
    endX: real)

  function ComputeLayout(diagram: ParsedMarbleDiagram, theme: SvgTheme): Layout {
    var hp := HorizontalPadding(theme);
    var span := diagram.duration as real * theme.timeScale;
    Layout(theme, hp, span + hp * 2.0, theme.rowHeight + theme.padding * 2.0,
           theme.padding + theme.rowHeight / 2.0, hp, hp + span)
  }

  /** The horizontal position of an event. */
  function EventX(layout: Layout, e: MarbleEvent): real {
    layout.startX + e.time as real * layout.theme.timeScale
  }

  /** The midpoint of a line. */
  function MidX(l: SvgElement): real requires l.Line? { (l.x1 + l.x2) / 2.0 }
  function MidY(l: SvgElement): real requires l.Line? { (l.y1 + l.y2) / 2.0 }

  /**
   * The shapes drawn for one event, all centred on the event's point of the
   * baseline: a circle (and a label iff the value is non-empty) for `next`,
   * an X of two crossing lines for `error`, a vertical bar for `complete`.
   */
  function EventShapes(layout: Layout, e: MarbleEvent): seq<SvgElement>
  {
    var x, y, th := EventX(layout, e), layout.y, layout.theme;
    var r := th.circleRadius;
    match e.kind
    case Next =>
      [Circle(x, y, r, th.valueColor, StrokeColor(th), StrokeWidth(th))]
      + (if Truthy(e.value) then [Text(x, y + 5.0, true, th.fontSize, th.textColor, e.value.value)] else [])
    case Error =>
      [Line(x - r, y - r, x + r, y + r, th.errorColor, th.lineWidth * 1.5),
       Line(x - r, y + r, x + r, y - r, th.errorColor, th.lineWidth * 1.5)]
    case Complete =>
      [Line(x, y - r * 1.5, x, y + r * 1.5, th.completeColor, th.lineWidth * 2.0)]
  }

  /** `f` of each element of `xs`, the results one after another. */
  function FlatMap<A, B>(f: A -> seq<B>, xs: seq<A>): seq<B>
  {
    if xs == [] then [] else FlatMap(f, xs[..|xs| - 1]) + f(xs[|xs| - 1])
  }

  /** The shapes of a sequence of events, one group after another in event order. */
  function Shapes(layout: Layout, events: seq<MarbleEvent>): seq<SvgElement>
  {
    FlatMap(e => EventShapes(layout, e), events)
  }

  /** The open tag, the background, the baseline and the optional name label. */
  function Prologue(layout: Layout, name: Option<string>): seq<SvgElement> {
    var th := layout.theme;
    [SvgOpen(layout.width, layout.height),
     Rect(layout.width, layout.height, th.backgroundColor),
     Line(layout.startX, layout.y, layout.endX, layout.y, th.lineColor, th.lineWidth)]
    + (if Truthy(name)
       then [Text(layout.horizontalPadding, th.padding - 5.0, false, th.fontSize, th.textColor, name.value)]
       else [])
  }

  /** The whole output of `renderMarbleDiagramToSVG`. */
  function RenderSvg(diagram: ParsedMarbleDiagram, options: RenderOptions): seq<SvgElement> {
    var layout := ComputeLayout(diagram, MergeTheme(options.theme));
    Prologue(layout, options.name) + Shapes(layout, diagram.events) + [SvgClose]
  }

  /** The `forEach` callback: appends the shapes of one event. */
  method DrawEvent(svg: seq<SvgElement>, layout: Layout, event: MarbleEvent) returns (out: seq<SvgElement>)
    ensures out == svg + EventShapes(layout, event)
  {
    var theme, y := layout.theme, layout.y;
    var x := layout.startX + event.time as real * theme.timeScale;
    out := svg;
    assert EventX(layout, event) == x;
    match event.kind {
      case Next =>
        var strokeColor := StrokeColor(theme);
        var strokeWidth := StrokeWidth(theme);
        var circle := Circle(x, y, theme.circleRadius, theme.valueColor, strokeColor, strokeWidth);
        out := out + [circle];
        if Truthy(event.value) {
          var caption := Text(x, y + 5.0, true, theme.fontSize, theme.textColor, event.value.value);
          out := out + [caption];
          assert out == svg + ([circle] + [caption]);
        } else {
          assert [circle] + [] == [circle];
        }
      case Error =>
        var r := theme.circleRadius;
        var down := Line(x - r, y - r, x + r, y + r, theme.errorColor, theme.lineWidth * 1.5);
        var up := Line(x - r, y + r, x + r, y - r, theme.errorColor, theme.lineWidth * 1.5);
        out := out + [down];
        out := out + [up];
        assert out == svg + [down, up];
      case Complete =>
        var r := theme.circleRadius;
        out := out + [Line(x, y - r * 1.5, x, y + r * 1.5, theme.completeColor, theme.lineWidth * 2.0)];
    }
  }

  /** The set-up of `renderMarbleDiagramToSVG`: sizes, the open tag, the background, the baseline and the name. */
  method DrawPrologue(diagram: ParsedMarbleDiagram, options: RenderOptions)
    returns (svg: seq<SvgElement>, layout: Layout)
    ensures layout == ComputeLayout(diagram, MergeTheme(options.theme))
    ensures svg == Prologue(layout, options.name)
  {
    var theme := MergeTheme(options.theme);
    var strokeWidth := StrokeWidth(theme);
    var maxMarbleRadius := theme.circleRadius + strokeWidth;
    var textWidth := theme.fontSize * 0.6;
    var horizontalPadding := maxMarbleRadius + textWidth + 5.0;

    var width := diagram.duration as real * theme.timeScale + horizontalPadding * 2.0;
    var height := theme.rowHeight + theme.padding * 2.0;

    svg := [SvgOpen(width, height)];
    svg := svg + [Rect(width, height, theme.backgroundColor)];

    var y := theme.padding + theme.rowHeight / 2.0;
    var startX := horizontalPadding;
    var endX := startX + diagram.duration as real * theme.timeScale;

    svg := svg + [Line(startX, y, endX, y, theme.lineColor, theme.lineWidth)];

    if Truthy(options.name) {
      svg := svg + [Text(horizontalPadding, theme.padding - 5.0, false, theme.fontSize, theme.textColor, options.name.value)];
    }

    layout := Layout(theme, horizontalPadding, width, height, y, startX, endX);
  }

  /** The renderer as written: the set-up, then a loop appending each event's shapes, then the closing tag. */
  method RenderMarbleDiagramToSvg(diagram: ParsedMarbleDiagram, options: RenderOptions)
    returns (svg: seq<SvgElement>)
    ensures svg == RenderSvg(diagram, options)
  {
    var layout;
    svg, layout := DrawPrologue(diagram, options);
    ghost var prologue := svg;
    var events := diagram.events;
    for k := 0 to |events|
      invariant svg == prologue + Shapes(layout, events[..k])
    {
      assert events[..k + 1][..k] == events[..k];
      svg := DrawEvent(svg, layout, events[k]);
    }
    assert events[..|events|] == events;
    svg := svg + [SvgClose];
  }
}
