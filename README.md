# svg-marbles in Dafny

A verified model of the core of **svg-marbles**. The library turns RxJS-style
marble notation (`"a--b--(cd)--|"`) into an SVG timeline. It also turns a
list of captured stream emissions back into that notation.

The model covers four pieces of logic.

- **The marble parser** (`src/marble-parser.ts`), module `MarbleParser`.
  - `ParseFrom`/`Parse` give the meaning of a marble string as a function of
    the remaining input. A parse error is a `Result` error, not an exception.
  - `ParseMarbleDiagram` is the scanner as written:
    - an index loop that pushes events, advances `currentTime` and throws on
      the two error cases;
    - it jumps past a group with `i := closeIndex`;
    - it is proved equal to `Parse`.
  - Its `switch` is split into the `(` case (`ScanGroup`, with the inner loop
    `PushGroup`) and every other character (`ScanAtom`).
  - `MarbleParserProperties` proves the notation's laws and the worked
    examples.
  - `MarbleTokens` is an independent token-level reading of the grammar. The
    parser is proved to be "tokenize, then interpret", which gives the
    closed-form duration.
- **The SVG renderer** (`src/svg-renderer.ts`), module `SvgRenderer`.
  - The theme merge, the padding and the canvas sizes are pure functions over
    exact `real`s.
  - The markup is the sequence of SVG elements the renderer appends. Each
    element carries the attribute values written into its template literal.
  - `RenderMarbleDiagramToSvg` is the set-up followed by the `forEach` loop
    that appends one group of shapes per event. It is proved equal to the
    function `RenderSvg`.
  - `SvgRendererProperties` proves the layout and ordering laws.
- **The emission-to-marble encoder** (`src/capture-observable.ts`,
  `messagesToMarbles` and `getNextAvailableChar`), module `CaptureObservable`.
  - The loop state of `messagesToMarbles` is the record `Encoder`. `Step` is
    one turn of the loop and `Run` the whole loop.
  - The methods `MessagesToMarbles`, `EncodeMessage`, `PadFrames`,
    `WriteValue` and `GetNextAvailableChar` are the source's loops, proved to
    compute those functions.
  - `CaptureProperties` proves three things: the sort is a stable sort by
    frame; the label generator terminates and returns the first free label;
    the k-th distinct value gets the k-th label, recorded in both directions.
  - `CaptureRoundTrip` proves that the parser reads the encoder's output back
    to the messages.
- **The entry point** `render` (`src/index.ts`), module `SvgMarbles`. It
  resolves the frame time and the name, then parses and renders.

`Wrappers` holds the `Option` and `Result` datatypes.

Where the comment in `getNextAvailableChar` and its code disagree, the model
follows the code. The comment promises labels `aa, ab, …` past the alphabet.
The code writes the letter `index % 26` followed by the decimal text of
`index / 26`, so index 26 gives `"a1"`.

## Model

| member | source | states |
|---|---|---|
| MarbleParser.IndexOf | src/marble-parser.ts:33 | `indexOf(')', i)`: -1, or a position at or after `i` inside the string that holds the character |
| MarbleParser.IndexOfIsFirst | src/marble-parser.ts:33 | no occurrence lies between the start and the position found; when nothing is found, none lies after the start |
| MarbleParser.IndexOfSuffix | src/marble-parser.ts:33 | searching from `i` in the marble is searching the suffix from 0, shifted by `i` |
| MarbleParser.GroupEvents | src/marble-parser.ts:37-42 | a group emits one event per character of its content other than `-` |
| MarbleParser.GroupEventsPointwise | src/marble-parser.ts:37-42 | the k-th event of a group is a `next` at the group's time carrying the k-th non-dash character, in left-to-right order |
| MarbleParser.PushGroup | src/marble-parser.ts:38-42 | the inner `for…of` loop appends exactly the group's events to `events` |
| MarbleParser.ScanAtom | src/marble-parser.ts:19-57 | one turn of the switch for any character but `(`: it either throws the error the parse fails with, or leaves events/time such that the rest of the scan still yields `Parse` |
| MarbleParser.ScanGroup | src/marble-parser.ts:32-45 | the `(` case: it throws only "unclosed group", only when no `)` follows `i`, and then the parse from `i` fails with that error; otherwise `closeIndex` is the first `)` after `i` and the parse continues after it, one frame later |
| MarbleParser.ScanChar | src/marble-parser.ts:17-57 | one turn of the loop body keeps the invariant "events so far + parse of the rest = parse of the whole" |
| MarbleParser.GroupAt | src/marble-parser.ts:33-44 | a `(` at `i` is unclosed (parse error) or holds the text up to the first `)`, whose events precede the rest of the parse one frame later |
| MarbleParser.ParseFrom | src/marble-parser.ts:16-57 | the reference definition of scanning the rest of the marble from time `t`: the scanner is proved to compute it (`ScanChar`, `ParseMarbleDiagram`) and its laws are the lemmas below (`ParseAppend`, `ParseOrdersTimes`, `ParseScales`, `ParseIsInterpretation`) |
| MarbleParser.Parse | src/marble-parser.ts:12-64 | the result of `parseMarbleDiagram(marble, frameTime)`: the scan of the whole marble from time 0; the scanner computes it (`ParseMarbleDiagram`), and `ParseOrdersTimes`, `ParseScales`, `DurationCountsFrames` and `ExampleSequence` state what it yields |
| MarbleParser.ParseMarbleDiagram | src/marble-parser.ts:12-64 | the scanner as written returns exactly `Parse(marble, frameTime)`, the events and duration or the thrown error |
| MarbleParserProperties.IndexOfPrefix | src/marble-parser.ts:33 | a `)` found in a prefix is found at the same place once text is appended |
| MarbleParserProperties.ParseAppend | src/marble-parser.ts:16-58 | scanning `a + b` is scanning `a`, then `b` from the time `a` ended, with `a`'s events first |
| MarbleParserProperties.SpaceIsIgnored | src/marble-parser.ts:50-51 | inserting a space outside a group changes neither events nor time |
| MarbleParserProperties.StrayCloseFails | src/marble-parser.ts:47-48 | a `)` reached by the scanner outside a group makes the whole parse fail with "unexpected closing parenthesis"; no partial result |
| MarbleParserProperties.UnclosedGroupFails | src/marble-parser.ts:33-36 | a `(` with no `)` after it makes the whole parse fail with "unclosed group" |
| MarbleParserProperties.GroupEmitsOnce | src/marble-parser.ts:37-44 | `(g)rest` emits every non-dash character of `g` (the complete and error marks, space and `(` included) at the current time, then resumes after the `)` exactly one frame later |
| MarbleParserProperties.ParseOrdersTimes | src/marble-parser.ts:16-57 | with a non-negative frame time, event times never decrease and all lie between the start time and the duration |
| MarbleParserProperties.ParseScales | src/marble-parser.ts:16-57 | parsing with frame time k is parsing with frame time 1 with every time and the duration multiplied by k |
| MarbleParserProperties.TimesAreMultiples | src/marble-parser.ts:20-56 | every event time and the duration are the frame time times those of the unit-frame parse; success does not depend on the frame time |
| MarbleParserProperties.ParsedEventsWellShaped | src/marble-parser.ts:24-56 | a `next` event carries exactly one character; `error` and `complete` carry none |
| MarbleParserProperties.EmptyParses | src/marble-parser.ts:60-63 | the empty string gives no events and duration 0 |
| MarbleParserProperties.ExampleError | src/marble-parser.ts:24-30 | `"a--#"` at 10 gives `a@0, error@30`, duration 30: `#` does not advance time |
| MarbleParserProperties.ValueThenTwoDashes | src/marble-parser.ts:53-56 | a value then `--` emits the value now and moves the rest three frames later |
| MarbleParserProperties.CompleteParses | src/marble-parser.ts:24-26 | the complete mark emits `complete` at the current time and takes no time |
| MarbleParserProperties.ErrorParses | src/marble-parser.ts:28-30 | the error mark emits `error` at the current time and takes no time |
| MarbleParserProperties.ExampleSequence | src/marble-parser.ts:16-57 | the marble `a--b--c--d--` closed by the complete mark, at 10, gives values at 0, 30, 60, 90 and `complete` at 120 |
| MarbleParserProperties.ExampleGroupThenComplete | src/marble-parser.ts:32-45 | the marble `(ab)--` closed by the complete mark, at 10, gives `a@0, b@0, complete@30`, duration 30 |
| MarbleParserProperties.ExampleErrors | src/marble-parser.ts:33-48 | `"(ab"` fails as unclosed and `")"` as an unexpected closing parenthesis |
| MarbleTokens.TokenizeSpells | src/marble-parser.ts:19-57 | the tokens spell the input back exactly, and each is well formed (no `)` in a group, no reserved value) |
| MarbleTokens.TokenizeUnique | src/marble-parser.ts:19-57 | well-formed tokens are the only tokenization of their spelling (tokenize inverts spell) |
| MarbleTokens.ParseIsInterpretation | src/marble-parser.ts:16-57 | the parser is tokenize-then-interpret: same events in token order, same duration, same error |
| MarbleTokens.InterpretDuration | src/marble-parser.ts:20-56 | the duration is the start time plus the frame time per dash, value and group; nothing else takes time |
| MarbleTokens.DurationCountsFrames | src/marble-parser.ts:60-63 | `duration` = frameTime x (dashes outside groups + plain values + groups); the parse fails exactly when tokenizing does, with the same error |
| SvgRenderer.DrawEvent | src/svg-renderer.ts:66-92 | the `forEach` callback appends exactly the event's shapes and nothing else |
| SvgRenderer.MergeTheme | src/svg-renderer.ts:41 | the spread `{ ...defaultTheme, ...theme }` field by field; what it yields for given and absent overrides is `MergeThemeOverlays` |
| SvgRenderer.HorizontalPadding | src/svg-renderer.ts:44-48 | circle radius plus stroke width plus the text allowance 0.6 x font size + 5, where a zero or absent circle stroke width falls back to the line width; `HorizontalPaddingFallback` states both cases |
| SvgRenderer.ComputeLayout | src/svg-renderer.ts:50-58 | canvas width, height and baseline; the default-theme numbers are `DefaultLayout` and the bounds on event positions `EventOnBaseline` and `MarbleInsideCanvas` |
| SvgRenderer.StrokeWidth | src/svg-renderer.ts:72 | the circle stroke width, falling back to the line width as JavaScript `or` does (also line 45); `StrokeFallbacks` states the fallback for a zero or absent width and the given width otherwise |
| SvgRenderer.StrokeColor | src/svg-renderer.ts:71 | the circle stroke colour, falling back to the line colour as JavaScript `or` does; `StrokeFallbacks` states the fallback for an empty or absent colour and the given colour otherwise |
| SvgRenderer.EventX | src/svg-renderer.ts:67 | the x of an event, `startX + time x timeScale`; `EventOnBaseline` puts it on the baseline and `MarbleInsideCanvas` keeps its marble inside the canvas |
| SvgRenderer.Prologue | src/svg-renderer.ts:53-64 | the open tag, background, baseline and the name when it is truthy; `DrawPrologue` writes it and `RenderFrame` states its elements and their attribute values |
| SvgRenderer.RenderSvg | src/svg-renderer.ts:40-97 | the whole output of the renderer; the loop computes it (`RenderMarbleDiagramToSvg`), and `RenderFrame`, `EventDrawnInOrder` and `EmptyDiagramIsMinimal` state what it holds |
| SvgRenderer.EventShapes | src/svg-renderer.ts:66-92 | the shapes drawn for one event; which shapes each kind gets and where is `EventShapesGeometry` |
| SvgRenderer.DrawPrologue | src/svg-renderer.ts:41-64 | the set-up computes the layout of the merged theme and writes the open tag, background, baseline and optional name |
| SvgRenderer.RenderMarbleDiagramToSvg | src/svg-renderer.ts:40-97 | the renderer as written returns exactly `RenderSvg(diagram, options)`, a function of its inputs alone |
| SvgRendererProperties.MergeThemeOverlays | src/svg-renderer.ts:20-41 | for each of the fourteen fields, a given value replaces the default and an absent one keeps it; no overrides give the default theme |
| SvgRendererProperties.HorizontalPaddingFallback | src/svg-renderer.ts:45-48 | padding = radius + stroke + 0.6 x font size + 5, where a zero or absent circle stroke width counts as the line width |
| SvgRendererProperties.StrokeFallbacks | src/svg-renderer.ts:71-72 | an absent or empty circle stroke colour gives the line colour and a zero or absent circle stroke width the line width; any other value is used as given |
| SvgRendererProperties.DefaultLayout | src/svg-renderer.ts:45-56 | with the default theme: padding 23.4, height 110, baseline at 55, width duration x 3 + 46.8 |
| SvgRendererProperties.EventShapesGeometry | src/svg-renderer.ts:66-92 | `next`: a circle plus a centred label iff the value is non-empty; `error`: two crossing lines of width lineWidth x 1.5 centred on the point; `complete`: one vertical line spanning y +/- 1.5 x radius of width lineWidth x 2 |
| SvgRendererProperties.ShapesAppend | src/svg-renderer.ts:66-92 | the shapes of two runs of events are those of the first followed by those of the second |
| SvgRendererProperties.OneGroupPerEvent | src/svg-renderer.ts:66-92 | the shapes split into exactly one group per event, the i-th group being the i-th event's shapes |
| SvgRendererProperties.ShapesCount | src/svg-renderer.ts:66-92 | the groups start at 0 and together cover all the shapes |
| SvgRendererProperties.RenderFrame | src/svg-renderer.ts:50-96 | output = open tag (width, height), background rect of the same size, baseline from padding to padding + duration x timeScale at y = padding + rowHeight/2, name text iff the name is non-empty, the event shapes, closing tag |
| SvgRendererProperties.EventDrawnInOrder | src/svg-renderer.ts:56-92 | the i-th event's group sits in the output at its group position, drawn at x = horizontalPadding + time x timeScale |
| SvgRendererProperties.EventOnBaseline | src/svg-renderer.ts:56-67 | for 0 <= time <= duration and timeScale >= 0 an event's x lies within the baseline span |
| SvgRendererProperties.MarbleInsideCanvas | src/svg-renderer.ts:44-67 | such an event's marble, stroke included, keeps the full 0.6 x font size + 5 allowance on both sides: its left edge is at least 5 from 0 and its right edge plus the allowance is at most the width |
| SvgRendererProperties.EmptyDiagramIsMinimal | src/svg-renderer.ts:40-97 | an empty unnamed diagram renders as just the frame: open tag, background, zero-length baseline, closing tag |
| CaptureObservable.LettersSpellAlphabet | src/capture-observable.ts:74 | the alphabet is the 26 lower-case letters in order |
| CaptureObservable.DecimalText | src/capture-observable.ts:133 | the decimal text of the round number, as a template literal writes it; it reads back to the number (`DecimalRoundTrip`) |
| CaptureObservable.Label | src/capture-observable.ts:127-134 | the candidate label of an index (a letter, then the decimal round number from 26 on); it reads back to its index (`LabelRoundTrip`), so labels of different indices differ (`LabelInjective`) |
| CaptureObservable.NextAvailableLabel | src/capture-observable.ts:122-139 | the first label at or after the index not in use; that it is unused and first is `NextAvailableIsFirstFree`, and the do-while computes it (`GetNextAvailableChar`) |
| CaptureObservable.InsertByFrame | src/capture-observable.ts:80 | one insertion step of the sort, behind every message of the same or an earlier frame; it permutes (`InsertPermutes`), keeps the order (`InsertKeepsSorted`) and goes behind its frame (`InsertAtFrame`) |
| CaptureObservable.SortByFrame | src/capture-observable.ts:80 | the stable sort by frame; it orders and permutes (`SortOrdersAndPermutes`), is stable (`SortIsStable`) and leaves sorted input alone (`SortKeepsSorted`) |
| CaptureObservable.Emit | src/capture-observable.ts:89-114 | writing one notification's symbol and recording a new value's label; its effect on labels is `KnownValueKeepsLabels`, `NewValueIsRecorded` and `RecordExtendsLabels` |
| CaptureObservable.PadTo | src/capture-observable.ts:84-87 | the padding loop; the method `PadFrames` computes it, `PadKeepsLabels` says it changes only the marble and the frame, and `DashesParse` reads its dashes back as frames |
| CaptureObservable.KnownLabel | src/capture-observable.ts:95-97 | `valueToChar.get(json)`, with "" for a missing key; `KnownValueKeepsLabels` and `RepeatedValueReusesLabel` state its known case and `LabelsAreNonEmpty` that "" means missing |
| CaptureObservable.Step | src/capture-observable.ts:82-117 | one turn of the loop; the method `EncodeMessage` computes it, `StepWrites` states what it writes, and `StepAssignsLabels` the label invariant it keeps |
| CaptureObservable.Run | src/capture-observable.ts:82-117 | the loop over the sorted messages; `MessagesToMarbles` computes it, and `LabelsFollowFirstAppearance` and `PrefixRoundTrip` state the labels it gives and that its marble parses back |
| CaptureObservable.Encode | src/capture-observable.ts:66-120 | the whole capture as a fold over the sorted messages; the loop computes it (`MessagesToMarbles`), its values map is `EncodedValues` and it parses back (`CaptureRoundTrip`) |
| CaptureObservable.DecimalRoundTrip | src/capture-observable.ts:132-133 | the decimal text of the label suffix reads back to its number |
| CaptureObservable.LabelRoundTrip | src/capture-observable.ts:127-134 | every label reads back to the index it was generated from |
| CaptureObservable.LabelInjective | src/capture-observable.ts:127-134 | different indices give different labels |
| CaptureObservable.SkipShrinks | src/capture-observable.ts:126-136 | each label the do-while skips is a distinct used label, so the loop terminates |
| CaptureObservable.GetNextAvailableChar | src/capture-observable.ts:122-139 | the do-while as written returns `NextAvailableLabel(startIndex, usedChars)` |
| CaptureObservable.InsertPermutes | src/capture-observable.ts:80 | one insertion step of the sort adds the message and loses none |
| CaptureObservable.InsertKeepsSorted | src/capture-observable.ts:80 | one insertion step keeps the messages sorted by frame |
| CaptureObservable.PadFrames | src/capture-observable.ts:84-87 | appends one `-` per frame from `currentFrame` up to the message's frame and leaves `currentFrame` at that frame (unchanged when already past it) |
| CaptureObservable.WriteValue | src/capture-observable.ts:93-107 | writes the value's known label or, when missing or empty, the next free label, then records it in `valueToChar`, `usedChars` and `values` and advances `charIndex` |
| CaptureObservable.EncodeMessage | src/capture-observable.ts:82-117 | one pass of the loop body is one `Step`: pad, write the symbol, advance the frame by one |
| CaptureObservable.MessagesToMarbles | src/capture-observable.ts:66-120 | the function as written returns `Encode(messages)`: empty input gives `''`; otherwise the run over the frame-sorted messages |
| CaptureProperties.InsertAtFrame | src/capture-observable.ts:80 | insertion puts a message behind all earlier messages of its frame |
| CaptureProperties.SortIsStable | src/capture-observable.ts:80 | messages of one frame keep their original order after the sort |
| CaptureProperties.SortOrdersAndPermutes | src/capture-observable.ts:80 | the sort orders by non-decreasing frame and is a permutation of its input |
| CaptureProperties.SortKeepsSorted | src/capture-observable.ts:80 | messages already in frame order are left as they are |
| CaptureProperties.LabelExamples | src/capture-observable.ts:127-134 | indices 0, 25, 26, 27, 52 give `a`, `z`, `a1`, `b1`, `a2` |
| CaptureProperties.SingleLetterLabels | src/capture-observable.ts:127-128 | below 26 a label is the one letter `alphabet[i]` |
| CaptureProperties.NextAvailableIsFirstFree | src/capture-observable.ts:122-139 | the result is unused, generated from an index at or after the start, and every label skipped before it is in use |
| CaptureProperties.FirstTrySucceeds | src/capture-observable.ts:126-136 | when exactly the labels below the index are used, the do-while exits on its first iteration |
| CaptureProperties.DistinctIsExact | src/capture-observable.ts:94-105 | the distinct values, in order of first appearance, are pairwise different and are exactly the values of the messages |
| CaptureProperties.PadKeepsLabels | src/capture-observable.ts:84-87 | padding touches only `marble` and `currentFrame` |
| CaptureProperties.KnownValueKeepsLabels | src/capture-observable.ts:95-107 | a value already labelled writes its label and records nothing |
| CaptureProperties.NewValueIsRecorded | src/capture-observable.ts:97-105 | a new value is written and recorded under the label of the current `charIndex` |
| CaptureProperties.RecordExtendsLabels | src/capture-observable.ts:99-104 | recording a new value keeps the label bookkeeping exact, with one more value |
| CaptureProperties.StepAssignsLabels | src/capture-observable.ts:82-117 | every step keeps the invariant "value k of the distinct values has label k, in both maps, and exactly the first labels are used" |
| CaptureProperties.LabelsFollowFirstAppearance | src/capture-observable.ts:97-105 | after any run the k-th distinct value has the k-th generated label, in `valueToChar` and in `values` |
| CaptureProperties.KnownValueStep | src/capture-observable.ts:95-107 | one step over a value with a label writes padding plus that label and leaves all the maps, `usedChars` and `charIndex` unchanged |
| CaptureProperties.RepeatedValueReusesLabel | src/capture-observable.ts:95-107 | a value whose JSON text was seen before is written with its old label, and nothing new is recorded |
| CaptureProperties.NewValueGetsUnusedLabel | src/capture-observable.ts:97-105 | a value not seen before gets a label not yet used and not yet a key of `values`, and both maps are extended with it |
| CaptureProperties.LabelsRoundTrip | src/capture-observable.ts:102-104 | `valueToChar` and `values` are inverse maps: each label maps back to its value, so the label-to-value map is injective |
| CaptureProperties.EncodedValues | src/capture-observable.ts:66-120 | the returned values map has exactly the first labels as keys, mapped to the values in order of first appearance after sorting |
| CaptureProperties.StepWrites | src/capture-observable.ts:84-116 | one message writes its padding dashes and its symbol, and moves `currentFrame` to one past the later of its old value and the message's frame |
| CaptureProperties.EncodeEmpty | src/capture-observable.ts:67-69 | no messages encode to `''` with an empty values map |
| CaptureProperties.SameOrNextFrameNoDash | src/capture-observable.ts:84-116 | a message in a frame already reached is written straight after the previous symbol: no dash, no group |
| CaptureRoundTrip.DashesParse | src/capture-observable.ts:84-87 | the padding dashes parse to no events and move time one frame per dash |
| CaptureRoundTrip.AppendValueParses | src/capture-observable.ts:84-107 | padding then a one-letter label parses to one `next` at the message's frame times the frame time |
| CaptureRoundTrip.AppendTerminalParses | src/capture-observable.ts:108-114 | padding then the error or complete mark parses to one `error` or `complete` at the message's frame times the frame time |
| CaptureRoundTrip.StepKeepsKnownLabels | src/capture-observable.ts:95-105 | a label once given is never changed by later messages |
| CaptureRoundTrip.LabelsAreNonEmpty | src/capture-observable.ts:97-105 | every recorded label is non-empty, so the `!char` test only sees missing labels |
| CaptureRoundTrip.OneLetterLabel | src/capture-observable.ts:127-128 | with at most 26 distinct values every label is one letter |
| CaptureRoundTrip.ValueStep | src/capture-observable.ts:82-116 | the encoder over one more value message appends its gap and its one-letter label and keeps earlier labels |
| CaptureRoundTrip.PrefixRoundTrip | src/capture-observable.ts:82-117 | a replayable run of value messages encodes to a marble that parses to one `next` per message, at its frame, with its label |
| CaptureRoundTrip.AllValuesParseBack | src/capture-observable.ts:82-117 | a replayable list of values parses back message by message |
| CaptureRoundTrip.TerminalWrites | src/capture-observable.ts:108-114 | an error or completion appends its padding and the error or complete mark and records nothing |
| CaptureRoundTrip.TerminalParsesBack | src/capture-observable.ts:82-117 | a replayable list ending in an error or completion parses back message by message |
| CaptureRoundTrip.LabelMapsBack | src/capture-observable.ts:102-104 | the label given to a value maps back to that value through `values` |
| CaptureRoundTrip.CaptureRoundTrip | src/capture-observable.ts:66-120 | under distinct increasing frames, nothing after the terminal and at most 26 distinct values, parsing the marble gives the messages' kinds in order at frame x frameTime, with labels that `values` maps back to the values |
| SvgMarbles.ResolveFrameTime | src/index.ts:23-29 | the frame time is never 0; a record's non-zero frame time wins; otherwise it is the options' or 10 |
| SvgMarbles.OrElse | src/index.ts:25-29 | JavaScript `or` on an optional number: an absent or zero value gives the fallback; `PlainInput` and `RecordFrameTime` state the fall-through it gives |
| SvgMarbles.MarbleText | src/index.ts:23-27 | the marble string of either input form; `RenderIsParseThenRender` says it is what `render` parses |
| SvgMarbles.Name | src/index.ts:26-28 | the title, from a record only; `PlainInput` and `RenderIsParseThenRender` state both cases |
| SvgMarbles.PlainInput | src/index.ts:23-25 | a string input uses the options' frame time unless it is absent or 0, then 10, and no name, the same as a record with neither |
| SvgMarbles.RecordFrameTime | src/index.ts:26-29 | a record's own frame time wins; 0 or absent falls through to the options', then to 10 |
| SvgMarbles.Render | src/index.ts:15-38 | `render` fails exactly when parsing the resolved marble fails |
| SvgMarbles.RenderIsParseThenRender | src/index.ts:32-37 | `render` renders the parse with the options' theme unchanged and the record's name only; a parse error comes out unchanged |
| SvgMarbles.RenderExamples | src/index.ts:32-37 | `render(")")` fails with the parser's error; `render("")` draws the four-element empty frame |

## Left out

- `captureMarbles` and `testWithCapture` are not part of this model. They drive an RxJS `TestScheduler`, a foreign library. The model starts from the message list they hand to `messagesToMarbles`.
- `JSON.stringify` is abstract. A value is identified by its JSON text (`Notification.N(json)`), and `values` maps each label to that text rather than to the original value object.
- JavaScript number-to-string formatting and the markup text itself are left out. The renderer's output is a sequence of SVG elements carrying exact `real` attribute values. No IEEE rounding is modelled.
- Frame times and event times are integers. Non-integer, `NaN` or infinite frame times are not modelled.
- Strings are sequences of Dafny characters. `for…of` iterates UTF-16 code points in the source; the model does not distinguish code points from code units.
- An override given as an explicit `undefined` (which spread copies over the default) is not modelled. An absent override field is `None` and keeps the default.
- `messages.sort` sorts the array in place. It is modelled as a pure stable insertion sort on a sequence. Stability matches `Array.prototype.sort` since ES2019.
- The loop state of `messagesToMarbles` (`marble`, `values`, `currentFrame`, `valueToChar`, `usedChars`, `charIndex`) is one immutable `Encoder` record. The methods reassign it rather than mutating separate variables.
- The two `throw new Error(…)` of the parser are the `ParseError` values `UnclosedGroup` and `UnexpectedClosingParenthesis`, returned as `Err` or in the `thrown` out-parameter. The message texts are not modelled.
- `getNextAvailableChar` takes the alphabet as a parameter. The model fixes it to the 26-letter `Alphabet`, the only value the one call site (src/capture-observable.ts:99) passes.
- `render` lets a parse error escape as an exception; `SvgMarbles.Render` returns it as `Err`.
- The default parameters (`frameTime = 10` of the parser, `options = {}` of the renderer and of `render`) are explicit arguments: `DefaultFrameTime`, `NoOverrides`, `NoOptions`.
- The type re-exports of `src/index.ts` have no behaviour. The Cloudflare example app is UI and hosting code.
- MarbleParserProperties.ParseOrdersTimes: assumes a non-negative frame time, because with a negative one every `-` moves time backwards and the times decrease.
- SvgRendererProperties.EventOnBaseline: assumes 0 <= time <= duration and timeScale >= 0, because outside those the event is drawn beyond the baseline.
- SvgRendererProperties.MarbleInsideCanvas: additionally assumes a non-negative font size, because the allowance 0.6 x fontSize + 5 is what keeps the marble inside.
- CaptureRoundTrip.CaptureRoundTrip: holds only for messages with distinct, increasing, non-negative frames, nothing after the terminal notification and at most 26 distinct values. Two messages in one frame are written side by side and read back one frame apart. A label such as `a1` is read back as two values. A message before frame 0 is written without padding.
