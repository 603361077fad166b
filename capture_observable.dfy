/**
 * The emission-to-marble encoder of src/capture-observable.ts
 * (`messagesToMarbles` and `getNextAvailableChar`).
 *
 * A captured value is identified by its JSON text.  The encoder's state is
 * the record `Encoder`; `Step` is one turn of its loop and `Run` the whole
 * loop over the frame-sorted messages, and the methods are the loops of the
 * source, proved to compute them.
 */
module CaptureObservable {

  /** A notification: a value (by its JSON text), an error or completion. */
  datatype Notification = N(json: string) | E | C

  datatype Message = Message(frame: int, notification: Notification)

  /** The marble string and the label-to-value map handed back to the caller. */
  datatype MarbleCapture = MarbleCapture(marble: string, values: map<string, string>)

  /** The alphabet `messagesToMarbles` hands to the label generator. */
  const Alphabet: string := "abcdefghijklmnopqrstuvwxyz"

  const AlphabetSize: nat := 26

  /** `alphabet[i]`: the i-th lower-case letter. */
  function Letter(i: nat): char
    requires i < AlphabetSize
  {
    ('a' as int + i) as char
  }

  lemma LettersSpellAlphabet()
    ensures |Alphabet| == AlphabetSize
    ensures forall i :: 0 <= i < AlphabetSize ==> Alphabet[i] == Letter(i)
  {
  }

  // ---------------------------------------------------------------- labels

  function DigitChar(d: nat): char
    requires d < 10
  {
    ('0' as int + d) as char
  }

  /** The decimal text of a natural number, as JavaScript writes it. */
  function DecimalText(n: nat): (s: string)
    ensures |s| >= 1
  {
    if n < 10 then [DigitChar(n)] else DecimalText(n / 10) + [DigitChar(n % 10)]
  }

  /**
   * The label tried at `index`: `alphabet[index]` below 26, otherwise the
   * letter `index % 26` followed by the decimal text of `index / 26`
   * (so 26 gives "a1").
   */
  function Label(index: nat): string {
    if index < AlphabetSize then [Letter(index)]
    else [Letter(index % AlphabetSize)] + DecimalText(index / AlphabetSize)
  }

  /** The labels of all indices below `n`. */
  ghost function LabelsBelow(n: nat): set<string> {
    set j | 0 <= j < n :: Label(j)
  }

  function DigitValue(c: char): nat {
    if '0' <= c <= '9' then c as int - '0' as int else 0
  }

  /** Reads decimal digits back into a number. */
  function DecimalValue(s: string): nat {
    if s == [] then 0 else DecimalValue(s[..|s| - 1]) * 10 + DigitValue(s[|s| - 1])
  }

  lemma {:induction false} DecimalRoundTrip(n: nat)
    ensures DecimalValue(DecimalText(n)) == n
  {
    var s := DecimalText(n);
    if n < 10 {
      assert s[..|s| - 1] == [];
    } else {
      assert s[..|s| - 1] == DecimalText(n / 10);
      DecimalRoundTrip(n / 10);
    }
  }

  function LetterIndex(c: char): nat {
    if 'a' <= c <= 'z' then c as int - 'a' as int else 0
  }

  /** The index a label was generated from. */
  function LabelIndex(text: string): nat {
    if text == [] then 0
    else if |text| == 1 then LetterIndex(text[0])
    else LetterIndex(text[0]) + AlphabetSize * DecimalValue(text[1..])
  }

  /** Every label reads back to its index, so different indices give different labels. */
  lemma LabelRoundTrip(i: nat)
    ensures LabelIndex(Label(i)) == i
  {
    if i >= AlphabetSize {
      var l := Label(i);
      assert l[1..] == DecimalText(i / AlphabetSize);
      DecimalRoundTrip(i / AlphabetSize);
    }
  }

  lemma LabelInjective(i: nat, j: nat)
    requires Label(i) == Label(j)
    ensures i == j
  {
    LabelRoundTrip(i);
    LabelRoundTrip(j);
  }

  lemma LabelsBelowGrow(n: nat)
    ensures LabelsBelow(n + 1) == LabelsBelow(n) + {Label(n)}
    ensures Label(n) !in LabelsBelow(n)
  {
    if Label(n) in LabelsBelow(n) {
      var j :| 0 <= j < n && Label(j) == Label(n);
      LabelInjective(j, n);
    }
  }

  /** Skipping a used label leaves one fewer used label ahead. */
  lemma SkipShrinks(index: nat, used: set<string>)
    requires Label(index) in used
    ensures |used - LabelsBelow(index + 1)| < |used - LabelsBelow(index)|
  {
    LabelsBelowGrow(index);
    var ahead := used - LabelsBelow(index);
    assert used - LabelsBelow(index + 1) == ahead - {Label(index)};
  }

  /**
   * The do-while of `getNextAvailableChar`: the first label from `index` on
   * that is not in `used`.  It terminates because every label it skips is a
   * distinct member of the finite set `used`.
   */
  function NextAvailableLabel(index: nat, used: set<string>): string
    decreases |used - LabelsBelow(index)|
  {
    var candidate := Label(index);
    if candidate in used then
      SkipShrinks(index, used);
      NextAvailableLabel(index + 1, used)
    else candidate
  }

  /** `getNextAvailableChar(alphabet, startIndex, usedChars)` as written, with its do-while loop. */
  method GetNextAvailableChar(startIndex: nat, usedChars: set<string>) returns (nextChar: string)
    ensures nextChar == NextAvailableLabel(startIndex, usedChars)
  {
    var index: nat := startIndex;
    while true
      invariant NextAvailableLabel(index, usedChars) == NextAvailableLabel(startIndex, usedChars)
      decreases |usedChars - LabelsBelow(index)|
    {
      if index < AlphabetSize {
        nextChar := [Letter(index)];
      } else {
        var letterIndex := index % AlphabetSize;
        var suffix := index / AlphabetSize;
        nextChar := [Letter(letterIndex)] + DecimalText(suffix);
      }
      assert nextChar == Label(index);
      if nextChar !in usedChars {
        assert NextAvailableLabel(index, usedChars) == nextChar;
        return;
      }
      SkipShrinks(index, usedChars);
      assert NextAvailableLabel(index, usedChars) == NextAvailableLabel(index + 1, usedChars);
      index := index + 1;
    }
  }

  // --------------------------------------------------------------- sorting

  predicate SortedByFrame(ms: seq<Message>) {
    forall i, j :: 0 <= i < j < |ms| ==> ms[i].frame <= ms[j].frame
  }

  /** Inserts `m` after every element whose frame is not larger than its own. */
  function InsertByFrame(m: Message, sorted: seq<Message>): seq<Message> {
    if sorted == [] then [m]
    else
      var last := sorted[|sorted| - 1];
      var init := sorted[..|sorted| - 1];
      if last.frame <= m.frame then sorted + [m]
      else InsertByFrame(m, init) + [last]
  }

  lemma {:induction false} InsertPermutes(m: Message, sorted: seq<Message>)
    ensures multiset(InsertByFrame(m, sorted)) == multiset(sorted) + multiset{m}
    decreases |sorted|
  {
    if sorted != [] {
      var last := sorted[|sorted| - 1];
      var init := sorted[..|sorted| - 1];
      assert sorted == init + [last];
      if last.frame > m.frame {
        InsertPermutes(m, init);
      }
    }
  }

  /** Every frame in `s` is at most `f`. */
  predicate FramesAtMost(s: seq<Message>, f: int) {
    forall i :: 0 <= i < |s| ==> s[i].frame <= f
  }

  lemma {:induction false} InsertKeepsBound(m: Message, sorted: seq<Message>, f: int)
    requires FramesAtMost(sorted, f) && m.frame <= f
    ensures FramesAtMost(InsertByFrame(m, sorted), f)
  {
    if sorted != [] {
      var init := sorted[..|sorted| - 1];
      if sorted[|sorted| - 1].frame > m.frame {
        InsertKeepsBound(m, init, f);
      }
    }
  }

  lemma {:induction false} InsertKeepsSorted(m: Message, sorted: seq<Message>)
    requires SortedByFrame(sorted)
    ensures SortedByFrame(InsertByFrame(m, sorted))
  {
    if sorted != [] {
      var last := sorted[|sorted| - 1];
      var init := sorted[..|sorted| - 1];
      if last.frame > m.frame {
        InsertKeepsSorted(m, init);
        InsertKeepsBound(m, init, last.frame);
        var r := InsertByFrame(m, init);
        assert InsertByFrame(m, sorted) == r + [last];
      }
    }
  }

  /** `messages.sort((a, b) => a.frame - b.frame)`: a stable sort by frame. */
  function SortByFrame(ms: seq<Message>): seq<Message> {
    if ms == [] then [] else InsertByFrame(ms[|ms| - 1], SortByFrame(ms[..|ms| - 1]))
  }

  // --------------------------------------------------------------- encoding

  /** The local variables of `messagesToMarbles`' loop. */
  datatype Encoder = Encoder(
    marble: string,
    values: map<string, string>,
    currentFrame: int,
    valueToChar: map<string, string>,
    usedChars: set<string>,
    charIndex: nat)

  const Start: Encoder := Encoder("", map[], 0, map[], {}, 0)

  /** `n` dashes. */
  function Dashes(n: nat): (s: string)
    ensures |s| == n
  {
    if n == 0 then "" else Dashes(n - 1) + "-"
  }

  /** The inner loop: one dash per empty frame up to `frame`. */
  function PadTo(st: Encoder, frame: int): Encoder {
    if st.currentFrame < frame then
      st.(marble := st.marble + Dashes(frame - st.currentFrame), currentFrame := frame)
    else st
  }

  /** The label already given to `json`, or "" (falsy) if none. */
  function KnownLabel(st: Encoder, json: string): string {
    if json in st.valueToChar then st.valueToChar[json] else ""
  }

  /** Writes one notification's symbol, labelling a value seen for the first time. */
  function Emit(st: Encoder, n: Notification): Encoder {
    match n
    case N(json) =>
      var known := KnownLabel(st, json);
      if known != "" then st.(marble := st.marble + known)
      else
        var newLabel := NextAvailableLabel(st.charIndex, st.usedChars);
        st.(marble := st.marble + newLabel,
            values := st.values[newLabel := json],
            valueToChar := st.valueToChar[json := newLabel],
            usedChars := st.usedChars + {newLabel},
            charIndex := st.charIndex + 1)
    case E => st.(marble := st.marble + "#")
    case C => st.(marble := st.marble + "|")
  }

  /** One turn of the loop: pad, emit, then take one frame for the symbol. */
  function Step(st: Encoder, m: Message): Encoder {
    var emitted := Emit(PadTo(st, m.frame), m.notification);
    emitted.(currentFrame := emitted.currentFrame + 1)
  }

  /** The loop over `ms`, in order, from `st`. */
  function Run(st: Encoder, ms: seq<Message>): Encoder {
    if ms == [] then st else Step(Run(st, ms[..|ms| - 1]), ms[|ms| - 1])
  }

  /** What `messagesToMarbles(messages)` returns. */
  function Encode(messages: seq<Message>): MarbleCapture {
    if |messages| == 0 then MarbleCapture("", map[])
    else
      var final := Run(Start, SortByFrame(messages));
      MarbleCapture(final.marble, final.values)
  }

  /** The `while (currentFrame < message.frame)` loop. */
  method PadFrames(marble: string, currentFrame: int, frame: int) returns (marble': string, currentFrame': int)
    ensures currentFrame' == if currentFrame < frame then frame else currentFrame
    ensures marble' == marble + Dashes(currentFrame' - currentFrame)
  {
    marble', currentFrame' := marble, currentFrame;
    while currentFrame' < frame
      invariant currentFrame <= currentFrame' <= (if currentFrame < frame then frame else currentFrame)
      invariant marble' == marble + Dashes(currentFrame' - currentFrame)
      decreases frame - currentFrame'
    {
      marble' := marble' + "-";
      currentFrame' := currentFrame' + 1;
    }
  }

  /**
   * Writes the label of a value: the one `valueToChar` holds, or (when that
   * is missing or empty) the next free label, which is then recorded.
   */
  method WriteValue(st: Encoder, json: string) returns (st': Encoder)
    ensures st' == Emit(st, N(json))
  {
    var symbol := if json in st.valueToChar then st.valueToChar[json] else "";
    st' := st;
    if symbol == "" {
      symbol := GetNextAvailableChar(st.charIndex, st.usedChars);
      st' := st'.(charIndex := st.charIndex + 1,
                  valueToChar := st.valueToChar[json := symbol],
                  usedChars := st.usedChars + {symbol},
                  values := st.values[symbol := json]);
    }
    st' := st'.(marble := st.marble + symbol);
  }

  /** One pass of the loop body over `message`. */
  method EncodeMessage(st: Encoder, message: Message) returns (st': Encoder)
    ensures st' == Step(st, message)
  {
    var marble, currentFrame := PadFrames(st.marble, st.currentFrame, message.frame);
    st' := st.(marble := marble, currentFrame := currentFrame);
    match message.notification {
      case N(json) =>
        st' := WriteValue(st', json);
      case E =>
        st' := st'.(marble := st'.marble + "#");
      case C =>
        st' := st'.(marble := st'.marble + "|");
    }
    st' := st'.(currentFrame := st'.currentFrame + 1);
  }

  /** `messagesToMarbles(messages)` as written, with its loops. */
  method MessagesToMarbles(messages: seq<Message>) returns (capture: MarbleCapture)
    ensures capture == Encode(messages)
  {
    if |messages| == 0 {
      return MarbleCapture("", map[]);
    }
    var st := Start;
    var sorted := SortByFrame(messages);
    for k := 0 to |sorted|
      invariant st == Run(Start, sorted[..k])
    {
      assert sorted[..k + 1][..k] == sorted[..k];
      st := EncodeMessage(st, sorted[k]);
    }
    assert sorted[..|sorted|] == sorted;
    return MarbleCapture(st.marble, st.values);
  }
}
