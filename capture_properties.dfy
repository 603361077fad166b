/**
 * Properties of the capture encoder: the sort is a stable sort by frame,
 * the label generator returns the first free label, and the encoder gives
 * the k-th distinct value the k-th label and records the pairing in both
 * directions.
 */
module CaptureProperties {
  import opened CaptureObservable

  // ---------------------------------------------------------------- sorting

  /** The messages of `ms` at frame `f`, in order. */
  function AtFrame(ms: seq<Message>, f: int): seq<Message> {
    if ms == [] then []
    else AtFrame(ms[..|ms| - 1], f) + (if ms[|ms| - 1].frame == f then [ms[|ms| - 1]] else [])
  }

  lemma {:induction false} AtFrameAppend(a: seq<Message>, b: seq<Message>, f: int)
    ensures AtFrame(a + b, f) == AtFrame(a, f) + AtFrame(b, f)
    decreases |b|
  {
    if b == [] {
      assert a + b == a;
    } else {
      var b' := b[..|b| - 1];
      assert (a + b)[..|a + b| - 1] == a + b';
      AtFrameAppend(a, b', f);
    }
  }

  lemma AtFrameSingle(x: Message, f: int)
    ensures AtFrame([x], f) == if x.frame == f then [x] else []
  {
    assert [x][..0] == [];
  }

  /** Inserting behind the last element: the last element's frame is larger than `m`'s. */
  lemma InsertBehindAtFrame(m: Message, sorted: seq<Message>, f: int)
    requires sorted != [] && sorted[|sorted| - 1].frame > m.frame
    requires AtFrame(InsertByFrame(m, sorted[..|sorted| - 1]), f)
          == AtFrame(sorted[..|sorted| - 1], f) + (if m.frame == f then [m] else [])
    ensures AtFrame(InsertByFrame(m, sorted), f)
         == AtFrame(sorted, f) + (if m.frame == f then [m] else [])
  {
    var last := sorted[|sorted| - 1];
    var init := sorted[..|sorted| - 1];
    var mine: seq<Message> := if m.frame == f then [m] else [];
    var theirs: seq<Message> := if last.frame == f then [last] else [];
    var before := AtFrame(init, f);
    assert AtFrame(sorted, f) == before + theirs;
    assert AtFrame(InsertByFrame(m, sorted), f) == before + mine + theirs by {
      assert sorted == init + [last];
      assert InsertByFrame(m, sorted) == InsertByFrame(m, init) + [last];
      AtFrameAppend(InsertByFrame(m, init), [last], f);
      AtFrameSingle(last, f);
    }
    if m.frame == f {
      assert theirs == [];
      assert before + mine + theirs == before + mine;
      assert AtFrame(sorted, f) == before;
    } else {
      assert mine == [];
      assert before + mine + theirs == before + theirs;
      assert AtFrame(sorted, f) + mine == AtFrame(sorted, f);
    }
  }

  lemma {:induction false} InsertAtFrame(m: Message, sorted: seq<Message>, f: int)
    ensures AtFrame(InsertByFrame(m, sorted), f)
         == AtFrame(sorted, f) + (if m.frame == f then [m] else [])
    decreases |sorted|
  {
    AtFrameSingle(m, f);
    if sorted == [] {
      assert InsertByFrame(m, sorted) == [m];
    } else if sorted[|sorted| - 1].frame <= m.frame {
      assert InsertByFrame(m, sorted) == sorted + [m];
      AtFrameAppend(sorted, [m], f);
    } else {
      InsertAtFrame(m, sorted[..|sorted| - 1], f);
      InsertBehindAtFrame(m, sorted, f);
    }
  }

  /** Messages of one frame keep their original order (Array.prototype.sort is stable). */
  lemma {:induction false} SortIsStable(ms: seq<Message>, f: int)
    ensures AtFrame(SortByFrame(ms), f) == AtFrame(ms, f)
    decreases |ms|
  {
    if ms != [] {
      var init := ms[..|ms| - 1];
      SortIsStable(init, f);
      InsertAtFrame(ms[|ms| - 1], SortByFrame(init), f);
    }
  }

  /** The sort orders by frame and only permutes. */
  lemma {:induction false} SortOrdersAndPermutes(ms: seq<Message>)
    ensures SortedByFrame(SortByFrame(ms))
    ensures multiset(SortByFrame(ms)) == multiset(ms)
    ensures |SortByFrame(ms)| == |ms|
    decreases |ms|
  {
    if ms != [] {
      var init := ms[..|ms| - 1];
      assert ms == init + [ms[|ms| - 1]];
      SortOrdersAndPermutes(init);
      InsertPermutes(ms[|ms| - 1], SortByFrame(init));
      InsertKeepsSorted(ms[|ms| - 1], SortByFrame(init));
    }
    assert |multiset(SortByFrame(ms))| == |multiset(ms)|;
  }

  /** Messages already in frame order are left as they are. */
  lemma {:induction false} SortKeepsSorted(ms: seq<Message>)
    requires SortedByFrame(ms)
    ensures SortByFrame(ms) == ms
    decreases |ms|
  {
    if ms != [] {
      var init := ms[..|ms| - 1];
      SortKeepsSorted(init);
      var s := SortByFrame(init);
      if s != [] {
        assert s[|s| - 1] == ms[|ms| - 2];
      }
      assert ms == init + [ms[|ms| - 1]];
    }
  }

  // ----------------------------------------------------------------- labels

  lemma LabelExamples()
    ensures Label(0) == "a" && Label(25) == "z"
    ensures Label(26) == "a1" && Label(27) == "b1" && Label(52) == "a2"
  {
    assert DecimalText(1) == "1";
    assert DecimalText(2) == "2";
  }

  /** The first 26 labels are the letters, one character each. */
  lemma SingleLetterLabels(i: nat)
    requires i < AlphabetSize
    ensures Label(i) == [Letter(i)] && 'a' <= Letter(i) <= 'z'
  {
  }

  /**
   * `getNextAvailableChar` returns the first label from `index` on that is
   * not in `used`: every label it skips is in use.
   */
  lemma {:induction false} NextAvailableIsFirstFree(index: nat, used: set<string>)
    ensures var r := NextAvailableLabel(index, used);
      && r !in used
      && index <= LabelIndex(r)
      && Label(LabelIndex(r)) == r
      && forall k :: index <= k < LabelIndex(r) ==> Label(k) in used
    decreases |used - LabelsBelow(index)|
  {
    if Label(index) in used {
      SkipShrinks(index, used);
      NextAvailableIsFirstFree(index + 1, used);
    } else {
      LabelRoundTrip(index);
    }
  }

  /** When exactly the labels below `index` are in use, the first try succeeds. */
  lemma FirstTrySucceeds(index: nat)
    ensures NextAvailableLabel(index, LabelsBelow(index)) == Label(index)
  {
    LabelsBelowGrow(index);
  }

  // ------------------------------------------------- labels by first appearance

  /** The JSON texts of the values in `ms`, each once, in order of first appearance. */
  function Distinct(ms: seq<Message>): seq<string> {
    if ms == [] then []
    else
      var d := Distinct(ms[..|ms| - 1]);
      var n := ms[|ms| - 1].notification;
      if n.N? && n.json !in d then d + [n.json] else d
  }

  lemma {:induction false} DistinctIsExact(ms: seq<Message>)
    ensures forall i, j :: 0 <= i < j < |Distinct(ms)| ==> Distinct(ms)[i] != Distinct(ms)[j]
    ensures forall i :: 0 <= i < |ms| && ms[i].notification.N? ==> ms[i].notification.json in Distinct(ms)
    ensures forall x :: x in Distinct(ms) ==> exists i :: 0 <= i < |ms| && ms[i].notification == N(x)
    decreases |ms|
  {
    if ms != [] {
      var init := ms[..|ms| - 1];
      DistinctIsExact(init);
      forall x | x in Distinct(ms)
        ensures exists i :: 0 <= i < |ms| && ms[i].notification == N(x)
      {
        if x in Distinct(init) {
          var i :| 0 <= i < |init| && init[i].notification == N(x);
          assert ms[i] == init[i];
        } else {
          assert ms[|ms| - 1].notification == N(x);
        }
      }
      forall i | 0 <= i < |ms| && ms[i].notification.N?
        ensures ms[i].notification.json in Distinct(ms)
      {
        if i < |init| {
          assert ms[i] == init[i];
        }
      }
    }
  }

  lemma {:induction false} DistinctOfPrefix(ms: seq<Message>, k: nat)
    requires k <= |ms|
    ensures Distinct(ms[..k]) <= Distinct(ms)
    decreases |ms| - k
  {
    if k < |ms| {
      DistinctOfPrefix(ms, k + 1);
      assert ms[..k + 1][..k] == ms[..k];
    } else {
      assert ms[..k] == ms;
    }
  }

  /**
   * The encoder's label bookkeeping after the values `d` (in order of first
   * appearance): value `d[k]` has label `Label(k)` in both maps, and the
   * labels used are exactly the first `|d|`.
   */
  ghost predicate LabelsAssigned(st: Encoder, d: seq<string>) {
    && st.charIndex == |d|
    && st.usedChars == LabelsBelow(|d|)
    && st.values.Keys == LabelsBelow(|d|)
    && st.valueToChar.Keys == (set k | 0 <= k < |d| :: d[k])
    && (forall k :: 0 <= k < |d| ==> st.valueToChar[d[k]] == Label(k))
    && (forall k :: 0 <= k < |d| ==> st.values[Label(k)] == d[k])
  }

  lemma PadKeepsLabels(st: Encoder, frame: int)
    ensures PadTo(st, frame).(marble := st.marble, currentFrame := st.currentFrame) == st
  {
  }

  lemma KnownValueKeepsLabels(st: Encoder, d: seq<string>, json: string)
    requires LabelsAssigned(st, d)
    requires json in d
    ensures Emit(st, N(json)) == st.(marble := st.marble + st.valueToChar[json])
  {
    var k :| 0 <= k < |d| && d[k] == json;
    assert st.valueToChar[json] == Label(k);
  }

  /** The encoder's state once `json` is recorded under the label at `index`. */
  function Record(st: Encoder, json: string, index: nat): Encoder {
    var l := Label(index);
    st.(marble := st.marble + l,
        values := st.values[l := json],
        valueToChar := st.valueToChar[json := l],
        usedChars := st.usedChars + {l},
        charIndex := index + 1)
  }

  lemma NewValueIsRecorded(st: Encoder, d: seq<string>, json: string)
    requires LabelsAssigned(st, d)
    requires json !in d
    ensures Emit(st, N(json)) == Record(st, json, |d|)
  {
    assert json !in st.valueToChar;
    FirstTrySucceeds(|d|);
  }

  lemma RecordedKeys(keys: set<string>, d: seq<string>, json: string)
    requires keys == (set k | 0 <= k < |d| :: d[k])
    ensures keys + {json} == (set k | 0 <= k < |d + [json]| :: (d + [json])[k])
  {
    var d' := d + [json];
    forall x | x in keys + {json}
      ensures x in (set k | 0 <= k < |d'| :: d'[k])
    {
      if x != json {
        var k :| 0 <= k < |d| && d[k] == x;
        assert d'[k] == x;
      } else {
        assert d'[|d|] == x;
      }
    }
  }

  lemma RecordedValues(values: map<string, string>, d: seq<string>, json: string)
    requires values.Keys == LabelsBelow(|d|)
    requires forall k :: 0 <= k < |d| ==> values[Label(k)] == d[k]
    ensures values[Label(|d|) := json].Keys == LabelsBelow(|d| + 1)
    ensures forall k :: 0 <= k < |d| + 1 ==> values[Label(|d|) := json][Label(k)] == (d + [json])[k]
  {
    LabelsBelowGrow(|d|);
    forall k | 0 <= k < |d|
      ensures values[Label(|d|) := json][Label(k)] == d[k]
    {
      assert Label(k) in LabelsBelow(|d|);
    }
  }

  lemma RecordedLabels(valueToChar: map<string, string>, d: seq<string>, json: string)
    requires forall k :: 0 <= k < |d| ==> d[k] in valueToChar && valueToChar[d[k]] == Label(k)
    requires json !in d
    ensures forall k :: 0 <= k < |d| + 1 ==> valueToChar[json := Label(|d|)][(d + [json])[k]] == Label(k)
  {
    var d' := d + [json];
    forall k | 0 <= k < |d| + 1
      ensures valueToChar[json := Label(|d|)][d'[k]] == Label(k)
    {
      if k < |d| {
        assert d'[k] == d[k] && d[k] != json;
      } else {
        assert d'[k] == json;
      }
    }
  }

  lemma RecordExtendsLabels(st: Encoder, d: seq<string>, json: string)
    requires LabelsAssigned(st, d)
    requires json !in d
    ensures LabelsAssigned(Record(st, json, |d|), d + [json])
  {
    var st', d' := Record(st, json, |d|), d + [json];
    assert st'.usedChars == LabelsBelow(|d'|) by {
      LabelsBelowGrow(|d|);
    }
    assert st'.values.Keys == LabelsBelow(|d'|) && forall k :: 0 <= k < |d'| ==> st'.values[Label(k)] == d'[k] by {
      RecordedValues(st.values, d, json);
    }
    assert st'.valueToChar.Keys == (set k | 0 <= k < |d'| :: d'[k]) by {
      RecordedKeys(st.valueToChar.Keys, d, json);
    }
    assert forall k :: 0 <= k < |d'| ==> st'.valueToChar[d'[k]] == Label(k) by {
      assert forall k :: 0 <= k < |d| ==> d[k] in st.valueToChar.Keys;
      RecordedLabels(st.valueToChar, d, json);
    }
  }

  lemma {:induction false} StepAssignsLabels(st: Encoder, d: seq<string>, m: Message)
    requires LabelsAssigned(st, d)
    requires forall i, j :: 0 <= i < j < |d| ==> d[i] != d[j]
    ensures var n := m.notification;
      LabelsAssigned(Step(st, m), if n.N? && n.json !in d then d + [n.json] else d)
  {
    var padded := PadTo(st, m.frame);
    PadKeepsLabels(st, m.frame);
    assert LabelsAssigned(padded, d);
    match m.notification {
      case N(json) =>
        if json in d {
          KnownValueKeepsLabels(padded, d, json);
        } else {
          NewValueIsRecorded(padded, d, json);
          RecordExtendsLabels(padded, d, json);
        }
      case E =>
      case C =>
    }
  }

  /**
   * After any run from the start, the k-th distinct value has the k-th label,
   * recorded in both directions.
   */
  lemma {:induction false} LabelsFollowFirstAppearance(ms: seq<Message>)
    ensures LabelsAssigned(Run(Start, ms), Distinct(ms))
    decreases |ms|
  {
    if ms == [] {
      assert LabelsBelow(0) == {};
    } else {
      var init := ms[..|ms| - 1];
      LabelsFollowFirstAppearance(init);
      DistinctIsExact(init);
      StepAssignsLabels(Run(Start, init), Distinct(init), ms[|ms| - 1]);
    }
  }

  /** One value message whose JSON text already has a label. */
  lemma KnownValueStep(st: Encoder, d: seq<string>, m: Message)
    requires LabelsAssigned(st, d)
    requires m.notification.N? && m.notification.json in d
    ensures var st' := Step(st, m);
      && m.notification.json in st.valueToChar
      && st'.marble == st.marble + Dashes(if st.currentFrame < m.frame then m.frame - st.currentFrame else 0)
                                  + st.valueToChar[m.notification.json]
      && st'.valueToChar == st.valueToChar && st'.values == st.values
      && st'.usedChars == st.usedChars && st'.charIndex == st.charIndex
  {
    PadKeepsLabels(st, m.frame);
    KnownValueKeepsLabels(PadTo(st, m.frame), d, m.notification.json);
  }

  /** A value whose JSON text was seen before is written with its old label; nothing is recorded. */
  lemma RepeatedValueReusesLabel(ms: seq<Message>, m: Message)
    requires m.notification.N? && m.notification.json in Distinct(ms)
    ensures var st := Run(Start, ms);
      var st' := Step(st, m);
      && m.notification.json in st.valueToChar
      && st'.marble == st.marble + Dashes(if st.currentFrame < m.frame then m.frame - st.currentFrame else 0)
                                  + st.valueToChar[m.notification.json]
      && st'.valueToChar == st.valueToChar && st'.values == st.values
      && st'.usedChars == st.usedChars && st'.charIndex == st.charIndex
  {
    LabelsFollowFirstAppearance(ms);
    KnownValueStep(Run(Start, ms), Distinct(ms), m);
  }

  /** A value not seen before gets the next label, one that was not in use, and is recorded under it. */
  lemma NewValueGetsUnusedLabel(ms: seq<Message>, m: Message)
    requires m.notification.N? && m.notification.json !in Distinct(ms)
    ensures var st := Run(Start, ms);
      var st' := Step(st, m);
      var l := Label(|Distinct(ms)|);
      && l !in st.usedChars && l !in st.values
      && st'.valueToChar == st.valueToChar[m.notification.json := l]
      && st'.values == st.values[l := m.notification.json]
      && st'.charIndex == st.charIndex + 1
  {
    var st := Run(Start, ms);
    LabelsFollowFirstAppearance(ms);
    LabelsBelowGrow(|Distinct(ms)|);
    PadKeepsLabels(st, m.frame);
    NewValueIsRecorded(PadTo(st, m.frame), Distinct(ms), m.notification.json);
  }

  /** Each label maps back to the value it was given for, and no two values share one. */
  lemma LabelsRoundTrip(ms: seq<Message>)
    ensures var st := Run(Start, ms);
      && (forall x :: x in st.valueToChar ==> st.valueToChar[x] in st.values && st.values[st.valueToChar[x]] == x)
      && (forall l :: l in st.values ==> st.values[l] in st.valueToChar && st.valueToChar[st.values[l]] == l)
  {
    var st := Run(Start, ms);
    var d := Distinct(ms);
    LabelsFollowFirstAppearance(ms);
    forall x | x in st.valueToChar
      ensures st.valueToChar[x] in st.values && st.values[st.valueToChar[x]] == x
    {
      var k :| 0 <= k < |d| && d[k] == x;
      assert Label(k) in LabelsBelow(|d|);
    }
    forall l | l in st.values
      ensures st.values[l] in st.valueToChar && st.valueToChar[st.values[l]] == l
    {
      var k :| 0 <= k < |d| && Label(k) == l;
      assert d[k] in st.valueToChar.Keys;
    }
  }

  /** What `messagesToMarbles` returns: the first |d| labels, mapped to the values in order of first appearance. */
  lemma EncodedValues(messages: seq<Message>)
    ensures var cap := Encode(messages);
      var d := Distinct(SortByFrame(messages));
      && cap.values.Keys == LabelsBelow(|d|)
      && forall k :: 0 <= k < |d| ==> cap.values[Label(k)] == d[k]
  {
    if messages == [] {
      assert LabelsBelow(0) == {};
    } else {
      LabelsFollowFirstAppearance(SortByFrame(messages));
    }
  }

  // ----------------------------------------------------------- marble layout

  /** What one message writes: its padding dashes and its symbol; the frame moves past it. */
  lemma StepWrites(st: Encoder, m: Message)
    ensures var gap := if st.currentFrame < m.frame then m.frame - st.currentFrame else 0;
      var st' := Step(st, m);
      && st'.currentFrame == st.currentFrame + gap + 1
      && st'.marble == st.marble + Dashes(gap) + Symbol(PadTo(st, m.frame), m.notification)
  {
  }

  /** The symbol a notification writes: its label, `#` or `|`. */
  function Symbol(st: Encoder, n: Notification): string {
    match n
    case N(json) => Emit(st, n).valueToChar[json]
    case E => "#"
    case C => "|"
  }

  /** An empty message list gives an empty marble and no values. */
  lemma EncodeEmpty()
    ensures Encode([]) == MarbleCapture("", map[])
  {
  }

  /**
   * A message whose frame the encoder has already reached (a second message
   * in the same frame, say) is written straight after the previous symbol,
   * with no dash and no group.
   */
  lemma SameOrNextFrameNoDash(st: Encoder, m: Message)
    requires m.frame <= st.currentFrame
    ensures Step(st, m).marble == st.marble + Symbol(st, m.notification)
  {
  }
}
