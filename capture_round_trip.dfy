/**
 * The capture encoder and the marble parser agree: parsing the marble that
 * `messagesToMarbles` writes gives back one event per message, at the
 * message's frame times the frame time, of the message's kind, and with a
 * label that the returned value map sends back to the message's value.
 *
 * This needs what the encoder's own design assumes: frames that are
 * non-negative and strictly increasing (one message per frame, so no group
 * is needed), nothing after the terminal notification, and at most 26
 * distinct values (so every label is a single letter; "a1" would be read
 * back as the two values "a" and "1").
 */
module CaptureRoundTrip {
  import opened Wrappers
  import opened MarbleParser
  import opened MarbleParserProperties
  import opened CaptureObservable
  import opened CaptureProperties

  ghost predicate Replayable(ms: seq<Message>) {
    && (forall i :: 0 <= i < |ms| ==> ms[i].frame >= 0)
    && (forall i, j :: 0 <= i < j < |ms| ==> ms[i].frame < ms[j].frame)
    && (forall i :: 0 <= i < |ms| - 1 ==> ms[i].notification.N?)
    && |Distinct(ms)| <= AlphabetSize
  }

  function KindOf(n: Notification): EventKind {
    match n
    case N(_) => Next
    case E => Error
    case C => Complete
  }

  lemma OneDashParses(t: int, frameTime: int)
    ensures ParseFrom("-", t, frameTime) == Ok(ParsedMarbleDiagram([], t + frameTime))
  {
    assert "-"[0] == '-' && "-"[1..] == "";
  }

  lemma MulStep(a: int, g: nat)
    requires g > 0
    ensures a * g == a * (g - 1) + a
  {
  }

  /** A run of dashes only moves time forward, one frame per dash. */
  lemma {:induction false} DashesParse(g: nat, t: int, frameTime: int)
    ensures ParseFrom(Dashes(g), t, frameTime) == Ok(ParsedMarbleDiagram([], t + frameTime * g))
  {
    if g > 0 {
      var t' := t + frameTime * (g - 1);
      DashesParse(g - 1, t, frameTime);
      ParseAppend(Dashes(g - 1), "-", t, frameTime);
      OneDashParses(t', frameTime);
      var none: seq<MarbleEvent> := [];
      assert none + none == none;
      MulStep(frameTime, g);
    }
  }

  lemma DashesThenValue(g: nat, c: char, t: int, frameTime: int)
    requires 'a' <= c <= 'z'
    ensures ParseFrom(Dashes(g) + [c], t, frameTime)
         == Ok(ParsedMarbleDiagram([NextOf(t + frameTime * g, c)], t + frameTime * g + frameTime))
  {
    var t' := t + frameTime * g;
    DashesParse(g, t, frameTime);
    ParseAppend(Dashes(g), [c], t, frameTime);
    assert [c][0] == c && [c][1..] == [];
    assert ParseFrom([c][1..], t' + frameTime, frameTime) == Ok(ParsedMarbleDiagram([], t' + frameTime));
    assert [NextOf(t', c)] + [] == [NextOf(t', c)];
    assert ParseFrom([c], t', frameTime) == Ok(ParsedMarbleDiagram([NextOf(t', c)], t' + frameTime));
    assert [] + [NextOf(t', c)] == [NextOf(t', c)];
  }

  lemma DashesThenTerminal(g: nat, n: Notification, t: int, frameTime: int)
    requires !n.N?
    ensures var s := if n.E? then "#" else "|";
      ParseFrom(Dashes(g) + s, t, frameTime)
        == Ok(ParsedMarbleDiagram([MarbleEvent(t + frameTime * g, None, KindOf(n))], t + frameTime * g))
  {
    var s := if n.E? then "#" else "|";
    var t' := t + frameTime * g;
    var e := MarbleEvent(t', None, KindOf(n));
    DashesParse(g, t, frameTime);
    ParseAppend(Dashes(g), s, t, frameTime);
    assert s[0] == (if n.E? then '#' else '|') && s[1..] == [];
    assert ParseFrom(s[1..], t', frameTime) == Ok(ParsedMarbleDiagram([], t'));
    assert [e] + [] == [e];
    assert ParseFrom(s, t', frameTime) == Ok(ParsedMarbleDiagram([e], t'));
    assert [] + [e] == [e];
  }

  /** Scanning on past a parsed prefix: some dashes, then one value. */
  lemma AppendValueParses(marble: string, evs: seq<MarbleEvent>, frame: int, gap: nat, c: char, frameTime: int)
    requires ParseFrom(marble, 0, frameTime) == Ok(ParsedMarbleDiagram(evs, frameTime * frame))
    requires 'a' <= c <= 'z'
    ensures ParseFrom(marble + (Dashes(gap) + [c]), 0, frameTime)
         == Ok(ParsedMarbleDiagram(evs + [NextOf(frameTime * (frame + gap), c)], frameTime * (frame + gap + 1)))
  {
    ParseAppend(marble, Dashes(gap) + [c], 0, frameTime);
    DashesThenValue(gap, c, frameTime * frame, frameTime);
    assert frameTime * frame + frameTime * gap == frameTime * (frame + gap);
    assert frameTime * (frame + gap) + frameTime == frameTime * (frame + gap + 1);
  }

  /** Scanning on past a parsed prefix: some dashes, then the terminal symbol. */
  lemma AppendTerminalParses(marble: string, evs: seq<MarbleEvent>, frame: int, gap: nat, n: Notification, frameTime: int)
    requires ParseFrom(marble, 0, frameTime) == Ok(ParsedMarbleDiagram(evs, frameTime * frame))
    requires !n.N?
    ensures var s := if n.E? then "#" else "|";
      ParseFrom(marble + (Dashes(gap) + s), 0, frameTime)
        == Ok(ParsedMarbleDiagram(evs + [MarbleEvent(frameTime * (frame + gap), None, KindOf(n))], frameTime * (frame + gap)))
  {
    var s := if n.E? then "#" else "|";
    ParseAppend(marble, Dashes(gap) + s, 0, frameTime);
    DashesThenTerminal(gap, n, frameTime * frame, frameTime);
    assert frameTime * frame + frameTime * gap == frameTime * (frame + gap);
  }

  /** Labels once given are never changed by later messages. */
  lemma StepKeepsKnownLabels(st: Encoder, m: Message)
    requires forall x :: x in st.valueToChar ==> st.valueToChar[x] != ""
    ensures forall x :: x in st.valueToChar ==>
      x in Step(st, m).valueToChar && Step(st, m).valueToChar[x] == st.valueToChar[x]
  {
  }

  lemma LabelsAreNonEmpty(ms: seq<Message>)
    ensures forall x :: x in Run(Start, ms).valueToChar ==> Run(Start, ms).valueToChar[x] != ""
  {
    var st := Run(Start, ms);
    var d := Distinct(ms);
    LabelsFollowFirstAppearance(ms);
    forall x | x in st.valueToChar
      ensures st.valueToChar[x] != ""
    {
      var k :| 0 <= k < |d| && d[k] == x;
    }
  }

  /** Every value seen in a replayable prefix has a one-letter label. */
  lemma OneLetterLabel(ms: seq<Message>, k: nat, json: string)
    requires Replayable(ms) && k <= |ms|
    requires json in Distinct(ms[..k])
    ensures var st := Run(Start, ms[..k]);
      json in st.valueToChar && |st.valueToChar[json]| == 1 && 'a' <= st.valueToChar[json][0] <= 'z'
  {
    var d := Distinct(ms[..k]);
    LabelsFollowFirstAppearance(ms[..k]);
    DistinctOfPrefix(ms, k);
    var q :| 0 <= q < |d| && d[q] == json;
    SingleLetterLabels(q);
  }

  /** The gap the encoder pads before message `p` of a replayable sequence. */
  lemma PaddingIsFrameGap(ms: seq<Message>, p: nat, st: Encoder)
    requires Replayable(ms) && p < |ms|
    requires st.currentFrame == (if p == 0 then 0 else ms[p - 1].frame + 1)
    ensures st.currentFrame <= ms[p].frame
  {
  }

  /**
   * Encoder state `st` after the first `k` messages, all values, holds a
   * marble that parses to one event per message, at its frame, labelled
   * as `st` records.
   */
  ghost predicate PrefixParses(ms: seq<Message>, k: nat, st: Encoder, frameTime: int)
    requires k <= |ms|
  {
    var r := ParseFrom(st.marble, 0, frameTime);
    && st.currentFrame == (if k == 0 then 0 else ms[k - 1].frame + 1)
    && r.Ok?
    && r.value.duration == frameTime * st.currentFrame
    && |r.value.events| == k
    && forall i :: 0 <= i < k ==>
         && ms[i].notification.N?
         && var json := ms[i].notification.json;
         && json in st.valueToChar && |st.valueToChar[json]| == 1
         && r.value.events[i] == NextOf(frameTime * ms[i].frame, st.valueToChar[json][0])
  }

  /** One value message, from a state whose labels are all non-empty. */
  lemma ValueWrites(st: Encoder, m: Message)
    requires m.notification.N? && st.currentFrame <= m.frame
    requires forall x :: x in st.valueToChar ==> st.valueToChar[x] != ""
    ensures var st' := Step(st, m);
      && m.notification.json in st'.valueToChar
      && st'.currentFrame == m.frame + 1
      && st'.marble == st.marble + (Dashes(m.frame - st.currentFrame) + st'.valueToChar[m.notification.json])
      && forall x :: x in st.valueToChar ==> x in st'.valueToChar && st'.valueToChar[x] == st.valueToChar[x]
  {
    var st', json := Step(st, m), m.notification.json;
    var emitted := Emit(PadTo(st, m.frame), m.notification);
    assert st' == emitted.(currentFrame := emitted.currentFrame + 1);
    assert json in st'.valueToChar;
    var gap := m.frame - st.currentFrame;
    assert st'.marble == st.marble + Dashes(gap) + st'.valueToChar[json] && st'.currentFrame == m.frame + 1 by {
      StepWrites(st, m);
    }
    assert st.marble + Dashes(gap) + st'.valueToChar[json] == st.marble + (Dashes(gap) + st'.valueToChar[json]);
    assert forall x :: x in st.valueToChar ==> x in st'.valueToChar && st'.valueToChar[x] == st.valueToChar[x] by {
      StepKeepsKnownLabels(st, m);
    }
  }

  /** What the encoder does with value message `p` after the values before it. */
  lemma ValueStep(ms: seq<Message>, p: nat)
    requires Replayable(ms) && p < |ms|
    requires ms[p].notification.N?
    requires Run(Start, ms[..p]).currentFrame == (if p == 0 then 0 else ms[p - 1].frame + 1)
    ensures var st0 := Run(Start, ms[..p]);
      var st := Run(Start, ms[..p + 1]);
      var json := ms[p].notification.json;
      && st0.currentFrame <= ms[p].frame
      && st.currentFrame == ms[p].frame + 1
      && json in st.valueToChar && |st.valueToChar[json]| == 1 && 'a' <= st.valueToChar[json][0] <= 'z'
      && st.marble == st0.marble + (Dashes(ms[p].frame - st0.currentFrame) + st.valueToChar[json])
      && forall x :: x in st0.valueToChar ==> x in st.valueToChar && st.valueToChar[x] == st0.valueToChar[x]
  {
    var k := p + 1;
    var st0 := Run(Start, ms[..p]);
    var json := ms[p].notification.json;
    assert Run(Start, ms[..k]) == Step(st0, ms[p]) by {
      assert ms[..k][..p] == ms[..p];
    }
    PaddingIsFrameGap(ms, p, st0);
    LabelsAreNonEmpty(ms[..p]);
    ValueWrites(st0, ms[p]);
    DistinctIsExact(ms[..k]);
    assert ms[..k][p] == ms[p];
    OneLetterLabel(ms, k, json);
  }

  /** Parsing keeps up with the encoder over one more value message. */
  lemma PrefixExtends(ms: seq<Message>, p: nat, st0: Encoder, st: Encoder, frameTime: int)
    requires p < |ms| && ms[p].notification.N?
    requires PrefixParses(ms, p, st0, frameTime)
    requires st0.currentFrame <= ms[p].frame && st.currentFrame == ms[p].frame + 1
    requires var json := ms[p].notification.json;
      && json in st.valueToChar && |st.valueToChar[json]| == 1 && 'a' <= st.valueToChar[json][0] <= 'z'
      && st.marble == st0.marble + (Dashes(ms[p].frame - st0.currentFrame) + st.valueToChar[json])
    requires forall x :: x in st0.valueToChar ==> x in st.valueToChar && st.valueToChar[x] == st0.valueToChar[x]
    ensures PrefixParses(ms, p + 1, st, frameTime)
  {
    var json := ms[p].notification.json;
    var evs0 := ParseFrom(st0.marble, 0, frameTime).value.events;
    var gap: nat := ms[p].frame - st0.currentFrame;
    var c := st.valueToChar[json][0];
    assert st.valueToChar[json] == [c];
    var e := NextOf(frameTime * ms[p].frame, c);
    assert ParseFrom(st.marble, 0, frameTime) == Ok(ParsedMarbleDiagram(evs0 + [e], frameTime * st.currentFrame)) by {
      AppendValueParses(st0.marble, evs0, st0.currentFrame, gap, c, frameTime);
    }
    var evs := evs0 + [e];
    forall i | 0 <= i < p + 1
      ensures var x := ms[i].notification.json;
        && x in st.valueToChar && |st.valueToChar[x]| == 1
        && evs[i] == NextOf(frameTime * ms[i].frame, st.valueToChar[x][0])
    {
      if i < p {
        assert evs[i] == evs0[i];
      }
    }
  }

  /** A replayable prefix of values encodes to a marble that parses to those values. */
  lemma {:induction false} PrefixRoundTrip(ms: seq<Message>, k: nat, frameTime: int)
    requires Replayable(ms) && k <= |ms|
    requires forall i :: 0 <= i < k ==> ms[i].notification.N?
    ensures PrefixParses(ms, k, Run(Start, ms[..k]), frameTime)
  {
    if k == 0 {
      assert ms[..0] == [];
    } else {
      PrefixRoundTrip(ms, k - 1, frameTime);
      PrefixStep(ms, k - 1, frameTime);
    }
  }

  lemma PrefixStep(ms: seq<Message>, p: nat, frameTime: int)
    requires Replayable(ms) && p < |ms| && ms[p].notification.N?
    requires PrefixParses(ms, p, Run(Start, ms[..p]), frameTime)
    ensures PrefixParses(ms, p + 1, Run(Start, ms[..p + 1]), frameTime)
  {
    ValueStep(ms, p);
    PrefixExtends(ms, p, Run(Start, ms[..p]), Run(Start, ms[..p + 1]), frameTime);
  }

  /** The events parsed back from the encoder's final marble, against its final state. */
  ghost predicate ParsesBack(ms: seq<Message>, frameTime: int) {
    var st := Run(Start, ms);
    var r := ParseFrom(st.marble, 0, frameTime);
    && r.Ok?
    && |r.value.events| == |ms|
    && forall i :: 0 <= i < |ms| ==>
         var e := r.value.events[i];
         var n := ms[i].notification;
         && e.time == frameTime * ms[i].frame
         && e.kind == KindOf(n)
         && (n.N? <==> e.value.Some?)
         && (n.N? ==> n.json in st.valueToChar && e.value.value == st.valueToChar[n.json])
  }

  lemma AllValuesParseBack(ms: seq<Message>, frameTime: int)
    requires Replayable(ms) && ms != []
    requires ms[|ms| - 1].notification.N?
    ensures ParsesBack(ms, frameTime)
  {
    PrefixRoundTrip(ms, |ms|, frameTime);
    assert ms[..|ms|] == ms;
    var st := Run(Start, ms);
    forall i | 0 <= i < |ms|
      ensures st.valueToChar[ms[i].notification.json] == [st.valueToChar[ms[i].notification.json][0]]
    {
    }
  }

  lemma TerminalWrites(st: Encoder, m: Message)
    requires !m.notification.N? && st.currentFrame <= m.frame
    ensures Step(st, m).marble == st.marble + (Dashes(m.frame - st.currentFrame) + (if m.notification.E? then "#" else "|"))
    ensures Step(st, m).valueToChar == st.valueToChar
  {
  }

  /** What the encoder does with the terminal message `p` after the values before it. */
  lemma TerminalStep(ms: seq<Message>, p: nat)
    requires Replayable(ms) && p < |ms|
    requires !ms[p].notification.N?
    requires Run(Start, ms[..p]).currentFrame == (if p == 0 then 0 else ms[p - 1].frame + 1)
    ensures var st0 := Run(Start, ms[..p]);
      var st := Run(Start, ms[..p + 1]);
      && st0.currentFrame <= ms[p].frame
      && st.marble == st0.marble + (Dashes(ms[p].frame - st0.currentFrame) + (if ms[p].notification.E? then "#" else "|"))
      && st.valueToChar == st0.valueToChar
  {
    var st0 := Run(Start, ms[..p]);
    assert Run(Start, ms[..p + 1]) == Step(st0, ms[p]) by {
      assert ms[..p + 1][..p] == ms[..p];
    }
    PaddingIsFrameGap(ms, p, st0);
    TerminalWrites(st0, ms[p]);
  }

  /** Parsing keeps up with the encoder over the terminal message. */
  lemma TerminalExtends(ms: seq<Message>, st0: Encoder, st: Encoder, frameTime: int)
    requires ms != [] && !ms[|ms| - 1].notification.N?
    requires PrefixParses(ms, |ms| - 1, st0, frameTime)
    requires var p := |ms| - 1;
      && st0.currentFrame <= ms[p].frame
      && st.marble == st0.marble + (Dashes(ms[p].frame - st0.currentFrame) + (if ms[p].notification.E? then "#" else "|"))
    requires st.valueToChar == st0.valueToChar
    ensures var r := ParseFrom(st.marble, 0, frameTime);
      && r.Ok?
      && |r.value.events| == |ms|
      && forall i :: 0 <= i < |ms| ==>
           var e := r.value.events[i];
           var n := ms[i].notification;
           && e.time == frameTime * ms[i].frame
           && e.kind == KindOf(n)
           && (n.N? <==> e.value.Some?)
           && (n.N? ==> n.json in st.valueToChar && e.value.value == st.valueToChar[n.json])
  {
    var p := |ms| - 1;
    var n := ms[p].notification;
    var evs0 := ParseFrom(st0.marble, 0, frameTime).value.events;
    var gap: nat := ms[p].frame - st0.currentFrame;
    var e := MarbleEvent(frameTime * ms[p].frame, None, KindOf(n));
    assert ParseFrom(st.marble, 0, frameTime) == Ok(ParsedMarbleDiagram(evs0 + [e], frameTime * ms[p].frame)) by {
      AppendTerminalParses(st0.marble, evs0, st0.currentFrame, gap, n, frameTime);
    }
    var evs := evs0 + [e];
    forall i | 0 <= i < |ms|
      ensures var n := ms[i].notification;
        && evs[i].time == frameTime * ms[i].frame
        && evs[i].kind == KindOf(n)
        && (n.N? <==> evs[i].value.Some?)
        && (n.N? ==> n.json in st.valueToChar && evs[i].value.value == st.valueToChar[n.json])
    {
      if i < p {
        var x := ms[i].notification.json;
        assert evs[i] == evs0[i];
        assert st0.valueToChar[x] == [st0.valueToChar[x][0]];
      } else {
        assert evs[i] == e;
      }
    }
  }

  lemma TerminalParsesBack(ms: seq<Message>, frameTime: int)
    requires Replayable(ms) && ms != []
    requires !ms[|ms| - 1].notification.N?
    ensures ParsesBack(ms, frameTime)
  {
    var p := |ms| - 1;
    PrefixRoundTrip(ms, p, frameTime);
    TerminalStep(ms, p);
    assert ms[..p + 1] == ms;
    TerminalExtends(ms, Run(Start, ms[..p]), Run(Start, ms), frameTime);
  }

  lemma LabelMapsBack(ms: seq<Message>, x: string)
    requires x in Run(Start, ms).valueToChar
    ensures var st := Run(Start, ms);
      st.valueToChar[x] in st.values && st.values[st.valueToChar[x]] == x
  {
    LabelsRoundTrip(ms);
  }

  /**
   * Parsing what `messagesToMarbles` writes recovers every message: its
   * time (frame times frame time), its kind, and, through the returned
   * value map, its value.
   */
  lemma CaptureRoundTrip(messages: seq<Message>, frameTime: int)
    requires Replayable(messages)
    ensures var cap := Encode(messages);
      var r := Parse(cap.marble, frameTime);
      && r.Ok?
      && |r.value.events| == |messages|
      && forall i :: 0 <= i < |messages| ==>
           var e := r.value.events[i];
           var n := messages[i].notification;
           && e.time == frameTime * messages[i].frame
           && e.kind == KindOf(n)
           && (n.N? <==> e.value.Some?)
           && (n.N? ==> e.value.value in cap.values && cap.values[e.value.value] == n.json)
  {
    if messages != [] {
      var st := Run(Start, messages);
      assert Encode(messages) == MarbleCapture(st.marble, st.values) by {
        SortKeepsSorted(messages);
      }
      assert ParsesBack(messages, frameTime) by {
        if messages[|messages| - 1].notification.N? {
          AllValuesParseBack(messages, frameTime);
        } else {
          TerminalParsesBack(messages, frameTime);
        }
      }
      var r := Parse(st.marble, frameTime);
      forall i | 0 <= i < |messages| && messages[i].notification.N?
        ensures r.value.events[i].value.value in st.values
        ensures st.values[r.value.events[i].value.value] == messages[i].notification.json
      {
        var x := messages[i].notification.json;
        LabelMapsBack(messages, x);
        assert r.value.events[i].value.value == st.valueToChar[x];
      }
    }
  }
}
