/**
 * The marble-notation parser of src/marble-parser.ts.
 *
 * `Parse`/`ParseFrom` give the meaning of a marble string as a function of
 * the remaining input (a functional reading of the left-to-right scan), and
 * `ParseMarbleDiagram` is the scanner itself: a loop over indices that
 * pushes onto `events`, advances `currentTime` and jumps over a group with
 * `i := closeIndex`.  Its postcondition ties it to `Parse`.
 */
module MarbleParser {
  import opened Wrappers

  datatype EventKind = Next | Error | Complete

  /** One timestamped occurrence; `value` is set only for `next` events. */
  datatype MarbleEvent = MarbleEvent(time: int, value: Option<string>, kind: EventKind)

  datatype ParsedMarbleDiagram = ParsedMarbleDiagram(events: seq<MarbleEvent>, duration: int)

  /** The two exceptions the parser throws. */
  datatype ParseError = UnclosedGroup | UnexpectedClosingParenthesis

  type ParseResult = Result<ParsedMarbleDiagram, ParseError>

  /** The default frame time of the entry point. */
  const DefaultFrameTime: int := 10

  /** JavaScript's `s.indexOf(c, from)`: the first position at or after `from` holding `c`, or -1. */
  function IndexOf(s: string, c: char, from: nat): (r: int)
    ensures r == -1 || from <= r < |s|
    ensures r != -1 ==> s[r] == c
    decreases |s| - from
  {
    if from >= |s| then -1
    else if s[from] == c then from
    else IndexOf(s, c, from + 1)
  }

  /** No `c` lies between `from` and the position `IndexOf` finds (or the end, when it finds none). */
  lemma {:induction false} IndexOfIsFirst(s: string, c: char, from: nat)
    ensures var r := IndexOf(s, c, from);
      forall k :: from <= k < |s| && (r == -1 || k < r) ==> s[k] != c
    decreases |s| - from
  {
    if from < |s| && s[from] != c {
      IndexOfIsFirst(s, c, from + 1);
    }
  }

  /** A `next` event carrying the one character `c`. */
  function NextOf(t: int, c: char): MarbleEvent {
    MarbleEvent(t, Some([c]), Next)
  }

  /** The characters of `s` other than `-`, in order. */
  function NonDash(s: string): seq<char>
  {
    if s == [] then []
    else NonDash(s[..|s| - 1]) + (if s[|s| - 1] != '-' then [s[|s| - 1]] else [])
  }

  /** The events a group's content emits at time `t`: one per character except `-`. */
  function GroupEvents(content: string, t: int): (evs: seq<MarbleEvent>)
    ensures |evs| == |NonDash(content)|
  {
    if content == [] then []
    else GroupEvents(content[..|content| - 1], t)
         + (if content[|content| - 1] != '-' then [NextOf(t, content[|content| - 1])] else [])
  }

  /** The `k`-th event of a group is a `next` event at `t` carrying the `k`-th character of its content other than `-`. */
  lemma {:induction false} GroupEventsPointwise(content: string, t: int)
    ensures forall k :: 0 <= k < |GroupEvents(content, t)| ==> GroupEvents(content, t)[k] == NextOf(t, NonDash(content)[k])
  {
    if content != [] {
      GroupEventsPointwise(content[..|content| - 1], t);
    }
  }

  /** Puts `evs` in front of the events of a successful result; an error passes through. */
  function Prepend(evs: seq<MarbleEvent>, r: ParseResult): ParseResult {
    match r
    case Ok(p) => Ok(ParsedMarbleDiagram(evs + p.events, p.duration))
    case Err(e) => Err(e)
  }

  /**
   * The meaning of the remaining input `s` when the scan has reached time `t`.
   * A group ends at the first `)` after its `(`.
   */
  function ParseFrom(s: string, t: int, frameTime: int): ParseResult
    decreases |s|
  {
    if s == [] then Ok(ParsedMarbleDiagram([], t))
    else
      match s[0]
      case '-' => ParseFrom(s[1..], t + frameTime, frameTime)
      case '|' => Prepend([MarbleEvent(t, None, Complete)], ParseFrom(s[1..], t, frameTime))
      case '#' => Prepend([MarbleEvent(t, None, Error)], ParseFrom(s[1..], t, frameTime))
      case '(' =>
        var close := IndexOf(s, ')', 0);
        if close == -1 then Err(UnclosedGroup)
        else Prepend(GroupEvents(s[1..close], t), ParseFrom(s[close + 1..], t + frameTime, frameTime))
      case ')' => Err(UnexpectedClosingParenthesis)
      case ' ' => ParseFrom(s[1..], t, frameTime)
      case _ => Prepend([NextOf(t, s[0])], ParseFrom(s[1..], t + frameTime, frameTime))
  }

  function Parse(marble: string, frameTime: int): ParseResult {
    ParseFrom(marble, 0, frameTime)
  }

  lemma {:induction false} PrependAssoc(a: seq<MarbleEvent>, b: seq<MarbleEvent>, r: ParseResult)
    ensures Prepend(a, Prepend(b, r)) == Prepend(a + b, r)
  {
    if r.Ok? {
      assert a + (b + r.value.events) == (a + b) + r.value.events;
    }
  }

  lemma PrependNothing(r: ParseResult)
    ensures Prepend([], r) == r
  {
    if r.Ok? {
      assert [] + r.value.events == r.value.events;
    }
  }

  /** The inner loop over a group's content: every character but `-` is pushed as a `next` event. */
  method PushGroup(events: seq<MarbleEvent>, groupContent: string, currentTime: int)
    returns (out: seq<MarbleEvent>)
    ensures out == events + GroupEvents(groupContent, currentTime)
  {
    out := events;
    for j := 0 to |groupContent|
      invariant out == events + GroupEvents(groupContent[..j], currentTime)
    {
      assert groupContent[..j + 1][..j] == groupContent[..j];
      if groupContent[j] != '-' {
        out := out + [NextOf(currentTime, groupContent[j])];
      }
    }
    assert groupContent[..|groupContent|] == groupContent;
  }

  /**
   * One turn of the scan: the `switch` on `marble[i]`.  Either it throws
   * (`thrown` holds the error) or it returns the events, the time and the
   * index of the last character it consumed, and the parse still agrees.
   */
  method ScanChar(marble: string, frameTime: int, events: seq<MarbleEvent>, currentTime: int, i: nat)
    returns (thrown: Option<ParseError>, events': seq<MarbleEvent>, currentTime': int, i': nat)
    requires i < |marble|
    ensures thrown.Some? ==> Prepend(events, ParseFrom(marble[i..], currentTime, frameTime)) == Err(thrown.value)
    ensures thrown.None? ==> i <= i' < |marble|
    ensures thrown.None? ==>
      Prepend(events, ParseFrom(marble[i..], currentTime, frameTime))
      == Prepend(events', ParseFrom(marble[i' + 1..], currentTime', frameTime))
  {
    if marble[i] == '(' {
      thrown, events', i' := ScanGroup(marble, frameTime, events, currentTime, i);
      currentTime' := currentTime + frameTime;
    } else {
      thrown, events', currentTime' := ScanAtom(marble, frameTime, events, currentTime, i);
      i' := i;
    }
  }

  /** Every character of the scan but `(`: it is one event, a step of time, both, nothing, or a throw. */
  method ScanAtom(marble: string, frameTime: int, events: seq<MarbleEvent>, currentTime: int, i: nat)
    returns (thrown: Option<ParseError>, events': seq<MarbleEvent>, currentTime': int)
    requires i < |marble| && marble[i] != '('
    ensures thrown.Some? ==> Prepend(events, ParseFrom(marble[i..], currentTime, frameTime)) == Err(thrown.value)
    ensures thrown.None? ==>
      Prepend(events, ParseFrom(marble[i..], currentTime, frameTime))
      == Prepend(events', ParseFrom(marble[i + 1..], currentTime', frameTime))
  {
    thrown, events', currentTime' := None, events, currentTime;
    var c := marble[i];
    SuffixStep(marble, i);
    match c {
      case '-' =>
        currentTime' := currentTime + frameTime;
      case '|' =>
        PrependAssoc(events, [MarbleEvent(currentTime, None, Complete)], ParseFrom(marble[i + 1..], currentTime, frameTime));
        events' := events + [MarbleEvent(currentTime, None, Complete)];
      case '#' =>
        PrependAssoc(events, [MarbleEvent(currentTime, None, Error)], ParseFrom(marble[i + 1..], currentTime, frameTime));
        events' := events + [MarbleEvent(currentTime, None, Error)];
      case ')' =>
        thrown := Some(UnexpectedClosingParenthesis);
      case ' ' =>
      case _ =>
        PrependAssoc(events, [NextOf(currentTime, c)], ParseFrom(marble[i + 1..], currentTime + frameTime, frameTime));
        events' := events + [NextOf(currentTime, c)];
        currentTime' := currentTime + frameTime;
    }
  }

  /**
   * The `(` case of the scan: a group runs to the first `)` after it, or the
   * scan throws; each character of its content but `-` is a `next` event at
   * the current time.
   */
  method ScanGroup(marble: string, frameTime: int, events: seq<MarbleEvent>, currentTime: int, i: nat)
    returns (thrown: Option<ParseError>, events': seq<MarbleEvent>, closeIndex: nat)
    requires i < |marble| && marble[i] == '('
    ensures thrown.Some? ==> thrown.value == UnclosedGroup && IndexOf(marble, ')', i) == -1
    ensures thrown.Some? ==> Prepend(events, ParseFrom(marble[i..], currentTime, frameTime)) == Err(thrown.value)
    ensures thrown.None? ==> closeIndex == IndexOf(marble, ')', i) && i < closeIndex < |marble|
    ensures thrown.None? ==>
      Prepend(events, ParseFrom(marble[i..], currentTime, frameTime))
      == Prepend(events', ParseFrom(marble[closeIndex + 1..], currentTime + frameTime, frameTime))
  {
    var close := IndexOf(marble, ')', i);
    GroupAt(marble, i, currentTime, frameTime, events);
    if close == -1 {
      return Some(UnclosedGroup), events, i;
    }
    closeIndex := close;
    var groupContent := marble[i + 1..closeIndex];
    events' := PushGroup(events, groupContent, currentTime);
    thrown := None;
  }

  /** The scanner of src/marble-parser.ts, proved to compute `Parse`. */
  method ParseMarbleDiagram(marble: string, frameTime: int) returns (r: ParseResult)
    ensures r == Parse(marble, frameTime)
  {
    var events: seq<MarbleEvent> := [];
    var currentTime := 0;
    var i := 0;
    assert marble[0..] == marble;
    PrependNothing(Parse(marble, frameTime));
    while i < |marble|
      invariant 0 <= i <= |marble|
      invariant Parse(marble, frameTime) == Prepend(events, ParseFrom(marble[i..], currentTime, frameTime))
    {
      var thrown;
      thrown, events, currentTime, i := ScanChar(marble, frameTime, events, currentTime, i);
      if thrown.Some? {
        return Err(thrown.value);
      }
      i := i + 1;
    }
    assert marble[i..] == [];
    assert events + [] == events;
    return Ok(ParsedMarbleDiagram(events, currentTime));
  }

  /** The first character of `marble[i..]` and what follows it. */
  lemma SuffixStep(marble: string, i: nat)
    requires i < |marble|
    ensures marble[i..][0] == marble[i] && marble[i..][1..] == marble[i + 1..]
  {
  }

  /** A group opening at `i` is unclosed, or holds what lies between it and the first `)` after it. */
  lemma GroupAt(marble: string, i: nat, t: int, frameTime: int, events: seq<MarbleEvent>)
    requires i < |marble| && marble[i] == '('
    ensures IndexOf(marble, ')', i) == -1 ==> Prepend(events, ParseFrom(marble[i..], t, frameTime)) == Err(UnclosedGroup)
    ensures IndexOf(marble, ')', i) != -1 ==> i < IndexOf(marble, ')', i) < |marble|
    ensures var close := IndexOf(marble, ')', i);
      close != -1 ==>
        Prepend(events, ParseFrom(marble[i..], t, frameTime))
        == Prepend(events + GroupEvents(marble[i + 1..close], t), ParseFrom(marble[close + 1..], t + frameTime, frameTime))
  {
    var rest := marble[i..];
    SuffixStep(marble, i);
    IndexOfSuffix(marble, ')', i);
    var close := IndexOf(marble, ')', i);
    if close != -1 {
      assert marble[i + 1..close] == rest[1..close - i];
      assert rest[close - i + 1..] == marble[close + 1..];
      PrependAssoc(events, GroupEvents(marble[i + 1..close], t), ParseFrom(marble[close + 1..], t + frameTime, frameTime));
    }
  }

  /** Searching from `from` in `s` is searching from 0 in the suffix `s[from..]`, shifted by `from`. */
  lemma IndexOfSuffix(s: string, c: char, from: nat)
    requires from <= |s|
    ensures var k := IndexOf(s[from..], c, 0);
            IndexOf(s, c, from) == if k == -1 then -1 else from + k
  {
    var r, k := IndexOf(s, c, from), IndexOf(s[from..], c, 0);
    IndexOfIsFirst(s, c, from);
    IndexOfIsFirst(s[from..], c, 0);
    if k != -1 {
      assert s[from + k] == c;
    }
    if r != -1 {
      assert s[from..][r - from] == c;
    }
  }
}
