/**
 * Properties of the marble parser: composition, ignored spaces, group
 * semantics, the two error cases, ordering and scaling of times, and the
 * worked examples of the notation.
 */
module MarbleParserProperties {
  import opened Wrappers
  import opened MarbleParser

  /** A character found in `a` is found at the same place in `a + b`. */
  lemma IndexOfPrefix(a: string, b: string, c: char)
    requires IndexOf(a, c, 0) != -1
    ensures IndexOf(a + b, c, 0) == IndexOf(a, c, 0)
  {
    var k := IndexOf(a, c, 0);
    var r := IndexOf(a + b, c, 0);
    IndexOfIsFirst(a, c, 0);
    IndexOfIsFirst(a + b, c, 0);
    assert (a + b)[k] == c;
  }

  /** Scanning `a + b` is scanning `a` to completion and then `b` from where `a` ended. */
  lemma {:induction false} ParseAppend(a: string, b: string, t: int, frameTime: int)
    requires ParseFrom(a, t, frameTime).Ok?
    ensures ParseFrom(a + b, t, frameTime)
         == Prepend(ParseFrom(a, t, frameTime).value.events,
                    ParseFrom(b, ParseFrom(a, t, frameTime).value.duration, frameTime))
    decreases |a|
  {
    if a == [] {
      assert a + b == b;
      PrependNothing(ParseFrom(b, t, frameTime));
    } else {
      var ab := a + b;
      assert ab[0] == a[0];
      assert ab[1..] == a[1..] + b;
      match a[0]
      case '-' =>
        ParseAppend(a[1..], b, t + frameTime, frameTime);
      case '|' =>
        ParseAppend(a[1..], b, t, frameTime);
        var p := ParseFrom(a[1..], t, frameTime).value;
        PrependAssoc([MarbleEvent(t, None, Complete)], p.events, ParseFrom(b, p.duration, frameTime));
      case '#' =>
        ParseAppend(a[1..], b, t, frameTime);
        var p := ParseFrom(a[1..], t, frameTime).value;
        PrependAssoc([MarbleEvent(t, None, Error)], p.events, ParseFrom(b, p.duration, frameTime));
      case '(' =>
        var close := IndexOf(a, ')', 0);
        assert close != -1;
        IndexOfPrefix(a, b, ')');
        assert ab[1..close] == a[1..close];
        assert ab[close + 1..] == a[close + 1..] + b;
        ParseAppend(a[close + 1..], b, t + frameTime, frameTime);
        var p := ParseFrom(a[close + 1..], t + frameTime, frameTime).value;
        PrependAssoc(GroupEvents(a[1..close], t), p.events, ParseFrom(b, p.duration, frameTime));
      case ')' =>
      case ' ' =>
        ParseAppend(a[1..], b, t, frameTime);
      case _ =>
        ParseAppend(a[1..], b, t + frameTime, frameTime);
        var p := ParseFrom(a[1..], t + frameTime, frameTime).value;
        PrependAssoc([NextOf(t, a[0])], p.events, ParseFrom(b, p.duration, frameTime));
    }
  }

  /** A space outside any group changes neither the events nor the time. */
  lemma SpaceIsIgnored(a: string, b: string, t: int, frameTime: int)
    requires ParseFrom(a, t, frameTime).Ok?
    ensures ParseFrom(a + " " + b, t, frameTime) == ParseFrom(a + b, t, frameTime)
  {
    assert a + " " + b == a + (" " + b);
    ParseAppend(a, " " + b, t, frameTime);
    ParseAppend(a, b, t, frameTime);
    assert (" " + b)[1..] == b;
  }

  /** A `)` reached by the scanner outside a group fails the whole parse. */
  lemma StrayCloseFails(a: string, b: string, t: int, frameTime: int)
    requires ParseFrom(a, t, frameTime).Ok?
    ensures ParseFrom(a + ")" + b, t, frameTime) == Err(UnexpectedClosingParenthesis)
  {
    assert a + ")" + b == a + (")" + b);
    ParseAppend(a, ")" + b, t, frameTime);
  }

  /** A `(` with no `)` after it fails the whole parse; no partial result survives. */
  lemma UnclosedGroupFails(a: string, g: string, t: int, frameTime: int)
    requires ParseFrom(a, t, frameTime).Ok?
    requires ')' !in g
    ensures ParseFrom(a + "(" + g, t, frameTime) == Err(UnclosedGroup)
  {
    assert a + "(" + g == a + ("(" + g);
    ParseAppend(a, "(" + g, t, frameTime);
  }

  /**
   * A group emits every character of its content but `-` at the current time,
   * in order, then advances time by one frame and resumes after its first `)`.
   */
  lemma GroupEmitsOnce(g: string, rest: string, t: int, frameTime: int)
    requires ')' !in g
    ensures ParseFrom("(" + g + ")" + rest, t, frameTime)
         == Prepend(GroupEvents(g, t), ParseFrom(rest, t + frameTime, frameTime))
  {
    var s := "(" + g + ")" + rest;
    var r := IndexOf(s, ')', 0);
    IndexOfIsFirst(s, ')', 0);
    assert s[|g| + 1] == ')';
    assert forall k :: 1 <= k <= |g| ==> s[k] == g[k - 1];
    assert s[1..r] == g;
    assert s[r + 1..] == rest;
  }

  /** Times never decrease along the events and all lie between the start time and the duration. */
  ghost predicate TimesOrdered(p: ParsedMarbleDiagram, t: int)
  {
    && t <= p.duration
    && (forall i :: 0 <= i < |p.events| ==> t <= p.events[i].time <= p.duration)
    && (forall i, j :: 0 <= i < j < |p.events| ==> p.events[i].time <= p.events[j].time)
  }

  lemma PrependOrdered(evs: seq<MarbleEvent>, p: ParsedMarbleDiagram, t: int, t': int)
    requires forall i :: 0 <= i < |evs| ==> evs[i].time == t
    requires t <= t' && TimesOrdered(p, t')
    ensures TimesOrdered(ParsedMarbleDiagram(evs + p.events, p.duration), t)
  {
    var all := evs + p.events;
    forall i | 0 <= i < |all|
      ensures t <= all[i].time <= p.duration
    {
      if i >= |evs| { assert all[i] == p.events[i - |evs|]; }
    }
    forall i, j | 0 <= i < j < |all|
      ensures all[i].time <= all[j].time
    {
      if i >= |evs| { assert all[i] == p.events[i - |evs|] && all[j] == p.events[j - |evs|]; }
      else if j >= |evs| { assert all[j] == p.events[j - |evs|]; }
    }
  }

  /** With a non-negative frame time the events come out sorted by time, within [t, duration]. */
  lemma {:induction false} ParseOrdersTimes(s: string, t: int, frameTime: int)
    requires frameTime >= 0
    requires ParseFrom(s, t, frameTime).Ok?
    ensures TimesOrdered(ParseFrom(s, t, frameTime).value, t)
    decreases |s|
  {
    if s != [] {
      match s[0]
      case '-' =>
        ParseOrdersTimes(s[1..], t + frameTime, frameTime);
        PrependOrdered([], ParseFrom(s[1..], t + frameTime, frameTime).value, t, t + frameTime);
        assert [] + ParseFrom(s[1..], t + frameTime, frameTime).value.events
            == ParseFrom(s[1..], t + frameTime, frameTime).value.events;
      case '|' =>
        ParseOrdersTimes(s[1..], t, frameTime);
        PrependOrdered([MarbleEvent(t, None, Complete)], ParseFrom(s[1..], t, frameTime).value, t, t);
      case '#' =>
        ParseOrdersTimes(s[1..], t, frameTime);
        PrependOrdered([MarbleEvent(t, None, Error)], ParseFrom(s[1..], t, frameTime).value, t, t);
      case '(' =>
        var close := IndexOf(s, ')', 0);
        ParseOrdersTimes(s[close + 1..], t + frameTime, frameTime);
        GroupEventsPointwise(s[1..close], t);
        PrependOrdered(GroupEvents(s[1..close], t), ParseFrom(s[close + 1..], t + frameTime, frameTime).value, t, t + frameTime);
      case ')' =>
      case ' ' =>
        ParseOrdersTimes(s[1..], t, frameTime);
      case _ =>
        ParseOrdersTimes(s[1..], t + frameTime, frameTime);
        PrependOrdered([NextOf(t, s[0])], ParseFrom(s[1..], t + frameTime, frameTime).value, t, t + frameTime);
    }
  }

  /** Every event with its time multiplied by `k`. */
  function ScaleEvents(evs: seq<MarbleEvent>, k: int): (r: seq<MarbleEvent>)
    ensures |r| == |evs|
    ensures forall i :: 0 <= i < |r| ==> r[i] == evs[i].(time := k * evs[i].time)
  {
    if evs == [] then [] else [evs[0].(time := k * evs[0].time)] + ScaleEvents(evs[1..], k)
  }

  /** A result with every time and the duration multiplied by `k`. */
  function Scale(r: ParseResult, k: int): ParseResult {
    match r
    case Ok(p) => Ok(ParsedMarbleDiagram(ScaleEvents(p.events, k), k * p.duration))
    case Err(e) => Err(e)
  }

  lemma ScaleEventsAppend(a: seq<MarbleEvent>, b: seq<MarbleEvent>, k: int)
    ensures ScaleEvents(a + b, k) == ScaleEvents(a, k) + ScaleEvents(b, k)
  {
    var l, r := ScaleEvents(a + b, k), ScaleEvents(a, k) + ScaleEvents(b, k);
    forall i | 0 <= i < |l| ensures l[i] == r[i] {
      if i >= |a| { assert (a + b)[i] == b[i - |a|]; }
    }
  }

  lemma ScalePrepend(evs: seq<MarbleEvent>, r: ParseResult, k: int)
    ensures Scale(Prepend(evs, r), k) == Prepend(ScaleEvents(evs, k), Scale(r, k))
  {
    if r.Ok? {
      ScaleEventsAppend(evs, r.value.events, k);
    }
  }

  /**
   * Parsing with frame time `k` is parsing with frame time 1 and multiplying
   * every time by `k`: all times and the duration are multiples of the frame time.
   */
  lemma {:induction false} ParseScales(s: string, t: int, k: int)
    ensures ParseFrom(s, k * t, k) == Scale(ParseFrom(s, t, 1), k)
    decreases |s|
  {
    if s == [] {
    } else {
      assert k * (t + 1) == k * t + k;
      match s[0]
      case '-' =>
        ParseScales(s[1..], t + 1, k);
      case '|' =>
        ParseScales(s[1..], t, k);
        ScalePrepend([MarbleEvent(t, None, Complete)], ParseFrom(s[1..], t, 1), k);
      case '#' =>
        ParseScales(s[1..], t, k);
        ScalePrepend([MarbleEvent(t, None, Error)], ParseFrom(s[1..], t, 1), k);
      case '(' =>
        var close := IndexOf(s, ')', 0);
        if close != -1 {
          ParseScales(s[close + 1..], t + 1, k);
          ScalePrepend(GroupEvents(s[1..close], t), ParseFrom(s[close + 1..], t + 1, 1), k);
          GroupEventsPointwise(s[1..close], t);
          GroupEventsPointwise(s[1..close], k * t);
          assert GroupEvents(s[1..close], k * t) == ScaleEvents(GroupEvents(s[1..close], t), k);
        }
      case ')' =>
      case ' ' =>
        ParseScales(s[1..], t, k);
      case _ =>
        ParseScales(s[1..], t + 1, k);
        ScalePrepend([NextOf(t, s[0])], ParseFrom(s[1..], t + 1, 1), k);
    }
  }

  /** Every event time and the duration of `Parse(s, k)` are `k` times those of `Parse(s, 1)`. */
  lemma TimesAreMultiples(s: string, k: int)
    ensures Parse(s, k).Ok? <==> Parse(s, 1).Ok?
    ensures Parse(s, k).Ok? ==>
      var p, q := Parse(s, k).value, Parse(s, 1).value;
      && |p.events| == |q.events|
      && p.duration == k * q.duration
      && forall i :: 0 <= i < |p.events| ==> p.events[i].time == k * q.events[i].time
  {
    assert k * 0 == 0;
    ParseScales(s, 0, k);
  }

  /** A `next` event carries a value of exactly one character; `error` and `complete` carry none. */
  ghost predicate WellShaped(e: MarbleEvent) {
    (e.kind == Next <==> e.value.Some?) && (e.value.Some? ==> |e.value.value| == 1)
  }

  lemma {:induction false} ParsedEventsWellShaped(s: string, t: int, frameTime: int)
    requires ParseFrom(s, t, frameTime).Ok?
    ensures forall e :: e in ParseFrom(s, t, frameTime).value.events ==> WellShaped(e)
    decreases |s|
  {
    if s != [] {
      match s[0]
      case '-' => ParsedEventsWellShaped(s[1..], t + frameTime, frameTime);
      case '|' => ParsedEventsWellShaped(s[1..], t, frameTime);
      case '#' => ParsedEventsWellShaped(s[1..], t, frameTime);
      case '(' =>
        var close := IndexOf(s, ')', 0);
        ParsedEventsWellShaped(s[close + 1..], t + frameTime, frameTime);
        GroupEventsPointwise(s[1..close], t);
      case ')' =>
      case ' ' => ParsedEventsWellShaped(s[1..], t, frameTime);
      case _ => ParsedEventsWellShaped(s[1..], t + frameTime, frameTime);
    }
  }

  /** The empty string parses to no events and duration 0. */
  lemma EmptyParses(frameTime: int)
    ensures Parse("", frameTime) == Ok(ParsedMarbleDiagram([], 0))
  {
  }

  /** "(ab)--|": `a` and `b` together at 0, then `complete` at 30; duration 30. */
  lemma ExampleGroupThenComplete()
    ensures Parse("(ab)--|", 10)
         == Ok(ParsedMarbleDiagram([NextOf(0, 'a'), NextOf(0, 'b'), MarbleEvent(30, None, Complete)], 30))
  {
    assert "(ab)--|" == "(" + "ab" + ")" + "--|";
    GroupEmitsOnce("ab", "--|", 0, 10);
    assert NonDash("ab") == "ab" by {
      assert "ab"[..1] == "a";
      assert "a"[..0] == "";
    }
    var g := GroupEvents("ab", 0);
    assert g == [NextOf(0, 'a'), NextOf(0, 'b')];
    var c := MarbleEvent(30, None, Complete);
    assert "--|"[1..] == "-|" && "-|"[1..] == "|" && "|"[1..] == "";
    assert [c] + [] == [c];
    assert ParseFrom("--|", 10, 10) == Ok(ParsedMarbleDiagram([c], 30));
    assert g + [c] == [NextOf(0, 'a'), NextOf(0, 'b'), c];
  }

  /** "a--#": `a` at 0, then `error` at 30 (the `#` does not advance time). */
  lemma ExampleError()
    ensures Parse("a--#", 10) == Ok(ParsedMarbleDiagram([NextOf(0, 'a'), MarbleEvent(30, None, Error)], 30))
  {
    assert "a--#"[1..] == "--#" && "--#"[1..] == "-#" && "-#"[1..] == "#" && "#"[1..] == "";
    calc {
      Parse("a--#", 10);
      Prepend([NextOf(0, 'a')], ParseFrom("--#", 10, 10));
      Prepend([NextOf(0, 'a')], ParseFrom("#", 30, 10));
      Prepend([NextOf(0, 'a')], Prepend([MarbleEvent(30, None, Error)], ParseFrom("", 30, 10)));
      { assert [MarbleEvent(30, None, Error)] + [] == [MarbleEvent(30, None, Error)]; }
      Prepend([NextOf(0, 'a')], Ok(ParsedMarbleDiagram([MarbleEvent(30, None, Error)], 30)));
      { assert [NextOf(0, 'a')] + [MarbleEvent(30, None, Error)] == [NextOf(0, 'a'), MarbleEvent(30, None, Error)]; }
      Ok(ParsedMarbleDiagram([NextOf(0, 'a'), MarbleEvent(30, None, Error)], 30));
    }
  }

  /** A value followed by two dashes emits one event and moves the rest three frames later. */
  lemma ValueThenTwoDashes(x: char, rest: string, t: int)
    requires x !in "-|#() "
    requires ParseFrom(rest, t + 30, 10).Ok?
    ensures ParseFrom([x] + "--" + rest, t, 10)
         == Ok(ParsedMarbleDiagram([NextOf(t, x)] + ParseFrom(rest, t + 30, 10).value.events,
                                   ParseFrom(rest, t + 30, 10).value.duration))
  {
    var s := [x] + "--" + rest;
    assert s[0] == x && s[1..] == "--" + rest;
    assert ("--" + rest)[0] == '-' && ("--" + rest)[1..] == "-" + rest;
    assert ("-" + rest)[0] == '-' && ("-" + rest)[1..] == rest;
    assert ParseFrom("--" + rest, t + 10, 10) == ParseFrom(rest, t + 30, 10);
  }

  lemma CompleteParses(t: int, frameTime: int)
    ensures ParseFrom("|", t, frameTime) == Ok(ParsedMarbleDiagram([MarbleEvent(t, None, Complete)], t))
  {
    var c := MarbleEvent(t, None, Complete);
    assert "|"[0] == '|' && "|"[1..] == "" && [c] + [] == [c];
  }

  lemma ErrorParses(t: int, frameTime: int)
    ensures ParseFrom("#", t, frameTime) == Ok(ParsedMarbleDiagram([MarbleEvent(t, None, Error)], t))
  {
    var e := MarbleEvent(t, None, Error);
    assert "#"[0] == '#' && "#"[1..] == "" && [e] + [] == [e];
  }

  lemma ExampleSequenceLast()
    ensures ParseFrom("d--|", 90, 10)
         == Ok(ParsedMarbleDiagram([NextOf(90, 'd'), MarbleEvent(120, None, Complete)], 120))
  {
    var c := MarbleEvent(120, None, Complete);
    CompleteParses(120, 10);
    ValueThenTwoDashes('d', "|", 90);
    assert ['d'] + "--" + "|" == "d--|";
    assert [NextOf(90, 'd')] + [c] == [NextOf(90, 'd'), c];
  }

  lemma ExampleSequenceTail()
    ensures ParseFrom("c--d--|", 60, 10)
         == Ok(ParsedMarbleDiagram([NextOf(60, 'c'), NextOf(90, 'd'), MarbleEvent(120, None, Complete)], 120))
  {
    var c := MarbleEvent(120, None, Complete);
    var tail := [NextOf(90, 'd'), c];
    assert ParseFrom("d--|", 90, 10) == Ok(ParsedMarbleDiagram(tail, 120)) by {
      ExampleSequenceLast();
    }
    ValueThenTwoDashes('c', "d--|", 60);
    assert ['c'] + "--" + "d--|" == "c--d--|";
    assert [NextOf(60, 'c')] + tail == [NextOf(60, 'c'), NextOf(90, 'd'), c];
  }

  lemma ExampleSequenceMiddle()
    ensures ParseFrom("b--c--d--|", 30, 10)
         == Ok(ParsedMarbleDiagram([NextOf(30, 'b'), NextOf(60, 'c'), NextOf(90, 'd'),
                                    MarbleEvent(120, None, Complete)], 120))
  {
    var c := MarbleEvent(120, None, Complete);
    var tail := [NextOf(60, 'c'), NextOf(90, 'd'), c];
    assert ParseFrom("c--d--|", 60, 10) == Ok(ParsedMarbleDiagram(tail, 120)) by {
      ExampleSequenceTail();
    }
    ValueThenTwoDashes('b', "c--d--|", 30);
    assert ['b'] + "--" + "c--d--|" == "b--c--d--|";
    assert [NextOf(30, 'b')] + tail == [NextOf(30, 'b'), NextOf(60, 'c'), NextOf(90, 'd'), c];
  }

  /** "a--b--c--d--|": values at 0, 30, 60, 90 and `complete` at 120. */
  lemma ExampleSequence()
    ensures Parse("a--b--c--d--|", 10)
         == Ok(ParsedMarbleDiagram([NextOf(0, 'a'), NextOf(30, 'b'), NextOf(60, 'c'), NextOf(90, 'd'),
                                    MarbleEvent(120, None, Complete)], 120))
  {
    var c := MarbleEvent(120, None, Complete);
    var tail := [NextOf(30, 'b'), NextOf(60, 'c'), NextOf(90, 'd'), c];
    assert ParseFrom("b--c--d--|", 30, 10) == Ok(ParsedMarbleDiagram(tail, 120)) by {
      ExampleSequenceMiddle();
    }
    ValueThenTwoDashes('a', "b--c--d--|", 0);
    assert ['a'] + "--" + "b--c--d--|" == "a--b--c--d--|";
    assert [NextOf(0, 'a')] + tail == [NextOf(0, 'a'), NextOf(30, 'b'), NextOf(60, 'c'), NextOf(90, 'd'), c];
  }

  /** "(ab" is an unclosed group and ")" an unexpected closing parenthesis. */
  lemma ExampleErrors()
    ensures Parse("(ab", 10) == Err(UnclosedGroup)
    ensures Parse(")", 10) == Err(UnexpectedClosingParenthesis)
  {
  }
}
