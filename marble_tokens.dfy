/**
 * A reference reading of the marble notation as a sequence of tokens.
 *
 * The scanner of src/marble-parser.ts never builds tokens, but its switch
 * statement classifies every position of the input into one of six
 * lexical classes.  `Tokenize` makes that classification explicit,
 * `Interpret` gives each class its effect on the timeline, and the lemmas
 * show that the parser is exactly "tokenize, then interpret", which yields
 * the closed-form duration.
 */
module MarbleTokens {
  import opened Wrappers
  import opened MarbleParser

  datatype Token = Dash | CompleteMark | ErrorMark | Blank | Group(content: string) | Value(c: char)

  /** The characters with a meaning of their own outside a group; any other character is a value. */
  predicate IsReserved(c: char) {
    c == '-' || c == '|' || c == '#' || c == '(' || c == ')' || c == ' '
  }

  /** The text a token was read from. */
  function Spelling(tok: Token): string {
    match tok
    case Dash => "-"
    case CompleteMark => "|"
    case ErrorMark => "#"
    case Blank => " "
    case Group(g) => "(" + g + ")"
    case Value(c) => [c]
  }

  function Spell(ts: seq<Token>): string {
    if ts == [] then [] else Spelling(ts[0]) + Spell(ts[1..])
  }

  /** A group's content holds no `)`, and a value is not a reserved character. */
  predicate WellFormed(tok: Token) {
    match tok
    case Group(g) => ')' !in g
    case Value(c) => !IsReserved(c)
    case _ => true
  }

  function Cons(tok: Token, r: Result<seq<Token>, ParseError>): Result<seq<Token>, ParseError> {
    match r
    case Ok(ts) => Ok([tok] + ts)
    case Err(e) => Err(e)
  }

  /** Splits the notation into tokens, failing where the parser fails. */
  function Tokenize(s: string): Result<seq<Token>, ParseError>
    decreases |s|
  {
    if s == [] then Ok([])
    else
      match s[0]
      case '-' => Cons(Dash, Tokenize(s[1..]))
      case '|' => Cons(CompleteMark, Tokenize(s[1..]))
      case '#' => Cons(ErrorMark, Tokenize(s[1..]))
      case ' ' => Cons(Blank, Tokenize(s[1..]))
      case '(' =>
        var close := IndexOf(s, ')', 0);
        if close == -1 then Err(UnclosedGroup)
        else Cons(Group(s[1..close]), Tokenize(s[close + 1..]))
      case ')' => Err(UnexpectedClosingParenthesis)
      case _ => Cons(Value(s[0]), Tokenize(s[1..]))
  }

  /** The effect of each token on the timeline, starting at time `t`. */
  function Interpret(ts: seq<Token>, t: int, frameTime: int): ParsedMarbleDiagram
  {
    if ts == [] then ParsedMarbleDiagram([], t)
    else
      var rest := ts[1..];
      match ts[0]
      case Dash => Interpret(rest, t + frameTime, frameTime)
      case CompleteMark =>
        var p := Interpret(rest, t, frameTime);
        p.(events := [MarbleEvent(t, None, Complete)] + p.events)
      case ErrorMark =>
        var p := Interpret(rest, t, frameTime);
        p.(events := [MarbleEvent(t, None, Error)] + p.events)
      case Blank => Interpret(rest, t, frameTime)
      case Group(g) =>
        var p := Interpret(rest, t + frameTime, frameTime);
        p.(events := GroupEvents(g, t) + p.events)
      case Value(c) =>
        var p := Interpret(rest, t + frameTime, frameTime);
        p.(events := [NextOf(t, c)] + p.events)
  }

  function CountDashes(ts: seq<Token>): nat {
    if ts == [] then 0 else (if ts[0].Dash? then 1 else 0) + CountDashes(ts[1..])
  }

  function CountValues(ts: seq<Token>): nat {
    if ts == [] then 0 else (if ts[0].Value? then 1 else 0) + CountValues(ts[1..])
  }

  function CountGroups(ts: seq<Token>): nat {
    if ts == [] then 0 else (if ts[0].Group? then 1 else 0) + CountGroups(ts[1..])
  }

  /** One more well-formed token in front of well-formed tokens that spell `rest`. */
  lemma SpellCons(tok: Token, ts: seq<Token>, rest: string)
    requires WellFormed(tok) && Spell(ts) == rest
    requires forall k :: 0 <= k < |ts| ==> WellFormed(ts[k])
    ensures Spell([tok] + ts) == Spelling(tok) + rest
    ensures forall k :: 0 <= k < |[tok] + ts| ==> WellFormed(([tok] + ts)[k])
  {
    assert ([tok] + ts)[1..] == ts;
    assert forall k :: 1 <= k < |ts| + 1 ==> ([tok] + ts)[k] == ts[k - 1];
  }

  /** A group at the start of `s` is spelled by its content between the parentheses. */
  lemma GroupSpelled(s: string)
    requires s != [] && s[0] == '(' && IndexOf(s, ')', 0) != -1
    ensures var close := IndexOf(s, ')', 0);
      && s == Spelling(Group(s[1..close])) + s[close + 1..]
      && WellFormed(Group(s[1..close]))
  {
    var close := IndexOf(s, ')', 0);
    IndexOfIsFirst(s, ')', 0);
    assert forall k :: 0 <= k < close - 1 ==> s[1..close][k] == s[k + 1];
    assert s == "(" + s[1..close] + ")" + s[close + 1..];
  }

  /** Spelling the tokens back gives the input, and every token is well formed. */
  lemma {:induction false} TokenizeSpells(s: string)
    ensures Tokenize(s).Ok? ==> Spell(Tokenize(s).value) == s
    ensures Tokenize(s).Ok? ==> forall k :: 0 <= k < |Tokenize(s).value| ==> WellFormed(Tokenize(s).value[k])
    decreases |s|
  {
    if s != [] && Tokenize(s).Ok? {
      var tok: Token, rest: string;
      if s[0] == '(' {
        var close := IndexOf(s, ')', 0);
        tok, rest := Group(s[1..close]), s[close + 1..];
        GroupSpelled(s);
      } else {
        tok := match s[0]
          case '-' => Dash
          case '|' => CompleteMark
          case '#' => ErrorMark
          case ' ' => Blank
          case _ => Value(s[0]);
        rest := s[1..];
        assert s == Spelling(tok) + rest;
      }
      assert Tokenize(s) == Cons(tok, Tokenize(rest));
      TokenizeSpells(rest);
      SpellCons(tok, Tokenize(rest).value, rest);
    }
  }

  /** Tokenizing a well-formed token's spelling and more reads that token first. */
  lemma TokenizeFirst(tok: Token, rest: string)
    requires WellFormed(tok)
    ensures Tokenize(Spelling(tok) + rest) == Cons(tok, Tokenize(rest))
  {
    var s := Spelling(tok) + rest;
    match tok
    case Group(g) =>
      var close := IndexOf(s, ')', 0);
      IndexOfIsFirst(s, ')', 0);
      assert s[|g| + 1] == ')';
      assert forall k :: 1 <= k <= |g| ==> s[k] == g[k - 1];
      assert close == |g| + 1;
      assert s[1..close] == g;
      assert s[close + 1..] == rest;
    case _ =>
      assert s[0] == Spelling(tok)[0];
      assert s[1..] == rest;
  }

  /** Well-formed tokens are the only tokenization of their spelling. */
  lemma {:induction false} TokenizeUnique(ts: seq<Token>)
    requires forall k :: 0 <= k < |ts| ==> WellFormed(ts[k])
    ensures Tokenize(Spell(ts)) == Ok(ts)
  {
    if ts != [] {
      TokenizeUnique(ts[1..]);
      TokenizeFirst(ts[0], Spell(ts[1..]));
      assert [ts[0]] + ts[1..] == ts;
    }
  }

  /** The parser is tokenizing followed by interpreting; both fail with the same error. */
  lemma {:induction false} ParseIsInterpretation(s: string, t: int, frameTime: int)
    ensures ParseFrom(s, t, frameTime)
         == match Tokenize(s)
            case Ok(ts) => Ok(Interpret(ts, t, frameTime))
            case Err(e) => Err(e)
    decreases |s|
  {
    if s != [] {
      match s[0]
      case '-' => ParseIsInterpretation(s[1..], t + frameTime, frameTime);
      case '|' => ParseIsInterpretation(s[1..], t, frameTime);
      case '#' => ParseIsInterpretation(s[1..], t, frameTime);
      case ' ' => ParseIsInterpretation(s[1..], t, frameTime);
      case '(' =>
        var close := IndexOf(s, ')', 0);
        if close != -1 {
          ParseIsInterpretation(s[close + 1..], t + frameTime, frameTime);
        }
      case ')' =>
      case _ => ParseIsInterpretation(s[1..], t + frameTime, frameTime);
    }
  }

  /** Dashes, values and groups each take one frame; nothing else takes time. */
  lemma {:induction false} InterpretDuration(ts: seq<Token>, t: int, frameTime: int)
    ensures Interpret(ts, t, frameTime).duration
         == t + frameTime * (CountDashes(ts) + CountValues(ts) + CountGroups(ts))
  {
    if ts != [] {
      var n := CountDashes(ts[1..]) + CountValues(ts[1..]) + CountGroups(ts[1..]);
      match ts[0]
      case Dash =>
        InterpretDuration(ts[1..], t + frameTime, frameTime);
        assert frameTime * (n + 1) == frameTime * n + frameTime;
      case Group(g) =>
        InterpretDuration(ts[1..], t + frameTime, frameTime);
        assert frameTime * (n + 1) == frameTime * n + frameTime;
      case Value(c) =>
        InterpretDuration(ts[1..], t + frameTime, frameTime);
        assert frameTime * (n + 1) == frameTime * n + frameTime;
      case _ =>
        InterpretDuration(ts[1..], t, frameTime);
    }
  }

  /**
   * The duration of a successful parse is the frame time times the number of
   * dashes outside groups, plain values and groups; the parse fails exactly
   * when tokenizing fails, with the same error.
   */
  lemma DurationCountsFrames(s: string, frameTime: int)
    ensures Tokenize(s).Err? ==> Parse(s, frameTime) == Err(Tokenize(s).error)
    ensures Tokenize(s).Ok? ==>
      var ts := Tokenize(s).value;
      Parse(s, frameTime) == Ok(Interpret(ts, 0, frameTime)) &&
      Parse(s, frameTime).value.duration == frameTime * (CountDashes(ts) + CountValues(ts) + CountGroups(ts))
  {
    ParseIsInterpretation(s, 0, frameTime);
    if Tokenize(s).Ok? {
      InterpretDuration(Tokenize(s).value, 0, frameTime);
    }
  }
}
