/** The token automata that claim a method body cannot fall off its end:
    internal/admin/value_type.go:523-672. */
module ReturnFlow {
  import opened AdminModel
  import opened TextScan

  // ---- Tokens and automata.

  datatype Token = Keyword(text: string) | OpenBrace | CloseBrace | Semicolon | Other | Trivia

  /** vueTopLevelReturnFlow */
  datatype ReturnState = ReturnState(found: bool, semicolon: bool, invalid: bool)
  {
    function Observe(token: Token, depth: int): ReturnState {
      if token == Keyword("return") && depth == 1 then ReturnState(true, false, false)
      else if !found then this
      else if token.Semicolon? then if depth == 1 then this.(semicolon := true) else this
      else if depth > 1 || (token.CloseBrace? && depth == 1) then this
      else if semicolon then this.(invalid := true)
      else this
    }

    predicate Complete() {
      found && !invalid
    }
  }

  datatype SwitchPhase = Absent | SeekingBody | InBody | Closed

  /** vueTerminalSwitchFlow */
  datatype SwitchState = SwitchState(phase: SwitchPhase, hasEntry: bool, hasDefault: bool, pending: bool, invalid: bool)
  {
    function Observe(token: Token, depth: int): SwitchState {
      if token == Keyword("switch") && depth == 1 then SwitchState(SeekingBody, false, false, false, false)
      else match phase
        case Absent => this
        case SeekingBody => if token.OpenBrace? && depth == 2 then this.(phase := InBody) else this
        case InBody =>
          if token.CloseBrace? && depth == 2 then this.(invalid := invalid || pending, phase := Closed)
          else if !token.Keyword? || depth != 2 then this
          else ObserveWord(token.text)
        case Closed =>
          if !token.Semicolon? && (!token.CloseBrace? || depth != 1) then this.(invalid := true) else this
    }

    function ObserveWord(word: string): SwitchState {
      if word == "case" then this.(hasEntry := true, pending := true)
      else if word == "default" then this.(hasEntry := true, hasDefault := true, pending := true)
      else if word == "return" || word == "throw" then this.(pending := false)
      else if word == "break" && pending then this.(invalid := true, pending := false)
      else this
    }

    predicate Complete() {
      phase.Closed? && hasEntry && hasDefault && !invalid
    }
  }

  const NO_RETURN := ReturnState(false, false, false)
  const NO_SWITCH := SwitchState(Absent, false, false, false, false)

  /** vueControlFlowCompleteness */
  datatype FlowState = FlowState(topLevelReturn: ReturnState, terminalSwitch: SwitchState, depth: int)
  {
    function Visit(token: Token): FlowState {
      if token.Trivia? then this
      else
        var inner := if token.OpenBrace? then depth + 1 else depth;
        FlowState(topLevelReturn.Observe(token, inner), terminalSwitch.Observe(token, inner),
                  if token.CloseBrace? then inner - 1 else inner)
    }

    function VisitAll(tokens: seq<Token>): FlowState {
      if tokens == [] then this else VisitAll(tokens[..|tokens| - 1]).Visit(tokens[|tokens| - 1])
    }
  }

  const START := FlowState(NO_RETURN, NO_SWITCH, 0)

  /** What vueMethodReturnsComplete makes of a block body. */
  predicate Accepts(tokens: seq<Token>) {
    var flow := START.VisitAll(tokens);
    flow.topLevelReturn.Complete() || flow.terminalSwitch.Complete()
  }

  class TopLevelReturnFlow {
    var found: bool
    var semicolon: bool
    var invalid: bool

    constructor ()
      ensures Value() == NO_RETURN
    {
      found, semicolon, invalid := false, false, false;
    }

    ghost function Value(): ReturnState
      reads this
    {
      ReturnState(found, semicolon, invalid)
    }

    method Observe(token: Token, depth: int)
      modifies this
      ensures Value() == old(Value()).Observe(token, depth)
    {
      if token == Keyword("return") && depth == 1 {
        found, semicolon, invalid := true, false, false;
        return;
      }
      if !found {
        return;
      }
      if token.Semicolon? {
        if depth == 1 {
          semicolon := true;
        }
        return;
      }
      if depth > 1 || (token.CloseBrace? && depth == 1) {
        return;
      }
      if semicolon {
        invalid := true;
      }
    }
  }

  class TerminalSwitchFlow {
    var phase: SwitchPhase
    var hasEntry: bool
    var hasDefault: bool
    var pending: bool
    var invalid: bool

    constructor ()
      ensures Value() == NO_SWITCH
    {
      phase, hasEntry, hasDefault, pending, invalid := Absent, false, false, false, false;
    }

    ghost function Value(): SwitchState
      reads this
    {
      SwitchState(phase, hasEntry, hasDefault, pending, invalid)
    }

    method Observe(token: Token, depth: int)
      modifies this
      ensures Value() == old(Value()).Observe(token, depth)
    {
      if token == Keyword("switch") && depth == 1 {
        phase, hasEntry, hasDefault, pending, invalid := SeekingBody, false, false, false, false;
        return;
      }
      match phase {
        case Absent =>
        case SeekingBody =>
          if token.OpenBrace? && depth == 2 {
            phase := InBody;
          }
        case InBody =>
          if token.CloseBrace? && depth == 2 {
            invalid := invalid || pending;
            phase := Closed;
            return;
          }
          if !token.Keyword? || depth != 2 {
            return;
          }
          if token.text == "case" {
            hasEntry, pending := true, true;
          } else if token.text == "default" {
            hasEntry, hasDefault, pending := true, true, true;
          } else if token.text == "return" || token.text == "throw" {
            pending := false;
          } else if token.text == "break" {
            if pending {
              invalid, pending := true, false;
            }
          }
        case Closed =>
          if !token.Semicolon? && (!token.CloseBrace? || depth != 1) {
            invalid := true;
          }
      }
    }
  }

  class ControlFlowCompleteness {
    const topLevelReturn: TopLevelReturnFlow
    const terminalSwitch: TerminalSwitchFlow
    var depth: int

    constructor ()
      ensures Value() == START && fresh(topLevelReturn) && fresh(terminalSwitch)
    {
      topLevelReturn := new TopLevelReturnFlow();
      terminalSwitch := new TerminalSwitchFlow();
      depth := 0;
    }

    ghost function Value(): FlowState
      reads this, topLevelReturn, terminalSwitch
    {
      FlowState(topLevelReturn.Value(), terminalSwitch.Value(), depth)
    }

    method Visit(token: Token)
      modifies this, topLevelReturn, terminalSwitch
      ensures Value() == old(Value()).Visit(token)
    {
      if token.Trivia? {
        return;
      }
      var inner := depth;
      if token.OpenBrace? {
        inner := inner + 1;
        depth := inner;
      }
      topLevelReturn.Observe(token, inner);
      terminalSwitch.Observe(token, inner);
      if token.CloseBrace? {
        depth := depth - 1;
      }
    }
  }

  /** A method with a block body, or the text of one without. */
  datatype MethodBody = WithBlock(tokens: seq<Token>) | NoBlock(isArrow: bool, text: string)

  /** The text behind the first arrow. */
  function BehindArrow(text: string): Option<string> {
    if text == "" then None else if "=>" <= text then Some(text[2..]) else BehindArrow(text[1..])
  }

  /** How many expressions a method without a block returns: the one behind its first arrow, unless
      nothing or a brace stands there. */
  function ReturnedExpressions(isArrow: bool, text: string): nat {
    match if isArrow then BehindArrow(text) else None
    case None => 0
    case Some(rest) => if Trim(rest) == "" || Trim(rest)[0] == '{' then 0 else 1
  }

  predicate AlwaysReturns(body: MethodBody) {
    match body
    case WithBlock(tokens) => Accepts(tokens)
    case NoBlock(isArrow, text) => isArrow && ReturnedExpressions(isArrow, text) == 1
  }

  method MethodReturnsComplete(body: MethodBody) returns (complete: bool)
    ensures complete == AlwaysReturns(body)
  {
    if body.NoBlock? {
      return body.isArrow && ReturnedExpressions(body.isArrow, body.text) == 1;
    }
    var tokens := body.tokens;
    var flow := new ControlFlowCompleteness();
    for i := 0 to |tokens|
      invariant fresh(flow) && fresh(flow.topLevelReturn) && fresh(flow.terminalSwitch)
      invariant flow.Value() == START.VisitAll(tokens[..i])
    {
      assert tokens[..i + 1][..i] == tokens[..i];
      flow.Visit(tokens[i]);
    }
    assert tokens[..|tokens|] == tokens;
    var topLevel := flow.topLevelReturn;
    var last := flow.terminalSwitch;
    return (topLevel.found && !topLevel.invalid) || (last.phase.Closed? && last.hasEntry && last.hasDefault && !last.invalid);
  }

  function Braced(tokens: seq<Token>): seq<Token> {
    [OpenBrace] + tokens + [CloseBrace]
  }

  // ---- Visiting.

  lemma {:induction false} VisitConcat(flow: FlowState, a: seq<Token>, b: seq<Token>)
    ensures flow.VisitAll(a + b) == flow.VisitAll(a).VisitAll(b)
  {
    if b == [] {
      assert a + b == a;
    } else {
      assert (a + b)[..|a + b| - 1] == a + b[..|b| - 1];
      VisitConcat(flow, a, b[..|b| - 1]);
    }
  }

  lemma VisitOne(flow: FlowState, t: Token)
    ensures flow.VisitAll([t]) == flow.Visit(t)
  {
    assert [t][..0] == [];
  }

  /** White space and comments change nothing. */
  function Significant(tokens: seq<Token>): seq<Token> {
    if tokens == [] then []
    else Significant(tokens[..|tokens| - 1]) + if tokens[|tokens| - 1].Trivia? then [] else [tokens[|tokens| - 1]]
  }

  lemma {:induction false} TriviaIgnored(flow: FlowState, tokens: seq<Token>)
    ensures flow.VisitAll(Significant(tokens)) == flow.VisitAll(tokens)
  {
    if tokens != [] {
      var init, last := tokens[..|tokens| - 1], tokens[|tokens| - 1];
      TriviaIgnored(flow, init);
      if last.Trivia? {
        assert Significant(init) + [] == Significant(init);
      } else {
        VisitConcat(flow, Significant(init), [last]);
        VisitOne(flow.VisitAll(Significant(init)), last);
      }
    }
  }
}
