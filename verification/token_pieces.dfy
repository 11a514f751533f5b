/** Method bodies as tokens and groups in braces, and exactly which of them the token automata
    accept (internal/admin/value_type.go:523-672). */
module TokenPieces {
  import opened ReturnFlow

  /** A keyword, other code, a semicolon, trivia, or a group in braces. The lexer makes a keyword of
      every reserved word, also where it names a property. */
  datatype Piece = Word(text: string) | Code | End | Gap | Braces(inner: seq<Piece>)

  function TokensOf(p: Piece): seq<Token>
    decreases p, 0
  {
    match p
    case Word(text) => [Keyword(text)]
    case Code => [Other]
    case End => [Semicolon]
    case Gap => [Trivia]
    case Braces(inner) => Braced(Tokens(inner))
  }

  function Tokens(pieces: seq<Piece>): seq<Token>
    decreases pieces, 1
  {
    if pieces == [] then [] else Tokens(pieces[..|pieces| - 1]) + TokensOf(pieces[|pieces| - 1])
  }

  // ---- Every balanced body is made of pieces.

  function Depth(tokens: seq<Token>): int {
    if tokens == [] then 0
    else
      Depth(tokens[..|tokens| - 1])
      + match tokens[|tokens| - 1] case OpenBrace => 1 case CloseBrace => -1 case _ => 0
  }

  predicate Balanced(tokens: seq<Token>) {
    Depth(tokens) == 0 && forall i :: 0 <= i <= |tokens| ==> Depth(tokens[..i]) >= 0
  }

  lemma {:induction false} DepthConcat(a: seq<Token>, b: seq<Token>)
    ensures Depth(a + b) == Depth(a) + Depth(b)
  {
    if b == [] {
      assert a + b == a;
    } else {
      assert (a + b)[..|a + b| - 1] == a + b[..|b| - 1];
      DepthConcat(a, b[..|b| - 1]);
    }
  }

  lemma DepthUpTo(tokens: seq<Token>, i: nat)
    requires i < |tokens|
    ensures Depth(tokens[..i + 1]) == Depth(tokens[..i]) + match tokens[i] case OpenBrace => 1 case CloseBrace => -1 case _ => 0
  {
    assert tokens[..i + 1][..i] == tokens[..i];
  }

  lemma DepthBetween(tokens: seq<Token>, i: nat, j: nat)
    requires i <= j <= |tokens|
    ensures Depth(tokens[..j]) == Depth(tokens[..i]) + Depth(tokens[i..j])
  {
    assert tokens[..j] == tokens[..i] + tokens[i..j];
    DepthConcat(tokens[..i], tokens[i..j]);
  }

  /** Where the brace group that ends at `n` begins. */
  lemma {:induction false} OpenedAt(tokens: seq<Token>, n: nat) returns (i: nat)
    requires n <= |tokens| && Depth(tokens[..n]) > 0 && forall j :: 0 <= j <= n ==> Depth(tokens[..j]) >= 0
    ensures i < n && tokens[i].OpenBrace? && Depth(tokens[..i]) == 0
    ensures forall j :: i < j <= n ==> Depth(tokens[..j]) > 0
  {
    DepthUpTo(tokens, n - 1);
    if Depth(tokens[..n - 1]) == 0 {
      i := n - 1;
    } else {
      i := OpenedAt(tokens, n - 1);
    }
  }

  lemma BalancedPart(tokens: seq<Token>, i: nat, j: nat)
    requires i <= j <= |tokens| && Depth(tokens[..i]) == Depth(tokens[..j])
    requires forall m :: i <= m <= j ==> Depth(tokens[..m]) >= Depth(tokens[..i])
    ensures Balanced(tokens[i..j])
  {
    DepthBetween(tokens, i, j);
    forall m | 0 <= m <= j - i ensures Depth(tokens[i..j][..m]) >= 0 {
      DepthBetween(tokens, i, i + m);
      assert tokens[i..j][..m] == tokens[i..i + m];
    }
  }

  lemma TokensSnoc(pieces: seq<Piece>, p: Piece)
    ensures Tokens(pieces + [p]) == Tokens(pieces) + TokensOf(p)
  {
    assert (pieces + [p])[..|pieces|] == pieces;
  }

  function PieceOf(t: Token): Piece {
    match t
    case Keyword(text) => Word(text)
    case Semicolon => End
    case Trivia => Gap
    case _ => Code
  }

  /** A balanced text that ends in a brace, cut at the brace it closes. */
  lemma GroupAtEnd(tokens: seq<Token>) returns (i: nat)
    requires Balanced(tokens) && tokens != [] && tokens[|tokens| - 1].CloseBrace?
    ensures i < |tokens| - 1 && Balanced(tokens[..i]) && Balanced(tokens[i + 1..|tokens| - 1])
    ensures tokens == tokens[..i] + Braced(tokens[i + 1..|tokens| - 1])
  {
    var n := |tokens| - 1;
    DepthUpTo(tokens, n);
    assert tokens[..n + 1] == tokens;
    i := OpenedAt(tokens, n);
    DepthUpTo(tokens, i);
    assert tokens[..0] == [] && tokens[0..i] == tokens[..i];
    BalancedPart(tokens, 0, i);
    BalancedPart(tokens, i + 1, n);
    assert tokens == tokens[..i] + ([tokens[i]] + tokens[i + 1..n] + [tokens[n]]);
  }

  lemma TokenAtEnd(tokens: seq<Token>)
    requires Balanced(tokens) && tokens != [] && !tokens[|tokens| - 1].CloseBrace?
    ensures Balanced(tokens[..|tokens| - 1]) && !tokens[|tokens| - 1].OpenBrace?
  {
    var n := |tokens| - 1;
    DepthUpTo(tokens, n);
    assert tokens[..n + 1] == tokens;
    assert tokens[..0] == [] && tokens[0..n] == tokens[..n];
    BalancedPart(tokens, 0, n);
  }

  lemma {:induction false} BalancedIsPieces(tokens: seq<Token>) returns (pieces: seq<Piece>)
    requires Balanced(tokens)
    ensures Tokens(pieces) == tokens
    decreases |tokens|
  {
    hide Balanced, Tokens, Braced;
    if tokens == [] {
      pieces := [];
      assert Tokens([]) == [] by { NoPieces(); }
    } else {
      var n := |tokens| - 1;
      var before: seq<Piece>, last: Piece;
      if tokens[n].CloseBrace? {
        var i := GroupAtEnd(tokens);
        before := BalancedIsPieces(tokens[..i]);
        var inner := BalancedIsPieces(tokens[i + 1..n]);
        last := Braces(inner);
      } else {
        TokenAtEnd(tokens);
        before := BalancedIsPieces(tokens[..n]);
        last := PieceOf(tokens[n]);
        assert TokensOf(last) == [tokens[n]] && tokens == tokens[..n] + [tokens[n]];
      }
      TokensSnoc(before, last);
      pieces := before + [last];
    }
  }

  lemma NoPieces()
    ensures Tokens([]) == []
  {
  }

  // ---- The automata on pieces.

  /** The return automaton sees what stands outside the groups. */
  function ReturnStep(st: ReturnState, p: Piece): ReturnState {
    match p
    case Word(text) => st.Observe(Keyword(text), 1)
    case Code => st.Observe(Other, 1)
    case End => st.Observe(Semicolon, 1)
    case _ => st
  }

  function ReadReturn(st: ReturnState, pieces: seq<Piece>): ReturnState {
    if pieces == [] then st else ReturnStep(ReadReturn(st, pieces[..|pieces| - 1]), pieces[|pieces| - 1])
  }

  /** In the body of a switch only the keywords outside further groups count. */
  function ReadWords(st: SwitchState, pieces: seq<Piece>): SwitchState {
    if pieces == [] then st
    else
      var before, last := ReadWords(st, pieces[..|pieces| - 1]), pieces[|pieces| - 1];
      if last.Word? then before.ObserveWord(last.text) else before
  }

  /** The switch automaton takes the first group behind a `switch` for its body. */
  function SwitchStep(st: SwitchState, p: Piece): SwitchState {
    match p
    case Word(text) => st.Observe(Keyword(text), 1)
    case Code => st.Observe(Other, 1)
    case End => st.Observe(Semicolon, 1)
    case Gap => st
    case Braces(inner) =>
      if st.phase.SeekingBody? then Left(ReadWords(st.(phase := InBody), inner))
      else if st.phase.Closed? then st.(invalid := true)
      else st
  }

  function Left(st: SwitchState): SwitchState {
    st.(invalid := st.invalid || st.pending, phase := Closed)
  }

  function ReadSwitch(st: SwitchState, pieces: seq<Piece>): SwitchState {
    if pieces == [] then st else SwitchStep(ReadSwitch(st, pieces[..|pieces| - 1]), pieces[|pieces| - 1])
  }

  /** Groups inside the body, and groups outside any, change nothing. */
  predicate Unmoved(flow: FlowState) {
    (flow.depth >= 3 && flow.terminalSwitch.phase.InBody?) || (flow.depth >= 2 && Settled(flow.terminalSwitch))
  }

  predicate Settled(st: SwitchState) {
    st.phase.Absent? || (st.phase.Closed? && st.invalid)
  }

  lemma VisitBraced(flow: FlowState, tokens: seq<Token>)
    ensures flow.VisitAll(Braced(tokens)) == flow.Visit(OpenBrace).VisitAll(tokens).Visit(CloseBrace)
  {
    VisitConcat(flow, [OpenBrace], tokens);
    VisitConcat(flow, [OpenBrace] + tokens, [CloseBrace]);
    VisitOne(flow, OpenBrace);
    VisitOne(flow.VisitAll([OpenBrace] + tokens), CloseBrace);
  }

  lemma DeepToken(flow: FlowState, p: Piece)
    requires Unmoved(flow) && !p.Braces?
    ensures flow.VisitAll(TokensOf(p)) == flow
  {
    VisitOne(flow, TokensOf(p)[0]);
  }

  lemma DeepGroup(flow: FlowState)
    requires Unmoved(flow)
    ensures Unmoved(flow.Visit(OpenBrace)) && flow.Visit(OpenBrace).Visit(CloseBrace) == flow
  {
  }

  lemma {:induction false} VisitDeep(flow: FlowState, pieces: seq<Piece>)
    requires Unmoved(flow)
    ensures flow.VisitAll(Tokens(pieces)) == flow
    decreases pieces
  {
    hide FlowState.Visit, Unmoved;
    if pieces != [] {
      var init, last := pieces[..|pieces| - 1], pieces[|pieces| - 1];
      VisitDeep(flow, init);
      VisitConcat(flow, Tokens(init), TokensOf(last));
      if last.Braces? {
        DeepGroup(flow);
        VisitBraced(flow, Tokens(last.inner));
        VisitDeep(flow.Visit(OpenBrace), last.inner);
      } else {
        DeepToken(flow, last);
      }
    }
  }

  lemma {:induction false} ReadWordsStays(st: SwitchState, pieces: seq<Piece>)
    ensures ReadWords(st, pieces).phase == st.phase && (st.invalid ==> ReadWords(st, pieces).invalid)
    ensures (st.hasDefault ==> st.hasEntry) ==> (ReadWords(st, pieces).hasDefault ==> ReadWords(st, pieces).hasEntry)
  {
    if pieces != [] {
      ReadWordsStays(st, pieces[..|pieces| - 1]);
    }
  }

  predicate InBodyOf(flow: FlowState) {
    flow.depth == 2 && flow.terminalSwitch.phase.InBody?
  }

  lemma BodyToken(flow: FlowState, p: Piece)
    requires InBodyOf(flow) && !p.Braces?
    ensures flow.VisitAll(TokensOf(p))
         == if p.Word? then flow.(terminalSwitch := flow.terminalSwitch.ObserveWord(p.text)) else flow
  {
    VisitOne(flow, TokensOf(p)[0]);
  }

  lemma BodyGroup(flow: FlowState, inner: seq<Piece>)
    requires InBodyOf(flow)
    ensures flow.VisitAll(TokensOf(Braces(inner))) == flow
  {
    VisitBraced(flow, Tokens(inner));
    VisitDeep(flow.Visit(OpenBrace), inner);
  }

  lemma {:induction false} VisitBody(flow: FlowState, pieces: seq<Piece>)
    requires InBodyOf(flow)
    ensures flow.VisitAll(Tokens(pieces)) == flow.(terminalSwitch := ReadWords(flow.terminalSwitch, pieces))
  {
    hide FlowState.Visit, TokensOf, SwitchState.ObserveWord;
    if pieces != [] {
      var init, last := pieces[..|pieces| - 1], pieces[|pieces| - 1];
      VisitBody(flow, init);
      ReadWordsStays(flow.terminalSwitch, init);
      VisitConcat(flow, Tokens(init), TokensOf(last));
      if last.Braces? {
        BodyGroup(flow.VisitAll(Tokens(init)), last.inner);
      } else {
        BodyToken(flow.VisitAll(Tokens(init)), last);
      }
    }
  }

  /** Outside all groups no switch body is open. */
  predicate Outside(flow: FlowState) {
    flow.depth == 1 && !flow.terminalSwitch.phase.InBody?
  }

  function Step(flow: FlowState, p: Piece): FlowState {
    flow.(topLevelReturn := ReturnStep(flow.topLevelReturn, p), terminalSwitch := SwitchStep(flow.terminalSwitch, p))
  }

  lemma OutsideToken(flow: FlowState, p: Piece)
    requires Outside(flow) && !p.Braces?
    ensures flow.VisitAll(TokensOf(p)) == Step(flow, p) && Outside(Step(flow, p))
  {
    VisitOne(flow, TokensOf(p)[0]);
  }

  lemma OutsideGroup(flow: FlowState, inner: seq<Piece>)
    requires Outside(flow)
    ensures flow.VisitAll(TokensOf(Braces(inner))) == Step(flow, Braces(inner)) && Outside(Step(flow, Braces(inner)))
  {
    VisitBraced(flow, Tokens(inner));
    var within := flow.Visit(OpenBrace);
    ReadWordsStays(within.terminalSwitch, inner);
    if flow.terminalSwitch.phase.SeekingBody? {
      VisitBody(within, inner);
    } else {
      VisitDeep(within, inner);
    }
  }

  lemma {:induction false} VisitPieces(flow: FlowState, pieces: seq<Piece>)
    requires Outside(flow)
    ensures var after := FlowState(ReadReturn(flow.topLevelReturn, pieces), ReadSwitch(flow.terminalSwitch, pieces), 1);
            flow.VisitAll(Tokens(pieces)) == after && Outside(after)
  {
    hide FlowState.Visit, TokensOf, ReturnStep, SwitchStep;
    if pieces != [] {
      var init, last := pieces[..|pieces| - 1], pieces[|pieces| - 1];
      VisitPieces(flow, init);
      VisitConcat(flow, Tokens(init), TokensOf(last));
      if last.Braces? {
        OutsideGroup(flow.VisitAll(Tokens(init)), last.inner);
      } else {
        OutsideToken(flow.VisitAll(Tokens(init)), last);
      }
    }
  }

  predicate AcceptsPieces(pieces: seq<Piece>) {
    Accepts(Braced(Tokens(pieces)))
  }

  lemma AcceptsReads(pieces: seq<Piece>)
    ensures AcceptsPieces(pieces) <==> ReadReturn(NO_RETURN, pieces).Complete() || ReadSwitch(NO_SWITCH, pieces).Complete()
  {
    VisitBraced(START, Tokens(pieces));
    VisitPieces(START.Visit(OpenBrace), pieces);
  }

  // ---- What the return automaton accepts.

  predicate Counts(p: Piece) {
    p.Word? || p.Code?
  }

  /** A return behind which no code follows a semicolon. */
  predicate ReturnLast(pieces: seq<Piece>, p: nat) {
    && p < |pieces| && pieces[p] == Word("return")
    && forall i, j :: p < i < j < |pieces| && pieces[i].End? ==> !Counts(pieces[j])
  }

  ghost predicate EndsInReturnWord(pieces: seq<Piece>) {
    exists p: nat :: ReturnLast(pieces, p)
  }

  predicate Shows(pieces: seq<Piece>, word: string) {
    Word(word) in pieces
  }

  predicate HasEnd(pieces: seq<Piece>) {
    End in pieces
  }

  /** Behind the last return, the automaton knows whether a semicolon was seen, and code behind it. */
  lemma {:induction false} ReadsLast(pieces: seq<Piece>, p: nat)
    requires p < |pieces| && pieces[p] == Word("return") && forall j :: p < j < |pieces| ==> pieces[j] != Word("return")
    ensures var st := ReadReturn(NO_RETURN, pieces);
            st.found && (st.semicolon <==> HasEnd(pieces[p + 1..])) && (st.invalid <==> !ReturnLast(pieces, p))
  {
    var n := |pieces| - 1;
    if p == n {
      assert pieces[p + 1..] == [];
    } else {
      var init, last := pieces[..n], pieces[n];
      ReadsLast(init, p);
      var before, after := init[p + 1..], pieces[p + 1..];
      assert after == before + [last];
      if HasEnd(before) {
        var i :| 0 <= i < |before| && before[i].End?;
        assert after[i].End? && pieces[p + 1 + i].End?;
      }
      if HasEnd(after) && !last.End? {
        var i :| 0 <= i < |after| && after[i].End?;
        assert before[i].End?;
      }
      if last.End? {
        assert after[|before|].End?;
      }
      LastGrows(pieces, p);
    }
  }

  lemma LastGrows(pieces: seq<Piece>, p: nat)
    requires p < |pieces| - 1 && pieces[p] == Word("return")
    ensures var init := pieces[..|pieces| - 1];
            ReturnLast(pieces, p) <==> ReturnLast(init, p) && !(HasEnd(init[p + 1..]) && Counts(pieces[|pieces| - 1]))
  {
    var n := |pieces| - 1;
    var init := pieces[..n];
    if HasEnd(init[p + 1..]) {
      var i :| 0 <= i < |init[p + 1..]| && init[p + 1..][i].End?;
      assert pieces[p + 1 + i].End?;
      assert ReturnLast(pieces, p) ==> !Counts(pieces[n]);
    }
    if ReturnLast(pieces, p) {
      forall i, j | p < i < j < n && init[i].End? ensures !Counts(init[j]) {
        assert pieces[i].End?;
      }
    }
    if ReturnLast(init, p) && !(HasEnd(init[p + 1..]) && Counts(pieces[n])) {
      forall i, j | p < i < j <= n && pieces[i].End? ensures !Counts(pieces[j]) {
        assert init[i].End? && init[p + 1..][i - p - 1].End?;
      }
    }
  }

  lemma {:induction false} ReadsNone(pieces: seq<Piece>)
    requires !Shows(pieces, "return")
    ensures ReadReturn(NO_RETURN, pieces) == NO_RETURN
  {
    if pieces != [] {
      assert pieces[|pieces| - 1] in pieces;
      ReadsNone(pieces[..|pieces| - 1]);
    }
  }

  lemma {:induction false} LastShown(pieces: seq<Piece>, word: string) returns (p: nat)
    requires Shows(pieces, word)
    ensures p < |pieces| && pieces[p] == Word(word) && forall j :: p < j < |pieces| ==> pieces[j] != Word(word)
  {
    var n := |pieces| - 1;
    if pieces[n] == Word(word) {
      p := n;
    } else {
      p := LastShown(pieces[..n], word);
    }
  }

  /** The return automaton accepts exactly the bodies that show, outside all groups, a return behind
      which no code follows a semicolon; whatever the return belongs to. */
  lemma ReturnAcceptsIff(pieces: seq<Piece>)
    ensures ReadReturn(NO_RETURN, pieces).Complete() <==> EndsInReturnWord(pieces)
  {
    if Shows(pieces, "return") {
      var p := LastShown(pieces, "return");
      ReadsLast(pieces, p);
      if q: nat :| ReturnLast(pieces, q) {
        assert q <= p;
      }
    } else {
      ReadsNone(pieces);
    }
  }

  // ---- What the switch automaton accepts.

  const SEEKING := SwitchState(SeekingBody, false, false, false, false)
  const ENTERED := SwitchState(InBody, false, false, false, false)

  predicate Entry(p: Piece) {
    p == Word("case") || p == Word("default")
  }

  predicate Stop(p: Piece) {
    p == Word("return") || p == Word("throw")
  }

  /** Behind the entry comes a return or throw, and no break in front of it. */
  predicate StoppedAt(inner: seq<Piece>, i: nat, j: nat) {
    i < j < |inner| && Stop(inner[j]) && forall m :: i < m < j ==> inner[m] != Word("break")
  }

  ghost predicate Stopped(inner: seq<Piece>, i: nat) {
    exists j: nat :: StoppedAt(inner, i, j)
  }

  /** What the automaton makes of the words in a switch body. */
  predicate AcceptsWords(inner: seq<Piece>) {
    var st := ReadWords(ENTERED, inner);
    st.hasDefault && !st.invalid && !st.pending
  }

  /** No break and no stop since the entry. */
  predicate OpenSince(inner: seq<Piece>, i: nat) {
    i < |inner| && Entry(inner[i]) && forall m :: i < m < |inner| ==> !Stop(inner[m]) && inner[m] != Word("break")
  }

  ghost predicate SomeOpen(inner: seq<Piece>) {
    exists i: nat :: OpenSince(inner, i)
  }

  /** No entry has come to a break. */
  ghost predicate NoneBroken(inner: seq<Piece>) {
    forall i: nat :: i < |inner| && Entry(inner[i]) ==> Stopped(inner, i) || OpenSince(inner, i)
  }

  lemma OpenGrows(inner: seq<Piece>)
    requires inner != []
    ensures var init, last := inner[..|inner| - 1], inner[|inner| - 1];
            SomeOpen(inner) <==> Entry(last) || (SomeOpen(init) && !Stop(last) && last != Word("break"))
  {
    var n := |inner| - 1;
    var init, last := inner[..n], inner[n];
    if Entry(last) {
      assert OpenSince(inner, n);
    }
    if i: nat :| OpenSince(inner, i) {
      assert i < n ==> OpenSince(init, i);
    }
    if i: nat :| OpenSince(init, i) {
      SinceGrows(inner, i);
    }
  }

  lemma BrokenGrows(inner: seq<Piece>)
    requires inner != []
    ensures var init, last := inner[..|inner| - 1], inner[|inner| - 1];
            NoneBroken(inner) <==> NoneBroken(init) && !(last == Word("break") && SomeOpen(init))
  {
    var n := |inner| - 1;
    var init, last := inner[..n], inner[n];
    forall i: nat | i < n && Entry(inner[i])
      ensures Stopped(inner, i) || OpenSince(inner, i)
         <==> (Stopped(init, i) || OpenSince(init, i)) && !(last == Word("break") && OpenSince(init, i))
    {
      SinceGrows(inner, i);
      NotBoth(init, i);
    }
    if Entry(last) {
      assert OpenSince(inner, n);
    }
    assert forall i: nat :: i < n ==> init[i] == inner[i];
  }

  lemma {:induction false} ReadsWords(inner: seq<Piece>)
    ensures var st := ReadWords(ENTERED, inner);
            && (st.hasDefault <==> Shows(inner, "default"))
            && (!st.invalid ==> (st.pending <==> SomeOpen(inner)))
            && (!st.invalid <==> NoneBroken(inner))
  {
    hide SomeOpen, NoneBroken;
    if inner == [] {
      NothingOpen();
    } else {
      assert inner == inner[..|inner| - 1] + [inner[|inner| - 1]];
      ReadsWords(inner[..|inner| - 1]);
      OpenGrows(inner);
      BrokenGrows(inner);
    }
  }

  lemma NothingOpen()
    ensures !SomeOpen([]) && NoneBroken([])
  {
  }

  lemma NotBoth(inner: seq<Piece>, i: nat)
    ensures !(Stopped(inner, i) && OpenSince(inner, i))
  {
  }

  lemma SinceGrows(inner: seq<Piece>, i: nat)
    requires i < |inner| - 1 && Entry(inner[i])
    ensures var init, last := inner[..|inner| - 1], inner[|inner| - 1];
            && (Stopped(inner, i) <==> Stopped(init, i) || (OpenSince(init, i) && Stop(last)))
            && (OpenSince(inner, i) <==> OpenSince(init, i) && !Stop(last) && last != Word("break"))
  {
    var n := |inner| - 1;
    var init, last := inner[..n], inner[n];
    if j: nat :| StoppedAt(init, i, j) {
      assert StoppedAt(inner, i, j);
    }
    if OpenSince(init, i) && Stop(last) {
      assert StoppedAt(inner, i, n);
    }
    if j: nat :| StoppedAt(inner, i, j) {
      if j < n {
        assert StoppedAt(init, i, j);
      } else if !Stopped(init, i) {
        FirstStop(init, i);
      }
    }
  }

  /** Without a break, an entry is stopped or open. */
  lemma {:induction false} FirstStop(inner: seq<Piece>, i: nat)
    requires i < |inner| && Entry(inner[i]) && forall m :: i < m < |inner| ==> inner[m] != Word("break")
    ensures Stopped(inner, i) || OpenSince(inner, i)
  {
    if !OpenSince(inner, i) {
      var m :| i < m < |inner| && Stop(inner[m]);
      assert StoppedAt(inner, i, m);
    }
  }

  /** The words of a switch body are accepted exactly when one is `default` and every entry comes to
      a return or throw before it comes to a break. */
  lemma WordsAcceptedIff(inner: seq<Piece>)
    ensures AcceptsWords(inner)
       <==> Shows(inner, "default") && forall i: nat :: i < |inner| && Entry(inner[i]) ==> Stopped(inner, i)
  {
    ReadsWords(inner);
    forall i: nat ensures !(Stopped(inner, i) && OpenSince(inner, i)) {
      NotBoth(inner, i);
    }
  }

  predicate Idle(p: Piece) {
    p.End? || p.Gap?
  }

  /** The last `switch`, the first group behind it accepted, and nothing but semicolons behind that. */
  predicate SwitchLast(pieces: seq<Piece>, p: nat, q: nat) {
    && p < q < |pieces| && pieces[p] == Word("switch") && pieces[q].Braces?
    && (forall j :: p < j < q ==> !pieces[j].Braces? && pieces[j] != Word("switch"))
    && (forall j :: q < j < |pieces| ==> Idle(pieces[j]))
    && AcceptsWords(pieces[q].inner)
  }

  ghost predicate EndsInSwitchWord(pieces: seq<Piece>) {
    exists p: nat, q: nat :: SwitchLast(pieces, p, q)
  }

  lemma {:induction false} ReadsAbsent(pieces: seq<Piece>)
    requires !Shows(pieces, "switch")
    ensures ReadSwitch(NO_SWITCH, pieces) == NO_SWITCH
  {
    if pieces != [] {
      assert pieces[|pieces| - 1] in pieces;
      ReadsAbsent(pieces[..|pieces| - 1]);
    }
  }

  lemma {:induction false} ReadsSeeking(pieces: seq<Piece>, p: nat)
    requires p < |pieces| && pieces[p] == Word("switch")
    requires forall j :: p < j < |pieces| ==> !pieces[j].Braces? && pieces[j] != Word("switch")
    ensures ReadSwitch(NO_SWITCH, pieces) == SEEKING
  {
    if p < |pieces| - 1 {
      ReadsSeeking(pieces[..|pieces| - 1], p);
    }
  }

  lemma {:induction false} ReadsClosed(pieces: seq<Piece>, p: nat, q: nat)
    requires p < q < |pieces| && pieces[p] == Word("switch") && pieces[q].Braces?
    requires forall j :: p < j < q ==> !pieces[j].Braces? && pieces[j] != Word("switch")
    requires forall j :: q < j < |pieces| ==> pieces[j] != Word("switch")
    ensures var st := ReadSwitch(NO_SWITCH, pieces);
            st.phase.Closed? && (st.Complete() <==> SwitchLast(pieces, p, q))
  {
    var n := |pieces| - 1;
    ReadWordsStays(ENTERED, pieces[q].inner);
    if q == n {
      ReadsSeeking(pieces[..n], p);
    } else {
      var init := pieces[..n];
      ReadsClosed(init, p, q);
      assert SwitchLast(pieces, p, q) <==> SwitchLast(init, p, q) && Idle(pieces[n]);
    }
  }

  lemma {:induction false} FirstGroup(pieces: seq<Piece>, p: nat) returns (q: nat)
    requires p <= |pieces| && exists j :: p <= j < |pieces| && pieces[j].Braces?
    ensures p <= q < |pieces| && pieces[q].Braces? && forall j :: p <= j < q ==> !pieces[j].Braces?
    decreases |pieces| - p
  {
    if pieces[p].Braces? {
      q := p;
    } else {
      q := FirstGroup(pieces, p + 1);
    }
  }

  /** The switch automaton accepts exactly the bodies whose last `switch` is followed by a group with
      accepted words, and that by nothing but semicolons. */
  lemma SwitchAcceptsIff(pieces: seq<Piece>)
    ensures ReadSwitch(NO_SWITCH, pieces).Complete() <==> EndsInSwitchWord(pieces)
  {
    if p: nat, q: nat :| SwitchLast(pieces, p, q) {
      ReadsClosed(pieces, p, q);
    } else if Shows(pieces, "switch") {
      var p := LastShown(pieces, "switch");
      if exists j :: p + 1 <= j < |pieces| && pieces[j].Braces? {
        var q := FirstGroup(pieces, p + 1);
        ReadsClosed(pieces, p, q);
      } else {
        ReadsSeeking(pieces, p);
      }
    } else {
      ReadsAbsent(pieces);
    }
  }

  /** Exactly which bodies are taken to return always. */
  lemma AcceptsIff(pieces: seq<Piece>)
    ensures AcceptsPieces(pieces) <==> EndsInReturnWord(pieces) || EndsInSwitchWord(pieces)
  {
    AcceptsReads(pieces);
    ReturnAcceptsIff(pieces);
    SwitchAcceptsIff(pieces);
  }
}
